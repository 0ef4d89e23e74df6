/**
 * Striped storage built from the locate functions and the XOR operations of
 * src/base/math_misc.c: after any writes, any one server may be lost.
 */
module Raid5Recovery {
  import opened ByteStrings
  import DivMod
  import opened Raid5Layout
  import opened Xor

  type Block = Bytes

  /** The blocks of m servers, for a number of whole stripes. */
  datatype Raid = Raid(kind: Kind, m: nat, blockSize: nat, stripes: nat, cells: map<Cell, Block>)

  datatype WriteOp = WriteOp(i: nat, data: Block)

  /** The block or parity that stripe k has on server s. */
  function OwnerAt(kind: Kind, k: nat, s: nat, m: nat): Owner
    requires 2 <= m && s < m
  {
    if s == ParityServer(k, m) then Parity(k)
    else
      PositionInRange(kind, k, s, m);
      Block(BlockAt(k, Position(kind, k, s, m), m))
  }

  function StripeCell(kind: Kind, k: nat, s: nat, m: nat): Cell
    requires 2 <= m && s < m
  {
    CellOf(kind, OwnerAt(kind, k, s, m), m)
  }

  lemma StripeCellInvertible(kind: Kind, k: nat, s: nat, m: nat)
    requires 2 <= m && s < m
    ensures var c := StripeCell(kind, k, s, m);
      c.server == s && OwnerOf(kind, c, m) == OwnerAt(kind, k, s, m)
  {
    OwnerOfCellOf(kind, OwnerAt(kind, k, s, m), m);
    if s == ParityServer(k, m) {
      LocateStripe(kind, k, 0, m);
    } else {
      PositionInRange(kind, k, s, m);
      ServerOfPosition(kind, k, s, m);
    }
  }

  function StripeOf(o: Owner, m: nat): int
    requires 2 <= m
  {
    match o case Block(i) => i / (m - 1) case Parity(k) => k
  }

  lemma StripeOfOwnerAt(kind: Kind, k: nat, s: nat, m: nat)
    requires 2 <= m && s < m
    ensures StripeOf(OwnerAt(kind, k, s, m), m) == k
  {
    if s != ParityServer(k, m) {
      PositionInRange(kind, k, s, m);
      StripeOfBlock(k, Position(kind, k, s, m), m);
    }
  }

  /** Different servers or different stripes never share a cell. */
  lemma StripeCellInjective(kind: Kind, k1: nat, s1: nat, k2: nat, s2: nat, m: nat)
    requires 2 <= m && s1 < m && s2 < m
    requires StripeCell(kind, k1, s1, m) == StripeCell(kind, k2, s2, m)
    ensures k1 == k2 && s1 == s2
  {
    StripeCellInvertible(kind, k1, s1, m);
    StripeCellInvertible(kind, k2, s2, m);
    StripeOfOwnerAt(kind, k1, s1, m);
    StripeOfOwnerAt(kind, k2, s2, m);
  }

  /** Block i is what its stripe has on its server, and the parity what it has on SP. */
  lemma BlockInStripe(kind: Kind, i: nat, m: nat)
    requires 2 <= m
    ensures var l := Locate(kind, i, m);
      && 0 <= i / (m - 1)
      && 0 <= l.sd < m && 0 <= l.sp < m && l.sd != l.sp
      && l.sp == ParityServer(i / (m - 1), m)
      && DataCell(kind, i, m) == StripeCell(kind, i / (m - 1), l.sd, m)
      && ParityCell(kind, i, m) == StripeCell(kind, i / (m - 1), l.sp, m)
  {
    DivMod.Bounds(i, m - 1);
    PositionInStripe(kind, i / (m - 1), i % (m - 1), m);
  }

  lemma PositionInStripe(kind: Kind, k: nat, j: nat, m: nat)
    requires 2 <= m && j < m - 1
    ensures var i := BlockAt(k, j, m);
      var l := Locate(kind, i, m);
      && 0 <= l.sd < m && 0 <= l.sp < m && l.sd != l.sp
      && l.sp == ParityServer(k, m)
      && DataCell(kind, i, m) == StripeCell(kind, k, l.sd, m)
      && ParityCell(kind, i, m) == StripeCell(kind, k, l.sp, m)
  {
    DataServer(kind, k, j, m);
    ParityOfStripe(kind, k, j, m);
  }

  /** All blocks of a stripe have the same parity cell. */
  lemma ParityOfStripe(kind: Kind, k: nat, j: nat, m: nat)
    requires 2 <= m && j < m - 1
    ensures Locate(kind, BlockAt(k, j, m), m).sp == ParityServer(k, m)
    ensures ParityCell(kind, BlockAt(k, j, m), m) == CellOf(kind, Parity(k), m)
  {
    LocateStripe(kind, k, j, m);
    LocateStripe(kind, k, 0, m);
  }

  ghost predicate Shaped(r: Raid) {
    && 2 <= r.m
    && forall k, s :: 0 <= k < r.stripes && 0 <= s < r.m ==>
      var c := StripeCell(r.kind, k, s, r.m); c in r.cells && |r.cells[c]| == r.blockSize
  }

  /** What stripe k has on the servers 0..m-1. */
  function Row(r: Raid, k: nat): (row: seq<Block>)
    requires Shaped(r) && k < r.stripes
    ensures |row| == r.m && SameSize(row, r.blockSize)
    ensures forall s :: 0 <= s < r.m ==> row[s] == r.cells[StripeCell(r.kind, k, s, r.m)]
  {
    seq(r.m, s requires 0 <= s < r.m => r.cells[StripeCell(r.kind, k, s, r.m)])
  }

  /** The parity block of stripe k is the XOR of its data blocks. */
  ghost predicate ParityRight(r: Raid, k: nat)
    requires Shaped(r) && k < r.stripes
  {
    Row(r, k)[ParityServer(k, r.m)] == XorBlocks(Without(Row(r, k), ParityServer(k, r.m)), r.blockSize)
  }

  ghost predicate Consistent(r: Raid) {
    Shaped(r) && forall k :: 0 <= k < r.stripes ==> ParityRight(r, k)
  }

  predicate InRange(r: Raid, i: nat) {
    2 <= r.m && i / (r.m - 1) < r.stripes
  }

  function ReadBlock(r: Raid, i: nat): Block
    requires Shaped(r) && InRange(r, i)
  {
    BlockInStripe(r.kind, i, r.m);
    r.cells[DataCell(r.kind, i, r.m)]
  }

  /** A small write: the data block, then the parity from old parity, old data and new data. */
  function WriteBlock(r: Raid, i: nat, data: Block): Raid
    requires Shaped(r) && InRange(r, i) && |data| == r.blockSize
  {
    BlockInStripe(r.kind, i, r.m);
    var d, p := DataCell(r.kind, i, r.m), ParityCell(r.kind, i, r.m);
    var parity := Xor3Blocks(r.cells[p], r.cells[d], data, r.blockSize);
    r.(cells := r.cells[d := data][p := parity])
  }

  /** A write touches two servers of one stripe and leaves every other stripe as it is. */
  lemma WriteChangesOneStripe(r: Raid, i: nat, data: Block)
    requires Shaped(r) && InRange(r, i) && |data| == r.blockSize
    ensures var w, l := WriteBlock(r, i, data), Locate(r.kind, i, r.m);
      && Shaped(w)
      && 0 <= i / (r.m - 1) < r.stripes
      && 0 <= l.sd < r.m && 0 <= l.sp < r.m
      && Row(w, i / (r.m - 1)) == Row(r, i / (r.m - 1))[l.sd := data][l.sp :=
           Xor3Blocks(Row(r, i / (r.m - 1))[l.sp], Row(r, i / (r.m - 1))[l.sd], data, r.blockSize)]
      && forall k :: 0 <= k < r.stripes && k != i / (r.m - 1) ==> Row(w, k) == Row(r, k)
  {
    BlockInStripe(r.kind, i, r.m);
    var w, l, ki := WriteBlock(r, i, data), Locate(r.kind, i, r.m), i / (r.m - 1);
    forall k, s | 0 <= k < r.stripes && 0 <= s < r.m
      ensures var c := StripeCell(r.kind, k, s, r.m);
        && c in w.cells && |w.cells[c]| == r.blockSize
        && (k != ki || (s != l.sd && s != l.sp) ==> w.cells[c] == r.cells[c])
    {
      if StripeCell(r.kind, k, s, r.m) == DataCell(r.kind, i, r.m) {
        StripeCellInjective(r.kind, k, s, ki, l.sd, r.m);
      }
      if StripeCell(r.kind, k, s, r.m) == ParityCell(r.kind, i, r.m) {
        StripeCellInjective(r.kind, k, s, ki, l.sp, r.m);
      }
    }
    forall k | 0 <= k < r.stripes && k != ki ensures Row(w, k) == Row(r, k) {
    }
  }

  /** Every write keeps the parity of every stripe right. */
  lemma WriteKeepsParity(r: Raid, i: nat, data: Block)
    requires Consistent(r) && InRange(r, i) && |data| == r.blockSize
    ensures Consistent(WriteBlock(r, i, data))
  {
    WriteChangesOneStripe(r, i, data);
    BlockInStripe(r.kind, i, r.m);
    var w, l, ki := WriteBlock(r, i, data), Locate(r.kind, i, r.m), i / (r.m - 1);
    forall k | 0 <= k < r.stripes ensures ParityRight(w, k) {
      assert ParityRight(r, k);
      if k == ki {
        ParityUpdate(Row(r, k), r.blockSize, l.sp, l.sd, data);
      }
    }
  }

  /** A write is seen by reads of its block and by no other. */
  lemma ReadAfterWrite(r: Raid, i: nat, data: Block, i': nat)
    requires Shaped(r) && InRange(r, i) && InRange(r, i') && |data| == r.blockSize
    ensures Shaped(WriteBlock(r, i, data))
    ensures ReadBlock(WriteBlock(r, i, data), i') == if i == i' then data else ReadBlock(r, i')
  {
    WriteChangesOneStripe(r, i, data);
    BlockInStripe(r.kind, i, r.m);
    BlockInStripe(r.kind, i', r.m);
    OwnerOfCellOf(r.kind, Block(i), r.m);
    OwnerOfCellOf(r.kind, Block(i'), r.m);
  }

  predicate ValidOps(r: Raid, ops: seq<WriteOp>) {
    forall n :: 0 <= n < |ops| ==> InRange(r, ops[n].i) && |ops[n].data| == r.blockSize
  }

  /** The storage after a sequence of writes. */
  function Run(r: Raid, ops: seq<WriteOp>): (r': Raid)
    requires Shaped(r) && ValidOps(r, ops)
    ensures Shaped(r') && r'.(cells := r.cells) == r
  {
    if ops == [] then r
    else
      var n := |ops| - 1;
      assert ValidOps(r, ops[..n]);
      var before := Run(r, ops[..n]);
      assert InRange(r, ops[n].i);
      WriteChangesOneStripe(before, ops[n].i, ops[n].data);
      WriteBlock(before, ops[n].i, ops[n].data)
  }

  /** What block i should hold: the last data written to it. */
  function LastWrite(ops: seq<WriteOp>, i: nat, initial: Block): Block {
    if ops == [] then initial
    else
      var n := |ops| - 1;
      if ops[n].i == i then ops[n].data else LastWrite(ops[..n], i, initial)
  }

  lemma {:induction false} RunKeepsParity(r: Raid, ops: seq<WriteOp>)
    requires Consistent(r) && ValidOps(r, ops)
    ensures Consistent(Run(r, ops))
  {
    if ops != [] {
      var n := |ops| - 1;
      RunKeepsParity(r, ops[..n]);
      assert InRange(r, ops[n].i);
      WriteKeepsParity(Run(r, ops[..n]), ops[n].i, ops[n].data);
    }
  }

  lemma {:induction false} RunReads(r: Raid, ops: seq<WriteOp>, i: nat)
    requires Shaped(r) && ValidOps(r, ops) && InRange(r, i)
    ensures ReadBlock(Run(r, ops), i) == LastWrite(ops, i, ReadBlock(r, i))
  {
    if ops != [] {
      var n := |ops| - 1;
      RunReads(r, ops[..n], i);
      assert InRange(r, ops[n].i);
      ReadAfterWrite(Run(r, ops[..n]), ops[n].i, ops[n].data, i);
    }
  }

  /** What server f held for stripe k, computed with XorN from the other servers alone. */
  function Rebuild(r: Raid, k: nat, f: nat): Block
    requires Shaped(r) && k < r.stripes && f < r.m
  {
    XorBlocks(Without(Row(r, k), f), r.blockSize)
  }

  /** A read while server f is down. */
  function DegradedRead(r: Raid, f: nat, i: nat): Block
    requires Shaped(r) && InRange(r, i) && f < r.m
  {
    if Locate(r.kind, i, r.m).sd == f
    then DivMod.Bounds(i, r.m - 1); Rebuild(r, i / (r.m - 1), f)
    else ReadBlock(r, i)
  }

  /**
   * Any one server may be lost: every block and every parity block it held is the XOR
   * of what the other servers hold for the stripe.
   */
  lemma AnyServerCanBeRebuilt(r: Raid, k: nat, f: nat)
    requires Consistent(r) && k < r.stripes && f < r.m
    ensures Rebuild(r, k, f) == r.cells[StripeCell(r.kind, k, f, r.m)]
  {
    assert ParityRight(r, k);
    AnyBlockFromTheOthers(Row(r, k), r.blockSize, ParityServer(k, r.m), f);
  }

  /** Two storages of one shape that hold the same on all servers but f. */
  ghost predicate AgreeOutside(r1: Raid, r2: Raid, f: nat) {
    && r1.kind == r2.kind && r1.m == r2.m && r1.blockSize == r2.blockSize && r1.stripes == r2.stripes
    && forall c :: c in r1.cells && c in r2.cells && c.server != f ==> r1.cells[c] == r2.cells[c]
  }

  /** What is computed for a lost server does not depend on anything it holds. */
  lemma RebuildUsesSurvivors(r1: Raid, r2: Raid, k: nat, f: nat)
    requires Shaped(r1) && Shaped(r2) && AgreeOutside(r1, r2, f) && k < r1.stripes && f < r1.m
    ensures Rebuild(r1, k, f) == Rebuild(r2, k, f)
  {
    forall s | 0 <= s < r1.m && s != f ensures Row(r1, k)[s] == Row(r2, k)[s] {
      StripeCellInvertible(r1.kind, k, s, r1.m);
    }
    assert Without(Row(r1, k), f) == Without(Row(r2, k), f);
  }

  /** Nor does a read while the server is down. */
  lemma DegradedReadUsesSurvivors(r1: Raid, r2: Raid, f: nat, i: nat)
    requires Shaped(r1) && Shaped(r2) && AgreeOutside(r1, r2, f) && InRange(r1, i) && f < r1.m
    ensures DegradedRead(r1, f, i) == DegradedRead(r2, f, i)
  {
    BlockInStripe(r1.kind, i, r1.m);
    if Locate(r1.kind, i, r1.m).sd == f {
      RebuildUsesSurvivors(r1, r2, i / (r1.m - 1), f);
    }
  }

  /**
   * After any writes to a consistent storage, reads with any one server down return
   * what was last written.
   */
  lemma ReadsSurviveServerLoss(r: Raid, ops: seq<WriteOp>, f: nat, i: nat)
    requires Consistent(r) && ValidOps(r, ops) && f < r.m && InRange(r, i)
    ensures DegradedRead(Run(r, ops), f, i) == LastWrite(ops, i, ReadBlock(r, i))
  {
    RunKeepsParity(r, ops);
    RunReads(r, ops, i);
    BlockInStripe(r.kind, i, r.m);
    if Locate(r.kind, i, r.m).sd == f {
      AnyServerCanBeRebuilt(Run(r, ops), i / (r.m - 1), f);
    }
  }

  /** Fresh storage, all zero. */
  function Fresh(kind: Kind, m: nat, blockSize: nat, stripes: nat): Raid
    requires 2 <= m
  {
    var zero := seq(blockSize, _ => 0 as bv8);
    Raid(kind, m, blockSize, stripes,
         map k, s | 0 <= k < stripes && 0 <= s < m :: StripeCell(kind, k, s, m) := zero)
  }

  lemma {:induction false} XorOfZeros(xs: Bytes)
    requires forall j :: 0 <= j < |xs| ==> xs[j] == 0
    ensures XorOf(xs) == 0
  {
    if xs != [] { XorOfZeros(xs[..|xs| - 1]); }
  }

  lemma FreshIsConsistent(kind: Kind, m: nat, blockSize: nat, stripes: nat)
    requires 2 <= m
    ensures Consistent(Fresh(kind, m, blockSize, stripes))
  {
    var r := Fresh(kind, m, blockSize, stripes);
    assert Shaped(r);
    forall k | 0 <= k < stripes ensures ParityRight(r, k) {
      var rest := Without(Row(r, k), ParityServer(k, m));
      forall b | 0 <= b < blockSize ensures XorBlocks(rest, blockSize)[b] == 0 {
        XorOfZeros(Column(rest, b));
      }
    }
  }
}
