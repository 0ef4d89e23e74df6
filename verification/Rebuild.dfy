/**
 * The copy loop of src/utils/xpn_rebuild.c: the blocks of a file, spread over the old
 * servers, are moved to where the placement puts them on the new servers.
 */
module Rebuild {
  import opened ByteStrings
  import DivMod
  import opened Striping
  import opened Exchange
  import RankTables

  /** Where a byte of an old server goes, and, with the layouts swapped, where it came from. */
  function Move(from: Layout, to: Layout, p: Place): (q: Place)
    requires from.Valid() && to.Valid() && ValidPlace(from, p)
    ensures ValidPlace(to, q)
  {
    CalculateBlock(to, CalculateBlockInvert(from, p))
  }

  /** The two layouts of a rebuild differ in the servers only. */
  predicate Compatible(from: Layout, to: Layout) {
    && from.Valid() && to.Valid()
    && from.blockSize == to.blockSize && from.replicationLevel == to.replicationLevel
  }

  /** Moving back undoes moving: no two bytes are moved to the same place. */
  lemma MoveBack(from: Layout, to: Layout, p: Place)
    requires Compatible(from, to) && ValidPlace(from, p)
    ensures Move(to, from, Move(from, to, p)) == p
  {
    InvertAfterCalculate(to, CalculateBlockInvert(from, p));
    CalculateAfterInvert(from, p);
  }

  /** Blocks are moved as a whole. */
  lemma MoveBlock(from: Layout, to: Layout, p: Place, x: int)
    requires Compatible(from, to) && ValidPlace(from, p)
    requires p.localOffset % from.blockSize == 0 && 0 <= x < from.blockSize
    ensures Move(from, to, Place(p.serv, p.localOffset + x))
         == Place(Move(from, to, p).serv, Move(from, to, p).localOffset + x)
  {
    BlockIsContiguous(from, p, x);
    SourceBlockIsContiguous(to, CalculateBlockInvert(from, p), x);
  }

  /**
   * The processes: of each its rank among the old and among the new servers or -1, and
   * the process of each server. Every server has one process.
   */
  datatype Processes = Processes(actualToOld: seq<int>, actualToNew: seq<int>, oldToActual: seq<int>, newToActual: seq<int>) {
    ghost predicate Valid(oldSize: int, newSize: int) {
      && |actualToOld| == |actualToNew|
      && Inverse(actualToOld, oldToActual, oldSize)
      && Inverse(actualToNew, newToActual, newSize)
    }
  }

  ghost predicate Inverse(actualTo: seq<int>, toActual: seq<int>, servers: int) {
    && 0 <= servers <= |toActual|
    && (forall a :: 0 <= a < |actualTo| && actualTo[a] != -1 ==>
          0 <= actualTo[a] < servers && toActual[actualTo[a]] == a)
    && (forall s :: 0 <= s < servers ==> 0 <= toActual[s] < |actualTo| && actualTo[toActual[s]] == s)
  }

  /**
   * The way back that the rank table loops build makes a table and its way back inverse
   * exactly if every server of the host list has one process, and no other rank is held.
   */
  lemma TablesInverseExactlyIf(actualTo: seq<int>, toActual: seq<int>, servers: nat)
    requires RankTables.WayBack(actualTo, |actualTo|, toActual)
    ensures Inverse(actualTo, toActual, servers)
       <==> RankTables.Distinct(actualTo) && forall v :: v != -1 ==> (v in actualTo <==> 0 <= v < servers)
  {
    if RankTables.Distinct(actualTo) && forall v :: v != -1 ==> (v in actualTo <==> 0 <= v < servers) {
      RankTables.MutuallyInverse(actualTo, toActual);
      assert forall a :: 0 <= a < |actualTo| ==> actualTo[a] in actualTo;
      if servers > 0 { assert servers - 1 in actualTo; }
    } else if Inverse(actualTo, toActual, servers) {
      forall v | v != -1 ensures v in actualTo <==> 0 <= v < servers {
        if 0 <= v < servers { assert actualTo[toActual[v]] == v; }
      }
    }
  }

  /** Everything that stays the same during the copy of one file. */
  datatype Job = Job(from: Layout, to: Layout, ps: Processes, src: seq<Bytes>) {
    /** The tool places from server 0 on, whatever the first node of the file. */
    ghost predicate Valid() {
      && Compatible(from, to) && from.firstNode == to.firstNode == 0
      && ps.Valid(from.nserv, to.nserv)
      && |src| == |ps.actualToOld|
    }

    function Size(): nat { |src| }
  }

  /** The place among the old servers of the byte that belongs at offset x of process b. */
  function Origin(j: Job, b: nat, x: int): Place
    requires j.from.Valid() && j.to.Valid() && b < |j.ps.actualToNew| && 0 <= j.ps.actualToNew[b] < j.to.nserv && 0 <= x
  {
    Move(j.to, j.from, Place(j.ps.actualToNew[b], x))
  }

  /** Offset o of process a has been copied once k rounds and i messages of the next are over. */
  predicate Copied(bs: int, k: nat, i: nat, a: int, o: int) {
    o < k * bs || (o < k * bs + bs && a < i)
  }

  /** Process b holds exactly the bytes copied so far that belong there, and their values. */
  ghost predicate HoldsCopied(j: Job, k: nat, i: nat, b: nat, f: File)
    requires j.Valid() && b < j.Size()
  {
    if j.ps.actualToNew[b] == -1 then f == map[]
    else
      && (forall x :: x in f ==> 0 <= x)
      && (forall x {:trigger Origin(j, b, x)} :: 0 <= x ==>
            var p := Origin(j, b, x);
            var a := j.ps.oldToActual[p.serv];
            && (x in f <==> p.localOffset < |j.src[a]| && Copied(j.from.blockSize, k, i, a, p.localOffset))
            && (x in f ==> f[x] == j.src[a][p.localOffset]))
  }

  /** What process a reads in round k: up to a block, less at the end of its file. */
  function ReadBlock(src: Bytes, bs: nat, k: nat): Bytes {
    if k * bs < 0 || |src| <= k * bs then []
    else if |src| < k * bs + bs then src[k * bs..]
    else src[k * bs..k * bs + bs]
  }

  /** The message process a announces in round k. */
  function Announce(j: Job, k: nat, a: nat): Msg
    requires j.from.Valid() && j.to.Valid() && a < |j.src| == |j.ps.actualToOld|
    requires j.ps.actualToOld[a] == -1 || 0 <= j.ps.actualToOld[a] < j.from.nserv
    requires j.to.nserv <= |j.ps.newToActual|
  {
    if j.ps.actualToOld[a] == -1 then NoMsg
    else
      var dest := Move(j.from, j.to, BlockRead(j, k, a));
      Msg(a, j.ps.newToActual[dest.serv], |ReadBlock(j.src[a], j.from.blockSize, k)|, dest.localOffset)
  }

  ghost predicate RoundMessages(j: Job, k: nat, msgs: seq<Msg>, bufs: seq<Bytes>)
    requires j.Valid()
  {
    && |msgs| == |bufs| == j.Size()
    && forall a :: 0 <= a < j.Size() ==>
      && msgs[a] == Announce(j, k, a)
      && bufs[a] == if j.ps.actualToOld[a] == -1 then [] else ReadBlock(j.src[a], j.from.blockSize, k)
  }

  /** The old server block process a reads in round k. */
  function BlockRead(j: Job, k: nat, a: nat): (p: Place)
    requires j.from.Valid() && a < |j.ps.actualToOld| && 0 <= j.ps.actualToOld[a] < j.from.nserv
    ensures ValidPlace(j.from, p) && p.localOffset % j.from.blockSize == 0
  {
    assert 0 <= k * j.from.blockSize;
    DivMod.Unique(k * j.from.blockSize, j.from.blockSize, k, 0);
    Place(j.ps.actualToOld[a], k * j.from.blockSize)
  }

  /** Byte d of the block goes to byte d of where the block goes, and comes from there. */
  lemma BlockByte(from: Layout, to: Layout, block: Place, d: int, here: Place)
    requires Compatible(from, to) && ValidPlace(from, block) && ValidPlace(to, here)
    requires block.localOffset % from.blockSize == 0 && 0 <= d < from.blockSize
    ensures here == Place(Move(from, to, block).serv, Move(from, to, block).localOffset + d)
       <==> Move(to, from, here) == Place(block.serv, block.localOffset + d)
  {
    MoveBlock(from, to, block, d);
    MoveBack(from, to, Place(block.serv, block.localOffset + d));
    MoveBack(to, from, here);
  }

  /** The bytes message a of round k carries are those whose origin is the block process a read. */
  lemma MessageCarries(j: Job, k: nat, a: nat, b: nat, x: int)
    requires j.Valid() && a < j.Size() && b < j.Size() && 0 <= x
    requires j.ps.actualToOld[a] != -1 && j.ps.actualToNew[b] != -1
    ensures var m := Announce(j, k, a);
      var p := Origin(j, b, x);
      var d := x - m.offset;
      && (m.rankRecv == b && 0 <= d < j.from.blockSize <==>
            j.ps.oldToActual[p.serv] == a && 0 <= p.localOffset - k * j.from.blockSize < j.from.blockSize)
      && (m.rankRecv == b && 0 <= d < j.from.blockSize ==> p.localOffset == k * j.from.blockSize + d)
  {
    var block, here := BlockRead(j, k, a), Place(j.ps.actualToNew[b], x);
    var d := x - Move(j.from, j.to, block).localOffset;
    if 0 <= d < j.from.blockSize { BlockByte(j.from, j.to, block, d, here); }
    var e := Origin(j, b, x).localOffset - block.localOffset;
    if 0 <= e < j.from.blockSize { BlockByte(j.from, j.to, block, e, here); }
  }

  lemma ReadBlockBytes(src: Bytes, bs: nat, k: nat)
    ensures 0 <= k * bs
    ensures |ReadBlock(src, bs, k)| <= bs
    ensures |ReadBlock(src, bs, k)| < bs ==> |src| <= k * bs + |ReadBlock(src, bs, k)|
    ensures 0 < |ReadBlock(src, bs, k)| ==> k * bs + |ReadBlock(src, bs, k)| <= |src|
    ensures forall d :: 0 <= d < |ReadBlock(src, bs, k)| ==> ReadBlock(src, bs, k)[d] == src[k * bs + d]
  {
    assert 0 <= k * bs;
  }

  /** The file of process b with the block of process i added, if it belongs there. */
  function WithBlock(j: Job, k: nat, i: nat, b: nat, f: File): File
    requires j.from.Valid() && j.to.Valid() && i < |j.src| == |j.ps.actualToOld|
    requires j.ps.actualToOld[i] == -1 || 0 <= j.ps.actualToOld[i] < j.from.nserv
    requires j.to.nserv <= |j.ps.newToActual|
  {
    var m := Announce(j, k, i);
    if m != NoMsg && m.rankRecv == b then WriteAt(f, m.offset, ReadBlock(j.src[i], j.from.blockSize, k)) else f
  }

  lemma ByteKept(j: Job, k: nat, i: nat, b: nat, f: File, f': File, x: int)
    requires j.Valid() && i < j.Size() && b < j.Size() && HoldsCopied(j, k, i, b, f)
    requires f' == WithBlock(j, k, i, b, f) && j.ps.actualToNew[b] != -1 && 0 <= x
    ensures var p := Origin(j, b, x);
      var a := j.ps.oldToActual[p.serv];
      && (x in f' <==> p.localOffset < |j.src[a]| && Copied(j.from.blockSize, k, i + 1, a, p.localOffset))
      && (x in f' ==> f'[x] == j.src[a][p.localOffset])
  {
    ReadBlockBytes(j.src[i], j.from.blockSize, k);
    if j.ps.actualToOld[i] != -1 { MessageCarries(j, k, i, b, x); }
  }

  /** Message i of round k adds to the files exactly the block of process i. */
  lemma MessageKeeps(j: Job, k: nat, i: nat, b: nat, f: File, f': File)
    requires j.Valid() && i < j.Size() && b < j.Size() && HoldsCopied(j, k, i, b, f)
    requires f' == WithBlock(j, k, i, b, f)
    ensures HoldsCopied(j, k, i + 1, b, f')
  {
    if j.ps.actualToNew[b] != -1 {
      forall x {:trigger Origin(j, b, x)} | 0 <= x
        ensures var p := Origin(j, b, x);
          var a := j.ps.oldToActual[p.serv];
          && (x in f' <==> p.localOffset < |j.src[a]| && Copied(j.from.blockSize, k, i + 1, a, p.localOffset))
          && (x in f' ==> f'[x] == j.src[a][p.localOffset])
      {
        ByteKept(j, k, i, b, f, f', x);
      }
    }
  }

  lemma FileAfterMessage(j: Job, k: nat, msgs: seq<Msg>, bufs: seq<Bytes>, i: nat, b: nat, f: File)
    requires j.Valid() && RoundMessages(j, k, msgs, bufs) && Gathered(msgs, bufs)
    requires i < j.Size()
    ensures FileAfter(msgs, bufs, b, i + 1, f) == WithBlock(j, k, i, b, FileAfter(msgs, bufs, b, i, f))
  {
    assert msgs[i] == Announce(j, k, i);
    assert bufs[i][..|bufs[i]|] == bufs[i];
  }

  lemma {:induction false} RoundKeeps(j: Job, k: nat, msgs: seq<Msg>, bufs: seq<Bytes>, i: nat, b: nat, f: File)
    requires j.Valid() && RoundMessages(j, k, msgs, bufs) && Gathered(msgs, bufs)
    requires i <= j.Size() && b < j.Size() && HoldsCopied(j, k, 0, b, f)
    ensures HoldsCopied(j, k, i, b, FileAfter(msgs, bufs, b, i, f))
  {
    if i > 0 {
      var i0 := i - 1;
      RoundKeeps(j, k, msgs, bufs, i0, b, f);
      FileAfterMessage(j, k, msgs, bufs, i0, b, f);
      MessageKeeps(j, k, i0, b, FileAfter(msgs, bufs, b, i0, f), FileAfter(msgs, bufs, b, i, f));
    }
  }

  lemma NextRound(j: Job, k: nat, b: nat, f: File)
    requires j.Valid() && b < j.Size() && HoldsCopied(j, k, j.Size(), b, f)
    ensures HoldsCopied(j, k + 1, 0, b, f)
  {
    assert (k + 1) * j.from.blockSize == k * j.from.blockSize + j.from.blockSize;
    assert forall a, o :: 0 <= a < j.Size() ==>
      Copied(j.from.blockSize, k, j.Size(), a, o) == Copied(j.from.blockSize, k + 1, 0, a, o);
  }

  /** A whole round takes every file from the bytes of k rounds to those of k + 1. */
  lemma RoundDone(j: Job, k: nat, msgs: seq<Msg>, bufs: seq<Bytes>, before: seq<File>, after: seq<File>)
    requires j.Valid() && RoundMessages(j, k, msgs, bufs) && Gathered(msgs, bufs)
    requires |before| == |after| == j.Size()
    requires forall b :: 0 <= b < j.Size() ==> HoldsCopied(j, k, 0, b, before[b])
    requires forall b :: 0 <= b < j.Size() ==> after[b] == FileAfter(msgs, bufs, b, |msgs|, before[b])
    ensures forall b :: 0 <= b < j.Size() ==> HoldsCopied(j, k + 1, 0, b, after[b])
  {
    forall b | 0 <= b < j.Size() ensures HoldsCopied(j, k + 1, 0, b, after[b]) {
      RoundKeeps(j, k, msgs, bufs, j.Size(), b, before[b]);
      NextRound(j, k, b, after[b]);
    }
  }

  lemma MessagesGathered(j: Job, k: nat, msgs: seq<Msg>, bufs: seq<Bytes>)
    requires j.Valid() && RoundMessages(j, k, msgs, bufs)
    ensures Gathered(msgs, bufs)
  {
  }

  /** One round's exchange, message by message: the result every interleaving has. */
  method ExchangeRound(msgs: seq<Msg>, bufs: seq<Bytes>, files: seq<File>) returns (after: seq<File>)
    requires Gathered(msgs, bufs) && |files| == |msgs|
    ensures |after| == |files|
    ensures forall r :: 0 <= r < |files| ==> after[r] == FileAfter(msgs, bufs, r, |msgs|, files[r])
  {
    after := files;
    var i := 0;
    while i < |msgs|
      invariant 0 <= i <= |msgs| && |after| == |files|
      invariant forall r :: 0 <= r < |files| ==> after[r] == FileAfter(msgs, bufs, r, i, files[r])
    {
      var m := msgs[i];
      if m != NoMsg {
        after := after[m.rankRecv := WriteAt(after[m.rankRecv], m.offset, bufs[i][..m.readSize])];
      }
      i := i + 1;
    }
  }

  /** Each process reads its next block and announces it to all. */
  method ReadRound(j: Job, ghost k: nat, offsetSrc: nat) returns (msgs: seq<Msg>, bufs: seq<Bytes>)
    requires j.Valid() && offsetSrc == k * j.from.blockSize
    ensures RoundMessages(j, k, msgs, bufs)
  {
    msgs, bufs := [], [];
    var rank := 0;
    while rank < |j.src|
      invariant 0 <= rank <= |j.src| && |msgs| == |bufs| == rank
      invariant forall a :: 0 <= a < rank ==>
        && msgs[a] == Announce(j, k, a)
        && bufs[a] == if j.ps.actualToOld[a] == -1 then [] else ReadBlock(j.src[a], j.from.blockSize, k)
    {
      var bs := j.from.blockSize;
      if j.ps.actualToOld[rank] != -1 {
        var source := CalculateBlockInvert(j.from, Place(j.ps.actualToOld[rank], offsetSrc));
        var dest := CalculateBlock(j.to, source);
        var src := j.src[rank];
        var buf := if |src| <= offsetSrc then []
                   else if |src| < offsetSrc + bs then src[offsetSrc..]
                   else src[offsetSrc..offsetSrc + bs];
        msgs := msgs + [Msg(rank, j.ps.newToActual[dest.serv], |buf|, dest.localOffset)];
        bufs := bufs + [buf];
      } else {
        msgs := msgs + [NoMsg];
        bufs := bufs + [[]];
      }
      rank := rank + 1;
    }
  }

  /** Nothing is left to read from offset k blocks on. */
  ghost predicate AllRead(j: Job, k: nat)
    requires j.Valid()
  {
    forall a :: 0 <= a < j.Size() && j.ps.actualToOld[a] != -1 ==> |j.src[a]| <= k * j.from.blockSize
  }

  lemma AllReadByMessages(j: Job, k: nat, msgs: seq<Msg>, bufs: seq<Bytes>)
    requires j.Valid() && RoundMessages(j, k, msgs, bufs)
    ensures AllRead(j, k) <==> forall i :: 0 <= i < |msgs| ==> msgs[i].readSize <= 0
  {
    forall a | 0 <= a < j.Size() && j.ps.actualToOld[a] != -1
      ensures msgs[a].readSize <= 0 <==> |j.src[a]| <= k * j.from.blockSize
    {
      ReadBlockBytes(j.src[a], j.from.blockSize, k);
      assert msgs[a] == Announce(j, k, a);
    }
    forall a | 0 <= a < j.Size() && j.ps.actualToOld[a] == -1 ensures msgs[a].readSize <= 0 {
      assert msgs[a] == Announce(j, k, a);
    }
  }

  /** The check that ends the rounds. */
  method NothingWasRead(j: Job, ghost k: nat, msgs: seq<Msg>, ghost bufs: seq<Bytes>) returns (finish: bool)
    requires j.Valid() && RoundMessages(j, k, msgs, bufs)
    ensures finish <==> AllRead(j, k)
  {
    finish := true;
    var i := 0;
    while i < |msgs|
      invariant 0 <= i <= |msgs|
      invariant finish <==> forall n :: 0 <= n < i ==> msgs[n].readSize <= 0
    {
      if msgs[i].readSize > 0 { finish := false; }
      i := i + 1;
    }
    AllReadByMessages(j, k, msgs, bufs);
  }

  /** The longest file of an old server bounds the rounds. */
  function LongestFile(src: seq<Bytes>): (n: nat)
    ensures forall a :: 0 <= a < |src| ==> |src[a]| <= n
  {
    if src == [] then 0
    else
      var n := LongestFile(src[..|src| - 1]);
      if n < |src[|src| - 1]| then |src[|src| - 1]| else n
  }

  /** Every process holds exactly the bytes of the first k rounds that belong there. */
  ghost predicate AllHold(j: Job, k: nat, dest: seq<File>)
    requires j.Valid()
  {
    |dest| == j.Size() && forall b :: 0 <= b < j.Size() ==> HoldsCopied(j, k, 0, b, dest[b])
  }

  method EmptyFiles(j: Job) returns (dest: seq<File>)
    requires j.Valid()
    ensures AllHold(j, 0, dest)
  {
    dest := seq(|j.src|, _ => map[]);
  }

  /** One round: read, announce, exchange and write, and see whether anything was read. */
  method Round(j: Job, ghost k: nat, offsetSrc: nat, dest: seq<File>) returns (after: seq<File>, finish: bool)
    requires j.Valid() && offsetSrc == k * j.from.blockSize && AllHold(j, k, dest)
    ensures AllHold(j, k + 1, after)
    ensures finish <==> AllRead(j, k)
    ensures !finish ==> offsetSrc < LongestFile(j.src)
  {
    var msgs, bufs := ReadRound(j, k, offsetSrc);
    MessagesGathered(j, k, msgs, bufs);
    after := ExchangeRound(msgs, bufs, dest);
    RoundDone(j, k, msgs, bufs, dest, after);
    finish := NothingWasRead(j, k, msgs, bufs);
  }

  /**
   * The copy of one file. It stops after the first round in which no process read
   * anything, and every process then holds exactly the bytes copied in its rounds.
   */
  method RebuildFile(j: Job) returns (dest: seq<File>, rounds: nat)
    requires j.Valid()
    ensures 1 <= rounds && AllHold(j, rounds, dest) && IsCopy(j, dest)
    ensures AllRead(j, rounds - 1)
    ensures forall k: nat :: k < rounds - 1 ==> !AllRead(j, k)
  {
    dest := EmptyFiles(j);
    var offsetSrc: nat := 0;
    rounds := 0;
    var finish := false;
    while !finish
      invariant offsetSrc == rounds * j.from.blockSize && AllHold(j, rounds, dest)
      invariant forall k: nat :: k < rounds - 1 ==> !AllRead(j, k)
      invariant rounds > 0 ==> (finish <==> AllRead(j, rounds - 1))
      invariant finish ==> rounds > 0
      decreases !finish, LongestFile(j.src) + j.from.blockSize - offsetSrc
    {
      dest, finish := Round(j, rounds, offsetSrc, dest);
      assert (rounds + 1) * j.from.blockSize == offsetSrc + j.from.blockSize;
      offsetSrc := offsetSrc + j.from.blockSize;
      rounds := rounds + 1;
    }
    assert AllRead(j, rounds - 1) && AllHold(j, rounds - 1 + 1, dest);
  }

  /** The byte at a place of the servers, if the server has that much. */
  datatype Found = Missing | Byte(value: bv8)

  function OldAt(j: Job, p: Place): Found
    requires ValidPlace(j.from, p) && |j.src| == |j.ps.actualToOld|
    requires Inverse(j.ps.actualToOld, j.ps.oldToActual, j.from.nserv)
  {
    var src := j.src[j.ps.oldToActual[p.serv]];
    if p.localOffset < |src| then Byte(src[p.localOffset]) else Missing
  }

  function NewAt(j: Job, dest: seq<File>, q: Place): Found
    requires ValidPlace(j.to, q) && |dest| == |j.ps.actualToNew|
    requires Inverse(j.ps.actualToNew, j.ps.newToActual, j.to.nserv)
  {
    var file := dest[j.ps.newToActual[q.serv]];
    if q.localOffset in file then Byte(file[q.localOffset]) else Missing
  }

  /** The copy of a file is complete: nothing is left to read, and every process has its bytes. */
  ghost predicate IsCopy(j: Job, dest: seq<File>)
    requires j.Valid()
  {
    exists k: nat :: AllRead(j, k) && AllHold(j, k + 1, dest)
  }

  /** Every place of the new servers holds what the place of the old ones held that it comes from. */
  lemma PlaceHoldsOrigin(j: Job, dest: seq<File>, q: Place)
    requires j.Valid() && IsCopy(j, dest) && ValidPlace(j.to, q)
    ensures NewAt(j, dest, q) == OldAt(j, Move(j.to, j.from, q))
  {
    var k: nat :| AllRead(j, k) && AllHold(j, k + 1, dest);
    var b := j.ps.newToActual[q.serv];
    var p := Origin(j, b, q.localOffset);
    assert p == Move(j.to, j.from, q);
    assert HoldsCopied(j, k + 1, 0, b, dest[b]);
    var bs := j.from.blockSize;
    assert (k + 1) * bs == k * bs + bs;
    assert |j.src[j.ps.oldToActual[p.serv]]| <= k * bs;
  }

  /** Every byte of an old server is at the place of the new servers where it moves. */
  lemma EveryByteIsMoved(j: Job, dest: seq<File>, p: Place)
    requires j.Valid() && IsCopy(j, dest) && ValidPlace(j.from, p)
    ensures NewAt(j, dest, Move(j.from, j.to, p)) == OldAt(j, p)
  {
    PlaceHoldsOrigin(j, dest, Move(j.from, j.to, p));
    MoveBack(j.from, j.to, p);
  }

  /** And the new servers hold nothing else. */
  lemma NothingElseIsWritten(j: Job, dest: seq<File>, b: nat, x: int)
    requires j.Valid() && b < j.Size() && IsCopy(j, dest) && x in dest[b]
    ensures j.ps.actualToNew[b] != -1 && 0 <= x && OldAt(j, Origin(j, b, x)) == Byte(dest[b][x])
  {
    var k: nat :| AllRead(j, k) && AllHold(j, k + 1, dest);
    assert HoldsCopied(j, k + 1, 0, b, dest[b]);
    assert Origin(j, b, x).serv < j.from.nserv;
  }

  /** The messages and buffers of round k. */
  ghost function RoundOf(j: Job, k: nat): (round: (seq<Msg>, seq<Bytes>))
    requires j.Valid()
    ensures RoundMessages(j, k, round.0, round.1)
  {
    (seq(j.Size(), a requires j.Valid() && 0 <= a < j.Size() => Announce(j, k, a)),
     seq(j.Size(), a requires j.Valid() && 0 <= a < j.Size() =>
       if j.ps.actualToOld[a] == -1 then [] else ReadBlock(j.src[a], j.from.blockSize, k)))
  }

  ghost function FilesAfter(msgs: seq<Msg>, bufs: seq<Bytes>, before: seq<File>): (after: seq<File>)
    requires Gathered(msgs, bufs)
    ensures |after| == |before| && forall b :: 0 <= b < |before| ==> after[b] == FileAfter(msgs, bufs, b, |msgs|, before[b])
  {
    seq(|before|, b requires 0 <= b < |before| && Gathered(msgs, bufs) => FileAfter(msgs, bufs, b, |msgs|, before[b]))
  }

  lemma OneMoreRound(j: Job, k: nat, before: seq<File>) returns (after: seq<File>)
    requires j.Valid() && AllHold(j, k, before)
    ensures AllHold(j, k + 1, after)
  {
    var msgs, bufs := RoundOf(j, k).0, RoundOf(j, k).1;
    MessagesGathered(j, k, msgs, bufs);
    after := FilesAfter(msgs, bufs, before);
    RoundDone(j, k, msgs, bufs, before, after);
  }

  lemma NoFiles(j: Job) returns (dest: seq<File>)
    requires j.Valid()
    ensures AllHold(j, 0, dest)
  {
    dest := seq(j.Size(), _ => map[]);
  }

  /** The files of the new servers after k rounds. */
  lemma {:induction false} AfterRounds(j: Job, k: nat) returns (dest: seq<File>)
    requires j.Valid()
    ensures AllHold(j, k, dest)
  {
    if k == 0 {
      dest := NoFiles(j);
    } else {
      var before := AfterRounds(j, k - 1);
      dest := OneMoreRound(j, k - 1, before);
    }
  }

  /** Every copy of a file comes to an end. */
  lemma CopyExists(j: Job) returns (dest: seq<File>)
    requires j.Valid()
    ensures IsCopy(j, dest)
  {
    var k := LongestFile(j.src);
    dest := AfterRounds(j, k + 1);
    DivMod.MulAtLeast(j.from.blockSize, k);
    assert AllRead(j, k);
  }
}
