/**
 * The table of virtual file descriptors of src/bypass/xpn_bypass.c: a table that
 * doubles when full, scanned from a hint below which no slot is free.
 */
module FdTable {

  const MAX_FDS: nat := 10000
  const PLUSXPN: nat := 1000
  const FD_FREE: int := 0
  const FD_SYS: int := 1

  /** What a slot says: its type (free, or one of the kinds in use) and the descriptor below. */
  datatype GenericFd = GenericFd(fdType: int, realFd: int)

  const FREE_SLOT := GenericFd(FD_FREE, -1)

  // ----- the simple table: scan from slot 0

  /** The first free slot, or the length. */
  function LowestFree(s: seq<GenericFd>): (i: nat)
    ensures i <= |s| && (i < |s| ==> s[i].fdType == FD_FREE)
    ensures forall j :: 0 <= j < i ==> s[j].fdType != FD_FREE
  {
    if s == [] || s[0].fdType == FD_FREE then 0
    else
      assert s == [s[0]] + s[1..];
      1 + LowestFree(s[1..])
  }

  function NextSize(size: nat): nat {
    if size == 0 then MAX_FDS else size * 2
  }

  function Grow(s: seq<GenericFd>): (g: seq<GenericFd>)
    ensures |g| == NextSize(|s|) > |s| && s <= g
    ensures forall i :: |s| <= i < |g| ==> g[i] == FREE_SLOT
  {
    s + seq(NextSize(|s|) - |s|, _ => FREE_SLOT)
  }

  function Put(s: seq<GenericFd>, fd: GenericFd): seq<GenericFd> {
    var i := LowestFree(s);
    (if i == |s| then Grow(s) else s)[i := fd]
  }

  function PutResult(s: seq<GenericFd>): int { LowestFree(s) + PLUSXPN }

  function Remove(s: seq<GenericFd>, vfd: int): seq<GenericFd>
    requires vfd < PLUSXPN + |s|
  {
    if vfd < PLUSXPN then s else s[vfd - PLUSXPN := FREE_SLOT]
  }

  function Get(s: seq<GenericFd>, vfd: int): GenericFd
    requires s != [] ==> vfd < PLUSXPN + |s|
  {
    if s != [] && vfd >= PLUSXPN then s[vfd - PLUSXPN] else GenericFd(FD_SYS, vfd)
  }

  /** The open virtual descriptors. */
  ghost function Open(s: seq<GenericFd>): map<int, GenericFd> {
    map vfd | PLUSXPN <= vfd < PLUSXPN + |s| && Slot(s, vfd).fdType != FD_FREE :: Slot(s, vfd)
  }

  function Slot(s: seq<GenericFd>, vfd: int): GenericFd
    requires PLUSXPN <= vfd < PLUSXPN + |s|
  {
    s[vfd - PLUSXPN]
  }

  /**
   * Put opens the lowest virtual descriptor that is not open (the rule of section 2.14 of
   * POSIX.1-2017 XSH) and leaves every open one as it is, also when the table grows.
   */
  lemma PutOpensLowest(s: seq<GenericFd>, fd: GenericFd)
    requires fd.fdType != FD_FREE
    ensures PLUSXPN <= PutResult(s) && PutResult(s) !in Open(s)
    ensures forall vfd :: PLUSXPN <= vfd < PutResult(s) ==> vfd in Open(s)
    ensures Open(Put(s, fd)) == Open(s)[PutResult(s) := fd]
    ensures Get(Put(s, fd), PutResult(s)) == fd
  {
    var i, p := LowestFree(s), Put(s, fd);
    var g := if i == |s| then Grow(s) else s;
    assert forall j :: 0 <= j < |s| && j != i ==> p[j] == g[j] == s[j];
    assert forall vfd :: vfd in Open(p) <==> vfd in Open(s) || vfd == PutResult(s);
  }

  /** Remove closes exactly its descriptor; descriptors below PLUSXPN are not of this table. */
  lemma RemoveCloses(s: seq<GenericFd>, vfd: int)
    requires vfd < PLUSXPN + |s|
    ensures Open(Remove(s, vfd)) == Open(s) - {vfd}
    ensures forall v :: v in Open(s) && v != vfd ==> Get(Remove(s, vfd), v) == Get(s, v) == Open(s)[v]
  {
  }

  // ----- any mix of operations

  datatype Op = PutOp(fd: GenericFd) | RemoveOp(vfd: int)

  predicate Allowed(s: seq<GenericFd>, op: Op) {
    match op
    case PutOp(fd) => fd.fdType != FD_FREE
    case RemoveOp(vfd) => vfd < PLUSXPN + |s|
  }

  /** The table and its hint after an operation, as the program computes them. */
  datatype Hinted = Hinted(slots: seq<GenericFd>, firstFree: nat)

  /** The scan of fdstable_put: from the hint to the first free slot, or the length. */
  function ScanFrom(s: seq<GenericFd>, i: nat): (r: nat)
    requires i <= |s|
    ensures i <= r <= |s| && (r < |s| ==> s[r].fdType == FD_FREE)
    ensures forall j :: i <= j < r ==> s[j].fdType != FD_FREE
    decreases |s| - i
  {
    if i == |s| || s[i].fdType == FD_FREE then i else ScanFrom(s, i + 1)
  }

  function HintedPut(h: Hinted, fd: GenericFd): Hinted
    requires h.firstFree <= |h.slots|
  {
    var r := ScanFrom(h.slots, h.firstFree);
    if r < |h.slots| then Hinted(h.slots[r := fd], r + 1)
    else Hinted(Grow(h.slots)[r := fd], h.firstFree)
  }

  function HintedRemove(h: Hinted, vfd: int): Hinted
    requires vfd < PLUSXPN + |h.slots|
  {
    if vfd < PLUSXPN then h
    else
      Hinted(h.slots[vfd - PLUSXPN := FREE_SLOT],
             if vfd - PLUSXPN < h.firstFree then vfd - PLUSXPN else h.firstFree)
  }

  /** Below the hint no slot is free. */
  ghost predicate HintRight(h: Hinted) {
    h.firstFree <= |h.slots| && forall i :: 0 <= i < h.firstFree ==> h.slots[i].fdType != FD_FREE
  }

  /** With a right hint the scan finds the same slot as a scan from 0. */
  lemma ScanIsLowest(h: Hinted)
    requires HintRight(h)
    ensures ScanFrom(h.slots, h.firstFree) == LowestFree(h.slots)
  {
    var r, l := ScanFrom(h.slots, h.firstFree), LowestFree(h.slots);
    assert l < |h.slots| ==> h.slots[l].fdType == FD_FREE;
    assert r < |h.slots| ==> h.slots[r].fdType == FD_FREE;
  }

  ghost function Apply(h: Hinted, op: Op): Hinted
    requires HintRight(h) && Allowed(h.slots, op)
  {
    match op case PutOp(fd) => HintedPut(h, fd) case RemoveOp(vfd) => HintedRemove(h, vfd)
  }

  /** The hint stays right, and the table is the one a scan from 0 gives. */
  lemma ApplyRefines(h: Hinted, op: Op)
    requires HintRight(h) && Allowed(h.slots, op)
    ensures HintRight(Apply(h, op))
    ensures op.PutOp? ==> Apply(h, op).slots == Put(h.slots, op.fd)
    ensures op.RemoveOp? ==> Apply(h, op).slots == Remove(h.slots, op.vfd)
  {
    ScanIsLowest(h);
  }

  /** Runs of the program's table, and of the map of open descriptors with the lowest-first rule. */
  ghost predicate IsRun(h: Hinted, ops: seq<Op>)
    requires HintRight(h)
    decreases |ops|
  {
    ops == [] || (Allowed(h.slots, ops[0]) && (ApplyRefines(h, ops[0]); IsRun(Apply(h, ops[0]), ops[1..])))
  }

  ghost function Run(h: Hinted, ops: seq<Op>): Hinted
    requires HintRight(h) && IsRun(h, ops)
    decreases |ops|
  {
    if ops == [] then h else ApplyRefines(h, ops[0]); Run(Apply(h, ops[0]), ops[1..])
  }

  ghost predicate IsLowestFree(m: map<int, GenericFd>, vfd: int) {
    PLUSXPN <= vfd && vfd !in m && forall v :: PLUSXPN <= v < vfd ==> v in m
  }

  /** A sequence of open maps, each from the one before by closing or by opening the lowest. */
  ghost predicate OpensLowest(m: map<int, GenericFd>, ops: seq<Op>, e: map<int, GenericFd>)
    decreases |ops|
  {
    if ops == [] then m == e
    else
      match ops[0]
      case PutOp(fd) => exists vfd :: IsLowestFree(m, vfd) && OpensLowest(m[vfd := fd], ops[1..], e)
      case RemoveOp(vfd) => OpensLowest(m - {vfd}, ops[1..], e)
  }

  /** Any mix of puts, removes and growth opens the lowest virtual descriptor each time. */
  lemma {:induction false} RunsOpenLowest(h: Hinted, ops: seq<Op>)
    requires HintRight(h) && IsRun(h, ops)
    ensures HintRight(Run(h, ops))
    ensures OpensLowest(Open(h.slots), ops, Open(Run(h, ops).slots))
    decreases |ops|
  {
    if ops != [] {
      ApplyRefines(h, ops[0]);
      RunsOpenLowest(Apply(h, ops[0]), ops[1..]);
      match ops[0]
      case PutOp(fd) =>
        PutOpensLowest(h.slots, fd);
        assert IsLowestFree(Open(h.slots), PutResult(h.slots));
      case RemoveOp(vfd) => RemoveCloses(h.slots, vfd);
    }
  }

  /** The global table, updated in place. */
  class FdsTable {
    var fdstable: array?<GenericFd>
    var fdstableSize: nat
    var fdstableFirstFree: nat

    ghost predicate Shaped()
      reads this
    {
      fdstableSize == if fdstable == null then 0 else fdstable.Length
    }

    ghost function Value(): Hinted
      reads this, fdstable
    {
      Hinted(if fdstable == null then [] else fdstable[..], fdstableFirstFree)
    }

    ghost predicate Valid()
      reads this, fdstable
    {
      Shaped() && HintRight(Value()) && (fdstable != null ==> fdstable.Length > 0)
    }

    constructor ()
      ensures Valid() && Value() == Hinted([], 0)
    {
      fdstable, fdstableSize, fdstableFirstFree := null, 0, 0;
    }

    method Realloc()
      requires Valid()
      modifies this`fdstable, this`fdstableSize
      ensures Valid() && fresh(fdstable)
      ensures Value() == Hinted(Grow(old(Value()).slots), old(Value()).firstFree)
      ensures fdstableSize == if old(fdstable) == null then MAX_FDS else 2 * old(fdstableSize)
    {
      var oldSize := fdstableSize;
      var fdstableAux := fdstable;
      var table: array<GenericFd>;
      if fdstableAux == null {
        fdstableSize := MAX_FDS;
        table := new GenericFd[fdstableSize](_ => FREE_SLOT);
      } else {
        fdstableSize := fdstableSize * 2;
        table := new GenericFd[fdstableSize](_ => FREE_SLOT);
        forall i | 0 <= i < oldSize { table[i] := fdstableAux[i]; }
      }
      var i := oldSize;
      while i < fdstableSize
        invariant oldSize <= i <= fdstableSize == table.Length
        invariant forall j :: 0 <= j < oldSize ==> table[j] == fdstableAux[j]
        invariant forall j :: oldSize <= j < i ==> table[j] == FREE_SLOT
        modifies table
      {
        table[i] := FREE_SLOT;
        i := i + 1;
      }
      fdstable := table;
      assert fdstable[..] == Grow(old(Value()).slots);
    }

    method PutFd(fd: GenericFd) returns (ret: int)
      requires Valid() && fd.fdType != FD_FREE
      modifies this, fdstable
      ensures Valid()
      ensures Value() == HintedPut(old(Value()), fd)
      ensures Value().slots == Put(old(Value()).slots, fd) && ret == PutResult(old(Value()).slots)
      ensures fdstableFirstFree == if ret - PLUSXPN < old(fdstableSize) then ret - PLUSXPN + 1 else old(fdstableFirstFree)
      ensures fdstableSize == if ret - PLUSXPN < old(fdstableSize) then old(fdstableSize)
                              else if old(fdstable) == null then MAX_FDS else 2 * old(fdstableSize)
    {
      ScanIsLowest(Value());
      ApplyRefines(Value(), PutOp(fd));
      var i := fdstableFirstFree;
      while i < fdstableSize
        invariant fdstableFirstFree <= i <= fdstableSize
        invariant ScanFrom(Value().slots, i) == ScanFrom(Value().slots, fdstableFirstFree)
      {
        if fdstable[i].fdType == FD_FREE {
          fdstable[i] := fd;
          fdstableFirstFree := i + 1;
          return i + PLUSXPN;
        }
        i := i + 1;
      }
      var oldSize := fdstableSize;
      Realloc();
      if fdstable[oldSize].fdType == FD_FREE {
        fdstable[oldSize] := fd;
        return oldSize + PLUSXPN;
      }
      return -1;
    }

    method GetFd(fd: int) returns (ret: GenericFd)
      requires Valid() && (fdstable != null ==> fd < PLUSXPN + fdstableSize)
      ensures ret == Get(Value().slots, fd)
      ensures fd < PLUSXPN || fdstable == null ==> ret == GenericFd(FD_SYS, fd)
      ensures fd in Open(Value().slots) ==> ret == Open(Value().slots)[fd]
      ensures PLUSXPN <= fd && fdstable != null && fd !in Open(Value().slots) ==> ret.fdType == FD_FREE
    {
      if fdstable != null && fd >= PLUSXPN {
        ret := fdstable[fd - PLUSXPN];
      } else {
        ret := GenericFd(FD_SYS, fd);
      }
    }

    method RemoveFd(fd: int) returns (ret: int)
      requires Valid() && fd < PLUSXPN + fdstableSize
      modifies this`fdstableFirstFree, fdstable
      ensures Valid() && ret == 0
      ensures Value() == HintedRemove(old(Value()), fd)
      ensures fd < PLUSXPN ==> Value() == old(Value())
      ensures PLUSXPN <= fd ==>
        && fdstable != null && fdstable[fd - PLUSXPN] == GenericFd(FD_FREE, -1)
        && fdstableFirstFree == if fd - PLUSXPN < old(fdstableFirstFree) then fd - PLUSXPN else old(fdstableFirstFree)
    {
      if fd < PLUSXPN { return 0; }
      var i := fd - PLUSXPN;
      fdstable[i] := GenericFd(FD_FREE, -1);
      if i < fdstableFirstFree { fdstableFirstFree := i; }
      return 0;
    }
  }
}
