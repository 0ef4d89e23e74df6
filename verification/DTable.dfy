/**
 * The descriptor table of src/base/dtable.c: elements keep their place for ever, and
 * deleted ones are chained in a free list through the elements themselves.
 */
module DTable {

  /** Pointers to the caller's data; 0 is NULL. */
  type Info = nat
  const NULL: Info := 0

  datatype Elto = Elto(info: Info, nextFree: int, myself: int)

  datatype Table = Table(eltos: seq<Elto>, freeList: int)

  const EMPTY := Table([], -1)

  datatype Outcome = Outcome(table: Table, ret: int)

  function Insert(t: Table, info: Info): Outcome
    requires t.freeList == -1 || 0 <= t.freeList < |t.eltos|
  {
    if info == NULL then Outcome(t, -1)
    else if t.freeList == -1 then
      var n := |t.eltos|;
      Outcome(t.(eltos := t.eltos + [Elto(info, -1, n)]), n)
    else
      var e := t.eltos[t.freeList];
      Outcome(Table(t.eltos[t.freeList := e.(info := info, nextFree := -1)], e.nextFree), e.myself)
  }

  function Delete(t: Table, fd: int): Outcome
    requires 0 <= fd
  {
    if fd >= |t.eltos| then Outcome(t, -1)
    else
      var e := t.eltos[fd];
      Outcome(Table(t.eltos[fd := e.(nextFree := t.freeList)], e.myself), 1)
  }

  function Get(t: Table, fd: int): Info
    requires 0 <= fd
  {
    if fd >= |t.eltos| then NULL else t.eltos[fd].info
  }

  /** `free` lists the deleted elements, last deleted first, as the chain visits them. */
  ghost predicate FreeChain(t: Table, free: seq<int>) {
    && (forall k :: 0 <= k < |free| ==> 0 <= free[k] < |t.eltos|)
    && (forall k, l :: 0 <= k < l < |free| ==> free[k] != free[l])
    && t.freeList == (if free == [] then -1 else free[0])
    && (forall k :: 0 <= k < |free| ==> t.eltos[free[k]].nextFree == Following(free, k))
  }

  function Following(free: seq<int>, k: int): int
    requires 0 <= k < |free|
  {
    if k + 1 < |free| then free[k + 1] else -1
  }

  ghost predicate WellFormed(t: Table, free: seq<int>) {
    FreeChain(t, free) && forall i :: 0 <= i < |t.eltos| ==> t.eltos[i].myself == i
  }

  /** A descriptor in use. */
  predicate Live(t: Table, free: seq<int>, fd: int) {
    0 <= fd < |t.eltos| && fd !in free
  }

  /** Insertion takes the last deleted descriptor, or else a new one, and touches no live one. */
  lemma InsertRefines(t: Table, free: seq<int>, info: Info)
    requires WellFormed(t, free) && info != NULL
    ensures var o := Insert(t, info);
      var free' := if free == [] then [] else free[1..];
      && o.ret == (if free == [] then |t.eltos| else free[0])
      && WellFormed(o.table, free')
      && !Live(t, free, o.ret) && Live(o.table, free', o.ret) && Get(o.table, o.ret) == info
      && forall fd :: fd != o.ret ==>
           (Live(o.table, free', fd) <==> Live(t, free, fd)) && (Live(t, free, fd) ==> Get(o.table, fd) == Get(t, fd))
  {
    if free != [] {
      assert free == [free[0]] + free[1..];
      InsertChain(t, free, info);
    }
  }

  lemma InsertChain(t: Table, free: seq<int>, info: Info)
    requires WellFormed(t, free) && info != NULL && free != []
    ensures FreeChain(Insert(t, info).table, free[1..])
  {
    var t', free' := Insert(t, info).table, free[1..];
    assert t.eltos[free[0]].nextFree == Following(free, 0);
    forall k | 0 <= k < |free'| ensures t'.eltos[free'[k]].nextFree == Following(free', k) {
      assert free'[k] == free[k + 1];
      assert Following(free', k) == Following(free, k + 1);
    }
  }

  /** Deleting a live descriptor frees exactly it. */
  lemma DeleteRefines(t: Table, free: seq<int>, fd: int)
    requires WellFormed(t, free) && Live(t, free, fd)
    ensures var o := Delete(t, fd);
      && o.ret == 1
      && WellFormed(o.table, [fd] + free)
      && forall i :: (Live(o.table, [fd] + free, i) <==> Live(t, free, i) && i != fd)
                  && (Live(t, free, i) ==> Get(o.table, i) == Get(t, i))
  {
    DeleteChain(t, free, fd);
  }

  lemma DeleteChain(t: Table, free: seq<int>, fd: int)
    requires WellFormed(t, free) && Live(t, free, fd)
    ensures FreeChain(Delete(t, fd).table, [fd] + free)
  {
    var t', free' := Delete(t, fd).table, [fd] + free;
    forall k | 0 <= k < |free'| ensures t'.eltos[free'[k]].nextFree == Following(free', k) {
      if k > 0 {
        assert free'[k] == free[k - 1] != fd;
        assert Following(free', k) == Following(free, k - 1);
      }
    }
  }

  /** Elements each of which points to the next one. */
  predicate IsPath(t: Table, path: seq<int>) {
    && (forall k :: 0 <= k < |path| ==> 0 <= path[k] < |t.eltos|)
    && (forall k :: 0 <= k < |path| - 1 ==> t.eltos[path[k]].nextFree == path[k + 1])
  }

  /**
   * After element k of the free list was freed again, the pointers lead from it through
   * the elements in front of it in the list, and from the last of these back to it.
   */
  lemma {:induction false} ChainGoesRound(t: Table, free: seq<int>, k: nat, path: seq<int>, i: nat)
    requires WellFormed(t, free) && k < |free| && i <= k && i < |path|
    requires path[0] == free[k] && IsPath(Delete(t, free[k]).table, path)
    ensures Delete(t, free[k]).table.eltos[path[i]].nextFree == free[i]
  {
    if i > 0 {
      ChainGoesRound(t, free, k, path, i - 1);
      assert path[i] == free[i - 1] != free[k];
      assert t.eltos[free[i - 1]].nextFree == Following(free, i - 1);
    }
  }

  lemma ChainIsPath(t: Table, chain: seq<int>)
    requires FreeChain(t, chain)
    ensures IsPath(t, chain)
  {
    forall k | 0 <= k < |chain| - 1 ensures t.eltos[chain[k]].nextFree == chain[k + 1] {
      assert t.eltos[chain[k]].nextFree == Following(chain, k);
    }
  }

  /** So no list of distinct elements follows the pointers to an end. */
  lemma FreedTwiceHasNoChain(t: Table, free: seq<int>, k: nat, chain: seq<int>)
    requires WellFormed(t, free) && k < |free|
    ensures !FreeChain(Delete(t, free[k]).table, chain)
  {
    var t' := Delete(t, free[k]).table;
    if FreeChain(t', chain) {
      ChainIsPath(t', chain);
      var i := if k < |chain| then k else |chain| - 1;
      ChainGoesRound(t, free, k, chain, i);
    }
  }

  /** Deleting keeps the table in order exactly if the descriptor was live. */
  lemma DeleteKeepsOrderExactlyIfLive(t: Table, free: seq<int>, fd: int)
    requires WellFormed(t, free) && 0 <= fd < |t.eltos|
    ensures (exists free' :: WellFormed(Delete(t, fd).table, free')) <==> Live(t, free, fd)
  {
    if Live(t, free, fd) {
      DeleteRefines(t, free, fd);
    } else {
      var k :| 0 <= k < |free| && free[k] == fd;
      forall chain ensures !WellFormed(Delete(t, fd).table, chain) {
        FreedTwiceHasNoChain(t, free, k, chain);
      }
    }
  }

  /** After a double delete the next two insertions get the same descriptor. */
  lemma DoubleDeleteSharesDescriptor(t: Table, free: seq<int>, fd: int, a: Info, b: Info)
    requires WellFormed(t, free) && Live(t, free, fd) && a != NULL && b != NULL
    ensures var t2 := Delete(Delete(t, fd).table, fd).table;
      && t2.freeList == fd
      && Insert(t2, a).ret == fd
      && Insert(t2, a).table.freeList == fd
      && Insert(Insert(t2, a).table, b).ret == fd
  {
  }

  // ----- runs

  datatype Op = InsertOp(info: Info) | DeleteOp(fd: int)

  /** The table beside what it stands for: the live descriptors, and the most there ever were. */
  datatype Tracked = Tracked(table: Table, free: seq<int>, live: map<int, Info>, peak: nat)

  ghost predicate Tracks(s: Tracked) {
    && WellFormed(s.table, s.free)
    && (forall fd :: fd in s.live <==> Live(s.table, s.free, fd))
    && (forall fd :: fd in s.live ==> Get(s.table, fd) == s.live[fd] != NULL)
    && |s.live| + |s.free| == |s.table.eltos|
    && s.peak == |s.table.eltos|
  }

  predicate Allowed(s: Tracked, op: Op) {
    op.DeleteOp? ==> op.fd in s.live
  }

  ghost function Apply(s: Tracked, op: Op): Tracked
    requires Tracks(s) && Allowed(s, op)
  {
    match op
    case InsertOp(info) =>
      var o := Insert(s.table, info);
      if o.ret == -1 then s.(table := o.table)
      else
        var live := s.live[o.ret := info];
        Tracked(o.table, if s.free == [] then [] else s.free[1..], live,
                if |live| > s.peak then |live| else s.peak)
    case DeleteOp(fd) =>
      var o := Delete(s.table, fd);
      Tracked(o.table, [fd] + s.free, s.live - {fd}, s.peak)
  }

  lemma InsertTracks(s: Tracked, info: Info)
    requires Tracks(s) && info != NULL
    ensures Tracks(Apply(s, InsertOp(info)))
  {
    InsertRefines(s.table, s.free, info);
    OneMore(s.live, Insert(s.table, info).ret, info);
  }

  lemma OneMore(m: map<int, Info>, fd: int, info: Info)
    requires fd !in m
    ensures |m[fd := info]| == |m| + 1
  {
    assert m[fd := info].Keys == m.Keys + {fd};
  }

  lemma DeleteTracks(s: Tracked, fd: int)
    requires Tracks(s) && fd in s.live
    ensures Tracks(Apply(s, DeleteOp(fd)))
  {
    DeleteRefines(s.table, s.free, fd);
    assert (s.live - {fd}).Keys == s.live.Keys - {fd};
    assert |s.live - {fd}| == |(s.live - {fd}).Keys|;
  }

  lemma ApplyTracks(s: Tracked, op: Op)
    requires Tracks(s) && Allowed(s, op)
    ensures Tracks(Apply(s, op))
  {
    match op
    case InsertOp(info) => if info != NULL { InsertTracks(s, info); }
    case DeleteOp(fd) => DeleteTracks(s, fd);
  }

  ghost predicate IsRun(s: Tracked, ops: seq<Op>)
    requires Tracks(s)
    decreases |ops|
  {
    ops == [] || (Allowed(s, ops[0]) && (ApplyTracks(s, ops[0]); IsRun(Apply(s, ops[0]), ops[1..])))
  }

  ghost function Run(s: Tracked, ops: seq<Op>): Tracked
    requires Tracks(s) && IsRun(s, ops)
    decreases |ops|
  {
    if ops == [] then s else ApplyTracks(s, ops[0]); Run(Apply(s, ops[0]), ops[1..])
  }

  lemma {:induction false} RunTracks(s: Tracked, ops: seq<Op>)
    requires Tracks(s) && IsRun(s, ops)
    ensures Tracks(Run(s, ops))
    decreases |ops|
  {
    if ops != [] {
      ApplyTracks(s, ops[0]);
      RunTracks(Apply(s, ops[0]), ops[1..]);
    }
  }

  /**
   * In every run that deletes live descriptors only, each live descriptor gives back what
   * was inserted under it, the chain of free elements visits exactly the others, and the
   * table is as long as there ever were live descriptors.
   */
  lemma RunsAreMaps(ops: seq<Op>)
    requires IsRun(Tracked(EMPTY, [], map[], 0), ops)
    ensures var e := Run(Tracked(EMPTY, [], map[], 0), ops);
      && (forall fd :: fd in e.live ==> 0 <= fd && Get(e.table, fd) == e.live[fd])
      && FreeChain(e.table, e.free)
      && (forall fd :: 0 <= fd < |e.table.eltos| ==> (fd in e.free <==> fd !in e.live))
      && |e.table.eltos| == e.peak && |e.live| <= e.peak
  {
    RunTracks(Tracked(EMPTY, [], map[], 0), ops);
  }

  /** The table as the program has it, updated in place. */
  class Descriptors {
    var eltos: seq<Elto>
    var freeList: int
    ghost var free: seq<int>

    ghost predicate Valid() reads this { WellFormed(Value(), free) }

    function Value(): Table reads this { Table(eltos, freeList) }

    constructor ()
      ensures Valid() && Value() == EMPTY
    {
      eltos, freeList, free := [], -1, [];
    }

    method InsertElto(info: Info) returns (ret: int)
      requires Valid()
      modifies this
      ensures Valid()
      ensures Outcome(Value(), ret) == Insert(old(Value()), info)
      ensures free == if info == NULL || old(free) == [] then old(free) else old(free)[1..]
      ensures info == NULL ==> ret == -1 && Value() == old(Value())
      ensures info != NULL ==> !old(Live(Value(), free, ret)) && Live(Value(), free, ret) && eltos[ret].info == info
    {
      if info == NULL { return -1; }
      InsertRefines(Value(), free, info);
      if freeList == -1 {
        ret := |eltos|;
        eltos := eltos + [Elto(info, -1, |eltos|)];
      } else {
        var e := eltos[freeList];
        eltos := eltos[freeList := Elto(info, -1, e.myself)];
        freeList := e.nextFree;
        free := free[1..];
        ret := e.myself;
      }
    }

    /** Deleting a descriptor that is free already is not refused; it spoils the free list. */
    method DeleteElto(fd: int) returns (ret: int)
      requires Valid() && 0 <= fd
      modifies this
      ensures Outcome(Value(), ret) == Delete(old(Value()), fd)
      ensures Valid() <==> old(fd < |eltos| ==> Live(Value(), free, fd))
      ensures free == if old(Live(Value(), free, fd)) then [fd] + old(free) else old(free)
      ensures old(fd >= |eltos|) ==> ret == -1 && Value() == old(Value())
    {
      if fd >= |eltos| { return -1; }
      DeleteKeepsOrderExactlyIfLive(Value(), free, fd);
      if Live(Value(), free, fd) {
        DeleteRefines(Value(), free, fd);
        free := [fd] + free;
      }
      eltos := eltos[fd := eltos[fd].(nextFree := freeList)];
      freeList := eltos[fd].myself;
      return 1;
    }

    method GetElto(fd: int) returns (info: Info)
      requires 0 <= fd
      ensures info == Get(Value(), fd)
      ensures info == if fd < |eltos| then eltos[fd].info else NULL
    {
      if fd >= |eltos| { return NULL; }
      return eltos[fd].info;
    }
  }
}
