/**
 * The rank tables of the rebuild tools (src/utils/xpn_rebuild.c and
 * src/utils/xpn_rebuild_active_reader.c): for every running process its rank in the old
 * or new list of servers, or -1, with duplicates removed in place, and the way back.
 */
module RankTables {

  predicate InRange(t: seq<int>) {
    forall i :: 0 <= i < |t| ==> -1 <= t[i] < |t|
  }

  /** No rank is held twice. */
  ghost predicate Distinct(t: seq<int>) {
    forall i, j :: 0 <= i < j < |t| && t[i] == t[j] ==> t[i] == -1
  }

  /** A rank after other processes have claimed theirs. */
  function Claimed(holders: seq<int>, rank: int): int {
    if rank in holders then -1 else rank
  }

  function KeepFirst(t: seq<int>): seq<int> {
    seq(|t|, j requires 0 <= j < |t| => Claimed(t[..j], t[j]))
  }

  function KeepLast(t: seq<int>): seq<int> {
    seq(|t|, j requires 0 <= j < |t| => Claimed(t[j + 1..], t[j]))
  }

  lemma FirstHolder(t: seq<int>, v: int) returns (i: nat)
    requires v in t
    ensures i < |t| && t[i] == v && v !in t[..i]
  {
    i := 0;
    while t[i] != v
      invariant i < |t| && v !in t[..i] && v in t[i..]
      decreases |t| - i
    {
      i := i + 1;
    }
  }

  lemma LastHolder(t: seq<int>, v: int) returns (i: nat)
    requires v in t
    ensures i < |t| && t[i] == v && v !in t[i + 1..]
  {
    var n: nat := |t|;
    while t[n - 1] != v
      invariant 0 < n <= |t| && v !in t[n..] && v in t[..n]
      decreases n
    {
      n := n - 1;
    }
    i := n - 1;
  }

  /** Every rank present at first is kept exactly once, by its first holder. */
  lemma KeepFirstKeepsOnce(t: seq<int>)
    ensures Distinct(KeepFirst(t))
    ensures forall v :: v != -1 ==> (v in KeepFirst(t) <==> v in t)
    ensures forall j :: 0 <= j < |t| && t[j] != -1 ==> (KeepFirst(t)[j] == t[j] <==> t[j] !in t[..j])
  {
    forall v | v != -1 && v in t ensures v in KeepFirst(t) {
      var i := FirstHolder(t, v);
      assert KeepFirst(t)[i] == v;
    }
  }

  /** Every rank present at first is kept exactly once, by its last holder. */
  lemma KeepLastKeepsOnce(t: seq<int>)
    ensures Distinct(KeepLast(t))
    ensures forall v :: v != -1 ==> (v in KeepLast(t) <==> v in t)
    ensures forall j :: 0 <= j < |t| && t[j] != -1 ==> (KeepLast(t)[j] == t[j] <==> t[j] !in t[j + 1..])
  {
    forall v | v != -1 && v in t ensures v in KeepLast(t) {
      var i := LastHolder(t, v);
      assert KeepLast(t)[i] == v;
    }
  }

  /** The loops that remove duplicates of the new ranks, lowest process first. */
  method RemoveLaterDuplicates(t: array<int>)
    modifies t
    ensures t[..] == KeepFirst(old(t[..]))
  {
    ghost var was := t[..];
    var size := t.Length;
    var i := 0;
    while i < size
      invariant 0 <= i <= size
      invariant forall k :: 0 <= k < i ==> t[k] == Claimed(was[..k], was[k])
      invariant forall k :: i <= k < size ==> t[k] == Claimed(was[..i], was[k])
    {
      assert was[..i + 1] == was[..i] + [was[i]];
      if t[i] != -1 && i != size - 1 {
        var j := i + 1;
        while j < size
          invariant i + 1 <= j <= size
          invariant forall k :: 0 <= k <= i ==> t[k] == Claimed(was[..k], was[k])
          invariant forall k :: i < k < j ==> t[k] == Claimed(was[..i + 1], was[k])
          invariant forall k :: j <= k < size ==> t[k] == Claimed(was[..i], was[k])
        {
          if t[i] == t[j] {
            t[j] := -1;
          }
          j := j + 1;
        }
      }
      i := i + 1;
    }
  }

  /** The loops that remove duplicates of the old ranks, highest process first. */
  method RemoveEarlierDuplicates(t: array<int>)
    modifies t
    ensures t[..] == KeepLast(old(t[..]))
  {
    ghost var was := t[..];
    var size := t.Length;
    var i := size - 1;
    while i >= 0
      invariant -1 <= i < size
      invariant forall k :: i < k < size ==> t[k] == Claimed(was[k + 1..], was[k])
      invariant forall k :: 0 <= k <= i ==> t[k] == Claimed(was[i + 1..], was[k])
    {
      assert was[i..] == [was[i]] + was[i + 1..];
      if t[i] != -1 && i != 0 {
        var j := i - 1;
        while j >= 0
          invariant -1 <= j < i
          invariant forall k :: i <= k < size ==> t[k] == Claimed(was[k + 1..], was[k])
          invariant forall k :: j < k < i ==> t[k] == Claimed(was[i..], was[k])
          invariant forall k :: 0 <= k <= j ==> t[k] == Claimed(was[i + 1..], was[k])
        {
          if t[i] == t[j] {
            t[j] := -1;
          }
          j := j - 1;
        }
      }
      i := i - 1;
    }
  }

  /** `inverse` is the way back of the first n entries of `t`. */
  ghost predicate WayBack(t: seq<int>, n: nat, inverse: seq<int>)
    requires n <= |t|
  {
    && |inverse| == |t|
    && (forall v :: 0 <= v < |t| && inverse[v] != -1 ==> 0 <= inverse[v] < n && t[inverse[v]] == v)
    && (forall i :: 0 <= i < n && t[i] != -1 ==> 0 <= t[i] < |t| && i <= inverse[t[i]])
  }

  /** The loops that build the map from server ranks back to processes. */
  method BuildInverse(t: array<int>, inverse: array<int>)
    requires InRange(t[..]) && inverse.Length == t.Length && inverse != t
    modifies inverse
    ensures WayBack(t[..], t.Length, inverse[..])
  {
    var size := t.Length;
    var i := 0;
    while i < size
      invariant 0 <= i <= size
      invariant forall v :: 0 <= v < i ==> inverse[v] == -1
    {
      inverse[i] := -1;
      i := i + 1;
    }
    i := 0;
    assert InRange(t[..]);
    while i < size
      invariant 0 <= i <= size && t[..] == old(t[..])
      invariant WayBack(t[..], i, inverse[..])
    {
      assert -1 <= t[..][i] < size;
      if t[i] != -1 {
        inverse[t[i]] := i;
      }
      i := i + 1;
    }
  }

  /** On a table without duplicates the two directions are mutually inverse. */
  lemma MutuallyInverse(t: seq<int>, inverse: seq<int>)
    requires Distinct(t) && WayBack(t, |t|, inverse)
    ensures forall i :: 0 <= i < |t| && t[i] != -1 ==> 0 <= t[i] < |t| && inverse[t[i]] == i
    ensures forall v :: 0 <= v < |t| && inverse[v] != -1 ==> t[inverse[v]] == v
    ensures forall v :: 0 <= v < |t| ==> (inverse[v] == -1 <==> v !in t)
  {
  }

  /** The tables of the active reader: duplicates removed, and both ways back. */
  method PrepareTables(actualToNew: array<int>, actualToOld: array<int>, newToActual: array<int>, oldToActual: array<int>)
    requires actualToNew.Length == actualToOld.Length == newToActual.Length == oldToActual.Length
    requires actualToNew != actualToOld && newToActual !in {actualToNew, actualToOld}
    requires oldToActual !in {actualToNew, actualToOld, newToActual}
    requires InRange(actualToNew[..]) && InRange(actualToOld[..])
    modifies actualToNew, actualToOld, newToActual, oldToActual
    ensures actualToNew[..] == KeepFirst(old(actualToNew[..]))
    ensures actualToOld[..] == KeepLast(old(actualToOld[..]))
    ensures forall i :: 0 <= i < actualToNew.Length && actualToNew[i] != -1 ==>
      0 <= actualToNew[i] < newToActual.Length && newToActual[actualToNew[i]] == i
    ensures forall v :: 0 <= v < newToActual.Length && newToActual[v] != -1 ==>
      0 <= newToActual[v] < actualToNew.Length && actualToNew[newToActual[v]] == v
    ensures forall i :: 0 <= i < actualToOld.Length && actualToOld[i] != -1 ==>
      0 <= actualToOld[i] < oldToActual.Length && oldToActual[actualToOld[i]] == i
    ensures forall v :: 0 <= v < oldToActual.Length && oldToActual[v] != -1 ==>
      0 <= oldToActual[v] < actualToOld.Length && actualToOld[oldToActual[v]] == v
    ensures forall v :: 0 <= v < newToActual.Length ==> (newToActual[v] == -1 <==> v !in old(actualToNew[..]))
    ensures forall v :: 0 <= v < oldToActual.Length ==> (oldToActual[v] == -1 <==> v !in old(actualToOld[..]))
  {
    RemoveLaterDuplicates(actualToNew);
    RemoveEarlierDuplicates(actualToOld);
    KeepFirstKeepsOnce(old(actualToNew[..]));
    KeepLastKeepsOnce(old(actualToOld[..]));
    BuildInverse(actualToNew, newToActual);
    BuildInverse(actualToOld, oldToActual);
    MutuallyInverse(actualToNew[..], newToActual[..]);
    MutuallyInverse(actualToOld[..], oldToActual[..]);
    Elementwise(actualToNew, newToActual);
    Elementwise(actualToOld, oldToActual);
  }

  lemma Elementwise(t: array<int>, inverse: array<int>)
    requires t.Length == inverse.Length
    ensures forall i :: 0 <= i < t.Length ==> t[..][i] == t[i] && inverse[..][i] == inverse[i]
  {
  }
}
