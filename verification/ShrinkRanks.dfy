/**
 * The renumbering of src/utils/xpn_shrink.c: the servers that leave are taken out one by
 * one, and every process keeps the rank it has among the servers still there.
 */
module ShrinkRanks {
  import ExpandedPlacement

  /** One removal: the leaving process gets -1, the processes above it move down by one. */
  function Removed(trans: int, rank: int, leaver: int): int {
    if rank > leaver then trans - 1 else if rank == leaver then -1 else trans
  }

  /** trans_rank of a process after the leavers, in the order of the argument list. */
  function TransRank(rank: int, leavers: seq<int>): int {
    if leavers == [] then rank
    else Removed(TransRank(rank, leavers[..|leavers| - 1]), rank, leavers[|leavers| - 1])
  }

  function CountBelow(s: seq<int>, r: int): nat {
    if s == [] then 0 else CountBelow(s[..|s| - 1], r) + if s[|s| - 1] < r then 1 else 0
  }

  predicate DistinctRanks(leavers: seq<int>, size: nat) {
    && (forall k :: 0 <= k < |leavers| ==> 0 <= leavers[k] < size)
    && (forall k, l :: 0 <= k < l < |leavers| ==> leavers[k] != leavers[l])
  }

  predicate Ascending(leavers: seq<int>) {
    forall k, l :: 0 <= k < l < |leavers| ==> leavers[k] < leavers[l]
  }

  /** A process that stays keeps its place among those that stay. */
  lemma {:induction false} StayerRank(rank: int, leavers: seq<int>)
    requires rank !in leavers
    ensures TransRank(rank, leavers) == rank - CountBelow(leavers, rank)
  {
    if leavers != [] {
      assert rank != leavers[|leavers| - 1];
      StayerRank(rank, leavers[..|leavers| - 1]);
    }
  }

  /** A process that leaves gets -1, and one less for every later leaver below it. */
  lemma {:induction false} LeaverRank(leavers: seq<int>, k: nat)
    requires k < |leavers| && forall i, j :: 0 <= i < j < |leavers| ==> leavers[i] != leavers[j]
    ensures TransRank(leavers[k], leavers) == -1 - CountBelow(leavers[k + 1..], leavers[k])
  {
    var n := |leavers| - 1;
    if k < n {
      LeaverRank(leavers[..n], k);
      assert leavers[..n][k + 1..] == leavers[k + 1..][..n - k - 1];
    } else {
      assert leavers[k + 1..] == [];
    }
  }

  lemma {:induction false} CountBelowPositive(s: seq<int>, r: int)
    ensures CountBelow(s, r) > 0 <==> exists l :: 0 <= l < |s| && s[l] < r
  {
    if s != [] {
      var n := |s| - 1;
      CountBelowPositive(s[..n], r);
      assert forall l :: 0 <= l < n ==> s[l] == s[..n][l];
    }
  }

  /**
   * All leaving processes end up with -1, the mark the stop protocol looks for, exactly
   * when the leaving servers are listed in ascending rank order.
   */
  lemma LeaversMarkedExactlyIfAscending(leavers: seq<int>, size: nat)
    requires DistinctRanks(leavers, size)
    ensures (forall k :: 0 <= k < |leavers| ==> TransRank(leavers[k], leavers) == -1) <==> Ascending(leavers)
  {
    forall k | 0 <= k < |leavers|
      ensures TransRank(leavers[k], leavers) == -1
         <==> forall l :: k < l < |leavers| ==> leavers[k] < leavers[l]
    {
      LeaverRank(leavers, k);
      CountBelowPositive(leavers[k + 1..], leavers[k]);
      var rest := leavers[k + 1..];
      assert forall l :: k < l < |leavers| ==> leavers[l] == rest[l - k - 1];
      assert forall l :: 0 <= l < |rest| ==> rest[l] == leavers[l + k + 1];
    }
  }

  lemma {:induction false} CountBelowNext(leavers: seq<int>, r: int)
    requires forall i, j :: 0 <= i < j < |leavers| ==> leavers[i] != leavers[j]
    ensures CountBelow(leavers, r + 1) == CountBelow(leavers, r) + if r in leavers then 1 else 0
  {
    if leavers != [] {
      var n := |leavers| - 1;
      CountBelowNext(leavers[..n], r);
      assert leavers == leavers[..n] + [leavers[n]];
      if leavers[n] == r { assert r !in leavers[..n]; }
    }
  }

  lemma {:induction false} CountBelowBounds(s: seq<int>, lo: int, hi: int)
    requires forall k :: 0 <= k < |s| ==> lo <= s[k] < hi
    ensures CountBelow(s, lo) == 0 && CountBelow(s, hi) == |s|
  {
    if s != [] { CountBelowBounds(s[..|s| - 1], lo, hi); }
  }

  /** How many of the processes below r stay. */
  function StayersBelow(leavers: seq<int>, r: int): int { r - CountBelow(leavers, r) }

  lemma {:induction false} StayersMonotone(leavers: seq<int>, r1: int, r2: int)
    requires forall i, j :: 0 <= i < j < |leavers| ==> leavers[i] != leavers[j]
    requires r1 <= r2
    ensures StayersBelow(leavers, r1) <= StayersBelow(leavers, r2)
    ensures r1 < r2 && r1 !in leavers ==> StayersBelow(leavers, r1) < StayersBelow(leavers, r2)
    decreases r2 - r1
  {
    if r1 < r2 {
      CountBelowNext(leavers, r1);
      StayersMonotone(leavers, r1 + 1, r2);
    }
  }

  lemma {:induction false} StayerWithRank(leavers: seq<int>, n: nat, v: int) returns (r: int)
    requires forall i, j :: 0 <= i < j < |leavers| ==> leavers[i] != leavers[j]
    requires forall k :: 0 <= k < |leavers| ==> 0 <= leavers[k]
    requires 0 <= v < StayersBelow(leavers, n)
    ensures 0 <= r < n && r !in leavers && StayersBelow(leavers, r) == v
  {
    if n == 0 {
      assert false;
    } else {
      CountBelowNext(leavers, n - 1);
      if v < StayersBelow(leavers, n - 1) {
        r := StayerWithRank(leavers, n - 1, v);
      } else {
        r := n - 1;
      }
    }
  }

  /** The ranks of the processes that stay are 0, 1, ... in the old order, whatever the list's order. */
  lemma StayersRenumbered(leavers: seq<int>, size: nat)
    requires DistinctRanks(leavers, size)
    ensures forall r :: 0 <= r < size && r !in leavers ==> 0 <= TransRank(r, leavers) < size - |leavers|
    ensures forall r1, r2 :: 0 <= r1 < r2 < size && r1 !in leavers && r2 !in leavers ==>
      TransRank(r1, leavers) < TransRank(r2, leavers)
    ensures forall v :: 0 <= v < size - |leavers| ==> v in TransRanks(size, leavers)
  {
    CountBelowBounds(leavers, 0, size);
    forall r | 0 <= r < size && r !in leavers ensures 0 <= TransRank(r, leavers) < size - |leavers| {
      StayerRank(r, leavers);
      StayersMonotone(leavers, 0, r);
      StayersMonotone(leavers, r, size);
    }
    forall r1, r2 | 0 <= r1 < r2 < size && r1 !in leavers && r2 !in leavers
      ensures TransRank(r1, leavers) < TransRank(r2, leavers)
    {
      StayerRank(r1, leavers);
      StayerRank(r2, leavers);
      StayersMonotone(leavers, r1, r2);
    }
    forall v | 0 <= v < size - |leavers| ensures v in TransRanks(size, leavers) {
      var r := StayerWithRank(leavers, size, v);
      StayerRank(r, leavers);
      assert TransRanks(size, leavers)[r] == v;
    }
  }

  /** trans_rank_array after the loop over the leaving servers. */
  function TransRanks(size: nat, leavers: seq<int>): (trans: seq<int>)
    ensures |trans| == size && forall r :: 0 <= r < size ==> trans[r] == TransRank(r, leavers)
  {
    seq(size, r requires 0 <= r < size => TransRank(r, leavers))
  }

  /** The most of the leaving servers that find two free entries each in metadata of which `used` are in use. */
  function Removals(used: nat, leaving: nat): (n: nat)
    requires used <= ExpandedPlacement.MAX_RECONSTRUCTIONS
    ensures n <= leaving && used + 2 * n <= ExpandedPlacement.MAX_RECONSTRUCTIONS
    ensures n < leaving ==> ExpandedPlacement.MAX_RECONSTRUCTIONS < used + 2 * (n + 1)
  {
    if (ExpandedPlacement.MAX_RECONSTRUCTIONS - used) / 2 < leaving then (ExpandedPlacement.MAX_RECONSTRUCTIONS - used) / 2 else leaving
  }

  /** All leaving servers are removed exactly if the metadata has two free entries for each. */
  lemma AllRemovedExactlyIf(used: nat, leaving: nat)
    requires used <= ExpandedPlacement.MAX_RECONSTRUCTIONS
    ensures Removals(used, leaving) == leaving <==> used + 2 * leaving <= ExpandedPlacement.MAX_RECONSTRUCTIONS
  {
  }

  /** One removal: every process updates its own trans_rank. */
  method Remove(trans: array<int>, rankBcast: int, ghost leavers: seq<int>)
    requires forall r :: 0 <= r < trans.Length ==> trans[r] == TransRank(r, leavers)
    modifies trans
    ensures forall r :: 0 <= r < trans.Length ==> trans[r] == TransRank(r, leavers + [rankBcast])
  {
    assert (leavers + [rankBcast])[..|leavers|] == leavers;
    var rank := 0;
    while rank < trans.Length
      invariant 0 <= rank <= trans.Length
      invariant forall r :: 0 <= r < rank ==> trans[r] == TransRank(r, leavers + [rankBcast])
      invariant forall r :: rank <= r < trans.Length ==> trans[r] == TransRank(r, leavers)
    {
      if rank > rankBcast {
        trans[rank] := trans[rank] - 1;
      } else if rank == rankBcast {
        trans[rank] := -1;
      }
      rank := rank + 1;
    }
  }

  /**
   * The loop over the entries of the metadata, the first `used` of which are in use: each
   * leaving server in turn takes the next two free entries and is removed, until all are
   * or the entries run out.
   */
  method Renumber(size: nat, leavers: seq<int>, used: nat) returns (trans: array<int>)
    requires leavers != [] && 1 <= used <= ExpandedPlacement.MAX_RECONSTRUCTIONS
    ensures fresh(trans) && trans[..] == TransRanks(size, leavers[..Removals(used, |leavers|)])
  {
    trans := new int[size](i => i);
    var firstFree := used;
    var k := 0;
    var i := 1;
    while i < ExpandedPlacement.MAX_RECONSTRUCTIONS
      invariant 0 <= k < |leavers| && firstFree == used + 2 * k
      invariant 1 <= i <= ExpandedPlacement.MAX_RECONSTRUCTIONS && (i <= firstFree || firstFree == ExpandedPlacement.MAX_RECONSTRUCTIONS - 1)
      invariant k > 0 ==> firstFree <= ExpandedPlacement.MAX_RECONSTRUCTIONS
      invariant forall r :: 0 <= r < size ==> trans[r] == TransRank(r, leavers[..k])
    {
      if i >= firstFree && i + 1 < ExpandedPlacement.MAX_RECONSTRUCTIONS {
        Remove(trans, leavers[k], leavers[..k]);
        assert leavers[..k] + [leavers[k]] == leavers[..k + 1];
        firstFree := i + 2;
        k := k + 1;
        if k == |leavers| { return; }
      }
      i := i + 1;
    }
  }

  /** The process to send to: the first from i on that holds the server's rank, or else process 0. */
  function Search(trans: seq<int>, serv: int, i: nat): (r: nat)
    requires i <= |trans|
    ensures r < |trans| || r == 0
    ensures serv in trans[i..] ==> i <= r < |trans| && trans[r] == serv && serv !in trans[i..r]
    ensures serv !in trans[i..] ==> r == 0
    decreases |trans| - i
  {
    if i == |trans| then 0
    else
      assert trans[i..] == [trans[i]] + trans[i + 1..];
      if trans[i] == serv then i
      else
        var r := Search(trans, serv, i + 1);
        assert serv in trans[i + 1..] ==> trans[i..r] == [trans[i]] + trans[i + 1..r];
        r
  }

  /** The loop that searches for the process to send to. */
  method RankToSend(trans: seq<int>, serv: int) returns (rankToSend: int)
    ensures rankToSend == Search(trans, serv, 0)
    ensures serv in trans ==> 0 <= rankToSend < |trans| && trans[rankToSend] == serv && serv !in trans[..rankToSend]
  {
    rankToSend := 0;
    var i := 0;
    while i < |trans|
      invariant 0 <= i <= |trans| && rankToSend == 0
      invariant Search(trans, serv, 0) == Search(trans, serv, i)
    {
      if serv == trans[i] {
        rankToSend := i;
        break;
      }
      i := i + 1;
    }
    assert trans[0..] == trans;
  }

  /** For every server of the new configuration the search finds the one process that serves it. */
  lemma SearchIsInverse(size: nat, leavers: seq<int>, serv: int)
    requires DistinctRanks(leavers, size) && 0 <= serv < size - |leavers|
    ensures serv in TransRanks(size, leavers)
    ensures forall i :: 0 <= i < size && TransRanks(size, leavers)[i] == serv ==> i !in leavers
    ensures forall i, j :: 0 <= i < j < size ==>
      !(TransRanks(size, leavers)[i] == serv && TransRanks(size, leavers)[j] == serv)
  {
    StayersRenumbered(leavers, size);
    forall i | 0 <= i < size && i in leavers ensures TransRank(i, leavers) < 0 {
      var k :| 0 <= k < |leavers| && leavers[k] == i;
      LeaverRank(leavers, k);
    }
  }
}
