/**
 * Who is stopped when in the data move of src/utils/xpn_shrink.c, that it cannot get
 * stuck, and when it can end at all.
 */
module ShrinkStop {
  import opened ByteStrings
  import opened Counting
  import opened ShrinkProtocol
  import opened ShrinkRanks
  import ExpandedPlacement

  // ----- safety: for any stop table

  lemma {:induction false} RunInv(u: Setup, s: State, steps: seq<Step>)
    requires Inv(u, s) && IsRun(u, s, steps)
    ensures Inv(u, After(u, s, steps))
    decreases |steps|
  {
    if steps != [] {
      StepInv(u, s, steps[0]);
      RunInv(u, Next(u, s, steps[0]), steps[1..]);
    }
  }

  /** Writer w has written every block sent to it, each once and unmixed, and nothing else. */
  ghost predicate HasItsBlocks(u: Setup, s: State, w: nat)
    requires u.Valid() && |s.logs| == |u.isReader| && w < |s.logs|
  {
    && (forall r: nat, b: nat :: r < |u.blocks| && b < |u.blocks[r]| && u.blocks[r][b].dest == w ==>
          Written(r, b, u.blocks[r][b].offset, u.blocks[r][b].data) in s.logs[w])
    && (forall n :: 0 <= n < |s.logs[w]| ==>
          var e := s.logs[w][n];
          e.src < |u.blocks| && e.block < |u.blocks[e.src]| && u.blocks[e.src][e.block] == Block(w, e.offset, e.data))
    && (forall n, k :: 0 <= n < k < |s.logs[w]| ==> s.logs[w][n] != s.logs[w][k])
  }

  /** In every interleaving a writer stops only after it has written every block sent to it. */
  lemma NoEarlyStop(u: Setup, steps: seq<Step>, w: nat)
    requires u.Valid() && IsRun(u, Start(u), steps) && w < |u.isReader| && !u.isReader[w]
    requires After(u, Start(u), steps).procs[w].Ended?
    ensures HasItsBlocks(u, After(u, Start(u), steps), w)
  {
    InitInv(u);
    RunInv(u, Start(u), steps);
    var s := After(u, Start(u), steps);
    assert OverBarrier(s.procs[w]);
    forall r: nat, b: nat | r < |u.blocks| && b < |u.blocks[r]| && u.blocks[r][b].dest == w
      ensures Written(r, b, u.blocks[r][b].offset, u.blocks[r][b].data) in s.logs[w]
    {
      assert Sent(u, s, r) == |u.blocks[r]|;
    }
    forall n | 0 <= n < |s.logs[w]| ensures EntryRight(u, s, w, s.logs[w][n]) {
    }
  }

  // ----- every run is finite

  function Weight(u: Setup, s: State, i: nat): nat
    requires i < |s.procs| == |u.blocks|
  {
    var n := |s.procs|;
    match s.procs[i]
    case Sending(b, p) => if b <= |u.blocks[i]| && p <= 3 then 4 * (|u.blocks[i]| - b) + 3 - p + n + 3 else 0
    case AtBarrier => n + 2
    case Stopping(next) => if next <= n then n - next + 1 else 0
    case Waiting => 1
    case Taking(_, _, _, _) => 1
    case Ended => 0
  }

  function Weights(u: Setup, s: State): seq<nat>
    requires |s.procs| == |u.blocks|
  {
    seq(|s.procs|, i requires 0 <= i < |s.procs| => Weight(u, s, i))
  }

  function Same(n: nat): nat { n }

  function Measure(u: Setup, s: State): nat
    requires |s.procs| == |u.blocks|
  {
    Sum(Weights(u, s), Same)
  }

  lemma TwoChange(a: seq<nat>, b: seq<nat>, i: nat, j: nat)
    requires i < |a| == |b| && j < |a| && b == a[i := b[i]][j := b[j]]
    requires b[i] < a[i] && b[j] <= a[j]
    ensures Sum(b, Same) < Sum(a, Same)
  {
    SumUpdate(a, i, b[i], Same);
    SumUpdate(a[i := b[i]], j, b[j], Same);
  }

  /** The process that steps has less to do, its partner no more, and the others as much as before. */
  lemma StepWeights(u: Setup, s: State, step: Step)
    requires Inv(u, s) && Enabled(u, s, step)
    ensures var n, i := Next(u, s, step), step.r;
      var j := if step.SendPart? || step.SendStop? then step.w else i;
      && Weight(u, n, i) < Weight(u, s, i)
      && (j != i ==> Weight(u, n, j) <= Weight(u, s, j))
      && forall k :: 0 <= k < |s.procs| && k != i && k != j ==> n.procs[k] == s.procs[k]
  {
    if s.procs[step.r].Sending? { assert ReaderLinked(u, s, step.r); }
  }

  lemma StepProgress(u: Setup, s: State, step: Step)
    requires Inv(u, s) && Enabled(u, s, step)
    ensures Measure(u, Next(u, s, step)) < Measure(u, s)
  {
    var n, i := Next(u, s, step), step.r;
    var j := if step.SendPart? || step.SendStop? then step.w else i;
    StepWeights(u, s, step);
    assert Weights(u, n) == Weights(u, s)[i := Weight(u, n, i)][j := Weight(u, n, j)];
    TwoChange(Weights(u, s), Weights(u, n), i, j);
  }

  lemma {:induction false} RunIsShort(u: Setup, s: State, steps: seq<Step>)
    requires Inv(u, s) && IsRun(u, s, steps)
    ensures |steps| <= Measure(u, s)
    decreases |steps|
  {
    if steps != [] {
      StepInv(u, s, steps[0]);
      StepProgress(u, s, steps[0]);
      RunIsShort(u, Next(u, s, steps[0]), steps[1..]);
    }
  }

  // ----- progress: when the stops go to the writers

  /** The stops sent so far are those to the writers below the position of the master m. */
  ghost predicate StopOrder(u: Setup, s: State, m: nat)
    requires |s.procs| == |u.isReader|
  {
    && m < |s.procs| && IsMaster(u, m)
    && forall w :: 0 <= w < |s.procs| && !u.isReader[w] ==>
      (s.procs[w].Ended? <==> (s.procs[m].Stopping? && w < s.procs[m].next) || s.procs[m].Ended?)
  }

  lemma OneMaster(u: Setup, m1: nat, m2: nat)
    requires IsMaster(u, m1) && IsMaster(u, m2)
    ensures m1 == m2
  {
  }

  lemma StopOrderKept(u: Setup, s: State, step: Step, m: nat)
    requires Inv(u, s) && u.StopsRight() && StopOrder(u, s, m) && Enabled(u, s, step)
    ensures StopOrder(u, Next(u, s, step), m)
  {
    if IsMaster(u, step.r) { OneMaster(u, m, step.r); }
  }

  lemma {:induction false} FirstMarked(trans: seq<int>) returns (m: nat)
    requires -1 in trans
    ensures m < |trans| && trans[m] == -1 && forall q :: 0 <= q < m ==> trans[q] != -1
  {
    m := 0;
    while trans[m] != -1
      invariant m < |trans| && (forall q :: 0 <= q < m ==> trans[q] != -1) && -1 in trans[m..]
      decreases |trans| - m
    {
      m := m + 1;
    }
  }

  /**
   * No arrival is ruled out: a writer that waits takes the first part from any reader that
   * sends to it, a block begun can go on, and who has sent everything may go to the barrier.
   */
  lemma AnyArrivalIsARun(u: Setup, s: State, r: nat)
    requires Inv(u, s) && r < |s.procs| && s.procs[r].Sending?
    ensures s.procs[r].block == |u.blocks[r]| ==> Enabled(u, s, ReachBarrier(r))
    ensures s.procs[r].block < |u.blocks[r]| ==>
      var w := u.blocks[r][s.procs[r].block].dest;
      s.procs[w].Waiting? || s.procs[r].part > 0 ==> Enabled(u, s, SendPart(r, w))
  {
    assert ReaderLinked(u, s, r);
    if s.procs[r].block < |u.blocks[r]| && s.procs[r].part > 0 {
      assert WriterLinked(u, s, u.blocks[r][s.procs[r].block].dest);
    }
  }

  /** A writer in the middle of a block has a reader in the middle of it. */
  lemma TakenFromSomebody(u: Setup, s: State)
    requires Inv(u, s)
    ensures (exists w :: 0 <= w < |s.procs| && s.procs[w].Taking?) ==>
      exists p :: 0 <= p < |s.procs| && s.procs[p].Sending? && s.procs[p].part > 0
  {
    if w :| 0 <= w < |s.procs| && s.procs[w].Taking? {
      assert WriterLinked(u, s, w);
    }
  }

  lemma StepWhileSending(u: Setup, s: State, q: nat) returns (step: Step)
    requires u.Valid() && u.SendsToWriters() && Inv(u, s) && q < |s.procs| && s.procs[q].Sending?
    ensures Enabled(u, s, step)
  {
    TakenFromSomebody(u, s);
    if p :| 0 <= p < |s.procs| && s.procs[p].Sending? && s.procs[p].part > 0 {
      assert ReaderLinked(u, s, p);
      var w := u.blocks[p][s.procs[p].block].dest;
      assert WriterLinked(u, s, w);
      step := SendPart(p, w);
    } else {
      assert ReaderLinked(u, s, q);
      if s.procs[q].block == |u.blocks[q]| {
        step := ReachBarrier(q);
      } else {
        var w := u.blocks[q][s.procs[q].block].dest;
        assert !OverBarrier(s.procs[w]);
        step := SendPart(q, w);
      }
    }
  }

  /** Beyond the barrier nobody is left once the master has ended. */
  lemma MasterIsLast(u: Setup, s: State, m: nat)
    requires Inv(u, s) && u.StopsRight() && StopOrder(u, s, m)
    requires forall q :: 0 <= q < |s.procs| ==> !s.procs[q].Sending? && !s.procs[q].AtBarrier? && !s.procs[q].Taking?
    ensures s.procs[m].Stopping? || Finished(s)
  {
    forall i | 0 <= i < |s.procs| ensures s.procs[i].Stopping? ==> i == m {
      if IsMaster(u, i) { OneMaster(u, i, m); }
    }
  }

  /** Until every process has ended some step can be made. */
  lemma NeverStuck(u: Setup, s: State, m: nat) returns (step: Step)
    requires Inv(u, s) && u.StopsRight() && u.SendsToWriters() && StopOrder(u, s, m) && !Finished(s)
    ensures Enabled(u, s, step)
  {
    if q :| 0 <= q < |s.procs| && s.procs[q].Sending? {
      step := StepWhileSending(u, s, q);
    } else if q :| 0 <= q < |s.procs| && s.procs[q].AtBarrier? {
      step := PassBarrier(q);
    } else {
      TakenFromSomebody(u, s);
      MasterIsLast(u, s, m);
      if s.procs[m].Stopping? {
        var i := s.procs[m].next;
        if i == |u.trans| {
          step := EndStops(m);
        } else if u.trans[i] == -1 {
          step := SkipStop(m);
        } else {
          assert !s.procs[i].Ended?;
          step := SendStop(m, i);
        }
      } else {
        assert false;
      }
    }
  }

  /** The first reader is the master, and nobody has been stopped yet. */
  lemma StartOrder(u: Setup) returns (m: nat)
    requires u.Valid() && u.StopsRight() && true in u.isReader
    ensures StopOrder(u, Start(u), m)
  {
    var r :| 0 <= r < |u.isReader| && u.isReader[r];
    assert u.trans[r] == -1;
    m := FirstMarked(u.trans);
  }

  lemma {:induction false} RunOrder(u: Setup, s: State, steps: seq<Step>, m: nat)
    requires Inv(u, s) && u.StopsRight() && StopOrder(u, s, m) && IsRun(u, s, steps)
    ensures StopOrder(u, After(u, s, steps), m)
    decreases |steps|
  {
    if steps != [] {
      StepInv(u, s, steps[0]);
      StopOrderKept(u, s, steps[0], m);
      RunOrder(u, Next(u, s, steps[0]), steps[1..], m);
    }
  }

  ghost predicate CannotGoOn(u: Setup, s: State)
    requires u.Valid() && |s.procs| == |s.logs| == |u.isReader|
  {
    forall step :: !Enabled(u, s, step)
  }

  /** When the stops go to the writers, every interleaving is finite and ends with everything written. */
  lemma EveryInterleavingEnds(u: Setup, steps: seq<Step>)
    requires u.Valid() && u.StopsRight() && u.SendsToWriters() && true in u.isReader && IsRun(u, Start(u), steps)
    ensures |steps| <= Measure(u, Start(u))
    ensures CannotGoOn(u, After(u, Start(u), steps)) ==>
      && Finished(After(u, Start(u), steps))
      && forall w :: 0 <= w < |u.isReader| && !u.isReader[w] ==> HasItsBlocks(u, After(u, Start(u), steps), w)
  {
    InitInv(u);
    var m := StartOrder(u);
    RunInv(u, Start(u), steps);
    RunOrder(u, Start(u), steps, m);
    RunIsShort(u, Start(u), steps);
    var s := After(u, Start(u), steps);
    if CannotGoOn(u, s) {
      if !Finished(s) {
        var step := NeverStuck(u, s, m);
      }
      forall w | 0 <= w < |u.isReader| && !u.isReader[w] ensures HasItsBlocks(u, s, w) {
        NoEarlyStop(u, steps, w);
      }
    }
  }

  // ----- a stop that goes to a reader is never received

  ghost predicate MasterHeld(u: Setup, s: State, m: nat, i: nat)
    requires |s.procs| == |u.isReader|
  {
    m < |s.procs| && i < |s.procs| && !s.procs[m].Ended? && (s.procs[m].Stopping? ==> s.procs[m].next <= i)
  }

  lemma {:induction false} HeldForEver(u: Setup, s: State, steps: seq<Step>, m: nat, i: nat)
    requires Inv(u, s) && IsRun(u, s, steps) && IsMaster(u, m)
    requires i < |u.isReader| && u.isReader[i] && u.isReader[m] && u.trans[i] != -1 && MasterHeld(u, s, m, i)
    ensures MasterHeld(u, After(u, s, steps), m, i)
    decreases |steps|
  {
    if steps != [] {
      StepInv(u, s, steps[0]);
      HeldForEver(u, Next(u, s, steps[0]), steps[1..], m, i);
    }
  }

  /** What a reader sends for a block: the server that the new placement names, the offset there, the bytes. */
  datatype Send = Send(serv: int, offset: int, data: Bytes)

  /** trans_rank_array when the data move begins, with metadata of which `used` entries are in use. */
  function Marks(size: nat, leavers: seq<int>, used: nat): (trans: seq<int>)
    requires used <= ExpandedPlacement.MAX_RECONSTRUCTIONS
    ensures |trans| == size
  {
    TransRanks(size, leavers[..Removals(used, |leavers|)])
  }

  /** Each block goes to the process that the search over trans_rank_array finds. */
  function Addressed(trans: seq<int>, sends: seq<Send>): (blocks: seq<Block>)
    ensures |blocks| == |sends| && forall b :: 0 <= b < |blocks| ==>
      blocks[b] == Block(Search(trans, sends[b].serv, 0), sends[b].offset, sends[b].data)
  {
    seq(|sends|, b requires 0 <= b < |sends| => Block(Search(trans, sends[b].serv, 0), sends[b].offset, sends[b].data))
  }

  /**
   * The setup of a shrink: the listed processes leave and send, and trans_rank_array
   * decides to whom, and who is stopped.
   */
  function ShrinkSetup(size: nat, leavers: seq<int>, used: nat, sends: seq<seq<Send>>): Setup
    requires used <= ExpandedPlacement.MAX_RECONSTRUCTIONS && |sends| == size
  {
    var trans := Marks(size, leavers, used);
    Setup(seq(size, r => r in leavers),
          seq(size, r requires 0 <= r < |sends| => if r in leavers then Addressed(trans, sends[r]) else []), trans)
  }

  lemma SetupIsValid(size: nat, leavers: seq<int>, used: nat, sends: seq<seq<Send>>)
    requires used <= ExpandedPlacement.MAX_RECONSTRUCTIONS && |sends| == size
    ensures ShrinkSetup(size, leavers, used, sends).Valid()
  {
    var u := ShrinkSetup(size, leavers, used, sends);
    forall r, b | 0 <= r < |u.blocks| && 0 <= b < |u.blocks[r]|
      ensures u.isReader[r] && u.blocks[r][b].dest < |u.isReader|
    {
      assert u.blocks[r] == if r in leavers then Addressed(u.trans, sends[r]) else [];
    }
  }

  /**
   * The setup contains what each leaving process sends, all of it and in order, each block
   * to a process that serves its server if there is one; the others send nothing.
   */
  lemma SetupSendsAll(size: nat, leavers: seq<int>, used: nat, sends: seq<seq<Send>>, r: nat)
    requires used <= ExpandedPlacement.MAX_RECONSTRUCTIONS && |sends| == size && r < size
    ensures var u := ShrinkSetup(size, leavers, used, sends);
      && |u.isReader| == |u.blocks| == |u.trans| == size
      && (u.isReader[r] <==> r in leavers)
      && |u.blocks[r]| == (if r in leavers then |sends[r]| else 0)
      && forall b :: 0 <= b < |u.blocks[r]| ==>
           && u.blocks[r][b].offset == sends[r][b].offset && u.blocks[r][b].data == sends[r][b].data
           && (sends[r][b].serv in u.trans ==> u.blocks[r][b].dest < size && u.trans[u.blocks[r][b].dest] == sends[r][b].serv)
  {
    var u := ShrinkSetup(size, leavers, used, sends);
    assert u.blocks[r] == if r in leavers then Addressed(u.trans, sends[r]) else [];
    assert u.trans[0..] == u.trans;
  }

  /** The placement names servers of the new configuration only. */
  predicate NewServersOnly(sends: seq<seq<Send>>, servers: int) {
    forall r, b :: 0 <= r < |sends| && 0 <= b < |sends[r]| ==> 0 <= sends[r][b].serv < servers
  }

  /** When all leaving servers were removed, every block goes to a process that stays. */
  lemma SentToStayers(size: nat, leavers: seq<int>, used: nat, sends: seq<seq<Send>>)
    requires DistinctRanks(leavers, size) && |sends| == size
    requires used + 2 * |leavers| <= ExpandedPlacement.MAX_RECONSTRUCTIONS
    requires NewServersOnly(sends, size - |leavers|)
    ensures ShrinkSetup(size, leavers, used, sends).Valid() && ShrinkSetup(size, leavers, used, sends).SendsToWriters()
  {
    var u := ShrinkSetup(size, leavers, used, sends);
    SetupIsValid(size, leavers, used, sends);
    AllRemovedExactlyIf(used, |leavers|);
    assert leavers[..|leavers|] == leavers;
    forall r, b | 0 <= r < |u.blocks| && 0 <= b < |u.blocks[r]| ensures !u.isReader[u.blocks[r][b].dest] {
      assert u.blocks[r] == if r in leavers then Addressed(u.trans, sends[r]) else [];
      SearchIsInverse(size, leavers, sends[r][b].serv);
      assert u.trans[0..] == u.trans;
    }
  }

  /** The list is ascending, and the metadata has two free entries for each leaving server. */
  predicate InOrderWithRoom(leavers: seq<int>, used: nat) {
    Ascending(leavers) && used + 2 * |leavers| <= ExpandedPlacement.MAX_RECONSTRUCTIONS
  }

  lemma StopsRightExactlyIf(size: nat, leavers: seq<int>, used: nat, sends: seq<seq<Send>>)
    requires DistinctRanks(leavers, size) && used <= ExpandedPlacement.MAX_RECONSTRUCTIONS && |sends| == size
    ensures ShrinkSetup(size, leavers, used, sends).StopsRight() <==> InOrderWithRoom(leavers, used)
  {
    var u, n := ShrinkSetup(size, leavers, used, sends), Removals(used, |leavers|);
    AllRemovedExactlyIf(used, |leavers|);
    if n < |leavers| {
      StayersRenumbered(leavers[..n], size);
      assert u.isReader[leavers[n]] && 0 <= u.trans[leavers[n]];
    } else {
      assert leavers[..n] == leavers;
      LeaversMarkedExactlyIfAscending(leavers, size);
      StayersRenumbered(leavers, size);
      assert forall k :: 0 <= k < |leavers| ==> u.isReader[leavers[k]] && u.trans[leavers[k]] == TransRank(leavers[k], leavers);
      if Ascending(leavers) {
        forall i | 0 <= i < size ensures u.trans[i] == -1 <==> u.isReader[i] {
          if i in leavers { var k :| 0 <= k < |leavers| && leavers[k] == i; }
        }
      }
    }
  }

  /** Process i stays and is, in the old order, number serv among those that stay. */
  predicate Serves(leavers: seq<int>, i: int, serv: int) {
    i !in leavers && StayersBelow(leavers, i) == serv
  }

  /** With all leaving servers removed, the mark of a process is the server it becomes. */
  lemma MarksAreServers(size: nat, leavers: seq<int>, used: nat, i: nat, serv: int)
    requires DistinctRanks(leavers, size) && i < size && 0 <= serv < size - |leavers|
    requires used + 2 * |leavers| <= ExpandedPlacement.MAX_RECONSTRUCTIONS
    ensures serv in Marks(size, leavers, used)
    ensures Marks(size, leavers, used)[i] == serv <==> Serves(leavers, i, serv)
    ensures forall j :: 0 <= j < size && Marks(size, leavers, used)[j] == serv == Marks(size, leavers, used)[i] ==> i == j
  {
    AllRemovedExactlyIf(used, |leavers|);
    assert leavers[..|leavers|] == leavers;
    SearchIsInverse(size, leavers, serv);
    if i !in leavers { StayerRank(i, leavers); }
  }

  /** The process that a send of a leaving one is addressed to. */
  lemma AddressedToServer(size: nat, leavers: seq<int>, used: nat, sends: seq<seq<Send>>, r: nat, b: nat, i: nat)
    requires DistinctRanks(leavers, size) && InOrderWithRoom(leavers, used)
    requires |sends| == size && NewServersOnly(sends, size - |leavers|)
    requires r < size && r in leavers && b < |sends[r]| && i < size
    ensures var u := ShrinkSetup(size, leavers, used, sends);
      && |u.blocks| == size && |u.blocks[r]| == |sends[r]|
      && (u.blocks[r][b].dest == i <==> Serves(leavers, i, sends[r][b].serv))
  {
    var u := ShrinkSetup(size, leavers, used, sends);
    SetupSendsAll(size, leavers, used, sends, r);
    MarksAreServers(size, leavers, used, i, sends[r][b].serv);
    assert u.trans == Marks(size, leavers, used);
  }

  /** The log of process i holds exactly the blocks sent for the server it becomes, each once. */
  ghost predicate ServerHasItsBlocks(leavers: seq<int>, sends: seq<seq<Send>>, log: seq<Written>, i: nat) {
    && (forall r: nat, b: nat :: r < |sends| && r in leavers && b < |sends[r]| && Serves(leavers, i, sends[r][b].serv) ==>
          Written(r, b, sends[r][b].offset, sends[r][b].data) in log)
    && (forall n :: 0 <= n < |log| ==>
          var e := log[n];
          e.src < |sends| && e.src in leavers && e.block < |sends[e.src]|
          && sends[e.src][e.block] == Send(StayersBelow(leavers, i), e.offset, e.data))
    && (forall n, k :: 0 <= n < k < |log| ==> log[n] != log[k])
  }

  lemma BlocksOfServer(size: nat, leavers: seq<int>, used: nat, sends: seq<seq<Send>>, s: State, i: nat)
    requires DistinctRanks(leavers, size) && InOrderWithRoom(leavers, used)
    requires |sends| == size && NewServersOnly(sends, size - |leavers|) && i < size && i !in leavers
    requires ShrinkSetup(size, leavers, used, sends).Valid() && |s.logs| == |ShrinkSetup(size, leavers, used, sends).isReader| == size
    requires HasItsBlocks(ShrinkSetup(size, leavers, used, sends), s, i)
    ensures ServerHasItsBlocks(leavers, sends, s.logs[i], i)
  {
    var u := ShrinkSetup(size, leavers, used, sends);
    forall r: nat, b: nat | r < |sends| && r in leavers && b < |sends[r]| && Serves(leavers, i, sends[r][b].serv)
      ensures Written(r, b, sends[r][b].offset, sends[r][b].data) in s.logs[i]
    {
      SetupSendsAll(size, leavers, used, sends, r);
      AddressedToServer(size, leavers, used, sends, r, b, i);
    }
    forall n | 0 <= n < |s.logs[i]|
      ensures var e := s.logs[i][n];
        && e.src < |sends| && e.src in leavers && e.block < |sends[e.src]|
        && sends[e.src][e.block] == Send(StayersBelow(leavers, i), e.offset, e.data)
    {
      var e := s.logs[i][n];
      SetupSendsAll(size, leavers, used, sends, e.src);
      AddressedToServer(size, leavers, used, sends, e.src, e.block, i);
    }
  }

  /**
   * A shrink in order and with room moves everything: every interleaving is finite, and
   * when it cannot go on, every process has ended and each one that stays has written
   * exactly the blocks that the leaving processes sent for the server it becomes.
   */
  lemma EveryBlockReachesItsServer(size: nat, leavers: seq<int>, used: nat, sends: seq<seq<Send>>, steps: seq<Step>)
    requires DistinctRanks(leavers, size) && 0 < |leavers| && InOrderWithRoom(leavers, used)
    requires |sends| == size && NewServersOnly(sends, size - |leavers|)
    requires var u := ShrinkSetup(size, leavers, used, sends); u.Valid() && IsRun(u, Start(u), steps)
    ensures var u := ShrinkSetup(size, leavers, used, sends);
      var e := After(u, Start(u), steps);
      && |steps| <= Measure(u, Start(u)) && |e.logs| == size
      && (CannotGoOn(u, e) ==> Finished(e))
      && (CannotGoOn(u, e) ==> forall i :: 0 <= i < size && i !in leavers ==> ServerHasItsBlocks(leavers, sends, e.logs[i], i))
  {
    var u := ShrinkSetup(size, leavers, used, sends);
    StopsRightExactlyIf(size, leavers, used, sends);
    SentToStayers(size, leavers, used, sends);
    assert u.isReader[leavers[0]];
    EveryInterleavingEnds(u, steps);
    var e := After(u, Start(u), steps);
    if CannotGoOn(u, e) {
      forall i | 0 <= i < size && i !in leavers ensures ServerHasItsBlocks(leavers, sends, e.logs[i], i) {
        assert !u.isReader[i];
        BlocksOfServer(size, leavers, used, sends, e, i);
      }
    }
  }

  lemma {:induction false} FinishingRun(u: Setup, s: State, m: nat) returns (steps: seq<Step>)
    requires Inv(u, s) && u.StopsRight() && u.SendsToWriters() && StopOrder(u, s, m)
    ensures IsRun(u, s, steps) && Finished(After(u, s, steps))
    decreases Measure(u, s)
  {
    if Finished(s) {
      steps := [];
    } else {
      var step := NeverStuck(u, s, m);
      StepInv(u, s, step);
      StopOrderKept(u, s, step, m);
      StepProgress(u, s, step);
      var rest := FinishingRun(u, Next(u, s, step), m);
      steps := [step] + rest;
    }
  }

  /** Some interleaving gets every process through. */
  ghost predicate CanEnd(u: Setup)
    requires u.Valid()
  {
    exists steps :: IsRun(u, Start(u), steps) && Finished(After(u, Start(u), steps))
  }

  /** Without a mark -1 nobody sends stops, and the writers stay. */
  ghost predicate NobodyStops(u: Setup, s: State)
    requires |s.procs| == |u.isReader|
  {
    forall i :: 0 <= i < |s.procs| ==> !s.procs[i].Stopping? && (!u.isReader[i] ==> !s.procs[i].Ended?)
  }

  lemma {:induction false} NobodyEverStops(u: Setup, s: State, steps: seq<Step>)
    requires Inv(u, s) && IsRun(u, s, steps) && -1 !in u.trans && NobodyStops(u, s)
    ensures NobodyStops(u, After(u, s, steps))
    decreases |steps|
  {
    if steps != [] {
      StepInv(u, s, steps[0]);
      NobodyEverStops(u, Next(u, s, steps[0]), steps[1..]);
    }
  }

  /**
   * A shrink after which some server stays can end exactly when the leaving servers are
   * listed in ascending rank order and the metadata has two free entries for each.
   * Otherwise some leaving process is not marked -1 and is sent a stop it never receives,
   * or nobody sends stops at all, and no interleaving gets every process through.
   */
  lemma ShrinkEndsExactlyIf(size: nat, leavers: seq<int>, used: nat, sends: seq<seq<Send>>)
    requires DistinctRanks(leavers, size) && 0 < |leavers| < size && used <= ExpandedPlacement.MAX_RECONSTRUCTIONS
    requires |sends| == size && NewServersOnly(sends, size - Removals(used, |leavers|))
    ensures ShrinkSetup(size, leavers, used, sends).Valid()
    ensures CanEnd(ShrinkSetup(size, leavers, used, sends)) <==> InOrderWithRoom(leavers, used)
  {
    var u := ShrinkSetup(size, leavers, used, sends);
    SetupIsValid(size, leavers, used, sends);
    StopsRightExactlyIf(size, leavers, used, sends);
    InitInv(u);
    assert u.isReader[leavers[0]];
    if InOrderWithRoom(leavers, used) {
      AllRemovedExactlyIf(used, |leavers|);
      SentToStayers(size, leavers, used, sends);
      var m := StartOrder(u);
      var steps := FinishingRun(u, Start(u), m);
    } else if -1 in u.trans {
      MarkedAreReaders(size, leavers, used, sends);
      var m := FirstMarked(u.trans);
      var i :| 0 <= i < |u.trans| && !(u.trans[i] == -1 <==> u.isReader[i]);
      forall steps | IsRun(u, Start(u), steps) ensures !Finished(After(u, Start(u), steps)) {
        HeldForEver(u, Start(u), steps, m, i);
      }
    } else {
      CountBelowBounds(leavers, 0, size);
      var w := StayerWithRank(leavers, size, 0);
      forall steps | IsRun(u, Start(u), steps) ensures !Finished(After(u, Start(u), steps)) {
        NobodyEverStops(u, Start(u), steps);
        assert !u.isReader[w];
      }
    }
  }

  /** Only leaving processes are marked -1. */
  lemma MarkedAreReaders(size: nat, leavers: seq<int>, used: nat, sends: seq<seq<Send>>)
    requires DistinctRanks(leavers, size) && used <= ExpandedPlacement.MAX_RECONSTRUCTIONS && |sends| == size
    ensures var u := ShrinkSetup(size, leavers, used, sends);
      forall i :: 0 <= i < size && u.trans[i] == -1 ==> u.isReader[i]
  {
    var done := leavers[..Removals(used, |leavers|)];
    StayersRenumbered(done, size);
    assert forall i :: i in done ==> i in leavers;
  }
}
