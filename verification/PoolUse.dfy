/**
 * The pool of src/base/workers_pool.c in use, before it is ended: whatever was handed to it
 * is called and comes to an end.
 */
module PoolUse {
  import opened Counting
  import opened OperationsRing
  import opened PoolHandover
  import opened PoolProtocol

  predicate NoSentinel(op: Op) { op.typeOp != TH_FINALIZE }

  predicate BringsNoSentinel(p: Producer) { p.Idle? || NoSentinel(p.op) }

  /** The pool is not being ended, and no thread enqueues or has enqueued a sentinel. */
  predicate InUse(s: State) {
    && !s.poolEnd && s.destroyer.NotCalled?
    && (forall k :: 0 <= k < |s.accepted| ==> NoSentinel(s.accepted[k]))
    && (forall p :: 0 <= p < |s.producers| ==> BringsNoSentinel(s.producers[p]))
  }

  /** Nothing is queued, nothing runs, and no thread waits to enqueue. */
  predicate AtRest(s: State) {
    s.ring.nOperation == 0 && RunningCount(s) == 0 && forall p :: 0 <= p < |s.producers| ==> s.producers[p].Idle?
  }

  /** A step that only goes on with what is under way: no new call, no spurious wake-up. */
  predicate GoesOn(step: Step) {
    !Spurious(step) && !step.ProducerCalls? && !step.DestroyBegins?
  }

  /** The calls started cover what was dequeued, so there are as many, one behind the other. */
  lemma {:induction false} AllCalled(started: seq<nat>, dequeued: nat)
    requires forall i, j :: 0 <= i < j < |started| ==> started[i] < started[j]
    requires forall i :: 0 <= i < |started| ==> started[i] < dequeued
    requires forall k: nat :: k < dequeued ==> k in started
    ensures |started| == dequeued && forall i :: 0 <= i < |started| ==> started[i] == i
  {
    assert started != [] ==> started[0] < dequeued;
    if dequeued > 0 {
      assert dequeued - 1 in started;
      var n := |started| - 1;
      assert started[n] == dequeued - 1;
      forall k: nat | k < dequeued - 1 ensures k in started[..n] {
        assert k in started;
        var i :| 0 <= i < |started| && started[i] == k;
        assert started[..n][i] == k;
      }
      AllCalled(started[..n], dequeued - 1);
      assert forall i :: 0 <= i < n ==> started[i] == started[..n][i];
    }
  }

  /** While only operations are enqueued and the pool is not ended, no worker leaves. */
  lemma NobodyLeft(s: State)
    requires Inv(s) && InUse(s)
    ensures LeftCount(s) == 0 && |s.started| == s.dequeued
    ensures forall i :: 0 <= i < |s.started| ==> s.started[i] == i
  {
    forall k: nat | k < s.dequeued ensures k in s.started {
      assert ToBeCalled(s, k);
    }
    AllCalled(s.started, s.dequeued);
  }

  lemma {:induction false} NotLeft(ws: seq<Worker>, w: nat)
    requires Sum(ws, LeftOne) == 0 && w < |ws|
    ensures !ws[w].Left?
  {
    if w < |ws| - 1 { NotLeft(ws[..|ws| - 1], w); }
  }

  lemma {:induction false} SomeoneEntering(ps: seq<Producer>)
    requires Sum(ps, EnteringOne) > 0
    ensures exists p :: 0 <= p < |ps| && ps[p].Entering?
  {
    var n := |ps| - 1;
    if !ps[n].Entering? {
      SomeoneEntering(ps[..n]);
      var p :| 0 <= p < |ps[..n]| && ps[..n][p].Entering?;
      assert ps[p].Entering?;
    }
  }

  lemma WorkerGoesOn(s: State, w: nat) returns (step: Step)
    requires Inv(s) && w < |s.workers| && (s.workers[w].Ready? || s.workers[w].Running?)
    ensures GoesOn(step) && Enabled(s, step)
    ensures if s.workers[w].Running? then step == WorkerReturns(w) else step.WorkerSection? && step.w == w
  {
    if s.workers[w].Running? {
      step := WorkerReturns(w);
    } else if p :| 0 <= p < |s.producers| && s.producers[p].Sleeping? {
      step := WorkerSection(w, AProducer(p));
    } else if s.destroyer.Blocked? {
      step := WorkerSection(w, TheDestroyer);
    } else {
      step := WorkerSection(w, Nobody);
    }
  }

  lemma ProducerGoesOn(s: State, p: nat) returns (step: Step)
    requires Inv(s) && p < |s.producers| && s.producers[p].Entering?
    ensures GoesOn(step) && Enabled(s, step) && step.ProducerSection? && step.p == p
  {
    if w :| 0 <= w < |s.workers| && s.workers[w].Asleep? {
      step := ProducerSection(p, w);
    } else {
      step := ProducerSection(p, -1);
    }
  }

  lemma NeverStuckInUse(s: State) returns (step: Step)
    requires InUse(s) && Inv(s) && s.workers != [] && !AtRest(s)
    ensures GoesOn(step) && Enabled(s, step)
  {
    NobodyLeft(s);
    if p :| 0 <= p < |s.producers| && s.producers[p].Entering? {
      step := ProducerGoesOn(s, p);
    } else if w :| 0 <= w < |s.workers| && (s.workers[w].Ready? || s.workers[w].Running?) {
      step := WorkerGoesOn(s, w);
    } else {
      EverybodySleeps(s);
      assert false;
    }
  }

  lemma {:induction false} RunKeepsThreads(s: State, steps: seq<Step>)
    requires IsRun(s, steps)
    ensures |After(s, steps).workers| == |s.workers|
    decreases |steps|
  {
    if steps != [] { RunKeepsThreads(Next(s, steps[0]), steps[1..]); }
  }

  /** If all threads sleep, nothing is queued and no thread waits to enqueue. */
  lemma EverybodySleeps(s: State)
    requires Inv(s) && !s.poolEnd && LeftCount(s) == 0 && s.workers != []
    requires forall p :: 0 <= p < |s.producers| ==> !s.producers[p].Entering?
    requires forall w :: 0 <= w < |s.workers| ==> !s.workers[w].Ready? && !s.workers[w].Running?
    ensures s.ring.nOperation == 0 && RunningCount(s) == 0
    ensures forall p :: 0 <= p < |s.producers| ==> s.producers[p].Idle?
  {
    NotLeft(s.workers, 0);
    assert s.workers[0].Asleep?;
    if ReadyCount(s) > 0 { SomeoneCounted(s.workers); }
    if Sum(s.producers, EnteringOne) > 0 { SomeoneEntering(s.producers); }
    NoneRunning(s.workers);
  }

  lemma {:induction false} NoneRunning(ws: seq<Worker>)
    requires forall w :: 0 <= w < |ws| ==> !ws[w].Running?
    ensures Sum(ws, RunningOne) == 0
  {
    if ws != [] { NoneRunning(ws[..|ws| - 1]); }
  }

  // ----- a bound

  function WorkerWeight(w: Worker): nat {
    match w case Left => 0 case Asleep => 0 case Ready => 1 case Running(_, _) => 2
  }

  function ProducerWeight(p: Producer): nat {
    match p case Idle => 0 case Sleeping(_) => 4 case Entering(_) => 5
  }

  /** Steps still to be made: each operation queued can cost three, each one to be queued five. */
  function Effort(s: State): int {
    Sum(s.workers, WorkerWeight) + 3 * s.ring.nOperation + Sum(s.producers, ProducerWeight)
  }

  lemma SectionEffort(s: State, w: nat, wake: Sleeper)
    requires Enabled(s, WorkerSection(w, wake))
    ensures Effort(Next(s, WorkerSection(w, wake))) < Effort(s)
  {
    var n := Next(s, WorkerSection(w, wake));
    SumUpdate(s.workers, w, n.workers[w], WorkerWeight);
    assert n.workers == s.workers[w := n.workers[w]];
    if DequeueOutcome(s.ring, s.poolEnd).Execute? && wake.AProducer? {
      SumUpdate(s.producers, wake.p, Entering(s.producers[wake.p].op), ProducerWeight);
    }
  }

  lemma ProducerEffort(s: State, p: nat, release: int)
    requires Enabled(s, ProducerSection(p, release))
    ensures Effort(Next(s, ProducerSection(p, release))) < Effort(s)
  {
    SumUpdate(s.producers, p, Next(s, ProducerSection(p, release)).producers[p], ProducerWeight);
    if s.ring.nOperation < MAX_OPERATIONS && release != -1 { SumUpdate(s.workers, release, Ready, WorkerWeight); }
  }

  /** Every step that goes on with what is under way lowers the effort. */
  lemma EffortStep(s: State, step: Step)
    requires InUse(s) && GoesOn(step) && Enabled(s, step)
    ensures Effort(Next(s, step)) < Effort(s)
  {
    match step
    case WorkerSection(w, wake) => SectionEffort(s, w, wake);
    case ProducerSection(p, release) => ProducerEffort(s, p, release);
    case WorkerReturns(w) => SumUpdate(s.workers, w, Ready, WorkerWeight);
    case _ =>
  }

  /** And leaves the pool in use. */
  lemma InUseKept(s: State, step: Step)
    requires InUse(s) && GoesOn(step) && Enabled(s, step)
    ensures InUse(Next(s, step))
  {
  }

  lemma {:induction false} RunInUse(s: State, steps: seq<Step>)
    requires InUse(s) && IsRun(s, steps) && forall i :: 0 <= i < |steps| ==> GoesOn(steps[i])
    ensures |steps| <= Effort(s) && InUse(After(s, steps)) && |After(s, steps).workers| == |s.workers|
    decreases |steps|
  {
    if steps == [] {
      assert 0 <= Sum(s.workers, WorkerWeight) && 0 <= Sum(s.producers, ProducerWeight);
    } else {
      EffortStep(s, steps[0]);
      InUseKept(s, steps[0]);
      RunInUse(Next(s, steps[0]), steps[1..]);
    }
  }

  lemma EffortBound(s: State)
    ensures Effort(s) <= 2 * |s.workers| + 3 * s.ring.nOperation + 5 * |s.producers|
  {
    SumBound(s.workers, WorkerWeight, 2);
    SumBound(s.producers, ProducerWeight, 5);
  }

  lemma {:induction false} HandedOverInParts(a: seq<Step>, b: seq<Step>, op: Op)
    ensures HandedOver(a + b, op) == HandedOver(a, op) + HandedOver(b, op)
  {
    if a == [] {
      assert a + b == b;
    } else {
      assert (a + b)[1..] == a[1..] + b;
      HandedOverInParts(a[1..], b, op);
    }
  }

  lemma {:induction false} NothingHandedOver(steps: seq<Step>, op: Op)
    requires forall i :: 0 <= i < |steps| ==> GoesOn(steps[i])
    ensures HandedOver(steps, op) == 0
  {
    if steps != [] { NothingHandedOver(steps[1..], op); }
  }

  /** All operations handed over were accepted, as often, called in that order, and have returned. */
  ghost predicate AllDone(e: State, steps: seq<Step>) {
    && (forall op: Op :: multiset(e.accepted)[op] == HandedOver(steps, op))
    && |e.started| == |e.accepted| == e.returned
    && (forall k :: 0 <= k < |e.started| ==> e.started[k] == k)
  }

  lemma AllAccepted(threads: nat, producers: nat, empty: Op, steps: seq<Step>, more: seq<Step>, op: Op)
    requires IsRun(Init(threads, producers, empty), steps) && IsRun(After(Init(threads, producers, empty), steps), more)
    requires forall i :: 0 <= i < |more| ==> GoesOn(more[i])
    requires var e := After(After(Init(threads, producers, empty), steps), more); InUse(e) && AtRest(e)
    ensures multiset(After(After(Init(threads, producers, empty), steps), more).accepted)[op] == HandedOver(steps, op)
  {
    var init := Init(threads, producers, empty);
    RunAppend(init, steps, more);
    EveryOperationIsKept(threads, producers, empty, steps + more, op);
    HandedOverInParts(steps, more, op);
    NothingHandedOver(more, op);
    NobodyCarries(After(init, steps + more).producers, op);
  }

  lemma RestMeansDone(threads: nat, producers: nat, empty: Op, steps: seq<Step>, more: seq<Step>)
    requires IsRun(Init(threads, producers, empty), steps) && IsRun(After(Init(threads, producers, empty), steps), more)
    requires forall i :: 0 <= i < |more| ==> GoesOn(more[i])
    requires var e := After(After(Init(threads, producers, empty), steps), more); Inv(e) && InUse(e) && AtRest(e)
    ensures AllDone(After(After(Init(threads, producers, empty), steps), more), steps)
  {
    var e := After(After(Init(threads, producers, empty), steps), more);
    NobodyLeft(e);
    forall op: Op ensures multiset(e.accepted)[op] == HandedOver(steps, op) {
      AllAccepted(threads, producers, empty, steps, more, op);
    }
  }

  /**
   * Whatever was handed to the pool is done: from every state of every run in which the
   * pool is in use, steps other than new calls and spurious wake-ups are bounded in number,
   * and they end only with the queue empty and no thread waiting; then every operation
   * handed over, as often as it was, has been called, and every call has returned.
   */
  lemma EverythingIsDone(threads: nat, producers: nat, empty: Op, steps: seq<Step>, more: seq<Step>)
    requires 0 < threads && IsRun(Init(threads, producers, empty), steps)
    requires var s := After(Init(threads, producers, empty), steps);
      InUse(s) && IsRun(s, more) && forall i :: 0 <= i < |more| ==> GoesOn(more[i])
    ensures var s := After(Init(threads, producers, empty), steps);
      && |more| <= 2 * |s.workers| + 3 * s.ring.nOperation + 5 * |s.producers|
      && (AtRest(After(s, more)) || exists step :: GoesOn(step) && Enabled(After(s, more), step))
      && (AtRest(After(s, more)) ==> AllDone(After(s, more), steps))
  {
    var init := Init(threads, producers, empty);
    var s := After(init, steps);
    InitInv(threads, producers, empty);
    RunInv(init, steps);
    RunKeepsThreads(init, steps);
    RunInv(s, more);
    RunInUse(s, more);
    EffortBound(s);
    if AtRest(After(s, more)) {
      RestMeansDone(threads, producers, empty, steps, more);
    } else {
      var step := NeverStuckInUse(After(s, more));
    }
  }
}
