/**
 * worker_pool_destroy (src/base/workers_pool.c) with no other thread enqueueing: when
 * it ends, how soon, and when it can hang. Workers that leave do not signal not-full,
 * so a queue that is nearly full when pool_end is set can block it for ever.
 */
module PoolShutdown {
  import opened Counting
  import opened OperationsRing
  import opened PoolProtocol

  /** The steps left once destroy runs alone: workers and the destroying thread. */
  predicate ShutdownStep(step: Step) {
    !step.ProducerCalls? && !step.ProducerSection? && !step.SpuriousProducer? && !step.DestroyBegins?
  }

  predicate Productive(step: Step) { ShutdownStep(step) && !Spurious(step) }

  predicate IsShutdownRun(s: State, steps: seq<Step>) {
    IsRun(s, steps) && forall i :: 0 <= i < |steps| ==> ShutdownStep(steps[i])
  }

  /** Destroy has not ended, and only a spurious wake-up could change anything. */
  ghost predicate Hung(s: State) {
    !s.destroyer.Done? && forall step :: Productive(step) ==> !Enabled(s, step)
  }

  /** pool_end has just been set and nobody else enqueues. */
  ghost predicate ShutdownStarts(s: State) {
    && Inv(s) && s.destroyer == Queueing(0)
    && forall p :: 0 <= p < |s.producers| ==> s.producers[p].Idle?
  }

  /** Room in the ring for every sentinel still to come. */
  ghost predicate RoomForSentinels(s: State) {
    && Inv(s) && s.poolEnd && !s.destroyer.Blocked?
    && (forall p :: 0 <= p < |s.producers| ==> s.producers[p].Idle?)
    && s.ring.nOperation + SentinelsLeft(s) <= MAX_OPERATIONS
  }

  lemma RoomKept(s: State, step: Step)
    requires RoomForSentinels(s) && ShutdownStep(step) && Enabled(s, step)
    ensures RoomForSentinels(Next(s, step))
  {
    StepInv(s, step);
  }

  /** With room for the sentinels destroy never hangs. */
  lemma RoomMeansProgress(s: State)
    requires RoomForSentinels(s)
    ensures !Hung(s)
  {
    if !s.destroyer.Done? {
      var step := ProductiveStep(s);
      assert Productive(step) && Enabled(s, step);
    }
  }

  lemma ProductiveStep(s: State) returns (step: Step)
    requires RoomForSentinels(s) && !s.destroyer.Done?
    ensures Productive(step) && Enabled(s, step)
  {
    match s.destroyer
    case Queueing(_) =>
      if w :| 0 <= w < |s.workers| && s.workers[w].Asleep? {
        step := DestroySection(w);
      } else {
        step := DestroySection(-1);
      }
    case Broadcasting => step := DestroyBroadcast;
    case Joining(j) =>
      SentinelsWakeEveryone(s);
      match s.workers[j] {
        case Left => step := DestroyJoin;
        case Running(_, _) => step := WorkerReturns(j);
        case Ready => step := WorkerSection(j, Nobody);
        case Asleep => assert false;
      }
  }

  // ----- how soon it ends

  function Weight(w: Worker): nat {
    match w case Left => 0 case Asleep => 1 case Ready => 2 case Running(_, _) => 3
  }

  function DestroyerWeight(s: State): int {
    var n := |s.workers|;
    match s.destroyer
    case Queueing(sent) => 2 * (n - sent) + n + 1
    case Broadcasting => n + 1
    case Joining(joined) => n - joined
    case _ => 0
  }

  /** Steps still to be made, counting two for a sentinel that may wake a worker. */
  function Measure(s: State): int {
    Sum(s.workers, Weight) + DestroyerWeight(s)
  }

  lemma MeasureStep(s: State, step: Step)
    requires RoomForSentinels(s) && ShutdownStep(step) && Enabled(s, step)
    ensures 0 <= Measure(s)
    ensures Measure(Next(s, step)) <= Measure(s) + if Spurious(step) then 1 else -1
  {
    match step
    case WorkerSection(w, wake) => SectionMeasure(s, w, wake);
    case DestroySection(release) => SentinelMeasure(s, release);
    case DestroyBroadcast => BroadcastMeasure(s);
    case WorkerReturns(w) => SumUpdate(s.workers, w, Ready, Weight);
    case SpuriousWorker(w) => SumUpdate(s.workers, w, Ready, Weight);
    case _ =>
  }

  lemma SentinelMeasure(s: State, release: int)
    requires RoomForSentinels(s) && Enabled(s, DestroySection(release))
    ensures Measure(Next(s, DestroySection(release))) <= Measure(s) - 1
  {
    if release != -1 { SumUpdate(s.workers, release, Ready, Weight); }
  }

  lemma BroadcastMeasure(s: State)
    requires Inv(s) && Enabled(s, DestroyBroadcast)
    ensures Measure(Next(s, DestroyBroadcast)) <= Measure(s) - 1
  {
    SentinelsWakeEveryone(s);
    assert WakeAll(s.workers) == s.workers;
  }

  lemma SectionMeasure(s: State, w: nat, wake: Sleeper)
    requires s.poolEnd && Enabled(s, WorkerSection(w, wake))
    ensures Measure(Next(s, WorkerSection(w, wake))) <= Measure(s) - 1
  {
    SumUpdate(s.workers, w, Left, Weight);
    SumUpdate(s.workers, w, Asleep, Weight);
  }

  function ProductiveCount(steps: seq<Step>): nat {
    if steps == [] then 0 else (if Spurious(steps[0]) then 0 else 1) + ProductiveCount(steps[1..])
  }

  lemma {:induction false} RoomInRun(s: State, steps: seq<Step>)
    requires RoomForSentinels(s) && IsShutdownRun(s, steps)
    ensures RoomForSentinels(After(s, steps))
    ensures 2 * ProductiveCount(steps) <= Measure(s) + |steps|
    decreases |steps|
  {
    if steps == [] {
      assert 0 <= Sum(s.workers, Weight);
    } else {
      assert ShutdownStep(steps[0]);
      RoomKept(s, steps[0]);
      MeasureStep(s, steps[0]);
      RoomInRun(Next(s, steps[0]), steps[1..]);
    }
  }

  lemma MeasureAtStart(s: State)
    requires ShutdownStarts(s)
    ensures Measure(s) <= 6 * |s.workers| + 1
  {
    SumBound(s.workers, Weight, 3);
  }

  /**
   * If the operations queued when pool_end is set leave room for one sentinel a worker,
   * every run of the shutdown is short: apart from spurious wake-ups and as many
   * answers to them it has at most 6 steps a worker and one more. It cannot stop
   * before destroy has joined every worker.
   */
  lemma ShutdownCompletes(s: State, steps: seq<Step>)
    requires ShutdownStarts(s) && IsShutdownRun(s, steps)
    requires s.ring.nOperation + |s.workers| <= MAX_OPERATIONS
    ensures !Hung(After(s, steps))
    ensures ProductiveCount(steps) <= 6 * |s.workers| + 1 + (|steps| - ProductiveCount(steps))
    ensures After(s, steps).destroyer.Done? ==>
      forall w :: 0 <= w < |After(s, steps).workers| ==> After(s, steps).workers[w].Left?
  {
    RoomInRun(s, steps);
    RoomMeansProgress(After(s, steps));
    MeasureAtStart(s);
  }

  // ----- what is queued and who is left

  /** Workers that have not left. */
  function Live(s: State): int { |s.workers| - LeftCount(s) }

  lemma AccountsStep(s: State, step: Step)
    requires s.poolEnd && (s.destroyer.Queueing? ==> s.destroyer.sent < |s.workers|) && ShutdownStep(step) && Enabled(s, step)
    ensures var n := Next(s, step);
      && n.poolEnd && |n.workers| == |s.workers|
      && n.ring.nOperation + SentinelsLeft(n) - Live(n) == s.ring.nOperation + SentinelsLeft(s) - Live(s)
  {
    if step.WorkerSection? { SectionCounts(s, step.w, step.wake); } else { OtherCounts(s, step); }
  }

  lemma {:induction false} AccountsInRun(s: State, steps: seq<Step>)
    requires Inv(s) && s.poolEnd && IsShutdownRun(s, steps)
    ensures var e := After(s, steps);
      && |e.workers| == |s.workers|
      && e.ring.nOperation + SentinelsLeft(e) - Live(e) == s.ring.nOperation + SentinelsLeft(s) - Live(s)
    decreases |steps|
  {
    if steps != [] {
      assert ShutdownStep(steps[0]);
      AccountsStep(s, steps[0]);
      StepInv(s, steps[0]);
      AccountsInRun(Next(s, steps[0]), steps[1..]);
    }
  }

  /**
   * In every run of the shutdown, however full the queue: what is queued and the sentinels
   * still to come are the operations queued when pool_end was set, plus one for every
   * worker still there (and for every worker that had left before). So once destroy is
   * done, as many operations as were queued at first remain unexecuted.
   */
  lemma ShutdownAccounts(s: State, steps: seq<Step>)
    requires ShutdownStarts(s) && IsShutdownRun(s, steps)
    ensures var e := After(s, steps);
      && e.ring.nOperation + SentinelsLeft(e) == s.ring.nOperation + LeftCount(s) + Live(e)
      && (e.destroyer.Done? ==> e.ring.nOperation == s.ring.nOperation + LeftCount(s))
  {
    AccountsInRun(s, steps);
    var e := After(s, steps);
    RunInv(s, steps);
    if e.destroyer.Done? { AllLeft(e.workers); }
  }

  lemma {:induction false} AllLeft(ws: seq<Worker>)
    requires forall w :: 0 <= w < |ws| ==> ws[w].Left?
    ensures Sum(ws, LeftOne) == |ws|
  {
    if ws != [] { AllLeft(ws[..|ws| - 1]); }
  }

  // ----- when it can hang

  lemma OneStep(s: State, step: Step)
    requires Enabled(s, step) && ShutdownStep(step)
    ensures IsShutdownRun(s, [step]) && After(s, [step]) == Next(s, step)
  {
    assert [step][1..] == [];
  }

  /** Destroy alone queues sentinels until the ring is full, and goes to sleep. */
  lemma {:induction false} FillUntilBlocked(s: State) returns (steps: seq<Step>)
    requires Inv(s) && s.destroyer.Queueing? && s.poolEnd
    requires s.ring.nOperation + SentinelsLeft(s) > MAX_OPERATIONS
    ensures IsShutdownRun(s, steps)
    ensures Inv(After(s, steps)) && After(s, steps).poolEnd && After(s, steps).destroyer.Blocked?
    decreases MAX_OPERATIONS - s.ring.nOperation
  {
    var step := DestroySection(-1);
    if w :| 0 <= w < |s.workers| && s.workers[w].Asleep? { step := DestroySection(w); }
    OneStep(s, step);
    StepInv(s, step);
    steps := [step];
    if s.ring.nOperation < MAX_OPERATIONS {
      var rest := FillUntilBlocked(Next(s, step));
      RunAppend(s, steps, rest);
      steps := steps + rest;
    }
  }

  /** A worker ends its call, or takes an operation and is gone, or falls asleep. */
  function ParkStep(s: State, w: nat): Step
    requires w < |s.workers|
  {
    if s.workers[w].Running? then WorkerReturns(w) else WorkerSection(w, Nobody)
  }

  lemma ParkStepParks(s: State, w: nat)
    requires Inv(s) && s.poolEnd && s.destroyer.Blocked?
    requires w < |s.workers| && !s.workers[w].Left? && !s.workers[w].Asleep?
    ensures Enabled(s, ParkStep(s, w)) && ShutdownStep(ParkStep(s, w))
    ensures var n := Next(s, ParkStep(s, w));
      && Inv(n) && n.poolEnd && n.destroyer == s.destroyer
      && n.workers == s.workers[w := n.workers[w]] && Weight(n.workers[w]) < Weight(s.workers[w])
  {
    StepInv(s, ParkStep(s, w));
  }

  /** Meanwhile every worker in turn ends its call, takes an operation if there is one, and is gone or asleep. */
  lemma {:induction false} ParkWorkers(s: State, w: nat) returns (steps: seq<Step>)
    requires Inv(s) && s.poolEnd && s.destroyer.Blocked? && w <= |s.workers|
    requires forall v :: 0 <= v < w ==> s.workers[v].Left? || s.workers[v].Asleep?
    ensures IsShutdownRun(s, steps) && After(s, steps).destroyer == s.destroyer
    ensures forall v :: 0 <= v < |After(s, steps).workers| ==>
      After(s, steps).workers[v].Left? || After(s, steps).workers[v].Asleep?
    decreases |s.workers| - w, if w < |s.workers| then Weight(s.workers[w]) else 0
  {
    if w == |s.workers| {
      steps := [];
    } else if s.workers[w].Left? || s.workers[w].Asleep? {
      steps := ParkWorkers(s, w + 1);
    } else {
      ParkStepParks(s, w);
      var rest := ParkWorkers(Next(s, ParkStep(s, w)), w);
      OneStep(s, ParkStep(s, w));
      RunAppend(s, [ParkStep(s, w)], rest);
      steps := [ParkStep(s, w)] + rest;
    }
  }

  lemma ParkedMeansHung(s: State)
    requires s.destroyer.Blocked?
    requires forall v :: 0 <= v < |s.workers| ==> s.workers[v].Left? || s.workers[v].Asleep?
    ensures Hung(s)
  {
  }

  lemma HangingRun(s: State) returns (steps: seq<Step>)
    requires ShutdownStarts(s) && s.ring.nOperation + |s.workers| > MAX_OPERATIONS
    ensures IsShutdownRun(s, steps) && Hung(After(s, steps))
  {
    var fill := FillUntilBlocked(s);
    var park := ParkWorkers(After(s, fill), 0);
    RunAppend(s, fill, park);
    ParkedMeansHung(After(s, fill + park));
    steps := fill + park;
  }

  /**
   * The shutdown of a pool can hang exactly when the operations queued at the moment
   * pool_end is set leave no room for one sentinel a worker.
   */
  lemma HangsExactlyWhenNearlyFull(s: State)
    requires ShutdownStarts(s)
    ensures (exists steps :: IsShutdownRun(s, steps) && Hung(After(s, steps)))
        <==> s.ring.nOperation + |s.workers| > MAX_OPERATIONS
  {
    if s.ring.nOperation + |s.workers| > MAX_OPERATIONS {
      var steps := HangingRun(s);
    } else {
      forall steps | IsShutdownRun(s, steps) ensures !Hung(After(s, steps)) {
        ShutdownCompletes(s, steps);
      }
    }
  }

  /** A state in which a thread can enqueue without anybody else moving. */
  ghost predicate Quiet(s: State) {
    && Inv(s) && s.destroyer.NotCalled? && !SomeoneOnNotEmpty(s)
    && |s.producers| > 0 && forall p :: 0 <= p < |s.producers| ==> s.producers[p].Idle?
  }

  lemma EnqueueOne(s: State, op: Op)
    requires Quiet(s) && s.ring.nOperation < MAX_OPERATIONS
    ensures Enabled(s, ProducerCalls(0, op))
    ensures Enabled(Next(s, ProducerCalls(0, op)), ProducerSection(0, -1))
    ensures var n := Next(Next(s, ProducerCalls(0, op)), ProducerSection(0, -1));
      && Quiet(n) && n.ring.nOperation == s.ring.nOperation + 1
      && n.producers == s.producers && n.workers == s.workers
  {
    var called := Next(s, ProducerCalls(0, op));
    StepInv(s, ProducerCalls(0, op));
    StepInv(called, ProducerSection(0, -1));
    assert Next(called, ProducerSection(0, -1)).producers == s.producers;
  }

  /** One thread may queue operations up before any worker gets the mutex. */
  lemma {:induction false} QueueUp(s: State, count: nat) returns (steps: seq<Step>)
    requires Quiet(s) && s.ring.nOperation + count <= MAX_OPERATIONS
    ensures IsRun(s, steps)
    ensures var e := After(s, steps);
      && Quiet(e) && e.ring.nOperation == s.ring.nOperation + count
      && e.producers == s.producers && e.workers == s.workers
    decreases count
  {
    if count == 0 {
      steps := [];
    } else {
      var op := Op(0, count);
      EnqueueOne(s, op);
      var rest := QueueUp(Next(Next(s, ProducerCalls(0, op)), ProducerSection(0, -1)), count - 1);
      steps := [ProducerCalls(0, op), ProducerSection(0, -1)] + rest;
      assert steps[1..] == [ProducerSection(0, -1)] + rest && steps[1..][1..] == rest;
    }
  }

  /** A pool with any number of workers can hang in destroy: fill the ring first. */
  lemma HangIsReachable(threads: nat, empty: Op) returns (steps: seq<Step>)
    requires 0 < threads
    ensures IsRun(Init(threads, 1, empty), steps) && Hung(After(Init(threads, 1, empty), steps))
  {
    var init := Init(threads, 1, empty);
    InitInv(threads, 1, empty);
    steps := QueueUp(init, MAX_OPERATIONS);
    var full := After(init, steps);
    var begins := Next(full, DestroyBegins);
    StepInv(full, DestroyBegins);
    assert [DestroyBegins][1..] == [];
    RunAppend(init, steps, [DestroyBegins]);
    var hang := HangingRun(begins);
    RunAppend(init, steps + [DestroyBegins], hang);
    steps := steps + [DestroyBegins] + hang;
  }
}
