/**
 * The thread pool of src/base/workers_pool.c as a step machine: a step is one critical
 * section, one call or one return of a worker function. Any number of threads enqueue
 * at any time, a signal may release any sleeper, and spurious wake-ups are allowed.
 */
module PoolProtocol {
  import opened Counting
  import opened OperationsRing

  /** A worker: wants the mutex, sleeps on not-empty, runs operation `ticket`, or has left. */
  datatype Worker = Ready | Asleep | Running(ticket: nat, op: Op) | Left

  /** A thread that enqueues: elsewhere, wants the mutex, or sleeps on not-full. */
  datatype Producer = Idle | Entering(op: Op) | Sleeping(op: Op)

  /** The thread in worker_pool_destroy; `sent` sentinels queued, `joined` workers joined. */
  datatype Destroyer = NotCalled | Queueing(sent: nat) | Blocked(sent: nat) | Broadcasting | Joining(joined: nat) | Done

  /**
   * The pool, its threads, and a history: all operations ever accepted, how many were
   * dequeued, the tickets of the calls started, in order, how many calls returned, and
   * how many operations had been dequeued when pool_end was set.
   */
  datatype State = State(
    ring: Ring, poolEnd: bool, workers: seq<Worker>, producers: seq<Producer>, destroyer: Destroyer,
    accepted: seq<Op>, dequeued: nat, started: seq<nat>, returned: nat, endMark: nat)

  /** The sleeper a signal on not-full releases. */
  datatype Sleeper = Nobody | AProducer(p: nat) | TheDestroyer

  datatype Step =
    | WorkerSection(w: nat, wake: Sleeper)
    | WorkerReturns(w: nat)
    | ProducerCalls(p: nat, op: Op)
    | ProducerSection(p: nat, release: int)
    | DestroyBegins
    | DestroySection(release: int)
    | DestroyBroadcast
    | DestroyJoin
    | SpuriousWorker(w: nat)
    | SpuriousProducer(p: nat)
    | SpuriousDestroyer

  predicate Spurious(step: Step) {
    step.SpuriousWorker? || step.SpuriousProducer? || step.SpuriousDestroyer?
  }

  const SENTINEL := Op(TH_FINALIZE, 0)

  function Init(threads: nat, producers: nat, empty: Op): State {
    State(Ring(seq(MAX_OPERATIONS, _ => empty), 0, 0, 0), false, seq(threads, _ => Ready),
          seq(producers, _ => Idle), NotCalled, [], 0, [], 0, 0)
  }

  predicate SomeoneOnNotFull(s: State) {
    s.destroyer.Blocked? || exists p :: 0 <= p < |s.producers| && s.producers[p].Sleeping?
  }

  predicate SomeoneOnNotEmpty(s: State) {
    exists w :: 0 <= w < |s.workers| && s.workers[w].Asleep?
  }

  /** A signal on not-full releases one sleeper if there is any. */
  predicate MayWake(s: State, wake: Sleeper) {
    match wake
    case Nobody => !SomeoneOnNotFull(s)
    case AProducer(p) => p < |s.producers| && s.producers[p].Sleeping?
    case TheDestroyer => s.destroyer.Blocked?
  }

  function Wake(s: State, wake: Sleeper): State
    requires MayWake(s, wake)
  {
    match wake
    case Nobody => s
    case AProducer(p) => s.(producers := s.producers[p := Entering(s.producers[p].op)])
    case TheDestroyer => s.(destroyer := Queueing(s.destroyer.sent))
  }

  /** A signal on not-empty releases one sleeping worker, or none (-1) if there is none. */
  predicate MayRelease(s: State, release: int) {
    if release == -1 then !SomeoneOnNotEmpty(s)
    else 0 <= release < |s.workers| && s.workers[release].Asleep?
  }

  function Release(s: State, release: int): State
    requires MayRelease(s, release)
  {
    if release == -1 then s else s.(workers := s.workers[release := Ready])
  }

  /** An operation goes into the ring, and not-empty is signalled. */
  function Accept(s: State, op: Op, release: int): State
    requires WellFormed(s.ring) && s.ring.nOperation < MAX_OPERATIONS && MayRelease(s, release)
  {
    Release(s.(ring := Put(s.ring, op), accepted := s.accepted + [op]), release)
  }

  function AfterSentinel(sent: nat, threads: nat): Destroyer {
    if sent + 1 < threads then Queueing(sent + 1) else Broadcasting
  }

  predicate Enabled(s: State, step: Step) {
    && WellFormed(s.ring)
    && match step
       case WorkerSection(w, wake) =>
         && w < |s.workers| && s.workers[w].Ready?
         && (DequeueOutcome(s.ring, s.poolEnd).Execute? ==> MayWake(s, wake))
       case WorkerReturns(w) => w < |s.workers| && s.workers[w].Running?
       case ProducerCalls(p, op) => p < |s.producers| && s.producers[p].Idle?
       case ProducerSection(p, release) =>
         && p < |s.producers| && s.producers[p].Entering?
         && (s.ring.nOperation < MAX_OPERATIONS ==> MayRelease(s, release))
       case DestroyBegins => s.destroyer.NotCalled?
       case DestroySection(release) =>
         && s.destroyer.Queueing?
         && (s.ring.nOperation < MAX_OPERATIONS ==> MayRelease(s, release))
       case DestroyBroadcast => s.destroyer.Broadcasting?
       case DestroyJoin =>
         && s.destroyer.Joining? && s.destroyer.joined < |s.workers|
         && s.workers[s.destroyer.joined].Left?
       case SpuriousWorker(w) => w < |s.workers| && s.workers[w].Asleep?
       case SpuriousProducer(p) => p < |s.producers| && s.producers[p].Sleeping?
       case SpuriousDestroyer => s.destroyer.Blocked?
  }

  /** A broadcast on not-empty. */
  function WakeAll(ws: seq<Worker>): (all: seq<Worker>)
    ensures |all| == |ws| && forall w :: 0 <= w < |ws| ==> all[w] == if ws[w].Asleep? then Ready else ws[w]
  {
    seq(|ws|, w requires 0 <= w < |ws| => if ws[w].Asleep? then Ready else ws[w])
  }

  /** A worker in its dequeue critical section. */
  function Dequeue(s: State, w: nat, wake: Sleeper): State
    requires Enabled(s, WorkerSection(w, wake))
  {
    match DequeueOutcome(s.ring, s.poolEnd)
    case MustWait => s.(workers := s.workers[w := Asleep])
    case Exit(_) => s.(ring := Take(s.ring), dequeued := s.dequeued + 1, workers := s.workers[w := Left])
    case Execute(op) =>
      Wake(s.(ring := Take(s.ring), dequeued := s.dequeued + 1,
              workers := s.workers[w := Running(s.dequeued, op)],
              started := s.started + [s.dequeued]), wake)
  }

  function Next(s: State, step: Step): State
    requires Enabled(s, step)
  {
    match step
    case WorkerSection(w, wake) => Dequeue(s, w, wake)
    case WorkerReturns(w) => s.(workers := s.workers[w := Ready], returned := s.returned + 1)
    case ProducerCalls(p, op) => s.(producers := s.producers[p := Entering(op)])
    case ProducerSection(p, release) =>
      if s.ring.nOperation == MAX_OPERATIONS
      then s.(producers := s.producers[p := Sleeping(s.producers[p].op)])
      else Accept(s.(producers := s.producers[p := Idle]), s.producers[p].op, release)
    case DestroyBegins =>
      s.(poolEnd := true, endMark := s.dequeued,
         destroyer := if |s.workers| == 0 then Broadcasting else Queueing(0))
    case DestroySection(release) =>
      if s.ring.nOperation == MAX_OPERATIONS
      then s.(destroyer := Blocked(s.destroyer.sent))
      else Accept(s.(destroyer := AfterSentinel(s.destroyer.sent, |s.workers|)), SENTINEL, release)
    case DestroyBroadcast =>
      s.(workers := WakeAll(s.workers),
         destroyer := if |s.workers| == 0 then Done else Joining(0))
    case DestroyJoin =>
      s.(destroyer := if s.destroyer.joined + 1 < |s.workers| then Joining(s.destroyer.joined + 1) else Done)
    case SpuriousWorker(w) => s.(workers := s.workers[w := Ready])
    case SpuriousProducer(p) => s.(producers := s.producers[p := Entering(s.producers[p].op)])
    case SpuriousDestroyer => s.(destroyer := Queueing(s.destroyer.sent))
  }

  // ----- runs

  predicate IsRun(s: State, steps: seq<Step>)
    decreases |steps|
  {
    steps == [] || (Enabled(s, steps[0]) && IsRun(Next(s, steps[0]), steps[1..]))
  }

  function After(s: State, steps: seq<Step>): State
    requires IsRun(s, steps)
    decreases |steps|
  {
    if steps == [] then s else After(Next(s, steps[0]), steps[1..])
  }

  lemma {:induction false} RunAppend(s: State, a: seq<Step>, b: seq<Step>)
    requires IsRun(s, a) && IsRun(After(s, a), b)
    ensures IsRun(s, a + b) && After(s, a + b) == After(After(s, a), b)
    decreases |a|
  {
    if a == [] {
      assert a + b == b;
    } else {
      assert (a + b)[1..] == a[1..] + b;
      RunAppend(Next(s, a[0]), a[1..], b);
    }
  }

  /**
   * No schedule is ruled out: any thread elsewhere may call enqueue with anything, any call
   * may return, whoever wants the mutex may get it, a signal may release any sleeper on
   * its condition, and any sleeper may wake up by itself.
   */
  lemma AnyScheduleIsARun(s: State)
    requires WellFormed(s.ring)
    ensures forall p, op :: 0 <= p < |s.producers| && s.producers[p].Idle? ==> Enabled(s, ProducerCalls(p, op))
    ensures forall w :: 0 <= w < |s.workers| && s.workers[w].Running? ==> Enabled(s, WorkerReturns(w))
    ensures forall w :: 0 <= w < |s.workers| && s.workers[w].Ready? ==> exists wake :: Enabled(s, WorkerSection(w, wake))
    ensures forall w, p :: 0 <= w < |s.workers| && s.workers[w].Ready? && 0 <= p < |s.producers| && s.producers[p].Sleeping? ==>
      Enabled(s, WorkerSection(w, AProducer(p)))
    ensures forall w :: 0 <= w < |s.workers| && s.workers[w].Ready? && s.destroyer.Blocked? ==>
      Enabled(s, WorkerSection(w, TheDestroyer))
    ensures forall p :: 0 <= p < |s.producers| && s.producers[p].Entering? ==> exists w :: Enabled(s, ProducerSection(p, w))
    ensures forall p, w :: 0 <= p < |s.producers| && s.producers[p].Entering? && 0 <= w < |s.workers| && s.workers[w].Asleep? ==>
      Enabled(s, ProducerSection(p, w))
    ensures forall w :: 0 <= w < |s.workers| && s.workers[w].Asleep? ==> Enabled(s, SpuriousWorker(w))
    ensures forall p :: 0 <= p < |s.producers| && s.producers[p].Sleeping? ==> Enabled(s, SpuriousProducer(p))
    ensures s.destroyer.NotCalled? ==> Enabled(s, DestroyBegins)
    ensures s.destroyer.Queueing? ==> exists w :: Enabled(s, DestroySection(w))
    ensures s.destroyer.Blocked? ==> Enabled(s, SpuriousDestroyer)
  {
    var wake := if s.destroyer.Blocked? then TheDestroyer
                else if p: nat :| p < |s.producers| && s.producers[p].Sleeping? then AProducer(p) else Nobody;
    var release := if w :| 0 <= w < |s.workers| && s.workers[w].Asleep? then w else -1;
    assert MayWake(s, wake) && MayRelease(s, release);
    assert forall w: nat :: w < |s.workers| && s.workers[w].Ready? ==> Enabled(s, WorkerSection(w, wake));
    assert forall p: nat :: p < |s.producers| && s.producers[p].Entering? ==> Enabled(s, ProducerSection(p, release));
    assert s.destroyer.Queueing? ==> Enabled(s, DestroySection(release));
  }

  // ----- counts

  function ReadyOne(w: Worker): nat { if w.Ready? then 1 else 0 }
  function RunningOne(w: Worker): nat { if w.Running? then 1 else 0 }
  function LeftOne(w: Worker): nat { if w.Left? then 1 else 0 }
  function EnteringOne(p: Producer): nat { if p.Entering? then 1 else 0 }

  function ReadyCount(s: State): nat { Sum(s.workers, ReadyOne) }
  function RunningCount(s: State): nat { Sum(s.workers, RunningOne) }
  function LeftCount(s: State): nat { Sum(s.workers, LeftOne) }

  /** Threads that want the mutex to enqueue. */
  function EnteringCount(s: State): nat {
    Sum(s.producers, EnteringOne) + if s.destroyer.Queueing? then 1 else 0
  }

  lemma WorkerUpdate(ws: seq<Worker>, w: nat, x: Worker)
    requires w < |ws|
    ensures Sum(ws[w := x], ReadyOne) + ReadyOne(ws[w]) == Sum(ws, ReadyOne) + ReadyOne(x)
    ensures Sum(ws[w := x], RunningOne) + RunningOne(ws[w]) == Sum(ws, RunningOne) + RunningOne(x)
    ensures Sum(ws[w := x], LeftOne) + LeftOne(ws[w]) == Sum(ws, LeftOne) + LeftOne(x)
  {
    SumUpdate(ws, w, x, ReadyOne);
    SumUpdate(ws, w, x, RunningOne);
    SumUpdate(ws, w, x, LeftOne);
  }

  // ----- the invariant

  /** Queued operations never outnumber the workers about to look, while any worker sleeps. */
  ghost predicate NoLostNotEmpty(s: State) {
    SomeoneOnNotEmpty(s) ==> s.ring.nOperation <= ReadyCount(s)
  }

  /**
   * Free slots never outnumber the threads about to enqueue, while any thread sleeps on
   * not-full, except for the slots freed by workers that left: those do not signal.
   */
  ghost predicate NoLostNotFull(s: State) {
    SomeoneOnNotFull(s) ==> MAX_OPERATIONS - s.ring.nOperation <= EnteringCount(s) + LeftCount(s)
  }

  /** Whether operation k, once dequeued, is to be called. */
  predicate ToBeCalled(s: State, k: nat)
    requires k < |s.accepted|
  {
    s.accepted[k].typeOp != TH_FINALIZE && (s.poolEnd ==> k < s.endMark)
  }

  /** The calls started are exactly the operations dequeued to be called, once each, in order. */
  ghost predicate CallsMatchQueue(s: State) {
    && Holds(s.ring, s.accepted, s.dequeued)
    && s.endMark <= s.dequeued
    && (forall i, j :: 0 <= i < j < |s.started| ==> s.started[i] < s.started[j])
    && (forall i :: 0 <= i < |s.started| ==> s.started[i] < s.dequeued)
    && (forall k :: 0 <= k < s.dequeued ==> (k in s.started <==> ToBeCalled(s, k)))
    && |s.started| == s.returned + RunningCount(s)
    && s.dequeued == |s.started| + LeftCount(s)
  }

  /** A running worker runs its own ticket, and no two run the same. */
  ghost predicate RunnersDistinct(s: State) {
    && (forall w :: 0 <= w < |s.workers| && s.workers[w].Running? ==>
         && s.workers[w].ticket in s.started
         && s.workers[w].ticket < |s.accepted|
         && s.workers[w].op == s.accepted[s.workers[w].ticket])
    && (forall v, w :: 0 <= v < w < |s.workers| && s.workers[v].Running? && s.workers[w].Running? ==>
         s.workers[v].ticket != s.workers[w].ticket)
  }

  /** Sentinels still to be queued, once pool_end is set. */
  function SentinelsLeft(s: State): int {
    match s.destroyer
    case Queueing(sent) => |s.workers| - sent
    case Blocked(sent) => |s.workers| - sent
    case _ => 0
  }

  /** Queued operations and sentinels to come suffice for every worker still there. */
  ghost predicate EnoughToLeave(s: State) {
    && (s.destroyer.NotCalled? <==> !s.poolEnd)
    && (s.destroyer.Queueing? || s.destroyer.Blocked? ==> s.destroyer.sent < |s.workers|)
    && (s.poolEnd ==> s.ring.nOperation + SentinelsLeft(s) + LeftCount(s) >= |s.workers|)
    && (s.destroyer.Joining? ==> s.destroyer.joined < |s.workers|)
    && (s.destroyer.Joining? ==> forall w :: 0 <= w < s.destroyer.joined && w < |s.workers| ==> s.workers[w].Left?)
    && (s.destroyer.Done? ==> forall w :: 0 <= w < |s.workers| ==> s.workers[w].Left?)
  }

  ghost predicate Inv(s: State) {
    && CallsMatchQueue(s)
    && RunnersDistinct(s)
    && NoLostNotEmpty(s)
    && NoLostNotFull(s)
    && EnoughToLeave(s)
  }

  // ----- every step keeps the invariant

  lemma InitInv(threads: nat, producers: nat, empty: Op)
    ensures Inv(Init(threads, producers, empty))
    ensures |Init(threads, producers, empty).workers| == threads && |Init(threads, producers, empty).producers| == producers
  {
    var s := Init(threads, producers, empty);
    NoneCounted(s.workers);
  }

  lemma {:induction false} NoneCounted(ws: seq<Worker>)
    requires forall w :: 0 <= w < |ws| ==> ws[w].Ready?
    ensures Sum(ws, RunningOne) == 0 && Sum(ws, LeftOne) == 0
  {
    if ws != [] { NoneCounted(ws[..|ws| - 1]); }
  }

  lemma {:induction false} BroadcastCounts(ws: seq<Worker>)
    ensures Sum(WakeAll(ws), RunningOne) == Sum(ws, RunningOne)
    ensures Sum(WakeAll(ws), LeftOne) == Sum(ws, LeftOne)
  {
    if ws != [] {
      var n := |ws| - 1;
      assert WakeAll(ws)[..n] == WakeAll(ws[..n]);
      BroadcastCounts(ws[..n]);
    }
  }

  // The invariant is kept conjunct by conjunct.

  /** Counts after a worker in its critical section has changed, whatever sleeper it released. */
  lemma SectionCounts(s: State, w: nat, wake: Sleeper)
    requires Enabled(s, WorkerSection(w, wake))
    ensures var n := Next(s, WorkerSection(w, wake));
      && |n.workers| == |s.workers|
      && ReadyCount(n) == ReadyCount(s) - 1
      && RunningCount(n) == RunningCount(s) + RunningOne(n.workers[w])
      && LeftCount(n) == LeftCount(s) + LeftOne(n.workers[w])
  {
    var n := Next(s, WorkerSection(w, wake));
    WorkerUpdate(s.workers, w, n.workers[w]);
    assert n.workers == s.workers[w := n.workers[w]];
  }

  /** Counts after any other step that changes one worker, or none. */
  lemma OtherCounts(s: State, step: Step)
    requires Enabled(s, step) && !step.WorkerSection?
    ensures var n := Next(s, step);
      && |n.workers| == |s.workers|
      && RunningCount(n) == RunningCount(s) - (if step.WorkerReturns? then 1 else 0)
      && LeftCount(n) == LeftCount(s)
  {
    match step
    case WorkerReturns(w) => WorkerUpdate(s.workers, w, Ready);
    case SpuriousWorker(w) => WorkerUpdate(s.workers, w, Ready);
    case ProducerSection(_, release) => if s.ring.nOperation < MAX_OPERATIONS { ReleaseCounts(s, release); }
    case DestroySection(release) => if s.ring.nOperation < MAX_OPERATIONS { ReleaseCounts(s, release); }
    case DestroyBroadcast => BroadcastCounts(s.workers);
    case _ =>
  }

  lemma ReleaseCounts(s: State, release: int)
    requires MayRelease(s, release)
    ensures var r := Release(s, release);
      && |r.workers| == |s.workers|
      && Sum(r.workers, RunningOne) == Sum(s.workers, RunningOne)
      && Sum(r.workers, LeftOne) == Sum(s.workers, LeftOne)
      && Sum(r.workers, ReadyOne) == Sum(s.workers, ReadyOne) + (if release == -1 then 0 else 1)
      && (SomeoneOnNotEmpty(r) ==> release != -1 && SomeoneOnNotEmpty(s))
  {
    if release != -1 { WorkerUpdate(s.workers, release, Ready); }
  }

  // ----- the history

  lemma ExitKeepsHistory(s: State, w: nat, wake: Sleeper)
    requires CallsMatchQueue(s) && Enabled(s, WorkerSection(w, wake)) && DequeueOutcome(s.ring, s.poolEnd).Exit?
    ensures CallsMatchQueue(Next(s, WorkerSection(w, wake)))
  {
    TakeRemovesOldest(s.ring, s.accepted, s.dequeued);
    SectionCounts(s, w, wake);
  }

  lemma ExecuteKeepsHistory(s: State, w: nat, wake: Sleeper)
    requires CallsMatchQueue(s) && Enabled(s, WorkerSection(w, wake)) && DequeueOutcome(s.ring, s.poolEnd).Execute?
    ensures CallsMatchQueue(Next(s, WorkerSection(w, wake)))
  {
    TakeRemovesOldest(s.ring, s.accepted, s.dequeued);
    SectionCounts(s, w, wake);
  }

  /** Queueing an operation starts no call. */
  lemma AcceptKeepsHistory(s: State, op: Op, release: int)
    requires CallsMatchQueue(s) && s.ring.nOperation < MAX_OPERATIONS && MayRelease(s, release)
    ensures CallsMatchQueue(Accept(s, op, release))
  {
    PutAppends(s.ring, op, s.accepted, s.dequeued);
    ReleaseCounts(s, release);
  }

  lemma SectionKeepsHistory(s: State, w: nat, wake: Sleeper)
    requires CallsMatchQueue(s) && Enabled(s, WorkerSection(w, wake))
    ensures CallsMatchQueue(Next(s, WorkerSection(w, wake)))
  {
    match DequeueOutcome(s.ring, s.poolEnd)
    case MustWait => SectionCounts(s, w, wake);
    case Exit(_) => ExitKeepsHistory(s, w, wake);
    case Execute(_) => ExecuteKeepsHistory(s, w, wake);
  }

  lemma ProducerKeepsHistory(s: State, p: nat, release: int)
    requires CallsMatchQueue(s) && Enabled(s, ProducerSection(p, release))
    ensures CallsMatchQueue(Next(s, ProducerSection(p, release)))
  {
    if s.ring.nOperation < MAX_OPERATIONS {
      AcceptKeepsHistory(s.(producers := s.producers[p := Idle]), s.producers[p].op, release);
    }
  }

  lemma DestroyerKeepsHistory(s: State, release: int)
    requires CallsMatchQueue(s) && Enabled(s, DestroySection(release))
    ensures CallsMatchQueue(Next(s, DestroySection(release)))
  {
    if s.ring.nOperation < MAX_OPERATIONS {
      AcceptKeepsHistory(s.(destroyer := AfterSentinel(s.destroyer.sent, |s.workers|)), SENTINEL, release);
    }
  }

  /** Setting pool_end marks how much was dequeued before. */
  lemma DestroyBeginsKeepsHistory(s: State)
    requires CallsMatchQueue(s) && !s.poolEnd && Enabled(s, DestroyBegins)
    ensures CallsMatchQueue(Next(s, DestroyBegins))
  {
  }

  lemma OthersKeepHistory(s: State, step: Step)
    requires CallsMatchQueue(s) && Enabled(s, step)
    requires !step.WorkerSection? && !step.ProducerSection? && !step.DestroySection? && !step.DestroyBegins?
    ensures CallsMatchQueue(Next(s, step))
  {
    OtherCounts(s, step);
  }

  lemma HistoryKept(s: State, step: Step)
    requires CallsMatchQueue(s) && EnoughToLeave(s) && Enabled(s, step)
    ensures CallsMatchQueue(Next(s, step))
  {
    match step
    case WorkerSection(w, wake) => SectionKeepsHistory(s, w, wake);
    case ProducerSection(p, release) => ProducerKeepsHistory(s, p, release);
    case DestroySection(release) => DestroyerKeepsHistory(s, release);
    case DestroyBegins => DestroyBeginsKeepsHistory(s);
    case _ => OthersKeepHistory(s, step);
  }

  // ----- the running workers

  lemma ExecuteKeepsRunners(s: State, w: nat, wake: Sleeper)
    requires CallsMatchQueue(s) && RunnersDistinct(s)
    requires Enabled(s, WorkerSection(w, wake)) && DequeueOutcome(s.ring, s.poolEnd).Execute?
    ensures RunnersDistinct(Next(s, WorkerSection(w, wake)))
  {
    TakeRemovesOldest(s.ring, s.accepted, s.dequeued);
  }

  /** No other step starts a call, and what was started and accepted stays so. */
  lemma OthersKeepRunners(s: State, step: Step)
    requires RunnersDistinct(s) && Enabled(s, step)
    requires step.WorkerSection? ==> !DequeueOutcome(s.ring, s.poolEnd).Execute?
    ensures RunnersDistinct(Next(s, step))
  {
    var n := Next(s, step);
    assert n.started == s.started && |n.workers| == |s.workers|;
    assert |s.accepted| <= |n.accepted| && n.accepted[..|s.accepted|] == s.accepted;
    assert forall w :: 0 <= w < |s.workers| && n.workers[w].Running? ==> n.workers[w] == s.workers[w];
    SubsetOfRunners(s, n);
  }

  lemma SubsetOfRunners(s: State, n: State)
    requires RunnersDistinct(s) && n.started == s.started && |n.workers| == |s.workers|
    requires |s.accepted| <= |n.accepted| && n.accepted[..|s.accepted|] == s.accepted
    requires forall w :: 0 <= w < |s.workers| && n.workers[w].Running? ==> n.workers[w] == s.workers[w]
    ensures RunnersDistinct(n)
  {
    forall w | 0 <= w < |n.workers| && n.workers[w].Running?
      ensures n.workers[w].ticket in n.started && n.workers[w].ticket < |n.accepted|
      ensures n.workers[w].op == n.accepted[n.workers[w].ticket]
    {
      assert n.accepted[..|s.accepted|][s.workers[w].ticket] == s.accepted[s.workers[w].ticket];
    }
  }

  lemma RunnersKept(s: State, step: Step)
    requires CallsMatchQueue(s) && RunnersDistinct(s) && Enabled(s, step)
    ensures RunnersDistinct(Next(s, step))
  {
    if step.WorkerSection? && DequeueOutcome(s.ring, s.poolEnd).Execute? {
      ExecuteKeepsRunners(s, step.w, step.wake);
    } else {
      OthersKeepRunners(s, step);
    }
  }

  // ----- the sleepers

  /** The bound for workers asleep: it falls only with the queue, or together with a worker woken. */
  lemma NotEmptyKept(s: State, step: Step)
    requires NoLostNotEmpty(s) && Enabled(s, step)
    ensures NoLostNotEmpty(Next(s, step))
  {
    match step
    case WorkerSection(w, wake) => SectionCounts(s, w, wake);
    case WorkerReturns(w) => WorkerUpdate(s.workers, w, Ready);
    case SpuriousWorker(w) => WorkerUpdate(s.workers, w, Ready);
    case ProducerSection(_, release) => if s.ring.nOperation < MAX_OPERATIONS { ReleaseCounts(s, release); }
    case DestroySection(release) => if s.ring.nOperation < MAX_OPERATIONS { ReleaseCounts(s, release); }
    case DestroyBroadcast =>
    case _ =>
  }

  lemma SectionNotFull(s: State, w: nat, wake: Sleeper)
    requires NoLostNotFull(s) && Enabled(s, WorkerSection(w, wake))
    ensures NoLostNotFull(Next(s, WorkerSection(w, wake)))
  {
    SectionCounts(s, w, wake);
    if DequeueOutcome(s.ring, s.poolEnd).Execute? && wake.AProducer? {
      SumUpdate(s.producers, wake.p, Entering(s.producers[wake.p].op), EnteringOne);
    }
  }

  /** The bound for threads asleep on not-full. */
  lemma NotFullKept(s: State, step: Step)
    requires NoLostNotFull(s) && Enabled(s, step)
    ensures NoLostNotFull(Next(s, step))
  {
    if step.WorkerSection? {
      SectionNotFull(s, step.w, step.wake);
    } else {
      OtherCounts(s, step);
      if step.ProducerCalls? || step.ProducerSection? || step.SpuriousProducer? {
        SumUpdate(s.producers, step.p, Next(s, step).producers[step.p], EnteringOne);
      }
    }
  }

  // ----- the sentinels

  lemma SectionKeepsEnough(s: State, w: nat, wake: Sleeper)
    requires EnoughToLeave(s) && Enabled(s, WorkerSection(w, wake))
    ensures EnoughToLeave(Next(s, WorkerSection(w, wake)))
  {
    SectionCounts(s, w, wake);
  }

  lemma EnoughKept(s: State, step: Step)
    requires EnoughToLeave(s) && Enabled(s, step)
    ensures EnoughToLeave(Next(s, step))
  {
    if step.WorkerSection? { SectionKeepsEnough(s, step.w, step.wake); } else { OtherCounts(s, step); }
  }

  /** Every step keeps the invariant. */
  lemma StepInv(s: State, step: Step)
    requires Inv(s) && Enabled(s, step)
    ensures Inv(Next(s, step))
  {
    HistoryKept(s, step);
    RunnersKept(s, step);
    NotEmptyKept(s, step);
    NotFullKept(s, step);
    EnoughKept(s, step);
  }

  /** The invariant holds in every state of every run. */
  lemma {:induction false} RunInv(s: State, steps: seq<Step>)
    requires Inv(s) && IsRun(s, steps)
    ensures Inv(After(s, steps))
    decreases |steps|
  {
    if steps != [] {
      StepInv(s, steps[0]);
      RunInv(Next(s, steps[0]), steps[1..]);
    }
  }

  // ----- what the invariant gives

  lemma {:induction false} SleeperNotCounted(ws: seq<Worker>)
    ensures Sum(ws, ReadyOne) + Sum(ws, LeftOne) <= |ws|
    ensures (exists w :: 0 <= w < |ws| && ws[w].Asleep?) ==> Sum(ws, ReadyOne) + Sum(ws, LeftOne) < |ws|
  {
    if ws != [] {
      var n := |ws| - 1;
      SleeperNotCounted(ws[..n]);
      if !ws[n].Asleep? && exists w :: 0 <= w < |ws| && ws[w].Asleep? {
        var w :| 0 <= w < |ws| && ws[w].Asleep?;
        assert ws[..n][w].Asleep?;
      }
    }
  }

  lemma {:induction false} SomeoneCounted(ws: seq<Worker>)
    requires Sum(ws, ReadyOne) > 0
    ensures exists w :: 0 <= w < |ws| && ws[w].Ready?
  {
    var n := |ws| - 1;
    if !ws[n].Ready? {
      SomeoneCounted(ws[..n]);
      var w :| 0 <= w < |ws[..n]| && ws[..n][w].Ready?;
      assert ws[w].Ready?;
    }
  }

  /**
   * No wake-up of a worker is lost: in every run, when a worker sleeps while operations
   * are queued, at least as many workers as there are operations are about to look.
   */
  lemma NoLostWakeUp(threads: nat, producers: nat, empty: Op, steps: seq<Step>)
    requires IsRun(Init(threads, producers, empty), steps)
    ensures var s := After(Init(threads, producers, empty), steps);
      && (SomeoneOnNotEmpty(s) ==> s.ring.nOperation <= ReadyCount(s))
      && (SomeoneOnNotEmpty(s) && 0 < s.ring.nOperation ==>
            exists w :: 0 <= w < |s.workers| && s.workers[w].Ready?)
      && (SomeoneOnNotFull(s) ==> MAX_OPERATIONS - s.ring.nOperation <= EnteringCount(s) + LeftCount(s))
  {
    InitInv(threads, producers, empty);
    RunInv(Init(threads, producers, empty), steps);
    var s := After(Init(threads, producers, empty), steps);
    if ReadyCount(s) > 0 { SomeoneCounted(s.workers); }
  }

  /** Once destroy has queued its last sentinel, no worker sleeps: the broadcast finds nobody. */
  lemma SentinelsWakeEveryone(s: State)
    requires Inv(s) && (s.destroyer.Broadcasting? || s.destroyer.Joining? || s.destroyer.Done?)
    ensures !SomeoneOnNotEmpty(s)
  {
    SleeperNotCounted(s.workers);
  }

  /**
   * FIFO and exactly once: in every run the calls made are, each once and in the order
   * of acceptance, the operations that are no sentinels and were dequeued before
   * pool_end was set; a running worker runs one of them; and every operation accepted
   * is queued, or was called and returned, or is running, or went with a leaving worker.
   */
  lemma CallsAreFifo(threads: nat, producers: nat, empty: Op, steps: seq<Step>)
    requires IsRun(Init(threads, producers, empty), steps)
    ensures var s := After(Init(threads, producers, empty), steps);
      && s.dequeued <= |s.accepted|
      && (forall i, j :: 0 <= i < j < |s.started| ==> s.started[i] < s.started[j])
      && (forall k: nat :: k in s.started <==> k < s.dequeued && ToBeCalled(s, k))
      && (forall w :: 0 <= w < |s.workers| && s.workers[w].Running? ==>
            && s.workers[w].ticket in s.started
            && s.workers[w].op == s.accepted[s.workers[w].ticket]
            && s.workers[w].op.typeOp != TH_FINALIZE)
      && |s.accepted| == s.returned + RunningCount(s) + LeftCount(s) + s.ring.nOperation
  {
    InitInv(threads, producers, empty);
    RunInv(Init(threads, producers, empty), steps);
  }

  /** After pool_end is set no call is started any more: what is still queued is dropped. */
  lemma {:induction false} NoCallAfterEnd(s: State, steps: seq<Step>)
    requires s.poolEnd && IsRun(s, steps)
    ensures After(s, steps).poolEnd && After(s, steps).started == s.started
    decreases |steps|
  {
    if steps != [] { NoCallAfterEnd(Next(s, steps[0]), steps[1..]); }
  }
}
