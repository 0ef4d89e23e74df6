/**
 * What happens to an operation handed to worker_pool_enqueue of src/base/workers_pool.c:
 * the thread keeps it until it is in the queue, however often the thread has to wait.
 */
module PoolHandover {
  import opened Counting
  import opened OperationsRing
  import opened PoolProtocol

  /** Thread q has handed over op and has not yet come back from the call. */
  predicate Carries(q: Producer, op: Op) { !q.Idle? && q.op == op }

  /**
   * What a step does to an enqueueing thread: a thread elsewhere stays there unless it
   * calls; one inside the call keeps its operation or returns, and it returns only in a
   * step that appends the operation to the accepted ones.
   */
  ghost predicate KeepsItsOperation(s: State, step: Step, n: State, q: nat)
    requires q < |s.producers| == |n.producers|
  {
    match s.producers[q]
    case Idle => n.producers[q] == (if step.ProducerCalls? && step.p == q then Entering(step.op) else Idle)
    case _ =>
      var op := s.producers[q].op;
      Carries(n.producers[q], op) || (n.producers[q].Idle? && step.ProducerSection? && step.p == q && n.accepted == s.accepted + [op])
  }

  /** Every step does only that to the threads, and appends at most one operation: that of its thread, or a sentinel. */
  lemma EnqueueStep(s: State, step: Step)
    requires Enabled(s, step)
    ensures var n := Next(s, step);
      && |n.producers| == |s.producers|
      && (forall q :: 0 <= q < |s.producers| ==> KeepsItsOperation(s, step, n, q))
      && (n.accepted == s.accepted
          || (step.ProducerSection? && n.producers[step.p].Idle? && n.accepted == s.accepted + [s.producers[step.p].op])
          || (step.DestroySection? && n.destroyer != Blocked(s.destroyer.sent) && n.accepted == s.accepted + [SENTINEL]))
  {
  }

  // ----- nothing is lost

  function CarryOne(op: Op): Producer -> nat {
    (q: Producer) => if Carries(q, op) then 1 else 0
  }

  function SentSoFar(s: State): nat {
    match s.destroyer
    case NotCalled => 0
    case Queueing(sent) => sent
    case Blocked(sent) => sent
    case _ => |s.workers|
  }

  /** How often op is accepted or carried by a thread, apart from the sentinels of destroy. */
  function Known(s: State, op: Op): int {
    multiset(s.accepted)[op] + Sum(s.producers, CarryOne(op)) - if op == SENTINEL then SentSoFar(s) else 0
  }

  function HandedIn(step: Step, op: Op): nat {
    if step.ProducerCalls? && step.op == op then 1 else 0
  }

  /** How often op was handed to enqueue. */
  function HandedOver(steps: seq<Step>, op: Op): nat {
    if steps == [] then 0 else HandedIn(steps[0], op) + HandedOver(steps[1..], op)
  }

  lemma WorkerConserves(s: State, w: nat, wake: Sleeper, op: Op)
    requires Enabled(s, WorkerSection(w, wake))
    ensures Known(Next(s, WorkerSection(w, wake)), op) == Known(s, op)
  {
    if DequeueOutcome(s.ring, s.poolEnd).Execute? && wake.AProducer? {
      SumUpdate(s.producers, wake.p, Entering(s.producers[wake.p].op), CarryOne(op));
    }
  }

  lemma AcceptConserves(s: State, p: nat, release: int, op: Op)
    requires Enabled(s, ProducerSection(p, release))
    ensures Known(Next(s, ProducerSection(p, release)), op) == Known(s, op)
  {
    var n := Next(s, ProducerSection(p, release));
    assert n.producers == s.producers[p := n.producers[p]] && |n.workers| == |s.workers| && n.destroyer == s.destroyer;
    SumUpdate(s.producers, p, n.producers[p], CarryOne(op));
  }

  lemma ProducerConserves(s: State, step: Step, op: Op)
    requires Enabled(s, step) && (step.ProducerCalls? || step.SpuriousProducer?)
    ensures Known(Next(s, step), op) == Known(s, op) + HandedIn(step, op)
  {
    SumUpdate(s.producers, step.p, Next(s, step).producers[step.p], CarryOne(op));
  }

  lemma DestroyerConserves(s: State, step: Step, op: Op)
    requires EnoughToLeave(s) && Enabled(s, step)
    requires step.DestroyBegins? || step.DestroySection? || step.DestroyBroadcast? || step.DestroyJoin? || step.SpuriousDestroyer?
    ensures Known(Next(s, step), op) == Known(s, op)
  {
  }

  lemma StepConserves(s: State, step: Step, op: Op)
    requires EnoughToLeave(s) && Enabled(s, step)
    ensures Known(Next(s, step), op) == Known(s, op) + HandedIn(step, op)
  {
    match step
    case WorkerSection(w, wake) => WorkerConserves(s, w, wake, op);
    case WorkerReturns(_) =>
    case SpuriousWorker(_) =>
    case ProducerCalls(_, _) => ProducerConserves(s, step, op);
    case ProducerSection(p, release) => AcceptConserves(s, p, release, op);
    case SpuriousProducer(_) => ProducerConserves(s, step, op);
    case _ => DestroyerConserves(s, step, op);
  }

  lemma {:induction false} RunConserves(s: State, steps: seq<Step>, op: Op)
    requires Inv(s) && IsRun(s, steps)
    ensures Known(After(s, steps), op) == Known(s, op) + HandedOver(steps, op)
    decreases |steps|
  {
    if steps != [] {
      StepInv(s, steps[0]);
      StepConserves(s, steps[0], op);
      RunConserves(Next(s, steps[0]), steps[1..], op);
    }
  }

  lemma {:induction false} NobodyCarries(ps: seq<Producer>, op: Op)
    requires forall p :: 0 <= p < |ps| ==> !Carries(ps[p], op)
    ensures Sum(ps, CarryOne(op)) == 0
  {
    if ps != [] { NobodyCarries(ps[..|ps| - 1], op); }
  }

  /**
   * Nothing handed over is lost or doubled: in every run every operation was accepted as
   * often as threads handed it over and are no longer inside the call, and a sentinel as
   * often again as destroy has queued it.
   */
  lemma EveryOperationIsKept(threads: nat, producers: nat, empty: Op, steps: seq<Step>, op: Op)
    requires IsRun(Init(threads, producers, empty), steps)
    ensures var s := After(Init(threads, producers, empty), steps);
      multiset(s.accepted)[op] + Sum(s.producers, CarryOne(op))
      == HandedOver(steps, op) + if op == SENTINEL then SentSoFar(s) else 0
  {
    InitInv(threads, producers, empty);
    NobodyCarries(Init(threads, producers, empty).producers, op);
    RunConserves(Init(threads, producers, empty), steps, op);
  }
}
