/**
 * The on-demand workers of src/base/workers_ondemand.c as a step machine: a step is one
 * critical section or one return of a launched function. One thread calls launch, wait
 * and destroy; it may reuse an argument block as soon as launch has returned. Spurious
 * wake-ups are allowed.
 */
module OnDemand {
  import opened Counting

  /** What the caller puts into an argument block: the function with its parameters, and wait4me. */
  datatype Task = Task(work: nat, wait4me: bool)

  /**
   * An argument block with its r_wait flag, and as history the launch with wait4me that
   * nobody has waited for yet (-1 if there is none).
   */
  datatype Block = Block(task: Task, rWait: bool, outstanding: int)

  /** A worker before its prolog, in its function, before its post, before its epilog, and gone. */
  datatype Worker =
    | Created(block: nat)
    | Running(block: nat, task: Task)
    | Posting(block: nat, task: Task)
    | Leaving(block: nat, task: Task)
    | Gone(block: nat, task: Task)

  /** The calling thread: between calls, wanting a mutex, or asleep on a condition. */
  datatype Caller =
    | Idle
    | Launching | LaunchAsleep
    | Waiting(block: nat) | WaitAsleep(block: nat)
    | Destroying | DestroyAsleep | Destroyed

  /** A launch as the caller meant it. */
  datatype Launch = Launch(block: nat, task: Task)

  datatype State = State(
    busyWorker: bool, nWorkers: int, blocks: seq<Block>, caller: Caller,
    workers: seq<Worker>, launched: seq<Launch>)

  datatype Step =
    | CallLaunch(block: nat, task: Task)
    | LaunchSection
    | CallWait(block: nat)
    | WaitSection
    | CallDestroy
    | DestroySection
    | Prolog(w: nat)
    | FunctionReturns(w: nat)
    | Post(w: nat)
    | Epilog(w: nat)
    | Spurious

  function Init(blocks: nat, empty: Task): State {
    State(true, 0, seq(blocks, _ => Block(empty, true, -1)), Idle, [], [])
  }

  predicate Enabled(s: State, step: Step) {
    match step
    case CallLaunch(b, _) => s.caller.Idle? && b < |s.blocks|
    case LaunchSection => s.caller.Launching?
    case CallWait(b) => s.caller.Idle? && b < |s.blocks|
    case WaitSection => s.caller.Waiting? && s.caller.block < |s.blocks|
    case CallDestroy => s.caller.Idle?
    case DestroySection => s.caller.Destroying?
    case Prolog(w) => w < |s.workers| && s.workers[w].Created? && s.workers[w].block < |s.blocks|
    case FunctionReturns(w) => w < |s.workers| && s.workers[w].Running?
    case Post(w) => w < |s.workers| && s.workers[w].Posting? && s.workers[w].block < |s.blocks|
    case Epilog(w) => w < |s.workers| && s.workers[w].Leaving?
    case Spurious => s.caller.LaunchAsleep? || s.caller.WaitAsleep? || s.caller.DestroyAsleep?
  }

  function Awake(c: Caller): Caller {
    match c
    case LaunchAsleep => Launching
    case WaitAsleep(b) => Waiting(b)
    case DestroyAsleep => Destroying
    case _ => c
  }

  function AfterFunction(b: nat, t: Task): Worker {
    if t.wait4me then Posting(b, t) else Leaving(b, t)
  }

  function Next(s: State, step: Step): State
    requires Enabled(s, step)
  {
    match step
    case CallLaunch(b, t) =>
      var mark := if t.wait4me then |s.workers| else s.blocks[b].outstanding;
      s.(busyWorker := true, blocks := s.blocks[b := Block(t, s.blocks[b].rWait, mark)],
         workers := s.workers + [Created(b)], launched := s.launched + [Launch(b, t)], caller := Launching)
    case LaunchSection =>
      if s.busyWorker then s.(caller := LaunchAsleep) else s.(busyWorker := true, caller := Idle)
    case CallWait(b) => s.(caller := Waiting(b))
    case WaitSection =>
      var b := s.caller.block;
      if s.blocks[b].rWait then s.(caller := WaitAsleep(b))
      else s.(blocks := s.blocks[b := Block(s.blocks[b].task, true, -1)], caller := Idle)
    case CallDestroy => s.(caller := Destroying)
    case DestroySection => if s.nWorkers != 0 then s.(caller := DestroyAsleep) else s.(caller := Destroyed)
    case Prolog(w) =>
      var b := s.workers[w].block;
      s.(busyWorker := false, nWorkers := s.nWorkers + 1,
         workers := s.workers[w := Running(b, s.blocks[b].task)],
         caller := if s.caller.LaunchAsleep? then Launching else s.caller)
    case FunctionReturns(w) =>
      s.(workers := s.workers[w := AfterFunction(s.workers[w].block, s.workers[w].task)])
    case Post(w) =>
      var b := s.workers[w].block;
      s.(blocks := s.blocks[b := s.blocks[b].(rWait := false)],
         workers := s.workers[w := Leaving(b, s.workers[w].task)],
         caller := if s.caller == WaitAsleep(b) then Waiting(b) else s.caller)
    case Epilog(w) =>
      s.(nWorkers := s.nWorkers - 1,
         workers := s.workers[w := Gone(s.workers[w].block, s.workers[w].task)],
         caller := if s.caller.DestroyAsleep? then Destroying else s.caller)
    case Spurious => s.(caller := Awake(s.caller))
  }

  // ----- runs

  predicate IsRun(s: State, steps: seq<Step>)
    decreases |steps|
  {
    steps == [] || (Enabled(s, steps[0]) && IsRun(Next(s, steps[0]), steps[1..]))
  }

  function After(s: State, steps: seq<Step>): State
    requires IsRun(s, steps)
    decreases |steps|
  {
    if steps == [] then s else After(Next(s, steps[0]), steps[1..])
  }

  // ----- the invariant

  /** The worker sits between its prolog and its epilog. */
  function ActiveOne(w: Worker): nat { if w.Created? || w.Gone? then 0 else 1 }

  predicate InLaunch(s: State) {
    s.caller.Launching? || s.caller.LaunchAsleep?
  }

  /**
   * Worker w carries the arguments of its own launch; before its prolog they are still
   * in the block, and launch has not returned.
   */
  predicate OwnArguments(s: State, w: nat)
    requires w < |s.workers| == |s.launched|
  {
    var x := s.workers[w];
    && x.block == s.launched[w].block && x.block < |s.blocks|
    && if x.Created? then w == |s.workers| - 1 && s.busyWorker && InLaunch(s) && s.blocks[x.block].task == s.launched[w].task
       else x.task == s.launched[w].task && (x.Posting? ==> x.task.wait4me)
  }

  ghost predicate ArgumentsKept(s: State) {
    && |s.workers| == |s.launched|
    && (forall w :: 0 <= w < |s.workers| ==> OwnArguments(s, w))
    && (!s.busyWorker ==> s.caller.Launching?)
    && (InLaunch(s) ==> s.workers != [] && (s.busyWorker ==> s.workers[|s.workers| - 1].Created?))
  }

  /** Nobody sleeps on a condition that holds. */
  predicate NoLostWakeUp(s: State) {
    && (s.caller.LaunchAsleep? ==> s.busyWorker)
    && (s.caller.DestroyAsleep? ==> s.nWorkers != 0)
    && (s.caller.Waiting? || s.caller.WaitAsleep? ==> s.caller.block < |s.blocks|)
    && (s.caller.WaitAsleep? ==> s.blocks[s.caller.block].rWait)
  }

  ghost predicate Inv(s: State) {
    && ArgumentsKept(s)
    && NoLostWakeUp(s)
    && s.nWorkers == Sum(s.workers, ActiveOne)
    && (s.caller.Destroyed? ==> s.nWorkers == 0)
  }

  lemma {:induction false} NoneActive(ws: seq<Worker>)
    requires Sum(ws, ActiveOne) == 0
    ensures forall w :: 0 <= w < |ws| ==> ActiveOne(ws[w]) == 0
  {
    if ws != [] {
      var n := |ws| - 1;
      NoneActive(ws[..n]);
      forall w | 0 <= w < |ws| ensures ActiveOne(ws[w]) == 0 {
        if w < n { assert ws[..n][w] == ws[w]; }
      }
    }
  }

  lemma LaunchKept(s: State, b: nat, t: Task)
    requires Inv(s) && Enabled(s, CallLaunch(b, t))
    ensures Inv(Next(s, CallLaunch(b, t)))
  {
    var n := Next(s, CallLaunch(b, t));
    assert n.workers[..|s.workers|] == s.workers;
    forall w | 0 <= w < |n.workers| ensures OwnArguments(n, w) {
      if w < |s.workers| { assert OwnArguments(s, w); }
    }
  }

  lemma CallerKept(s: State, step: Step)
    requires Inv(s) && Enabled(s, step)
    requires !step.CallLaunch? && !step.Prolog? && !step.FunctionReturns? && !step.Post? && !step.Epilog?
    ensures Inv(Next(s, step))
  {
    var n := Next(s, step);
    forall w | 0 <= w < |n.workers| ensures OwnArguments(n, w) {
      assert OwnArguments(s, w);
    }
  }

  lemma WorkerKept(s: State, step: Step)
    requires Inv(s) && Enabled(s, step)
    requires step.Prolog? || step.FunctionReturns? || step.Post? || step.Epilog?
    ensures Inv(Next(s, step))
  {
    var n := Next(s, step);
    SumUpdate(s.workers, step.w, n.workers[step.w], ActiveOne);
    assert OwnArguments(s, step.w);
    forall w | 0 <= w < |n.workers| ensures OwnArguments(n, w) {
      assert OwnArguments(s, w);
    }
  }

  /** Every step keeps the invariant. */
  lemma StepInv(s: State, step: Step)
    requires Inv(s) && Enabled(s, step)
    ensures Inv(Next(s, step))
  {
    match step
    case CallLaunch(b, t) => LaunchKept(s, b, t);
    case Prolog(_) => WorkerKept(s, step);
    case FunctionReturns(_) => WorkerKept(s, step);
    case Post(_) => WorkerKept(s, step);
    case Epilog(_) => WorkerKept(s, step);
    case _ => CallerKept(s, step);
  }

  lemma {:induction false} RunInv(s: State, steps: seq<Step>)
    requires Inv(s) && IsRun(s, steps)
    ensures Inv(After(s, steps))
    decreases |steps|
  {
    if steps != [] {
      StepInv(s, steps[0]);
      RunInv(Next(s, steps[0]), steps[1..]);
    }
  }

  // ----- a call ends only by its own section

  predicate InWait(s: State, b: nat) {
    s.caller == Waiting(b) || s.caller == WaitAsleep(b)
  }

  predicate InDestroy(s: State) {
    s.caller.Destroying? || s.caller.DestroyAsleep?
  }

  /**
   * What a step does to the calling thread: a call brings it inside, and it gets out only
   * by the section of that call, from launch with no worker still to copy its arguments,
   * from wait with the flag up again, from destroy with no worker left.
   */
  ghost predicate StaysInItsCall(s: State, step: Step, n: State) {
    match s.caller
    case Idle =>
      if step.CallLaunch? then InLaunch(n) else if step.CallWait? then InWait(n, step.block)
      else if step.CallDestroy? then InDestroy(n) else n.caller.Idle?
    case Destroyed => n.caller.Destroyed?
    case Waiting(b) => InWait(n, b) || (n.caller.Idle? && step.WaitSection? && b < |n.blocks| && n.blocks[b].rWait)
    case WaitAsleep(b) => InWait(n, b)
    case Destroying => InDestroy(n) || (n.caller.Destroyed? && step.DestroySection? && n.nWorkers == 0)
    case DestroyAsleep => InDestroy(n)
    case Launching => InLaunch(n) || (n.caller.Idle? && step.LaunchSection? && !s.busyWorker)
    case LaunchAsleep => InLaunch(n)
  }

  lemma CallerStep(s: State, step: Step)
    requires Enabled(s, step)
    ensures StaysInItsCall(s, step, Next(s, step))
    ensures |Next(s, step).blocks| == |s.blocks|
  {
  }

  function LaunchOf(step: Step): seq<Launch> {
    if step.CallLaunch? then [Launch(step.block, step.task)] else []
  }

  /** The launches a run calls, in order. */
  function Launches(steps: seq<Step>): seq<Launch> {
    if steps == [] then [] else LaunchOf(steps[0]) + Launches(steps[1..])
  }

  lemma LaunchIsKept(s: State, step: Step)
    requires Enabled(s, step)
    ensures Next(s, step).launched == s.launched + LaunchOf(step)
  {
  }

  lemma Regroup(a: seq<Launch>, b: seq<Launch>, c: seq<Launch>)
    ensures (a + b) + c == a + (b + c)
  {
  }

  lemma {:induction false} EveryLaunchIsKept(s: State, steps: seq<Step>)
    requires IsRun(s, steps)
    ensures After(s, steps).launched == s.launched + Launches(steps)
    decreases |steps|
  {
    if steps != [] {
      LaunchIsKept(s, steps[0]);
      EveryLaunchIsKept(Next(s, steps[0]), steps[1..]);
      Regroup(s.launched, LaunchOf(steps[0]), Launches(steps[1..]));
    }
  }

  // ----- launch and destroy

  /**
   * Launch returns only after the new worker has copied its arguments: in every run,
   * when the caller is not inside launch, every worker so far is past its prolog with
   * the arguments of its own launch, however often the block was reused. The launches are
   * those the run calls.
   */
  lemma ArgumentsAreCopied(blocks: nat, empty: Task, steps: seq<Step>)
    requires IsRun(Init(blocks, empty), steps)
    ensures var s := After(Init(blocks, empty), steps);
      && s.launched == Launches(steps) && |s.workers| == |s.launched|
      && forall w :: 0 <= w < |s.workers| ==>
           && (s.workers[w].Created? ==> InLaunch(s))
           && (!s.workers[w].Created? ==> Launch(s.workers[w].block, s.workers[w].task) == s.launched[w])
  {
    RunInv(Init(blocks, empty), steps);
    EveryLaunchIsKept(Init(blocks, empty), steps);
    var s := After(Init(blocks, empty), steps);
    forall w | 0 <= w < |s.workers|
      ensures s.workers[w].Created? ==> InLaunch(s)
      ensures !s.workers[w].Created? ==> Launch(s.workers[w].block, s.workers[w].task) == s.launched[w]
    {
      assert OwnArguments(s, w);
    }
  }

  /** n_workers counts the workers between prolog and epilog, in every run. */
  lemma WorkersAreCounted(blocks: nat, empty: Task, steps: seq<Step>)
    requires IsRun(Init(blocks, empty), steps)
    ensures var s := After(Init(blocks, empty), steps); s.nWorkers == Sum(s.workers, ActiveOne)
  {
    RunInv(Init(blocks, empty), steps);
  }

  lemma {:induction false} StaysInDestroy(s: State, steps: seq<Step>)
    requires IsRun(s, steps) && (InDestroy(s) || s.caller.Destroyed?)
    ensures InDestroy(After(s, steps)) || After(s, steps).caller.Destroyed?
    decreases |steps|
  {
    if steps != [] {
      CallerStep(s, steps[0]);
      StaysInDestroy(Next(s, steps[0]), steps[1..]);
    }
  }

  lemma DestroyedMeansGone(s: State)
    requires Inv(s) && s.caller.Destroyed?
    ensures forall w :: 0 <= w < |s.workers| ==> s.workers[w].Gone?
  {
    NoneActive(s.workers);
    forall w | 0 <= w < |s.workers| ensures s.workers[w].Gone? {
      assert OwnArguments(s, w) && ActiveOne(s.workers[w]) == 0;
    }
  }

  /** After a call of destroy, whatever happens, it has returned only if every worker ever launched is gone. */
  lemma DestroyWaitsForAll(blocks: nat, empty: Task, steps: seq<Step>, more: seq<Step>)
    requires IsRun(Init(blocks, empty), steps) && Enabled(After(Init(blocks, empty), steps), CallDestroy)
    requires IsRun(Next(After(Init(blocks, empty), steps), CallDestroy), more)
    ensures var s := After(Init(blocks, empty), steps);
      var e := After(Next(s, CallDestroy), more);
      && |s.workers| <= |e.workers|
      && (InDestroy(e) || forall w :: 0 <= w < |e.workers| ==> e.workers[w].Gone?)
  {
    var s := After(Init(blocks, empty), steps);
    RunInv(Init(blocks, empty), steps);
    StepInv(s, CallDestroy);
    CallerStep(s, CallDestroy);
    RunInv(Next(s, CallDestroy), more);
    StaysInDestroy(Next(s, CallDestroy), more);
    WorkersStay(Next(s, CallDestroy), more);
    if !InDestroy(After(Next(s, CallDestroy), more)) { DestroyedMeansGone(After(Next(s, CallDestroy), more)); }
  }

  lemma {:induction false} WorkersStay(s: State, steps: seq<Step>)
    requires IsRun(s, steps)
    ensures |s.workers| <= |After(s, steps).workers|
    decreases |steps|
  {
    if steps != [] { WorkersStay(Next(s, steps[0]), steps[1..]); }
  }

  // ----- wait

  /**
   * How a caller has to use wait: a block with an unwaited launch is not given to another
   * launch with wait4me, and wait is called only for such a block.
   */
  predicate Disciplined(s: State, step: Step)
    requires Enabled(s, step)
  {
    && (step.CallLaunch? && step.task.wait4me ==> s.blocks[step.block].outstanding == -1)
    && (step.CallWait? ==> s.blocks[step.block].outstanding != -1)
  }

  predicate DisciplinedRun(s: State, steps: seq<Step>)
    requires IsRun(s, steps)
    decreases |steps|
  {
    steps == [] || (Disciplined(s, steps[0]) && DisciplinedRun(Next(s, steps[0]), steps[1..]))
  }

  predicate Returned(w: Worker) {
    w.Leaving? || w.Gone?
  }

  /** r_wait is down exactly if the outstanding function of the block has returned and posted. */
  predicate FlagIsExact(s: State, b: nat)
    requires b < |s.blocks| && |s.workers| == |s.launched|
  {
    var o := s.blocks[b].outstanding;
    && -1 <= o < |s.workers|
    && (o != -1 ==> s.workers[o].block == b && s.launched[o].task.wait4me)
    && (s.blocks[b].rWait <==> o == -1 || !Returned(s.workers[o]))
  }

  /** A worker that has still to post is the outstanding one of its block. */
  predicate PostsForItsBlock(s: State, w: nat)
    requires w < |s.workers| == |s.launched|
  {
    s.launched[w].task.wait4me && !Returned(s.workers[w]) ==>
      s.launched[w].block < |s.blocks| && s.blocks[s.launched[w].block].outstanding == w
  }

  ghost predicate WaitInv(s: State) {
    && |s.workers| == |s.launched|
    && (forall b :: 0 <= b < |s.blocks| ==> FlagIsExact(s, b))
    && (forall w :: 0 <= w < |s.workers| ==> PostsForItsBlock(s, w))
    && (s.caller.Waiting? || s.caller.WaitAsleep? ==>
          s.caller.block < |s.blocks| && s.blocks[s.caller.block].outstanding != -1)
  }

  lemma StepWaitInv(s: State, step: Step)
    requires Inv(s) && WaitInv(s) && Enabled(s, step) && Disciplined(s, step)
    ensures WaitInv(Next(s, step))
  {
    var n := Next(s, step);
    if step.Prolog? || step.FunctionReturns? || step.Post? || step.Epilog? {
      assert OwnArguments(s, step.w) && PostsForItsBlock(s, step.w);
    }
    forall b | 0 <= b < |n.blocks| ensures FlagIsExact(n, b) {
      assert FlagIsExact(s, b);
    }
    forall w | 0 <= w < |n.workers| ensures PostsForItsBlock(n, w) {
      if w < |s.workers| {
        assert PostsForItsBlock(s, w) && OwnArguments(s, w);
        if s.launched[w].block < |s.blocks| { assert FlagIsExact(s, s.launched[w].block); }
      }
    }
  }

  lemma {:induction false} RunWaitInv(s: State, steps: seq<Step>)
    requires Inv(s) && WaitInv(s) && IsRun(s, steps) && DisciplinedRun(s, steps)
    ensures Inv(After(s, steps)) && WaitInv(After(s, steps))
    decreases |steps|
  {
    if steps != [] {
      StepInv(s, steps[0]);
      StepWaitInv(s, steps[0]);
      RunWaitInv(Next(s, steps[0]), steps[1..]);
    }
  }

  /**
   * Wait returns exactly when its function has returned: in every run with disciplined
   * calls, a caller inside wait finds r_wait down if and only if the function of the
   * outstanding launch of its block has returned, and otherwise it sleeps.
   */
  lemma WaitReturnsWithItsFunction(blocks: nat, empty: Task, steps: seq<Step>)
    requires IsRun(Init(blocks, empty), steps) && DisciplinedRun(Init(blocks, empty), steps)
    ensures var s := After(Init(blocks, empty), steps);
      s.caller.Waiting? ==>
        && s.caller.block < |s.blocks|
        && var o := s.blocks[s.caller.block].outstanding;
        && 0 <= o < |s.workers| == |s.launched|
        && s.launched[o].block == s.caller.block && s.launched[o].task.wait4me
        && (Next(s, WaitSection).caller.Idle? <==> Returned(s.workers[o]))
  {
    RunWaitInv(Init(blocks, empty), steps);
    var s := After(Init(blocks, empty), steps);
    if s.caller.Waiting? {
      assert FlagIsExact(s, s.caller.block);
      assert OwnArguments(s, s.blocks[s.caller.block].outstanding);
    }
  }

  /** Either the caller is still in its wait for the launch o on block b, or the function of o has returned. */
  ghost predicate WaitsOrReturned(s: State, b: nat, o: nat) {
    && o < |s.workers|
    && (Returned(s.workers[o]) || (InWait(s, b) && b < |s.blocks| && s.blocks[b].outstanding == o))
  }

  lemma StepWaitsOrReturned(s: State, step: Step, b: nat, o: nat)
    requires Inv(s) && WaitInv(s) && WaitsOrReturned(s, b, o) && Enabled(s, step)
    ensures WaitsOrReturned(Next(s, step), b, o)
  {
    if InWait(s, b) && b < |s.blocks| { assert FlagIsExact(s, b); }
  }

  lemma {:induction false} RunWaitsOrReturned(s: State, steps: seq<Step>, b: nat, o: nat)
    requires Inv(s) && WaitInv(s) && WaitsOrReturned(s, b, o) && IsRun(s, steps) && DisciplinedRun(s, steps)
    ensures WaitsOrReturned(After(s, steps), b, o)
    decreases |steps|
  {
    if steps != [] {
      StepInv(s, steps[0]);
      StepWaitInv(s, steps[0]);
      StepWaitsOrReturned(s, steps[0], b, o);
      RunWaitsOrReturned(Next(s, steps[0]), steps[1..], b, o);
    }
  }

  /**
   * After a disciplined call of wait, in every disciplined run, the caller is still inside
   * it unless the function launched last on the block has returned.
   */
  lemma WaitReturnsAfterItsFunction(blocks: nat, empty: Task, steps: seq<Step>, b: nat, more: seq<Step>)
    requires IsRun(Init(blocks, empty), steps) && DisciplinedRun(Init(blocks, empty), steps)
    requires var s := After(Init(blocks, empty), steps);
      && Enabled(s, CallWait(b)) && Disciplined(s, CallWait(b))
      && IsRun(Next(s, CallWait(b)), more) && DisciplinedRun(Next(s, CallWait(b)), more)
    ensures var s := After(Init(blocks, empty), steps);
      && 0 <= s.blocks[b].outstanding < |s.workers|
      && WaitsOrReturned(After(Next(s, CallWait(b)), more), b, s.blocks[b].outstanding)
  {
    var s := After(Init(blocks, empty), steps);
    RunWaitInv(Init(blocks, empty), steps);
    assert FlagIsExact(s, b);
    StepInv(s, CallWait(b));
    StepWaitInv(s, CallWait(b));
    RunWaitsOrReturned(Next(s, CallWait(b)), more, b, s.blocks[b].outstanding);
  }

  lemma RunFrom(s: State, step: Step, rest: seq<Step>)
    requires Enabled(s, step) && IsRun(Next(s, step), rest)
    ensures IsRun(s, [step] + rest) && After(s, [step] + rest) == After(Next(s, step), rest)
  {
    assert ([step] + rest)[1..] == rest;
  }

  // ----- every call returns

  /** A step that is neither the beginning of a call nor a spurious wake-up. */
  predicate Quiet(step: Step) {
    !step.CallLaunch? && !step.CallWait? && !step.CallDestroy? && !step.Spurious?
  }

  predicate BetweenCalls(s: State) {
    s.caller.Idle? || s.caller.Destroyed?
  }

  function StepsLeft(w: Worker): nat {
    match w
    case Created(_) => 4
    case Running(_, _) => 3
    case Posting(_, _) => 2
    case Leaving(_, _) => 1
    case Gone(_, _) => 0
  }

  function Measure(s: State): nat {
    3 * Sum(s.workers, StepsLeft)
    + if BetweenCalls(s) then 0 else if s.caller.LaunchAsleep? || s.caller.WaitAsleep? || s.caller.DestroyAsleep? then 1 else 2
  }

  lemma MeasureStep(s: State, step: Step)
    requires Enabled(s, step) && Quiet(step)
    ensures Measure(Next(s, step)) < Measure(s)
  {
    if step.Prolog? || step.FunctionReturns? || step.Post? || step.Epilog? {
      SumUpdate(s.workers, step.w, Next(s, step).workers[step.w], StepsLeft);
    }
  }

  lemma {:induction false} QuietRunIsShort(s: State, steps: seq<Step>)
    requires IsRun(s, steps) && forall i :: 0 <= i < |steps| ==> Quiet(steps[i])
    ensures |steps| <= Measure(s) && DisciplinedRun(s, steps)
    decreases |steps|
  {
    if steps != [] {
      MeasureStep(s, steps[0]);
      QuietRunIsShort(Next(s, steps[0]), steps[1..]);
    }
  }

  lemma {:induction false} SomeActive(ws: seq<Worker>)
    requires Sum(ws, ActiveOne) > 0
    ensures exists w :: 0 <= w < |ws| && ActiveOne(ws[w]) == 1
  {
    var n := |ws| - 1;
    if ActiveOne(ws[n]) == 0 {
      SomeActive(ws[..n]);
      var w :| 0 <= w < n && ActiveOne(ws[..n][w]) == 1;
      assert ActiveOne(ws[w]) == 1;
    }
  }

  /** What the worker does next. */
  function WorkerStep(s: State, w: nat): Step
    requires w < |s.workers| && !s.workers[w].Gone?
  {
    match s.workers[w]
    case Created(_) => Prolog(w)
    case Running(_, _) => FunctionReturns(w)
    case Posting(_, _) => Post(w)
    case Leaving(_, _) => Epilog(w)
  }

  /**
   * No use is ruled out: between calls the thread may call anything with any block, whoever
   * wants the mutex may get it, every worker may go on, and a sleeper may wake by itself.
   */
  lemma AnyUseIsARun(s: State)
    requires Inv(s)
    ensures s.caller.Idle? ==> Enabled(s, CallDestroy)
    ensures forall b: nat, t :: s.caller.Idle? && b < |s.blocks| ==> Enabled(s, CallLaunch(b, t))
    ensures forall b: nat :: s.caller.Idle? && b < |s.blocks| ==> Enabled(s, CallWait(b))
    ensures s.caller.Launching? ==> Enabled(s, LaunchSection)
    ensures s.caller.Waiting? ==> Enabled(s, WaitSection)
    ensures s.caller.Destroying? ==> Enabled(s, DestroySection)
    ensures s.caller.LaunchAsleep? || s.caller.WaitAsleep? || s.caller.DestroyAsleep? ==> Enabled(s, Spurious)
    ensures forall w :: 0 <= w < |s.workers| && !s.workers[w].Gone? ==> Enabled(s, WorkerStep(s, w))
  {
    forall w | 0 <= w < |s.workers| && !s.workers[w].Gone? ensures Enabled(s, WorkerStep(s, w)) {
      assert OwnArguments(s, w);
    }
  }

  /** While a call is under way, some worker or the caller can take a step. */
  lemma NeverStuck(s: State)
    requires Inv(s) && WaitInv(s) && !BetweenCalls(s)
    ensures exists step :: Quiet(step) && Enabled(s, step)
  {
    var c := s.caller;
    if c.LaunchAsleep? {
      WorkerCanStep(s, |s.workers| - 1);
    } else if c.WaitAsleep? {
      assert FlagIsExact(s, c.block);
      WorkerCanStep(s, s.blocks[c.block].outstanding);
    } else if c.DestroyAsleep? {
      SomeActive(s.workers);
      var w :| 0 <= w < |s.workers| && ActiveOne(s.workers[w]) == 1;
      WorkerCanStep(s, w);
    } else {
      var step := if c.Launching? then LaunchSection else if c.Waiting? then WaitSection else DestroySection;
      assert Quiet(step) && Enabled(s, step);
    }
  }

  lemma WorkerCanStep(s: State, w: nat)
    requires Inv(s) && w < |s.workers| && !s.workers[w].Gone?
    ensures exists step :: Quiet(step) && Enabled(s, step)
  {
    assert OwnArguments(s, w);
    assert Quiet(WorkerStep(s, w)) && Enabled(s, WorkerStep(s, w));
  }

  /**
   * Every call returns: from every state that disciplined calls reach, steps other than
   * new calls and spurious wake-ups end after a bounded number, and they end only with
   * the caller back from launch or wait, or with destroy complete.
   */
  lemma EveryCallReturns(blocks: nat, empty: Task, steps: seq<Step>, quiet: seq<Step>)
    requires IsRun(Init(blocks, empty), steps) && DisciplinedRun(Init(blocks, empty), steps)
    requires IsRun(After(Init(blocks, empty), steps), quiet)
    requires forall i :: 0 <= i < |quiet| ==> Quiet(quiet[i])
    ensures var s := After(Init(blocks, empty), steps);
      && |quiet| <= Measure(s)
      && (BetweenCalls(After(s, quiet)) || exists step :: Quiet(step) && Enabled(After(s, quiet), step))
  {
    var s := After(Init(blocks, empty), steps);
    RunWaitInv(Init(blocks, empty), steps);
    QuietRunIsShort(s, quiet);
    RunWaitInv(s, quiet);
    if !BetweenCalls(After(s, quiet)) { NeverStuck(After(s, quiet)); }
  }
}
