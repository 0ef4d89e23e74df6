/**
 * What callers of the on-demand workers (src/base/workers_ondemand.c) have to keep to:
 * wait gets through with its own function, and returns at all, exactly if they do.
 */
module OnDemandDiscipline {
  import opened OnDemand

  /** A caller in wait gets through only if the function of its block's last launch has returned. */
  predicate GetsThroughInTime(s: State) {
    s.caller.Waiting? && s.caller.block < |s.blocks| && Next(s, WaitSection).caller.Idle? ==>
      && 0 <= s.blocks[s.caller.block].outstanding < |s.workers|
      && Returned(s.workers[s.blocks[s.caller.block].outstanding])
  }

  /** It stays so, whatever happens, as long as the further calls are disciplined. */
  ghost predicate StaysInTime(s: State) {
    forall steps :: IsRun(s, steps) && DisciplinedRun(s, steps) ==> GetsThroughInTime(After(s, steps))
  }

  // ----- a launch

  lemma DisciplinedStaysInTime(s: State)
    requires Inv(s) && WaitInv(s)
    ensures StaysInTime(s)
  {
    forall steps | IsRun(s, steps) && DisciplinedRun(s, steps) ensures GetsThroughInTime(After(s, steps)) {
      RunWaitInv(s, steps);
      var e := After(s, steps);
      if e.caller.Waiting? { assert FlagIsExact(e, e.caller.block); }
    }
  }

  lemma DisciplinedFrom(s: State, step: Step, rest: seq<Step>)
    requires Enabled(s, step) && Disciplined(s, step)
    requires IsRun(Next(s, step), rest) && DisciplinedRun(Next(s, step), rest)
    ensures IsRun(s, [step] + rest) && DisciplinedRun(s, [step] + rest)
    ensures After(s, [step] + rest) == After(Next(s, step), rest)
  {
    RunFrom(s, step, rest);
    assert ([step] + rest)[1..] == rest;
  }

  /** A wait for block b gets through while the worker of its last launch still runs. */
  predicate GetsThroughEarly(s: State, b: nat, k: nat, t: Task) {
    && s.caller == Waiting(b) && b < |s.blocks| && s.blocks[b].outstanding == k
    && Next(s, WaitSection).caller.Idle? && k < |s.workers| && s.workers[k] == Running(b, t)
  }

  /** Worker k runs the last launch of block b; worker o, of an earlier one, has posted or will. */
  predicate TwoOnOneBlock(s: State, b: nat, o: nat, k: nat, t: Task) {
    && s.caller.Idle? && b < |s.blocks| && s.blocks[b].outstanding == k
    && o < |s.workers| && k < |s.workers| && o != k && s.workers[k] == Running(b, t)
    && !s.workers[o].Created? && s.workers[o].block == b && s.workers[o].task.wait4me
    && (Returned(s.workers[o]) ==> !s.blocks[b].rWait)
  }

  /** The earlier function returns and posts, and a wait gets through. */
  lemma EarlierOnePosts(s: State, b: nat, o: nat, k: nat, t: Task) returns (steps: seq<Step>)
    requires TwoOnOneBlock(s, b, o, k, t)
    ensures IsRun(s, steps) && DisciplinedRun(s, steps) && GetsThroughEarly(After(s, steps), b, k, t)
    decreases StepsLeft(s.workers[o])
  {
    match s.workers[o]
    case Running(_, _) =>
      var rest := EarlierOnePosts(Next(s, FunctionReturns(o)), b, o, k, t);
      DisciplinedFrom(s, FunctionReturns(o), rest);
      steps := [FunctionReturns(o)] + rest;
    case Posting(_, _) =>
      var rest := EarlierOnePosts(Next(s, Post(o)), b, o, k, t);
      DisciplinedFrom(s, Post(o), rest);
      steps := [Post(o)] + rest;
    case _ =>
      steps := [CallWait(b)] + [];
      DisciplinedFrom(s, CallWait(b), []);
  }

  /** A launch with wait4me on a block whose last launch was not waited for. */
  lemma SecondLaunch(s: State, b: nat, t: Task) returns (steps: seq<Step>)
    requires Inv(s) && WaitInv(s) && Enabled(s, CallLaunch(b, t)) && !Disciplined(s, CallLaunch(b, t))
    ensures IsRun(Next(s, CallLaunch(b, t)), steps) && DisciplinedRun(Next(s, CallLaunch(b, t)), steps)
    ensures GetsThroughEarly(After(Next(s, CallLaunch(b, t)), steps), b, |s.workers|, t)
  {
    var k, o := |s.workers|, s.blocks[b].outstanding;
    assert FlagIsExact(s, b) && OwnArguments(s, o);
    var s1 := Next(s, CallLaunch(b, t));
    var s2 := Next(s1, Prolog(k));
    var s3 := Next(s2, LaunchSection);
    var rest := EarlierOnePosts(s3, b, o, k, t);
    DisciplinedFrom(s2, LaunchSection, rest);
    DisciplinedFrom(s1, Prolog(k), [LaunchSection] + rest);
    steps := [Prolog(k)] + ([LaunchSection] + rest);
  }

  /**
   * After a launch, every further disciplined use lets a wait through only when the
   * function of its block's last launch has returned, if and only if the launch was
   * without wait4me or on a block without an unwaited launch.
   */
  lemma LaunchKeepsWaitExactlyIf(s: State, b: nat, t: Task)
    requires Inv(s) && WaitInv(s) && Enabled(s, CallLaunch(b, t))
    ensures StaysInTime(Next(s, CallLaunch(b, t))) <==> !t.wait4me || s.blocks[b].outstanding == -1
  {
    if Disciplined(s, CallLaunch(b, t)) {
      StepInv(s, CallLaunch(b, t));
      StepWaitInv(s, CallLaunch(b, t));
      DisciplinedStaysInTime(Next(s, CallLaunch(b, t)));
    } else {
      var steps := SecondLaunch(s, b, t);
    }
  }

  // ----- a wait

  /** The caller waits for a block to which no worker will post. */
  ghost predicate WaitsForNobody(s: State, b: nat) {
    && Inv(s) && b < |s.blocks| && s.blocks[b].rWait
    && (s.caller == Waiting(b) || s.caller == WaitAsleep(b))
    && forall w :: 0 <= w < |s.workers| && s.launched[w].block == b && s.launched[w].task.wait4me ==> Returned(s.workers[w])
  }

  lemma StillForNobody(s: State, b: nat, step: Step)
    requires WaitsForNobody(s, b) && Enabled(s, step)
    ensures WaitsForNobody(Next(s, step), b)
  {
    StepInv(s, step);
    if step.Prolog? || step.FunctionReturns? || step.Post? || step.Epilog? { assert OwnArguments(s, step.w); }
  }

  lemma {:induction false} ForNobodyForEver(s: State, b: nat, steps: seq<Step>)
    requires WaitsForNobody(s, b) && IsRun(s, steps)
    ensures WaitsForNobody(After(s, steps), b)
    decreases |steps|
  {
    if steps != [] {
      StillForNobody(s, b, steps[0]);
      ForNobodyForEver(Next(s, steps[0]), b, steps[1..]);
    }
  }

  /** From a state of disciplined calls, some steps without new calls get the caller back. */
  lemma ReturningRun(s: State) returns (steps: seq<Step>)
    requires Inv(s) && WaitInv(s)
    ensures IsRun(s, steps) && BetweenCalls(After(s, steps))
    decreases Measure(s)
  {
    if BetweenCalls(s) {
      steps := [];
    } else {
      NeverStuck(s);
      var step :| Quiet(step) && Enabled(s, step);
      StepInv(s, step);
      StepWaitInv(s, step);
      MeasureStep(s, step);
      var rest := ReturningRun(Next(s, step));
      RunFrom(s, step, rest);
      steps := [step] + rest;
    }
  }

  /** Some run gets the caller back from its call. */
  ghost predicate CanReturn(s: State) {
    exists steps :: IsRun(s, steps) && BetweenCalls(After(s, steps))
  }

  /** A call of wait can return if and only if its block has an unwaited launch; otherwise it blocks for ever. */
  lemma WaitCanReturnExactlyIf(s: State, b: nat)
    requires Inv(s) && WaitInv(s) && Enabled(s, CallWait(b))
    ensures CanReturn(Next(s, CallWait(b))) <==> s.blocks[b].outstanding != -1
  {
    var n := Next(s, CallWait(b));
    StepInv(s, CallWait(b));
    if s.blocks[b].outstanding != -1 {
      StepWaitInv(s, CallWait(b));
      var steps := ReturningRun(n);
    } else {
      assert FlagIsExact(s, b);
      forall w | 0 <= w < |s.workers| && s.launched[w].block == b && s.launched[w].task.wait4me
        ensures Returned(s.workers[w])
      {
        assert PostsForItsBlock(s, w);
      }
      forall steps | IsRun(n, steps) ensures !BetweenCalls(After(n, steps)) {
        ForNobodyForEver(n, b, steps);
      }
    }
  }
}
