/** What holds in every reachable state of the worker pool, and how calls end. */
module PoolTheorems {
  import opened WorkerPool
  import opened PoolInvariant

  // ----- Runs -----

  lemma StepKeepsSize(s: Pool, a: Action)
    requires Enabled(s, a)
    ensures Next(s, a).poolSize == s.poolSize
  {
  }

  /** The invariant holds after every run from a fresh pool of any positive size. */
  lemma {:induction false} RunKeepsInv(s: Pool, actions: seq<Action>)
    requires Inv(s) && IsRun(s, actions)
    ensures Inv(After(s, actions)) && After(s, actions).poolSize == s.poolSize
    decreases |actions|
  {
    if actions != [] {
      StepKeepsInv(s, actions[0]);
      StepKeepsSize(s, actions[0]);
      RunKeepsInv(Next(s, actions[0]), actions[1..]);
    }
  }

  lemma {:induction false} RunConcat(s: Pool, xs: seq<Action>, ys: seq<Action>)
    requires IsRun(s, xs) && IsRun(After(s, xs), ys)
    ensures IsRun(s, xs + ys) && After(s, xs + ys) == After(After(s, xs), ys)
    decreases |xs|
  {
    if xs == [] {
      assert xs + ys == ys;
    } else {
      assert (xs + ys)[1..] == xs[1..] + ys;
      RunConcat(Next(s, xs[0]), xs[1..], ys);
    }
  }

  lemma ExtendRun(s: Pool, xs: seq<Action>, t: Pool, a: Action) returns (more: seq<Action>)
    requires IsRun(s, xs) && After(s, xs) == t && Enabled(t, a)
    ensures more == xs + [a] && IsRun(s, more) && After(s, more) == Next(t, a)
  {
    more := xs + [a];
    assert [a][1..] == [];
    RunConcat(s, xs, [a]);
  }

  // ----- Reachable states -----

  /** In every reachable state the running counter is the number of workers between their
      increment and decrement, whatever run() has thrown; the exited counter is the number
      of exited workers unless the previous generation's total has not been reset yet, and
      then no worker has exited.  No worker leaves its loop while the mode is RUNNING. */
  lemma ReachableCounters(poolSize: nat, actions: seq<Action>)
    requires poolSize > 0 && IsRun(Initial(poolSize), actions)
    ensures var s := After(Initial(poolSize), actions);
      && s.running == Sum(s.workers, Counted)
      && 0 <= s.running <= |s.workers| <= poolSize
      && (s.workers != [] && !InStartWindow(s.controller) ==> s.exited == Sum(s.workers, CountedExited))
      && (s.exited != Sum(s.workers, CountedExited) ==>
            s.exited == poolSize && forall i :: 0 <= i < |s.workers| ==> !Leaving(s.workers[i]))
      && (s.mode == RUNNING ==> forall i :: 0 <= i < |s.workers| ==> !Leaving(s.workers[i]))
  {
    InitialInv(poolSize);
    RunKeepsInv(Initial(poolSize), actions);
    SumLimits(After(Initial(poolSize), actions));
  }

  /** The step that completes a start leaves all `poolSize` workers counted as running, each
      of them inside run() or waiting to take the mutex on its way out. */
  lemma StartReturnsWithAllRunning(s: Pool)
    requires Inv(s) && s.controller == Unlock(Start)
    ensures var t := ControllerNext(s);
      && t.controller == Idle && t.returned == s.returned + [Start]
      && t.running == t.poolSize == |t.workers| && t.exited == 0
      && forall i :: 0 <= i < |t.workers| ==> t.workers[i] in {Running, LeaveLock}
  {
    SumLimits(s);
    assert PoolShape(s);
    assert forall i :: 0 <= i < |s.workers| ==> !WorkerHolds(s.workers[i]) && Counted(s.workers[i]) == 1;
    assert forall i :: 0 <= i < |s.workers| ==> CountedExited(s.workers[i]) == 0;
  }

  /** A controller asleep at a barrier is woken by the very step that makes the barrier's
      predicate true, so no wake-up is lost. */
  lemma NoWakeupIsLost(s: Pool, a: Action)
    requires Inv(s) && Enabled(s, a)
    ensures var t := Next(s, a);
      && (s.controller == StartWait && t.running == |t.workers| ==> t.controller == StartWoken)
      && (s.controller == StopWait && t.exited == |t.workers| ==> t.controller == StopWoken)
  {
    StepKeepsInv(s, a);
    assert Barriers(Next(s, a));
  }

  /** A controller woken by the other barrier's notification, or by nobody, gets past a
      barrier only if that barrier's own predicate holds. */
  lemma BarriersHoldBack(s: Pool, a: Action)
    requires PoolShape(s) && Enabled(s, a)
    ensures var t := Next(s, a);
      && (s.controller != ResetExited && t.controller == ResetExited ==>
            s.running == |s.workers| == s.poolSize && t.running == t.poolSize)
      && (!s.controller.Join? && t.controller.Join? ==> s.exited == |s.workers|)
  {
    if a.WorkerStep? {
      WorkerStepFrame(s, a.index);
    }
  }

  /** While the controller joins, holding the mutex, every worker has returned from
      `threadLoop`: no join waits for a worker that needs the mutex, and every worker that
      is dropped from the pool has been joined. */
  lemma JoiningIsSafe(poolSize: nat, actions: seq<Action>)
    requires poolSize > 0 && IsRun(Initial(poolSize), actions)
    ensures var s := After(Initial(poolSize), actions);
      s.controller.Join? || s.controller == Clear ==>
        && s.owner == Controller && ControllerEnabled(s)
        && (forall i :: 0 <= i < |s.workers| ==> s.workers[i] == Exited)
        && (forall i :: !WorkerEnabled(s, i))
        && (s.controller == Clear ==> forall i :: 0 <= i < |s.workers| ==> i in s.joined)
  {
    InitialInv(poolSize);
    RunKeepsInv(Initial(poolSize), actions);
  }

  // ----- Termination of calls -----

  /** A stop that follows a completed stop, with a start before that. */
  predicate Doomed(s: Pool) {
    && PhaseAfter(s.returned) == Stopped
    && (s.controller == CallLock(Stop) || s.controller == CallMode(Stop) || InStopWindow(s.controller))
  }

  function ControllerRank(s: Pool): nat {
    var n := |s.workers|;
    match s.controller
    case Idle => 0
    case Unlock(_) => 1
    case Clear => 2
    case Join(k) => 3 + (if k <= n then n - k else 0)
    case StopWait => 4 + n
    case StopCheck => 5 + n
    case StopWoken => 6 + n
    case StopIo => 7 + n
    case CallMode(Stop) => 8 + 34 * n
    case CallLock(Stop) => 9 + 34 * n
    case ResetExited => 2
    case StartWait => 3
    case StartCheck => 4
    case StartWoken => 5
    case Spawn => 6
    case Restart => 7
    case CallMode(Start) => 8 + (if s.mode == STOPPED then 13 * s.poolSize else 0)
    case CallLock(Start) => 9 + (if s.mode == STOPPED then 13 * s.poolSize else 0)
  }

  /** The ranks of the workers, weighted so that a notification costs less than the step
      that sends it, plus the controller's own distance to the end of the call. */
  function Measure(s: Pool): nat {
    ControllerRank(s) +
    if s.mode == STOPPED then 3 * Sum(s.workers, StopRank)
    else 3 * Sum(s.workers, StartRank) + 13 * (if |s.workers| <= s.poolSize then s.poolSize - |s.workers| else 0)
  }

  lemma StopRankStep(s: Pool, i: nat)
    requires WorkerEnabled(s, i) && s.mode == STOPPED
    ensures StopRank(WorkerNext(s, i).workers[i]) < StopRank(s.workers[i])
  {
  }

  lemma StartRankStep(s: Pool, i: nat)
    requires WorkerEnabled(s, i) && s.mode == RUNNING && !s.ioStopped && !Leaving(s.workers[i])
    ensures StartRank(WorkerNext(s, i).workers[i]) < StartRank(s.workers[i])
  {
  }

  /** Every step of a worker in a stopped pool lowers the sum of the ranks, also an exception
      out of run(), and also for a worker that read RUNNING just before the mode changed. */
  lemma StoppedWorkersRunDown(s: Pool, a: Action)
    requires (a.WorkerStep? || a.RunThrows?) && Enabled(s, a) && s.mode == STOPPED
    ensures Sum(Next(s, a).workers, StopRank) < Sum(s.workers, StopRank)
  {
    match a
    case WorkerStep(i) =>
      StopRankStep(s, i);
      WorkerStepDeltas(s, i);
      SumUpdate(s.workers, i, WorkerNext(s, i).workers[i], StopRank);
    case RunThrows(i) =>
      SumUpdate(s.workers, i, LeaveLock, StopRank);
  }

  lemma StartingWorkersRunDown(s: Pool, i: nat)
    requires WorkerEnabled(s, i) && s.mode == RUNNING && !s.ioStopped && !Leaving(s.workers[i])
    ensures Sum(WorkerNext(s, i).workers, StartRank) < Sum(s.workers, StartRank)
  {
    StartRankStep(s, i);
    WorkerStepDeltas(s, i);
    SumUpdate(s.workers, i, WorkerNext(s, i).workers[i], StartRank);
  }

  lemma WorkerStepMeasure(s: Pool, i: nat)
    requires Inv(s) && s.controller != Idle && WorkerEnabled(s, i)
    ensures Measure(WorkerNext(s, i)) < Measure(s)
  {
    var t := WorkerNext(s, i);
    WorkerStepDeltas(s, i);
    assert ControllerRank(t) <= ControllerRank(s) + 2;
    if s.mode == STOPPED {
      StoppedWorkersRunDown(s, WorkerStep(i));
    } else {
      StartingWorkersRunDown(s, i);
    }
  }

  lemma ControllerStepMeasure(s: Pool)
    requires Inv(s) && s.controller != Idle && ControllerEnabled(s)
    ensures Measure(ControllerNext(s)) < Measure(s)
  {
    if s.controller == Spawn {
      SumAppend(s.workers, Polling, StartRank);
    } else if s.controller == CallMode(Stop) {
      StopModeMeasure(s);
    }
  }

  /** Writing STOPPED re-ranks the workers, which the rank of the controller has allowed for. */
  lemma StopModeMeasure(s: Pool)
    requires Inv(s) && s.controller == CallMode(Stop)
    ensures Measure(ControllerNext(s)) < Measure(s)
  {
    SumBound(s.workers, StopRank, 11);
  }

  /** Every normal step inside a call brings the call nearer to its end. */
  lemma NormalStepLowersMeasure(s: Pool, a: Action)
    requires Inv(s) && s.controller != Idle && Normal(a) && Enabled(s, a)
    ensures Measure(Next(s, a)) < Measure(s)
  {
    match a
    case WorkerStep(i) => WorkerStepMeasure(s, i);
    case ControllerStep => ControllerStepMeasure(s);
  }

  /** How far an action can set a call back: an exception out of run() while the mode is
      RUNNING sends a worker once more round its loop, and a spurious wake-up the controller
      once more to its predicate. */
  function Delay(s: Pool, a: Action): nat {
    if a.RunThrows? && s.mode == RUNNING then 22 else if a.SpuriousWakeup? then 3 else 0
  }

  lemma ThrowMeasure(s: Pool, i: nat)
    requires Enabled(s, RunThrows(i))
    ensures Measure(Next(s, RunThrows(i))) < Measure(s) + Delay(s, RunThrows(i))
  {
    var t := Next(s, RunThrows(i));
    assert |t.workers| == |s.workers| && ControllerRank(t) == ControllerRank(s);
    SumUpdate(s.workers, i, LeaveLock, StopRank);
    SumUpdate(s.workers, i, LeaveLock, StartRank);
  }

  /** Every action inside a call, normal or not, brings the call nearer to its end, but for its
      delay.  In a stopped pool an exception out of run() brings it nearer too. */
  lemma StepNearsEnd(s: Pool, a: Action)
    requires Inv(s) && s.controller != Idle && Enabled(s, a)
    ensures Measure(Next(s, a)) < Measure(s) + Delay(s, a)
  {
    match a
    case RunThrows(i) => ThrowMeasure(s, i);
    case SpuriousWakeup =>
    case _ => NormalStepLowersMeasure(s, a);
  }

  /** A call that is not doomed can always take a normal step: no deadlock. */
  lemma SomeStepEnabled(s: Pool) returns (a: Action)
    requires Inv(s) && s.controller != Idle && !Doomed(s)
    ensures Normal(a) && Enabled(s, a)
  {
    SumLimits(s);
    if ControllerEnabled(s) {
      a := ControllerStep;
    } else if s.owner.Worker? {
      a := WorkerStep(s.owner.index);
    } else if s.controller == StartWait {
      var i :| 0 <= i < |s.workers| && Counted(s.workers[i]) != 1;
      a := WorkerStep(i);
    } else {
      assert s.controller == StopWait;
      assert s.workers != [];
      var i :| 0 <= i < |s.workers| && CountedExited(s.workers[i]) != 1;
      a := WorkerStep(i);
    }
  }

  predicate AllNormal(actions: seq<Action>) {
    forall a :: a in actions ==> Normal(a)
  }

  /** The controller stays inside its call during the run. */
  predicate InsideCall(s: Pool, actions: seq<Action>)
    requires IsRun(s, actions)
    decreases |actions|
  {
    actions == [] || (s.controller != Idle && InsideCall(Next(s, actions[0]), actions[1..]))
  }

  /** The exceptions out of run() that find the mode RUNNING. */
  function ThrowsWhileRunning(s: Pool, actions: seq<Action>): nat
    requires IsRun(s, actions)
    decreases |actions|
  {
    if actions == [] then 0
    else (if actions[0].RunThrows? && s.mode == RUNNING then 1 else 0) + ThrowsWhileRunning(Next(s, actions[0]), actions[1..])
  }

  function SpuriousWakeups(actions: seq<Action>): nat {
    if actions == [] then 0
    else (if actions[0].SpuriousWakeup? then 1 else 0) + SpuriousWakeups(actions[1..])
  }

  /** No schedule at all keeps a call going for longer than its measure, but for the delays
      that exceptions in mode RUNNING and spurious wake-ups cause. */
  lemma {:induction false} CallsAreBounded(s: Pool, actions: seq<Action>)
    requires Inv(s) && IsRun(s, actions) && InsideCall(s, actions)
    ensures |actions| <= Measure(s) + 22 * ThrowsWhileRunning(s, actions) + 3 * SpuriousWakeups(actions)
    decreases |actions|
  {
    if actions != [] {
      var t := Next(s, actions[0]);
      StepNearsEnd(s, actions[0]);
      StepKeepsInv(s, actions[0]);
      CallsAreBounded(t, actions[1..]);
    }
  }

  function WorkerAt(s: Pool, i: nat, pc: WorkerPc, owner: Owner, running: int): Pool
    requires i < |s.workers|
  {
    s.(workers := s.workers[i := pc], owner := owner, running := running)
  }

  lemma RoundSteps(s: Pool, i: nat)
    requires s.controller == StartWoken && s.mode == RUNNING && i < |s.workers|
    ensures var n := s.running;
      && WorkerNext(WorkerAt(s, i, LeaveLock, Free, n), i) == WorkerAt(s, i, LeaveBody, Worker(i), n)
      && WorkerNext(WorkerAt(s, i, LeaveBody, Worker(i), n), i) == WorkerAt(s, i, LeaveUnlock, Worker(i), n - 1)
      && WorkerNext(WorkerAt(s, i, LeaveUnlock, Worker(i), n - 1), i) == WorkerAt(s, i, Polling, Free, n - 1)
      && WorkerNext(WorkerAt(s, i, Polling, Free, n - 1), i) == WorkerAt(s, i, EnterLock, Free, n - 1)
      && WorkerNext(WorkerAt(s, i, EnterLock, Free, n - 1), i) == WorkerAt(s, i, EnterBody, Worker(i), n - 1)
      && WorkerNext(WorkerAt(s, i, EnterBody, Worker(i), n - 1), i) == WorkerAt(s, i, EnterUnlock, Worker(i), n)
      && WorkerNext(WorkerAt(s, i, EnterUnlock, Worker(i), n), i) == WorkerAt(s, i, Running, Free, n)
  {
  }

  /** The delays are real: a worker whose run() throws can go round its loop and back to the very
      same state before the woken controller takes the mutex, so without a bound on the
      exceptions a start can be held off for ever. */
  lemma ThrowsCanHoldOffStart(s: Pool, i: nat) returns (actions: seq<Action>)
    requires Inv(s) && s.controller == StartWoken && s.owner == Free
    requires i < |s.workers| && s.workers[i] == Running
    ensures actions != [] && IsRun(s, actions) && After(s, actions) == s
  {
    var n, step := s.running, WorkerStep(i);
    RoundSteps(s, i);
    assert WorkerAt(s, i, Running, Free, n) == s;
    actions := ExtendRun(s, [], s, RunThrows(i));
    actions := ExtendRun(s, actions, WorkerAt(s, i, LeaveLock, Free, n), step);
    actions := ExtendRun(s, actions, WorkerAt(s, i, LeaveBody, Worker(i), n), step);
    actions := ExtendRun(s, actions, WorkerAt(s, i, LeaveUnlock, Worker(i), n - 1), step);
    actions := ExtendRun(s, actions, WorkerAt(s, i, Polling, Free, n - 1), step);
    actions := ExtendRun(s, actions, WorkerAt(s, i, EnterLock, Free, n - 1), step);
    actions := ExtendRun(s, actions, WorkerAt(s, i, EnterBody, Worker(i), n - 1), step);
    actions := ExtendRun(s, actions, WorkerAt(s, i, EnterUnlock, Worker(i), n), step);
  }

  /** Which call the controller is in. */
  function CurrentCall(pc: ControllerPc): Call
    requires pc != Idle
  {
    match pc
    case CallLock(c) => c
    case CallMode(c) => c
    case Unlock(c) => c
    case Restart | Spawn | StartCheck | StartWait | StartWoken | ResetExited => Start
    case _ => Stop
  }

  /** A step towards the end of call `c`: it either returns from it or stays inside it. */
  predicate Towards(c: Call, s: Pool, t: Pool) {
    if t.controller == Idle then t.returned == s.returned + [c]
    else t.returned == s.returned && CurrentCall(t.controller) == c && (Doomed(t) ==> Doomed(s))
  }

  lemma WorkerStepInCall(s: Pool, i: nat)
    requires s.controller != Idle && WorkerEnabled(s, i)
    ensures Towards(CurrentCall(s.controller), s, WorkerNext(s, i))
  {
  }

  lemma ControllerStepInCall(s: Pool)
    requires s.controller != Idle && ControllerEnabled(s)
    ensures Towards(CurrentCall(s.controller), s, ControllerNext(s))
  {
  }

  lemma StepInCall(s: Pool, a: Action)
    requires s.controller != Idle && Enabled(s, a)
    ensures Towards(CurrentCall(s.controller), s, Next(s, a))
  {
    match a
    case WorkerStep(i) => WorkerStepInCall(s, i);
    case ControllerStep => ControllerStepInCall(s);
    case _ =>
  }

  lemma RunOne(s: Pool, a: Action, rest: seq<Action>)
    requires s.controller != Idle && Enabled(s, a) && Normal(a)
    requires IsRun(Next(s, a), rest) && AllNormal(rest) && InsideCall(Next(s, a), rest)
    ensures IsRun(s, [a] + rest) && After(s, [a] + rest) == After(Next(s, a), rest)
    ensures AllNormal([a] + rest) && InsideCall(s, [a] + rest)
  {
    assert ([a] + rest)[1..] == rest;
  }

  /** A call that is not doomed returns: from any state inside it there is a run of normal
      steps to its return, and by CallsAreBounded every schedule of them ends. */
  lemma {:induction false} CallReturns(s: Pool) returns (actions: seq<Action>)
    requires Inv(s) && s.controller != Idle && !Doomed(s)
    ensures IsRun(s, actions) && AllNormal(actions) && InsideCall(s, actions)
    ensures var t := After(s, actions);
      t.controller == Idle && t.returned == s.returned + [CurrentCall(s.controller)]
    decreases Measure(s)
  {
    var a := SomeStepEnabled(s);
    var t := Next(s, a);
    NormalStepLowersMeasure(s, a);
    StepInCall(s, a);
    StepKeepsInv(s, a);
    var rest := [];
    if t.controller != Idle {
      rest := CallReturns(t);
    }
    actions := [a] + rest;
    RunOne(s, a, rest);
  }

  lemma DoomedStep(s: Pool, a: Action)
    requires Inv(s) && Doomed(s) && Enabled(s, a)
    ensures Doomed(Next(s, a)) && Next(s, a).returned == s.returned
  {
  }

  /** A doomed stop never returns, whatever the threads do. */
  lemma {:induction false} DoomedForever(s: Pool, actions: seq<Action>)
    requires Inv(s) && Doomed(s) && IsRun(s, actions)
    ensures Doomed(After(s, actions)) && After(s, actions).returned == s.returned
    decreases |actions|
  {
    if actions != [] {
      StepKeepsInv(s, actions[0]);
      DoomedStep(s, actions[0]);
      DoomedForever(Next(s, actions[0]), actions[1..]);
    }
  }

  /** How far a call begun in `start` has come after the run `trace`. */
  predicate Progressing(start: Pool, call: Call, trace: seq<Action>, s: Pool) {
    && Inv(s) && IsRun(start, trace) && After(start, trace) == s
    && if s.controller == Idle then s.returned == start.returned + [call]
       else s.returned == start.returned && CurrentCall(s.controller) == call && !Doomed(s)
  }

  lemma ProgressStep(start: Pool, call: Call, trace: seq<Action>, s: Pool, a: Action)
    requires Progressing(start, call, trace, s) && s.controller != Idle && Enabled(s, a)
    ensures Progressing(start, call, trace + [a], Next(s, a)) && Measure(Next(s, a)) < Measure(s) + Delay(s, a)
  {
    StepNearsEnd(s, a);
    StepInCall(s, a);
    StepKeepsInv(s, a);
    var more := ExtendRun(start, trace, s, a);
  }

  // ----- Sequences of calls -----

  /** No stop directly follows a stop once there has been a start. */
  predicate Returnable(calls: seq<Call>) {
    forall k {:trigger calls[k]} :: 0 < k < |calls| && calls[k] == Stop && calls[k - 1] == Stop ==> Start !in calls[..k]
  }

  /** Two calls in a row are never the same. */
  predicate Alternating(calls: seq<Call>) {
    forall k {:trigger calls[k]} :: 0 < k < |calls| ==> calls[k] != calls[k - 1]
  }

  lemma {:induction false} PhaseMeaning(calls: seq<Call>)
    ensures PhaseAfter(calls) == Fresh <==> Start !in calls
    ensures PhaseAfter(calls) == Stopped <==> Start in calls && calls[|calls| - 1] == Stop
  {
    if calls != [] {
      var front, last := calls[..|calls| - 1], calls[|calls| - 1];
      PhaseMeaning(front);
      assert calls == front + [last];
    }
  }

  lemma ReturnableExtend(calls: seq<Call>, c: Call)
    ensures Returnable(calls + [c]) <==> Returnable(calls) && !(PhaseAfter(calls) == Stopped && c == Stop)
  {
    PhaseMeaning(calls);
    var all := calls + [c];
    assert forall k :: 0 <= k < |calls| ==> all[k] == calls[k] && all[..k] == calls[..k];
    assert all[..|calls|] == calls;
    assert all[|calls|] == c;
    if Returnable(all) && calls != [] && c == Stop && calls[|calls| - 1] == Stop {
      assert Start !in all[..|calls|];
    }
    if Returnable(all) {
      forall k | 0 < k < |calls| && calls[k] == Stop && calls[k - 1] == Stop
        ensures Start !in calls[..k]
      {
        assert all[k] == Stop;
      }
    }
  }

  /** A step leaves the returned calls alone unless it ends a call. */
  lemma StepReturns(s: Pool, a: Action)
    requires Enabled(s, a)
    ensures Next(s, a).returned ==
      if a == ControllerStep && s.controller.Unlock? then s.returned + [s.controller.call] else s.returned
  {
  }

  lemma StepReturnsReturnable(s: Pool, a: Action)
    requires PoolShape(s) && Enabled(s, a) && Returnable(s.returned)
    ensures Returnable(Next(s, a).returned)
  {
    StepReturns(s, a);
    if a == ControllerStep && s.controller.Unlock? {
      ReturnableExtend(s.returned, s.controller.call);
    }
  }

  /** The calls that have returned always form a returnable sequence. */
  lemma {:induction false} ReturnedIsReturnable(s: Pool, actions: seq<Action>)
    requires Inv(s) && IsRun(s, actions) && Returnable(s.returned)
    ensures Returnable(After(s, actions).returned)
    decreases |actions|
  {
    if actions != [] {
      var t := Next(s, actions[0]);
      StepKeepsInv(s, actions[0]);
      StepReturnsReturnable(s, actions[0]);
      ReturnedIsReturnable(t, actions[1..]);
    }
  }

  /** A run from a fresh pool, run() throwing or not, in which exactly the calls return. */
  predicate Returns(poolSize: nat, calls: seq<Call>, actions: seq<Action>) {
    && IsRun(Initial(poolSize), actions)
    && After(Initial(poolSize), actions).controller == Idle
    && After(Initial(poolSize), actions).returned == calls
  }

  /** Such a run of normal steps and invocations only. */
  predicate Performs(poolSize: nat, calls: seq<Call>, actions: seq<Action>) {
    && Returns(poolSize, calls, actions)
    && (forall a :: a in actions ==> Normal(a) || a.Invoke?)
  }

  /** One more call from an idle pool. */
  lemma PerformOne(s: Pool, call: Call) returns (actions: seq<Action>)
    requires Inv(s) && s.controller == Idle && !(PhaseAfter(s.returned) == Stopped && call == Stop)
    ensures IsRun(s, actions) && forall a :: a in actions ==> Normal(a) || a.Invoke?
    ensures After(s, actions).controller == Idle && After(s, actions).returned == s.returned + [call]
  {
    StepKeepsInv(s, Invoke(call));
    var rest := CallReturns(Next(s, Invoke(call)));
    actions := [Invoke(call)] + rest;
    assert actions[1..] == rest;
  }

  lemma {:induction false} PerformCalls(poolSize: nat, calls: seq<Call>) returns (actions: seq<Action>)
    requires poolSize > 0 && Returnable(calls)
    ensures Performs(poolSize, calls, actions)
  {
    var s := Initial(poolSize);
    if calls == [] {
      actions := [];
    } else {
      var front, last := calls[..|calls| - 1], calls[|calls| - 1];
      assert calls == front + [last];
      ReturnableExtend(front, last);
      var before := PerformCalls(poolSize, front);
      InitialInv(poolSize);
      RunKeepsInv(s, before);
      var call := PerformOne(After(s, before), last);
      RunConcat(s, before, call);
      actions := before + call;
    }
  }

  /** Exactly the returnable call sequences can return in full. */
  lemma CallSequencesThatReturn(poolSize: nat, calls: seq<Call>)
    requires poolSize > 0
    ensures Returnable(calls) <==> exists actions :: Returns(poolSize, calls, actions)
  {
    if Returnable(calls) {
      var actions := PerformCalls(poolSize, calls);
      assert Returns(poolSize, calls, actions);
    }
    forall actions | Returns(poolSize, calls, actions)
      ensures Returnable(calls)
    {
      InitialInv(poolSize);
      ReturnedIsReturnable(Initial(poolSize), actions);
    }
  }

  /** Any alternating sequence of starts and stops, beginning with either, returns in full. */
  lemma AlternatingCallsReturn(poolSize: nat, calls: seq<Call>) returns (actions: seq<Action>)
    requires poolSize > 0 && Alternating(calls)
    ensures Performs(poolSize, calls, actions)
  {
    actions := PerformCalls(poolSize, calls);
  }

  /** After a start and a stop have returned, the stop of the destructor never returns. */
  lemma StopThenDestructorHangs(poolSize: nat, before: seq<Action>, actions: seq<Action>)
    requires poolSize > 0 && IsRun(Initial(poolSize), before)
    requires After(Initial(poolSize), before).controller == CallLock(Stop)
    requires After(Initial(poolSize), before).returned == [Start, Stop]
    requires IsRun(After(Initial(poolSize), before), actions)
    ensures After(After(Initial(poolSize), before), actions).returned == [Start, Stop]
    ensures After(After(Initial(poolSize), before), actions).controller != Idle
  {
    var s := After(Initial(poolSize), before);
    InitialInv(poolSize);
    RunKeepsInv(Initial(poolSize), before);
    PhaseMeaning(s.returned);
    DoomedForever(s, actions);
  }
}
