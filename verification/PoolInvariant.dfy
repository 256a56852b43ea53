/** The inductive invariant of the worker pool and what it says at the two barriers. */
module PoolInvariant {
  import opened WorkerPool

  // ----- The call history -----

  /** What the pool looks like between calls: never started, running, or stopped after
      having been started. */
  datatype Phase = Fresh | Started | Stopped

  function Advance(p: Phase, c: Call): Phase {
    match c
    case Start => Started
    case Stop => if p == Started then Stopped else p
  }

  function PhaseAfter(calls: seq<Call>): Phase {
    if calls == [] then Fresh else Advance(PhaseAfter(calls[..|calls| - 1]), calls[|calls| - 1])
  }

  predicate Matches(p: Phase, s: Pool) {
    match p
    case Fresh => s.workers == [] && s.exited == 0
    case Started => |s.workers| == s.poolSize
    case Stopped => s.workers == [] && s.exited == s.poolSize
  }

  // ----- Regions of the program -----

  predicate WorkerHolds(pc: WorkerPc) {
    pc in {EnterBody, EnterUnlock, LeaveBody, LeaveUnlock, ExitBody, ExitUnlock}
  }

  /** Past the loop of `threadLoop`. */
  predicate Leaving(pc: WorkerPc) {
    pc in {ExitLock, ExitBody, ExitUnlock, Exited}
  }

  predicate ControllerHolds(pc: ControllerPc) {
    match pc
    case Idle | CallLock(_) | StartWait | StartWoken | StopWait | StopWoken => false
    case _ => true
  }

  /** The mode has not been written yet by the current call, if there is one. */
  predicate BeforeMode(pc: ControllerPc) {
    pc.Idle? || pc.CallLock? || pc.CallMode?
  }

  /** From the write of RUNNING to the reset of the exited counter. */
  predicate InStartWindow(pc: ControllerPc) {
    pc in {Restart, Spawn, StartCheck, StartWait, StartWoken, ResetExited}
  }

  /** From the write of STOPPED to the clearing of the pool. */
  predicate InStopWindow(pc: ControllerPc) {
    pc in {StopIo, StopCheck, StopWait, StopWoken, Clear} || pc.Join?
  }

  // ----- The invariant -----

  /** At most one thread holds the mutex, and it is the one whose program counter says so. */
  predicate Ownership(s: Pool) {
    && (s.owner == Controller <==> ControllerHolds(s.controller))
    && (s.owner.Worker? ==> s.owner.index < |s.workers| && WorkerHolds(s.workers[s.owner.index]))
    && forall i :: 0 <= i < |s.workers| && WorkerHolds(s.workers[i]) ==> s.owner == Worker(i)
  }

  /** The running counter is exact; the exited counter is exact, except that it still
      holds the previous generation's total from the clearing of the pool to the reset
      in the next start. */
  predicate Counters(s: Pool) {
    && s.running == Sum(s.workers, Counted)
    && var c := Sum(s.workers, CountedExited);
       s.exited == c ||
       (s.exited == s.poolSize && c == 0 && (s.workers == [] || InStartWindow(s.controller)))
  }

  predicate ModeAndIo(s: Pool) {
    && (InStartWindow(s.controller) ==> s.mode == RUNNING)
    && (InStopWindow(s.controller) ==> s.mode == STOPPED)
    && (BeforeMode(s.controller) ==> (s.mode == RUNNING <==> s.workers != []))
    && (s.controller == Unlock(Start) ==> s.mode == RUNNING)
    && (s.controller == Unlock(Stop) ==> s.mode == STOPPED)
    && (s.mode == RUNNING && (s.controller != Restart || s.workers != []) ==> !s.ioStopped)
    && (s.mode == STOPPED && InStopWindow(s.controller) && s.controller != StopIo ==> s.ioStopped)
    && (s.mode == RUNNING ==> forall i :: 0 <= i < |s.workers| ==> !Leaving(s.workers[i]))
  }

  predicate PoolShape(s: Pool) {
    && |s.workers| <= s.poolSize
    && (BeforeMode(s.controller) || InStopWindow(s.controller) || s.controller == Restart
        ==> Matches(PhaseAfter(s.returned), s))
    && (s.controller in {StartCheck, StartWait, StartWoken, ResetExited} ==> |s.workers| == s.poolSize)
    && (s.controller.Join? || s.controller in {Clear, Unlock(Stop)} ==> PhaseAfter(s.returned) != Stopped)
    && (s.controller.Unlock? ==> Matches(Advance(PhaseAfter(s.returned), s.controller.call), s))
  }

  /** A sleeping controller's predicate is false; a controller past a barrier keeps what
      the barrier established. */
  predicate Barriers(s: Pool) {
    && (s.controller == StartWait ==> s.running != |s.workers|)
    && (s.controller == StopWait ==> s.exited != |s.workers|)
    && (s.controller == ResetExited || s.controller == Unlock(Start) ==> s.running == s.poolSize)
    && (s.controller.Join? || s.controller == Clear ==>
          forall i :: 0 <= i < |s.workers| ==> s.workers[i] == Exited)
  }

  /** The joins have been done in order, and all of them before the pool is cleared. */
  predicate Joins(s: Pool) {
    && (s.controller.Join? ==> forall i :: 0 <= i < s.controller.next && i < |s.workers| ==> i in s.joined)
    && (s.controller == Clear ==> forall i :: 0 <= i < |s.workers| ==> i in s.joined)
  }

  predicate Inv(s: Pool) {
    s.poolSize > 0 && Ownership(s) && Counters(s) && ModeAndIo(s) && PoolShape(s) && Barriers(s) && Joins(s)
  }

  lemma InitialInv(poolSize: nat)
    requires poolSize > 0
    ensures Inv(Initial(poolSize))
  {
  }

  // ----- Worker steps keep the invariant -----

  lemma MoveSums(s: Pool, i: nat, pc: WorkerPc)
    requires i < |s.workers|
    ensures Sum(MoveWorker(s, i, pc).workers, Counted) == Sum(s.workers, Counted) - Counted(s.workers[i]) + Counted(pc)
    ensures Sum(MoveWorker(s, i, pc).workers, CountedExited)
         == Sum(s.workers, CountedExited) - CountedExited(s.workers[i]) + CountedExited(pc)
  {
    SumUpdate(s.workers, i, pc, Counted);
    SumUpdate(s.workers, i, pc, CountedExited);
  }

  /** Sums of 0/1 weights against the number of workers. */
  lemma SumLimits(s: Pool)
    ensures Sum(s.workers, Counted) <= |s.workers|
    ensures Sum(s.workers, CountedExited) <= |s.workers|
    ensures Sum(s.workers, Counted) == |s.workers| <==> forall i :: 0 <= i < |s.workers| ==> Counted(s.workers[i]) == 1
    ensures Sum(s.workers, CountedExited) == |s.workers| <==> forall i :: 0 <= i < |s.workers| ==> CountedExited(s.workers[i]) == 1
    ensures Sum(s.workers, CountedExited) == 0 <==> forall i :: 0 <= i < |s.workers| ==> CountedExited(s.workers[i]) == 0
  {
    SumBound(s.workers, Counted, 1);
    SumBound(s.workers, CountedExited, 1);
    SumZero(s.workers, CountedExited);
  }

  lemma WorkerStepOwnership(s: Pool, i: nat)
    requires Ownership(s) && WorkerEnabled(s, i)
    ensures Ownership(WorkerNext(s, i))
  {
    var t := WorkerNext(s, i);
    assert forall j :: 0 <= j < |t.workers| && j != i ==> t.workers[j] == s.workers[j];
  }

  /** A step moves each counter exactly as it moves the worker's own weight. */
  lemma WorkerStepDeltas(s: Pool, i: nat)
    requires WorkerEnabled(s, i)
    ensures var t := WorkerNext(s, i);
            && |t.workers| == |s.workers|
            && t.workers == s.workers[i := t.workers[i]]
            && t.running - s.running == Counted(t.workers[i]) - Counted(s.workers[i])
            && t.exited - s.exited == CountedExited(t.workers[i]) - CountedExited(s.workers[i])
            && (t.exited != s.exited ==> Leaving(s.workers[i]))
            && t.poolSize == s.poolSize && t.mode == s.mode
            && (InStartWindow(t.controller) == InStartWindow(s.controller))
  {
  }

  lemma WorkerStepCounters(s: Pool, i: nat)
    requires Counters(s) && ModeAndIo(s) && WorkerEnabled(s, i)
    ensures Counters(WorkerNext(s, i))
  {
    WorkerStepDeltas(s, i);
    SumUpdate(s.workers, i, WorkerNext(s, i).workers[i], Counted);
    SumUpdate(s.workers, i, WorkerNext(s, i).workers[i], CountedExited);
  }

  lemma WorkerStepModeAndIo(s: Pool, i: nat)
    requires ModeAndIo(s) && WorkerEnabled(s, i)
    ensures ModeAndIo(WorkerNext(s, i))
  {
    var t := WorkerNext(s, i);
    assert forall j :: 0 <= j < |t.workers| && j != i ==> t.workers[j] == s.workers[j];
  }

  /** What no worker touches: the number of workers, the call history, and the controller,
      except for waking it. */
  predicate WorkerFrame(s: Pool, t: Pool) {
    && |t.workers| == |s.workers| && t.poolSize == s.poolSize && t.returned == s.returned && t.joined == s.joined
    && (t.controller == s.controller
        || (s.controller == StartWait && t.controller == StartWoken)
        || (s.controller == StopWait && t.controller == StopWoken))
  }

  lemma WorkerStepFrame(s: Pool, i: nat)
    requires WorkerEnabled(s, i)
    ensures WorkerFrame(s, WorkerNext(s, i))
  {
  }

  lemma FrameKeepsShape(s: Pool, t: Pool)
    requires PoolShape(s) && WorkerFrame(s, t) && s.workers != []
    ensures PoolShape(t)
  {
  }

  lemma WorkerStepShape(s: Pool, i: nat)
    requires PoolShape(s) && WorkerEnabled(s, i)
    ensures PoolShape(WorkerNext(s, i))
  {
    WorkerStepFrame(s, i);
    FrameKeepsShape(s, WorkerNext(s, i));
  }

  lemma WorkerStepBarriers(s: Pool, i: nat)
    requires Inv(s) && WorkerEnabled(s, i)
    ensures Barriers(WorkerNext(s, i))
  {
    SumLimits(s);
  }

  lemma WorkerStepJoins(s: Pool, i: nat)
    requires Joins(s) && WorkerEnabled(s, i)
    ensures Joins(WorkerNext(s, i))
  {
    WorkerStepFrame(s, i);
  }

  lemma WorkerStepKeepsInv(s: Pool, i: nat)
    requires Inv(s) && WorkerEnabled(s, i)
    ensures Inv(WorkerNext(s, i))
  {
    WorkerStepOwnership(s, i);
    WorkerStepCounters(s, i);
    WorkerStepModeAndIo(s, i);
    WorkerStepShape(s, i);
    WorkerStepBarriers(s, i);
    WorkerStepJoins(s, i);
  }

  lemma ThrowKeepsInv(s: Pool, i: nat)
    requires Inv(s) && i < |s.workers| && s.workers[i] == Running
    ensures Inv(MoveWorker(s, i, LeaveLock))
  {
    MoveSums(s, i, LeaveLock);
    SumLimits(s);
  }

  // ----- Controller steps keep the invariant -----

  lemma ControllerStepOwnership(s: Pool)
    requires Ownership(s) && Barriers(s) && ControllerEnabled(s)
    ensures Ownership(ControllerNext(s))
  {
  }

  lemma ControllerStepCounters(s: Pool)
    requires Counters(s) && PoolShape(s) && Barriers(s) && ModeAndIo(s) && ControllerEnabled(s)
    ensures Counters(ControllerNext(s))
  {
    SumLimits(s);
    SumAppend(s.workers, Polling, Counted);
    SumAppend(s.workers, Polling, CountedExited);
    if s.controller == Clear {
      assert forall i :: 0 <= i < |s.workers| ==> Counted(s.workers[i]) == 0;
      SumZero(s.workers, Counted);
    }
  }

  lemma ControllerStepModeAndIo(s: Pool)
    requires ModeAndIo(s) && PoolShape(s) && s.poolSize > 0 && ControllerEnabled(s)
    ensures ModeAndIo(ControllerNext(s))
  {
  }

  lemma UnlockShape(s: Pool, c: Call)
    requires PoolShape(s) && s.controller == Unlock(c)
    ensures PoolShape(ControllerNext(s))
  {
    var t := ControllerNext(s);
    assert t.returned[..|t.returned| - 1] == s.returned;
    assert PhaseAfter(t.returned) == Advance(PhaseAfter(s.returned), c);
  }

  /** A cleared pool leaves the exited counter at the number of workers it had. */
  lemma ClearShape(s: Pool)
    requires Counters(s) && PoolShape(s) && Barriers(s) && s.poolSize > 0 && s.controller == Clear
    ensures PoolShape(ControllerNext(s))
  {
    SumLimits(s);
  }

  lemma ControllerStepShape(s: Pool)
    requires Counters(s) && PoolShape(s) && Barriers(s) && s.poolSize > 0 && ControllerEnabled(s)
    ensures PoolShape(ControllerNext(s))
  {
    if s.controller.Unlock? {
      UnlockShape(s, s.controller.call);
    } else if s.controller == Clear {
      ClearShape(s);
    }
  }

  lemma ControllerStepBarriers(s: Pool)
    requires Inv(s) && ControllerEnabled(s)
    ensures Barriers(ControllerNext(s))
  {
    SumLimits(s);
  }

  lemma ControllerStepJoins(s: Pool)
    requires Joins(s) && ControllerEnabled(s)
    ensures Joins(ControllerNext(s))
  {
  }

  lemma ControllerStepKeepsInv(s: Pool)
    requires Inv(s) && ControllerEnabled(s)
    ensures Inv(ControllerNext(s))
  {
    ControllerStepOwnership(s);
    ControllerStepCounters(s);
    ControllerStepModeAndIo(s);
    ControllerStepShape(s);
    ControllerStepBarriers(s);
    ControllerStepJoins(s);
  }

  lemma StepKeepsInv(s: Pool, a: Action)
    requires Inv(s) && Enabled(s, a)
    ensures Inv(Next(s, a))
  {
    match a
    case WorkerStep(i) => WorkerStepKeepsInv(s, i);
    case RunThrows(i) => ThrowKeepsInv(s, i);
    case ControllerStep => ControllerStepKeepsInv(s);
    case SpuriousWakeup =>
    case Invoke(c) =>
  }
}
