/** The worker-pool protocol of the HTTP client: `poolSize` worker threads and one
    controlling thread share a mutex, a condition variable, two counters and a mode
    flag that the workers read without holding the mutex.

    A state of the whole system is a `Pool` value; every atomic step a thread can take
    is an `Action`.  Memory is sequentially consistent and there is one controller. */
module WorkerPool {

  datatype Mode = RUNNING | STOPPED

  /** `startClient` calls with Start; `stopClient` and the destructor call with Stop. */
  datatype Call = Start | Stop

  /** Where a worker is in `threadLoop`.  `...Lock` is waiting for the mutex, `...Body` and
      `...Unlock` hold it. */
  datatype WorkerPc =
    | Polling                             // about to read the mode
    | EnterLock | EnterBody | EnterUnlock // count itself as running
    | Running                             // inside the io_service's run()
    | LeaveLock | LeaveBody | LeaveUnlock // uncount itself
    | ExitLock | ExitBody | ExitUnlock    // count itself as exited
    | Exited                              // the thread function has returned

  /** Where the controller is in `setThreadsState`. */
  datatype ControllerPc =
    | Idle
    | CallLock(call: Call) | CallMode(call: Call)
    | Restart | Spawn | StartCheck | StartWait | StartWoken | ResetExited
    | StopIo | StopCheck | StopWait | StopWoken | Join(next: nat) | Clear
    | Unlock(call: Call)

  datatype Owner = Free | Controller | Worker(index: nat)

  /** Two history variables: `joined` are the workers that the current stop has joined, `returned`
      the calls that have returned, oldest first. */
  datatype Pool = Pool(
    poolSize: nat,
    mode: Mode,
    ioStopped: bool,
    owner: Owner,
    running: int,
    exited: int,
    workers: seq<WorkerPc>,
    controller: ControllerPc,
    joined: set<nat>,
    returned: seq<Call>)

  /** `RunThrows` is an exception out of run(), `SpuriousWakeup` a wake-up of the
      condition variable that nobody asked for. */
  datatype Action =
    | WorkerStep(index: nat)
    | RunThrows(index: nat)
    | ControllerStep
    | SpuriousWakeup
    | Invoke(call: Call)

  function Initial(poolSize: nat): Pool {
    Pool(poolSize, STOPPED, false, Free, 0, 0, [], Idle, {}, [])
  }

  // ----- Steps of a worker -----

  function MoveWorker(s: Pool, i: nat, pc: WorkerPc): Pool
    requires i < |s.workers|
  {
    s.(workers := s.workers[i := pc])
  }

  function NotifyAll(s: Pool): Pool {
    match s.controller
    case StartWait => s.(controller := StartWoken)
    case StopWait => s.(controller := StopWoken)
    case _ => s
  }

  predicate WorkerEnabled(s: Pool, i: nat) {
    i < |s.workers| &&
    match s.workers[i]
    case EnterLock | LeaveLock | ExitLock => s.owner == Free
    case Running => s.ioStopped
    case Exited => false
    case _ => true
  }

  function WorkerNext(s: Pool, i: nat): Pool
    requires i < |s.workers|
  {
    match s.workers[i]
    case Polling => MoveWorker(s, i, if s.mode == RUNNING then EnterLock else ExitLock)
    case EnterLock => MoveWorker(s, i, EnterBody).(owner := Worker(i))
    case EnterBody =>
      var t := MoveWorker(s, i, EnterUnlock).(running := s.running + 1);
      if t.running == s.poolSize then NotifyAll(t) else t
    case EnterUnlock => MoveWorker(s, i, Running).(owner := Free)
    case Running => MoveWorker(s, i, LeaveLock)
    case LeaveLock => MoveWorker(s, i, LeaveBody).(owner := Worker(i))
    case LeaveBody => MoveWorker(s, i, LeaveUnlock).(running := s.running - 1)
    case LeaveUnlock => MoveWorker(s, i, Polling).(owner := Free)
    case ExitLock => MoveWorker(s, i, ExitBody).(owner := Worker(i))
    case ExitBody =>
      var t := MoveWorker(s, i, ExitUnlock).(exited := s.exited + 1);
      if t.exited == |s.workers| then NotifyAll(t) else t
    case ExitUnlock => MoveWorker(s, i, Exited).(owner := Free)
    case Exited => s
  }

  // ----- Steps of the controller -----

  predicate ControllerEnabled(s: Pool) {
    match s.controller
    case Idle | StartWait | StopWait => false
    case CallLock(_) | StartWoken | StopWoken => s.owner == Free
    case Join(k) => k < |s.workers| ==> s.workers[k] == Exited
    case _ => true
  }

  function ControllerNext(s: Pool): Pool {
    match s.controller
    case Idle | StartWait | StopWait => s
    case CallLock(c) => s.(owner := Controller, controller := CallMode(c))
    case CallMode(Start) => s.(mode := RUNNING, controller := Restart)
    case CallMode(Stop) => s.(mode := STOPPED, controller := StopIo)
    case Restart => s.(ioStopped := false, controller := Spawn)
    case Spawn =>
      if |s.workers| < s.poolSize then s.(workers := s.workers + [Polling])
      else s.(controller := StartCheck)
    case StartCheck =>
      if s.running == |s.workers| then s.(controller := ResetExited)
      else s.(owner := Free, controller := StartWait)
    case StartWoken => s.(owner := Controller, controller := StartCheck)
    case ResetExited => s.(exited := 0, controller := Unlock(Start))
    case StopIo => s.(ioStopped := true, controller := StopCheck)
    case StopCheck =>
      if s.exited == |s.workers| then s.(controller := Join(0), joined := {})
      else s.(owner := Free, controller := StopWait)
    case StopWoken => s.(owner := Controller, controller := StopCheck)
    case Join(k) =>
      if k < |s.workers| then s.(controller := Join(k + 1), joined := s.joined + {k})
      else s.(controller := Clear)
    case Clear => s.(workers := [], controller := Unlock(Stop))
    case Unlock(c) => s.(owner := Free, controller := Idle, returned := s.returned + [c])
  }

  // ----- Steps of the system and runs -----

  predicate Enabled(s: Pool, a: Action) {
    match a
    case WorkerStep(i) => WorkerEnabled(s, i)
    case RunThrows(i) => i < |s.workers| && s.workers[i] == Running
    case ControllerStep => ControllerEnabled(s)
    case SpuriousWakeup => s.controller == StartWait || s.controller == StopWait
    case Invoke(_) => s.controller == Idle
  }

  function Next(s: Pool, a: Action): Pool
    requires Enabled(s, a)
  {
    match a
    case WorkerStep(i) => WorkerNext(s, i)
    case RunThrows(i) => MoveWorker(s, i, LeaveLock)
    case ControllerStep => ControllerNext(s)
    case SpuriousWakeup => NotifyAll(s)
    case Invoke(c) => s.(controller := CallLock(c))
  }

  predicate IsRun(s: Pool, actions: seq<Action>)
    decreases |actions|
  {
    actions == [] || (Enabled(s, actions[0]) && IsRun(Next(s, actions[0]), actions[1..]))
  }

  function After(s: Pool, actions: seq<Action>): Pool
    requires IsRun(s, actions)
    decreases |actions|
  {
    if actions == [] then s else After(Next(s, actions[0]), actions[1..])
  }

  /** A scheduled step of a thread inside the code: no exception, no spurious wake-up,
      no new call. */
  predicate Normal(a: Action) {
    a.WorkerStep? || a.ControllerStep?
  }

  // ----- Weighted sums over the workers -----

  function Sum(workers: seq<WorkerPc>, weight: WorkerPc -> nat): nat {
    if workers == [] then 0 else weight(workers[0]) + Sum(workers[1..], weight)
  }

  /** 1 between the increment and the decrement of the running counter. */
  function Counted(pc: WorkerPc): nat {
    match pc
    case EnterUnlock | Running | LeaveLock | LeaveBody => 1
    case _ => 0
  }

  /** 1 once the exited counter has been incremented. */
  function CountedExited(pc: WorkerPc): nat {
    match pc
    case ExitUnlock | Exited => 1
    case _ => 0
  }

  /** Steps left before exiting when the mode is STOPPED. */
  function StopRank(pc: WorkerPc): nat {
    match pc
    case EnterLock => 11 case EnterBody => 10 case EnterUnlock => 9
    case Running => 8
    case LeaveLock => 7 case LeaveBody => 6 case LeaveUnlock => 5
    case Polling => 4
    case ExitLock => 3 case ExitBody => 2 case ExitUnlock => 1
    case Exited => 0
  }

  /** Steps left before blocking in run() when the mode is RUNNING. */
  function StartRank(pc: WorkerPc): nat {
    match pc
    case LeaveLock => 7 case LeaveBody => 6 case LeaveUnlock => 5
    case Polling => 4
    case EnterLock => 3 case EnterBody => 2 case EnterUnlock => 1
    case Running => 0
    case _ => 0
  }

  lemma {:induction false} SumUpdate(workers: seq<WorkerPc>, i: nat, pc: WorkerPc, weight: WorkerPc -> nat)
    requires i < |workers|
    ensures Sum(workers[i := pc], weight) == Sum(workers, weight) - weight(workers[i]) + weight(pc)
  {
    if i == 0 {
      assert workers[i := pc][1..] == workers[1..];
    } else {
      assert workers[i := pc][1..] == workers[1..][i - 1 := pc];
      SumUpdate(workers[1..], i - 1, pc, weight);
    }
  }

  lemma {:induction false} SumAppend(workers: seq<WorkerPc>, pc: WorkerPc, weight: WorkerPc -> nat)
    ensures Sum(workers + [pc], weight) == Sum(workers, weight) + weight(pc)
  {
    if workers == [] {
      assert workers + [pc] == [pc];
    } else {
      assert (workers + [pc])[1..] == workers[1..] + [pc];
      SumAppend(workers[1..], pc, weight);
    }
  }

  /** A sum of weights that are at most `bound` is at most `bound` per worker, and is
      exactly that much only if every worker has the full weight. */
  lemma {:induction false} SumBound(workers: seq<WorkerPc>, weight: WorkerPc -> nat, bound: nat)
    requires forall pc :: weight(pc) <= bound
    ensures Sum(workers, weight) <= bound * |workers|
    ensures Sum(workers, weight) == bound * |workers| <==> forall i :: 0 <= i < |workers| ==> weight(workers[i]) == bound
  {
    if workers != [] {
      SumBound(workers[1..], weight, bound);
      assert bound * |workers| == bound + bound * |workers[1..]|;
      assert forall i :: 0 < i < |workers| ==> workers[i] == workers[1..][i - 1];
      if forall i :: 0 <= i < |workers[1..]| ==> weight(workers[1..][i]) == bound {
      } else {
        var i :| 0 <= i < |workers[1..]| && weight(workers[1..][i]) != bound;
        assert workers[i + 1] == workers[1..][i];
      }
    }
  }

  lemma {:induction false} SumZero(workers: seq<WorkerPc>, weight: WorkerPc -> nat)
    ensures Sum(workers, weight) == 0 <==> forall i :: 0 <= i < |workers| ==> weight(workers[i]) == 0
  {
    if workers != [] {
      SumZero(workers[1..], weight);
      assert forall i :: 0 < i < |workers| ==> workers[i] == workers[1..][i - 1];
      if forall i :: 0 <= i < |workers[1..]| ==> weight(workers[1..][i]) == 0 {
      } else {
        var i :| 0 <= i < |workers[1..]| && weight(workers[1..][i]) != 0;
        assert workers[i + 1] == workers[1..][i];
      }
    }
  }
}
