/** The HTTP client object: `threadLoop` and `setThreadsState` acting on its fields, one atomic
    step at a time, under an arbitrary scheduler. */
module HttpClient {
  import opened WorkerPool
  import opened PoolInvariant
  import opened PoolTheorems

  class NXOSHttpClientImpl {
    const poolSize: nat
    var threadsState: Mode
    var ioStopped: bool
    var mutexOwner: Owner
    var runningThreads: int
    var exitedThreads: int
    var threadPool: seq<WorkerPc>
    var controller: ControllerPc
    var joined: set<nat>
    var returned: seq<Call>

    function View(): Pool
      reads this
    {
      Pool(poolSize, threadsState, ioStopped, mutexOwner, runningThreads, exitedThreads, threadPool, controller, joined, returned)
    }

    constructor (threadPoolSize: nat)
      requires threadPoolSize > 0
      ensures View() == Initial(threadPoolSize) && Inv(View())
    {
      poolSize := threadPoolSize;
      threadsState, ioStopped, mutexOwner := STOPPED, false, Free;
      runningThreads, exitedThreads := 0, 0;
      threadPool, controller, joined, returned := [], Idle, {}, [];
      new;
      InitialInv(threadPoolSize);
    }

    method Notify()
      modifies this
      ensures View() == NotifyAll(old(View()))
    {
      if controller == StartWait {
        controller := StartWoken;
      } else if controller == StopWait {
        controller := StopWoken;
      }
    }

    /** The next step of worker `i` in `threadLoop`; `runThrows` is an exception out of run(),
        which the loop catches. */
    method ThreadLoopStep(i: nat, runThrows: bool)
      requires Enabled(View(), if runThrows then RunThrows(i) else WorkerStep(i))
      modifies this
      ensures View() == Next(old(View()), if runThrows then RunThrows(i) else WorkerStep(i))
      ensures old(Inv(View())) ==> Inv(View())
    {
      ghost var before := View();
      TakeWorkerStep(i);
      if old(Inv(View())) {
        StepKeepsInv(before, if runThrows then RunThrows(i) else WorkerStep(i));
      }
    }

    /** Leaving run() is one step, by an exception or not. */
    method TakeWorkerStep(i: nat)
      requires WorkerEnabled(View(), i) || Enabled(View(), RunThrows(i))
      modifies this
      ensures View() == WorkerNext(old(View()), i)
    {
      match threadPool[i] {
        case Polling =>
          threadPool := threadPool[i := if threadsState == RUNNING then EnterLock else ExitLock];
        case EnterLock =>
          mutexOwner := Worker(i);
          threadPool := threadPool[i := EnterBody];
        case EnterBody =>
          runningThreads := runningThreads + 1;
          threadPool := threadPool[i := EnterUnlock];
          if runningThreads == poolSize {
            Notify();
          }
        case EnterUnlock =>
          mutexOwner := Free;
          threadPool := threadPool[i := Running];
        case Running =>
          threadPool := threadPool[i := LeaveLock];
        case LeaveLock =>
          mutexOwner := Worker(i);
          threadPool := threadPool[i := LeaveBody];
        case LeaveBody =>
          runningThreads := runningThreads - 1;
          threadPool := threadPool[i := LeaveUnlock];
        case LeaveUnlock =>
          mutexOwner := Free;
          threadPool := threadPool[i := Polling];
        case ExitLock =>
          mutexOwner := Worker(i);
          threadPool := threadPool[i := ExitBody];
        case ExitBody =>
          exitedThreads := exitedThreads + 1;
          threadPool := threadPool[i := ExitUnlock];
          if exitedThreads == |threadPool| {
            Notify();
          }
        case ExitUnlock =>
          mutexOwner := Free;
          threadPool := threadPool[i := Exited];
        case Exited =>
      }
    }

    /** The next step of the controller in `setThreadsState`. */
    method SetThreadsStateStep()
      requires ControllerEnabled(View())
      modifies this
      ensures View() == ControllerNext(old(View()))
      ensures old(Inv(View())) ==> Inv(View())
    {
      ghost var before := View();
      TakeControllerStep();
      if old(Inv(View())) {
        StepKeepsInv(before, ControllerStep);
      }
    }

    method TakeControllerStep()
      requires ControllerEnabled(View())
      modifies this
      ensures View() == ControllerNext(old(View()))
    {
      match controller {
        case CallLock(c) =>
          mutexOwner, controller := Controller, CallMode(c);
        case CallMode(c) =>
          if c == Start {
            threadsState, controller := RUNNING, Restart;
          } else {
            threadsState, controller := STOPPED, StopIo;
          }
        case Restart =>
          ioStopped, controller := false, Spawn;
        case Spawn =>
          if |threadPool| < poolSize {
            threadPool := threadPool + [Polling];
          } else {
            controller := StartCheck;
          }
        case StartCheck =>
          if runningThreads == |threadPool| {
            controller := ResetExited;
          } else {
            mutexOwner, controller := Free, StartWait;
          }
        case StartWoken =>
          mutexOwner, controller := Controller, StartCheck;
        case ResetExited =>
          exitedThreads, controller := 0, Unlock(Start);
        case StopIo =>
          ioStopped, controller := true, StopCheck;
        case StopCheck =>
          if exitedThreads == |threadPool| {
            controller, joined := Join(0), {};
          } else {
            mutexOwner, controller := Free, StopWait;
          }
        case StopWoken =>
          mutexOwner, controller := Controller, StopCheck;
        case Join(k) =>
          if k < |threadPool| {
            controller, joined := Join(k + 1), joined + {k};
          } else {
            controller := Clear;
          }
        case Clear =>
          threadPool, controller := [], Unlock(Stop);
        case Unlock(c) =>
          mutexOwner, controller, returned := Free, Idle, returned + [c];
        case _ =>
      }
    }

    /** One round of an arbitrary scheduler: any thread that can take a step may be the one to
        take it, and while `left` is positive run() may throw and the controller may wake up for
        no reason.  An exception in a stopped pool does not count. */
    method Round(left: nat) returns (ghost action: Action, remaining: nat)
      requires Inv(View()) && controller != Idle && !Doomed(View())
      modifies this
      ensures Enabled(old(View()), action) && View() == Next(old(View()), action)
      ensures remaining == if Delay(old(View()), action) > 0 then left - 1 else left
    {
      remaining := left;
      action := SomeStepEnabled(View());
      var controllersTurn: bool, throws: bool, wakes: bool := *, *, *;
      var worker: int := *;
      if throws && 0 <= worker < |threadPool| && threadPool[worker] == Running && (threadsState == STOPPED || left > 0) {
        if threadsState == RUNNING {
          remaining := left - 1;
        }
        action := RunThrows(worker);
        ThreadLoopStep(worker, true);
      } else if wakes && left > 0 && (controller == StartWait || controller == StopWait) {
        remaining := left - 1;
        action := SpuriousWakeup;
        Notify();
      } else if ControllerEnabled(View()) && (controllersTurn || !exists i :: 0 <= i < |threadPool| && WorkerEnabled(View(), i)) {
        action := ControllerStep;
        SetThreadsStateStep();
      } else {
        assert exists i :: 0 <= i < |threadPool| && WorkerEnabled(View(), i) by {
          if action.WorkerStep? { assert WorkerEnabled(View(), action.index); }
        }
        var i :| 0 <= i < |threadPool| && WorkerEnabled(View(), i);
        action := WorkerStep(i);
        ThreadLoopStep(i, false);
      }
    }

    /** A whole call.  It returns, whatever the scheduler chooses, if at most `troubles`
        exceptions in mode RUNNING and spurious wake-ups befall it. */
    method SetThreadsState(call: Call, troubles: nat) returns (ghost trace: seq<Action>)
      requires Inv(View()) && controller == Idle
      requires !(call == Stop && PhaseAfter(returned) == Stopped)
      modifies this
      ensures Inv(View()) && controller == Idle && returned == old(returned) + [call]
      ensures IsRun(old(View()), trace) && After(old(View()), trace) == View()
    {
      ghost var start := View();
      controller := CallLock(call);
      trace := [Invoke(call)];
      StepKeepsInv(start, trace[0]);
      assert trace[1..] == [];
      var left := troubles;
      while controller != Idle
        invariant Progressing(start, call, trace, View())
        decreases left, Measure(View())
      {
        ghost var s := View();
        ghost var action;
        action, left := Round(left);
        ProgressStep(start, call, trace, s, action);
        trace := trace + [action];
      }
    }

    /** A start returns with all threads inside run() or on their way out of it. */
    method StartClient(troubles: nat) returns (ghost trace: seq<Action>)
      requires Inv(View()) && controller == Idle
      modifies this
      ensures Inv(View()) && controller == Idle && returned == old(returned) + [Start]
      ensures IsRun(old(View()), trace) && After(old(View()), trace) == View()
      ensures threadsState == RUNNING && |threadPool| == poolSize
    {
      trace := SetThreadsState(Start, troubles);
      assert returned[..|returned| - 1] == old(returned);
    }

    /** A stop returns with no thread left, unless the pool was stopped already. */
    method StopClient(troubles: nat) returns (ghost trace: seq<Action>)
      requires Inv(View()) && controller == Idle && PhaseAfter(returned) != Stopped
      modifies this
      ensures Inv(View()) && controller == Idle && returned == old(returned) + [Stop]
      ensures IsRun(old(View()), trace) && After(old(View()), trace) == View()
      ensures threadsState == STOPPED && threadPool == []
    {
      trace := SetThreadsState(Stop, troubles);
      assert returned[..|returned| - 1] == old(returned);
    }
  }
}
