/** Heartbeat callbacks and restore-failure callbacks on several threads.  Each holds the
    service's mutex from its first line to its last; the restore handler, called with the
    mutex held, starts work whose failure is reported by another thread at any later time. */
module HeartbeatThreads {
  import opened Common
  import opened Heartbeat

  datatype Pc =
    | WantLock          // waiting for the mutex
    | Decide            // holds it, about to look at the response and the fields
    | HandlerCalled     // has run the restore handler, fields not yet written
    | ClearLost         // has written the uptime field
    | Unlock
    | Finished

  /** A callback: the event it brings and where it is. */
  datatype Thread = Thread(event: Event, pc: Pc)

  /** `log` lists the events in the order their callbacks took the mutex; `restored` says of
      each, once decided, whether the restore handler ran. */
  datatype System = System(
    lost: bool, prevUptime: nat, owner: Option<nat>, threads: seq<Thread>, log: seq<Event>, restored: seq<bool>)

  const INITIAL := System(true, 0, None, [], [], [])

  /** A response arrives for a heartbeat, or a thread takes its next step. */
  datatype Action = Arrive(event: Event) | Step(index: nat)

  predicate Enabled(s: System, a: Action) {
    match a
    case Arrive(e) => e != RestoreFailure
    case Step(i) =>
      i < |s.threads| &&
      match s.threads[i].pc
      case WantLock => s.owner.None?
      case Finished => false
      case _ => true
  }

  function Move(s: System, i: nat, pc: Pc): System
    requires i < |s.threads|
  {
    s.(threads := s.threads[i := s.threads[i].(pc := pc)])
  }

  function Next(s: System, a: Action): System
    requires Enabled(s, a)
  {
    match a
    case Arrive(e) => s.(threads := s.threads + [Thread(e, WantLock)])
    case Step(i) =>
      var t := s.threads[i];
      match t.pc
      case WantLock => Move(s, i, Decide).(owner := Some(i), log := s.log + [t.event])
      case Decide =>
        if !t.event.Success? then
          Move(s, i, Unlock).(lost := true, restored := s.restored + [false])
        else if s.lost || t.event.uptime < s.prevUptime then
          var u := Move(s, i, HandlerCalled).(restored := s.restored + [true]);
          u.(threads := u.threads + [Thread(RestoreFailure, WantLock)])
        else
          Move(s, i, ClearLost).(prevUptime := t.event.uptime, restored := s.restored + [false])
      case HandlerCalled => Move(s, i, ClearLost).(prevUptime := 0)
      case ClearLost => Move(s, i, Unlock).(lost := false)
      case Unlock => Move(s, i, Finished).(owner := None)
      case Finished => s
  }

  predicate IsRun(s: System, actions: seq<Action>)
    decreases |actions|
  {
    actions == [] || (Enabled(s, actions[0]) && IsRun(Next(s, actions[0]), actions[1..]))
  }

  function After(s: System, actions: seq<Action>): System
    requires IsRun(s, actions)
    decreases |actions|
  {
    if actions == [] then s else After(Next(s, actions[0]), actions[1..])
  }

  predicate Holds(pc: Pc) {
    pc != WantLock && pc != Finished
  }

  predicate Exclusive(s: System) {
    && (s.owner.Some? ==> s.owner.value < |s.threads| && Holds(s.threads[s.owner.value].pc))
    && (forall i :: 0 <= i < |s.threads| && Holds(s.threads[i].pc) ==> s.owner == Some(i))
  }

  /** The fields in terms of the log: its memory when nobody holds the mutex, and the memory
      before the last event, partly overwritten, while its callback is running. */
  predicate FieldsMatch(s: System) {
    var now := Memory(s.lost, s.prevUptime);
    match s.owner
    case None => now == MemoryAfter(s.log)
    case Some(i) =>
      && i < |s.threads| && s.log != []
      && var e := s.threads[i].event;
         var before := MemoryAfter(s.log[..|s.log| - 1]);
         && s.log[|s.log| - 1] == e
         && match s.threads[i].pc
            case Decide => now == before
            case HandlerCalled => now == before && Restores(before, e)
            case ClearLost => e.Success? && s.prevUptime == Advance(before, e).prevUptime
            case _ => now == Advance(before, e)
  }

  predicate Deciding(s: System) {
    s.owner.Some? && s.owner.value < |s.threads| && s.threads[s.owner.value].pc == Decide
  }

  predicate DecisionsMatch(s: System) {
    && |s.restored| == (if Deciding(s) then |s.log| - 1 else |s.log|)
    && forall k :: 0 <= k < |s.restored| ==> (s.restored[k] <==> RestoresAt(s.log, k))
  }

  predicate Inv(s: System) {
    Exclusive(s) && FieldsMatch(s) && DecisionsMatch(s)
  }

  lemma LockKeepsDecisions(log: seq<Event>, e: Event, k: nat)
    requires k < |log|
    ensures RestoresAt(log + [e], k) <==> RestoresAt(log, k)
  {
    assert (log + [e])[..k] == log[..k];
  }

  lemma StepKeepsExclusive(s: System, a: Action)
    requires Exclusive(s) && Enabled(s, a)
    ensures Exclusive(Next(s, a))
  {
  }

  lemma StepKeepsFields(s: System, a: Action)
    requires Exclusive(s) && FieldsMatch(s) && Enabled(s, a)
    ensures FieldsMatch(Next(s, a))
  {
    var t := Next(s, a);
    if a.Step? && s.threads[a.index].pc == WantLock {
      assert t.log[..|t.log| - 1] == s.log;
    }
  }

  lemma StepKeepsDecisions(s: System, a: Action)
    requires Inv(s) && Enabled(s, a)
    ensures DecisionsMatch(Next(s, a))
  {
    var t := Next(s, a);
    if a.Step? && s.threads[a.index].pc == WantLock {
      forall k | 0 <= k < |s.restored| ensures t.restored[k] <==> RestoresAt(t.log, k) {
        LockKeepsDecisions(s.log, s.threads[a.index].event, k);
      }
    }
  }

  lemma {:induction false} RunKeepsInv(s: System, actions: seq<Action>)
    requires Inv(s) && IsRun(s, actions)
    ensures Inv(After(s, actions))
    decreases |actions|
  {
    if actions != [] {
      StepKeepsExclusive(s, actions[0]);
      StepKeepsFields(s, actions[0]);
      StepKeepsDecisions(s, actions[0]);
      RunKeepsInv(Next(s, actions[0]), actions[1..]);
    }
  }

  /** Every interleaving acts like its callbacks run one after the other in the order they
      took the mutex: the fields are the memory of that history and the restore handler ran
      for exactly its restoring successes. */
  lemma InterleavingsAreSequential(actions: seq<Action>)
    requires IsRun(INITIAL, actions)
    ensures var s := After(INITIAL, actions);
      && (s.owner.None? ==> Memory(s.lost, s.prevUptime) == MemoryAfter(s.log) && |s.restored| == |s.log|)
      && |s.restored| <= |s.log|
      && forall k :: 0 <= k < |s.restored| ==> (s.restored[k] <==> RestoresAt(s.log, k))
  {
    RunKeepsInv(INITIAL, actions);
  }

  /** In every interleaving, a failed heartbeat or a reported restore failure leaves the flag
      set whenever the mutex is free, until a heartbeat succeeds; that heartbeat restores. */
  lemma NoFailureIsForgottenByThreads(actions: seq<Action>, i: nat)
    requires IsRun(INITIAL, actions) && i < |After(INITIAL, actions).log|
    requires !After(INITIAL, actions).log[i].Success?
    ensures var s := After(INITIAL, actions);
      && (s.owner.None? && (forall j :: i < j < |s.log| ==> !s.log[j].Success?) ==> s.lost)
      && |s.restored| <= |s.log|
      && (forall k :: i < k < |s.restored| && s.log[k].Success? && (forall j :: i < j < k ==> !s.log[j].Success?) ==>
            s.restored[k])
  {
    RunKeepsInv(INITIAL, actions);
    var s := After(INITIAL, actions);
    if forall j :: i < j < |s.log| ==> !s.log[j].Success? {
      NoFailureIsForgotten(s.log, i, |s.log|);
      assert s.log[..|s.log|] == s.log;
    }
    forall k | i < k < |s.restored| && s.log[k].Success? && forall j :: i < j < k ==> !s.log[j].Success?
      ensures s.restored[k]
    {
      NoFailureIsForgotten(s.log, i, k);
    }
  }
}
