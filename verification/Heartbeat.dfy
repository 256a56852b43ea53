/** The heartbeat service: the uptime test, the lost-connection flag, and when a heartbeat
    restores the routes. */
module Heartbeat {
  import opened Common

  // ----- Uptime -----

  const INT32_LIMIT := 0x8000_0000
  const SIZE_T_LIMIT := 0x1_0000_0000_0000_0000

  /** The four 32-bit fields of the switch's answer. */
  datatype Uptime = Uptime(days: int, hours: int, minutes: int, seconds: int)

  predicate IsInt32(x: int) { -INT32_LIMIT <= x < INT32_LIMIT }

  predicate FieldsFit(u: Uptime) {
    IsInt32(u.days) && IsInt32(u.hours) && IsInt32(u.minutes) && IsInt32(u.seconds)
  }

  /** Conversion to the 64-bit unsigned type, which wraps. */
  function ToSizeT(x: int): (r: int)
    ensures 0 <= r < SIZE_T_LIMIT
  {
    x % SIZE_T_LIMIT
  }

  /** The weighted sum, each operation in 64-bit unsigned arithmetic. */
  function GetUptimeSeconds(u: Uptime): nat {
    var minutes := ToSizeT(ToSizeT(u.minutes) * 60);
    var hours := ToSizeT(ToSizeT(u.hours) * 3600);
    var days := ToSizeT(ToSizeT(u.days) * 86400);
    ToSizeT(ToSizeT(ToSizeT(ToSizeT(u.seconds) + minutes) + hours) + days)
  }

  function TrueSeconds(u: Uptime): int {
    u.days * 86400 + u.hours * 3600 + u.minutes * 60 + u.seconds
  }

  /** Minutes, hours and seconds in their ranges. */
  predicate Normalised(u: Uptime) {
    FieldsFit(u) && 0 <= u.days && 0 <= u.hours < 24 && 0 <= u.minutes < 60 && 0 <= u.seconds < 60
  }

  predicate Before(u: Uptime, v: Uptime) {
    || u.days < v.days
    || (u.days == v.days && (u.hours < v.hours
    || (u.hours == v.hours && (u.minutes < v.minutes
    || (u.minutes == v.minutes && u.seconds < v.seconds)))))
  }

  lemma ToSizeTOf(x: int)
    requires -SIZE_T_LIMIT <= x < SIZE_T_LIMIT
    ensures ToSizeT(x) == if x < 0 then x + SIZE_T_LIMIT else x
  {
  }

  /** A value congruent to a sum and in range is the wrapped sum. */
  lemma WrapUnique(x: int, r: int, k: int)
    requires 0 <= r < SIZE_T_LIMIT && x == r + k * SIZE_T_LIMIT
    ensures ToSizeT(x) == r
  {
    var q := x / SIZE_T_LIMIT;
    assert x == q * SIZE_T_LIMIT + x % SIZE_T_LIMIT;
    assert (q - k) * SIZE_T_LIMIT == r - x % SIZE_T_LIMIT;
  }

  lemma WrapDistance(x: int) returns (k: int)
    ensures ToSizeT(x) == x + k * SIZE_T_LIMIT
  {
    k := -(x / SIZE_T_LIMIT);
  }

  /** Wrapping at every step gives the true sum wrapped once. */
  lemma UptimeWraps(u: Uptime)
    ensures GetUptimeSeconds(u) == ToSizeT(TrueSeconds(u))
  {
    var m, h, d := ToSizeT(u.minutes), ToSizeT(u.hours), ToSizeT(u.days);
    var k1 := WrapDistance(u.minutes);
    var k2 := WrapDistance(m * 60);
    var k3 := WrapDistance(u.hours);
    var k4 := WrapDistance(h * 3600);
    var k5 := WrapDistance(u.days);
    var k6 := WrapDistance(d * 86400);
    var k7 := WrapDistance(u.seconds);
    var a := ToSizeT(u.seconds) + ToSizeT(m * 60);
    var k8 := WrapDistance(a);
    var b := ToSizeT(a) + ToSizeT(h * 3600);
    var k9 := WrapDistance(b);
    var c := ToSizeT(b) + ToSizeT(d * 86400);
    var k10 := WrapDistance(c);
    var k := k1 * 60 + k2 + k3 * 3600 + k4 + k5 * 86400 + k6 + k7 + k8 + k9 + k10;
    assert GetUptimeSeconds(u) == TrueSeconds(u) + k * SIZE_T_LIMIT;
    WrapUnique(TrueSeconds(u), GetUptimeSeconds(u), -k);
  }

  /** For any 32-bit fields the computed uptime is the true one exactly when that is not
      negative; non-negative fields never wrap. */
  lemma UptimeIsTrueUnlessNegative(u: Uptime)
    requires FieldsFit(u)
    ensures GetUptimeSeconds(u) == TrueSeconds(u) <==> TrueSeconds(u) >= 0
    ensures u.days >= 0 && u.hours >= 0 && u.minutes >= 0 && u.seconds >= 0 ==> GetUptimeSeconds(u) == TrueSeconds(u)
  {
    UptimeWraps(u);
    ToSizeTOf(TrueSeconds(u));
  }

  /** On normalised fields the computed uptime is injective and ordered like the fields. */
  lemma UptimeOrder(u: Uptime, v: Uptime)
    requires Normalised(u) && Normalised(v)
    ensures GetUptimeSeconds(u) < GetUptimeSeconds(v) <==> Before(u, v)
    ensures GetUptimeSeconds(u) == GetUptimeSeconds(v) <==> u == v
  {
    UptimeIsTrueUnlessNegative(u);
    UptimeIsTrueUnlessNegative(v);
  }

  /** The normalised uptime one second later. */
  function NextSecond(u: Uptime): Uptime {
    if u.seconds < 59 then u.(seconds := u.seconds + 1)
    else if u.minutes < 59 then u.(seconds := 0, minutes := u.minutes + 1)
    else if u.hours < 23 then u.(seconds := 0, minutes := 0, hours := u.hours + 1)
    else Uptime(u.days + 1, 0, 0, 0)
  }

  lemma TrueSecondsCount(u: Uptime)
    requires Normalised(u) && u.days + 1 < INT32_LIMIT
    ensures Normalised(NextSecond(u)) && TrueSeconds(NextSecond(u)) == TrueSeconds(u) + 1
  {
  }

  lemma SameStep(u: Uptime, v: Uptime)
    requires Normalised(u) && Normalised(v) && TrueSeconds(v) == TrueSeconds(u) + 1
    ensures GetUptimeSeconds(v) == GetUptimeSeconds(u) + 1
  {
    UptimeIsTrueUnlessNegative(u);
    UptimeIsTrueUnlessNegative(v);
  }

  /** The computed uptime counts seconds: it starts at zero and grows by one every second. */
  lemma UptimeCountsSeconds(u: Uptime)
    requires Normalised(u) && u.days + 1 < INT32_LIMIT
    ensures GetUptimeSeconds(Uptime(0, 0, 0, 0)) == 0
    ensures Normalised(NextSecond(u)) && GetUptimeSeconds(NextSecond(u)) == GetUptimeSeconds(u) + 1
  {
    var v := NextSecond(u);
    TrueSecondsCount(u);
    SameStep(u, v);
    UptimeIsTrueUnlessNegative(Uptime(0, 0, 0, 0));
  }

  // ----- One heartbeat -----

  /** What the callback receives: the transport's verdict, the status code, an error object,
      and the uptime if the body could be decoded. */
  datatype Response = Response(transportOk: bool, status: int, rpcException: bool, body: Option<Uptime>)

  /** An answer that came through with status 200, no error object, and an uptime. */
  predicate Healthy(r: Response) {
    r.transportOk && r.status == 200 && !r.rpcException && r.body.Some?
  }

  function CheckForFailedConnectionOrRPCResponse(r: Response): bool {
    if !r.transportOk then true
    else if r.status != 200 then true
    else if r.rpcException then true
    else r.body.None?
  }

  /** What happens to the service: a heartbeat that succeeds or fails, or the asynchronous
      report that a restore failed. */
  datatype Event = Success(uptime: nat) | Failure | RestoreFailure

  function EventOf(r: Response): Event {
    if CheckForFailedConnectionOrRPCResponse(r) then Failure else Success(GetUptimeSeconds(r.body.value))
  }

  /** A healthy answer is a success with its uptime, any other a failure. */
  lemma EventOfAnswer(r: Response)
    ensures EventOf(r) == if Healthy(r) then Success(GetUptimeSeconds(r.body.value)) else Failure
  {
  }

  datatype Memory = Memory(lost: bool, prevUptime: nat)

  const FRESH := Memory(true, 0)

  predicate Restores(m: Memory, e: Event) {
    e.Success? && (m.lost || e.uptime < m.prevUptime)
  }

  function Advance(m: Memory, e: Event): Memory {
    match e
    case Success(uptime) => Memory(false, if Restores(m, e) then 0 else uptime)
    case Failure => m.(lost := true)
    case RestoreFailure => m.(lost := true)
  }

  /** The service object.  `timerRestarts` counts how often the callback has cancelled and set up
      the timer again, `failureReports` how often it has called the failure handler, if there is
      one. */
  class NXOSHeartbeatService {
    var prevLostConnection: bool
    var prevUptimeSecs: nat
    const hasFailedHandler: bool
    var failureReports: nat
    var timerRestarts: nat

    function View(): Memory
      reads this
    {
      Memory(prevLostConnection, prevUptimeSecs)
    }

    constructor StartService(connectionFailedHandlerSet: bool)
      ensures View() == FRESH && hasFailedHandler == connectionFailedHandlerSet
      ensures failureReports == 0 && timerRestarts == 0
    {
      hasFailedHandler := connectionFailedHandlerSet;
      prevLostConnection := true;
      prevUptimeSecs := 0;
      failureReports, timerRestarts := 0, 0;
    }

    method HandlerFailedCallback()
      modifies this
      ensures View() == Advance(old(View()), RestoreFailure)
      ensures failureReports == old(failureReports) && timerRestarts == old(timerRestarts)
    {
      prevLostConnection := true;
    }

    /** The heartbeat callback; `restored` tells whether it ran the restore handler.  The timer is
        restarted exactly around a restore, and every failed heartbeat is reported. */
    method HeartbeatCallback(r: Response) returns (restored: bool)
      modifies this
      ensures View() == Advance(old(View()), EventOf(r))
      ensures restored == Restores(old(View()), EventOf(r))
      ensures timerRestarts == old(timerRestarts) + if restored then 1 else 0
      ensures Healthy(r) ==>
        var uptime := GetUptimeSeconds(r.body.value);
        && restored == (old(prevLostConnection) || uptime < old(prevUptimeSecs))
        && !prevLostConnection && prevUptimeSecs == (if restored then 0 else uptime)
        && failureReports == old(failureReports)
      ensures !Healthy(r) ==>
        && !restored && prevLostConnection && prevUptimeSecs == old(prevUptimeSecs)
        && failureReports == old(failureReports) + if hasFailedHandler then 1 else 0
    {
      EventOfAnswer(r);
      restored := false;
      var connectionFailed := CheckForFailedConnectionOrRPCResponse(r);
      if connectionFailed {
        if hasFailedHandler {
          failureReports := failureReports + 1;
        }
        prevLostConnection := true;
        return;
      }
      var uptimeSecondsNew := GetUptimeSeconds(r.body.value);
      if prevLostConnection || uptimeSecondsNew < prevUptimeSecs {
        restored := true;
        prevUptimeSecs := 0;
        prevLostConnection := false;
        timerRestarts := timerRestarts + 1;
        return;
      }
      prevUptimeSecs := uptimeSecondsNew;
      prevLostConnection := false;
    }
  }

  // ----- Whole histories -----

  function MemoryAfter(log: seq<Event>): Memory {
    if log == [] then FRESH else Advance(MemoryAfter(log[..|log| - 1]), log[|log| - 1])
  }

  predicate RestoresAt(log: seq<Event>, k: nat)
    requires k < |log|
  {
    Restores(MemoryAfter(log[..k]), log[k])
  }

  /** The index of the last success before `k`, or -1. */
  function LastSuccess(log: seq<Event>, k: nat): (p: int)
    requires k <= |log|
    ensures -1 <= p < k
    ensures p >= 0 ==> log[p].Success?
    ensures forall j :: p < j < k ==> !log[j].Success?
  {
    if k == 0 then -1 else if log[k - 1].Success? then k - 1 else LastSuccess(log, k - 1)
  }

  /** What the two fields remember of the history: whether there has been no success since the
      last failure, and the uptime of the last success unless that success restored. */
  lemma {:induction false} MemoryMeaning(log: seq<Event>, k: nat)
    requires k <= |log|
    ensures var m, p := MemoryAfter(log[..k]), LastSuccess(log, k);
      && (m.lost <==> p < 0 || p < k - 1)
      && m.prevUptime == (if p < 0 || RestoresAt(log, p) then 0 else log[p].uptime)
  {
    if k > 0 {
      assert log[..k][..k - 1] == log[..k - 1];
      MemoryMeaning(log, k - 1);
    }
  }

  /** A successful heartbeat restores exactly when it is the first success, or something
      failed since the last success, or it reports a smaller uptime than the last success
      and that one did not restore. */
  lemma {:induction false} RestoresExactlyWhen(log: seq<Event>, k: nat)
    requires k < |log| && log[k].Success?
    ensures var p := LastSuccess(log, k);
      RestoresAt(log, k) <==>
        || p < 0
        || (exists j :: p < j < k && !log[j].Success?)
        || (!RestoresAt(log, p) && log[k].uptime < log[p].uptime)
  {
    MemoryMeaning(log, k);
    var p := LastSuccess(log, k);
    if 0 <= p < k - 1 {
      assert p < k - 1 < k && !log[k - 1].Success?;
    }
  }

  /** A failed heartbeat or restore keeps the flag set up to the next success, and that
      success restores. */
  lemma {:induction false} NoFailureIsForgotten(log: seq<Event>, i: nat, k: nat)
    requires i < k <= |log| && !log[i].Success?
    requires forall j :: i < j < k ==> !log[j].Success?
    ensures MemoryAfter(log[..k]).lost
    ensures k < |log| && log[k].Success? ==> RestoresAt(log, k)
  {
    MemoryMeaning(log, k);
    var p := LastSuccess(log, k);
    assert p < i;
  }

  /** Two consecutive successes restore both only if something failed in between. */
  lemma NoTwoRestoresInARow(log: seq<Event>, p: nat, k: nat)
    requires p < k < |log| && RestoresAt(log, p) && RestoresAt(log, k)
    requires forall j :: p < j < k ==> !log[j].Success?
    ensures exists j :: p < j < k && (log[j] == Failure || log[j] == RestoreFailure)
  {
    MemoryMeaning(log, k);
    assert LastSuccess(log, k) == p;
    assert p < k - 1 < k;
    assert !log[k - 1].Success?;
  }

  function Restored(log: seq<Event>): nat {
    if log == [] then 0
    else Restored(log[..|log| - 1]) + if RestoresAt(log, |log| - 1) then 1 else 0
  }

  function Failed(log: seq<Event>): nat {
    if log == [] then 0
    else Failed(log[..|log| - 1]) + if log[|log| - 1].Success? then 0 else 1
  }

  /** A success that reports a smaller uptime than the success before it. */
  predicate DropsAt(log: seq<Event>, k: nat)
    requires k < |log|
  {
    var p := LastSuccess(log, k);
    log[k].Success? && p >= 0 && log[k].uptime < log[p].uptime
  }

  function Drops(log: seq<Event>): nat {
    if log == [] then 0
    else Drops(log[..|log| - 1]) + if DropsAt(log, |log| - 1) then 1 else 0
  }

  /** Restores are paid for by the start, the failures and the drops in uptime; a set flag is
      one restore already paid for. */
  lemma {:induction false} RestoresAreAccountedFor(log: seq<Event>)
    ensures Restored(log) + (if MemoryAfter(log).lost then 1 else 0) <= 1 + Failed(log) + Drops(log)
  {
    if log != [] {
      var n := |log| - 1;
      var front := log[..n];
      RestoresAreAccountedFor(front);
      MemoryMeaning(log, n);
      assert log[..n + 1] == log;
    }
  }

  // ----- Histories of answers -----

  /** What reaches the service: the switch's answer to a heartbeat, or a reported restore failure. */
  datatype Input = Answered(response: Response) | RestoreFailed

  function Log(inputs: seq<Input>): seq<Event> {
    seq(|inputs|, i requires 0 <= i < |inputs| =>
      match inputs[i] case Answered(r) => EventOf(r) case RestoreFailed => RestoreFailure)
  }

  predicate HealthyAt(inputs: seq<Input>, k: int) {
    0 <= k < |inputs| && inputs[k].Answered? && Healthy(inputs[k].response)
  }

  /** The uptime that a healthy answer reports. */
  function UptimeAt(inputs: seq<Input>, k: int): nat
    requires HealthyAt(inputs, k)
  {
    GetUptimeSeconds(inputs[k].response.body.value)
  }

  /** Whatever answers and failure reports come, an answer that is not healthy never restores, and
      a healthy one does exactly if no healthy answer came before it, or something else came since
      the last healthy one, or it reports a smaller uptime than that one and that one did not
      restore. */
  lemma AnswersRestoreExactlyWhen(inputs: seq<Input>, k: nat)
    requires k < |inputs|
    ensures !HealthyAt(inputs, k) ==> !RestoresAt(Log(inputs), k)
    ensures HealthyAt(inputs, k) ==>
      (RestoresAt(Log(inputs), k) <==>
        || (forall j :: 0 <= j < k ==> !HealthyAt(inputs, j))
        || !HealthyAt(inputs, k - 1)
        || (!RestoresAt(Log(inputs), k - 1) && UptimeAt(inputs, k) < UptimeAt(inputs, k - 1)))
  {
    var log := Log(inputs);
    forall j | 0 <= j < |inputs| ensures log[j].Success? <==> HealthyAt(inputs, j) {
      if inputs[j].Answered? { EventOfAnswer(inputs[j].response); }
    }
    forall j | HealthyAt(inputs, j) ensures log[j] == Success(UptimeAt(inputs, j)) {
      EventOfAnswer(inputs[j].response);
    }
    if HealthyAt(inputs, k) {
      RestoresExactlyWhen(log, k);
      var p := LastSuccess(log, k);
      assert k > 0 && HealthyAt(inputs, k - 1) ==> p == k - 1;
      if p >= 0 && !HealthyAt(inputs, k - 1) {
        assert p < k - 1 < k && !log[k - 1].Success?;
      }
    }
  }
}
