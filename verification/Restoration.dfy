/** Rebuilding the switch's routes from the lease database after the connection came back. */
module Restoration {
  import opened Common
  import opened LeaseHandlers
  import opened LeaseUtils
  import opened ManagementClient
  import opened RouteLookup
  import opened Schedules
  import opened SwitchText

  /** From hardware address to VLAN interface name. */
  type HWAddrMap = map<string, string>

  /** How the scan ended: at the end, with the return after an IA_PD lease, by the exception for
      a lease without hardware address, or by dereferencing the null DUID of an IA_PD lease. */
  datatype Ending = Finished | ReturnedEarly | Threw | NullDuid

  /** The route that restores a lease, if there is one. */
  function RestoredRoute(mapping: HWAddrMap, db: LeaseDatabase, lease: Lease): Option<RouteExport> {
    match lease.leaseType
    case TYPE_NA =>
      if lease.hwaddr.Some? && lease.hwaddr.value in mapping then
        Some(RouteExport(0, lease.iaid, lease.duid, IA_NAFast(mapping[lease.hwaddr.value], lease.addr)))
      else None
    case TYPE_PD =>
      (match ActiveAddress(db, lease)
       case Some(dst) => Some(RouteExport(0, lease.iaid, lease.duid, IA_PDInfo(dst, lease.addr, lease.prefixLength)))
       case None => None)
    case _ => None
  }

  /** The routes that restore some leases, in order. */
  function RestoredRoutes(mapping: HWAddrMap, db: LeaseDatabase, leases: seq<Lease>): seq<RouteExport> {
    if leases == [] then []
    else RestoredRoutes(mapping, db, leases[..|leases| - 1]) + ToSeq(RestoredRoute(mapping, db, leases[|leases| - 1]))
  }

  /** The leases in the order they are scanned. */
  function Scan(subnets: seq<seq<Lease>>): seq<Lease> {
    if subnets == [] then [] else subnets[0] + Scan(subnets[1..])
  }

  /** The scan takes the subnets, and the leases of each, one after the other. */
  lemma {:induction false} ScanInOrder(a: seq<seq<Lease>>, leases: seq<Lease>, b: seq<seq<Lease>>)
    ensures Scan(a + [leases] + b) == Scan(a) + leases + Scan(b)
  {
    if a == [] {
      assert ([leases] + b)[1..] == b;
      assert a + [leases] + b == [leases] + b;
    } else {
      assert (a + [leases] + b)[1..] == a[1..] + [leases] + b;
      ScanInOrder(a[1..], leases, b);
    }
  }

  /** How a lease ends the scan, if it does. */
  function EndingAt(lease: Lease): Ending {
    if lease.hwaddr.None? then Threw
    else if lease.leaseType != TYPE_PD then Finished
    else if lease.duid.None? then NullDuid
    else ReturnedEarly
  }

  predicate EndsScan(lease: Lease) {
    EndingAt(lease) != Finished
  }

  /** The position of the first lease that ends the scan, or the number of leases. */
  function FirstEnd(leases: seq<Lease>): (k: nat)
    ensures k <= |leases|
    ensures forall j :: 0 <= j < k ==> !EndsScan(leases[j])
    ensures k < |leases| ==> EndsScan(leases[k])
  {
    if leases == [] || EndsScan(leases[0]) then 0 else FirstEnd(leases[1..]) + 1
  }

  function EndingOf(leases: seq<Lease>): Ending {
    var k := FirstEnd(leases);
    if k == |leases| then Finished else EndingAt(leases[k])
  }

  /** The leases the scan covers: all of them, or those before the one without hardware
      address, or those up to and including the first IA_PD lease. */
  function Covered(leases: seq<Lease>): seq<Lease> {
    leases[..CoveredLength(leases)]
  }

  function CoveredLength(leases: seq<Lease>): (n: nat)
    ensures n <= |leases|
  {
    var k := FirstEnd(leases);
    if EndingOf(leases) == ReturnedEarly || EndingOf(leases) == NullDuid then k + 1 else k
  }

  /** The scan gets past the lease: it has a hardware address and is not a delegated prefix. */
  predicate GoesPast(lease: Lease) {
    lease.hwaddr.Some? && lease.leaseType != TYPE_PD
  }

  /** The scan sends the routes of the first `k` leases and then ends: at the end of the leases, or
      before one without hardware address, or after the first delegated prefix, which has a DUID or
      not. */
  predicate StopsAfter(leases: seq<Lease>, k: nat, ending: Ending) {
    match ending
    case Finished => k == |leases| && forall j :: 0 <= j < k ==> GoesPast(leases[j])
    case Threw => k < |leases| && leases[k].hwaddr.None? && forall j :: 0 <= j < k ==> GoesPast(leases[j])
    case _ =>
      && 0 < k <= |leases| && leases[k - 1].hwaddr.Some? && leases[k - 1].leaseType == TYPE_PD
      && (leases[k - 1].duid.None? <==> ending == NullDuid)
      && forall j :: 0 <= j < k - 1 ==> GoesPast(leases[j])
  }

  lemma StopsOnce(leases: seq<Lease>, k: nat, ending: Ending, k': nat, ending': Ending)
    requires StopsAfter(leases, k, ending) && StopsAfter(leases, k', ending')
    ensures k == k' && ending == ending'
  {
    var e := if ending == Finished || ending == Threw then k else k - 1;
    var e' := if ending' == Finished || ending' == Threw then k' else k' - 1;
    assert !(e < e') && !(e' < e);
  }

  lemma CoveredStops(leases: seq<Lease>)
    ensures var k := |Covered(leases)|; StopsAfter(leases, k, EndingOf(leases)) && Covered(leases) == leases[..k]
  {
    var m := FirstEnd(leases);
    assert forall j :: 0 <= j < m ==> EndingAt(leases[j]) == Finished && GoesPast(leases[j]);
  }

  lemma FirstEndAt(leases: seq<Lease>, k: nat)
    requires k < |leases| && EndsScan(leases[k])
    requires forall j :: 0 <= j < k ==> !EndsScan(leases[j])
    ensures FirstEnd(leases) == k
  {
    var first := FirstEnd(leases);
    assert !(first < k) && !(k < first);
  }

  /** The routes sent after one lease more. */
  function Sent(mapping: HWAddrMap, db: LeaseDatabase, leases: seq<Lease>, k: nat): seq<RouteExport>
    requires k < |leases|
  {
    var before, route := RestoredRoutes(mapping, db, leases[..k]), RestoredRoute(mapping, db, leases[k]);
    if route.None? then before else before + [route.value]
  }

  /** One lease further, and what it means if that lease ends the scan. */
  lemma ScanStep(mapping: HWAddrMap, db: LeaseDatabase, leases: seq<Lease>, k: nat)
    requires k < |leases| && forall j :: 0 <= j < k ==> !EndsScan(leases[j])
    ensures RestoredRoutes(mapping, db, leases[..k + 1]) == Sent(mapping, db, leases, k)
    ensures EndsScan(leases[k]) ==>
      && EndingOf(leases) == EndingAt(leases[k])
      && RestoredRoutes(mapping, db, Covered(leases))
         == if leases[k].hwaddr.None? then RestoredRoutes(mapping, db, leases[..k]) else Sent(mapping, db, leases, k)
  {
    assert leases[..k + 1][..k] == leases[..k];
    if EndsScan(leases[k]) {
      FirstEndAt(leases, k);
    }
  }

  lemma ScanFinished(leases: seq<Lease>)
    requires forall j :: 0 <= j < |leases| ==> !EndsScan(leases[j])
    ensures FirstEnd(leases) == |leases| && EndingOf(leases) == Finished && Covered(leases) == leases
  {
    assert FirstEnd(leases) == |leases|;
  }

  lemma {:induction false} RestoredConcat(mapping: HWAddrMap, db: LeaseDatabase, a: seq<Lease>, b: seq<Lease>)
    ensures RestoredRoutes(mapping, db, a + b) == RestoredRoutes(mapping, db, a) + RestoredRoutes(mapping, db, b)
  {
    if b == [] {
      assert a + b == a;
    } else {
      var front, last := b[..|b| - 1], b[|b| - 1];
      assert (a + b)[..|a + b| - 1] == a + front;
      RestoredConcat(mapping, db, a, front);
    }
  }

  lemma CoveredStays(a: seq<Lease>, b: seq<Lease>)
    requires EndingOf(a) != Finished
    ensures EndingOf(a + b) == EndingOf(a) && Covered(a + b) == Covered(a)
  {
    var k := FirstEnd(a);
    assert forall j :: 0 <= j <= k ==> (a + b)[j] == a[j];
    FirstEndAt(a + b, k);
    assert (a + b)[..k] == a[..k] && (a + b)[..k + 1] == a[..k + 1];
  }

  lemma FirstEndConcat(a: seq<Lease>, b: seq<Lease>)
    requires forall j :: 0 <= j < |a| ==> !EndsScan(a[j])
    ensures FirstEnd(a + b) == |a| + FirstEnd(b)
  {
    var all, m := a + b, FirstEnd(b);
    forall j | 0 <= j < |a| + m ensures !EndsScan(all[j]) {
      assert all[j] == if j < |a| then a[j] else b[j - |a|];
    }
    if m < |b| {
      assert all[|a| + m] == b[m];
      FirstEndAt(all, |a| + m);
    } else {
      ScanFinished(all);
    }
  }

  lemma TakeConcat<T>(a: seq<T>, b: seq<T>, m: nat)
    requires m <= |b|
    ensures (a + b)[..|a| + m] == a + b[..m]
    ensures m < |b| ==> (a + b)[|a| + m] == b[m]
  {
  }

  lemma CoveredGoesOn(a: seq<Lease>, b: seq<Lease>)
    requires EndingOf(a) == Finished
    ensures EndingOf(a + b) == EndingOf(b) && Covered(a + b) == a + Covered(b)
  {
    EndingGoesOn(a, b);
    TakeConcat(a, b, CoveredLength(b));
  }

  lemma EndingGoesOn(a: seq<Lease>, b: seq<Lease>)
    requires EndingOf(a) == Finished
    ensures EndingOf(a + b) == EndingOf(b) && CoveredLength(a + b) == |a| + CoveredLength(b)
  {
    FirstEndConcat(a, b);
    if FirstEnd(b) < |b| {
      TakeConcat(a, b, FirstEnd(b));
    }
  }

  /** What the scan does with one lease. */
  method RestoreLease(mapping: HWAddrMap, db: LeaseDatabase, lease: Lease)
    returns (route: Option<RouteExport>, ending: Ending)
    ensures route == if lease.hwaddr.None? then None else RestoredRoute(mapping, db, lease)
    ensures route.Some? ==> route.value.tid == 0 && route.value.iaid == lease.iaid && route.value.duid == lease.duid
    ensures ending == EndingAt(lease)
  {
    if lease.hwaddr.None? {
      return None, Threw;
    }
    route, ending := None, Finished;
    match lease.leaseType {
      case TYPE_NA =>
        if lease.hwaddr.value in mapping {
          route := Some(RouteExport(0, lease.iaid, lease.duid, IA_NAFast(mapping[lease.hwaddr.value], lease.addr)));
        }
      case TYPE_PD =>
        var entry := FindIA_NALeaseByDUID_IAID(db, lease.duid, lease.iaid);
        if entry.Some? {
          route := Some(RouteExport(0, lease.iaid, lease.duid, IA_PDInfo(entry.value.addr, lease.addr, lease.prefixLength)));
        } else if lease.duid.None? {
          return None, NullDuid;
        }
        return route, ReturnedEarly;
      case TYPE_TA =>
      case TYPE_V4 =>
    }
  }

  /** The scan of one subnet's leases: it sends the routes of those before the first that has no
      hardware address, or up to and including the first IA_PD lease, whichever comes first. */
  method RestoreSubnet(mapping: HWAddrMap, db: LeaseDatabase, leases: seq<Lease>)
    returns (sent: seq<RouteExport>, ending: Ending)
    ensures sent == RestoredRoutes(mapping, db, Covered(leases)) && ending == EndingOf(leases)
    ensures exists k :: 0 <= k <= |leases| && StopsAfter(leases, k, ending) && sent == RestoredRoutes(mapping, db, leases[..k])
  {
    sent, ending := ScanLeases(mapping, db, leases);
    CoveredStops(leases);
  }

  method ScanLeases(mapping: HWAddrMap, db: LeaseDatabase, leases: seq<Lease>)
    returns (sent: seq<RouteExport>, ending: Ending)
    ensures sent == RestoredRoutes(mapping, db, Covered(leases)) && ending == EndingOf(leases)
  {
    sent := [];
    for k := 0 to |leases|
      invariant sent == RestoredRoutes(mapping, db, leases[..k])
      invariant forall j :: 0 <= j < k ==> !EndsScan(leases[j])
    {
      ScanStep(mapping, db, leases, k);
      var route, endingHere := RestoreLease(mapping, db, leases[k]);
      if route.Some? {
        sent := sent + [route.value];
      }
      if endingHere != Finished {
        return sent, endingHere;
      }
    }
    assert leases[..|leases|] == leases;
    ScanFinished(leases);
    return sent, Finished;
  }

  /** One subnet further, and what it means if the scan ends there. */
  lemma SubnetStep(mapping: HWAddrMap, db: LeaseDatabase, done: seq<Lease>, here: seq<Lease>, rest: seq<Lease>)
    requires EndingOf(done) == Finished
    ensures var sent := RestoredRoutes(mapping, db, done) + RestoredRoutes(mapping, db, Covered(here));
      if EndingOf(here) == Finished then
        EndingOf(done + here) == Finished && RestoredRoutes(mapping, db, done + here) == sent
      else
        var all := done + (here + rest);
        EndingOf(all) == EndingOf(here) && RestoredRoutes(mapping, db, Covered(all)) == sent
  {
    RestoredConcat(mapping, db, done, Covered(here));
    if EndingOf(here) == Finished {
      CoveredGoesOn(done, here);
      assert Covered(here) == here;
    } else {
      CoveredStays(here, rest);
      CoveredGoesOn(done, here + rest);
    }
  }

  /** The callback of the neighbour lookup.  A failed lookup is reported back and nothing is sent;
      a missing map or configuration throws; else the subnets are scanned. */
  method RestoreLeasesFromLeaseDatabase(mapping: Option<HWAddrMap>, lookupFailed: bool, db: LeaseDatabase,
                                        subnets: Option<seq<seq<Lease>>>)
    returns (sent: seq<RouteExport>, ending: Ending, reported: bool)
    ensures reported <==> lookupFailed
    ensures lookupFailed ==> sent == [] && ending == Finished
    ensures !lookupFailed && (mapping.None? || subnets.None?) ==> sent == [] && ending == Threw
    ensures !lookupFailed && mapping.Some? && subnets.Some? ==>
      var leases := Scan(subnets.value);
      exists k :: 0 <= k <= |leases| && StopsAfter(leases, k, ending) && sent == RestoredRoutes(mapping.value, db, leases[..k])
  {
    sent, ending, reported := [], Finished, false;
    if lookupFailed {
      reported := true;
      return;
    }
    if mapping.None? || subnets.None? {
      ending := Threw;
      return;
    }
    sent, ending := RestoreSubnets(mapping.value, db, subnets.value);
    CoveredStops(Scan(subnets.value));
  }

  /** The scan over the subnets; the routes sent are those of the covered leases. */
  method RestoreSubnets(mapping: HWAddrMap, db: LeaseDatabase, subnets: seq<seq<Lease>>)
    returns (sent: seq<RouteExport>, ending: Ending)
    ensures sent == RestoredRoutes(mapping, db, Covered(Scan(subnets)))
    ensures ending == EndingOf(Scan(subnets))
  {
    sent := [];
    ghost var done: seq<Lease> := [];
    for i := 0 to |subnets|
      invariant done + Scan(subnets[i..]) == Scan(subnets)
      invariant sent == RestoredRoutes(mapping, db, done) && EndingOf(done) == Finished
    {
      assert subnets[i..][1..] == subnets[i + 1..];
      ghost var here, rest := subnets[i], Scan(subnets[i + 1..]);
      SubnetStep(mapping, db, done, here, rest);
      var sentHere, endingHere := RestoreSubnet(mapping, db, subnets[i]);
      sent := sent + sentHere;
      if endingHere != Finished {
        return sent, endingHere;
      }
      Regroup(done, here, rest);
      done := done + here;
    }
    assert done == Scan(subnets) && Covered(done) == done;
    return sent, Finished;
  }

  lemma Regroup<T>(a: seq<T>, b: seq<T>, c: seq<T>)
    ensures a + (b + c) == (a + b) + c
  {
  }

  /** The switch can be told a route for the lease: its client is a known neighbour, or has an
      address to delegate to. */
  predicate Restorable(mapping: HWAddrMap, db: LeaseDatabase, lease: Lease) {
    || (lease.leaseType == TYPE_NA && lease.hwaddr.Some? && lease.hwaddr.value in mapping)
    || (lease.leaseType == TYPE_PD && ActiveIaNa(db, lease.duid, lease.iaid) != [])
  }

  lemma {:induction false} NothingToRestore(mapping: HWAddrMap, db: LeaseDatabase, leases: seq<Lease>)
    ensures RestoredRoutes(mapping, db, leases) == [] <==>
      forall j :: 0 <= j < |leases| ==> !Restorable(mapping, db, leases[j])
  {
    if leases != [] {
      var front, last := leases[..|leases| - 1], leases[|leases| - 1];
      NothingToRestore(mapping, db, front);
      assert forall j :: 0 <= j < |front| ==> front[j] == leases[j];
      assert RestoredRoute(mapping, db, last).Some? <==> Restorable(mapping, db, last);
    }
  }

  /** A scan that stops after `k` leases restores everything exactly if no lease after them is
      restorable; it never gets past an IA_PD lease or one without hardware address. */
  lemma RestorationIsCompleteWhen(mapping: HWAddrMap, db: LeaseDatabase, leases: seq<Lease>, k: nat, ending: Ending)
    requires StopsAfter(leases, k, ending)
    ensures RestoredRoutes(mapping, db, leases[..k]) == RestoredRoutes(mapping, db, leases) <==>
      forall j :: k <= j < |leases| ==> !Restorable(mapping, db, leases[j])
  {
    RestOfScan(mapping, db, leases, k);
  }

  lemma NothingAfter(mapping: HWAddrMap, db: LeaseDatabase, leases: seq<Lease>, k: nat)
    requires k <= |leases|
    ensures RestoredRoutes(mapping, db, leases[k..]) == [] <==>
      forall j :: k <= j < |leases| ==> !Restorable(mapping, db, leases[j])
  {
    var rest := leases[k..];
    NothingToRestore(mapping, db, rest);
    if j :| k <= j < |leases| && Restorable(mapping, db, leases[j]) {
      assert rest[j - k] == leases[j];
    } else {
      assert forall i :: 0 <= i < |rest| ==> rest[i] == leases[k + i];
    }
  }

  lemma SameWithSuffix<T>(a: seq<T>, b: seq<T>)
    ensures a == a + b <==> b == []
  {
    assert |a + b| == |a| + |b|;
  }

  /** A prefix of the leases has all the routes exactly if nothing after it is restorable. */
  lemma RestOfScan(mapping: HWAddrMap, db: LeaseDatabase, leases: seq<Lease>, k: nat)
    requires k <= |leases|
    ensures RestoredRoutes(mapping, db, leases[..k]) == RestoredRoutes(mapping, db, leases) <==>
      forall j :: k <= j < |leases| ==> !Restorable(mapping, db, leases[j])
  {
    assert leases == leases[..k] + leases[k..];
    RestoredConcat(mapping, db, leases[..k], leases[k..]);
    SameWithSuffix(RestoredRoutes(mapping, db, leases[..k]), RestoredRoutes(mapping, db, leases[k..]));
    NothingAfter(mapping, db, leases, k);
  }

  lemma {:induction false} RestoredMember(mapping: HWAddrMap, db: LeaseDatabase, leases: seq<Lease>, route: RouteExport)
    ensures route in RestoredRoutes(mapping, db, leases) <==>
      exists lease :: lease in leases && RestoredRoute(mapping, db, lease) == Some(route)
  {
    if leases != [] {
      var front, last := leases[..|leases| - 1], leases[|leases| - 1];
      RestoredMember(mapping, db, front, route);
      assert leases == front + [last];
      assert last in leases;
    }
  }

  /** No two leases are of the same type for the same address. */
  predicate DistinctLeases(leases: seq<Lease>) {
    forall i, k :: 0 <= i < k < |leases| ==>
      leases[i].leaseType != leases[k].leaseType || leases[i].addr != leases[k].addr
  }

  /** The scan never looks at a lease's state, so every route sent for the first `k` leases belongs to
      an active lease if and only if none of those that can be restored is declined or reclaimed. */
  lemma RestorationIsSoundWhen(mapping: HWAddrMap, db: LeaseDatabase, leases: seq<Lease>, k: nat)
    requires DistinctLeases(leases) && k <= |leases|
    ensures (forall route :: route in RestoredRoutes(mapping, db, leases[..k]) ==>
              exists lease :: lease in leases && !IsInactive(lease) && RestoredRoute(mapping, db, lease) == Some(route))
      <==> (forall lease :: lease in leases[..k] && Restorable(mapping, db, lease) ==> !IsInactive(lease))
  {
    var covered := leases[..k];
    forall route ensures route in RestoredRoutes(mapping, db, covered) <==>
        exists lease :: lease in covered && RestoredRoute(mapping, db, lease) == Some(route)
    {
      RestoredMember(mapping, db, covered, route);
    }
    forall lease ensures RestoredRoute(mapping, db, lease).Some? <==> Restorable(mapping, db, lease) {
    }
    forall x, y | x in leases && y in leases && RestoredRoute(mapping, db, x).Some?
                  && RestoredRoute(mapping, db, x) == RestoredRoute(mapping, db, y)
      ensures x == y
    {
      assert x.leaseType == y.leaseType && x.addr == y.addr;
    }
    if lease :| lease in covered && Restorable(mapping, db, lease) && IsInactive(lease) {
      var route := RestoredRoute(mapping, db, lease).value;
      assert route in RestoredRoutes(mapping, db, covered);
      assert lease in leases;
    } else {
      forall route | route in RestoredRoutes(mapping, db, covered)
        ensures exists lease :: lease in leases && !IsInactive(lease) && RestoredRoute(mapping, db, lease) == Some(route)
      {
        var lease :| lease in covered && RestoredRoute(mapping, db, lease) == Some(route);
        assert lease in leases && Restorable(mapping, db, lease);
      }
    }
  }

  // ----- What the sent routes do -----

  /** The command that restores an IA_NA lease is the command its export sends after the relay
      lookup, when the neighbour table and the lookup name the same VLAN. */
  lemma FastCommandIsLookupCommand(relay: string, ifName: string, addr: string, answer: RouteLookupResponse)
    requires Interface(answer) == Some(ifName)
    ensures match ExportRequest(IA_NAInfo(relay, addr))
      case Some(Lookup(command, next)) =>
        && command == CreateMappingVlanAddrToVlanIdCommand(HostPrefix(relay))
        && Continue(next, answer).Some?
        && ExportRequest(IA_NAFast(ifName, addr)) == Some(Commands(Continue(next, answer).value))
      case _ => false
  {
  }

  predicate Sendable(info: RouteInfo) {
    match info
    case IA_NAFast(ifName, addr) => IsWord(ifName) && IsAddr(addr)
    case IA_PDInfo(dst, prefix, _) => IsAddr(dst) && IsAddr(prefix)
    case _ => false
  }

  /** The route a restoring export stands for. */
  function MeantRoute(info: RouteInfo): Route
    requires Sendable(info)
  {
    match info
    case IA_NAFast(ifName, addr) => Route(HostPrefix(addr), ifName)
    case IA_PDInfo(dst, prefix, length) => Route(PrefixText(prefix, length), dst)
  }

  /** The sent exports as operations in flight; `fails` tells which requests will fail. */
  function ExportJobs(sent: seq<RouteExport>, fails: seq<bool>): seq<Job>
    requires |fails| == |sent|
  {
    seq(|sent|, i requires 0 <= i < |sent| => JobOf(Operation(true, sent[i].routeInfo, None, false, fails[i])))
  }

  /** The operation has posted the command for the route, or has finished. */
  predicate Installing(job: Job, r: Route) {
    && IsWord(r.prefix) && IsWord(r.dest)
    && (job.pending.None? || job.pending.value == Commands([CreateApplyRouteIpv6Command(r.prefix, r.dest)]))
  }

  /** The routes that operations in flight will still add. */
  function StillToAdd(jobs: seq<Job>, routes: seq<Route>): Table
    requires |jobs| == |routes|
  {
    set i | 0 <= i < |jobs| && jobs[i].pending.Some? && !jobs[i].commandFails :: routes[i]
  }

  lemma InstallStep(switch: Switch, jobs: seq<Job>, routes: seq<Route>, table: Table, i: nat)
    requires |jobs| == |routes| && i < |jobs| && jobs[i].pending.Some? && Installing(jobs[i], routes[i])
    ensures var stepped := jobs[i := StepJob(switch, jobs[i], table)];
      && Installing(stepped[i], routes[i])
      && StepTable(jobs[i], table) + StillToAdd(stepped, routes) == table + StillToAdd(jobs, routes)
  {
    var r, stepped := routes[i], jobs[i := StepJob(switch, jobs[i], table)];
    ExecuteOne(CreateApplyRouteIpv6Command(r.prefix, r.dest), table);
    ApplyExecutes(r.prefix, r.dest, table);
    forall q ensures q in StillToAdd(jobs, routes) <==>
        q in StillToAdd(stepped, routes) || (q == r && !jobs[i].commandFails)
    {
      if q in StillToAdd(jobs, routes) && !(q == r && !jobs[i].commandFails) {
        var k :| 0 <= k < |jobs| && jobs[k].pending.Some? && !jobs[k].commandFails && routes[k] == q;
        assert stepped[k] == jobs[k];
      }
      if q in StillToAdd(stepped, routes) {
        var k :| 0 <= k < |stepped| && stepped[k].pending.Some? && !stepped[k].commandFails && routes[k] == q;
        assert stepped[k] == jobs[k];
      }
    }
  }

  /** Operations that only add routes add them all in whatever order. */
  lemma {:induction false} InstallingInAnyOrder(switch: Switch, jobs: seq<Job>, routes: seq<Route>, table: Table,
                                                schedule: seq<nat>)
    requires |jobs| == |routes| && forall i :: 0 <= i < |jobs| ==> Installing(jobs[i], routes[i])
    requires IsComplete(switch, jobs, table, schedule)
    ensures Scheduled(switch, jobs, table, schedule) == table + StillToAdd(jobs, routes)
    decreases |schedule|
  {
    if schedule == [] {
      assert StillToAdd(jobs, routes) == {};
    } else {
      var i := schedule[0];
      InstallStep(switch, jobs, routes, table, i);
      InstallingInAnyOrder(switch, jobs[i := StepJob(switch, jobs[i], table)], routes, StepTable(jobs[i], table), schedule[1..]);
    }
  }

  /** Carrying out the sent exports, in whatever order, adds exactly the routes of those whose
      request does not fail. */
  lemma SentRoutesAreInstalled(switch: Switch, sent: seq<RouteExport>, fails: seq<bool>, table: Table, schedule: seq<nat>)
    requires |fails| == |sent| && forall i :: 0 <= i < |sent| ==> Sendable(sent[i].routeInfo)
    requires IsComplete(switch, ExportJobs(sent, fails), table, schedule)
    ensures Scheduled(switch, ExportJobs(sent, fails), table, schedule)
         == table + set i | 0 <= i < |sent| && Sendable(sent[i].routeInfo) && !fails[i] :: MeantRoute(sent[i].routeInfo)
  {
    var jobs := ExportJobs(sent, fails);
    var routes := seq(|sent|, i requires 0 <= i < |sent| && Sendable(sent[i].routeInfo) => MeantRoute(sent[i].routeInfo));
    forall i | 0 <= i < |sent| ensures Installing(jobs[i], routes[i]) && jobs[i].pending.Some? {
      SourceIsWord(sent[i].routeInfo);
    }
    InstallingInAnyOrder(switch, jobs, routes, table, schedule);
    var added := set i | 0 <= i < |sent| && Sendable(sent[i].routeInfo) && !fails[i] :: MeantRoute(sent[i].routeInfo);
    forall r ensures r in StillToAdd(jobs, routes) <==> r in added {
      if r in added {
        var i :| 0 <= i < |sent| && Sendable(sent[i].routeInfo) && !fails[i] && r == MeantRoute(sent[i].routeInfo);
        assert routes[i] == r && !jobs[i].commandFails;
      }
      if r in StillToAdd(jobs, routes) {
        var i :| 0 <= i < |jobs| && jobs[i].pending.Some? && !jobs[i].commandFails && routes[i] == r;
        assert !fails[i];
      }
    }
  }
}
