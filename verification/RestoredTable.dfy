/** The whole restoration of a rebooted switch, from the neighbour table to the switch's routes,
    against the routes that the live leases call for. */
module RestoredTable {
  import opened Common
  import opened LeaseHandlers
  import opened LeaseUtils
  import opened ManagementClient
  import opened Neighbors
  import opened RouteLookup
  import opened Restoration
  import opened Schedules
  import opened SwitchText

  /** The interface that a lease's client is really behind. */
  type InterfaceOf = Lease -> string

  /** The switch should have a route for the lease: it is active, and a delegated prefix needs
      an address to be routed to. */
  predicate Wants(db: LeaseDatabase, lease: Lease) {
    && !IsInactive(lease)
    && (lease.leaseType == TYPE_NA || (lease.leaseType == TYPE_PD && ActiveAddress(db, lease).Some?))
  }

  function WantedRoute(interfaceOf: InterfaceOf, db: LeaseDatabase, lease: Lease): Route {
    Route(LeasePrefix(lease),
          if lease.leaseType == TYPE_NA then interfaceOf(lease)
          else if ActiveAddress(db, lease).Some? then ActiveAddress(db, lease).value
          else "")
  }

  function RoutesOf(interfaceOf: InterfaceOf, db: LeaseDatabase, chosen: set<Lease>): Table {
    set lease | lease in chosen :: WantedRoute(interfaceOf, db, lease)
  }

  /** The leases that call for a route. */
  function Wanting(db: LeaseDatabase, leases: seq<Lease>): set<Lease> {
    set lease | lease in leases && Wants(db, lease)
  }

  /** The image of the live leases. */
  function Image(interfaceOf: InterfaceOf, db: LeaseDatabase, leases: seq<Lease>): Table {
    RoutesOf(interfaceOf, db, Wanting(db, leases))
  }

  /** The leases among the scanned ones that can be restored. */
  function Covers(mapping: HWAddrMap, db: LeaseDatabase, scanned: seq<Lease>): set<Lease> {
    set lease | lease in scanned && Restorable(mapping, db, lease)
  }

  /** Their routes. */
  function Restored(mapping: HWAddrMap, interfaceOf: InterfaceOf, db: LeaseDatabase, scanned: seq<Lease>): Table {
    RoutesOf(interfaceOf, db, Covers(mapping, db, scanned))
  }

  ghost predicate DistinctPrefixes(leases: seq<Lease>) {
    forall i, k :: 0 <= i < k < |leases| ==> LeasePrefix(leases[i]) != LeasePrefix(leases[k])
  }

  /** Leases with proper addresses and with different prefixes, which no foreign route has. */
  ghost predicate Proper(db: LeaseDatabase, leases: seq<Lease>, foreign: Table) {
    && (forall lease :: lease in leases ==> IsAddr(lease.addr))
    && (forall lease :: lease in db ==> IsAddr(lease.addr))
    && DistinctPrefixes(leases)
    && (forall lease, r :: lease in leases && r in foreign ==> r.prefix != LeasePrefix(lease))
  }

  /** The neighbour table names no wrong interface. */
  ghost predicate TruthfulNeighbors(interfaceOf: InterfaceOf, mapping: HWAddrMap, leases: seq<Lease>) {
    forall lease :: lease in leases && lease.hwaddr.Some? && lease.hwaddr.value in mapping ==>
      mapping[lease.hwaddr.value] == interfaceOf(lease)
  }

  lemma {:induction false} FoundInDatabase(db: LeaseDatabase, leaseType: LeaseType, duid: string, iaid: nat)
    ensures forall x :: x in GetLeases6(db, leaseType, duid, iaid) ==> x in db
  {
    if db != [] {
      FoundInDatabase(db[1..], leaseType, duid, iaid);
    }
  }

  lemma {:induction false} ActiveIsOne(leases: seq<Lease>)
    ensures forall x :: x in ActiveOnly(leases) ==> x in leases
  {
    if leases != [] {
      ActiveIsOne(leases[1..]);
    }
  }

  lemma ActiveIsAddr(db: LeaseDatabase, duid: Option<string>, iaid: nat)
    requires forall lease :: lease in db ==> IsAddr(lease.addr)
    ensures ActiveFor(db, duid, iaid).Some? ==> IsAddr(ActiveFor(db, duid, iaid).value)
  {
    if ActiveFor(db, duid, iaid).Some? {
      var found := GetLeases6(db, TYPE_NA, duid.value, iaid);
      FoundInDatabase(db, TYPE_NA, duid.value, iaid);
      ActiveIsOne(found);
      assert ActiveOnly(found)[0] in ActiveOnly(found);
    }
  }

  /** With a map that the nested loops have built, every restoring export names a proper route:
      the one the lease should have. */
  lemma RestoredRouteIsWanted(fromText: HwReader, rows: seq<AdjObject>, mapping: HWAddrMap, interfaceOf: InterfaceOf,
                              db: LeaseDatabase, leases: seq<Lease>, foreign: Table, lease: Lease)
    requires IsNeighborMap(fromText, rows, mapping) && TruthfulNeighbors(interfaceOf, mapping, leases)
    requires Proper(db, leases, foreign) && lease in leases
    ensures RestoredRoute(mapping, db, lease).Some? <==> Restorable(mapping, db, lease)
    ensures Restorable(mapping, db, lease) ==>
      var info := RestoredRoute(mapping, db, lease).value.routeInfo;
      Sendable(info) && MeantRoute(info) == WantedRoute(interfaceOf, db, lease)
  {
    if Restorable(mapping, db, lease) {
      if lease.leaseType == TYPE_NA {
        NeighborsAreOnVlans(fromText, rows, mapping);
        VlanNameIsWord(mapping[lease.hwaddr.value]);
      } else {
        ActiveIsAddr(db, lease.duid, lease.iaid);
      }
    }
  }

  /** No request fails. */
  function NoneFails(sent: seq<RouteExport>): (fails: seq<bool>)
    ensures |fails| == |sent| && forall i :: 0 <= i < |sent| ==> !fails[i]
  {
    seq(|sent|, i => false)
  }

  /** The exports sent for the scanned leases, as operations in flight. */
  function SentJobs(mapping: HWAddrMap, db: LeaseDatabase, scanned: seq<Lease>): seq<Job> {
    var sent := RestoredRoutes(mapping, db, scanned);
    ExportJobs(sent, NoneFails(sent))
  }

  /** All exports sent for the first `k` leases are proper, and carrying them out in any order adds
      exactly the routes of those leases that can be restored. */
  lemma RestorationInstalls(fromText: HwReader, rows: seq<AdjObject>, mapping: HWAddrMap, interfaceOf: InterfaceOf,
                            db: LeaseDatabase, leases: seq<Lease>, k: nat, foreign: Table, switch: Switch)
    requires IsNeighborMap(fromText, rows, mapping) && TruthfulNeighbors(interfaceOf, mapping, leases)
    requires Proper(db, leases, foreign) && k <= |leases|
    ensures forall route :: route in RestoredRoutes(mapping, db, leases[..k]) ==> Sendable(route.routeInfo)
    ensures forall schedule :: IsComplete(switch, SentJobs(mapping, db, leases[..k]), foreign, schedule) ==>
      Scheduled(switch, SentJobs(mapping, db, leases[..k]), foreign, schedule)
      == foreign + Restored(mapping, interfaceOf, db, leases[..k])
  {
    var scanned := leases[..k];
    var sent := RestoredRoutes(mapping, db, scanned);
    forall lease | lease in scanned
      ensures RestoredRoute(mapping, db, lease).Some? <==> Restorable(mapping, db, lease)
      ensures Restorable(mapping, db, lease) ==>
        var info := RestoredRoute(mapping, db, lease).value.routeInfo;
        Sendable(info) && MeantRoute(info) == WantedRoute(interfaceOf, db, lease)
    {
      assert lease in leases;
      RestoredRouteIsWanted(fromText, rows, mapping, interfaceOf, db, leases, foreign, lease);
    }
    forall route | route in sent ensures Sendable(route.routeInfo) {
      RestoredMember(mapping, db, scanned, route);
    }
    SentAreRestored(mapping, interfaceOf, db, scanned);
    forall schedule | IsComplete(switch, SentJobs(mapping, db, scanned), foreign, schedule)
      ensures Scheduled(switch, SentJobs(mapping, db, scanned), foreign, schedule)
           == foreign + Restored(mapping, interfaceOf, db, scanned)
    {
      SentRoutesAreInstalled(switch, sent, NoneFails(sent), foreign, schedule);
    }
  }

  lemma SentAreRestored(mapping: HWAddrMap, interfaceOf: InterfaceOf, db: LeaseDatabase, scanned: seq<Lease>)
    requires forall lease :: lease in scanned ==>
      && (RestoredRoute(mapping, db, lease).Some? <==> Restorable(mapping, db, lease))
      && (Restorable(mapping, db, lease) ==>
            var info := RestoredRoute(mapping, db, lease).value.routeInfo;
            Sendable(info) && MeantRoute(info) == WantedRoute(interfaceOf, db, lease))
    ensures var sent := RestoredRoutes(mapping, db, scanned);
      (set i | 0 <= i < |sent| && Sendable(sent[i].routeInfo) && !NoneFails(sent)[i] :: MeantRoute(sent[i].routeInfo))
      == Restored(mapping, interfaceOf, db, scanned)
  {
    var sent := RestoredRoutes(mapping, db, scanned);
    var added := set i | 0 <= i < |sent| && Sendable(sent[i].routeInfo) && !NoneFails(sent)[i] :: MeantRoute(sent[i].routeInfo);
    forall r ensures r in added <==> r in Restored(mapping, interfaceOf, db, scanned) {
      if r in added {
        var i :| 0 <= i < |sent| && Sendable(sent[i].routeInfo) && r == MeantRoute(sent[i].routeInfo);
        RestoredMember(mapping, db, scanned, sent[i]);
      }
      if r in Restored(mapping, interfaceOf, db, scanned) {
        var lease :| lease in scanned && Restorable(mapping, db, lease) && r == WantedRoute(interfaceOf, db, lease);
        var route := RestoredRoute(mapping, db, lease).value;
        RestoredMember(mapping, db, scanned, route);
        var i :| 0 <= i < |sent| && sent[i] == route;
        assert Sendable(sent[i].routeInfo) && !NoneFails(sent)[i];
      }
    }
  }

  lemma SamePrefixSameLease(leases: seq<Lease>, x: Lease, y: Lease)
    requires DistinctPrefixes(leases) && x in leases && y in leases && LeasePrefix(x) == LeasePrefix(y)
    ensures x == y
  {
    var i :| 0 <= i < |leases| && leases[i] == x;
    var k :| 0 <= k < |leases| && leases[k] == y;
  }

  /** Sets of leases with different prefixes have the same routes exactly if they are equal. */
  lemma SameRoutesSameLeases(interfaceOf: InterfaceOf, db: LeaseDatabase, leases: seq<Lease>, foreign: Table,
                             a: set<Lease>, b: set<Lease>)
    requires DistinctPrefixes(leases) && forall lease, r :: lease in leases && r in foreign ==> r.prefix != LeasePrefix(lease)
    requires forall lease :: lease in a || lease in b ==> lease in leases
    ensures foreign + RoutesOf(interfaceOf, db, a) == foreign + RoutesOf(interfaceOf, db, b) <==> a == b
  {
    if foreign + RoutesOf(interfaceOf, db, a) == foreign + RoutesOf(interfaceOf, db, b) {
      forall x | x in leases ensures x in a <==> x in b {
        RouteOfLease(interfaceOf, db, leases, foreign, a, x);
        RouteOfLease(interfaceOf, db, leases, foreign, b, x);
      }
    }
  }

  lemma RouteOfLease(interfaceOf: InterfaceOf, db: LeaseDatabase, leases: seq<Lease>, foreign: Table,
                     chosen: set<Lease>, x: Lease)
    requires DistinctPrefixes(leases) && forall lease, r :: lease in leases && r in foreign ==> r.prefix != LeasePrefix(lease)
    requires x in leases && forall lease :: lease in chosen ==> lease in leases
    ensures WantedRoute(interfaceOf, db, x) in foreign + RoutesOf(interfaceOf, db, chosen) <==> x in chosen
  {
    var r := WantedRoute(interfaceOf, db, x);
    if r in RoutesOf(interfaceOf, db, chosen) {
      var y :| y in chosen && WantedRoute(interfaceOf, db, y) == r;
      SamePrefixSameLease(leases, x, y);
    }
  }

  /** A rebooted switch, which has only the foreign routes left, is restored to the image of the
      live leases, whatever the order of the requests, if and only if the leases that call for a
      route are exactly those that can be restored among the `k` after which the scan stops.  So it
      takes that every active IA_NA client is among the neighbours, that no active lease comes
      after the end of the scan, and that it restores no declined or reclaimed lease. */
  lemma RebootedSwitchIsRestoredWhen(fromText: HwReader, rows: seq<AdjObject>, mapping: HWAddrMap, interfaceOf: InterfaceOf,
                                     db: LeaseDatabase, subnets: seq<seq<Lease>>, k: nat, ending: Ending,
                                     foreign: Table, switch: Switch)
    requires IsNeighborMap(fromText, rows, mapping) && TruthfulNeighbors(interfaceOf, mapping, Scan(subnets))
    requires Proper(db, Scan(subnets), foreign) && StopsAfter(Scan(subnets), k, ending)
    ensures var leases, scanned := Scan(subnets), Scan(subnets)[..k];
      forall schedule :: IsComplete(switch, SentJobs(mapping, db, scanned), foreign, schedule) ==>
        (Scheduled(switch, SentJobs(mapping, db, scanned), foreign, schedule) == foreign + Image(interfaceOf, db, leases)
         <==> Wanting(db, leases) == Covers(mapping, db, scanned))
  {
    var leases, scanned := Scan(subnets), Scan(subnets)[..k];
    RestorationInstalls(fromText, rows, mapping, interfaceOf, db, leases, k, foreign, switch);
    assert forall lease :: lease in scanned ==> lease in leases;
    SameRoutesSameLeases(interfaceOf, db, leases, foreign, Wanting(db, leases), Covers(mapping, db, scanned));
  }
}
