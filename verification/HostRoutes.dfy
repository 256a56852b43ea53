/** The IA_NA half of the exporter against its purpose: the switch's host routes are the
    image of the live leases.  Lease events and the requests they cause interleave freely. */
module HostRoutes {
  import opened Common
  import opened LeaseHandlers
  import opened LeaseUtils
  import opened ManagementClient
  import opened RouteLookup
  import opened Schedules
  import opened Service
  import opened Settling
  import opened SwitchText

  /** The fixed surroundings: the relays, the interface each relay's link address belongs to,
      the switch, and the static routes that somebody else put there. */
  datatype Site = Site(relays: set<string>, interfaceOf: string -> string, switch: Switch, foreign: Table)

  /** The answer's only path has the interface first among its interface names. */
  ghost predicate LeadsTo(answer: Option<RouteLookupResponse>, interface: string) {
    answer.Some? && exists path :: HasPath(answer.value, path) && IsFirstPresent(path.ifname, interface)
  }

  /** The answer's only path has the interface and no other. */
  ghost predicate LeadsOnlyTo(answer: Option<RouteLookupResponse>, interface: string) {
    answer.Some? && exists path :: HasPath(answer.value, path) && path.ifname == [Some(interface)]
  }

  /** Whatever path the answer has, it names no interface. */
  ghost predicate LeadsNowhere(answer: Option<RouteLookupResponse>) {
    answer.Some? ==> forall path :: HasPath(answer.value, path) ==> forall name :: name in path.ifname ==> name.None?
  }

  /** The switch names a relay's interface when no static route covers the relay itself, and
      the one interface of a host route; it names none for a prefix without routes.  Its answers
      may have any next hops. */
  ghost predicate Truthful(site: Site) {
    && (forall r :: r in site.relays ==>
          IsAddr(r) && IsWord(site.interfaceOf(r)) && LeadsTo(site.switch(HostPrefix(r), {}), site.interfaceOf(r)))
    && (forall p, d :: !IsRelayPrefix(site.relays, p) ==> LeadsOnlyTo(site.switch(p, {d}), d))
    && (forall p :: !IsRelayPrefix(site.relays, p) ==> LeadsNowhere(site.switch(p, {})))
    && (forall r :: r in site.foreign ==> !IsHostPrefix(r.prefix))
  }

  lemma LeadsToNames(answer: Option<RouteLookupResponse>, interface: string)
    ensures LeadsTo(answer, interface) ==> answer.Some? && Interface(answer.value) == Some(interface)
    ensures LeadsOnlyTo(answer, interface) ==>
      answer.Some? && VlanInterface(answer.value) == if IsValidVlanName(interface) then Some(interface) else None
    ensures LeadsNowhere(answer) ==> answer.None? || VlanInterface(answer.value).None?
  {
    if answer.Some? && ThePath(answer.value).Some? {
      var path := ThePath(answer.value).value;
      forall p ensures HasPath(answer.value, p) <==> p == path {
        ThePathIs(answer.value, p);
      }
      AnswerNames(answer.value, path, interface);
      FindFirstIsFirst(path.ifname, IsValidVlanName);
    } else if answer.Some? {
      forall p ensures !HasPath(answer.value, p) {
        ThePathIs(answer.value, p);
      }
    }
  }

  ghost predicate IsHostPrefix(p: string) {
    exists a :: IsAddr(a) && p == HostPrefix(a)
  }

  // ----- The assumptions can be met -----

  /** An answer with one path through an interface, and with a next hop. */
  function PathThrough(ifName: string): RouteLookupResponse {
    RouteLookupResponse([RowVrf("default", [RowAddr("ipv6", Some([RowPrefix("", true, [ThroughInterface(ifName)])]))])])
  }

  function ThroughInterface(ifName: string): RowPath {
    RowPath([Some("2001:db8::1")], [Some(ifName)])
  }

  ghost function AnyOf<T(!new)>(s: set<T>): (x: T)
    requires s != {}
    ensures x in s
  {
    var x :| x in s; x
  }

  ghost function RelayAt(relays: set<string>, p: string): (r: string)
    requires IsRelayPrefix(relays, p)
    ensures r in relays && p == HostPrefix(r)
  {
    var r :| r in relays && p == HostPrefix(r); r
  }

  /** Any relays with addresses, any interface names for them and any routes that are not host
      routes have a switch that answers as assumed. */
  lemma TruthfulSwitchExists(relays: set<string>, interfaceOf: string -> string, foreign: Table) returns (switch: Switch)
    requires forall r :: r in relays ==> IsAddr(r) && IsWord(interfaceOf(r))
    requires forall r :: r in foreign ==> !IsHostPrefix(r.prefix)
    ensures Truthful(Site(relays, interfaceOf, switch, foreign))
  {
    switch := (p, rows) =>
      if rows != {} then Some(PathThrough(AnyOf(rows)))
      else if IsRelayPrefix(relays, p) then Some(PathThrough(interfaceOf(RelayAt(relays, p))))
      else None;
    forall r | r in relays ensures LeadsTo(switch(HostPrefix(r), {}), interfaceOf(r)) {
      assert IsRelayPrefix(relays, HostPrefix(r));
      HostPrefixInjective(r, RelayAt(relays, HostPrefix(r)));
      PathLeads(interfaceOf(r));
    }
    forall p: string, d ensures LeadsOnlyTo(switch(p, {d}), d) {
      assert AnyOf({d}) == d;
      PathLeads(d);
    }
  }

  lemma PathLeads(ifName: string)
    ensures LeadsTo(Some(PathThrough(ifName)), ifName) && LeadsOnlyTo(Some(PathThrough(ifName)), ifName)
  {
    var path := ThroughInterface(ifName);
    assert HasPath(PathThrough(ifName), path);
    assert path.ifname[0] == Some(ifName);
  }

  // ----- Leases and their routes -----

  /** Who holds a live lease: the client's DUID and IAID, and the relay the client is behind. */
  datatype Holder = Holder(duid: Option<string>, iaid: nat, relay: string)

  /** The live leases, by address. */
  type Live = map<string, Holder>

  function InterfaceFor(site: Site, live: Live, a: string): string
    requires a in live
  {
    site.interfaceOf(live[a].relay)
  }

  /** The routes the switch should have for the live leases. */
  function Image(site: Site, live: Live): Table {
    set a | a in live :: Route(HostPrefix(a), InterfaceFor(site, live, a))
  }

  function Goal(site: Site, live: Live): Table {
    Image(site, live) + site.foreign
  }

  ghost predicate LiveProper(site: Site, live: Live) {
    forall a :: a in live ==> IsAddr(a) && a !in site.relays && live[a].relay in site.relays
  }

  lemma HostPrefixInjective(a: string, b: string)
    requires HostPrefix(a) == HostPrefix(b)
    ensures a == b
  {
    assert HostPrefix(a)[..|a|] == a && HostPrefix(b)[..|b|] == b;
  }

  lemma NotRelayPrefix(site: Site, a: string)
    requires a !in site.relays
    ensures !IsRelayPrefix(site.relays, HostPrefix(a))
  {
    forall r | r in site.relays ensures HostPrefix(a) != HostPrefix(r) {
      if HostPrefix(a) == HostPrefix(r) { HostPrefixInjective(a, r); }
    }
  }

  /** What the goal has for an address. */
  function WantedRows(site: Site, live: Live, a: string): set<string> {
    if a in live then {InterfaceFor(site, live, a)} else {}
  }

  lemma GoalRows(site: Site, live: Live, a: string)
    requires Truthful(site) && IsAddr(a)
    ensures Rows(Goal(site, live), HostPrefix(a)) == WantedRows(site, live, a)
  {
    var rows := Rows(Goal(site, live), HostPrefix(a));
    assert IsHostPrefix(HostPrefix(a));
    forall d ensures d in rows <==> d in WantedRows(site, live, a) {
      assert d in rows <==> Route(HostPrefix(a), d) in Goal(site, live);
      if Route(HostPrefix(a), d) in Goal(site, live) {
        var b :| b in live && Route(HostPrefix(a), d) == Route(HostPrefix(b), InterfaceFor(site, live, b));
        HostPrefixInjective(a, b);
      }
    }
  }

  lemma GoalHasNoRelayRows(site: Site, live: Live)
    requires Truthful(site) && LiveProper(site, live)
    ensures NoRelayRows(site.relays, Goal(site, live))
  {
    forall r | r in Goal(site, live) ensures !IsRelayPrefix(site.relays, r.prefix) {
      if r in site.foreign {
        if q :| q in site.relays && r.prefix == HostPrefix(q) {
          assert IsHostPrefix(r.prefix);
        }
      } else {
        var a :| a in live && r == Route(HostPrefix(a), InterfaceFor(site, live, a));
        NotRelayPrefix(site, a);
      }
    }
  }

  lemma GoalElsewhere(site: Site, live: Live, after: Live, addresses: set<string>, p: string)
    requires live - addresses == after - addresses
    requires forall a :: a in addresses ==> p != HostPrefix(a)
    ensures SameRows(Goal(site, live), Goal(site, after), p)
  {
    forall b | b !in addresses
      ensures b in live <==> b in after
      ensures b in live ==> live[b] == after[b]
    {
      assert b in live <==> b in live - addresses;
      assert b in after <==> b in after - addresses;
      if b in live {
        assert (live - addresses)[b] == (after - addresses)[b];
      }
    }
  }

  /** A table that differs from the old goal only at some addresses is the new goal exactly if
      it has what the leases call for at those addresses. */
  lemma IsNewGoal(site: Site, live: Live, after: Live, addresses: set<string>, table: Table)
    requires Truthful(site) && live - addresses == after - addresses
    requires forall a :: a in addresses ==> IsAddr(a)
    requires forall p :: (forall a :: a in addresses ==> p != HostPrefix(a)) ==> SameRows(table, Goal(site, live), p)
    ensures table == Goal(site, after) <==>
      forall a :: a in addresses ==> Rows(table, HostPrefix(a)) == WantedRows(site, after, a)
  {
    forall a | a in addresses ensures Rows(Goal(site, after), HostPrefix(a)) == WantedRows(site, after, a) {
      GoalRows(site, after, a);
    }
    if forall a :: a in addresses ==> Rows(table, HostPrefix(a)) == WantedRows(site, after, a) {
      forall p ensures Rows(table, p) == Rows(Goal(site, after), p) {
        if forall a :: a in addresses ==> p != HostPrefix(a) {
          GoalElsewhere(site, live, after, addresses, p);
          assert SameRows(table, Goal(site, live), p);
          RowsFromSameRows(table, Goal(site, after), p);
        }
      }
      TableFromRows(table, Goal(site, after));
    }
  }

  // ----- Lease events -----

  datatype Event =
    | Select(message: Message, lease: Lease, fakeAllocation: bool)
    | Renew(message: Message, lease: Lease, isRebind: bool)
    | Release(message: Message, lease: Lease)
    | Decline(message: Message, lease: Lease)
    | Expire(lease: Lease)

  /** What the hook does; an IA_NA hook never consults the lease database. */
  function Effects(e: Event): seq<Effect> {
    match e
    case Select(message, lease, fake) => Made(SelectOutcome([], message, lease, fake))
    case Renew(message, lease, isRebind) => Made(RenewOutcome([], message, lease, true, isRebind))
    case Release(message, lease) => Made(GiveUpOutcome([], message, lease))
    case Decline(message, lease) => Made(GiveUpOutcome([], message, lease))
    case Expire(lease) => ExpireEffects(lease)
  }

  function EffectJob(effect: Effect): Job {
    JobOf(OperationOf([], effect))
  }

  function EffectJobs(effects: seq<Effect>): seq<Job> {
    seq(|effects|, i requires 0 <= i < |effects| => EffectJob(effects[i]))
  }

  function Relay(e: Event): string {
    if e.Expire? || e.message.relay.None? then "" else e.message.relay.value
  }

  /** The address inside the first IA_NA option of a renewing or rebinding client. */
  function Named(e: Event): Option<string> {
    if !e.Renew? || e.message.iaNas == [] then None else e.message.iaNas[0]
  }

  /** The lease of the address is held by the client and IAID the event is about. */
  predicate Holds(live: Live, a: string, lease: Lease) {
    a in live && live[a].duid == lease.duid && live[a].iaid == lease.iaid
  }

  /** What the event means for the leases: a renew or rebind grants its lease, and ends another
      one only if that is the same client's for the same IAID. */
  function LiveAfter(live: Live, e: Event): Live {
    var a := e.lease.addr;
    match e
    case Select(_, lease, fake) => if fake then live else live[a := Holder(lease.duid, lease.iaid, Relay(e))]
    case Renew(_, lease, _) =>
      var kept := if Named(e).Some? && Holds(live, Named(e).value, lease) then live - {Named(e).value} else live;
      kept[a := Holder(lease.duid, lease.iaid, Relay(e))]
    case _ => live - {a}
  }

  function Addresses(e: Event): set<string> {
    {e.lease.addr} + if Named(e).Some? then {Named(e).value} else {}
  }

  /** An IA_NA event about addresses that are not a relay's and that no operation in flight is
      about; a client's message comes through a known relay. */
  ghost predicate WellTimed(site: Site, jobs: seq<Job>, e: Event) {
    && e.lease.leaseType == TYPE_NA
    && (forall a :: a in Addresses(e) ==> IsAddr(a) && a !in site.relays && !InFlight(jobs, HostPrefix(a)))
    && (!e.Expire? ==> e.message.relay.Some? && Relay(e) in site.relays)
  }

  /** The lease of the address is live and its route goes to the interface. */
  predicate RoutedTo(site: Site, live: Live, a: string, interface: string) {
    a in live && InterfaceFor(site, live, a) == interface
  }

  /** What an event has to meet for the code to treat it right.  A client stays on its interface.
      A renew names an address, and if that is another live lease's, it is the client's own for
      the same IAID; or, if it is not, its route is safe only on another interface.  A lease
      expires on an interface whose name the code takes for a VLAN. */
  predicate Fits(site: Site, live: Live, e: Event) {
    var a, interface := e.lease.addr, site.interfaceOf(Relay(e));
    match e
    case Select(_, _, fake) => fake || (a in live ==> RoutedTo(site, live, a, interface))
    case Renew(_, lease, _) =>
      (match Named(e)
       case None => RoutedTo(site, live, a, interface)
       case Some(b) =>
         && (a in live ==> RoutedTo(site, live, a, interface))
         && (b != a && b in live ==> (Holds(live, b, lease) <==> RoutedTo(site, live, b, interface))))
    case Expire(_) => a in live ==> IsValidVlanName(InterfaceFor(site, live, a))
    case _ => a in live ==> RoutedTo(site, live, a, interface)
  }

  // ----- Each operation, left alone -----

  function ExportJob(relay: string, a: string): Job {
    JobOf(Operation(true, IA_NAInfo(relay, a), None, false, false))
  }

  function RemovalJob(relay: string, a: string): Job {
    JobOf(Operation(false, IA_NAInfo(relay, a), None, false, false))
  }

  function ExpiryJob(a: string): Job {
    JobOf(Operation(false, IA_NAInfoFuzzyRemove(a), None, false, false))
  }

  lemma NewJobIsProper(site: Site, op: Operation, a: string)
    requires HasAddresses(op.info) && Source(op.info) == HostPrefix(a) && a !in site.relays
    requires op.info.IA_NAInfo? || op.info.IA_NAInfoFuzzyRemove?
    requires op.info.IA_NAInfo? ==> op.info.srcVlanAddr in site.relays
    ensures Proper(site.relays, JobOf(op))
  {
    JobOfWellFormed(op);
    if JobOf(op).pending.Some? && JobOf(op).pending.value.Lookup? {
      JobLooksUp(op);
    }
    NotRelayPrefix(site, a);
  }

  /** A lookup of a relay names its interface as long as no static route covers the relay. */
  lemma RelayAnswer(site: Site, relay: string, table: Table)
    requires Truthful(site) && relay in site.relays && NoRelayRows(site.relays, table)
    ensures var p := QueriedPrefix(CreateMappingVlanAddrToVlanIdCommand(HostPrefix(relay)));
      && p == HostPrefix(relay)
      && site.switch(p, Rows(table, p)).Some?
      && Interface(site.switch(p, Rows(table, p)).value) == Some(site.interfaceOf(relay))
  {
    ShowAsks(HostPrefix(relay));
    assert IsRelayPrefix(site.relays, HostPrefix(relay));
    assert Rows(table, HostPrefix(relay)) == {};
    LeadsToNames(site.switch(HostPrefix(relay), {}), site.interfaceOf(relay));
  }

  /** An export through the relay lookup adds exactly the route to the relay's interface. */
  lemma ExportEnds(site: Site, relay: string, a: string, table: Table)
    requires Truthful(site) && relay in site.relays && NoRelayRows(site.relays, table) && IsAddr(a)
    ensures RunAlone(site.switch, ExportJob(relay, a), table) == table + {Route(HostPrefix(a), site.interfaceOf(relay))}
  {
    RelayAnswer(site, relay, table);
    ExecuteOne(CreateApplyRouteIpv6Command(HostPrefix(a), site.interfaceOf(relay)), table);
    ApplyExecutes(HostPrefix(a), site.interfaceOf(relay), table);
  }

  /** A removal through the relay lookup removes exactly that route. */
  lemma RemovalEnds(site: Site, relay: string, a: string, table: Table)
    requires Truthful(site) && relay in site.relays && NoRelayRows(site.relays, table) && IsAddr(a)
    ensures RunAlone(site.switch, RemovalJob(relay, a), table) == table - {Route(HostPrefix(a), site.interfaceOf(relay))}
  {
    RelayAnswer(site, relay, table);
    ExecuteRemoveAndClear(HostPrefix(a), site.interfaceOf(relay), table);
    RemoveExecutes(HostPrefix(a), site.interfaceOf(relay), table);
  }

  /** A removal through the lookup of the route itself removes the one route there is if its
      interface has the name of a VLAN, and otherwise does nothing. */
  lemma ExpiryEnds(site: Site, a: string, table: Table)
    requires Truthful(site) && IsAddr(a) && a !in site.relays
    requires |Rows(table, HostPrefix(a))| <= 1
    ensures RunAlone(site.switch, ExpiryJob(a), table)
         == table - set d | d in Rows(table, HostPrefix(a)) && IsValidVlanName(d) :: Route(HostPrefix(a), d)
  {
    var p := HostPrefix(a);
    var rows := Rows(table, p);
    NotRelayPrefix(site, a);
    ShowAsks(p);
    if rows == {} {
      LeadsToNames(site.switch(p, {}), "");
    } else {
      var d :| d in rows;
      assert rows == {d} by { assert |rows - {d}| == 0; }
      LeadsToNames(site.switch(p, {d}), d);
      if IsValidVlanName(d) {
        VlanNameIsWord(d);
        ExecuteRemoveAndClear(p, d, table);
        RemoveExecutes(p, d, table);
      }
    }
  }

  lemma RowsWith(table: Table, p: string, d: string)
    ensures Rows(table + {Route(p, d)}, p) == Rows(table, p) + {d}
    ensures forall q :: q != p ==> SameRows(table + {Route(p, d)}, table, q)
  {
  }

  lemma RowsWithout(table: Table, p: string, d: string)
    ensures Rows(table - {Route(p, d)}, p) == Rows(table, p) - {d}
    ensures forall q :: q != p ==> SameRows(table - {Route(p, d)}, table, q)
  {
  }

  // ----- Each event on a table that is at the goal -----

  lemma OneInOrder(switch: Switch, job: Job, table: Table)
    ensures RunInOrder(switch, [job], table) == RunAlone(switch, job, table)
  {
    assert [job][1..] == [];
  }

  lemma TwoInOrder(switch: Switch, j: Job, k: Job, table: Table)
    ensures RunInOrder(switch, [j, k], table) == RunAlone(switch, k, RunAlone(switch, j, table))
  {
    assert [j, k][1..] == [k];
    OneInOrder(switch, k, RunAlone(switch, j, table));
  }

  /** The operations an event launches. */
  function Launched(e: Event): seq<Job> {
    EffectJobs(Effects(e))
  }

  lemma LaunchedBy(e: Event)
    requires e.lease.leaseType == TYPE_NA && (!e.Expire? ==> e.message.relay.Some?)
    ensures var a := e.lease.addr;
      Launched(e) ==
        match e
        case Select(_, _, fake) => if fake then [] else [ExportJob(Relay(e), a)]
        case Renew(_, _, _) =>
          (match Named(e)
           case None => []
           case Some(b) => (if b != a then [RemovalJob(Relay(e), b)] else []) + [ExportJob(Relay(e), a)])
        case Expire(_) => [ExpiryJob(a)]
        case _ => [RemovalJob(Relay(e), a)]
  {
    var effects := Effects(e);
    if |effects| == 2 {
      assert effects == [effects[0], effects[1]];
      assert Launched(e) == [EffectJob(effects[0]), EffectJob(effects[1])];
    } else if |effects| == 1 {
      assert Launched(e) == [EffectJob(effects[0])];
    } else {
      assert Launched(e) == [];
    }
  }

  lemma ExportOnGoal(site: Site, live: Live, after: Live, relay: string, a: string)
    requires Truthful(site) && LiveProper(site, live) && relay in site.relays && IsAddr(a)
    requires live - {a} == after - {a} && RoutedTo(site, after, a, site.interfaceOf(relay))
    ensures RunAlone(site.switch, ExportJob(relay, a), Goal(site, live)) == Goal(site, after) <==>
      (a in live ==> RoutedTo(site, live, a, site.interfaceOf(relay)))
  {
    var goal, d := Goal(site, live), site.interfaceOf(relay);
    GoalHasNoRelayRows(site, live);
    ExportEnds(site, relay, a, goal);
    GoalRows(site, live, a);
    RowsWith(goal, HostPrefix(a), d);
    assert a in {a};
    IsNewGoal(site, live, after, {a}, goal + {Route(HostPrefix(a), d)});
    assert WantedRows(site, live, a) + {d} == {d} <==> (a in live ==> RoutedTo(site, live, a, d)) by {
      assert a in live ==> InterfaceFor(site, live, a) in WantedRows(site, live, a) + {d};
    }
  }

  lemma RemovalOnGoal(site: Site, live: Live, relay: string, a: string)
    requires Truthful(site) && LiveProper(site, live) && relay in site.relays && IsAddr(a)
    ensures RunAlone(site.switch, RemovalJob(relay, a), Goal(site, live)) == Goal(site, live - {a}) <==>
      (a in live ==> RoutedTo(site, live, a, site.interfaceOf(relay)))
  {
    var goal, d := Goal(site, live), site.interfaceOf(relay);
    GoalHasNoRelayRows(site, live);
    RemovalEnds(site, relay, a, goal);
    GoalRows(site, live, a);
    RowsWithout(goal, HostPrefix(a), d);
    assert a in {a};
    IsNewGoal(site, live, live - {a}, {a}, goal - {Route(HostPrefix(a), d)});
    assert WantedRows(site, live, a) - {d} == {} <==> (a in live ==> RoutedTo(site, live, a, d)) by {
      assert a in live && InterfaceFor(site, live, a) != d ==> InterfaceFor(site, live, a) in WantedRows(site, live, a) - {d};
    }
  }

  /** The expiry of a lease clears its route exactly if the route goes to a VLAN. */
  lemma ExpiryOnGoal(site: Site, live: Live, a: string)
    requires Truthful(site) && LiveProper(site, live) && IsAddr(a) && a !in site.relays
    ensures RunAlone(site.switch, ExpiryJob(a), Goal(site, live)) == Goal(site, live - {a}) <==>
      (a in live ==> IsValidVlanName(InterfaceFor(site, live, a)))
  {
    var goal, p := Goal(site, live), HostPrefix(a);
    GoalRows(site, live, a);
    ExpiryEnds(site, a, goal);
    var gone := set d | d in Rows(goal, p) && IsValidVlanName(d) :: Route(p, d);
    var table := goal - gone;
    assert a in {a};
    IsNewGoal(site, live, live - {a}, {a}, table);
    forall d ensures d in Rows(table, p) <==> d in WantedRows(site, live, a) && !IsValidVlanName(d) {
      assert d in Rows(table, p) <==> Route(p, d) in table;
      assert d in Rows(goal, p) <==> Route(p, d) in goal;
    }
    if a in live && !IsValidVlanName(InterfaceFor(site, live, a)) {
      assert InterfaceFor(site, live, a) in Rows(table, p);
    }
  }

  /** A removal at one address and an export at another, one after the other. */
  lemma MoveEnds(site: Site, relay: string, b: string, a: string, table: Table)
    requires Truthful(site) && relay in site.relays && NoRelayRows(site.relays, table) && IsAddr(a) && IsAddr(b) && a != b
    ensures var d := site.interfaceOf(relay);
      var moved := RunAlone(site.switch, ExportJob(relay, a), RunAlone(site.switch, RemovalJob(relay, b), table));
      && Rows(moved, HostPrefix(b)) == Rows(table, HostPrefix(b)) - {d}
      && Rows(moved, HostPrefix(a)) == Rows(table, HostPrefix(a)) + {d}
      && forall p :: p != HostPrefix(a) && p != HostPrefix(b) ==> SameRows(moved, table, p)
  {
    var d := site.interfaceOf(relay);
    RemovalEnds(site, relay, b, table);
    var without := table - {Route(HostPrefix(b), d)};
    ExportEnds(site, relay, a, without);
    if HostPrefix(a) == HostPrefix(b) { HostPrefixInjective(a, b); }
    RowsWithout(table, HostPrefix(b), d);
    RowsWith(without, HostPrefix(a), d);
    RowsFromSameRows(without + {Route(HostPrefix(a), d)}, without, HostPrefix(b));
    RowsFromSameRows(without, table, HostPrefix(a));
  }

  /** A renew or rebind that names another address than the leased one. */
  lemma MoveOnGoal(site: Site, live: Live, e: Event)
    requires Truthful(site) && LiveProper(site, live) && WellTimed(site, [], e)
    requires e.Renew? && Named(e).Some? && Named(e).value != e.lease.addr
    ensures var moved := RunAlone(site.switch, ExportJob(Relay(e), e.lease.addr),
                                  RunAlone(site.switch, RemovalJob(Relay(e), Named(e).value), Goal(site, live)));
      && (moved == Goal(site, LiveAfter(live, e)) <==> Fits(site, live, e))
      && Rows(moved, HostPrefix(Named(e).value)) == WantedRows(site, live, Named(e).value) - {site.interfaceOf(Relay(e))}
  {
    var a, b, relay := e.lease.addr, Named(e).value, Relay(e);
    assert a in Addresses(e) && b in Addresses(e);
    GoalHasNoRelayRows(site, live);
    MoveEnds(site, relay, b, a, Goal(site, live));
    GoalRows(site, live, a);
    GoalRows(site, live, b);
    MoveRows(site, live, e);
    var moved := RunAlone(site.switch, ExportJob(relay, a), RunAlone(site.switch, RemovalJob(relay, b), Goal(site, live)));
    IsMoved(site, live, e, a, b, moved);
  }

  lemma IsMoved(site: Site, live: Live, e: Event, a: string, b: string, moved: Table)
    requires Truthful(site) && IsAddr(a) && IsAddr(b) && e.Renew? && a == e.lease.addr && Named(e) == Some(b)
    requires forall p :: p != HostPrefix(a) && p != HostPrefix(b) ==> SameRows(moved, Goal(site, live), p)
    ensures moved == Goal(site, LiveAfter(live, e)) <==>
      && Rows(moved, HostPrefix(a)) == WantedRows(site, LiveAfter(live, e), a)
      && Rows(moved, HostPrefix(b)) == WantedRows(site, LiveAfter(live, e), b)
  {
    assert a in {a, b} && b in {a, b};
    IsNewGoal(site, live, LiveAfter(live, e), {a, b}, moved);
  }

  /** What a move leaves at its two addresses against what it should leave. */
  lemma MoveRows(site: Site, live: Live, e: Event)
    requires e.Renew? && Named(e).Some? && Named(e).value != e.lease.addr
    ensures var a, b, d, after := e.lease.addr, Named(e).value, site.interfaceOf(Relay(e)), LiveAfter(live, e);
      Fits(site, live, e) <==>
        && WantedRows(site, live, a) + {d} == WantedRows(site, after, a)
        && WantedRows(site, live, b) - {d} == WantedRows(site, after, b)
  {
    var a, b, d := e.lease.addr, Named(e).value, site.interfaceOf(Relay(e));
    if a in live { assert InterfaceFor(site, live, a) in WantedRows(site, live, a) + {d}; }
    if b in live { assert InterfaceFor(site, live, b) != d ==> InterfaceFor(site, live, b) in WantedRows(site, live, b) - {d}; }
  }

  /** An event that launches a single export. */
  predicate OnlyExports(e: Event) {
    (e.Select? && !e.fakeAllocation) || (e.Renew? && Named(e) == Some(e.lease.addr))
  }

  lemma LaunchedExport(e: Event)
    requires e.lease.leaseType == TYPE_NA && OnlyExports(e) && e.message.relay.Some?
    ensures Launched(e) == [ExportJob(Relay(e), e.lease.addr)]
  {
    LaunchedBy(e);
  }

  lemma ExportedLive(site: Site, live: Live, e: Event)
    requires OnlyExports(e)
    ensures var a, after := e.lease.addr, LiveAfter(live, e);
      && live - {a} == after - {a} && RoutedTo(site, after, a, site.interfaceOf(Relay(e)))
      && (Fits(site, live, e) <==> (a in live ==> RoutedTo(site, live, a, site.interfaceOf(Relay(e)))))
  {
  }

  lemma ExportEventOnGoal(site: Site, live: Live, e: Event)
    requires Truthful(site) && LiveProper(site, live) && WellTimed(site, [], e) && OnlyExports(e)
    ensures RunInOrder(site.switch, Launched(e), Goal(site, live)) == Goal(site, LiveAfter(live, e)) <==> Fits(site, live, e)
  {
    var a := e.lease.addr;
    assert a in Addresses(e);
    LaunchedExport(e);
    ExportedLive(site, live, e);
    OneInOrder(site.switch, ExportJob(Relay(e), a), Goal(site, live));
    ExportOnGoal(site, live, LiveAfter(live, e), Relay(e), a);
  }

  lemma ExpireOnGoal(site: Site, live: Live, e: Event)
    requires Truthful(site) && LiveProper(site, live) && WellTimed(site, [], e) && e.Expire?
    ensures RunInOrder(site.switch, Launched(e), Goal(site, live)) == Goal(site, LiveAfter(live, e)) <==> Fits(site, live, e)
  {
    var a := e.lease.addr;
    assert a in Addresses(e);
    LaunchedBy(e);
    assert Launched(e) == [ExpiryJob(a)];
    OneInOrder(site.switch, ExpiryJob(a), Goal(site, live));
    ExpiryOnGoal(site, live, a);
  }

  lemma GiveUpOnGoal(site: Site, live: Live, e: Event)
    requires Truthful(site) && LiveProper(site, live) && WellTimed(site, [], e) && (e.Release? || e.Decline?)
    ensures RunInOrder(site.switch, Launched(e), Goal(site, live)) == Goal(site, LiveAfter(live, e)) <==> Fits(site, live, e)
  {
    var a := e.lease.addr;
    assert a in Addresses(e);
    LaunchedBy(e);
    assert Launched(e) == [RemovalJob(Relay(e), a)];
    OneInOrder(site.switch, RemovalJob(Relay(e), a), Goal(site, live));
    RemovalOnGoal(site, live, Relay(e), a);
  }

  /** On a table at the goal, an event alone leads to the new goal exactly if it fits. */
  lemma EventOnGoal(site: Site, live: Live, e: Event)
    requires Truthful(site) && LiveProper(site, live) && WellTimed(site, [], e)
    ensures RunInOrder(site.switch, Launched(e), Goal(site, live)) == Goal(site, LiveAfter(live, e)) <==> Fits(site, live, e)
  {
    match e
    case Select(_, _, fake) =>
      if fake {
        LaunchedBy(e);
      } else {
        ExportEventOnGoal(site, live, e);
      }
    case Renew(_, lease, _) =>
      if Named(e).None? {
        LaunchedBy(e);
        UnnamedRenew(site, live, e);
      } else if Named(e).value == lease.addr {
        ExportEventOnGoal(site, live, e);
      } else {
        NamedRenewEnds(site, live, e);
        MoveOnGoal(site, live, e);
      }
    case Expire(_) => ExpireOnGoal(site, live, e);
    case _ => GiveUpOnGoal(site, live, e);
  }

  lemma UnnamedRows(site: Site, live: Live, e: Event)
    requires e.Renew? && Named(e).None?
    ensures var a, after := e.lease.addr, LiveAfter(live, e);
      && live - {a} == after - {a}
      && (Fits(site, live, e) <==> WantedRows(site, live, a) == WantedRows(site, after, a))
  {
    assert site.interfaceOf(Relay(e)) in WantedRows(site, LiveAfter(live, e), e.lease.addr);
  }

  /** A renew that names no address throws; nothing is lost only if the route is there already. */
  lemma UnnamedRenew(site: Site, live: Live, e: Event)
    requires Truthful(site) && LiveProper(site, live) && WellTimed(site, [], e) && e.Renew? && Named(e).None?
    ensures Goal(site, live) == Goal(site, LiveAfter(live, e)) <==> Fits(site, live, e)
  {
    var a, after := e.lease.addr, LiveAfter(live, e);
    assert a in Addresses(e);
    UnnamedRows(site, live, e);
    SameGoal(site, live, after, a);
  }

  lemma SameGoal(site: Site, live: Live, after: Live, a: string)
    requires Truthful(site) && IsAddr(a) && live - {a} == after - {a}
    ensures Goal(site, live) == Goal(site, after) <==> WantedRows(site, live, a) == WantedRows(site, after, a)
  {
    GoalRows(site, live, a);
    assert a in {a};
    IsNewGoal(site, live, after, {a}, Goal(site, live));
  }

  // ----- Steps and runs -----

  datatype State = State(live: Live, table: Table, jobs: seq<Job>)

  datatype Action = Happen(event: Event) | Work(index: nat)

  function Initial(site: Site): State {
    State(map[], site.foreign, [])
  }

  ghost predicate Enabled(site: Site, s: State, action: Action) {
    match action
    case Happen(e) => WellTimed(site, s.jobs, e) && Fits(site, s.live, e)
    case Work(i) => i < |s.jobs| && s.jobs[i].pending.Some?
  }

  function Next(site: Site, s: State, action: Action): State
    requires action.Work? ==> action.index < |s.jobs|
  {
    match action
    case Happen(e) => State(LiveAfter(s.live, e), s.table, s.jobs + Launched(e))
    case Work(i) =>
      State(s.live, StepTable(s.jobs[i], s.table), s.jobs[i := StepJob(site.switch, s.jobs[i], s.table)])
  }

  ghost predicate IsRun(site: Site, s: State, actions: seq<Action>)
    decreases |actions|
  {
    actions == [] || (Enabled(site, s, actions[0]) && IsRun(site, Next(site, s, actions[0]), actions[1..]))
  }

  ghost function After(site: Site, s: State, actions: seq<Action>): State
    requires IsRun(site, s, actions)
    decreases |actions|
  {
    if actions == [] then s else After(site, Next(site, s, actions[0]), actions[1..])
  }

  predicate Quiet(s: State) {
    forall i :: 0 <= i < |s.jobs| ==> s.jobs[i].pending.None?
  }

  ghost predicate Inv(site: Site, s: State) {
    LiveProper(site, s.live) && Settles(site.relays, site.switch, s.table, s.jobs, Goal(site, s.live))
  }

  lemma InitialInv(site: Site)
    requires Truthful(site)
    ensures Inv(site, Initial(site))
  {
    GoalHasNoRelayRows(site, map[]);
    assert Goal(site, map[]) == site.foreign;
  }

  lemma ClientJobsLaunch(site: Site, jobs: seq<Job>, relay: string, a: string)
    requires relay in site.relays && (forall r :: r in site.relays ==> IsAddr(r))
    requires IsAddr(a) && a !in site.relays && !InFlight(jobs, HostPrefix(a))
    ensures CanLaunch(site.relays, jobs, ExportJob(relay, a)) && CanLaunch(site.relays, jobs, RemovalJob(relay, a))
  {
    NewJobIsProper(site, Operation(true, IA_NAInfo(relay, a), None, false, false), a);
    NewJobIsProper(site, Operation(false, IA_NAInfo(relay, a), None, false, false), a);
  }

  lemma LaunchedIsProper(site: Site, jobs: seq<Job>, e: Event)
    requires Truthful(site) && WellTimed(site, jobs, e)
    ensures Launchable(site.relays, jobs, Launched(e))
  {
    var a, relay := e.lease.addr, Relay(e);
    LaunchedBy(e);
    assert a in Addresses(e);
    if e.Expire? {
      NewJobIsProper(site, Operation(false, IA_NAInfoFuzzyRemove(a), None, false, false), a);
      OneLaunchable(site.relays, jobs, ExpiryJob(a));
    } else {
      ClientJobsLaunch(site, jobs, relay, a);
      OneLaunchable(site.relays, jobs, ExportJob(relay, a));
      OneLaunchable(site.relays, jobs, RemovalJob(relay, a));
      if Named(e).Some? && Named(e).value != a {
        var b := Named(e).value;
        assert b in Addresses(e);
        ClientJobsLaunch(site, jobs, relay, b);
        if HostPrefix(b) == HostPrefix(a) { HostPrefixInjective(b, a); }
        TwoLaunchable(site.relays, jobs, RemovalJob(relay, b), ExportJob(relay, a));
        assert Launched(e) == [RemovalJob(relay, b), ExportJob(relay, a)];
      }
    }
  }

  lemma LiveAfterIsProper(site: Site, live: Live, jobs: seq<Job>, e: Event)
    requires LiveProper(site, live) && WellTimed(site, jobs, e)
    ensures LiveProper(site, LiveAfter(live, e))
  {
    assert e.lease.addr in Addresses(e);
  }

  /** Whatever else is in flight, an event settles the table where it would lead alone. */
  lemma EventSettles(site: Site, s: State, e: Event)
    requires Truthful(site) && Inv(site, s) && WellTimed(site, s.jobs, e)
    ensures var t := Next(site, s, Happen(e));
      Settles(site.relays, site.switch, t.table, t.jobs, RunInOrder(site.switch, Launched(e), Goal(site, s.live)))
    ensures RunInOrder(site.switch, Launched(e), Goal(site, s.live)) == Goal(site, LiveAfter(s.live, e)) <==>
      Fits(site, s.live, e)
  {
    LaunchedIsProper(site, s.jobs, e);
    LaunchAllSettles(site.relays, site.switch, s.table, s.jobs, Goal(site, s.live), Launched(e));
    EventOnGoal(site, s.live, e);
  }

  lemma StepKeepsInv(site: Site, s: State, action: Action)
    requires Truthful(site) && Inv(site, s) && Enabled(site, s, action)
    ensures Inv(site, Next(site, s, action))
  {
    match action
    case Happen(e) =>
      EventSettles(site, s, e);
      LiveAfterIsProper(site, s.live, s.jobs, e);
    case Work(i) => WorkKeepsSettling(site.relays, site.switch, s.table, s.jobs, Goal(site, s.live), i);
  }

  // ----- Refinement -----

  lemma {:induction false} RunKeepsInv(site: Site, s: State, actions: seq<Action>)
    requires Truthful(site) && Inv(site, s) && IsRun(site, s, actions)
    ensures Inv(site, After(site, s, actions))
    decreases |actions|
  {
    if actions != [] {
      StepKeepsInv(site, s, actions[0]);
      RunKeepsInv(site, Next(site, s, actions[0]), actions[1..]);
    }
  }

  /** After any run of fitting lease events interleaved with the requests they cause, an address
      that no operation in flight is about has exactly the route its live lease calls for, routes
      of other prefixes are untouched, and when nothing is in flight the whole table is the image
      of the live leases beside the foreign routes. */
  lemma TableIsImageOfLiveLeases(site: Site, actions: seq<Action>)
    requires Truthful(site) && IsRun(site, Initial(site), actions)
    ensures var s := After(site, Initial(site), actions);
      && (forall a :: IsAddr(a) && !InFlight(s.jobs, HostPrefix(a)) ==>
            Rows(s.table, HostPrefix(a)) == WantedRows(site, s.live, a))
      && (forall p :: !InFlight(s.jobs, p) ==> SameRows(s.table, Goal(site, s.live), p))
      && (Quiet(s) ==> s.table == Image(site, s.live) + site.foreign)
  {
    InitialInv(site);
    RunKeepsInv(site, Initial(site), actions);
    var s := After(site, Initial(site), actions);
    forall a | IsAddr(a) && !InFlight(s.jobs, HostPrefix(a))
      ensures Rows(s.table, HostPrefix(a)) == WantedRows(site, s.live, a)
    {
      GoalRows(site, s.live, a);
      RowsFromSameRows(s.table, Goal(site, s.live), HostPrefix(a));
    }
    if Quiet(s) {
      SettlingEnds(site.relays, site.switch, s.table, s.jobs, Goal(site, s.live), []);
    }
  }

  /** Eventual consistency: whatever is still in flight, finishing it in any order brings the
      table to the image of the live leases. */
  lemma FinishingReachesImage(site: Site, s: State, schedule: seq<nat>)
    requires Truthful(site) && Inv(site, s) && IsComplete(site.switch, s.jobs, s.table, schedule)
    ensures Scheduled(site.switch, s.jobs, s.table, schedule) == Image(site, s.live) + site.foreign
  {
    SettlingEnds(site.relays, site.switch, s.table, s.jobs, Goal(site, s.live), schedule);
  }

  /** Any event, fitting or not, in any reachable state: once everything in flight is finished,
      in any order, the table is the image of the live leases if and only if the event fits. */
  lemma EventReachesImageWhen(site: Site, s: State, e: Event)
    requires Truthful(site) && Inv(site, s) && WellTimed(site, s.jobs, e)
    ensures var t := Next(site, s, Happen(e));
      forall schedule :: IsComplete(site.switch, t.jobs, t.table, schedule) ==>
        (Scheduled(site.switch, t.jobs, t.table, schedule) == Image(site, t.live) + site.foreign <==> Fits(site, s.live, e))
  {
    var t := Next(site, s, Happen(e));
    var goal := RunInOrder(site.switch, Launched(e), Goal(site, s.live));
    EventSettles(site, s, e);
    forall schedule | IsComplete(site.switch, t.jobs, t.table, schedule)
      ensures Scheduled(site.switch, t.jobs, t.table, schedule) == goal
    {
      SettlingEnds(site.relays, site.switch, t.table, t.jobs, goal, schedule);
    }
  }

  /** Two leases of one client, for IAIDs 1 and 2. */
  function BothLive(duid: string, relay: string, a1: string, a2: string): Live {
    map[a1 := Holder(Some(duid), 1, relay), a2 := Holder(Some(duid), 2, relay)]
  }

  /** The hook for the second lease of a message that names both. */
  function SecondRenew(duid: string, relay: string, a1: string, a2: string, transid: nat, isRebind: bool): Event {
    Renew(Message(Some(relay), transid, [Some(a1), Some(a2)], []),
          Lease(TYPE_NA, a2, 128, 2, Some(duid), Default, None), isRebind)
  }

  lemma SecondRenewFacts(site: Site, duid: string, relay: string, a1: string, a2: string, transid: nat, isRebind: bool)
    requires relay in site.relays && a1 != a2
    requires IsAddr(a1) && IsAddr(a2) && a1 !in site.relays && a2 !in site.relays
    ensures var live, e := BothLive(duid, relay, a1, a2), SecondRenew(duid, relay, a1, a2, transid, isRebind);
      && LiveProper(site, live) && WellTimed(site, [], e)
      && LiveAfter(live, e) == live && Named(e) == Some(a1) && Relay(e) == relay && !Fits(site, live, e)
  {
    var e := SecondRenew(duid, relay, a1, a2, transid, isRebind);
    assert Named(e) == Some(a1) && Addresses(e) == {a1, a2};
  }

  /** One client with two IA_NA options, both leased, renews: the hook for the second lease reads
      the first option and removes the live route of the first lease. */
  lemma SecondIaNaRemovesFirst(site: Site, duid: string, relay: string, a1: string, a2: string,
                               transid: nat, isRebind: bool)
    requires Truthful(site) && relay in site.relays && a1 != a2
    requires IsAddr(a1) && IsAddr(a2) && a1 !in site.relays && a2 !in site.relays
    ensures var live, e := BothLive(duid, relay, a1, a2), SecondRenew(duid, relay, a1, a2, transid, isRebind);
      && a1 in LiveAfter(live, e) && LiveAfter(live, e) == live
      && forall schedule :: IsComplete(site.switch, Launched(e), Goal(site, live), schedule) ==>
           var end := Scheduled(site.switch, Launched(e), Goal(site, live), schedule);
           Rows(end, HostPrefix(a1)) == {} && end != Image(site, live) + site.foreign
  {
    var live, e := BothLive(duid, relay, a1, a2), SecondRenew(duid, relay, a1, a2, transid, isRebind);
    SecondRenewFacts(site, duid, relay, a1, a2, transid, isRebind);
    EventEnds(site, live, e);
    NamedRenewEnds(site, live, e);
    MoveOnGoal(site, live, e);
  }

  /** From a quiet table at the goal, an event leads where its operations lead in order. */
  lemma EventEnds(site: Site, live: Live, e: Event)
    requires Truthful(site) && LiveProper(site, live) && WellTimed(site, [], e)
    ensures forall schedule :: IsComplete(site.switch, Launched(e), Goal(site, live), schedule) ==>
      Scheduled(site.switch, Launched(e), Goal(site, live), schedule) == RunInOrder(site.switch, Launched(e), Goal(site, live))
  {
    var goal := Goal(site, live);
    assert Settles(site.relays, site.switch, goal, [], goal) by {
      GoalHasNoRelayRows(site, live);
    }
    LaunchedIsProper(site, [], e);
    LaunchAllSettles(site.relays, site.switch, goal, [], goal, Launched(e));
    assert [] + Launched(e) == Launched(e);
    forall schedule | IsComplete(site.switch, Launched(e), goal, schedule)
      ensures Scheduled(site.switch, Launched(e), goal, schedule) == RunInOrder(site.switch, Launched(e), goal)
    {
      SettlingEnds(site.relays, site.switch, goal, Launched(e), RunInOrder(site.switch, Launched(e), goal), schedule);
    }
  }

  lemma NamedRenewEnds(site: Site, live: Live, e: Event)
    requires e.lease.leaseType == TYPE_NA && e.Renew? && e.message.relay.Some?
    requires Named(e).Some? && Named(e).value != e.lease.addr
    ensures RunInOrder(site.switch, Launched(e), Goal(site, live))
         == RunAlone(site.switch, ExportJob(Relay(e), e.lease.addr),
                     RunAlone(site.switch, RemovalJob(Relay(e), Named(e).value), Goal(site, live)))
  {
    LaunchedBy(e);
    var j, k := RemovalJob(Relay(e), Named(e).value), ExportJob(Relay(e), e.lease.addr);
    assert Launched(e) == [j, k];
    TwoInOrder(site.switch, j, k, Goal(site, live));
  }
}
