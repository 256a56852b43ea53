/** Exporting and removing routes: which requests are posted, and how the callback of a
    lookup continues. */
module ManagementClient {
  import opened Common
  import opened LeaseUtils
  import opened RouteLookup
  import opened SwitchText

  datatype RouteInfo =
    | IA_NAInfo(srcVlanAddr: string, iaNaAddr: string)
    | IA_PDInfo(dstIaNaAddr: string, iaPdPrefix: string, iaPdLength: nat)
    | IA_NAInfoFuzzyRemove(iaNaAddr: string)
    | IA_PDInfoFuzzyRemove(iaPdPrefix: string, iaPdLength: nat)
    | IA_NAFast(srcVlanIfName: string, iaNaAddr: string)

  datatype RouteExport = RouteExport(tid: nat, iaid: nat, duid: Option<string>, routeInfo: RouteInfo)

  /** What the callback of a lookup has captured. */
  datatype Continuation =
    | ApplyViaRelay(src: string)
    | RemoveViaRelay(src: string)
    | RemoveByInterface(src: string)
    | RemoveByNextHop(src: string)

  /** A posted request: one lookup with its callback, or command lines to run in order. */
  datatype Request =
    | Lookup(command: string, next: Continuation)
    | Commands(commands: seq<string>)

  /** The prefix text an operation is about. */
  function Source(info: RouteInfo): string {
    match info
    case IA_NAInfo(_, addr) => HostPrefix(addr)
    case IA_PDInfo(_, prefix, length) => PrefixText(prefix, length)
    case IA_NAInfoFuzzyRemove(addr) => HostPrefix(addr)
    case IA_PDInfoFuzzyRemove(prefix, length) => PrefixText(prefix, length)
    case IA_NAFast(_, addr) => HostPrefix(addr)
  }

  /** The request an export posts; none for the removal-only kinds. */
  function ExportRequest(info: RouteInfo): Option<Request> {
    match info
    case IA_NAInfo(relay, addr) =>
      Some(Lookup(CreateMappingVlanAddrToVlanIdCommand(HostPrefix(relay)), ApplyViaRelay(HostPrefix(addr))))
    case IA_NAFast(ifName, addr) =>
      Some(Commands([CreateApplyRouteIpv6Command(HostPrefix(addr), ifName)]))
    case IA_PDInfo(dst, prefix, length) =>
      Some(Commands([CreateApplyRouteIpv6Command(PrefixText(prefix, length), dst)]))
    case _ => None
  }

  /** The request a removal posts.  `active` is the address of the client's active IA_NA
      lease, which only the fuzzy IA_PD removal looks at. */
  function RemovalRequest(info: RouteInfo, active: Option<string>): Option<Request> {
    match info
    case IA_NAInfo(relay, addr) =>
      Some(Lookup(CreateMappingVlanAddrToVlanIdCommand(HostPrefix(relay)), RemoveViaRelay(HostPrefix(addr))))
    case IA_PDInfo(dst, prefix, length) =>
      Some(Commands([CreateRemoveRouteIpv6Command(PrefixText(prefix, length), dst)]))
    case IA_NAInfoFuzzyRemove(addr) =>
      Some(Lookup(CreateMappingVlanAddrToVlanIdCommand(HostPrefix(addr)), RemoveByInterface(HostPrefix(addr))))
    case IA_PDInfoFuzzyRemove(prefix, length) =>
      (match active
       case Some(addr) => Some(Commands([CreateRemoveRouteIpv6Command(PrefixText(prefix, length), HostPrefix(addr))]))
       case None =>
         var src := PrefixText(prefix, length);
         Some(Lookup(CreateMappingVlanAddrToVlanIdCommand(src), RemoveByNextHop(src))))
    case IA_NAFast(_, _) => None
  }

  function RemoveAndClear(src: string, ifName: string): seq<string> {
    [CreateRemoveRouteIpv6Command(src, ifName), CreateRemoveNDCacheEntryIpv6Command(ifName)]
  }

  /** The commands a callback posts when the lookup answered; none if the answer lacks what
      it needs. */
  function Continue(next: Continuation, response: RouteLookupResponse): Option<seq<string>> {
    match next
    case ApplyViaRelay(src) =>
      var ifName := Interface(response);
      if ifName.None? then None else Some([CreateApplyRouteIpv6Command(src, ifName.value)])
    case RemoveViaRelay(src) =>
      var ifName := Interface(response);
      if ifName.None? then None else Some(RemoveAndClear(src, ifName.value))
    case RemoveByInterface(src) =>
      var ifName := VlanInterface(response);
      if ifName.None? then None else Some(RemoveAndClear(src, ifName.value))
    case RemoveByNextHop(src) =>
      var hop := NextHop(response);
      if hop.None? then None else Some([CreateRemoveRouteIpv6Command(src, hop.value)])
  }

  /** The request, now or from its callback, adds routes for the prefix and does nothing else. */
  ghost predicate InstallsAt(request: Request, src: string) {
    match request
    case Lookup(_, next) => next == ApplyViaRelay(src)
    case Commands(commands) => exists d :: commands == [CreateApplyRouteIpv6Command(src, d)]
  }

  /** The request, now or from its callback, removes routes for the prefix and adds none. */
  ghost predicate RemovesAt(request: Request, src: string) {
    match request
    case Lookup(_, next) => next.src == src && !next.ApplyViaRelay?
    case Commands(commands) =>
      || (exists d :: commands == [CreateRemoveRouteIpv6Command(src, d)])
      || (exists d :: commands == RemoveAndClear(src, d))
  }

  // ----- What is posted, in the lines the switch reads -----

  /** What an export has to post: for a relayed address a question about the relay's address, whose
      answer is for the leased address; otherwise the line that adds the route. */
  ghost predicate ExportPosts(info: RouteInfo, posted: seq<Request>) {
    match info
    case IA_NAInfo(relay, addr) =>
      exists q, src :: SpellsSubnet(q, relay, 128) && SpellsSubnet(src, addr, 128) &&
        posted == [Lookup("show ipv6 route " + q, ApplyViaRelay(src))]
    case IA_NAFast(ifName, addr) =>
      exists src :: SpellsSubnet(src, addr, 128) && posted == [Commands(["ipv6 route " + src + " " + ifName])]
    case IA_PDInfo(dst, prefix, length) =>
      exists src :: SpellsSubnet(src, prefix, length) && posted == [Commands(["ipv6 route " + src + " " + dst])]
    case _ => posted == []
  }

  /** What a removal has to post.  With an active IA_NA address the fuzzy IA_PD removal names that
      address with a length, which is what the code does. */
  ghost predicate RemovalPosts(info: RouteInfo, active: Option<string>, posted: seq<Request>) {
    match info
    case IA_NAInfo(relay, addr) =>
      exists q, src :: SpellsSubnet(q, relay, 128) && SpellsSubnet(src, addr, 128) &&
        posted == [Lookup("show ipv6 route " + q, RemoveViaRelay(src))]
    case IA_PDInfo(dst, prefix, length) =>
      exists src :: SpellsSubnet(src, prefix, length) && posted == [Commands(["no ipv6 route " + src + " " + dst])]
    case IA_NAInfoFuzzyRemove(addr) =>
      exists src :: SpellsSubnet(src, addr, 128) && posted == [Lookup("show ipv6 route " + src, RemoveByInterface(src))]
    case IA_PDInfoFuzzyRemove(prefix, length) =>
      if active.Some? then
        exists src, dst :: SpellsSubnet(src, prefix, length) && SpellsSubnet(dst, active.value, 128) &&
          posted == [Commands(["no ipv6 route " + src + " " + dst])]
      else
        exists src :: SpellsSubnet(src, prefix, length) && posted == [Lookup("show ipv6 route " + src, RemoveByNextHop(src))]
    case IA_NAFast(_, _) => posted == []
  }

  /** The name that a callback looks for in a path. */
  predicate PathNames(next: Continuation, path: RowPath, name: string) {
    match next
    case RemoveByInterface(_) => IsFirstVlan(path.ifname, name)
    case RemoveByNextHop(_) => IsFirstPresent(path.ipnexthop, name)
    case _ => IsFirstPresent(path.ifname, name)
  }

  /** The answer has a single path, and that has the name. */
  ghost predicate Answers(next: Continuation, response: Option<RouteLookupResponse>, name: string) {
    response.Some? && exists path :: HasPath(response.value, path) && PathNames(next, path, name)
  }

  /** The lines that follow a lookup. */
  function FollowUp(next: Continuation, name: string): seq<string> {
    match next
    case ApplyViaRelay(src) => ["ipv6 route " + src + " " + name]
    case RemoveByNextHop(src) => ["no ipv6 route " + src + " " + name]
    case _ => ["no ipv6 route " + next.src + " " + name, "clear ipv6 neighbor " + name + " force-delete"]
  }

  lemma ExportRequestPosts(info: RouteInfo)
    ensures ExportPosts(info, ToSeq(ExportRequest(info)))
  {
    match info
    case IA_NAInfo(relay, addr) =>
      HostPrefixSpells(relay);
      HostPrefixSpells(addr);
    case IA_NAFast(_, addr) => HostPrefixSpells(addr);
    case IA_PDInfo(_, prefix, length) => PrefixTextSpells(prefix, length);
    case _ =>
  }

  lemma RemovalRequestPosts(info: RouteInfo, active: Option<string>)
    ensures RemovalPosts(info, active, ToSeq(RemovalRequest(info, active)))
  {
    match info
    case IA_NAInfo(relay, addr) =>
      HostPrefixSpells(relay);
      HostPrefixSpells(addr);
    case IA_PDInfo(_, prefix, length) => PrefixTextSpells(prefix, length);
    case IA_NAInfoFuzzyRemove(addr) => HostPrefixSpells(addr);
    case IA_PDInfoFuzzyRemove(prefix, length) =>
      PrefixTextSpells(prefix, length);
      if active.Some? { HostPrefixSpells(active.value); }
    case IA_NAFast(_, _) =>
  }

  lemma ContinueFollowsUp(next: Continuation, response: RouteLookupResponse, name: string)
    ensures Answers(next, Some(response), name) <==> Continue(next, response) == Some(FollowUp(next, name))
    ensures Continue(next, response).Some? ==> exists n :: Continue(next, response) == Some(FollowUp(next, n))
  {
    var path := ThePath(response);
    forall p ensures HasPath(response, p) <==> path == Some(p) {
      ThePathIs(response, p);
    }
    if path.Some? {
      AnswerNames(response, path.value, name);
      var found := match next
        case RemoveByInterface(_) => VlanInterface(response)
        case RemoveByNextHop(_) => NextHop(response)
        case _ => Interface(response);
      if found.Some? {
        AnswerNames(response, path.value, found.value);
        FollowUpNames(next, name, found.value);
        assert Continue(next, response) == Some(FollowUp(next, found.value));
      }
    }
  }

  /** The lines tell the names apart. */
  lemma FollowUpNames(next: Continuation, a: string, b: string)
    ensures FollowUp(next, a) == FollowUp(next, b) <==> a == b
  {
    if FollowUp(next, a) == FollowUp(next, b) {
      var head := (if next.ApplyViaRelay? then "ipv6 route " else "no ipv6 route ") + next.src + " ";
      assert FollowUp(next, a)[0] == head + a && FollowUp(next, b)[0] == head + b;
      assert (head + a)[|head|..] == a && (head + b)[|head|..] == b;
    }
  }

  function ToSeq<T>(o: Option<T>): seq<T> {
    if o.None? then [] else [o.value]
  }

  /** The client as an object: `posted` is what it has handed to its io_service so far. */
  class NXOSManagementClient {
    var posted: seq<Request>

    constructor ()
      ensures posted == []
    {
      posted := [];
    }

    method SendRequest(request: Request)
      modifies this
      ensures posted == old(posted) + [request]
    {
      posted := posted + [request];
    }

    /** An export posts its one request, or nothing for a kind that cannot be exported. */
    method SendRoutesToSwitch(route: RouteExport)
      modifies this
      ensures posted == old(posted) + ToSeq(ExportRequest(route.routeInfo))
      ensures forall r :: r in posted[|old(posted)|..] ==> InstallsAt(r, Source(route.routeInfo))
      ensures ExportPosts(route.routeInfo, posted[|old(posted)|..])
    {
      ExportRequestPosts(route.routeInfo);
      assert forall more :: (posted + more)[|posted|..] == more;
      match route.routeInfo {
        case IA_NAInfo(srcVlanAddr, iaNaAddr) =>
          var linkAddrStr := srcVlanAddr + "/128";
          var iaNaAddrStr := iaNaAddr + "/128";
          AsyncLookupAddressInternal(linkAddrStr, ApplyViaRelay(iaNaAddrStr));
        case IA_NAFast(srcVlanIfName, iaNaAddr) =>
          var iaNaAddrStr := iaNaAddr + "/128";
          SendRequest(Commands([CreateApplyRouteIpv6Command(iaNaAddrStr, srcVlanIfName)]));
        case IA_PDInfo(dstIaNaAddr, iaPdPrefix, iaPdLength) =>
          var srcSubnetStr := iaPdPrefix + "/" + Decimal(iaPdLength);
          SendRequest(Commands([CreateApplyRouteIpv6Command(srcSubnetStr, dstIaNaAddr)]));
        case _ =>
      }
    }

    method AsyncLookupAddressInternal(lookupAddr: string, next: Continuation)
      modifies this
      ensures posted == old(posted) + [Lookup(CreateMappingVlanAddrToVlanIdCommand(lookupAddr), next)]
    {
      SendRequest(Lookup(CreateMappingVlanAddrToVlanIdCommand(lookupAddr), next));
    }

    /** A removal posts its one request; `implemented` is false where the code throws. */
    method RemoveRoutesFromSwitch(db: LeaseDatabase, route: RouteExport) returns (implemented: bool)
      modifies this
      ensures posted == old(posted) + ToSeq(RemovalRequest(route.routeInfo, ActiveFor(db, route.duid, route.iaid)))
      ensures forall r :: r in posted[|old(posted)|..] ==> RemovesAt(r, Source(route.routeInfo))
      ensures implemented <==> !route.routeInfo.IA_NAFast?
      ensures RemovalPosts(route.routeInfo, ActiveFor(db, route.duid, route.iaid), posted[|old(posted)|..])
    {
      RemovalRequestPosts(route.routeInfo, ActiveFor(db, route.duid, route.iaid));
      assert forall more :: (posted + more)[|posted|..] == more;
      implemented := true;
      match route.routeInfo {
        case IA_NAInfo(srcVlanAddr, iaNaAddr) =>
          var linkAddrStr := srcVlanAddr + "/128";
          var iaNaAddrStr := iaNaAddr + "/128";
          AsyncLookupAddressInternal(linkAddrStr, RemoveViaRelay(iaNaAddrStr));
        case IA_PDInfo(dstIaNaAddr, iaPdPrefix, iaPdLength) =>
          var srcSubnetStr := iaPdPrefix + "/" + Decimal(iaPdLength);
          SendRequest(Commands([CreateRemoveRouteIpv6Command(srcSubnetStr, dstIaNaAddr)]));
        case IA_NAInfoFuzzyRemove(iaNaAddr) =>
          var iaNaAddrStr := iaNaAddr + "/128";
          AsyncLookupAddressInternal(iaNaAddrStr, RemoveByInterface(iaNaAddrStr));
        case IA_PDInfoFuzzyRemove(iaPdPrefix, iaPdLength) =>
          var srcSubnetStr := iaPdPrefix + "/" + Decimal(iaPdLength);
          var leaseIaNa := FindIA_NALeaseByDUID_IAID(db, route.duid, route.iaid);
          if leaseIaNa.Some? {
            var dstIaNaAddrStr := leaseIaNa.value.addr + "/128";
            SendRequest(Commands([CreateRemoveRouteIpv6Command(srcSubnetStr, dstIaNaAddrStr)]));
            return;
          }
          AsyncLookupAddressInternal(srcSubnetStr, RemoveByNextHop(srcSubnetStr));
        case IA_NAFast(_, _) =>
          implemented := false;
      }
    }

    /** The callback of a lookup: posts the follow-up command or drops the operation.  The two
        callbacks of expiry let the exception out (`threw`), the others return quietly. */
    method HandleLookup(next: Continuation, response: Option<RouteLookupResponse>) returns (threw: bool)
      modifies this
      ensures var follows := response.Some? && Continue(next, response.value).Some?;
        && posted == old(posted) + (if follows then [Commands(Continue(next, response.value).value)] else [])
        && (threw <==> response.Some? && !follows && (next.RemoveByInterface? || next.RemoveByNextHop?))
      ensures forall r :: r in posted[|old(posted)|..] ==>
        if next.ApplyViaRelay? then InstallsAt(r, next.src) else RemovesAt(r, next.src)
      ensures forall name :: Answers(next, response, name) ==> posted == old(posted) + [Commands(FollowUp(next, name))]
      ensures (forall name :: !Answers(next, response, name)) ==> posted == old(posted)
    {
      if response.Some? {
        forall name
          ensures Answers(next, response, name) <==> Continue(next, response.value) == Some(FollowUp(next, name))
          ensures Continue(next, response.value).Some? ==> exists n :: Continue(next, response.value) == Some(FollowUp(next, n))
        {
          ContinueFollowsUp(next, response.value, name);
        }
        ContinueFollowsUp(next, response.value, "");
      }
      threw := false;
      if response.None? {
        return;
      }
      var path := ThePath(response.value);
      if path.None? {
        threw := next.RemoveByInterface? || next.RemoveByNextHop?;
        return;
      }
      match next {
        case ApplyViaRelay(src) =>
          var resultIt := FindFirst(path.value.ifname, AnyName);
          if resultIt.Some? {
            SendRequest(Commands([CreateApplyRouteIpv6Command(src, resultIt.value)]));
          }
        case RemoveViaRelay(src) =>
          var resultIt := FindFirst(path.value.ifname, AnyName);
          if resultIt.Some? {
            SendRequest(Commands(RemoveAndClear(src, resultIt.value)));
          }
        case RemoveByInterface(src) =>
          var resultIt := FindFirst(path.value.ifname, IsValidVlanName);
          if resultIt.None? {
            threw := true;
            return;
          }
          SendRequest(Commands(RemoveAndClear(src, resultIt.value)));
        case RemoveByNextHop(src) =>
          var resultIt := FindFirst(path.value.ipnexthop, AnyName);
          if resultIt.None? {
            threw := true;
            return;
          }
          SendRequest(Commands([CreateRemoveRouteIpv6Command(src, resultIt.value)]));
      }
    }
  }
}
