/** The lease hooks: which routes each hook exports and removes. */
module LeaseHandlers {
  import opened Common
  import opened LeaseUtils
  import opened ManagementClient
  import opened SwitchText

  /** The client's message: the relay's link address if it was relayed, the transaction, and the
      address or prefix inside each of its IA_NA and IA_PD options, if the option has one. */
  datatype Message = Message(
    relay: Option<string>, transid: nat, iaNas: seq<Option<string>>, iaPds: seq<Option<(string, nat)>>)

  /** What the handlers read from it. */
  datatype Query = Query(relay: string, transid: nat, iaAddr: Option<string>, iaPrefix: Option<(string, nat)>)

  /** Only the first IA_NA and the first IA_PD option are ever looked at, whichever option the
      hook is called for; reading the relay of an unrelayed message throws. */
  function Read(message: Message): Result<Query> {
    match message.relay
    case None => Err
    case Some(relay) =>
      Ok(Query(relay, message.transid,
               if message.iaNas == [] then None else message.iaNas[0],
               if message.iaPds == [] then None else message.iaPds[0]))
  }

  /** A call into the service. */
  datatype Effect = ExportRoute(route: RouteExport) | RemoveRoute(route: RouteExport)

  function RouteFor(query: Query, lease: Lease, info: RouteInfo): RouteExport {
    RouteExport(query.transid, lease.iaid, lease.duid, info)
  }

  function ActiveAddress(db: LeaseDatabase, lease: Lease): Option<string> {
    ActiveFor(db, lease.duid, lease.iaid)
  }

  function SelectEffects(db: LeaseDatabase, query: Query, lease: Lease, fakeAllocation: bool): seq<Effect> {
    if fakeAllocation then []
    else match lease.leaseType
      case TYPE_NA => [ExportRoute(RouteFor(query, lease, IA_NAInfo(query.relay, lease.addr)))]
      case TYPE_PD =>
        (match ActiveAddress(db, lease)
         case Some(dst) => [ExportRoute(RouteFor(query, lease, IA_PDInfo(dst, lease.addr, lease.prefixLength)))]
         case None => [])
      case _ => []
  }

  function ExpireEffects(lease: Lease): seq<Effect> {
    match lease.leaseType
    case TYPE_NA => [RemoveRoute(RouteExport(0, lease.iaid, lease.duid, IA_NAInfoFuzzyRemove(lease.addr)))]
    case TYPE_PD =>
      [RemoveRoute(RouteExport(0, lease.iaid, lease.duid, IA_PDInfoFuzzyRemove(lease.addr, lease.prefixLength)))]
    case _ => []
  }

  /** Release and decline. */
  function GiveUpEffects(db: LeaseDatabase, query: Query, lease: Lease): seq<Effect> {
    match lease.leaseType
    case TYPE_NA => [RemoveRoute(RouteFor(query, lease, IA_NAInfo(query.relay, lease.addr)))]
    case TYPE_PD =>
      (match ActiveAddress(db, lease)
       case Some(dst) => [RemoveRoute(RouteFor(query, lease, IA_PDInfo(dst, lease.addr, lease.prefixLength)))]
       case None => [])
    case _ => []
  }

  /** Renew and rebind; an error where the handler throws. */
  function RenewEffects(db: LeaseDatabase, query: Query, lease: Lease, isIaNa: bool, isRebind: bool): Result<seq<Effect>> {
    if isIaNa then
      match query.iaAddr
      case None => Err
      case Some(original) =>
        var remove := RemoveRoute(RouteFor(query, lease, IA_NAInfo(query.relay, original)));
        var install := ExportRoute(RouteFor(query, lease, IA_NAInfo(query.relay, lease.addr)));
        Ok((if original != lease.addr then [remove] else []) + [install])
    else
      match query.iaPrefix
      case None => Err
      case Some((original, originalLength)) =>
        (match ActiveAddress(db, lease)
         case None => Ok([])
         case Some(dst) =>
           var remove := RemoveRoute(RouteFor(query, lease, IA_PDInfo(query.relay, original, originalLength)));
           var install := ExportRoute(RouteFor(query, lease, IA_PDInfo(dst, lease.addr, lease.prefixLength)));
           if original != lease.addr then Ok([remove, install])
           else if isRebind then Ok([install])
           else Ok([]))
  }

  // ----- What the hooks call -----

  function SelectOutcome(db: LeaseDatabase, message: Message, lease: Lease, fakeAllocation: bool): Result<seq<Effect>> {
    if fakeAllocation then Ok([])
    else var query :- Read(message); Ok(SelectEffects(db, query, lease, fakeAllocation))
  }

  function GiveUpOutcome(db: LeaseDatabase, message: Message, lease: Lease): Result<seq<Effect>> {
    var query :- Read(message);
    Ok(GiveUpEffects(db, query, lease))
  }

  function RenewOutcome(db: LeaseDatabase, message: Message, lease: Lease, isIaNa: bool, isRebind: bool): Result<seq<Effect>> {
    var query :- Read(message);
    RenewEffects(db, query, lease, isIaNa, isRebind)
  }

  /** The calls made; a handler that throws has made none. */
  function Made(outcome: Result<seq<Effect>>): seq<Effect> {
    if outcome.Ok? then outcome.value else []
  }

  function LeasePrefix(lease: Lease): string {
    if lease.leaseType == TYPE_PD then PrefixText(lease.addr, lease.prefixLength) else HostPrefix(lease.addr)
  }

  /** The call is made in the client's name, for the transaction, and is about the given prefix. */
  predicate IsAbout(effect: Effect, lease: Lease, tid: nat, prefix: string) {
    && effect.route.tid == tid && effect.route.duid == lease.duid && effect.route.iaid == lease.iaid
    && Source(effect.route.routeInfo) == prefix
  }

  predicate OnlyExports(effects: seq<Effect>, lease: Lease, tid: nat) {
    forall x :: x in effects ==> x.ExportRoute? && IsAbout(x, lease, tid, LeasePrefix(lease))
  }

  predicate OnlyRemoves(effects: seq<Effect>, lease: Lease, tid: nat) {
    forall x :: x in effects ==> x.RemoveRoute? && IsAbout(x, lease, tid, LeasePrefix(lease))
  }

  /** Exports of the leased address or prefix, and removals of the one the message names. */
  predicate Replaces(effects: seq<Effect>, lease: Lease, isIaNa: bool, message: Message) {
    forall x :: x in effects ==>
      if x.ExportRoute? then
        IsAbout(x, lease, message.transid, if isIaNa then HostPrefix(lease.addr) else PrefixText(lease.addr, lease.prefixLength))
      else if isIaNa then
        message.iaNas != [] && message.iaNas[0].Some? && message.iaNas[0].value != lease.addr
        && IsAbout(x, lease, message.transid, HostPrefix(message.iaNas[0].value))
      else
        message.iaPds != [] && message.iaPds[0].Some? && message.iaPds[0].value.0 != lease.addr
        && IsAbout(x, lease, message.transid, PrefixText(message.iaPds[0].value.0, message.iaPds[0].value.1))
  }

  lemma SelectOnlyExports(db: LeaseDatabase, message: Message, lease: Lease, fakeAllocation: bool)
    ensures OnlyExports(Made(SelectOutcome(db, message, lease, fakeAllocation)), lease, message.transid)
  {
  }

  lemma GiveUpOnlyRemoves(db: LeaseDatabase, message: Message, lease: Lease)
    ensures OnlyRemoves(Made(GiveUpOutcome(db, message, lease)), lease, message.transid)
  {
  }

  lemma RenewReplaces(db: LeaseDatabase, message: Message, lease: Lease, isIaNa: bool, isRebind: bool)
    ensures Replaces(Made(RenewOutcome(db, message, lease, isIaNa, isRebind)), lease, isIaNa, message)
  {
  }

  lemma Appended<T>(before: seq<T>, more: seq<T>)
    ensures (before + more)[|before|..] == more
  {
  }

  /** The hook object; `effects` are the calls it has made into the service, oldest first. */
  class DHCP6ExporterImpl {
    var effects: seq<Effect>

    constructor ()
      ensures effects == []
    {
      effects := [];
    }

    method CallExport(route: RouteExport)
      modifies this
      ensures effects == old(effects) + [ExportRoute(route)]
    {
      effects := effects + [ExportRoute(route)];
    }

    method CallRemove(route: RouteExport)
      modifies this
      ensures effects == old(effects) + [RemoveRoute(route)]
    {
      effects := effects + [RemoveRoute(route)];
    }

    /** `skipped` is the status that makes the server skip an IA_PD lease without IA_NA.  A
        select only ever exports, and only the lease's own prefix. */
    method HandleLease6Select(db: LeaseDatabase, message: Message, lease: Lease, fakeAllocation: bool)
      returns (threw: bool, skipped: bool)
      modifies this
      ensures threw <==> !fakeAllocation && message.relay.None?
      ensures effects == old(effects) + Made(SelectOutcome(db, message, lease, fakeAllocation))
      ensures OnlyExports(effects[|old(effects)|..], lease, message.transid)
      ensures skipped <==>
        !threw && !fakeAllocation && lease.leaseType == TYPE_PD && ActiveIaNa(db, lease.duid, lease.iaid) == []
    {
      SelectOnlyExports(db, message, lease, fakeAllocation);
      Appended(effects, Made(SelectOutcome(db, message, lease, fakeAllocation)));
      threw, skipped := false, false;
      if fakeAllocation == false {
        var read := Read(message);
        if read.Err? {
          threw := true;
          return;
        }
        var query := read.value;
        match lease.leaseType {
          case TYPE_NA =>
            CallExport(RouteFor(query, lease, IA_NAInfo(query.relay, lease.addr)));
          case TYPE_PD =>
            var leaseIaNa := FindIA_NALeaseByDUID_IAID(db, lease.duid, lease.iaid);
            if leaseIaNa.Some? {
              CallExport(RouteFor(query, lease, IA_PDInfo(leaseIaNa.value.addr, lease.addr, lease.prefixLength)));
            } else {
              skipped := true;
              return;
            }
          case TYPE_TA =>
          case TYPE_V4 =>
        }
      }
    }

    /** An expiry only ever removes, and only the lease's own prefix. */
    method HandleLease6Expire(lease: Lease)
      modifies this
      ensures effects == old(effects) + ExpireEffects(lease)
      ensures OnlyRemoves(effects[|old(effects)|..], lease, 0)
    {
      match lease.leaseType {
        case TYPE_NA =>
          CallRemove(RouteExport(0, lease.iaid, lease.duid, IA_NAInfoFuzzyRemove(lease.addr)));
        case TYPE_PD =>
          CallRemove(RouteExport(0, lease.iaid, lease.duid, IA_PDInfoFuzzyRemove(lease.addr, lease.prefixLength)));
        case TYPE_TA =>
        case TYPE_V4 =>
      }
    }

    method HandleLease6Release(db: LeaseDatabase, message: Message, lease: Lease) returns (threw: bool)
      modifies this
      ensures threw <==> message.relay.None?
      ensures effects == old(effects) + Made(GiveUpOutcome(db, message, lease))
      ensures OnlyRemoves(effects[|old(effects)|..], lease, message.transid)
    {
      GiveUpOnlyRemoves(db, message, lease);
      Appended(effects, Made(GiveUpOutcome(db, message, lease)));
      var read := Read(message);
      threw := read.Err?;
      if threw {
        return;
      }
      var query := read.value;
      match lease.leaseType {
        case TYPE_NA =>
          CallRemove(RouteFor(query, lease, IA_NAInfo(query.relay, lease.addr)));
        case TYPE_PD =>
          var leaseIaNa := FindIA_NALeaseByDUID_IAID(db, lease.duid, lease.iaid);
          if leaseIaNa.None? {
            return;
          }
          CallRemove(RouteFor(query, lease, IA_PDInfo(leaseIaNa.value.addr, lease.addr, lease.prefixLength)));
        case TYPE_TA =>
        case TYPE_V4 =>
      }
    }

    method HandleLease6Decline(db: LeaseDatabase, message: Message, lease: Lease) returns (threw: bool)
      modifies this
      ensures threw <==> message.relay.None?
      ensures effects == old(effects) + Made(GiveUpOutcome(db, message, lease))
      ensures OnlyRemoves(effects[|old(effects)|..], lease, message.transid)
    {
      GiveUpOnlyRemoves(db, message, lease);
      Appended(effects, Made(GiveUpOutcome(db, message, lease)));
      var read := Read(message);
      threw := read.Err?;
      if threw {
        return;
      }
      var query := read.value;
      match lease.leaseType {
        case TYPE_NA =>
          CallRemove(RouteFor(query, lease, IA_NAInfo(query.relay, lease.addr)));
        case TYPE_PD =>
          var leaseIaNa := FindIA_NALeaseByDUID_IAID(db, lease.duid, lease.iaid);
          if leaseIaNa.None? {
            return;
          }
          CallRemove(RouteFor(query, lease, IA_PDInfo(leaseIaNa.value.addr, lease.addr, lease.prefixLength)));
        case TYPE_TA =>
        case TYPE_V4 =>
      }
    }

    /** Both instances of the renew and rebind template; `threw` is an exception. */
    method HandleRenewRebindProcess(isRebind: bool, db: LeaseDatabase, message: Message, lease: Lease, isIaNa: bool)
      returns (threw: bool)
      modifies this
      ensures threw == RenewOutcome(db, message, lease, isIaNa, isRebind).Err?
      ensures effects == old(effects) + Made(RenewOutcome(db, message, lease, isIaNa, isRebind))
      ensures Replaces(effects[|old(effects)|..], lease, isIaNa, message)
    {
      RenewReplaces(db, message, lease, isIaNa, isRebind);
      Appended(effects, Made(RenewOutcome(db, message, lease, isIaNa, isRebind)));
      var read := Read(message);
      threw := read.Err?;
      if threw {
        return;
      }
      if isIaNa {
        threw := RenewIaNa(isRebind, db, read.value, lease);
      } else {
        threw := RenewIaPd(isRebind, db, read.value, lease);
      }
    }

    method RenewIaNa(isRebind: bool, db: LeaseDatabase, query: Query, lease: Lease) returns (threw: bool)
      modifies this
      ensures threw == RenewEffects(db, query, lease, true, isRebind).Err?
      ensures effects == old(effects) + Made(RenewEffects(db, query, lease, true, isRebind))
    {
      threw := false;
      if query.iaAddr.None? {
        threw := true;
        return;
      }
      var queryOriginalAddr := query.iaAddr.value;
      var oldRouteInfo := RouteFor(query, lease, IA_NAInfo(query.relay, queryOriginalAddr));
      var newRouteInfo := RouteFor(query, lease, IA_NAInfo(query.relay, lease.addr));
      if queryOriginalAddr != lease.addr {
        CallRemove(oldRouteInfo);
      }
      CallExport(newRouteInfo);
    }

    method RenewIaPd(isRebind: bool, db: LeaseDatabase, query: Query, lease: Lease) returns (threw: bool)
      modifies this
      ensures threw == RenewEffects(db, query, lease, false, isRebind).Err?
      ensures effects == old(effects) + Made(RenewEffects(db, query, lease, false, isRebind))
    {
      threw := false;
      if query.iaPrefix.None? {
        threw := true;
        return;
      }
      var queryOriginalAddr, queryOriginalPrefixLength := query.iaPrefix.value.0, query.iaPrefix.value.1;
      var leaseIaNa := FindIA_NALeaseByDUID_IAID(db, lease.duid, lease.iaid);
      if leaseIaNa.None? {
        return;
      }
      var oldRouteInfo := RouteFor(query, lease, IA_PDInfo(query.relay, queryOriginalAddr, queryOriginalPrefixLength));
      var newRouteInfo := RouteFor(query, lease, IA_PDInfo(leaseIaNa.value.addr, lease.addr, lease.prefixLength));
      if queryOriginalAddr != lease.addr {
        CallRemove(oldRouteInfo);
        CallExport(newRouteInfo);
      } else if isRebind {
        CallExport(newRouteInfo);
      }
    }
  }
}
