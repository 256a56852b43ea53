/** The IA_PD half of the exporter: when exporting a delegated prefix and later giving it up
    cancel, and where they do not. */
module DelegatedPrefixes {
  import opened Common
  import opened LeaseHandlers
  import opened LeaseUtils
  import opened ManagementClient
  import opened RouteLookup
  import opened Schedules
  import opened Service
  import opened SwitchText

  /** A delegated prefix of a client, and a database whose active leases have addresses. */
  ghost predicate Delegated(db: LeaseDatabase, lease: Lease) {
    && lease.leaseType == TYPE_PD && IsAddr(lease.addr)
    && forall x :: x in ActiveIaNa(db, lease.duid, lease.iaid) ==> IsAddr(x.addr)
  }

  function PrefixOf(lease: Lease): string {
    PrefixText(lease.addr, lease.prefixLength)
  }

  lemma PrefixIsWord(prefix: string, length: nat)
    requires IsAddr(prefix)
    ensures IsWord(PrefixText(prefix, length))
  {
    DecimalNonEmpty(length);
  }

  // ----- The four elementary operations -----

  lemma PdExportAdds(switch: Switch, dst: string, prefix: string, length: nat, table: Table)
    requires IsAddr(prefix) && IsAddr(dst)
    ensures RunAlone(switch, JobOf(Operation(true, IA_PDInfo(dst, prefix, length), None, false, false)), table)
         == table + {Route(PrefixText(prefix, length), dst)}
  {
    PrefixIsWord(prefix, length);
    ExecuteOne(CreateApplyRouteIpv6Command(PrefixText(prefix, length), dst), table);
    ApplyExecutes(PrefixText(prefix, length), dst, table);
  }

  lemma PdRemovalRemoves(switch: Switch, dst: string, prefix: string, length: nat, active: Option<string>, table: Table)
    requires IsAddr(prefix) && IsAddr(dst)
    ensures RunAlone(switch, JobOf(Operation(false, IA_PDInfo(dst, prefix, length), active, false, false)), table)
         == table - {Route(PrefixText(prefix, length), dst)}
  {
    PrefixIsWord(prefix, length);
    ExecuteOne(CreateRemoveRouteIpv6Command(PrefixText(prefix, length), dst), table);
    RemoveExecutes(PrefixText(prefix, length), dst, table);
  }

  /** With an active IA_NA lease, expiry names the destination with a prefix length. */
  lemma PdExpiryWithActive(switch: Switch, active: string, prefix: string, length: nat, table: Table)
    requires IsAddr(prefix) && IsAddr(active)
    ensures RunAlone(switch, JobOf(Operation(false, IA_PDInfoFuzzyRemove(prefix, length), Some(active), false, false)), table)
         == table - {Route(PrefixText(prefix, length), HostPrefix(active))}
  {
    PrefixIsWord(prefix, length);
    ExecuteOne(CreateRemoveRouteIpv6Command(PrefixText(prefix, length), HostPrefix(active)), table);
    RemoveExecutes(PrefixText(prefix, length), HostPrefix(active), table);
  }

  /** The next hop that the switch names for a prefix whose routes go to the given hops. */
  function NamedHop(switch: Switch, prefix: string, hops: set<string>): Option<string> {
    var answer := switch(prefix, hops);
    if answer.None? then None else NextHop(answer.value)
  }

  /** Without one, expiry removes the route to the next hop that the switch names, if any. */
  lemma PdExpiryByLookup(switch: Switch, prefix: string, length: nat, table: Table)
    requires IsAddr(prefix)
    ensures var src := PrefixText(prefix, length);
            var hop := NamedHop(switch, src, Rows(table, src));
      RunAlone(switch, JobOf(Operation(false, IA_PDInfoFuzzyRemove(prefix, length), None, false, false)), table)
      == if hop.Some? && IsWord(hop.value) then table - {Route(src, hop.value)} else table
  {
    var src := PrefixText(prefix, length);
    var hop := NamedHop(switch, src, Rows(table, src));
    PrefixIsWord(prefix, length);
    ShowAsks(src);
    if hop.Some? {
      ExecuteOne(CreateRemoveRouteIpv6Command(src, hop.value), table);
      RemoveExecutes(src, hop.value, table);
    }
  }

  // ----- What the hooks do with a delegated prefix -----

  lemma SelectAdds(switch: Switch, db: LeaseDatabase, query: Query, lease: Lease, table: Table)
    requires Delegated(db, lease)
    ensures Perform(switch, db, SelectEffects(db, query, lease, false), table)
         == match ActiveAddress(db, lease)
            case Some(dst) => table + {Route(PrefixOf(lease), dst)}
            case None => table
  {
    if ActiveAddress(db, lease).Some? {
      var dst := ActiveAddress(db, lease).value;
      assert ActiveIaNa(db, lease.duid, lease.iaid)[0].addr == dst;
      PerformOne(switch, db, SelectEffects(db, query, lease, false)[0], table);
      PdExportAdds(switch, dst, lease.addr, lease.prefixLength, table);
    }
  }

  lemma GiveUpRemoves(switch: Switch, db: LeaseDatabase, query: Query, lease: Lease, table: Table)
    requires Delegated(db, lease)
    ensures Perform(switch, db, GiveUpEffects(db, query, lease), table)
         == match ActiveAddress(db, lease)
            case Some(dst) => table - {Route(PrefixOf(lease), dst)}
            case None => table
  {
    if ActiveAddress(db, lease).Some? {
      var dst := ActiveAddress(db, lease).value;
      assert ActiveIaNa(db, lease.duid, lease.iaid)[0].addr == dst;
      var effect := GiveUpEffects(db, query, lease)[0];
      PerformOne(switch, db, effect, table);
      PdRemovalRemoves(switch, dst, lease.addr, lease.prefixLength, ActiveFor(db, lease.duid, lease.iaid), table);
    }
  }

  /** The route to the client's active address, if it has one. */
  function ActiveRoute(db: LeaseDatabase, lease: Lease): Table {
    match ActiveAddress(db, lease)
    case Some(dst) => {Route(PrefixOf(lease), dst)}
    case None => {}
  }

  /** Adding some routes and then removing others gives back the prior table exactly if the
      removal hits nothing of it and everything that was added anew. */
  lemma AddThenRemove(table: Table, added: Table, removed: Table)
    ensures table + added - removed == table <==> table !! removed && added - table <= removed
  {
    if table !! removed && added - table <= removed {
      assert forall r :: r in table + added - removed <==> r in table;
    } else if r :| r in table && r in removed {
      assert r !in table + added - removed;
    } else {
      var r :| r in added - table && r !in removed;
      assert r in table + added - removed;
    }
  }

  /** Exporting a prefix and later releasing or declining it touches no other prefix.  It adds the
      route to the address that was active at the export and removes the one to the address that
      is active at the end.  So for a fresh prefix it gives back the prior table if and only if
      the client then has the same active IA_NA address: after that lease is gone, or has another
      address, the route stays. */
  lemma SelectThenGiveUp(switch: Switch, db: LeaseDatabase, later: LeaseDatabase, query: Query, goodbye: Query,
                         lease: Lease, table: Table)
    requires Delegated(db, lease) && Delegated(later, lease)
    ensures var exported := Perform(switch, db, SelectEffects(db, query, lease, false), table);
            var end := Perform(switch, later, GiveUpEffects(later, goodbye, lease), exported);
            var added, removed := ActiveRoute(db, lease), ActiveRoute(later, lease);
      && SameElsewhere(table, exported, PrefixOf(lease)) && SameElsewhere(table, end, PrefixOf(lease))
      && (end == table <==> table !! removed && added - table <= removed)
      && (ActiveAddress(db, lease).Some? && Rows(table, PrefixOf(lease)) == {} ==>
            && (end == table <==> ActiveAddress(later, lease) == ActiveAddress(db, lease))
            && (ActiveAddress(later, lease) != ActiveAddress(db, lease) ==> end == exported != table))
  {
    var p, added, removed := PrefixOf(lease), ActiveRoute(db, lease), ActiveRoute(later, lease);
    SelectAdds(switch, db, query, lease, table);
    var exported := Perform(switch, db, SelectEffects(db, query, lease, false), table);
    assert exported == table + added;
    GiveUpRemoves(switch, later, goodbye, lease, exported);
    assert Perform(switch, later, GiveUpEffects(later, goodbye, lease), exported) == table + added - removed;
    AddThenRemove(table, added, removed);
    FreshRoutes(table, p);
  }

  /** What an expiry removes from a table: with an active IA_NA lease a route that names the
      address with a length, else the route to the next hop the switch names. */
  function ExpiryRemoves(switch: Switch, later: LeaseDatabase, lease: Lease, table: Table): Table {
    var p := PrefixOf(lease);
    match ActiveAddress(later, lease)
    case Some(active) => {Route(p, HostPrefix(active))}
    case None =>
      var hop := NamedHop(switch, p, Rows(table, p));
      if hop.Some? && IsWord(hop.value) then {Route(p, hop.value)} else {}
  }

  lemma ExpireRemoves(switch: Switch, later: LeaseDatabase, lease: Lease, table: Table)
    requires Delegated(later, lease)
    ensures Perform(switch, later, ExpireEffects(lease), table) == table - ExpiryRemoves(switch, later, lease, table)
  {
    PerformOne(switch, later, ExpireEffects(lease)[0], table);
    match ActiveAddress(later, lease)
    case None => PdExpiryByLookup(switch, lease.addr, lease.prefixLength, table);
    case Some(active) =>
      assert ActiveIaNa(later, lease.duid, lease.iaid)[0].addr == active;
      PdExpiryWithActive(switch, active, lease.addr, lease.prefixLength, table);
  }

  /** Exporting a prefix and then letting it expire gives back the prior table exactly if the
      expiry removes nothing of it and what the export added anew.  For a fresh prefix, and a
      switch that names the one next hop of a route, that is so if and only if the client has no
      active IA_NA lease when the prefix expires: with one, the removal names a destination that
      the export never used and the route stays. */
  lemma SelectThenExpire(switch: Switch, db: LeaseDatabase, later: LeaseDatabase, query: Query, lease: Lease, table: Table)
    requires Delegated(db, lease) && Delegated(later, lease)
    ensures var exported := Perform(switch, db, SelectEffects(db, query, lease, false), table);
            var end := Perform(switch, later, ExpireEffects(lease), exported);
            var removed := ExpiryRemoves(switch, later, lease, exported);
      && SameElsewhere(table, end, PrefixOf(lease))
      && (end == table <==> table !! removed && ActiveRoute(db, lease) - table <= removed)
      && (match ActiveAddress(db, lease)
          case Some(dst) =>
            Rows(table, PrefixOf(lease)) == {} && NamedHop(switch, PrefixOf(lease), {dst}) == Some(dst) ==>
              && (end == table <==> ActiveAddress(later, lease).None?)
              && (ActiveAddress(later, lease).Some? ==> end == exported)
          case None => true)
  {
    var p, added := PrefixOf(lease), ActiveRoute(db, lease);
    SelectAdds(switch, db, query, lease, table);
    var exported := Perform(switch, db, SelectEffects(db, query, lease, false), table);
    assert exported == table + added;
    ExpireRemoves(switch, later, lease, exported);
    var removed := ExpiryRemoves(switch, later, lease, exported);
    AddThenRemove(table, added, removed);
    FreshRoutes(table, p);
    if ActiveAddress(db, lease).Some? && Rows(table, p) == {} {
      var dst := ActiveAddress(db, lease).value;
      assert ActiveIaNa(db, lease.duid, lease.iaid)[0].addr == dst;
      RowsAfterFirst(table, p, dst);
      if ActiveAddress(later, lease).Some? {
        var active := ActiveAddress(later, lease).value;
        assert HostPrefix(active)[|active|] == '/';
        assert HostPrefix(active) != dst;
      }
    }
  }

  lemma FreshRoutes(table: Table, p: string)
    ensures Rows(table, p) == {} ==> forall d :: Route(p, d) !in table
  {
    forall d | Rows(table, p) == {} ensures Route(p, d) !in table {
      NoRows(table, p, d);
    }
  }

  lemma NoRows(table: Table, p: string, d: string)
    requires Rows(table, p) == {}
    ensures Route(p, d) !in table
  {
    assert Route(p, d) in table <==> d in Rows(table, p);
  }

  lemma RowsAfterFirst(table: Table, p: string, dst: string)
    requires Rows(table, p) == {}
    ensures Rows(table + {Route(p, dst)}, p) == {dst}
  {
    forall d ensures d in Rows(table + {Route(p, dst)}, p) <==> d == dst {
      NoRows(table, p, d);
    }
  }

  // ----- Renew and rebind -----

  /** The table after a renew or rebind of a lease, from one with a single route, to `hop`, for the
      prefix that the message names and none for the leased prefix if that is another one. */
  lemma RenewEnds(switch: Switch, db: LeaseDatabase, query: Query, lease: Lease, isRebind: bool, table: Table)
    requires Delegated(db, lease) && query.iaPrefix.Some?
    requires IsAddr(query.iaPrefix.value.0) && IsAddr(query.relay)
    ensures RenewEffects(db, query, lease, false, isRebind).Ok?
    ensures var (named, length) := query.iaPrefix.value;
            var end := Perform(switch, db, RenewEffects(db, query, lease, false, isRebind).value, table);
      end ==
        match ActiveAddress(db, lease)
        case None => table
        case Some(dst) =>
          if named != lease.addr then table - {Route(PrefixText(named, length), query.relay)} + {Route(PrefixOf(lease), dst)}
          else if isRebind then table + {Route(PrefixOf(lease), dst)}
          else table
  {
    var (named, length) := query.iaPrefix.value;
    var effects := RenewEffects(db, query, lease, false, isRebind).value;
    if ActiveAddress(db, lease).Some? {
      var dst := ActiveAddress(db, lease).value;
      assert ActiveIaNa(db, lease.duid, lease.iaid)[0].addr == dst;
      if named != lease.addr {
        assert effects == [effects[0], effects[1]];
        PerformTwo(switch, db, effects[0], effects[1], table);
        PdRemovalRemoves(switch, query.relay, named, length, ActiveFor(db, lease.duid, lease.iaid), table);
        PdExportAdds(switch, dst, lease.addr, lease.prefixLength, table - {Route(PrefixText(named, length), query.relay)});
      } else if isRebind {
        assert effects == [effects[0]];
        PerformOne(switch, db, effects[0], table);
        PdExportAdds(switch, dst, lease.addr, lease.prefixLength, table);
      }
    }
  }

  /** Every renew and rebind of a client with an active IA_NA address: the leased prefix ends with
      exactly the route to that address, and another, named prefix with none, if and only if
      either the prefix address changed and the relay happens to be the old next hop, which the
      removal names, or neither the prefix nor the next hop changed.  A changed length alone is
      never handled, and a changed IA_NA address leaves the old next hop in place. */
  lemma RenewLeavesOneRouteWhen(switch: Switch, db: LeaseDatabase, query: Query, lease: Lease, isRebind: bool,
                                hop: string, table: Table)
    requires Delegated(db, lease) && ActiveAddress(db, lease).Some? && query.iaPrefix.Some?
    requires IsAddr(query.iaPrefix.value.0) && IsAddr(query.relay)
    requires var old' := PrefixText(query.iaPrefix.value.0, query.iaPrefix.value.1);
      Rows(table, old') == {hop} && (old' != PrefixOf(lease) ==> Rows(table, PrefixOf(lease)) == {})
    ensures var (named, length) := query.iaPrefix.value;
            var old', dst := PrefixText(named, length), ActiveAddress(db, lease).value;
            var end := Perform(switch, db, RenewEffects(db, query, lease, false, isRebind).value, table);
      && (Rows(end, PrefixOf(lease)) == {dst} && (old' != PrefixOf(lease) ==> Rows(end, old') == {}) <==>
            || (named != lease.addr && query.relay == hop)
            || (named == lease.addr && length == lease.prefixLength && hop == dst))
      && (named == lease.addr && !isRebind ==> end == table)
  {
    var (named, length) := query.iaPrefix.value;
    var old', dst := PrefixText(named, length), ActiveAddress(db, lease).value;
    RenewEnds(switch, db, query, lease, isRebind, table);
    if old' == PrefixOf(lease) {
      PrefixTextInjective(named, length, lease.addr, lease.prefixLength);
    }
    if named != lease.addr {
      RowsChanged(table, old', query.relay, PrefixOf(lease), dst);
      assert Rows(table, old') - {query.relay} == {} <==> query.relay == hop;
    } else if isRebind {
      RowsAdded(table, PrefixOf(lease), dst);
      if old' != PrefixOf(lease) {
        assert hop in Rows(table + {Route(PrefixOf(lease), dst)}, old');
      } else {
        assert hop in {hop} + {dst};
      }
    }
  }

  lemma RowsAdded(table: Table, p: string, d: string)
    ensures Rows(table + {Route(p, d)}, p) == Rows(table, p) + {d}
    ensures forall q :: q != p ==> Rows(table + {Route(p, d)}, q) == Rows(table, q)
  {
    forall q ensures Rows(table + {Route(p, d)}, q) == Rows(table, q) + if q == p then {d} else {} {
    }
  }

  lemma RowsChanged(table: Table, p: string, d: string, q: string, e: string)
    requires p != q
    ensures var end := table - {Route(p, d)} + {Route(q, e)};
      Rows(end, p) == Rows(table, p) - {d} && Rows(end, q) == Rows(table, q) + {e}
  {
  }
}
