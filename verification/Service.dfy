/** The exporter service between the hooks and the client: a call becomes an operation on
    the switch, and a removal of an expired IA_PD prefix consults the lease database. */
module Service {
  import opened Common
  import opened SwitchText
  import opened LeaseHandlers
  import opened LeaseUtils
  import opened Schedules

  /** The operation a call starts when the database is `db`; its requests succeed. */
  function OperationOf(db: LeaseDatabase, effect: Effect): Operation {
    match effect
    case ExportRoute(route) => Operation(true, route.routeInfo, None, false, false)
    case RemoveRoute(route) =>
      Operation(false, route.routeInfo, ActiveFor(db, route.duid, route.iaid), false, false)
  }

  /** The calls carried out one after the other. */
  function Perform(switch: Switch, db: LeaseDatabase, effects: seq<Effect>, table: Table): Table {
    if effects == [] then table
    else Perform(switch, db, effects[1..], RunAlone(switch, JobOf(OperationOf(db, effects[0])), table))
  }

  lemma PerformOne(switch: Switch, db: LeaseDatabase, effect: Effect, table: Table)
    ensures Perform(switch, db, [effect], table) == RunAlone(switch, JobOf(OperationOf(db, effect)), table)
  {
    assert [effect][1..] == [];
  }

  lemma PerformTwo(switch: Switch, db: LeaseDatabase, first: Effect, second: Effect, table: Table)
    ensures Perform(switch, db, [first, second], table)
         == RunAlone(switch, JobOf(OperationOf(db, second)), RunAlone(switch, JobOf(OperationOf(db, first)), table))
  {
    assert [first, second][1..] == [second];
    PerformOne(switch, db, second, RunAlone(switch, JobOf(OperationOf(db, first)), table));
  }
}
