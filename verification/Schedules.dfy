/** Operations in flight: several workers interleave their lookups and commands.  Every
    complete interleaving of independent operations gives the same switch table. */
module Schedules {
  import opened Common
  import opened SwitchText
  import opened RouteLookup
  import opened ManagementClient

  /** How the switch answers a lookup of a prefix, given the destinations of its static routes
      for exactly that prefix.  None stands for a failed or unreadable answer. */
  type Switch = (string, set<string>) -> Option<RouteLookupResponse>

  function Rows(table: Table, prefix: string): set<string> {
    set r | r in table && r.prefix == prefix :: r.dest
  }

  /** An operation in flight: its prefix, the request it still has to make, and whether its
      lookup or command request will fail on the way. */
  datatype Job = Job(src: string, pending: Option<Request>, lookupFails: bool, commandFails: bool)

  /** The operation's request is about its own prefix. */
  ghost predicate WellFormed(job: Job) {
    && IsWord(job.src)
    && (job.pending.Some? ==> InstallsAt(job.pending.value, job.src) || RemovesAt(job.pending.value, job.src))
  }

  // ----- One request -----

  function ExecuteAll(commands: seq<string>, table: Table): Table {
    if commands == [] then table else ExecuteAll(commands[1..], Execute(commands[0], table))
  }

  /** The table after the job's next request. */
  function StepTable(job: Job, table: Table): Table {
    match job.pending
    case Some(Commands(commands)) => if job.commandFails then table else ExecuteAll(commands, table)
    case _ => table
  }

  /** The job after its next request: a lookup is followed by the commands its callback posts. */
  function StepJob(switch: Switch, job: Job, table: Table): Job {
    match job.pending
    case Some(Lookup(command, next)) =>
      var answer := if job.lookupFails then None else switch(QueriedPrefix(command), Rows(table, QueriedPrefix(command)));
      var commands := if answer.None? then None else Continue(next, answer.value);
      job.(pending := if commands.None? then None else Some(Commands(commands.value)))
    case _ => job.(pending := None)
  }

  /** The table after all of the job's requests, with nothing else happening. */
  function RunAlone(switch: Switch, job: Job, table: Table): Table {
    if job.pending.None? then table
    else if job.pending.value.Lookup? then StepTable(StepJob(switch, job, table), table)
    else StepTable(job, table)
  }

  function RunInOrder(switch: Switch, jobs: seq<Job>, table: Table): Table {
    if jobs == [] then table else RunInOrder(switch, jobs[1..], RunAlone(switch, jobs[0], table))
  }

  // ----- Schedules -----

  /** A schedule names, step by step, the job that makes its next request; it is complete
      when no job has one left. */
  predicate IsComplete(switch: Switch, jobs: seq<Job>, table: Table, schedule: seq<nat>)
    decreases |schedule|
  {
    if schedule == [] then forall i :: 0 <= i < |jobs| ==> jobs[i].pending.None?
    else
      var i := schedule[0];
      i < |jobs| && jobs[i].pending.Some? &&
      IsComplete(switch, jobs[i := StepJob(switch, jobs[i], table)], StepTable(jobs[i], table), schedule[1..])
  }

  function Scheduled(switch: Switch, jobs: seq<Job>, table: Table, schedule: seq<nat>): Table
    requires IsComplete(switch, jobs, table, schedule)
    decreases |schedule|
  {
    if schedule == [] then table
    else
      var i := schedule[0];
      Scheduled(switch, jobs[i := StepJob(switch, jobs[i], table)], StepTable(jobs[i], table), schedule[1..])
  }

  /** The operations are about different prefixes and none looks up another's. */
  ghost predicate Apart(j: Job, k: Job) {
    && j.src != k.src
    && (j.pending.Some? && j.pending.value.Lookup? ==> QueriedPrefix(j.pending.value.command) != k.src)
    && (k.pending.Some? && k.pending.value.Lookup? ==> QueriedPrefix(k.pending.value.command) != j.src)
  }

  ghost predicate Independent(jobs: seq<Job>) {
    && (forall i :: 0 <= i < |jobs| ==> WellFormed(jobs[i]))
    && (forall i, k :: 0 <= i < k < |jobs| ==> Apart(jobs[i], jobs[k]))
  }

  // ----- Requests act on the rows of their own prefix -----

  ghost predicate SameElsewhere(t: Table, u: Table, prefix: string) {
    forall r: Route :: r.prefix != prefix ==> (r in t <==> r in u)
  }

  ghost predicate SameRows(t: Table, u: Table, prefix: string) {
    forall r: Route :: r.prefix == prefix ==> (r in t <==> r in u)
  }

  lemma RowsFromSameRows(t: Table, u: Table, prefix: string)
    requires SameRows(t, u, prefix)
    ensures Rows(t, prefix) == Rows(u, prefix)
  {
  }

  lemma TableFromRows(t: Table, u: Table)
    requires forall p :: Rows(t, p) == Rows(u, p)
    ensures t == u
  {
    forall r: Route ensures r in t <==> r in u {
      assert r in t <==> r.dest in Rows(t, r.prefix);
      assert r in u <==> r.dest in Rows(u, r.prefix);
    }
  }

  lemma ExecuteOne(command: string, table: Table)
    ensures ExecuteAll([command], table) == Execute(command, table)
  {
    assert [command][1..] == [];
  }

  lemma ExecuteRemoveAndClear(src: string, d: string, table: Table)
    ensures ExecuteAll(RemoveAndClear(src, d), table) == Execute(CreateRemoveRouteIpv6Command(src, d), table)
  {
    var commands := RemoveAndClear(src, d);
    assert commands[1..] == [CreateRemoveNDCacheEntryIpv6Command(d)];
    ExecuteOne(commands[1], Execute(commands[0], table));
    ClearLeavesRoutes(d, Execute(commands[0], table));
  }

  /** Commands about a prefix change only its rows, and change them the same way in any two
      tables that agree on them. */
  lemma CommandsAreLocal(commands: seq<string>, src: string, t: Table, u: Table)
    requires IsWord(src) && (InstallsAt(Commands(commands), src) || RemovesAt(Commands(commands), src))
    ensures SameElsewhere(t, ExecuteAll(commands, t), src)
    ensures SameRows(t, u, src) ==> SameRows(ExecuteAll(commands, t), ExecuteAll(commands, u), src)
  {
    if d :| commands == [CreateApplyRouteIpv6Command(src, d)] {
      ExecuteOne(commands[0], t);
      ExecuteOne(commands[0], u);
      ApplyExecutes(src, d, t);
      ApplyExecutes(src, d, u);
    } else if d :| commands == [CreateRemoveRouteIpv6Command(src, d)] {
      ExecuteOne(commands[0], t);
      ExecuteOne(commands[0], u);
      RemoveExecutes(src, d, t);
      RemoveExecutes(src, d, u);
    } else {
      var d :| commands == RemoveAndClear(src, d);
      ExecuteRemoveAndClear(src, d, t);
      ExecuteRemoveAndClear(src, d, u);
      RemoveExecutes(src, d, t);
      RemoveExecutes(src, d, u);
    }
  }

  lemma StepJobWellFormed(switch: Switch, job: Job, table: Table)
    requires WellFormed(job)
    ensures WellFormed(StepJob(switch, job, table))
  {
  }

  lemma StepTableIsLocal(job: Job, t: Table, u: Table)
    requires WellFormed(job)
    ensures SameElsewhere(t, StepTable(job, t), job.src)
    ensures SameRows(t, u, job.src) ==> SameRows(StepTable(job, t), StepTable(job, u), job.src)
  {
    if job.pending.Some? && job.pending.value.Commands? {
      CommandsAreLocal(job.pending.value.commands, job.src, t, u);
    }
  }

  lemma RunAloneIsLocal(switch: Switch, job: Job, table: Table)
    requires WellFormed(job)
    ensures SameElsewhere(table, RunAlone(switch, job, table), job.src)
  {
    StepJobWellFormed(switch, job, table);
    StepTableIsLocal(job, table, table);
    StepTableIsLocal(StepJob(switch, job, table), table, table);
  }

  /** A job takes the same step in two tables that agree on the prefix it looks up. */
  lemma StepJobAgrees(switch: Switch, job: Job, t: Table, u: Table, other: string)
    requires SameElsewhere(t, u, other)
    requires job.pending.Some? && job.pending.value.Lookup? ==> QueriedPrefix(job.pending.value.command) != other
    ensures StepJob(switch, job, t) == StepJob(switch, job, u)
  {
    if job.pending.Some? && job.pending.value.Lookup? {
      RowsFromSameRows(t, u, QueriedPrefix(job.pending.value.command));
    }
  }

  /** A step of one job commutes with running another to its end. */
  lemma StepCommutes(switch: Switch, j: Job, k: Job, table: Table)
    requires WellFormed(j) && WellFormed(k) && Apart(j, k)
    ensures StepJob(switch, k, RunAlone(switch, j, table)) == StepJob(switch, k, table)
    ensures StepTable(k, RunAlone(switch, j, table)) == RunAlone(switch, j, StepTable(k, table))
  {
    var afterJ := RunAlone(switch, j, table);
    var afterK := StepTable(k, table);
    RunAloneIsLocal(switch, j, table);
    StepJobAgrees(switch, k, table, afterJ, j.src);
    StepTableIsLocal(k, table, afterJ);
    StepJobAgrees(switch, j, table, afterK, k.src);
    var last := if j.pending.Some? && j.pending.value.Lookup? then StepJob(switch, j, table) else j;
    StepJobWellFormed(switch, j, table);
    StepTableIsLocal(last, table, afterK);
    StepTableIsLocal(last, afterK, afterK);
    StepTableIsLocal(k, afterJ, afterJ);
    forall r: Route
      ensures r in StepTable(k, afterJ) <==> r in RunAlone(switch, j, afterK)
    {
    }
  }

  // ----- Confluence -----

  lemma StepKeepsIndependent(switch: Switch, jobs: seq<Job>, table: Table, i: nat)
    requires Independent(jobs) && i < |jobs|
    ensures Independent(jobs[i := StepJob(switch, jobs[i], table)])
  {
    StepJobWellFormed(switch, jobs[i], table);
  }

  /** Taking one step of any job first does not change what running the jobs in order gives. */
  lemma {:induction false} StepThenRunInOrder(switch: Switch, jobs: seq<Job>, table: Table, i: nat)
    requires Independent(jobs) && i < |jobs| && jobs[i].pending.Some?
    ensures RunInOrder(switch, jobs[i := StepJob(switch, jobs[i], table)], StepTable(jobs[i], table))
         == RunInOrder(switch, jobs, table)
  {
    var stepped := jobs[i := StepJob(switch, jobs[i], table)];
    if i == 0 {
      assert stepped[1..] == jobs[1..];
    } else {
      StepCommutes(switch, jobs[0], jobs[i], table);
      var rest := jobs[1..];
      assert rest[i - 1] == jobs[i];
      assert stepped[1..] == rest[i - 1 := StepJob(switch, jobs[i], table)];
      assert Independent(rest) by {
        assert forall k :: 0 <= k < |rest| ==> rest[k] == jobs[k + 1];
      }
      StepThenRunInOrder(switch, rest, RunAlone(switch, jobs[0], table), i - 1);
    }
  }

  lemma {:induction false} RunFinished(switch: Switch, jobs: seq<Job>, table: Table)
    requires forall i :: 0 <= i < |jobs| ==> jobs[i].pending.None?
    ensures RunInOrder(switch, jobs, table) == table
  {
    if jobs != [] {
      RunFinished(switch, jobs[1..], table);
    }
  }

  /** Confluence: whatever the switch answers and whichever requests fail, every complete
      interleaving of independent operations ends in the table of running them one by one. */
  lemma {:induction false} EveryScheduleRunsInOrder(switch: Switch, jobs: seq<Job>, table: Table, schedule: seq<nat>)
    requires Independent(jobs) && IsComplete(switch, jobs, table, schedule)
    ensures Scheduled(switch, jobs, table, schedule) == RunInOrder(switch, jobs, table)
    decreases |schedule|
  {
    if schedule == [] {
      RunFinished(switch, jobs, table);
    } else {
      var i := schedule[0];
      StepKeepsIndependent(switch, jobs, table, i);
      StepThenRunInOrder(switch, jobs, table, i);
      EveryScheduleRunsInOrder(switch, jobs[i := StepJob(switch, jobs[i], table)], StepTable(jobs[i], table), schedule[1..]);
    }
  }

  function RequestsLeft(jobs: seq<Job>): nat {
    if jobs == [] then 0
    else (match jobs[0].pending
          case None => 0
          case Some(Commands(_)) => 1
          case Some(Lookup(_, _)) => 2) + RequestsLeft(jobs[1..])
  }

  lemma {:induction false} StepUsesRequest(switch: Switch, jobs: seq<Job>, table: Table, i: nat)
    requires i < |jobs| && jobs[i].pending.Some?
    ensures RequestsLeft(jobs[i := StepJob(switch, jobs[i], table)]) < RequestsLeft(jobs)
  {
    var stepped := jobs[i := StepJob(switch, jobs[i], table)];
    if i == 0 {
      assert stepped[1..] == jobs[1..];
    } else {
      assert stepped[1..] == jobs[1..][i - 1 := StepJob(switch, jobs[i], table)];
      StepUsesRequest(switch, jobs[1..], table, i - 1);
    }
  }

  /** Operations in flight can always be brought to their end. */
  lemma {:induction false} CompleteScheduleExists(switch: Switch, jobs: seq<Job>, table: Table) returns (schedule: seq<nat>)
    ensures IsComplete(switch, jobs, table, schedule)
    ensures |schedule| <= RequestsLeft(jobs)
    decreases RequestsLeft(jobs)
  {
    if i: nat :| i < |jobs| && jobs[i].pending.Some? {
      StepUsesRequest(switch, jobs, table, i);
      var rest := CompleteScheduleExists(switch, jobs[i := StepJob(switch, jobs[i], table)], StepTable(jobs[i], table));
      schedule := [i] + rest;
      assert schedule[1..] == rest;
    } else {
      schedule := [];
    }
  }

  // ----- Exports and removals as jobs -----

  /** An export or removal whose handler has been called.  `active` is what the lease database
      said when a removal was called. */
  datatype Operation = Operation(
    isExport: bool, info: RouteInfo, active: Option<string>, lookupFails: bool, commandFails: bool)

  function JobOf(op: Operation): Job {
    Job(Source(op.info),
        if op.isExport then ExportRequest(op.info) else RemovalRequest(op.info, op.active),
        op.lookupFails, op.commandFails)
  }

  predicate HasAddresses(info: RouteInfo) {
    match info
    case IA_NAInfo(relay, addr) => IsAddr(relay) && IsAddr(addr)
    case IA_PDInfo(dst, prefix, _) => IsAddr(dst) && IsAddr(prefix)
    case IA_NAInfoFuzzyRemove(addr) => IsAddr(addr)
    case IA_PDInfoFuzzyRemove(prefix, _) => IsAddr(prefix)
    case IA_NAFast(_, addr) => IsAddr(addr)
  }

  lemma SourceIsWord(info: RouteInfo)
    requires HasAddresses(info)
    ensures IsWord(Source(info))
  {
    match info
    case IA_PDInfo(_, _, length) => DecimalNonEmpty(length);
    case IA_PDInfoFuzzyRemove(_, length) => DecimalNonEmpty(length);
    case _ =>
  }

  lemma JobOfWellFormed(op: Operation)
    requires HasAddresses(op.info)
    ensures WellFormed(JobOf(op))
  {
    SourceIsWord(op.info);
  }

  /** What a job looks up: the relay's host prefix, or its own prefix. */
  lemma JobLooksUp(op: Operation)
    requires HasAddresses(op.info)
    requires JobOf(op).pending.Some? && JobOf(op).pending.value.Lookup?
    ensures QueriedPrefix(JobOf(op).pending.value.command)
         == if op.info.IA_NAInfo? then HostPrefix(op.info.srcVlanAddr) else Source(op.info)
  {
    SourceIsWord(op.info);
    if op.info.IA_NAInfo? {
      ShowAsks(HostPrefix(op.info.srcVlanAddr));
    } else {
      ShowAsks(Source(op.info));
    }
  }

  /** Pairwise distinct prefixes, none of them the address of a relay that another looks up. */
  predicate Disjoint(ops: seq<Operation>) {
    && (forall i :: 0 <= i < |ops| ==> HasAddresses(ops[i].info))
    && (forall i, k :: 0 <= i < |ops| && 0 <= k < |ops| && i != k ==>
          && Source(ops[i].info) != Source(ops[k].info)
          && (ops[i].info.IA_NAInfo? ==> HostPrefix(ops[i].info.srcVlanAddr) != Source(ops[k].info)))
  }

  function Jobs(ops: seq<Operation>): seq<Job> {
    seq(|ops|, i requires 0 <= i < |ops| => JobOf(ops[i]))
  }

  /** Exports and removals with distinct prefixes, none of them a looked-up relay address, end
      in the same table under every complete interleaving: the one that running them one after
      the other gives. */
  lemma ExportsAndRemovalsAreConfluent(switch: Switch, ops: seq<Operation>, table: Table, schedule: seq<nat>)
    requires Disjoint(ops) && IsComplete(switch, Jobs(ops), table, schedule)
    ensures Scheduled(switch, Jobs(ops), table, schedule) == RunInOrder(switch, Jobs(ops), table)
  {
    forall i | 0 <= i < |ops| ensures WellFormed(Jobs(ops)[i]) {
      JobOfWellFormed(ops[i]);
    }
    forall i, k | 0 <= i < k < |ops| ensures Apart(Jobs(ops)[i], Jobs(ops)[k]) {
      var j, l := JobOf(ops[i]), JobOf(ops[k]);
      if j.pending.Some? && j.pending.value.Lookup? { JobLooksUp(ops[i]); }
      if l.pending.Some? && l.pending.value.Lookup? { JobLooksUp(ops[k]); }
    }
    EveryScheduleRunsInOrder(switch, Jobs(ops), table, schedule);
  }
}
