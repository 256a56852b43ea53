/** Where operations in flight are heading: a table with pending operations settles at another
    table if, whatever the order of the requests, it becomes that table once they are done. */
module Settling {
  import opened Schedules
  import opened SwitchText

  ghost predicate IsRelayPrefix(relays: set<string>, p: string) {
    exists r :: r in relays && p == HostPrefix(r)
  }

  /** A pending operation looks up a relay or its own prefix, and is not about a relay. */
  ghost predicate Proper(relays: set<string>, job: Job) {
    && WellFormed(job)
    && !IsRelayPrefix(relays, job.src)
    && (job.pending.Some? && job.pending.value.Lookup? ==>
          var q := QueriedPrefix(job.pending.value.command); q == job.src || IsRelayPrefix(relays, q))
  }

  ghost predicate InFlight(jobs: seq<Job>, p: string) {
    exists i :: 0 <= i < |jobs| && jobs[i].pending.Some? && jobs[i].src == p
  }

  ghost predicate JobsProper(relays: set<string>, jobs: seq<Job>) {
    && (forall i :: 0 <= i < |jobs| && jobs[i].pending.Some? ==> Proper(relays, jobs[i]))
    && (forall i, k :: 0 <= i < k < |jobs| && jobs[i].pending.Some? && jobs[k].pending.Some? ==>
          jobs[i].src != jobs[k].src)
  }

  ghost predicate NoRelayRows(relays: set<string>, table: Table) {
    forall r: Route :: r in table ==> !IsRelayPrefix(relays, r.prefix)
  }

  /** The operation, left alone, brings its prefix to the goal. */
  ghost predicate Heading(switch: Switch, table: Table, job: Job, goal: Table) {
    SameRows(RunAlone(switch, job, table), goal, job.src)
  }

  ghost predicate AllHeading(switch: Switch, table: Table, jobs: seq<Job>, goal: Table) {
    forall i :: 0 <= i < |jobs| && jobs[i].pending.Some? ==> Heading(switch, table, jobs[i], goal)
  }

  ghost predicate RestAtGoal(table: Table, jobs: seq<Job>, goal: Table) {
    forall p :: !InFlight(jobs, p) ==> SameRows(table, goal, p)
  }

  ghost predicate Settles(relays: set<string>, switch: Switch, table: Table, jobs: seq<Job>, goal: Table) {
    && JobsProper(relays, jobs)
    && NoRelayRows(relays, table) && NoRelayRows(relays, goal)
    && AllHeading(switch, table, jobs, goal)
    && RestAtGoal(table, jobs, goal)
  }

  // ----- A request is served -----

  /** A step of a job does not change where it is heading. */
  lemma StepTowardsEnd(switch: Switch, job: Job, table: Table)
    requires job.pending.Some?
    ensures RunAlone(switch, StepJob(switch, job, table), StepTable(job, table)) == RunAlone(switch, job, table)
  {
  }

  /** A step of another job does not change the rows this one is heading for. */
  lemma OtherStepKeepsHeading(relays: set<string>, switch: Switch, table: Table, j: Job, k: Job, goal: Table)
    requires Proper(relays, j) && Proper(relays, k) && j.src != k.src
    requires Heading(switch, table, j, goal)
    ensures Heading(switch, StepTable(k, table), j, goal)
  {
    StepCommutes(switch, j, k, table);
    var done := RunAlone(switch, j, table);
    StepTableIsLocal(k, done, done);
  }

  /** Serving any request of any operation in flight does not change where the table settles. */
  lemma WorkKeepsSettling(relays: set<string>, switch: Switch, table: Table, jobs: seq<Job>, goal: Table, i: nat)
    requires Settles(relays, switch, table, jobs, goal) && i < |jobs| && jobs[i].pending.Some?
    ensures Settles(relays, switch, StepTable(jobs[i], table), jobs[i := StepJob(switch, jobs[i], table)], goal)
  {
    var job := jobs[i];
    var after, stepped := StepTable(job, table), jobs[i := StepJob(switch, job, table)];
    StepJobWellFormed(switch, job, table);
    StepTableIsLocal(job, table, table);
    StepTowardsEnd(switch, job, table);
    forall k | 0 <= k < |stepped| && stepped[k].pending.Some? ensures Heading(switch, after, stepped[k], goal) {
      if k != i {
        OtherStepKeepsHeading(relays, switch, table, jobs[k], job, goal);
      }
    }
    forall p | !InFlight(stepped, p) ensures SameRows(after, goal, p) {
      if p == job.src {
        assert stepped[i].src == p && stepped[i].pending.None?;
      } else {
        assert forall k :: 0 <= k < |jobs| && k != i ==> stepped[k] == jobs[k];
        assert !InFlight(jobs, p);
      }
    }
  }

  /** A settling table becomes the table it settles at, in whatever order its operations end. */
  lemma {:induction false} SettlingEnds(relays: set<string>, switch: Switch, table: Table, jobs: seq<Job>, goal: Table,
                                        schedule: seq<nat>)
    requires Settles(relays, switch, table, jobs, goal) && IsComplete(switch, jobs, table, schedule)
    ensures Scheduled(switch, jobs, table, schedule) == goal
    decreases |schedule|
  {
    if schedule == [] {
      forall p ensures Rows(table, p) == Rows(goal, p) {
        assert !InFlight(jobs, p);
        RowsFromSameRows(table, goal, p);
      }
      TableFromRows(table, goal);
    } else {
      var i := schedule[0];
      WorkKeepsSettling(relays, switch, table, jobs, goal, i);
      SettlingEnds(relays, switch, StepTable(jobs[i], table), jobs[i := StepJob(switch, jobs[i], table)], goal, schedule[1..]);
    }
  }

  // ----- An operation is launched -----

  /** Left alone, an operation does the same to its prefix in two tables that agree there. */
  lemma RunAloneAgrees(relays: set<string>, switch: Switch, job: Job, t: Table, u: Table)
    requires Proper(relays, job) && NoRelayRows(relays, t) && NoRelayRows(relays, u)
    requires SameRows(t, u, job.src)
    ensures SameRows(RunAlone(switch, job, t), RunAlone(switch, job, u), job.src)
  {
    if job.pending.Some? && job.pending.value.Lookup? {
      var q := QueriedPrefix(job.pending.value.command);
      if q == job.src {
        RowsFromSameRows(t, u, q);
      } else {
        assert Rows(t, q) == {} == Rows(u, q);
      }
      assert StepJob(switch, job, t) == StepJob(switch, job, u);
      StepJobWellFormed(switch, job, t);
      StepTableIsLocal(StepJob(switch, job, t), t, u);
    } else {
      StepTableIsLocal(job, t, u);
    }
  }

  /** An operation about a prefix at rest moves the table it settles at as if it ran alone. */
  lemma LaunchSettles(relays: set<string>, switch: Switch, table: Table, jobs: seq<Job>, goal: Table, job: Job)
    requires Settles(relays, switch, table, jobs, goal)
    requires Proper(relays, job) && job.pending.Some? && !InFlight(jobs, job.src)
    ensures Settles(relays, switch, table, jobs + [job], RunAlone(switch, job, goal))
  {
    var all, after := jobs + [job], RunAlone(switch, job, goal);
    RunAloneIsLocal(switch, job, goal);
    RunAloneAgrees(relays, switch, job, table, goal);
    assert all[|jobs|] == job;
    assert forall k :: 0 <= k < |jobs| ==> all[k] == jobs[k];
    forall i | 0 <= i < |all| && all[i].pending.Some? ensures Heading(switch, table, all[i], after) {
      if i < |jobs| {
        assert Heading(switch, table, jobs[i], goal);
      }
    }
    forall p | !InFlight(all, p) ensures SameRows(table, after, p) {
      assert !InFlight(jobs, p);
    }
  }

  /** Operations about different prefixes, all at rest. */
  ghost predicate Launchable(relays: set<string>, jobs: seq<Job>, launched: seq<Job>) {
    && (forall i :: 0 <= i < |launched| ==> CanLaunch(relays, jobs, launched[i]))
    && (forall i, k :: 0 <= i < k < |launched| ==> launched[i].src != launched[k].src)
  }

  ghost predicate CanLaunch(relays: set<string>, jobs: seq<Job>, job: Job) {
    Proper(relays, job) && job.pending.Some? && !InFlight(jobs, job.src)
  }

  lemma LaunchableRest(relays: set<string>, jobs: seq<Job>, launched: seq<Job>)
    requires launched != [] && Launchable(relays, jobs, launched)
    ensures Launchable(relays, jobs + [launched[0]], launched[1..])
  {
    var more, rest := jobs + [launched[0]], launched[1..];
    forall i | 0 <= i < |rest| ensures CanLaunch(relays, more, rest[i]) {
      assert rest[i] == launched[i + 1] && CanLaunch(relays, jobs, launched[i + 1]);
      assert launched[0].src != launched[i + 1].src;
    }
    assert forall i :: 0 <= i < |rest| ==> rest[i] == launched[i + 1];
  }

  lemma {:induction false} LaunchAllSettles(relays: set<string>, switch: Switch, table: Table, jobs: seq<Job>, goal: Table,
                                            launched: seq<Job>)
    requires Settles(relays, switch, table, jobs, goal) && Launchable(relays, jobs, launched)
    ensures Settles(relays, switch, table, jobs + launched, RunInOrder(switch, launched, goal))
    decreases |launched|
  {
    if launched == [] {
      assert jobs + launched == jobs;
    } else {
      var first, rest := launched[0], launched[1..];
      assert jobs + [first] + rest == jobs + launched;
      assert Settles(relays, switch, table, jobs + [first], RunAlone(switch, first, goal)) by {
        assert CanLaunch(relays, jobs, first);
        LaunchSettles(relays, switch, table, jobs, goal, first);
      }
      LaunchableRest(relays, jobs, launched);
      LaunchAllSettles(relays, switch, table, jobs + [first], RunAlone(switch, first, goal), rest);
    }
  }

  lemma OneLaunchable(relays: set<string>, jobs: seq<Job>, job: Job)
    requires CanLaunch(relays, jobs, job)
    ensures Launchable(relays, jobs, [job])
  {
  }

  lemma TwoLaunchable(relays: set<string>, jobs: seq<Job>, j: Job, k: Job)
    requires CanLaunch(relays, jobs, j) && CanLaunch(relays, jobs, k) && j.src != k.src
    ensures Launchable(relays, jobs, [j, k])
  {
  }
}
