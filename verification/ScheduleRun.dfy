/** Running an accepted schedule plan: retries, sensors, skipping, stopping and the exit code. */
module ScheduleRun {
  import opened Seqs
  import opened Walks
  import opened FifoTopology
  import opened Scheduler

  /** What the outside world answers: the exit code of each attempt of a job, and whether its sensor is met. */
  datatype World = World(invoke: (string, nat) -> int, sensor: string -> bool)

  datatype JobStatus = Success | Failed | FailedSensor

  datatype JobRow = JobRow(name: string, position: nat, status: JobStatus, exitCode: int, attempts: seq<int>)

  datatype SkippedRow =
    | SkippedStopOnError(name: string, position: nat, stoppedAfter: string)
    | SkippedUpstreamFailure(name: string, position: nat, failedDeps: seq<string>)
    | SkippedUnmetDependencies(name: string, position: nat, unmetDeps: seq<string>)

  datatype RunReport = RunReport(
    executionOrder: seq<string>, jobs: seq<JobRow>, skipped: seq<SkippedRow>, success: bool, exitCode: int)

  const SENSOR_EXIT_CODE := 5

  // The meaning of one job, on its own.

  function MaxAttempts(job: ScheduledJob): nat {
    1 + if job.retries < 0 then 0 else job.retries
  }

  ghost predicate SomeAttemptSucceeds(world: World, job: ScheduledJob) {
    exists a: nat :: 1 <= a <= MaxAttempts(job) && world.invoke(job.name, a) == 0
  }

  /** The job's own outcome, once it is run. */
  ghost predicate Succeeds(world: World, job: ScheduledJob) {
    (job.waits ==> world.sensor(job.name)) && SomeAttemptSucceeds(world, job)
  }

  /** The attempts stop at the first exit code 0 or when the retries are used up. */
  ghost predicate AreAttempts(world: World, job: ScheduledJob, attempts: seq<int>) {
    && 1 <= |attempts| <= MaxAttempts(job)
    && (forall i :: 0 <= i < |attempts| ==> attempts[i] == world.invoke(job.name, i + 1))
    && (forall i :: 0 <= i < |attempts| - 1 ==> attempts[i] != 0)
    && (|attempts| < MaxAttempts(job) ==> attempts[|attempts| - 1] == 0)
  }

  /** Position in the plan file, counted from 1. */
  function Position(jobs: seq<ScheduledJob>, name: string): nat {
    Rank(OrderIndex(jobs), name) + 1
  }

  ghost predicate IsRowOf(world: World, jobs: seq<ScheduledJob>, job: ScheduledJob, row: JobRow) {
    && row.name == job.name && row.position == Position(jobs, job.name)
    && (if job.waits && !world.sensor(job.name) then
          row.status == FailedSensor && row.exitCode == SENSOR_EXIT_CODE && row.attempts == []
        else
          && AreAttempts(world, job, row.attempts)
          && row.exitCode == row.attempts[|row.attempts| - 1]
          && row.status == (if row.exitCode == 0 then Success else Failed))
  }

  lemma RowTellsOutcome(world: World, jobs: seq<ScheduledJob>, job: ScheduledJob, row: JobRow)
    requires IsRowOf(world, jobs, job, row)
    ensures row.status.Success? <==> Succeeds(world, job)
    ensures row.exitCode == 0 <==> row.status.Success?
  {
    if !(job.waits && !world.sensor(job.name)) {
      var last := |row.attempts| - 1;
      if row.exitCode == 0 {
        assert world.invoke(job.name, last + 1) == 0;
      } else {
        forall a: nat | 1 <= a <= MaxAttempts(job)
          ensures world.invoke(job.name, a) != 0
        {
          assert row.attempts[a - 1] == world.invoke(job.name, a - 1 + 1);
        }
      }
    }
  }

  /** What a row says of the invocations, in terms of the retries and the answers of the world alone. */
  ghost predicate RowTellsAttempts(world: World, job: ScheduledJob, row: JobRow) {
    // An unmet sensor fails the job with exit code 5 and no attempt.
    && (job.waits && !world.sensor(job.name) ==>
          row.status == FailedSensor && row.exitCode == 5 && row.attempts == [])
    && (!job.waits || world.sensor(job.name) ==>
          && row.attempts != [] && row.exitCode == row.attempts[|row.attempts| - 1]
          // If every attempt fails, all are made: the first one and one for each retry.
          && (job.retries >= 0 && (forall a :: 1 <= a <= 1 + job.retries ==> world.invoke(job.name, a) != 0) ==>
                row.status == Failed && |row.attempts| == 1 + job.retries)
          // Otherwise the first success is the last attempt.
          && (forall a: nat :: 1 <= a <= 1 + job.retries && FirstSuccess(world, job.name, a) ==>
                row.status == Success && |row.attempts| == a)
          // A negative number of retries counts as none.
          && (job.retries < 0 ==>
                && |row.attempts| == 1
                && row.status == if world.invoke(job.name, 1) == 0 then Success else Failed))
    && (forall k :: 0 <= k < |row.attempts| ==> row.attempts[k] == world.invoke(job.name, k + 1))
  }

  /** Attempt `a`, counted from 1, is the first that returns 0. */
  ghost predicate FirstSuccess(world: World, name: string, a: nat) {
    world.invoke(name, a) == 0 && forall b: nat :: 1 <= b < a ==> world.invoke(name, b) != 0
  }

  lemma LastAttempt(world: World, job: ScheduledJob, attempts: seq<int>, a: nat)
    requires AreAttempts(world, job, attempts)
    requires 1 <= a <= MaxAttempts(job) && FirstSuccess(world, job.name, a)
    ensures |attempts| == a && attempts[a - 1] == 0
  {
    assert |attempts| >= a ==> attempts[a - 1] == world.invoke(job.name, a - 1 + 1);
    assert attempts[|attempts| - 1] == world.invoke(job.name, |attempts| - 1 + 1);
  }

  lemma AttemptsOfRow(world: World, jobs: seq<ScheduledJob>, job: ScheduledJob, row: JobRow)
    requires IsRowOf(world, jobs, job, row)
    ensures RowTellsAttempts(world, job, row)
  {
    if !job.waits || world.sensor(job.name) {
      var last := |row.attempts| - 1;
      assert row.attempts[last] == world.invoke(job.name, last + 1);
      forall a: nat | 1 <= a <= 1 + job.retries && FirstSuccess(world, job.name, a)
        ensures row.status == Success && |row.attempts| == a
      {
        LastAttempt(world, job, row.attempts, a);
      }
    }
  }

  method InvokeWithRetries(world: World, job: ScheduledJob) returns (attempts: seq<int>)
    ensures AreAttempts(world, job, attempts)
    // The attempts are numbered from 1 and the last one is the first to succeed.
    ensures forall i :: 0 <= i < |attempts| ==> attempts[i] == world.invoke(job.name, i + 1)
    ensures forall i :: 0 <= i < |attempts| - 1 ==> attempts[i] != 0
    // Without a success there is one attempt and one more for each retry.
    ensures 1 <= |attempts| && attempts[|attempts| - 1] != 0 ==>
              |attempts| == 1 + if job.retries > 0 then job.retries else 0
    ensures 1 <= |attempts| <= 1 + if job.retries > 0 then job.retries else 0
  {
    attempts := [];
    var finalExitCode := 1;
    var attempt := 1;
    while attempt < MaxAttempts(job) + 1
      invariant 1 <= attempt == |attempts| + 1 <= MaxAttempts(job) + 1
      invariant forall i :: 0 <= i < |attempts| ==> attempts[i] == world.invoke(job.name, i + 1) && attempts[i] != 0
    {
      finalExitCode := world.invoke(job.name, attempt);
      attempts := attempts + [finalExitCode];
      if finalExitCode == 0 {
        break;
      }
      attempt := attempt + 1;
    }
  }

  // The plan.

  /** A plan that passed validation. */
  ghost predicate AcceptedPlan(jobs: seq<ScheduledJob>) {
    KnownDeps(jobs) && Distinct(Names(jobs)) && Acyclic(jobs)
  }

  function JobNamed(jobs: seq<ScheduledJob>, name: string): (job: ScheduledJob)
    requires name in Names(jobs)
    ensures job in jobs && job.name == name
  {
    OrderIndexIsPosition(jobs);
    jobs[OrderIndex(jobs)[name]]
  }

  /** In an accepted plan the dependencies of a name are those of its one job. */
  lemma DepsOfName(jobs: seq<ScheduledJob>, name: string)
    requires Distinct(Names(jobs)) && name in Names(jobs)
    ensures DepsOf(jobs)[name] == ToSet(JobNamed(jobs, name).dependsOn)
  {
    OrderIndexIsPosition(jobs);
    DepListOfDistinct(jobs, OrderIndex(jobs)[name]);
  }

  /** A listing of all jobs with every dependency first. */
  ghost predicate TopologicalOrder(jobs: seq<ScheduledJob>, order: seq<string>) {
    && Known(DepsOf(jobs), order) && DepsFirst(DepsOf(jobs), order)
    && forall n :: n in Names(jobs) ==> n in order
  }

  /** Everything a job depends on, directly or not, succeeds. */
  ghost predicate Runs(world: World, jobs: seq<ScheduledJob>, name: string) {
    forall m, k: nat :: k >= 1 && Reach(DepEdges(DepsOf(jobs)), name, m, k) ==>
      m in Names(jobs) && Succeeds(world, JobNamed(jobs, m))
  }

  ghost predicate Completes(world: World, jobs: seq<ScheduledJob>, name: string) {
    name in Names(jobs) && Runs(world, jobs, name) && Succeeds(world, JobNamed(jobs, name))
  }

  /** A job runs iff its direct dependencies complete. */
  lemma RunsIffDepsComplete(world: World, jobs: seq<ScheduledJob>, name: string)
    requires KnownDeps(jobs) && name in Names(jobs)
    ensures Runs(world, jobs, name) <==> forall d :: d in DepsOf(jobs)[name] ==> Completes(world, jobs, d)
  {
    var edges := DepEdges(DepsOf(jobs));
    if Runs(world, jobs, name) {
      forall d | d in DepsOf(jobs)[name]
        ensures Completes(world, jobs, d)
      {
        RunsBelow(world, jobs, name, d);
      }
    }
    if forall d :: d in DepsOf(jobs)[name] ==> Completes(world, jobs, d) {
      forall m, k: nat | k >= 1 && Reach(edges, name, m, k)
        ensures m in Names(jobs) && Succeeds(world, JobNamed(jobs, m))
      {
        var p :| |p| == k + 1 && WalkFromTo(edges, p, name, m);
        assert (p[0], p[1]) in edges;
        SubwalkReach(edges, p, 1, k);
        assert Completes(world, jobs, p[1]);
        if k == 1 {
          assert m == p[1];
        }
      }
    }
  }

  lemma RunsBelow(world: World, jobs: seq<ScheduledJob>, name: string, d: string)
    requires Runs(world, jobs, name) && name in Names(jobs) && d in DepsOf(jobs)[name]
    ensures Completes(world, jobs, d)
  {
    var edges := DepEdges(DepsOf(jobs));
    assert (name, d) in edges;
    assert WalkFromTo(edges, [name, d], name, d);
    assert Reach(edges, name, d, 1);
    forall m, k: nat | k >= 1 && Reach(edges, d, m, k)
      ensures m in Names(jobs) && Succeeds(world, JobNamed(jobs, m))
    {
      ReachTrans(edges, name, d, m, 1, k);
    }
  }

  // What a run reports, in closed form.

  ghost predicate RowMatches(world: World, jobs: seq<ScheduledJob>, name: string, row: JobRow) {
    name in Names(jobs) && IsRowOf(world, jobs, JobNamed(jobs, name), row)
  }

  /** The jobs of `order` that run when errors do not stop the plan. */
  ghost function Executed(world: World, jobs: seq<ScheduledJob>, order: seq<string>): seq<string> {
    if order == [] then []
    else
      var last := order[|order| - 1];
      Executed(world, jobs, order[..|order| - 1]) + if Runs(world, jobs, last) then [last] else []
  }

  ghost function NotExecuted(world: World, jobs: seq<ScheduledJob>, order: seq<string>): seq<string> {
    if order == [] then []
    else
      var last := order[|order| - 1];
      NotExecuted(world, jobs, order[..|order| - 1]) + if Runs(world, jobs, last) then [] else [last]
  }

  /** The dependencies of a skipped job that did not complete, as they are listed. */
  ghost function Incomplete(world: World, jobs: seq<ScheduledJob>, deps: seq<string>): seq<string> {
    if deps == [] then []
    else
      var last := deps[|deps| - 1];
      Incomplete(world, jobs, deps[..|deps| - 1]) + if Completes(world, jobs, last) then [] else [last]
  }

  ghost predicate RowsOf(world: World, jobs: seq<ScheduledJob>, names: seq<string>, rows: seq<JobRow>) {
    |rows| == |names| && forall i :: 0 <= i < |rows| ==> RowMatches(world, jobs, names[i], rows[i])
  }

  /** The first exit code that is not 0, in the order of the rows. */
  function FirstFailure(rows: seq<JobRow>): int {
    if rows == [] then 0
    else if rows[0].exitCode != 0 then rows[0].exitCode
    else FirstFailure(rows[1..])
  }

  ghost predicate UnmetRow(world: World, jobs: seq<ScheduledJob>, name: string, row: SkippedRow) {
    && name in Names(jobs)
    && row == SkippedUnmetDependencies(
                name, Position(jobs, name), Incomplete(world, jobs, JobNamed(jobs, name).dependsOn))
  }

  /** Errors do not stop the plan: a job runs iff everything below it succeeds. */
  ghost predicate ContinueReport(world: World, jobs: seq<ScheduledJob>, order: seq<string>, report: RunReport) {
    && RowsOf(world, jobs, Executed(world, jobs, order), report.jobs)
    && |report.skipped| == |NotExecuted(world, jobs, order)|
    && forall i :: 0 <= i < |report.skipped| ==>
         UnmetRow(world, jobs, NotExecuted(world, jobs, order)[i], report.skipped[i])
  }

  predicate StopRow(jobs: seq<ScheduledJob>, name: string, failed: string, row: SkippedRow) {
    row == SkippedStopOnError(name, Position(jobs, name), failed)
  }

  ghost predicate SucceedsNamed(world: World, jobs: seq<ScheduledJob>, name: string) {
    name in Names(jobs) && Succeeds(world, JobNamed(jobs, name))
  }

  /** The first error stops the plan: what precedes it succeeds, what follows it is skipped. */
  ghost predicate StopReport(world: World, jobs: seq<ScheduledJob>, order: seq<string>, report: RunReport) {
    && |report.jobs| + |report.skipped| == |order|
    && RowsOf(world, jobs, order[..|report.jobs|], report.jobs)
    && (forall i :: 0 <= i < |report.jobs| - 1 ==> SucceedsNamed(world, jobs, order[i]))
    && (report.skipped != [] ==>
          && report.jobs != [] && !SucceedsNamed(world, jobs, order[|report.jobs| - 1])
          && forall i :: 0 <= i < |report.skipped| ==>
               StopRow(jobs, order[|report.jobs| + i], order[|report.jobs| - 1], report.skipped[i]))
  }

  ghost predicate IsReport(world: World, jobs: seq<ScheduledJob>, order: seq<string>, continueOnError: bool,
                           report: RunReport)
  {
    && report.executionOrder == order
    && (continueOnError ==> ContinueReport(world, jobs, order, report))
    && (!continueOnError ==> StopReport(world, jobs, order, report))
    && report.exitCode == FirstFailure(report.jobs)
    && (report.success <==> report.exitCode == 0)
  }

  // The run itself.

  function NotIn(list: seq<string>, out: set<string>): seq<string> {
    if list == [] then []
    else NotIn(list[..|list| - 1], out) + if list[|list| - 1] in out then [] else [list[|list| - 1]]
  }

  function OnlyIn(list: seq<string>, out: set<string>): seq<string> {
    if list == [] then []
    else OnlyIn(list[..|list| - 1], out) + if list[|list| - 1] in out then [list[|list| - 1]] else []
  }

  /** Wait for the sensor, if there is one, and then run the attempts. */
  method RunJob(world: World, jobs: seq<ScheduledJob>, job: ScheduledJob) returns (row: JobRow)
    ensures IsRowOf(world, jobs, job, row)
    ensures RowTellsAttempts(world, job, row)
  {
    if job.waits && !world.sensor(job.name) {
      row := JobRow(job.name, Position(jobs, job.name), FailedSensor, SENSOR_EXIT_CODE, []);
      AttemptsOfRow(world, jobs, job, row);
      return;
    }
    var attempts := InvokeWithRetries(world, job);
    var finalExitCode := attempts[|attempts| - 1];
    row := JobRow(job.name, Position(jobs, job.name), if finalExitCode == 0 then Success else Failed,
                  finalExitCode, attempts);
    AttemptsOfRow(world, jobs, job, row);
  }

  /** The local variables of the run. */
  datatype RunState = RunState(
    completed: set<string>, failed: set<string>, rows: seq<JobRow>, skipped: seq<SkippedRow>,
    exitCode: int, stopAfter: Option<string>)

  const START := RunState({}, {}, [], [], 0, None)

  /** What the loop body does to the state for the job called `name`. */
  method RunOrSkip(world: World, jobs: seq<ScheduledJob>, name: string, before: RunState, continueOnError: bool)
    returns (after: RunState)
    requires name in Names(jobs)
    ensures IsRound(world, jobs, name, before, after, continueOnError)
  {
    var job := JobNamed(jobs, name);
    var unmetDeps := NotIn(job.dependsOn, before.completed);
    var failedDeps := OnlyIn(job.dependsOn, before.failed);
    if before.stopAfter.Some? {
      var row := SkippedStopOnError(name, Position(jobs, name), before.stopAfter.value);
      return before.(skipped := before.skipped + [row]);
    }
    if failedDeps != [] && !continueOnError {
      var row := SkippedUpstreamFailure(name, Position(jobs, name), failedDeps);
      return before.(skipped := before.skipped + [row]);
    }
    if unmetDeps != [] {
      var row := SkippedUnmetDependencies(name, Position(jobs, name), unmetDeps);
      return before.(skipped := before.skipped + [row]);
    }
    var row := RunJob(world, jobs, job);
    RowTellsOutcome(world, jobs, job, row);
    after := before.(rows := before.rows + [row]);
    if row.status.Success? {
      after := after.(completed := after.completed + {name});
    } else {
      after := after.(failed := after.failed + {name});
      if after.exitCode == 0 {
        after := after.(exitCode := row.exitCode);
      }
      if !continueOnError {
        after := after.(stopAfter := Some(name));
      }
    }
    assert IsRun(world, jobs, name, before, after, row, continueOnError);
  }

  method RunNext(world: World, jobs: seq<ScheduledJob>, order: seq<string>, i: nat, before: RunState,
                 continueOnError: bool) returns (after: RunState)
    requires AcceptedPlan(jobs) && TopologicalOrder(jobs, order) && i < |order|
    requires Underway(world, jobs, order, i, continueOnError, before)
    ensures Underway(world, jobs, order, i + 1, continueOnError, after)
  {
    assert order[i] in order;
    after := RunOrSkip(world, jobs, order[i], before, continueOnError);
    Advance(world, jobs, order, i, continueOnError, before, after);
  }

  /** The loop over the order. */
  method RunAll(world: World, jobs: seq<ScheduledJob>, order: seq<string>, continueOnError: bool)
    returns (state: RunState)
    requires AcceptedPlan(jobs) && TopologicalOrder(jobs, order)
    ensures Underway(world, jobs, order, |order|, continueOnError, state)
  {
    state := START;
    NotStarted(world, jobs, order, continueOnError);
    for i := 0 to |order|
      invariant Underway(world, jobs, order, i, continueOnError, state)
    {
      state := RunNext(world, jobs, order, i, state, continueOnError);
    }
  }

  /** The run of an accepted plan along a topological order. */
  method RunInOrder(world: World, jobs: seq<ScheduledJob>, order: seq<string>, continueOnError: bool)
    returns (report: RunReport)
    requires AcceptedPlan(jobs) && TopologicalOrder(jobs, order)
    ensures IsReport(world, jobs, order, continueOnError, report)
  {
    var state := RunAll(world, jobs, order, continueOnError);
    report := RunReport(order, state.rows, state.skipped, state.exitCode == 0, state.exitCode);
    Finish(world, jobs, order, continueOnError, state, report);
  }

  lemma NotStarted(world: World, jobs: seq<ScheduledJob>, order: seq<string>, continueOnError: bool)
    ensures Underway(world, jobs, order, 0, continueOnError, START)
  {
  }

  lemma Finish(world: World, jobs: seq<ScheduledJob>, order: seq<string>, continueOnError: bool, state: RunState,
               report: RunReport)
    requires Underway(world, jobs, order, |order|, continueOnError, state)
    requires report == RunReport(order, state.rows, state.skipped, state.exitCode == 0, state.exitCode)
    ensures IsReport(world, jobs, order, continueOnError, report)
  {
    assert order[..|order|] == order;
  }

  ghost predicate Underway(world: World, jobs: seq<ScheduledJob>, order: seq<string>, i: nat, continueOnError: bool,
                           state: RunState)
    requires i <= |order|
  {
    && (if continueOnError then ContinueState(world, jobs, order[..i], state)
        else StopState(world, jobs, order, i, state))
    && state.exitCode == FirstFailure(state.rows)
  }

  lemma Advance(world: World, jobs: seq<ScheduledJob>, order: seq<string>, i: nat, continueOnError: bool,
                before: RunState, after: RunState)
    requires AcceptedPlan(jobs) && TopologicalOrder(jobs, order) && i < |order|
    requires Underway(world, jobs, order, i, continueOnError, before)
    requires IsRound(world, jobs, order[i], before, after, continueOnError)
    ensures Underway(world, jobs, order, i + 1, continueOnError, after)
  {
    RoundExitCode(world, jobs, order[i], before, after, continueOnError);
    if continueOnError {
      ContinueStep(world, jobs, order, i, before, after);
    } else {
      StopStep(world, jobs, order, i, before, after);
    }
  }

  ghost predicate IsRun(world: World, jobs: seq<ScheduledJob>, name: string, before: RunState, after: RunState,
                        row: JobRow, continueOnError: bool)
  {
    && RowMatches(world, jobs, name, row)
    && after.rows == before.rows + [row] && after.skipped == before.skipped
    && after.exitCode == (if before.exitCode != 0 then before.exitCode else row.exitCode)
    && if SucceedsNamed(world, jobs, name) then
         after.completed == before.completed + {name} && after.failed == before.failed
         && after.stopAfter == before.stopAfter
       else
         after.completed == before.completed && after.failed == before.failed + {name}
         && after.stopAfter == if continueOnError then before.stopAfter else Some(name)
  }

  ghost predicate IsRound(world: World, jobs: seq<ScheduledJob>, name: string, before: RunState, after: RunState,
                          continueOnError: bool)
  {
    && name in Names(jobs)
    && var unmetDeps := NotIn(JobNamed(jobs, name).dependsOn, before.completed);
       var failedDeps := OnlyIn(JobNamed(jobs, name).dependsOn, before.failed);
       if before.stopAfter.Some? then
         IsSkip(before, after, SkippedStopOnError(name, Position(jobs, name), before.stopAfter.value))
       else if failedDeps != [] && !continueOnError then
         IsSkip(before, after, SkippedUpstreamFailure(name, Position(jobs, name), failedDeps))
       else if unmetDeps != [] then
         IsSkip(before, after, SkippedUnmetDependencies(name, Position(jobs, name), unmetDeps))
       else
         exists row :: IsRun(world, jobs, name, before, after, row, continueOnError)
  }

  predicate IsSkip(before: RunState, after: RunState, row: SkippedRow) {
    after == before.(skipped := before.skipped + [row])
  }

  lemma RoundExitCode(world: World, jobs: seq<ScheduledJob>, name: string, before: RunState, after: RunState,
                      continueOnError: bool)
    requires IsRound(world, jobs, name, before, after, continueOnError)
    requires before.exitCode == FirstFailure(before.rows)
    ensures after.exitCode == FirstFailure(after.rows)
  {
    if after.rows != before.rows {
      var row :| IsRun(world, jobs, name, before, after, row, continueOnError);
      FirstFailureSnoc(before.rows, row);
    }
  }

  lemma {:induction false} FirstFailureSnoc(rows: seq<JobRow>, row: JobRow)
    ensures FirstFailure(rows + [row]) == if FirstFailure(rows) != 0 then FirstFailure(rows) else row.exitCode
  {
    if rows != [] {
      FirstFailureSnoc(rows[1..], row);
      assert (rows + [row])[1..] == rows[1..] + [row];
    }
  }

  ghost predicate ContinueState(world: World, jobs: seq<ScheduledJob>, done: seq<string>, state: RunState) {
    && state.stopAfter.None?
    && (forall n :: n in state.completed <==> n in done && Completes(world, jobs, n))
    && RowsOf(world, jobs, Executed(world, jobs, done), state.rows)
    && |state.skipped| == |NotExecuted(world, jobs, done)|
    && forall i :: 0 <= i < |state.skipped| ==>
         UnmetRow(world, jobs, NotExecuted(world, jobs, done)[i], state.skipped[i])
  }

  lemma {:induction false} UnmetIsIncomplete(world: World, jobs: seq<ScheduledJob>, deps: seq<string>,
                                             completed: set<string>)
    requires forall d :: d in deps ==> (d in completed <==> Completes(world, jobs, d))
    ensures NotIn(deps, completed) == Incomplete(world, jobs, deps)
    ensures NotIn(deps, completed) == [] <==> forall d :: d in deps ==> Completes(world, jobs, d)
  {
    if deps != [] {
      var init, last := deps[..|deps| - 1], deps[|deps| - 1];
      assert deps == init + [last];
      UnmetIsIncomplete(world, jobs, init, completed);
    }
  }

  lemma ContinueStep(world: World, jobs: seq<ScheduledJob>, order: seq<string>, i: nat, before: RunState,
                     after: RunState)
    requires AcceptedPlan(jobs) && TopologicalOrder(jobs, order) && i < |order|
    requires ContinueState(world, jobs, order[..i], before)
    requires IsRound(world, jobs, order[i], before, after, true)
    ensures ContinueState(world, jobs, order[..i + 1], after)
  {
    ContinueUnmet(world, jobs, order, i, before.completed);
    assert order[..i + 1] == order[..i] + [order[i]];
    if Runs(world, jobs, order[i]) {
      var row :| IsRun(world, jobs, order[i], before, after, row, true);
      ContinueRun(world, jobs, order[..i], order[i], before, after, row);
    } else {
      ContinueSkip(world, jobs, order[..i], order[i], before, after);
    }
  }

  /** The unmet dependencies of the next job are the incomplete ones; there is none iff the job runs. */
  lemma ContinueUnmet(world: World, jobs: seq<ScheduledJob>, order: seq<string>, i: nat, completed: set<string>)
    requires AcceptedPlan(jobs) && TopologicalOrder(jobs, order) && i < |order|
    requires forall n :: n in completed <==> n in order[..i] && Completes(world, jobs, n)
    ensures order[i] in Names(jobs)
    ensures var deps := JobNamed(jobs, order[i]).dependsOn;
            && NotIn(deps, completed) == Incomplete(world, jobs, deps)
            && (NotIn(deps, completed) == [] <==> Runs(world, jobs, order[i]))
  {
    assert order[i] in order && DepsBehind(DepsOf(jobs), order, i);
    var deps := JobNamed(jobs, order[i]).dependsOn;
    DepsOfName(jobs, order[i]);
    forall d | d in deps
      ensures d in completed <==> Completes(world, jobs, d)
    {
      assert d in DepsOf(jobs)[order[i]];
    }
    UnmetIsIncomplete(world, jobs, deps, completed);
    RunsIffDepsComplete(world, jobs, order[i]);
  }

  lemma ContinueRun(world: World, jobs: seq<ScheduledJob>, done: seq<string>, name: string,
                    before: RunState, after: RunState, row: JobRow)
    requires ContinueState(world, jobs, done, before) && Runs(world, jobs, name)
    requires IsRun(world, jobs, name, before, after, row, true)
    ensures ContinueState(world, jobs, done + [name], after)
  {
    assert (done + [name])[..|done|] == done;
    assert Executed(world, jobs, done + [name]) == Executed(world, jobs, done) + [name];
    assert NotExecuted(world, jobs, done + [name]) == NotExecuted(world, jobs, done);
  }

  lemma ContinueSkip(world: World, jobs: seq<ScheduledJob>, done: seq<string>, name: string,
                     before: RunState, after: RunState)
    requires ContinueState(world, jobs, done, before) && !Runs(world, jobs, name) && name in Names(jobs)
    requires IsSkip(before, after, SkippedUnmetDependencies(
                      name, Position(jobs, name), Incomplete(world, jobs, JobNamed(jobs, name).dependsOn)))
    ensures ContinueState(world, jobs, done + [name], after)
  {
    assert (done + [name])[..|done|] == done;
    assert Executed(world, jobs, done + [name]) == Executed(world, jobs, done);
    assert NotExecuted(world, jobs, done + [name]) == NotExecuted(world, jobs, done) + [name];
  }

  ghost predicate StopState(world: World, jobs: seq<ScheduledJob>, order: seq<string>, i: nat, state: RunState)
    requires i <= |order|
  {
    var ran := |state.rows|;
    && ran + |state.skipped| == i
    && RowsOf(world, jobs, order[..ran], state.rows)
    && (forall k :: 0 <= k < ran - 1 ==> SucceedsNamed(world, jobs, order[k]))
    && if state.stopAfter.None? then
         && state.skipped == [] && state.failed == {} && state.completed == ToSet(order[..i])
         && (forall k :: 0 <= k < i ==> SucceedsNamed(world, jobs, order[k]))
       else
         && ran > 0 && state.stopAfter.value == order[ran - 1] && !SucceedsNamed(world, jobs, order[ran - 1])
         && forall k :: 0 <= k < |state.skipped| ==> StopRow(jobs, order[ran + k], order[ran - 1], state.skipped[k])
  }

  lemma {:induction false} NothingOut(list: seq<string>, out: set<string>)
    ensures OnlyIn(list, {}) == []
    ensures (forall d :: d in list ==> d in out) ==> NotIn(list, out) == []
  {
    if list != [] {
      var init, last := list[..|list| - 1], list[|list| - 1];
      assert list == init + [last];
      NothingOut(init, out);
    }
  }

  lemma StopStep(world: World, jobs: seq<ScheduledJob>, order: seq<string>, i: nat, before: RunState, after: RunState)
    requires AcceptedPlan(jobs) && TopologicalOrder(jobs, order) && i < |order|
    requires StopState(world, jobs, order, i, before)
    requires IsRound(world, jobs, order[i], before, after, false)
    ensures StopState(world, jobs, order, i + 1, after)
  {
    if before.stopAfter.Some? {
      StopSkip(world, jobs, order, i, before, after);
    } else {
      StopUnmet(jobs, order, i);
      NothingOut(JobNamed(jobs, order[i]).dependsOn, before.completed);
      var row :| IsRun(world, jobs, order[i], before, after, row, false);
      StopRun(world, jobs, order, i, before, after, row);
    }
  }

  lemma StopSkip(world: World, jobs: seq<ScheduledJob>, order: seq<string>, i: nat, before: RunState, after: RunState)
    requires i < |order| && order[i] in Names(jobs)
    requires StopState(world, jobs, order, i, before) && before.stopAfter.Some?
    requires IsSkip(before, after, SkippedStopOnError(order[i], Position(jobs, order[i]), before.stopAfter.value))
    ensures StopState(world, jobs, order, i + 1, after)
  {
    var ran := |before.rows|;
    assert StopRow(jobs, order[i], order[ran - 1], after.skipped[i - ran]);
  }

  lemma StopUnmet(jobs: seq<ScheduledJob>, order: seq<string>, i: nat)
    requires AcceptedPlan(jobs) && TopologicalOrder(jobs, order) && i < |order|
    ensures order[i] in Names(jobs)
    ensures forall d :: d in JobNamed(jobs, order[i]).dependsOn ==> d in ToSet(order[..i])
  {
    assert order[i] in order && DepsBehind(DepsOf(jobs), order, i);
    DepsOfName(jobs, order[i]);
    forall d | d in JobNamed(jobs, order[i]).dependsOn
      ensures d in ToSet(order[..i])
    {
      assert d in DepsOf(jobs)[order[i]];
    }
  }

  lemma StopRun(world: World, jobs: seq<ScheduledJob>, order: seq<string>, i: nat,
                before: RunState, after: RunState, row: JobRow)
    requires i < |order| && StopState(world, jobs, order, i, before) && before.stopAfter.None?
    requires IsRun(world, jobs, order[i], before, after, row, false)
    ensures StopState(world, jobs, order, i + 1, after)
  {
    assert order[..i + 1] == order[..i] + [order[i]];
    assert ToSet(order[..i + 1]) == ToSet(order[..i]) + {order[i]};
  }

  /** Sort the plan, then run it along that order. */
  method RunSchedulePlan(world: World, jobs: seq<ScheduledJob>, continueOnError: bool) returns (report: RunReport)
    requires AcceptedPlan(jobs)
    ensures IsFifoOrder(DepsOf(jobs), DeclaredLe(OrderIndex(jobs)), report.executionOrder)
    ensures TopologicalOrder(jobs, report.executionOrder)
    ensures IsReport(world, jobs, report.executionOrder, continueOnError, report)
    ensures forall i, j :: 0 <= i < |report.jobs| && 0 <= j < |jobs| && report.jobs[i].name == jobs[j].name ==>
              report.jobs[i].position == j + 1 && RowTellsAttempts(world, jobs[j], report.jobs[i])
    ensures report.success <==> report.exitCode == 0
    ensures continueOnError ==> forall j: nat :: j < |jobs| ==> RunsAsRowsTell(jobs, report, j)
    ensures continueOnError ==>
              forall k: nat, j: nat :: k < |report.skipped| && j < |jobs| ==> SkippedAsRowsTell(jobs, report, k, j)
    ensures !continueOnError ==> StoppedAsRowsTell(report)
  {
    var order := TopologicalSort(jobs);
    SortCovers(jobs, order);
    report := RunInOrder(world, jobs, order, continueOnError);
    RowsTell(world, jobs, order, continueOnError, report);
    RowsTellWhatRuns(world, jobs, order, continueOnError, report);
  }

  /** In an accepted plan the job called `jobs[j].name` is `jobs[j]`, and its position is `j + 1`. */
  lemma JobIsNamed(jobs: seq<ScheduledJob>, j: nat)
    requires Distinct(Names(jobs)) && j < |jobs|
    ensures jobs[j].name in Names(jobs) && JobNamed(jobs, jobs[j].name) == jobs[j]
    ensures Position(jobs, jobs[j].name) == j + 1
  {
    assert Names(jobs)[j] == jobs[j].name;
    DepListOfDistinct(jobs, j);
  }

  /** The names that have rows, in the order of the rows. */
  ghost function RanNames(world: World, jobs: seq<ScheduledJob>, order: seq<string>, continueOnError: bool,
                          report: RunReport): seq<string>
    requires IsReport(world, jobs, order, continueOnError, report)
  {
    if continueOnError then Executed(world, jobs, order) else order[..|report.jobs|]
  }

  lemma RowTellsOfJob(world: World, jobs: seq<ScheduledJob>, order: seq<string>, continueOnError: bool,
                      report: RunReport, i: nat, j: nat)
    requires AcceptedPlan(jobs) && IsReport(world, jobs, order, continueOnError, report)
    requires i < |report.jobs| && j < |jobs| && report.jobs[i].name == jobs[j].name
    ensures report.jobs[i].position == j + 1 && RowTellsAttempts(world, jobs[j], report.jobs[i])
  {
    var name := RanNames(world, jobs, order, continueOnError, report)[i];
    assert RowMatches(world, jobs, name, report.jobs[i]);
    JobIsNamed(jobs, j);
    AttemptsOfRow(world, jobs, jobs[j], report.jobs[i]);
  }

  lemma RowsTell(world: World, jobs: seq<ScheduledJob>, order: seq<string>, continueOnError: bool,
                 report: RunReport)
    requires AcceptedPlan(jobs) && IsReport(world, jobs, order, continueOnError, report)
    ensures forall i, j :: 0 <= i < |report.jobs| && 0 <= j < |jobs| && report.jobs[i].name == jobs[j].name ==>
              report.jobs[i].position == j + 1 && RowTellsAttempts(world, jobs[j], report.jobs[i])
  {
    forall i, j | 0 <= i < |report.jobs| && 0 <= j < |jobs| && report.jobs[i].name == jobs[j].name
      ensures report.jobs[i].position == j + 1 && RowTellsAttempts(world, jobs[j], report.jobs[i])
    {
      RowTellsOfJob(world, jobs, order, continueOnError, report, i, j);
    }
  }

  ghost predicate HasRow(rows: seq<JobRow>, name: string) {
    exists i :: 0 <= i < |rows| && rows[i].name == name
  }

  ghost predicate HasSuccess(rows: seq<JobRow>, name: string) {
    exists i :: 0 <= i < |rows| && rows[i].name == name && rows[i].status == Success
  }

  /** When errors do not stop the plan: a job is run iff each of its dependencies has a successful row. */
  ghost predicate RunsAsRowsTell(jobs: seq<ScheduledJob>, report: RunReport, j: nat)
    requires j < |jobs|
  {
    HasRow(report.jobs, jobs[j].name) <==> forall d :: d in jobs[j].dependsOn ==> HasSuccess(report.jobs, d)
  }

  /** A skipped row names the dependencies without a successful row. */
  ghost predicate SkippedAsRowsTell(jobs: seq<ScheduledJob>, report: RunReport, k: nat, j: nat)
    requires k < |report.skipped| && j < |jobs|
  {
    report.skipped[k].name == jobs[j].name ==>
      && report.skipped[k].SkippedUnmetDependencies? && report.skipped[k].position == j + 1
      && (forall d :: d in report.skipped[k].unmetDeps <==> d in jobs[j].dependsOn && !HasSuccess(report.jobs, d))
  }

  /** When the first error stops the plan: what ran is a prefix of the order, and only its last job may fail. */
  ghost predicate StoppedAsRowsTell(report: RunReport) {
    var ran := |report.jobs|;
    && ran + |report.skipped| == |report.executionOrder|
    && (forall i :: 0 <= i < ran ==> report.jobs[i].name == report.executionOrder[i])
    && (forall i :: 0 <= i < ran - 1 ==> report.jobs[i].status == Success)
    && (report.skipped != [] ==> ran > 0 && report.jobs[ran - 1].status != Success)
    && forall k :: 0 <= k < |report.skipped| ==>
         && report.skipped[k].SkippedStopOnError? && report.skipped[k].name == report.executionOrder[ran + k]
         && report.skipped[k].stoppedAfter == report.executionOrder[ran - 1]
  }

  lemma RowsTellWhatRuns(world: World, jobs: seq<ScheduledJob>, order: seq<string>, continueOnError: bool,
                         report: RunReport)
    requires AcceptedPlan(jobs) && TopologicalOrder(jobs, order)
    requires IsReport(world, jobs, order, continueOnError, report)
    ensures continueOnError ==> forall j: nat :: j < |jobs| ==> RunsAsRowsTell(jobs, report, j)
    ensures continueOnError ==>
              forall k: nat, j: nat :: k < |report.skipped| && j < |jobs| ==> SkippedAsRowsTell(jobs, report, k, j)
    ensures !continueOnError ==> StoppedAsRowsTell(report)
  {
    if continueOnError {
      forall j: nat | j < |jobs|
        ensures RunsAsRowsTell(jobs, report, j)
      {
        ContinuedTells(world, jobs, order, report, j);
      }
      forall k: nat, j: nat | k < |report.skipped| && j < |jobs|
        ensures SkippedAsRowsTell(jobs, report, k, j)
      {
        SkipTells(world, jobs, order, report, k, j);
      }
    } else {
      StopTells(world, jobs, order, report);
    }
  }

  /** Along a topological order of a continued plan: a row means that the job ran, a success that it completes. */
  lemma RowMeansRun(world: World, jobs: seq<ScheduledJob>, order: seq<string>, report: RunReport, name: string)
    requires TopologicalOrder(jobs, order) && ContinueReport(world, jobs, order, report) && name in Names(jobs)
    ensures HasRow(report.jobs, name) <==> Runs(world, jobs, name)
    ensures HasSuccess(report.jobs, name) <==> Completes(world, jobs, name)
  {
    var names := Executed(world, jobs, order);
    NamesOfRows(world, jobs, names, report.jobs);
    InExecuted(world, jobs, order, name);
    forall i | 0 <= i < |report.jobs|
      ensures report.jobs[i].name == names[i]
      ensures report.jobs[i].status == Success <==> SucceedsNamed(world, jobs, names[i])
    {
      assert RowMatches(world, jobs, names[i], report.jobs[i]);
      RowTells(world, jobs, names[i], report.jobs[i]);
    }
    if Runs(world, jobs, name) {
      var i :| 0 <= i < |names| && names[i] == name;
      assert report.jobs[i].name == name;
    }
  }

  lemma ContinuedTells(world: World, jobs: seq<ScheduledJob>, order: seq<string>, report: RunReport, j: nat)
    requires AcceptedPlan(jobs) && TopologicalOrder(jobs, order) && IsReport(world, jobs, order, true, report)
    requires j < |jobs|
    ensures RunsAsRowsTell(jobs, report, j)
  {
    JobIsNamed(jobs, j);
    var name := jobs[j].name;
    RowMeansRun(world, jobs, order, report, name);
    RunsIffDepsComplete(world, jobs, name);
    DepsOfName(jobs, name);
    forall d | d in jobs[j].dependsOn
      ensures d in DepsOf(jobs)[name] && (HasSuccess(report.jobs, d) <==> Completes(world, jobs, d))
    {
      assert jobs[j] in jobs;
      RowMeansRun(world, jobs, order, report, d);
    }
  }

  lemma {:induction false} IncompleteIs(world: World, jobs: seq<ScheduledJob>, deps: seq<string>)
    ensures forall d :: d in Incomplete(world, jobs, deps) <==> d in deps && !Completes(world, jobs, d)
  {
    if deps != [] {
      assert deps == deps[..|deps| - 1] + [deps[|deps| - 1]];
      IncompleteIs(world, jobs, deps[..|deps| - 1]);
    }
  }

  lemma SkipTells(world: World, jobs: seq<ScheduledJob>, order: seq<string>, report: RunReport, k: nat, j: nat)
    requires AcceptedPlan(jobs) && TopologicalOrder(jobs, order) && IsReport(world, jobs, order, true, report)
    requires k < |report.skipped| && j < |jobs|
    ensures SkippedAsRowsTell(jobs, report, k, j)
  {
    assert UnmetRow(world, jobs, NotExecuted(world, jobs, order)[k], report.skipped[k]);
    if report.skipped[k].name == jobs[j].name {
      JobIsNamed(jobs, j);
      IncompleteIs(world, jobs, jobs[j].dependsOn);
      forall d | d in jobs[j].dependsOn
        ensures HasSuccess(report.jobs, d) <==> Completes(world, jobs, d)
      {
        assert jobs[j] in jobs;
        RowMeansRun(world, jobs, order, report, d);
      }
    }
  }

  lemma StopTells(world: World, jobs: seq<ScheduledJob>, order: seq<string>, report: RunReport)
    requires IsReport(world, jobs, order, false, report)
    ensures StoppedAsRowsTell(report)
  {
    var ran := |report.jobs|;
    forall i | 0 <= i < ran
      ensures report.jobs[i].name == order[i]
      ensures report.jobs[i].status == Success <==> SucceedsNamed(world, jobs, order[i])
    {
      assert RowMatches(world, jobs, order[..ran][i], report.jobs[i]);
      RowTells(world, jobs, order[i], report.jobs[i]);
    }
    forall k | 0 <= k < |report.skipped|
      ensures StopRow(jobs, order[ran + k], order[ran - 1], report.skipped[k])
    {
    }
  }

  // What every report says.

  lemma {:induction false} InExecuted(world: World, jobs: seq<ScheduledJob>, order: seq<string>, n: string)
    ensures n in Executed(world, jobs, order) <==> n in order && Runs(world, jobs, n)
    ensures n in NotExecuted(world, jobs, order) <==> n in order && !Runs(world, jobs, n)
  {
    if order != [] {
      var init, last := order[..|order| - 1], order[|order| - 1];
      assert order == init + [last];
      InExecuted(world, jobs, init, n);
    }
  }

  lemma {:induction false} ExecutedSplits(world: World, jobs: seq<ScheduledJob>, order: seq<string>)
    ensures multiset(Executed(world, jobs, order)) + multiset(NotExecuted(world, jobs, order)) == multiset(order)
  {
    if order != [] {
      var init, last := order[..|order| - 1], order[|order| - 1];
      assert order == init + [last];
      ExecutedSplits(world, jobs, init);
    }
  }

  function RowNames(rows: seq<JobRow>): seq<string> {
    seq(|rows|, i requires 0 <= i < |rows| => rows[i].name)
  }

  function SkippedNames(skipped: seq<SkippedRow>): seq<string> {
    seq(|skipped|, i requires 0 <= i < |skipped| => skipped[i].name)
  }

  lemma NamesOfRows(world: World, jobs: seq<ScheduledJob>, names: seq<string>, rows: seq<JobRow>)
    requires RowsOf(world, jobs, names, rows)
    ensures RowNames(rows) == names
  {
    forall i | 0 <= i < |rows|
      ensures RowNames(rows)[i] == names[i]
    {
      assert RowMatches(world, jobs, names[i], rows[i]);
    }
  }

  /** Every job of the plan is in exactly one of the two lists, exactly once. */
  lemma EveryJobIsAccountedFor(world: World, jobs: seq<ScheduledJob>, order: seq<string>, continueOnError: bool,
                               report: RunReport)
    requires IsReport(world, jobs, order, continueOnError, report)
    ensures multiset(RowNames(report.jobs)) + multiset(SkippedNames(report.skipped)) == multiset(order)
  {
    if continueOnError {
      NamesOfRows(world, jobs, Executed(world, jobs, order), report.jobs);
      ExecutedSplits(world, jobs, order);
      assert SkippedNames(report.skipped) == NotExecuted(world, jobs, order);
    } else {
      var ran := |report.jobs|;
      NamesOfRows(world, jobs, order[..ran], report.jobs);
      forall i | 0 <= i < |report.skipped|
        ensures SkippedNames(report.skipped)[i] == order[ran..][i]
      {
        assert StopRow(jobs, order[ran + i], order[ran - 1], report.skipped[i]);
      }
      assert SkippedNames(report.skipped) == order[ran..];
      assert order == order[..ran] + order[ran..];
    }
  }

  /** Stopping skips for one reason, continuing for another, and never because of an upstream failure. */
  lemma UpstreamFailureIsUnreachable(world: World, jobs: seq<ScheduledJob>, order: seq<string>, continueOnError: bool,
                                     report: RunReport, i: nat)
    requires IsReport(world, jobs, order, continueOnError, report) && i < |report.skipped|
    ensures if continueOnError then report.skipped[i].SkippedUnmetDependencies?
            else report.skipped[i].SkippedStopOnError?
  {
    if continueOnError {
      assert UnmetRow(world, jobs, NotExecuted(world, jobs, order)[i], report.skipped[i]);
    } else {
      assert StopRow(jobs, order[|report.jobs| + i], order[|report.jobs| - 1], report.skipped[i]);
    }
  }

  lemma RowTells(world: World, jobs: seq<ScheduledJob>, name: string, row: JobRow)
    requires RowMatches(world, jobs, name, row)
    ensures row.name == name
    ensures row.status.Success? <==> SucceedsNamed(world, jobs, name)
    ensures row.exitCode == 0 <==> row.status.Success?
  {
    RowTellsOutcome(world, jobs, JobNamed(jobs, name), row);
  }

  lemma {:induction false} FirstFailureIsFirst(rows: seq<JobRow>)
    ensures FirstFailure(rows) == 0 <==> forall i :: 0 <= i < |rows| ==> rows[i].exitCode == 0
    ensures FirstFailure(rows) != 0 ==>
              exists i :: 0 <= i < |rows| && rows[i].exitCode == FirstFailure(rows)
                          && forall k :: 0 <= k < i ==> rows[k].exitCode == 0
  {
    if rows != [] {
      FirstFailureIsFirst(rows[1..]);
      if rows[0].exitCode == 0 {
        assert rows == [rows[0]] + rows[1..];
        if FirstFailure(rows) != 0 {
          var i :| 0 <= i < |rows[1..]| && rows[1..][i].exitCode == FirstFailure(rows[1..])
                   && forall k :: 0 <= k < i ==> rows[1..][k].exitCode == 0;
          assert rows[i + 1].exitCode == FirstFailure(rows);
          assert forall k :: 0 <= k < i + 1 ==> rows[k].exitCode == 0;
        }
      } else {
        assert rows[0].exitCode == FirstFailure(rows);
      }
    }
  }

  lemma AllRowsSucceed(world: World, jobs: seq<ScheduledJob>, names: seq<string>, rows: seq<JobRow>)
    requires RowsOf(world, jobs, names, rows)
    ensures FirstFailure(rows) == 0 <==> forall n :: n in names ==> SucceedsNamed(world, jobs, n)
  {
    FirstFailureIsFirst(rows);
    forall i | 0 <= i < |rows|
      ensures rows[i].exitCode == 0 <==> SucceedsNamed(world, jobs, names[i])
    {
      assert RowMatches(world, jobs, names[i], rows[i]);
      RowTells(world, jobs, names[i], rows[i]);
    }
    if forall n :: n in names ==> SucceedsNamed(world, jobs, n) {
      forall i | 0 <= i < |rows|
        ensures rows[i].exitCode == 0
      {
        assert names[i] in names;
      }
    }
  }

  /** If every job that runs succeeds, every job runs. */
  lemma {:induction false} AllRun(world: World, jobs: seq<ScheduledJob>, order: seq<string>, i: nat)
    requires AcceptedPlan(jobs) && TopologicalOrder(jobs, order) && i < |order|
    requires forall n :: n in order && Runs(world, jobs, n) ==> SucceedsNamed(world, jobs, n)
    ensures order[i] in Names(jobs) && Runs(world, jobs, order[i])
    decreases i
  {
    assert order[i] in order && DepsBehind(DepsOf(jobs), order, i);
    forall d | d in DepsOf(jobs)[order[i]]
      ensures Completes(world, jobs, d)
    {
      var k :| 0 <= k < i && order[..i][k] == d;
      AllRun(world, jobs, order, k);
    }
    RunsIffDepsComplete(world, jobs, order[i]);
  }

  /** The plan succeeds iff every job of the plan succeeds, in both modes. */
  lemma SuccessIffEveryJobSucceeds(world: World, jobs: seq<ScheduledJob>, order: seq<string>, continueOnError: bool,
                                   report: RunReport)
    requires AcceptedPlan(jobs) && TopologicalOrder(jobs, order)
    requires IsReport(world, jobs, order, continueOnError, report)
    ensures report.success <==> forall n :: n in order ==> SucceedsNamed(world, jobs, n)
    ensures report.success ==> report.skipped == []
  {
    if continueOnError {
      var names := Executed(world, jobs, order);
      AllRowsSucceed(world, jobs, names, report.jobs);
      forall n
        ensures n in names <==> n in order && Runs(world, jobs, n)
        ensures n in NotExecuted(world, jobs, order) <==> n in order && !Runs(world, jobs, n)
      {
        InExecuted(world, jobs, order, n);
      }
      if report.success {
        forall i | 0 <= i < |order|
          ensures Runs(world, jobs, order[i])
        {
          AllRun(world, jobs, order, i);
        }
        NothingSkipped(world, jobs, order);
      }
    } else {
      StopSuccess(world, jobs, order, report);
    }
  }

  lemma {:induction false} NothingSkipped(world: World, jobs: seq<ScheduledJob>, order: seq<string>)
    requires forall i :: 0 <= i < |order| ==> Runs(world, jobs, order[i])
    ensures NotExecuted(world, jobs, order) == []
  {
    if order != [] {
      NothingSkipped(world, jobs, order[..|order| - 1]);
    }
  }

  lemma StopSuccess(world: World, jobs: seq<ScheduledJob>, order: seq<string>, report: RunReport)
    requires IsReport(world, jobs, order, false, report)
    ensures report.success <==> forall n :: n in order ==> SucceedsNamed(world, jobs, n)
    ensures report.success ==> report.skipped == []
  {
    var ran := |report.jobs|;
    AllRowsSucceed(world, jobs, order[..ran], report.jobs);
    if report.skipped != [] {
      assert order[ran - 1] in order[..ran] && order[ran - 1] in order;
    } else {
      assert order[..ran] == order;
    }
  }

  /** A row is determined by the job and the outside world. */
  lemma RowIsUnique(world: World, jobs: seq<ScheduledJob>, name: string, first: JobRow, second: JobRow)
    requires RowMatches(world, jobs, name, first) && RowMatches(world, jobs, name, second)
    ensures first == second
  {
    var job := JobNamed(jobs, name);
    if !(job.waits && !world.sensor(job.name)) {
      SameAttempts(world, job, first.attempts, second.attempts);
    }
  }

  lemma SameAttempts(world: World, job: ScheduledJob, a: seq<int>, b: seq<int>)
    requires AreAttempts(world, job, a) && AreAttempts(world, job, b)
    ensures a == b
  {
    assert |a| <= |b| ==> a[|a| - 1] == b[|a| - 1];
    assert |b| <= |a| ==> b[|b| - 1] == a[|b| - 1];
  }

  lemma RowListed(world: World, jobs: seq<ScheduledJob>, names: seq<string>, rows: seq<JobRow>, row: JobRow)
    requires RowsOf(world, jobs, names, rows)
    ensures row in rows <==> row.name in names && RowMatches(world, jobs, row.name, row)
  {
    if row in rows {
      var i :| 0 <= i < |rows| && rows[i] == row;
      assert RowMatches(world, jobs, names[i], rows[i]);
    }
    if row.name in names && RowMatches(world, jobs, row.name, row) {
      var i :| 0 <= i < |names| && names[i] == row.name;
      assert RowMatches(world, jobs, names[i], rows[i]);
      RowIsUnique(world, jobs, row.name, row, rows[i]);
    }
  }

  lemma SkippedListed(world: World, jobs: seq<ScheduledJob>, order: seq<string>, report: RunReport, row: SkippedRow)
    requires ContinueReport(world, jobs, order, report)
    ensures row in report.skipped <==>
              row.name in NotExecuted(world, jobs, order) && UnmetRow(world, jobs, row.name, row)
  {
    var names := NotExecuted(world, jobs, order);
    if row in report.skipped {
      var i :| 0 <= i < |report.skipped| && report.skipped[i] == row;
      assert UnmetRow(world, jobs, names[i], report.skipped[i]);
    }
    if row.name in names && UnmetRow(world, jobs, row.name, row) {
      var i :| 0 <= i < |names| && names[i] == row.name;
      assert UnmetRow(world, jobs, names[i], report.skipped[i]);
    }
  }

  /** The skipped rows too: a job is skipped iff something below it fails, and its row names the same jobs. */
  lemma SkipsAreConfluent(world: World, jobs: seq<ScheduledJob>, first: seq<string>, second: seq<string>,
                          one: RunReport, two: RunReport, row: SkippedRow)
    requires TopologicalOrder(jobs, first) && TopologicalOrder(jobs, second)
    requires IsReport(world, jobs, first, true, one) && IsReport(world, jobs, second, true, two)
    ensures row in one.skipped <==> row in two.skipped
    ensures row in one.skipped <==>
              row.name in Names(jobs) && !Runs(world, jobs, row.name) && UnmetRow(world, jobs, row.name, row)
  {
    SkippedListed(world, jobs, first, one, row);
    SkippedListed(world, jobs, second, two, row);
    InExecuted(world, jobs, first, row.name);
    InExecuted(world, jobs, second, row.name);
    assert row.name in first ==> row.name in DepsOf(jobs);
    assert row.name in second ==> row.name in DepsOf(jobs);
  }

  /** Continue-on-error is confluent: along any two topological orders the same rows come out. */
  lemma Confluence(world: World, jobs: seq<ScheduledJob>, first: seq<string>, second: seq<string>,
                   one: RunReport, two: RunReport, row: JobRow)
    requires TopologicalOrder(jobs, first) && TopologicalOrder(jobs, second)
    requires IsReport(world, jobs, first, true, one) && IsReport(world, jobs, second, true, two)
    ensures row in one.jobs <==> row in two.jobs
    ensures row in one.jobs <==>
              row.name in Names(jobs) && Runs(world, jobs, row.name) && RowMatches(world, jobs, row.name, row)
  {
    RowListed(world, jobs, Executed(world, jobs, first), one.jobs, row);
    RowListed(world, jobs, Executed(world, jobs, second), two.jobs, row);
    InExecuted(world, jobs, first, row.name);
    InExecuted(world, jobs, second, row.name);
    assert row.name in first ==> row.name in DepsOf(jobs);
    assert row.name in second ==> row.name in DepsOf(jobs);
  }

  /** What stop-on-error runs is a prefix of the order, and all of it also runs when errors do not stop. */
  lemma StopIsPrefixAndSubset(world: World, jobs: seq<ScheduledJob>, order: seq<string>, other: seq<string>,
                              stopped: RunReport, continued: RunReport)
    requires AcceptedPlan(jobs) && TopologicalOrder(jobs, order) && TopologicalOrder(jobs, other)
    requires IsReport(world, jobs, order, false, stopped) && IsReport(world, jobs, other, true, continued)
    ensures RowNames(stopped.jobs) <= order
    ensures forall row :: row in stopped.jobs ==> row in continued.jobs
  {
    var ran := |stopped.jobs|;
    NamesOfRows(world, jobs, order[..ran], stopped.jobs);
    forall row | row in stopped.jobs
      ensures row in continued.jobs
    {
      RowListed(world, jobs, order[..ran], stopped.jobs, row);
      var i :| 0 <= i < ran && order[..ran][i] == row.name;
      StoppedRuns(world, jobs, order, stopped, i);
      RowListed(world, jobs, Executed(world, jobs, other), continued.jobs, row);
      InExecuted(world, jobs, other, row.name);
    }
  }

  lemma StoppedRuns(world: World, jobs: seq<ScheduledJob>, order: seq<string>, stopped: RunReport, i: nat)
    requires AcceptedPlan(jobs) && TopologicalOrder(jobs, order) && IsReport(world, jobs, order, false, stopped)
    requires i < |stopped.jobs|
    ensures order[i] in Names(jobs) && Runs(world, jobs, order[i])
    decreases i
  {
    assert order[i] in order && DepsBehind(DepsOf(jobs), order, i);
    forall d | d in DepsOf(jobs)[order[i]]
      ensures Completes(world, jobs, d)
    {
      var k :| 0 <= k < i && order[..i][k] == d;
      StoppedRuns(world, jobs, order, stopped, k);
      assert SucceedsNamed(world, jobs, order[k]);
    }
    RunsIffDepsComplete(world, jobs, order[i]);
  }

  /** A job is run only after each of its dependencies has succeeded. */
  lemma DependenciesSucceedFirst(world: World, jobs: seq<ScheduledJob>, order: seq<string>, continueOnError: bool,
                                 report: RunReport, i: nat, d: string)
    requires AcceptedPlan(jobs) && TopologicalOrder(jobs, order)
    requires IsReport(world, jobs, order, continueOnError, report)
    requires i < |report.jobs|
    requires report.jobs[i].name in Names(jobs) && d in DepsOf(jobs)[report.jobs[i].name]
    ensures exists j :: 0 <= j < i && report.jobs[j].name == d && report.jobs[j].status.Success?
  {
    var names := if continueOnError then Executed(world, jobs, order) else order[..|report.jobs|];
    NamesOfRows(world, jobs, names, report.jobs);
    assert RowNames(report.jobs)[i] == names[i];
    var j := DependencyIsListed(world, jobs, order, continueOnError, report, names, i, d);
    assert RowMatches(world, jobs, names[j], report.jobs[j]);
    RowTells(world, jobs, names[j], report.jobs[j]);
  }

  lemma DependencyIsListed(world: World, jobs: seq<ScheduledJob>, order: seq<string>, continueOnError: bool,
                           report: RunReport, names: seq<string>, i: nat, d: string) returns (j: nat)
    requires AcceptedPlan(jobs) && TopologicalOrder(jobs, order)
    requires IsReport(world, jobs, order, continueOnError, report)
    requires names == if continueOnError then Executed(world, jobs, order) else order[..|report.jobs|]
    requires i < |names| == |report.jobs| && names[i] in Names(jobs) && d in DepsOf(jobs)[names[i]]
    ensures j < i && names[j] == d && SucceedsNamed(world, jobs, d)
  {
    if continueOnError {
      assert names[i] in names;
      InExecuted(world, jobs, order, names[i]);
      RunsIffDepsComplete(world, jobs, names[i]);
      j := ExecutedKeepsOrder(world, jobs, order, i, d);
    } else {
      assert DepsBehind(DepsOf(jobs), order, i);
      j :| 0 <= j < i && order[..i][j] == d;
    }
  }

  lemma {:induction false} ExecutedKeepsOrder(world: World, jobs: seq<ScheduledJob>, order: seq<string>, i: nat,
                                              d: string)
    returns (j: nat)
    requires Known(DepsOf(jobs), order) && DepsFirst(DepsOf(jobs), order)
    requires i < |Executed(world, jobs, order)|
    requires Executed(world, jobs, order)[i] in DepsOf(jobs) && d in DepsOf(jobs)[Executed(world, jobs, order)[i]]
    requires Runs(world, jobs, d)
    ensures j < i && Executed(world, jobs, order)[j] == d
  {
    var k, last := |order| - 1, order[|order| - 1];
    var init := order[..k];
    assert order == init + [last];
    if i < |Executed(world, jobs, init)| {
      InitIsDistinct(init, last);
      forall n: nat | n < k
        ensures DepsBehind(DepsOf(jobs), init, n)
      {
        assert DepsBehind(DepsOf(jobs), order, n) && order[..n] == init[..n];
      }
      j := ExecutedKeepsOrder(world, jobs, init, i, d);
    } else {
      assert DepsBehind(DepsOf(jobs), order, k);
      InExecuted(world, jobs, init, d);
      j :| 0 <= j < |Executed(world, jobs, init)| && Executed(world, jobs, init)[j] == d;
    }
  }
}
