# elt_pipeline in Dafny

A model of the decision-making core of `elt_pipeline`, with proofs about whole runs, all schemas and all graphs.
To verify it, use `dafny verify dfyconfig.toml` with Dafny 4.11.

What is modelled:

- **Lineage impact analysis** (`Lineage`, over `BreadthFirst` and `Walks`): the graph class with its four indexes, the
  two depth-bounded searches and the combined report. The start of a search is never marked visited, so a start on a
  cycle is reported at the length of its shortest cycle; the exact meaning of a row is a shortest *nonempty* walk.
- **The schedule plan** (`FifoTopology`, `Scheduler`, `ScheduleRun`, `Sensors`): plan validation, the FIFO dependency
  sort over a multigraph, the run with retries, skipping, stopping and the exit code, and the three sensor waits with
  their event log and gauge. Job invocations, sensor probes and clocks are oracles.
- **The SQL model graph** (`SqlGraph`): reference resolution, the second FIFO sort, the dependency closure of a
  selection, and the filter that joins them.
- **JSON relationalization** (`Identifiers`, `CleanWords`, `Planner`, `Columns`, `PlanShape`, `Relationalizer`,
  `Reconstruction`, `Lossless`, `Conservation`, `NormalizePipeline`): identifier cleaning and the table-name registry, the recursive schema walk, the
  execution of a plan over sequences of records, and the proof that the tables rebuild every document. `uuid()` is a
  supply of ids, SHA-256 an arbitrary function.
- **The MERGE generator** (`MergeSql`): the statement as a tree, what it does to a table, and the identifiers as text.
- **The uniqueness check** (`Uniqueness`) with its back-search.
- **Configuration layers** (`ConfigLayers`): the recursive merge, the flat index of dotted keys, the dotted look-up.

`Seqs`, `Ordering` and `Text` hold what several of these share. A loop of the source is a method proved equal to a
specification function or against a predicate; the lemmas are about those. What a main operation answers is also said
in terms of its input and its result alone. `FifoTopology` defines the order that both dependency sorts produce, once,
without a queue.

Where the code and its description, or its evident intent, part:

- `planner.py:266` builds its look-up from a list of records as if it were a list of pairs, so the guard against two
  columns with one logical path never fires. Call the field names on the way to a column its name list. A working guard
  would refuse a table exactly when two of its columns have name lists that are the same text once joined by dots, and
  that differ when each name is cleaned (`Columns.GuardIsNeededIff`). Where siblings clean to distinct names the second
  half is always true, so the condition is the first alone (`Columns.GuardIsNeededIffSameText`); it takes a dot in a
  name to meet it (`Columns.DotFreeColumnsApart`), and a dotted name beside the object it spells does
  (`NormalizePipeline.DottedNameConflicts`). Every schema that meets it is planned with the conflict in it.
- `spark_runner.py:69` takes the accessor `value` for the whole item. For an element object with a scalar field of that
  name the column is wrong on every non-null item (`NormalizePipeline.ValueFieldIsMisread`).
- The HTTP back-off computes `poll_sec * 2 ** n`, and `2 ** 1024` does not fit a float. A wait can end in that exception
  exactly when its time-out exceeds 30571 poll intervals and a tenth of a second, about eight and a half hours at one
  poll a second (`Sensors.OverflowIffTimeoutIsLong`).
- A plan is refused as cyclic with an empty list of jobs exactly when it is acyclic and only repeats a job name
  (`Scheduler.ValidateDependencies`, `Scheduler.RepeatedNameLooksCyclic`).
- The number of violated records of the uniqueness check is short by one for each duplicated key whose rows are all
  identical (`Uniqueness.CountIsRightIff`, `Uniqueness.CopiesAreMiscounted`).
- A mapping under an empty top-level key is indexed without that key (`ConfigLayers.IndexIsLookupIff`).
- With inserting switched off, and only key columns given as values, the MERGE generator writes a statement without any
  clause (`MergeSql.ClauseLessIff`, `MergeSql.KeyAsOnlyValue`).

## Model

| member | source | states |
|---|---|---|
| Lineage.LineageGraph.AddEdge | src/elt_pipeline/shared/lineage_impact.py:29-49 | the four indexes stay what the edge list says: neighbors in order of first mention, each once, column pairs only where all three guards hold |
| Lineage.BuildGraph | src/elt_pipeline/shared/lineage_impact.py:113-155 | any sequence of additions gives a graph with exactly those edges and valid indexes |
| BreadthFirst.Enqueue | src/elt_pipeline/shared/lineage_impact.py:181-185 | the inner loop queues exactly the neighbors not met yet, each once, in order |
| BreadthFirst.Search | src/elt_pipeline/shared/lineage_impact.py:165-186 | the FIFO search terminates for every bound, negative ones included, and its rows are the levels of the graph one after the other |
| BreadthFirst.RowsAreShortestWalks | src/elt_pipeline/shared/lineage_impact.py:158-186 | a row appears iff it names a shortest nonempty walk from the start within the bound |
| BreadthFirst.RowsAreOrdered | src/elt_pipeline/shared/lineage_impact.py:158-186 | rows come in order of depth and no node comes twice |
| BreadthFirst.RowsExtend | src/elt_pipeline/shared/lineage_impact.py:179-180 | the result for a bound is a prefix of the result for any larger bound |
| Lineage.LineageGraph.BfsTable | src/elt_pipeline/shared/lineage_impact.py:158-186 | the table search is exact for the set of edges, in either direction |
| Lineage.LineageGraph.BfsColumns | src/elt_pipeline/shared/lineage_impact.py:189-224 | the column search is exact for the set of column edges, in either direction |
| Lineage.ImpactDuality | src/elt_pipeline/shared/lineage_impact.py:189-224 | one column is upstream of another at a depth iff the other is downstream of it at that depth, for every graph and bound |
| Lineage.TableDuality | src/elt_pipeline/shared/lineage_impact.py:158-186 | the same for datasets |
| Lineage.ColumnsAddNoDataset | src/elt_pipeline/shared/lineage_impact.py:267-290 | a dataset that the column search reaches is reached by the table search within the same depth, so the union adds nothing |
| Lineage.CombineIsReportHalf | src/elt_pipeline/shared/lineage_impact.py:267-310 | each half of the report lists, sorted, the datasets within reach and the shortest column walks |
| Lineage.LineageGraph.RunImpactAnalysis | src/elt_pipeline/shared/lineage_impact.py:241-310 | the error cases, the split at the last dot, both halves of the report in terms of the set of edges, in report order; and by the fields of the edges: which column or dataset is one step upstream or downstream, empty and missing names excluded |
| Lineage.FirstSteps | src/elt_pipeline/shared/lineage_impact.py:29-49 | a column is upstream of the query at depth 1 iff an edge leads from it to the query with all three names that the guard asks for not empty, and the mirror image downstream; a dataset iff an edge leads from or to it |
| Ordering.StringLeDecides | src/elt_pipeline/shared/lineage_impact.py:292-309 | of two names the one that the other continues stands first, and otherwise the first character that differs decides |
| Lineage.ReportDependsOnEdgeSet | src/elt_pipeline/shared/lineage_impact.py:29-49 | reordering or repeating edges does not change the report |
| FifoTopology.FifoOrderIsUnique | src/elt_pipeline/shared/scheduler.py:113-134 | a graph and a tie-break have at most one FIFO order, so the sort is a function of them |
| FifoTopology.MissingIffReachesCycle | src/elt_pipeline/shared/scheduler.py:127-134 | a node is missing from the order iff following dependencies from it one can come to a cycle |
| FifoTopology.OutputIsLayered | src/elt_pipeline/shared/scheduler.py:127-134 | the longest dependency chain below a node never gets shorter along the order |
| FifoTopology.KeepIsFifoOrder | src/elt_pipeline/_cli_main.py:505-507 | cutting a FIFO order down to a dependency-closed part gives the FIFO order of that part |
| Scheduler.CountDependencies | src/elt_pipeline/shared/scheduler.py:109-112 | one count for each `depends_on` entry, repeated entries and repeated names included |
| Scheduler.SuccessorLists | src/elt_pipeline/shared/scheduler.py:121-126 | a job is listed under a dependency as often as the dependency is listed under it, in declaration order |
| Scheduler.ReadyNames | src/elt_pipeline/shared/scheduler.py:113-119 | the first queue holds exactly the names without dependencies, in declaration order |
| Scheduler.Release | src/elt_pipeline/shared/scheduler.py:130-133 | every listed successor is lowered as often as it is listed, and those that come to zero are queued once, in order |
| Scheduler.TopologicalSort | src/elt_pipeline/shared/scheduler.py:105-134 | with known dependencies the result is the FIFO order of the graph: by places of the job list, dependencies stand before their job, a job without dependencies before every job declared later, and otherwise the place of the last dependency decides and then the declaration |
| Scheduler.EarlierStandsFirst | src/elt_pipeline/shared/scheduler.py:113-134 | with distinct names: of two emitted jobs the one whose last dependency is out first stands first; with the same last dependency, or with none, the one declared first |
| Scheduler.SortCovers | src/elt_pipeline/shared/scheduler.py:95-97 | as many names as jobs come out iff names are distinct and the graph is acyclic; the missing ones are exactly those on or downstream of a cycle |
| Scheduler.ValidateDependencies | src/elt_pipeline/shared/scheduler.py:81-102 | a plan is accepted iff dependencies are known, names distinct and the graph acyclic; every refusal names the first refused job or exactly the jobs that reach a cycle, none iff the graph is acyclic |
| Scheduler.UnknownInConcat | src/elt_pipeline/shared/scheduler.py:84-88 | the unknown dependencies that a refusal lists are the entries that name no job, each as often and in the order it is listed |
| Scheduler.RepeatedNameLooksCyclic | src/elt_pipeline/shared/scheduler.py:95-101 | the input: two jobs of one name without dependencies are acyclic, one name short, and leave nothing to list |
| ScheduleRun.InvokeWithRetries | src/elt_pipeline/_cli_main.py:1881-1908 | attempts are numbered from 1, stop at the first exit code 0, and without one there are as many as the retries plus one |
| ScheduleRun.AttemptsOfRow | src/elt_pipeline/_cli_main.py:1835-1962 | in terms of the retries and the invocations alone: a row fails after all of them when all fail, and otherwise succeeds with the first that returns 0 as its last attempt; an unmet sensor gives exit code 5 and no attempt; negative retries count as none |
| ScheduleRun.RunJob | src/elt_pipeline/_cli_main.py:1835-1993 | the row of a job, and what it says of the sensor and of every invocation |
| ScheduleRun.RunOrSkip | src/elt_pipeline/_cli_main.py:1793-1993 | one round of the run changes completed, failed, rows, skips, exit code and stop mark as the first matching case says |
| ScheduleRun.RunInOrder | src/elt_pipeline/_cli_main.py:1793-2028 | the run along any topological order gives the report of its mode |
| ScheduleRun.RunSchedulePlan | src/elt_pipeline/_cli_main.py:1767-2028 | sorting and running an accepted plan gives the report of its mode along the FIFO order; every row has the place of its job in the plan and tells its attempts; which jobs have rows and which are skipped, and why, in terms of the rows |
| ScheduleRun.RowsTellWhatRuns | src/elt_pipeline/_cli_main.py:1793-1834 | of the report alone: with continue-on-error a job has a row iff each of its dependencies has a successful one, and a skip lists those that have not; with stop-on-error the rows are a prefix of the order, only the last may fail, and the rest names it |
| ScheduleRun.RowTellsOutcome | src/elt_pipeline/_cli_main.py:1953-1962 | a row says success iff the sensor is met and some attempt returns 0 |
| ScheduleRun.RunsIffDepsComplete | src/elt_pipeline/_cli_main.py:1796-1834 | everything below a job succeeds iff each of its direct dependencies completes |
| ScheduleRun.EveryJobIsAccountedFor | src/elt_pipeline/_cli_main.py:2013-2022 | every job of the plan is in exactly one of `jobs` and `skipped_jobs`, once |
| ScheduleRun.UpstreamFailureIsUnreachable | src/elt_pipeline/_cli_main.py:1811-1823 | no run reports `skipped_upstream_failure`: a reading of the report that `ScheduleRun.RunInOrder` proves of every run, where stop-on-error skips for stopping only and continue-on-error for unmet dependencies only |
| ScheduleRun.FirstFailureIsFirst | src/elt_pipeline/_cli_main.py:1850-1962 | the exit code of a run is that of its first failed row, 5 for a sensor, and 0 iff no row failed |
| ScheduleRun.SuccessIffEveryJobSucceeds | src/elt_pipeline/_cli_main.py:2020-2027 | a run succeeds iff every job of the plan succeeds, in both modes |
| ScheduleRun.DependenciesSucceedFirst | src/elt_pipeline/_cli_main.py:1796-1834 | a job is invoked only after each of its dependencies has succeeded |
| ScheduleRun.Confluence | src/elt_pipeline/_cli_main.py:1793-1993 | with continue-on-error the same executed rows come out along any two topological orders: those of the jobs below which everything succeeds |
| ScheduleRun.SkipsAreConfluent | src/elt_pipeline/_cli_main.py:1824-1834 | and the same skipped rows, each with the same unmet dependencies |
| ScheduleRun.StopIsPrefixAndSubset | src/elt_pipeline/_cli_main.py:1798-1810 | what stop-on-error runs is a prefix of the order and all of it runs under continue-on-error |
| Sensors.SensorLog.Record | src/elt_pipeline/_cli_main.py:1442-1454 | an event is appended and the gauge of its job and state goes up by one, so the gauge stays the histogram of the log |
| Sensors.PollPath | src/elt_pipeline/_cli_main.py:1438-1487 | one look logs an error, a success or a poll, whichever the probe says |
| Sensors.WaitForPath | src/elt_pipeline/_cli_main.py:1421-1593 | the path waits stop at the first look that finds the path or at the first one past the time-out; a look that fails counts as not found; each look leaves one event, numbered from 1, and so does the time-out |
| Sensors.PollHttp | src/elt_pipeline/_cli_main.py:1617-1670 | one request logs an error without a status, a success for 2xx, a poll otherwise, and nothing for the status -1 |
| Sensors.WaitForHttp | src/elt_pipeline/_cli_main.py:1599-1692 | the HTTP wait stops at the first status from 200 to 299, at the first poll past the time-out, or where its back-off leaves the float range; each request leaves its event, except for the status -1 |
| Sensors.PauseIs | src/elt_pipeline/_cli_main.py:1688-1692 | the sleeps are 1, 2, 4, 8, 16 and then 30 poll intervals plus jitter, cut to the time left less a millisecond but not below a tenth of a second; paths are polled at the interval |
| Sensors.PauseIsLongEnough | src/elt_pipeline/_cli_main.py:1688-1692 | whatever the jitter, a sleep lasts at least the smaller of the poll interval and a tenth of a second, and the whole interval for paths |
| Sensors.PollsAreBounded | src/elt_pipeline/_cli_main.py:1599-1692 | a wait makes at most ceiling(time-out / shortest sleep) + 1 polls |
| Sensors.PollsInAnyWait | src/elt_pipeline/shared/scheduler.py:17-18 | with the limits on poll interval and time-out no wait makes more than 60480001 polls |
| Sensors.LastPollIsNotLate | src/elt_pipeline/_cli_main.py:1688-1692 | the last poll starts before the time-out plus 0.1 (or plus one interval for paths) plus the longest lag |
| Sensors.OverflowTakesLong | src/elt_pipeline/_cli_main.py:1689 | a back-off that leaves the float range comes at poll 1025 and only after a long time-out |
| Sensors.OverflowIffStillWaiting | src/elt_pipeline/_cli_main.py:1599-1692 | whatever the clock and the jitter: a wait ends in the range error at poll 1025 iff no poll so far was answered and that one still starts before the time-out |
| Sensors.LongWaitOverflows | src/elt_pipeline/_cli_main.py:1689 | on a clock that adds nothing to the sleeps, a wait that is never answered ends so whenever its time-out is longer |
| Sensors.OverflowIffTimeoutIsLong | src/elt_pipeline/_cli_main.py:1689 | an HTTP wait can end in the range error iff its time-out exceeds 30571 intervals and a tenth of a second |
| Sensors.GaugeCountsAddUp | src/elt_pipeline/_cli_main.py:1744-1764 | over any number of waits the gauge readings add up to the number of logged events |
| SqlGraph.ResolveDependencyIds | src/elt_pipeline/sql/graph.py:67-113 | references resolve in order, and the error is that of the first that does not; a full id, one without its stage and a bare name in the list put the model they name into the result |
| SqlGraph.ReferenceStandsFor | src/elt_pipeline/sql/graph.py:94-113 | whatever white space and empty parts stand between the dots: one, two or three names give the id with the missing stage and domain filled in, no or more names are invalid, and an id that is not there is missing |
| SqlGraph.EveryReferenceSpells | src/elt_pipeline/sql/graph.py:101 | every text is such a reference, so nothing is left out |
| SqlGraph.PlainReferences | src/elt_pipeline/sql/graph.py:94-113 | the three ways to refer to a model by names without dots |
| SqlGraph.ByIdIsLast | src/elt_pipeline/sql/graph.py:10 | of several models of one id the last one is recorded |
| SqlGraph.CollectEdges | src/elt_pipeline/sql/graph.py:10-17 | inbound and outgoing edge sets mirror each other and hold the graph; the error is that of the first model with a bad reference |
| SqlGraph.Discard | src/elt_pipeline/sql/graph.py:26-29 | the children lose one inbound edge and those left without any are queued in order |
| SqlGraph.SortIds | src/elt_pipeline/sql/graph.py:19-29 | the queue loop gives the FIFO order of the graph with ids as tie-break, and what is left of every inbound set |
| SqlGraph.SortModels | src/elt_pipeline/sql/graph.py:9-41 | the sort succeeds iff references resolve, ids are distinct and no model reaches a cycle; a cycle error lists exactly the models that do; and every model stands after the models it mentions |
| SqlGraph.SortDependsOnSetOfModels | src/elt_pipeline/sql/graph.py:9-41 | the order of discovery does not matter |
| SqlGraph.NeededIsLeast | src/elt_pipeline/sql/graph.py:55-64 | the needed ids are the least dependency-closed superset of the selection |
| SqlGraph.Close | src/elt_pipeline/sql/graph.py:56-63 | the worklist terminates on every graph, cycles included, with exactly the needed ids, or fails iff a needed model has a bad reference |
| SqlGraph.ResolveSelectedIds | src/elt_pipeline/sql/graph.py:44-64 | the selection as it is without dependencies, exactly what is needed with them: the selection, and with a model every model it mentions |
| SqlGraph.SelectionComposes | src/elt_pipeline/_cli_main.py:500-507 | the sorted models filtered by the closure are the FIFO order of the needed part, every dependency present and earlier |
| Identifiers.SanitizeIsClean | src/elt_pipeline/normalize/_policy.py:14-16 | whatever the input, the result is nonempty with no leading, trailing or doubled underscore |
| Identifiers.SanitizeIsIdempotent | src/elt_pipeline/normalize/_policy.py:14-16 | cleaning twice is cleaning once |
| CleanWords.SanitizeJoinsWords | src/elt_pipeline/normalize/_policy.py:11-16 | cleaning keeps the runs of ASCII letters and digits, in small letters and joined by single underscores, whatever stands between and around them |
| CleanWords.SanitizeOfGap | src/elt_pipeline/normalize/_policy.py:16 | without a letter or digit the result is `value` |
| CleanWords.EveryTextHasWords | src/elt_pipeline/normalize/_policy.py:11-16 | every text is of one of the two kinds, the two characters set aside that lower-casing turns into ASCII letters |
| Identifiers.SplitUndoesColumnName | src/elt_pipeline/normalize/_policy.py:50-53 | splitting a column name at double underscores gives back the cleaned segments |
| Identifiers.ColumnNameIsNotReserved | src/elt_pipeline/normalize/_policy.py:50-53 | no column name starts with an underscore, so none is a key column of the executor |
| Identifiers.IdentifierPolicy.MakeTableName | src/elt_pipeline/normalize/_policy.py:36-48 | the answer and the new registry, for every state of the registry; a name that fits and is free is the cleaned segments with the separator between them |
| CleanWords.BaseNameGrows | src/elt_pipeline/normalize/_policy.py:37-39 | for any number of segments: the cleaned segments with the separator between each two |
| Identifiers.IdentifierPolicy.BuildHashedIdentifier | src/elt_pipeline/normalize/_policy.py:55-82 | the hashed name, the length error and the collision error |
| CleanWords.HashedNameIs | src/elt_pipeline/normalize/_policy.py:55-72 | a prefix of the base name without underscores at its end, as long as the limit allows, then the separator and the first eight digits of the digest |
| Identifiers.NameFits | src/elt_pipeline/normalize/_policy.py:36-82 | every table name is within the maximum length |
| Identifiers.EntriesStay | src/elt_pipeline/normalize/_policy.py:44-81 | over any call sequence registry entries are never reassigned |
| Identifiers.NamesTellPathsApart | src/elt_pipeline/normalize/_policy.py:36-82 | two calls with different logical paths never return the same name, whatever the digest collides on |
| Identifiers.RepeatingGivesTheSameAnswer | src/elt_pipeline/normalize/_policy.py:36-82 | asking again, after any other calls, gives the same answer, errors included |
| Planner.PlanBuilder.WalkRootStruct | src/elt_pipeline/normalize/planner.py:112-124 | the walk of a root object leaves the plan that the schema denotes, or the first naming error |
| Planner.PlanBuilder.CreateTable | src/elt_pipeline/normalize/planner.py:150-172 | one empty table is appended under the name the policy gives |
| Planner.PlanBuilder.WalkFields | src/elt_pipeline/normalize/planner.py:184-215 | the fields of an object extend their table by their columns and explosions and the plan by the tables below them |
| Planner.PlanBuilder.WalkField | src/elt_pipeline/normalize/planner.py:174-254 | the same for one field, by the kind of its type |
| Planner.PlanBuilder.RegisterScalar | src/elt_pipeline/normalize/planner.py:256-288 | one column is appended; the guard never fires |
| Columns.ColumnsAreLeaves | src/elt_pipeline/normalize/planner.py:174-254 | the walk of an object gives one column for each name list of the schema: its path joins the names by dots, its name the cleaned names |
| Columns.PhysicalNamesApart | src/elt_pipeline/normalize/planner.py:225-254 | when siblings clean to distinct names no two columns share a physical name, dots in names or not |
| Columns.ColumnsApartIff | src/elt_pipeline/normalize/planner.py:256-288 | for every schema: columns are apart in path and name iff name lists differ as text and when cleaned |
| Columns.ConflictsIffClash | src/elt_pipeline/normalize/planner.py:266-282 | for every schema: two columns share a path under two names iff their name lists are the same text and differ when cleaned |
| Columns.ConflictsIffSameText | src/elt_pipeline/normalize/planner.py:266-282 | with siblings that clean to distinct names: iff the name lists are the same text |
| Columns.GuardRefusesIff | src/elt_pipeline/normalize/planner.py:266-282 | a guard that works refuses a list of columns iff some path has two names, and otherwise keeps every path and name |
| Columns.GuardIsNeededIff | src/elt_pipeline/normalize/planner.py:266-282 | a guard that works would refuse the columns of an object iff two of its name lists clash |
| Columns.GuardIsNeededIffSameText | src/elt_pipeline/normalize/planner.py:266-282 | with siblings that clean to distinct names: iff two name lists are the same text |
| Columns.ElementGuardIsNeededIff | src/elt_pipeline/normalize/planner.py:207-223 | the same for the table of an array |
| PlanShape.PlanIsTree | src/elt_pipeline/normalize/planner.py:112-254 | tables have distinct names and paths, every table but the root an earlier parent with a matching explosion, and everything in the schema its place |
| PlanShape.PlanIsJoined | src/elt_pipeline/normalize/planner.py:160 | the root has no join key and every other table has `_parent_row_id`; no table is nameless |
| PlanShape.RootColumn | src/elt_pipeline/normalize/planner.py:225-254 | a scalar or map of the root object is a column with path `$.name`, the cleaned name and the name as accessor |
| PlanShape.NestedColumn | src/elt_pipeline/normalize/planner.py:174-254 | a field of an object in the root is a column whose path joins the names by dots and whose name joins the cleaned names by two underscores |
| PlanShape.ValueTable | src/elt_pipeline/normalize/planner.py:216-223 | an array of anything but objects has a table with the one column `value` |
| Relationalizer.BuildRootDf | src/elt_pipeline/normalize/spark_runner.py:39-51 | the root rows: one for each document, with its columns and arrays under their names, `_row_id` and nothing else, the empty marker gone |
| Relationalizer.BuildChildDf | src/elt_pipeline/normalize/spark_runner.py:53-78 | the child rows: exploded with their index, projected, cut to real items, with `_row_id`, `_parent_row_id`, `_array_index`, columns and arrays and nothing else |
| Relationalizer.Execute | src/elt_pipeline/normalize/spark_runner.py:10-37 | every look-up succeeds, every table is built from the rows of its parent, and every row of every table has exactly the columns of its table and its id |
| Relationalizer.RowColumns | src/elt_pipeline/normalize/spark_runner.py:39-78 | the columns of a row of any table of any plan, by their names |
| Relationalizer.LastSegmentFollowsLastDot | src/elt_pipeline/normalize/spark_runner.py:44 | the name of a selected array is what follows the last dot of its accessor |
| Reconstruction.RootRowHolds | src/elt_pipeline/normalize/spark_runner.py:39-51 | a root row holds every column and array of its document |
| Reconstruction.ChildRowHolds | src/elt_pipeline/normalize/spark_runner.py:64-78 | a child row holds every column and array of its item, its parent's id and its index |
| Lossless.RowsAreConserved | src/elt_pipeline/normalize/spark_runner.py:60-76 | a child table has one row for each item, and under each parent the indices run from 0 to the length, each once |
| Lossless.ParentsExist | src/elt_pipeline/normalize/spark_runner.py:60-63 | every parent id is the id of a parent row |
| Conservation.PlanConservesRows | src/elt_pipeline/normalize/spark_runner.py:16-37 | in every execution of every plan the root has one row a document and every other table conserves the array it was exploded from |
| Lossless.NothingIsLost | src/elt_pipeline/normalize/spark_runner.py:10-78 | reading the tables back, joined by row id and ordered by index, gives every document in normal form, at any depth |
| Lossless.NormKeepsCanonical | src/elt_pipeline/normalize/spark_runner.py:62 | the normal form changes nothing but null arrays, null objects and missing fields |
| NormalizePipeline.PlanFromSchema | src/elt_pipeline/normalize/planner.py:303-320 | a fresh policy and builder give the plan that the schema denotes |
| NormalizePipeline.Normalize | src/elt_pipeline/normalize/pipeline.py:176-187 | planning and executing in one go reads back as the documents; every row has exactly its columns, the scalars of the root objects are in the cells of their cleaned names, and every other table is exploded from an array column of an earlier one |
| NormalizePipeline.TableIsExploded | src/elt_pipeline/normalize/spark_runner.py:16-37 | a child table has one row for each item of the array column, carrying the `_row_id` of its parent and its index from 0, and no other row |
| NormalizePipeline.RootCells | src/elt_pipeline/normalize/spark_runner.py:41-42 | the cell of a scalar is its value in the document, or null if there is none |
| NormalizePipeline.DottedNameConflicts | src/elt_pipeline/normalize/planner.py:266-282 | the input: a dotted name beside the object it spells meets the condition, whatever the names |
| NormalizePipeline.ValueFieldIsMisread | src/elt_pipeline/normalize/spark_runner.py:69-70 | the column of an element field called `value` holds the whole item, and is right iff the item is null |
| MergeSql.IdentReadsBack | src/elt_pipeline/sql/merge_sql_generator.py:6-13 | a written identifier reads back as the trimmed name and nothing more, wherever it stands; only blank names are refused |
| MergeSql.BuildMergeInto | src/elt_pipeline/sql/merge_sql_generator.py:41-117 | the statement, or the first of the five value errors, each exactly when its input is at fault; which condition and which columns are in which clause |
| MergeSql.StatementTells | src/elt_pipeline/sql/merge_sql_generator.py:58-111 | the matched condition and the non-key values are in the update, the not-matched condition and every name in the insert, keys first; a clause is there iff it is asked for and has columns |
| MergeSql.BuildMergeIntoFromSchema | src/elt_pipeline/sql/merge_sql_generator.py:120-141 | the statement with the non-key columns of the schema as values: two clauses without conditions, what is updated and what is inserted |
| MergeSql.ColumnLists | src/elt_pipeline/sql/merge_sql_generator.py:60-81 | the update list is the non-key columns, or partitions and keys when there are none; the insert list has every key, value and partition column once |
| MergeSql.SchemaStatement | src/elt_pipeline/sql/merge_sql_generator.py:120-141 | a statement is made iff table, query and keys are given and no mentioned name is blank; it has the trimmed lists |
| MergeSql.GeneratedMergeIsUpsert | src/elt_pipeline/sql/merge_sql_generator.py:120-141 | for any names, spaces around them included: running the statement is an upsert, or is rejected for an unknown column, a repeated column or an ambiguous match, each exactly when it should be |
| MergeSql.ConditionsDecide | src/elt_pipeline/sql/merge_sql_generator.py:89-111 | running any accepted statement with conditions: a target row changes only where the matched condition holds of it and a matching source row, and exactly the unmatched source rows of which the other condition holds are added |
| MergeSql.UniqueIsUnambiguous | src/elt_pipeline/sql/merge_sql_generator.py:31-38 | unique source keys make every match unambiguous |
| MergeSql.IdempotentIffComplete | src/elt_pipeline/sql/merge_sql_generator.py:41-117 | with unique source keys, upserting twice is upserting once iff no source key has a null |
| MergeSql.RunningTwice | src/elt_pipeline/sql/merge_sql_generator.py:120-141 | after an accepted run of the statement a second one gives the same table iff source keys are unique and without nulls, and is rejected iff two source rows share a key |
| MergeSql.UpsertIsOverride | src/elt_pipeline/sql/merge_sql_generator.py:41-117 | on keyed tables the result is the target overridden by the source, key by key, and keyed again |
| MergeSql.ClauseLessIff | src/elt_pipeline/sql/merge_sql_generator.py:89-111 | a statement has no clause iff inserting is off and the values given are all keys |
| MergeSql.ClauselessIsRejected | src/elt_pipeline/sql/merge_sql_generator.py:89-111 | running a generated statement is refused for having no clause exactly then |
| MergeSql.KeyAsOnlyValue | src/elt_pipeline/sql/merge_sql_generator.py:89-111 | the input: one key given as the only value, with inserting off |
| Uniqueness.BackSearch | src/elt_pipeline/shared/quality.py:403-410 | the first record with the key that is not reported yet is added, if there is one |
| Uniqueness.CheckUniqueness | src/elt_pipeline/shared/quality.py:378-435 | the report of the loop for any records, non-dictionaries included; it passes iff every record is a dictionary with some key column filled and any two differ in a key column; what is reported is what is at fault |
| Uniqueness.PassesIffKeysDiffer | src/elt_pipeline/shared/quality.py:384-416 | when the check passes, by the cells of the records |
| Uniqueness.ReportHoldsFaults | src/elt_pipeline/shared/quality.py:384-412 | what is reported, by the cells of the records: dictionaries as they are, anything else under `record` |
| Uniqueness.ReportIsExact | src/elt_pipeline/shared/quality.py:384-416 | by value, the report holds exactly the rows without a key and the rows that share theirs |
| Uniqueness.PassesIffUnique | src/elt_pipeline/shared/quality.py:416 | the check passes iff every record has a key and no two share one |
| Uniqueness.ReportCounts | src/elt_pipeline/shared/quality.py:401-412 | the reported number plus the keys that lost a row is the number of rows at fault |
| Uniqueness.CountIsRightIff | src/elt_pipeline/shared/quality.py:423-431 | the number is right iff no key loses a row |
| Uniqueness.LostIffIdentical | src/elt_pipeline/shared/quality.py:403-410 | among keyed records a key loses a row iff all its rows are identical |
| Uniqueness.CopiesAreMiscounted | src/elt_pipeline/shared/quality.py:403-410 | two copies of a row are two rows at fault but one is reported |
| ConfigLayers.MergeTwoDicts | src/elt_pipeline/config/loader.py:213-220 | the loop gives the recursive merge, in whatever order the right mapping is walked: the leaves of the right mapping win, and what it has nothing for stays |
| ConfigLayers.MergeTells | src/elt_pipeline/config/loader.py:213-220 | what stands in the merge of two mappings at any path |
| ConfigLayers.DeepMerge | src/elt_pipeline/config/loader.py:206-210 | the layers are merged one after the other |
| ConfigLayers.MergeIsIdempotent | src/elt_pipeline/config/loader.py:213-220 | merging a mapping with itself changes nothing |
| ConfigLayers.MergeAgain | src/elt_pipeline/config/loader.py:213-220 | laying the same layer on top again changes nothing |
| ConfigLayers.AssociativeIff | src/elt_pipeline/config/loader.py:206-220 | merging three layers is associative iff nowhere a leaf stands between two mappings of which the last lacks a key of the first |
| ConfigLayers.GroupingDoesNotMatter | src/elt_pipeline/config/loader.py:206-210 | any number of layers that agree on what is a mapping may be merged in any grouping |
| ConfigLayers.Flatten | src/elt_pipeline/config/runtime_context.py:104-117 | every key written comes from a leaf and every leaf is written under its names joined by dots, in whatever order the mapping is walked |
| ConfigLayers.DottedGet | src/elt_pipeline/config/runtime_context.py:120-130 | what stands at the path the key spells, nulls counted as absent |
| ConfigLayers.FoundBelow | src/elt_pipeline/config/runtime_context.py:120-130 | each part is looked up in what the part before it holds, and nothing is found below a leaf |
| ConfigLayers.IndexAgreesWithLookup | src/elt_pipeline/config/runtime_context.py:676-685 | a value is in the index under a key iff the dotted look-up finds it there |
| ConfigLayers.IndexIsLookupIff | src/elt_pipeline/config/runtime_context.py:104-117 | for keys without dots the index holds what its keys spell iff the empty top-level key holds nothing |
| ConfigLayers.EmptyKeyIsMissed | src/elt_pipeline/config/runtime_context.py:111 | a value under the empty key is indexed without it and not found |
| ConfigLayers.LeavesOfMergeIff | src/elt_pipeline/config/loader.py:213-220 | the leaves of a merge are the right-biased union of the leaves iff no path loses one to a mapping or to a leaf above it |
| ConfigLayers.IndexOfMergeIff | src/elt_pipeline/config/runtime_context.py:104-117 | the index of a merge is the right-biased union of the indexes iff no path loses a leaf |
| ConfigLayers.MergedLeafIff | src/elt_pipeline/config/loader.py:206-210 | at every path the merge of any number of layers has the last leaf iff no later layer hides it by a mapping there or a leaf above |
| ConfigLayers.IndexOfMergeAllIff | src/elt_pipeline/config/loader.py:206-210 | the index of any number of merged layers is their indexes laid over each other iff no leaf is hidden |
| ConfigLayers.CompatibleLosesNothing | src/elt_pipeline/config/loader.py:206-210 | layers that agree on what is a mapping hide no leaf |

## Left out

- Lineage file discovery, JSON decoding and facet extraction: the graph starts from a sequence of edges.
- Reading schedule plans from files, argument and name clean-up of jobs, and the check that `wait_for` names one kind.
- SLA alerts, timestamps, log text, metric points, display lines and every other field that only presents a result.
- Retry delays: they change no decision of the run.
- A sensor in the run of a plan is an oracle that answers yes or no; that the range error of an HTTP wait ends the whole run is not modelled.
- Sensors.WaitForPath: covers the two path waits, which differ in the probe and the text of the event only; time is real, not floating point.
- Sensors.WaitForHttp: the statuses and errors of the HTTP client are an oracle; time is real, so only the range of the back-off is kept of the floats.
- Spark sessions, the resolution of column references (case-insensitivity, quoting with back-ticks) and the laziness of `uuid()`: rows are sequences of records and the ids of a table are distinct.
- Lossless.NothingIsLost: arrays sit directly in the object of their table, under names that are neither reserved nor the physical name of a column beside them, no scalar of an element object is called `value`, and names have no dots; outside these Spark's resolution of column names decides.
- Relationalizer.Execute: the plan's tables have distinct names and every child a parent with its explosion, which `PlanShape.PlanIsTree` proves of every plan over names without dots that stay distinct when cleaned; what dictionaries keyed by a repeated name would do is not modelled.
- NormalizePipeline.Normalize: asks for such names, for the same reason.
- Maps inside documents count as scalars, as in the planner.
- Documents with an array at the root, CSV headers and the mapping catalog with its version hash: small variants of the object walk, and serialization.
- Identifiers.SanitizeIsClean: lower-casing outside ASCII keeps the two characters that give ASCII letters and treats every other as a separator, as the pattern does afterwards.
- CleanWords.EveryTextHasWords: sets those two characters, the Kelvin sign and the dotted capital I, aside; `CleanWords.KelvinSign` and `CleanWords.DottedCapital` say what becomes of each.
- Two columns of one physical name, which fields that clean to the same name give: `Columns.ColumnsApartIff` says when, what Spark does with them is not modelled.
- SQL parsing, conditions of MERGE clauses (an arbitrary function decides them), keyword and case rules of identifiers.
- Hashing and equality of Python values in the uniqueness check: values are compared up to equality, NaN and unhashable values are left out; the other quality checks are simple row tests.
- Insertion order of configuration mappings: mappings are unordered, and what is proved holds for every order in which they are walked.
- Catalog preflight, Trino views, governance, checkpoints, contract comparison, staging swaps, connectors and the argument parser: plumbing, foreign systems or finite case tables.
