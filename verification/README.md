# Execution planner for vulnerability scripts: a verified model

The system plans the execution of vulnerability scripts. Each script has an id
and a list of ids it depends on. The planner turns a collection of scripts into
*waves*: wave 0 holds every script none of whose dependencies names an
existing script, and each later wave holds the scripts whose dependencies on
existing scripts have all run in earlier waves. It does this with a layered
Kahn topological sort. The wave boundary is the size of the ready queue when
the wave starts.

The planner also:

- drops, with one warning each, the dependencies that name no script;
- fails with the number of stranded scripts when a cycle leaves some scripts
  unscheduled;
- fails, through its id index, when two scripts share an id.

A separate plan validator judges a plan *optimal* when two things hold:

- the plan lists every script exactly once;
- it has critical-path-length + 1 waves.

The validator recomputes the critical path with a second Kahn traversal and a
longest-path table.

This project models both in Dafny and proves what they compute against one
reference definition.

- `DependencyLevels` is the reference definition. A `Graph` maps each id to
  the ids it waits for. `Ready(g, done)` is the set of ids that are not done
  and whose parents are all done. Repeatedly peeling off the ready set gives
  `Layers(g)`. `Scheduled(g)` is their union. `Level(g, v)` is the layer
  index of `v`. `CriticalPath(g)` is `|Layers(g)| - 1`, or 0 when there are no
  layers. `HasCycle(g)` means some non-empty set of ids each waits for a member
  of the set.
- `Scripts` holds the input and output types.
  - `Script`, `Warning` and `ExecutionPlan` are the input and output records.
  - `PlanError` is either `CycleDetected(unscheduled)` or
    `DuplicateScriptId(id)`.
  - The scripts describe two graphs. `KnownDependencyGraph` is the one the
    planner schedules: dependencies on unknown ids are dropped.
    `DeclaredDependencyGraph` is the one the validator measures: every
    dependency is kept as declared.
- `KahnState` holds the facts both Kahn traversals share: the per-id counters
  of unmet dependencies, the reverse-edge map and the ready queue.
- `ExecutionPlanner` is the planner: the id index, graph construction, the
  initial ready queue, wave generation and the acyclicity check.
- `PlanValidator` is the validator: the exactly-once check, its own graph
  construction, the depth-table traversal, and `IsOptimal`.
- `Optimality` proves that the planner's layers are a shortest
  dependency-respecting schedule. It also proves that on inputs of the shape
  the stress test generates, the validator accepts the plan.
- `Findings` holds two inputs on which the validator as written rejects a
  shortest plan, and a corrected validator that accepts every plan the planner
  makes.
- `Scenarios` covers the five-script example the application plans, a missing
  dependency, and two kinds of cycle.

Counting with multiplicity uses `Collections.Count` (occurrences in a list),
because a script may declare the same parent twice. The stress test's
generator does exactly that.

## Model

| member | source | states |
|---|---|---|
| Collections.DistinctCardinality | src/PlanValidator.java:20-25 | A list's id set is as large as the list exactly when no id occurs twice. This is the uniqueness test that the exactly-once check relies on. |
| Scripts.DistinctIdsCount | src/ExecutionPlanner.java:18-21 | When scripts have distinct ids, which is all the id index accepts, the number of ids equals the number of scripts. |
| Scripts.KnownOnlyOccurrences | src/ExecutionPlanner.java:30-40 | The dependencies the planner keeps: each dependency on a known id, as many times as it was declared. A dependency on an unknown id is not kept at all. |
| Scripts.MissingOfPartition | src/ExecutionPlanner.java:30-40 | Each declared dependency becomes exactly one of an edge or a warning, and the counts add up to the declared list. A script's warnings are exactly its dependencies on unknown ids, each naming that script. |
| Scripts.MissingWarningsMembership | src/ExecutionPlanner.java:27-35 | A warning (script, missing) is emitted iff some script with that id declares a dependency on an id no script has. |
| Scripts.NoWarningsIffNoMissing | src/ExecutionPlanner.java:27-35 | The warning list is empty iff every declared dependency names a script. |
| Scripts.MissingWarningsSound | src/ExecutionPlanner.java:27-35 | Every warning names a script and a dependency of that script on an id no script has. |
| Scripts.MissingWarningsComplete | src/ExecutionPlanner.java:27-35 | Every dependency of a script on an id no script has yields a warning naming that script and that id. |
| Scripts.ExecutionPlan.TotalScripts | src/ExecutionPlan.java:5-7 | The plan's script count is the number of entries over all its waves. When no id repeats, it is the number of distinct ids the plan places. |
| Scripts.DependencyMapEntries | src/PlanValidator.java:33-41 | Every dependency recorded for an id was declared by some script with that id. |
| Scripts.KnownGraphShape | src/ExecutionPlanner.java:30-40 | The planner's graph links known ids only: a dependency on an unknown id never becomes an edge. |
| Scripts.GraphsAgree | src/PlanValidator.java:33-41 | When every dependency names a script, the validator's graph is the planner's graph. |
| DependencyLevels.PeelShape | src/ExecutionPlanner.java:64-80 | The reference layers are non-empty and pairwise disjoint, and they hold only script ids. |
| DependencyLevels.LayerIsReady | src/ExecutionPlanner.java:64-80 | Layer k is exactly the set of ids outside layers 0..k-1 whose parents all lie in those layers. |
| DependencyLevels.LayersRespectDependencies | src/ExecutionPlanner.java:68-77 | Every parent of an id in layer k lies in an earlier layer. |
| DependencyLevels.ScheduledClosed | src/ExecutionPlanner.java:64-80 | Every id whose parents are all scheduled is itself scheduled. |
| DependencyLevels.ScheduledLeast | src/ExecutionPlanner.java:64-80 | The scheduled ids lie inside every set closed under that rule, so Kahn's sort reaches no id beyond what the dependencies force. |
| DependencyLevels.LevelsUnique | src/ExecutionPlanner.java:64-80 | Each id in a layer is scheduled, and its level is that layer's index, so no id sits in two layers. |
| DependencyLevels.ParentsOnLowerLevel | src/PlanValidator.java:55-68 | The parents of a scheduled id are scheduled, on strictly lower levels. |
| DependencyLevels.LevelZeroIffNoParents | src/PlanValidator.java:44-52 | A scheduled id has level 0 iff it has no parent in the graph. In the validator's graph, which keeps every declared dependency, these are the ids the traversal starts from, at depth 0. |
| DependencyLevels.ParentOneLevelLower | src/PlanValidator.java:60 | Every scheduled id above level 0 has a parent exactly one level lower. So the level is the longest-path depth that the max-merge computes. |
| DependencyLevels.CriticalPathIsMaxLevel | src/PlanValidator.java:55-69 | The critical path is the largest level of any scheduled id, and some scheduled id reaches it. There are no layers iff nothing is scheduled. |
| DependencyLevels.BlockedNeverScheduled | src/ExecutionPlanner.java:84-90 | No id of a set whose members each wait for a member of the set is ever scheduled. |
| DependencyLevels.UnscheduledBlocked | src/ExecutionPlanner.java:84-90 | When the dependencies name known ids only, the ids left unscheduled each wait for another unscheduled id. |
| DependencyLevels.CycleIffUnscheduled | src/ExecutionPlanner.java:84-90 | When the dependencies name known ids only, the graph has a cycle iff some id is left unscheduled. |
| KahnState.PendingZero | src/ExecutionPlanner.java:75-76 | A child's count of unfinished parents is 0 iff every parent it declares is finished. |
| KahnState.PendingFinish | src/ExecutionPlanner.java:72-76 | Finishing a parent lowers a child's count by the number of times the child declared that parent. |
| KahnState.QueueIsReady | src/ExecutionPlanner.java:64-66 | When the counters agree with the graph, the queued ids are exactly the ready ids. |
| KahnState.QueuePop | src/ExecutionPlanner.java:69-70 | The dequeued id is an unfinished script whose parents are all finished. Finishing it keeps the finished set closed under "parents first", and the rest of the queue still agrees. |
| KahnState.DecrementChild | src/ExecutionPlanner.java:75-76 | One decrement: the child is an unfinished id that declares the parent. Afterwards each counter is the id's unfinished parents, less the times the id occurs among the parent's children handled so far. The queue still holds exactly the ids whose counter is 0. |
| KahnState.ReleaseComplete | src/ExecutionPlanner.java:72-77 | Once every listed child of a finished parent has been decremented, each counter again equals that id's unfinished parents. |
| ExecutionPlanner.IndexById | src/ExecutionPlanner.java:18-21 | The index succeeds iff the ids are distinct, and it then holds exactly the scripts' ids. Otherwise it fails with an id that two scripts share. |
| ExecutionPlanner.BuildStart | src/ExecutionPlanner.java:28 | A new id starts with a zero counter and no edges, and the build state still agrees with the dependencies seen so far. |
| ExecutionPlanner.BuildMissing | src/ExecutionPlanner.java:31-34 | A dependency on an unknown id changes neither the edges nor the counters. |
| ExecutionPlanner.BuildEdge | src/ExecutionPlanner.java:36-40 | A dependency on a known id lists the script once more under its parent and raises the script's counter by one. |
| ExecutionPlanner.AddScript | src/ExecutionPlanner.java:27-42 | One script's iteration: the build state afterwards agrees with the dependencies including this script's. The warnings grow by this script's unknown dependencies, in declared order. |
| ExecutionPlanner.BuildDirectedAcyclicGraph | src/ExecutionPlanner.java:17-44 | Fails iff two scripts share an id, naming one such id. Otherwise each id's counter is its number of known dependencies, with repetitions, and each known parent lists its dependents once per declaration. The warnings are the unknown dependencies in script order. |
| ExecutionPlanner.InitReadyQueue | src/ExecutionPlanner.java:47-55 | The queue holds exactly the ids whose counter is 0, each once, in any order. |
| ExecutionPlanner.ReleaseDependents | src/ExecutionPlanner.java:72-77 | After a finished script's dependents are released, the counters agree with the new finished set. The queue gains exactly the dependents that became ready. |
| ExecutionPlanner.EmitWave | src/ExecutionPlanner.java:64-79 | A wave is the queue as the wave starts. It is duplicate-free and equals the ready set given the earlier waves. Afterwards the queue is exactly the next ready set, disjoint from the wave. |
| ExecutionPlanner.GenerateExecutionWaves | src/ExecutionPlanner.java:58-82 | Wave i, read as a set, is reference layer i. Every scheduled id occurs exactly once, and the wave sizes add up to the number of scheduled ids. |
| ExecutionPlanner.CountDecidesCycle | src/ExecutionPlanner.java:84-91 | When the waves list each scheduled id once and every parent is a known id, the wave sizes fall short of the id count iff the graph has a cycle. The shortfall is the number of unscheduled ids. |
| ExecutionPlanner.VerifyAcyclic | src/ExecutionPlanner.java:84-91 | Succeeds iff the wave sizes add up to the number of scripts, and otherwise fails with the shortfall. On the waves of a graph whose parents are known ids, it succeeds iff the graph is acyclic, and the shortfall is the positive number of unscheduled ids. |
| ExecutionPlanner.AllScheduled | src/ExecutionPlanner.java:84-91 | When the wave sizes add up to the number of scripts, the graph is acyclic and the plan covers every id. Every wave is non-empty and every wave respects the dependencies. |
| ExecutionPlanner.SomeUnscheduled | src/ExecutionPlanner.java:84-91 | When the wave sizes fall short, there is a cycle. The shortfall is the number of unscheduled ids, and it is positive. Those ids each wait for another of them. |
| ExecutionPlanner.Plan | src/ExecutionPlanner.java:7-15 | Fails with a shared id iff ids repeat. With distinct ids it succeeds iff there is no cycle, and then the waves are the reference layers. Each wave is then non-empty and respects the dependencies, every script occurs exactly once, the total is the number of scripts, and the warnings are the unknown dependencies. On a cycle it reports the positive number of stranded scripts. |
| PlanValidator.ContainsEveryScriptExactlyOnce | src/PlanValidator.java:19-27 | True iff the flattened plan has no repeated id and its ids are exactly the scripts' ids. |
| PlanValidator.ExactlyOnceCounts | src/PlanValidator.java:19-27 | The exactly-once check holds iff every script id occurs exactly once in the flattened plan and no other id occurs in it. |
| PlanValidator.DeclaredStart | src/PlanValidator.java:34 | An id not seen before starts with a zero counter and an empty dependency list, and the reverse edges stay in agreement. |
| PlanValidator.DeclaredEdge | src/PlanValidator.java:35-39 | Every declared dependency, known or not, adds one edge and one unmet dependency. |
| PlanValidator.AddDeclaredScript | src/PlanValidator.java:33-41 | One script's iteration: the counters and edges agree with the declared lists, and a repeated id gets its lists joined. |
| PlanValidator.BuildDependencyGraph | src/PlanValidator.java:30-41 | The counters and reverse edges are those of the declared graph, including parents that name no script. |
| PlanValidator.InitDepths | src/PlanValidator.java:44-52 | The queue holds exactly the ids with zero counters, and each of them is given depth 0. |
| PlanValidator.DepthAtDequeue | src/PlanValidator.java:57 | When an id is dequeued, its depth from the table equals its reference level. |
| PlanValidator.RaiseDepth | src/PlanValidator.java:60 | After the max-merge, each child reached so far has depth 1 + the largest level among its finished parents. Finished ids keep their level. |
| PlanValidator.ReleaseWithDepth | src/PlanValidator.java:56-66 | After a parent is handled, the counters, the queue and the depth table agree with the new finished set. |
| PlanValidator.VisitNext | src/PlanValidator.java:56-67 | One dequeue: the head is a schedulable id not yet finished. Afterwards the counters, the queue, the depth table and the running maximum agree with the finished set that includes it. |
| PlanValidator.TraversalComplete | src/PlanValidator.java:55-69 | When the queue drains, every schedulable id has been dequeued, and the running maximum equals the critical path. |
| PlanValidator.CriticalPathLength | src/PlanValidator.java:29-70 | The result is the critical path of the declared graph. An id that waits for an unknown id, and everything after it, is left out. |
| PlanValidator.IsOptimal | src/PlanValidator.java:8-17 | True iff the plan has every script exactly once and exactly critical path + 1 waves. It is false whenever the exactly-once check fails. |
| Optimality.ChainBound | src/PlanValidator.java:55-69 | A dependency chain ending in a scheduled id is wholly scheduled, and it is no longer than that id's level. |
| Optimality.ChainTo | src/PlanValidator.java:55-69 | Every scheduled id ends a dependency chain whose length is its level. |
| Optimality.CriticalPathIsLongestChain | src/PlanValidator.java:55-69 | The critical path is the length of the longest dependency chain among the scheduled ids: no chain is longer, and one chain attains it. |
| Optimality.FirstLayerIsSources | src/ExecutionPlanner.java:47-55 | In the planner's graph, where dependencies on ids that no script has are already dropped, the first wave is exactly the scripts with no dependency on an existing script. There is no wave at all exactly when every script has such a dependency. |
| Optimality.CriticalPathWithoutEdges | src/PlanValidator.java:44-52 | When no id has a parent in the graph, all ids form one layer and the critical path is 0. |
| Optimality.WaveIndexAtLeastLevel | src/PlanValidator.java:13-16 | Any wave list that runs dependencies in earlier waves places each scheduled id no earlier than its level. |
| Optimality.LayersAreShortest | src/PlanValidator.java:13-16 | Any dependency-respecting wave list that covers the scheduled ids has at least critical path + 1 waves, and the layers have exactly that many. |
| Optimality.PlannerMeetsValidator | tests/ExecutionPlannerTest.java:46-47 | On non-empty, acyclic input with distinct ids and no missing dependencies, the planner's wave count is the validator's critical path + 1. |
| Optimality.SmallerIdsAcyclic | tests/ExecutionPlannerTest.java:18-34 | When every dependency names a smaller id, as the generator arranges, the planner's graph has no cycle. |
| Optimality.PlanAndValidate | tests/ExecutionPlannerTest.java:36-48 | For every non-empty input of the generated shape (distinct ids, dependencies on smaller existing ids), planning succeeds with all scripts and no warnings, and the validator accepts the plan. |
| Findings.KnownScriptsGraph | src/PlanValidator.java:33-41 | Removing unknown dependencies from the scripts makes the validator's graph equal the planner's graph. |
| Findings.EmptyInputJudgedSuboptimal | src/PlanValidator.java:13-16 | With no scripts, the planner returns no waves and no warnings, and the validator as written rejects the plan. |
| Findings.UnknownParentValidatorGraph | src/PlanValidator.java:33-41 | For scripts 1 -> [99] and 2 -> [1], the validator's critical path is 0. |
| Findings.TwoWavesForOneEdge | src/ExecutionPlanner.java:68-77 | A dependency-respecting plan of non-empty waves, holding two scripts one of which waits for the other, has exactly two waves. |
| Findings.UnknownParentJudgedSuboptimal | src/PlanValidator.java:33-41 | For scripts 1 -> [99] and 2 -> [1], the planner returns two waves and one warning, and the validator as written rejects the plan. |
| Findings.IsOptimalCorrected | src/PlanValidator.java:8-17 | True iff the plan has every script exactly once and has the fewest waves possible: none for no scripts, otherwise the critical path of the graph without unknown dependencies, plus 1. |
| Findings.PlannerMeetsCorrectedMinimum | src/PlanValidator.java:13-16 | On every acyclic input, the planner's wave count is that minimum. |
| Findings.PlanAndValidateCorrected | tests/ExecutionPlannerTest.java:46-47 | With distinct ids, planning succeeds iff there is no cycle, and the corrected validator accepts every successful plan, including empty input and missing dependencies. |
| Scenarios.AppLayers | src/App.java:8-14 | The application's five scripts form the layers {5}, {4}, {1}, {2, 3}, with critical path 3, and every script is scheduled. |
| Scenarios.AppScenario | src/App.java:8-18 | Planning the application's scripts yields waves {5}, {4}, {1}, {2, 3} with no warnings and five scripts in total. The critical path is 3 and the plan is optimal. |
| Scenarios.MissingDependencyScenario | src/ExecutionPlanner.java:30-35 | A script that depends on an unknown id runs in the single wave {1}, with the warning (1, 99). |
| Scenarios.MutualCycleScenario | src/ExecutionPlanner.java:84-90 | Two scripts that wait for each other make planning fail with 2 scripts in the cycle. |
| Scenarios.SelfCycleScenario | src/ExecutionPlanner.java:84-90 | A script that waits for itself makes planning fail with 1 script in the cycle. |

## Left out

- WaveExecutor and VulnerabilityScript.run: running the waves is concurrent I/O and is not part of this model.
- ExecutionReport and App's printing and timing: output, wall-clock time and floating-point statistics are not modelled.
- Warning text and exception messages: a warning is the pair (script id, missing id), and a cycle failure carries the number of unscheduled scripts.
- Java `int` width: ids, counters and sums are unbounded integers. Overflowing 32 bits would need more than 2^31 scripts or dependencies.
- HashMap iteration order: the initial ready queue takes the zero-counter ids in an arbitrary order. So wave contents are stated as sets, and the order inside a wave is left open.
- Running time: the O(V + E) bound and the ten-second timeout in the stress test are not modelled.
- The stress test's random generator, its seed and its script count: Optimality.PlanAndValidate instead covers every input of the shape the generator produces.
- ExecutionPlanner.IndexById: says the reported id is shared by two scripts, but not that it is the first repeat in script order, as `toMap` reports it.
- PlanValidator graph construction: a dependency on an unknown id is still counted as unmet (src/PlanValidator.java:33-41), whereas a "longest chain of existing dependencies" reading would skip it. The model follows the code, and Findings records the consequence.

## Findings

| source | as written | input that shows it | evidently intended | confidence | as-written member | corrected member |
|---|---|---|---|---|---|---|
| src/PlanValidator.java:13-16 | requires critical path + 1 waves even when there are no scripts | no scripts: the plan has 0 waves, the critical path is 0, and 0 != 1, so the plan is rejected | an empty plan is the shortest plan of no scripts | not executed | Findings.EmptyInputJudgedSuboptimal | Findings.PlanAndValidateCorrected |
| src/PlanValidator.java:33-41 | counts dependencies on unknown ids, so their scripts never become ready and drop out of the critical path | scripts 1 -> [99], 2 -> [1]: the planner gives 2 waves, the validator's critical path is 0, so the plan is rejected | measure the graph the planner schedules, with unknown dependencies dropped | not executed | Findings.UnknownParentJudgedSuboptimal | Findings.IsOptimalCorrected |
