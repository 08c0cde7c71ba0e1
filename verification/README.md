# wperf analysis pipeline: a Dafny model

wperf records scheduler, futex and block-I/O events, correlates them into a
wait-for graph of threads, redistributes each wait down the chain of causes
("cascade"), and reports the strongly connected components ("knots"), the
critical path and the share of disk wait that stays on the disk. This project
models five cores of that pipeline and proves what they promise for every
graph, every event stream and every file. `dafny verify dfyconfig.toml` checks
everything; the modules are grouped as follows.

**Cascade redistribution.** `GraphTypes`, `WaitGraph` and `EdgeOrder` hold the
timed multigraph and its stably sorted edge list. `Sweep` defines the
sweep-line partition and proves it exact millisecond by millisecond,
`Maximality` says when its intervals are as long as they could be, and
`SweepLine` is the loop over clips and boundary points that computes it.
`CascadeSpec` defines the recursion as a function of the *set* of normal waits
(with an optional depth limit) and `CascadeEngine` the depth-limited recursion
over the graph, with one shared path set edited in place, that computes it.
`Attribution` proves the laws of the whole pass, `CascadeReference` that it is
plain arithmetic on the edges, `SharedWaits` what threads that wait for part of
the time do to it; `DepthLaw`, `DepthExact`, `DepthAlone`, `DepthLimit`,
`DepthLag` and `DepthRing` say what its depth limit does.

**Correlation.** `CorrelateSpec` is the four-table state machine as a function,
`Correlator` the class whose handlers update the tables, graph and counters and
are proved against it. `CorrelateHistory`, `CorrelateTables`, `CorrelateEdges`
and `CorrelateCounters` give the tables, the edge list and the counters a
declarative reading over the event history, and `EdgeReading` and
`CounterReading` read the finished graph and the counters off nothing but the
fields of the events; `CorrelateBooks` proves the
bookkeeping, `CorrelateWindows` the time span of every edge, `ThreadTimeline`
that a thread waits for one other at a time,
`CorrelateThreshold` relates runs with different filter thresholds, and
`ReportOrder` shows that the hash-map drain order is invisible.

**Condensation, knots, critical path.** `Reachability`, `Condensation`,
`Components`, `Heuristic`, `Knots`, `TopoOrder` and `CriticalPath`;
`GraphReport` says what their results mean for the graph itself, whatever
numbers the components get, and `GraphAnalysis` runs them together.

**Trace file.** `Bytes`, `EventFormat`, `Writer` and `Reader` model the file as
bytes with a position; truncation is an explicit cut. `FileLayout` and
`MetadataEntries` say byte by byte what is written and what is read.

**Reorder buffer, pipeline, report.** `EventOrder` and `Reorder` compare the
windowed heap with a plain sort. `Pipeline` is read, sort, correlate;
`DiskReport` the per-device ratio; `Reports` the whole way from a file to its
report.

Times and counts are natural numbers. Callbacks are modelled by returning the
emitted events; a hash map's iteration order is an arbitrary choice. Ratios are
kept as their two integer sums.

Four places where the code and its comments, or a wished-for law, part ways. The
model follows the code.

* Elementary intervals need not be maximal, although `src/graph/types.rs:180-182`
  says so: two overlapping waits for the same thread still cut the interval
  (`Maximality.CutsThatDoNotShow`). They are maximal exactly when the set of
  threads waited for changes, or is empty, wherever a wait starts or ends inside
  the window (`Maximality.MaximalExactly`). Exactness holds always
  (`Sweep.PartitionExact`).
* The documented expiry rule of the reorder buffer
  (`src/transport/reorder.rs:75-76`) and the saturated cutoff on line 78 agree
  except for timestamp 0: a first event of timestamp 0 goes out at once, whatever
  the window (`Reorder.TimeZeroGoesOutAtOnce`). A flush hands out the same by
  both exactly when the newest event is past the first window or nothing of
  timestamp 0 is buffered (`Reorder.ExpiryRules`); a push, exactly when the
  newest event is or the arrival has another timestamp (`Reorder.ExpiryOnPush`).
* Depth monotonicity (`src/cascade/invariants.rs:131-152`) asks that a deeper
  run never attributes more in total. On every graph the opposite holds edge by
  edge: from depth 2 on a deeper run never attributes less
  (`DepthLaw.DeeperNeverAttributesLess`). So the check accepts exactly when the
  deeper run changes no edge (`DepthLaw.DepthCheckAccepts`), and that is so
  exactly when, behind every edge, what the threads two hops on lose to deeper
  recursion stays within the remainder that the first hop's division discards
  anyway (`DepthExact.DepthCheckExact`). For one more level this is decided by the
  waits alone (`DepthExact.DepthThreeFromWaits`), and the same condition is
  necessary for any deeper run (`DepthExact.DeeperNeedsWaits`) but not sufficient
  (`DepthLag.WaitsDoNotDecideDeeper`). Monotonicity holds for every
  depth where nothing fans in or out two hops behind an edge
  (`DepthAlone.AloneDepthIrrelevant`), which covers the documented chains and
  more. `DepthLimit.FanInBreaksDepthMonotonicity` is a graph on which it fails.
* The reorder buffer alone does not sort: no window sorts every input
  (`Reorder.NoWindowSorts`), and every window but the largest lets timestamps
  come out in disorder (`Reorder.SomeInputComesOutUnordered`). Its output is the
  sorted input exactly when no arrival belongs before an earlier one that had
  already left the window (`Reorder.AgreesWithSort`). The report does not depend
  on it (`Reports.ReorderingIsInvisible`).

## Model

| member | source | states |
|---|---|---|
| GraphTypes.Overlap | src/graph/types.rs:51-62 | two windows overlap exactly when they share a millisecond, and the overlap is exactly the milliseconds they share |
| Sweep.PartitionExact | src/graph/sweep.rs:71-98 | intervals are nonempty, ordered, disjoint and inside the window; a millisecond of the window lies in one exactly when the thread waits then, and that interval lists exactly the threads waited for |
| Sweep.EmitExact | src/graph/sweep.rs:73-98 | the same for the sweep from any boundary point on |
| Sweep.CoverageIsBusyTime | src/graph/sweep.rs:71-98 | the interval lengths add up to the number of milliseconds in which the thread waits, at most the window |
| Maximality.MaximalExactly | src/graph/types.rs:180-182 | touching intervals always differ in their targets exactly when the set of threads waited for changes, or is empty, at every start and end of a wait inside the window |
| Maximality.CutsThatDoNotShow | src/graph/sweep.rs:71-98 | two overlapping waits for one thread give three touching intervals with the same target |
| SweepLine.SortDedup | src/graph/sweep.rs:91-92 | sorting and removing neighbours leaves the ascending listing of the set of targets |
| SweepLine.ClipOutgoing | src/graph/sweep.rs:47-57 | the clips are those of the thread's normal waits; closure returns and non-overlapping waits are skipped |
| SweepLine.BoundaryPoints | src/graph/sweep.rs:63-69 | the collected points are the clip boundaries |
| SweepLine.EmitIntervals | src/graph/sweep.rs:71-100 | the loop emits the specified intervals |
| SweepLine.SweepLinePartition | src/graph/sweep.rs:25-101 | the whole method computes the specified partition of the graph's normal waits, also for a thread without a node |
| CascadeSpec.LedgerBound | src/cascade/engine.rs:84-138 | on every graph, path and depth a call propagates at most the time its thread waits, and propagated plus self-blame never exceeds the window |
| CascadeSpec.DepthLimitIrrelevant | src/cascade/engine.rs:97-137 | a depth limit of at least the number of open waiting threads gives the result of unlimited recursion, which terminates on cycles |
| CascadeSpec.ChainClosedForm | src/cascade/engine.rs:110-137 | on a chain a call propagates exactly the time its thread waits and keeps exactly the rest |
| CascadeEngine.CountConcurrentWaiters | src/cascade/engine.rs:140-165 | the number of distinct threads with a normal edge to the target during any part of the window, told by the bounds of the windows, and at least 1 |
| CascadeEngine.TransferToTargets | src/cascade/engine.rs:114-132 | the inner loop adds up the specified transfers and hands the path set back unchanged, with one member per level |
| CascadeEngine.TransferAll | src/cascade/engine.rs:110-133 | the outer loop adds up transfers and coverage over all intervals and hands the path set back unchanged, with one member per level |
| CascadeEngine.ComputeCascade | src/cascade/engine.rs:89-138 | the recursion with the shared, mutated path set, which has exactly as many members as the depth, returns the specified outcome and leaves the path set as it found it |
| CascadeEngine.AttributeAll | src/cascade/engine.rs:39-53 | every edge index gets its specified attributed delay |
| CascadeEngine.WriteAttribution | src/cascade/engine.rs:55-58 | writing by edge index into the renumbered clone changes the delay of that edge and nothing else |
| CascadeEngine.ChecksPass | src/cascade/invariants.rs:44-106 | on a redistributed graph the non-amplification and locality checks succeed |
| CascadeEngine.AmplificationIsCaught | src/cascade/invariants.rs:60-65 | the first check accepts exactly the graphs without an edge attributed more than its raw wait |
| CascadeEngine.LocalityIsExact | src/cascade/invariants.rs:83-106 | the second rejects other sizes and, for equal endpoints, accepts exactly unchanged windows and raw waits |
| CascadeEngine.RunCascade | src/cascade/engine.rs:33-76 | the engine never fails, leaves its input alone and returns the redistribution edge by edge at the same index, at the depth asked for or at 10; with at most 10 threads that is unlimited recursion |
| CascadeReference.WaitersAreCounted | src/cascade/engine.rs:140-165 | the divisor is the number of threads whose normal edge to the target has a millisecond in common with the interval, at least 1 |
| CascadeReference.CascadeIsReference | src/cascade/engine.rs:84-138 | every call hands on and keeps what plain arithmetic on the edges says: per interval and target the target's share, divided by the targets and then by those threads |
| CascadeReference.RedistributionIsReference | src/cascade/engine.rs:39-58 | every edge is left its raw wait less that, never below 0, and nothing else changes |
| SharedWaits.PartialWaitersDivide | src/cascade/engine.rs:110-132 | with k threads waiting for the last thread during any part of the window, all but a k-th of the wait stays, at every depth from 2 on |
| SharedWaits.HalfSharedIsHalved | src/cascade/engine.rs:125-130 | a second thread that waits for half of the time halves the whole wait of 10 ms |
| DepthRing.DepthBoundIsTight | src/cascade/engine.rs:97-99 | for every number of threads from 3 on, a ring of them keeps 1 ms of its first wait exactly at depths of at least that number |
| DepthRing.UnlimitedRing | src/cascade/engine.rs:97-99 | as it does without a limit, so one level fewer is too few |
| DepthRing.ElevenThreads | src/cascade/engine.rs:24-37 | eleven threads on which the default depth of 10 and unlimited recursion differ |
| Attribution.EdgeLedger | src/cascade/engine.rs:48-52 | attributed plus propagated delay is exactly the raw wait, and attributed is at least the raw wait minus the time the destination was waiting itself |
| Attribution.NormalWaitsPreserved | src/cascade/engine.rs:55-58 | redistribution does not change what a second run would look at |
| Attribution.RerunForgets | src/cascade/invariants.rs:109-129 | running the engine on its own result gives the result of the last run alone, so it is idempotent |
| Attribution.OnlyNormalWaitsMatter | src/cascade/engine.rs:140-165 | the delay of an edge depends on its endpoints, window and raw wait and, beyond that, on the graph only through its set of normal waits: order, duplicates, wait types, old delays and closure returns do not matter |
| Attribution.ClosureReturnsDoNotInterfere | src/graph/sweep.rs:36-52 | deleting all closure returns before or after redistribution gives the same edges |
| Attribution.DeepEnoughIsUnlimited | src/cascade/engine.rs:97-99 | every max_depth of at least the number of threads gives unlimited recursion on the whole graph |
| Attribution.ChainAttribution | src/cascade/engine.rs:110-137 | on a chain an edge keeps exactly the time its destination was not waiting, for every depth of at least 2; below, and on self edges, all of it |
| Attribution.ChainDepthMonotone | src/cascade/invariants.rs:131-152 | on chains a deeper run never attributes more in total, and from depth 2 on nothing changes |
| Attribution.LeafKeepsEverything | src/cascade/engine.rs:101-104 | an edge into a thread that waits for nobody keeps all of its raw wait |
| DepthLimit.DepthDecides | src/cascade/engine.rs:113-132 | two steps above a leaf with k waiters, the depth limit decides whether the whole window or a k-th of it is propagated |
| DepthLimit.FanInBreaksDepthMonotonicity | src/cascade/invariants.rs:137-143 | a concrete four-edge graph on which every run deeper than 2 attributes 12 ms instead of 10 ms |
| DepthLaw.DeeperAbsorbsLess | src/cascade/engine.rs:97-137 | in every call, more levels never absorb more (propagated plus self-blame), and once one level is left never propagate more |
| DepthLaw.DeeperNeverAttributesLess | src/cascade/invariants.rs:131-152 | on every graph and edge a run deeper than depth 2 attributes at least as much; below depth 2 every edge keeps its raw wait |
| DepthLaw.DepthCheckAccepts | src/cascade/invariants.rs:145-152 | the check accepts a shallow depth below 2 always, and any other exactly when the two runs agree on every edge |
| DepthExact.DepthCheckExact | src/cascade/invariants.rs:137-152 | it accepts exactly when on every edge the loss two hops on stays within the remainder the first hop rounds off |
| DepthExact.DepthThreeFromWaits | src/cascade/invariants.rs:137-152 | depth 3 against depth 2: the same condition as arithmetic on the waits, with no recursion in it |
| DepthExact.DeeperNeedsWaits | src/cascade/invariants.rs:137-152 | that condition on the waits is necessary for every deeper run |
| DepthAlone.AloneDepthIrrelevant | src/cascade/invariants.rs:131-136 | where nothing is shared two hops behind an edge, however the first hop fans in or out, no depth from 2 on changes anything |
| DepthAlone.ChainsAreAlone | src/cascade/invariants.rs:131-136 | chains meet that condition |
| DepthLag.WaitsDoNotDecideDeeper | src/cascade/invariants.rs:137-152 | that condition is not sufficient: on a concrete five-edge graph it holds and depths 2 and 3 both attribute 4 ms, every deeper run 5 ms |
| EdgeOrder.StableSortCorrect | src/graph/wfg.rs:118-135 | the edge list comes sorted by endpoints, is a permutation, and keeps the order among equal endpoints |
| EdgeOrder.ReportedInOrder | src/graph/wfg.rs:118-135 | edges are reported by source thread, then target thread, then edge index |
| EdgeOrder.SortAligned | src/graph/wfg.rs:132-134 | changing delays does not move any row of the edge list |
| WaitGraph.WaitForGraph.AddNode | src/graph/wfg.rs:32-39 | adding a known thread changes nothing, adding a new one extends the node map |
| WaitGraph.WaitForGraph.AddSyntheticClosureReturn | src/graph/wfg.rs:74-88 | appends one edge of closure-return kind with the window's length as raw and attributed delay |
| WaitGraph.WaitForGraph.OutgoingEdges | src/graph/wfg.rs:101-106 | exactly the edges leaving the node |
| WaitGraph.WaitForGraph.IncomingEdges | src/graph/wfg.rs:109-114 | exactly the edges entering the node |
| WaitGraph.WaitForGraph.SetAttributedDelay | src/graph/wfg.rs:153-155 | one edge gets the new delay, everything else stays |
| WaitGraph.WaitForGraph.CloneWithResetAttribution | src/graph/wfg.rs:169-195 | although nodes are renumbered in thread order, the clone has the same threads and, at every edge index, the same edge with attribution reset |
| Correlator.Correlation.OnSwitch | src/correlate.rs:310-383 | the three parts of a switch update tables, graph and counters as specified |
| Correlator.Correlation.OnWakeup | src/correlate.rs:477-498 | last wakeup wins; idle wakers are ignored; others are counted |
| Correlator.Correlation.OnExit | src/correlate.rs:241-245 | an exit commits the deferred edge and clears the thread |
| Correlator.Correlation.OnIoIssue | src/correlate.rs:402-418 | a request is recorded, a collision counted and overwritten |
| Correlator.Correlation.OnIoComplete | src/correlate.rs:434-471 | a completion adds the edge pair, an orphan is counted |
| Correlator.Correlation.DrainPending | src/correlate.rs:267-269 | every leftover edge is committed, in an arbitrary order that lists each thread once |
| Correlator.CorrelateEvents | src/correlate.rs:205-277 | the event loop computes the state machine's run and its finish |
| CorrelateBooks.RunKeepsDeferred | src/correlate.rs:223-276 | in every reachable state a deferred edge belongs to its own thread, and no thread is both off-CPU and holding a deferred edge |
| CorrelateBooks.NoPendingEdgeIsOverwritten | src/correlate.rs:367-376 | the insert of a deferred edge never replaces one |
| CorrelateBooks.GraphIsWellBuilt | src/correlate.rs:281-290 | every graph built has only scheduler edges and disk edges, a thread with a request edge has a closure return and the other way round, exactly their endpoints are nodes, and the disk is the only pseudo-thread |
| CorrelateWindows.RequestsAreAnswered | src/correlate.rs:453-470 | for every thread and window the finished graph has as many closure returns as request edges |
| CorrelateWindows.EveryEdgeIsTimed | src/correlate.rs:359-365 | on sorted input every edge of the finished graph is a request's pair with its exact window, or an episode's wait that starts in the switch-out's millisecond and whose raw wait is the time between switch-out and switch-in in whole milliseconds |
| ThreadTimeline.WaitsNeverOverlap | src/correlate.rs:343-376 | on sorted input two scheduler edges leaving the same thread never overlap in the finished graph |
| ThreadTimeline.OneThreadAtATime | src/correlate.rs:343-376 | at every millisecond a thread waits for at most one thread besides the disk |
| ThreadTimeline.AtMostTwoTargets | src/graph/sweep.rs:71-98 | in a correlated graph every elementary interval has one target, or two of which the first is the disk |
| CorrelateBooks.RunBalances | src/correlate.rs:223-265 | the books balance after every prefix |
| CorrelateBooks.FinalBalance | src/correlate.rs:267-276 | switch-ins, requests, completions and edges created add up over every run |
| CorrelateEdges.OffCpuTableIsHistory | src/correlate.rs:332-357 | a thread is in the table exactly when its latest blocking switch-out, switch-in or exit is a blocking switch-out; time, last waker and wait type are those of the history |
| CorrelateEdges.WaitTypeIsLastFutex | src/correlate.rs:334-340 | the wait type is the last unconsumed futex event, at most 1 ms old |
| CorrelateEdges.PendingTableIsHistory | src/correlate.rs:357-376 | a thread has a deferred edge exactly when it finished an episode and has not left the CPU or exited since; the edge is that episode's |
| CorrelateEdges.IoTableIsHistory | src/correlate.rs:402-418 | a request is in flight exactly when no later event has its key |
| CorrelateEdges.RunCommits | src/correlate.rs:310-330 | after every prefix the graph holds exactly the edges owed by the history so far |
| CorrelateEdges.GraphIsHistory | src/correlate.rs:205-277 | the finished graph is, as a bag, one edge for every episode not followed by a block sooner than the threshold, and a pair for every completed request |
| EdgeReading.EdgesAreRead | src/correlate.rs:205-498 | an edge is in the finished graph exactly when event fields tell its wait or its disk request: event codes, ids, states, times in nanoseconds, futex operation, threshold |
| EdgeReading.SpuriousIsStopsAgain | src/correlate.rs:319-330 | an episode is filtered exactly when the thread is switched out not runnable less than the threshold after coming in, and nothing else took it off the CPU before |
| EdgeReading.ReasonIsWaitType | src/correlate.rs:334-340 | the wait type is that of the last futex operation code, at most 1,000,000 ns old |
| EdgeReading.SameKeys | src/correlate.rs:402-418 | requests are paired by device, both sector halves and size |
| EdgeReading.UnknownCodes | src/format/event.rs:47-60 | exactly the codes 1 to 7 are known |
| CorrelateCounters.CountersAreHistory | src/correlate.rs:223-265 | each diagnostic counter is the number of events that met its situation in the history |
| CorrelateCounters.TotalsAreHistory | src/correlate.rs:223-276 | the processed, created, filtered and pending-at-end counters are those of the history: filtered counts the episodes followed by a block sooner than the threshold |
| CounterReading.CountersAreRead | src/correlate.rs:223-265 | each diagnostic counter is the number of events whose fields, and those of the events before, tell its situation |
| CounterReading.FilteredIsRead | src/correlate.rs:319-330 | the filtered counter is the number of waits after which the thread is switched out not runnable less than the threshold later |
| CorrelateCounters.StatsIgnoreDrainOrder | src/correlate.rs:267-276 | no counter depends on the drain order |
| CorrelateThreshold.RaisingTheThreshold | src/correlate.rs:319-330 | a higher threshold commits a sub-bag of the edges and moves exactly the difference into the filtered count |
| CorrelateThreshold.ZeroFiltersNothing | src/correlate.rs:324-325 | threshold 0 filters nothing: every finished episode owes its edge |
| CorrelateThreshold.RunsAreTwins | src/correlate.rs:319-330 | the tables of two runs that differ only in the threshold are always equal |
| CorrelateWindows.EpisodeWindowError | src/correlate.rs:359-365 | on sorted input a wait edge starts in the switch-out's millisecond and is as long as the wait in whole milliseconds, so it ends at most one millisecond early |
| CorrelateWindows.DiskWindowIsExact | src/correlate.rs:449-451 | on sorted input a disk edge spans exactly request to completion |
| ReportOrder.ReportDeterminedByKeys | src/graph/wfg.rs:132-134 | what is reported depends only on the order among edges with equal endpoints |
| ReportOrder.DrainOrderIsInvisible | src/correlate.rs:267-269 | whatever the drain order, the cascaded edge list is reported identically |
| DiskReport.ComputeIoAttributedDelayRatio | src/report.rs:292-342 | one ratio per device with measurable wait, of exactly the two sums over the edges into it, and none at all when there is no such device |
| DiskReport.SumsAddUp | src/report.rs:296-322 | the two sums add up raw waits and attributed delays of the normal edges into a device of that label, and of no others |
| DiskReport.DiskKeepsItsWait | src/report.rs:296-322 | in every correlated graph an edge into the disk keeps all of its wait |
| DiskReport.DiskRatioIsOne | src/report.rs:301-342 | the disk's two sums are equal and no other device has any |
| Components.ComponentListExists | src/scc/tarjan.rs:87-99 | every graph has a list of its strongly connected components |
| Components.ListsEachOnce | src/scc/tarjan.rs:87-99 | such a list names exactly the mutual-reachability classes, each once |
| Condensation.BuildCondensation | src/scc/tarjan.rs:106-140 | one super-node per component and one edge exactly between components joined by some edge, weighted by the maximum |
| Condensation.TabulateWeights | src/scc/tarjan.rs:126-134 | the table has the maximum attributed delay per connected pair |
| Condensation.CondensationIsAcyclic | src/scc/tarjan.rs:100-140 | no walk of the condensation returns to its start |
| Condensation.CondensationDag.Sinks | src/scc/tarjan.rs:77-82 | the super-nodes without outgoing edge, each once in index order |
| Heuristic.InternalEdges | src/scc/tarjan.rs:143-160 | exactly the edges with both ends in the component |
| Heuristic.MaxHeuristicWeight | src/scc/heuristic.rs:16-48 | the delay of the heaviest edge with both ends inside; without one, for a single thread, that of the heaviest edge that leaves or enters it; otherwise 0 |
| Heuristic.SuperWeightMeaning | src/scc/heuristic.rs:16-48 | for any list of threads the specified weight is that one and no other |
| Heuristic.ApplyMaxHeuristic | src/scc/heuristic.rs:51-60 | every super-node gets that weight and keeps all else |
| Heuristic.LargeComponentsHaveEdges | src/scc/heuristic.rs:16-48 | the fall-through to weight 0 is never taken by a component of several threads |
| Knots.DetectKnots | src/scc/knot.rs:29-55 | exactly the sinks that pass both rules, each once in index order |
| Knots.SinkIsClosed | src/scc/tarjan.rs:77-82 | nothing outside a sink's threads is reachable from inside |
| Knots.NontrivialIsCyclic | src/scc/knot.rs:34-37 | a component passes the first rule exactly when its threads lie on a cycle |
| Knots.KnotMeaning | src/scc/knot.rs:24-50 | a super-node is a knot exactly when it is closed, cyclic and not all kernel threads |
| Knots.EveryThreadReachesASink | src/scc/tarjan.rs:77-82 | every thread reaches a component that no wait leaves |
| Knots.DiskUsersFormOneComponent | src/correlate.rs:453-469 | every thread with a completed request and the disk reach each other |
| Knots.EveryComponentHasAUserThread | src/scc/knot.rs:69-74 | in a correlated graph every component, hence every knot, contains a user thread |
| Knots.CorrelatedGraphShape | src/correlate.rs:281-290 | the shape the two previous lemmas need holds for every stream and survives redistribution |
| TopoOrder.TopologicalOrderExists | src/critical_path/mod.rs:43-46 | every condensation has a topological order, so the panic is unreachable |
| CriticalPath.FillTables | src/critical_path/mod.rs:48-71 | every table entry is the weight of a real path ending there and no edge can improve it |
| CriticalPath.TableIsOptimal | src/critical_path/mod.rs:57-71 | then no path beats the entry of its end |
| CriticalPath.TraceBack | src/critical_path/mod.rs:77-84 | following predecessors terminates and spells that path |
| CriticalPath.LastMaximum | src/critical_path/mod.rs:73-75 | the last node with the largest entry |
| CriticalPath.CriticalPathDp | src/critical_path/mod.rs:38-101 | none for an empty DAG, else a real path with its nodes and total weight, and no path weighs more |
| CriticalPath.TotalIsBounded | src/critical_path/mod.rs:97-100 | the total never exceeds all node and edge weights together |
| GraphReport.KnotsAreShown | src/scc/knot.rs:24-50 | the detected knots are, each once, exactly the components that are closed, cyclic and not all kernel threads |
| GraphReport.PathIsChain | src/critical_path/mod.rs:38-101 | a path of the condensation is a chain of components of the graph with the same weight |
| GraphReport.ChainIsPath | src/critical_path/mod.rs:38-101 | and every chain of components is such a path |
| GraphReport.CriticalIsShown | src/critical_path/mod.rs:38-101 | the critical path is a real chain of components whose node weights are read off the edges, and no chain of the graph weighs more |
| GraphReport.OneWaitWeighsThrice | src/scc/heuristic.rs:28-44 | a graph of one wait between two threads weighs its delay at either thread and three times that as a chain |
| GraphReport.KnotsCarryOver | src/scc/knot.rs:29-55 | knots depend only on which edges there are |
| GraphReport.CriticalCarriesOver | src/critical_path/mod.rs:38-101 | so does being a critical path |
| GraphReport.KnotsAreDetermined | src/scc/knot.rs:29-55 | two knot lists of one graph have the same size and name the same components |
| GraphReport.CriticalTotalIsDetermined | src/critical_path/mod.rs:73-100 | two critical paths of one graph have the same total |
| GraphAnalysis.AnalyseGraph | src/report.rs:218-227 | on any graph: all its knots, and a heaviest chain unless there is no thread |
| GraphAnalysis.SoundLibraryExists | src/scc/tarjan.rs:87-99 | the specification asked of the two library algorithms can be met |
| EventFormat.EventRoundTrip | src/format/event.rs:88-119 | decoding the 40 bytes of an event gives the event |
| EventFormat.WireRoundTrip | src/format/event.rs:104-119 | every 40-byte block is the encoding of the event it decodes to |
| EventFormat.EventToBytes | src/format/event.rs:88-102 | filling the buffer yields every field at its documented offset, least significant byte first |
| EventFormat.EventIsLaidOut | src/format/event.rs:88-102 | the wire form of an event has every field at its documented offset, byte by byte |
| EventFormat.EventIsRead | src/format/event.rs:104-119 | an event is read from 40 bytes as the little-endian numbers at the documented offsets |
| EventFormat.HeaderIsLaidOut | src/format/header.rs:59-72 | the header byte by byte: "wPRF", version, byte order, architecture, offsets, feature bits, padding |
| EventFormat.HeaderIsRead | src/format/header.rs:79-102 | which 64 bytes are a header, the error otherwise, and the numbers read from it |
| EventFormat.HeaderRoundTrip | src/format/header.rs:59-102 | a header decodes to itself |
| EventFormat.HeaderInPlace | src/format/writer.rs:122-128 | rewriting the header in place leaves the rest of the file alone |
| EventFormat.BookmarkInPlace | src/format/writer.rs:166-178 | overwriting bytes 8 to 15 moves the bookmark and touches nothing else |
| Writer.CreateWriter | src/format/writer.rs:42-54 | a new writer has an empty open file: header, position and bookmark right behind it |
| Writer.WperfWriter.WriteEvent | src/format/writer.rs:58-84 | the file is again the open file of one event more: position, count, bookmark and timestamps included |
| Writer.WperfWriter.WriteEventRaw | src/format/writer.rs:136-158 | raw bytes are appended unchanged and counted as the event they decode to |
| Writer.WperfWriter.UpdateDataOffset | src/format/writer.rs:166-178 | the bookmark moves to the current position, the rest of the file and the position stay |
| Writer.WperfWriter.Finish | src/format/writer.rs:97-130 | the finished file: final header, records, metadata, section table |
| Writer.BookmarkLag | src/format/writer.rs:76-81 | the bookmark covers a multiple of 8192 events and lags at most 8191 records |
| Writer.ParseMetadata | src/format/writer.rs:202-232 | the cursor loop computes the specified parse, truncated entries included |
| Writer.MetadataRoundTrip | src/format/writer.rs:185-232 | parsing the built metadata gives both counts back |
| Bytes.BytesOf | src/format/event.rs:88-102 | the bytes of a 2, 4 or 8 byte field, least significant first |
| Bytes.NumberOf2 | src/format/event.rs:104-119 | two bytes read as first plus 256 times second |
| Bytes.NumberOf4 | src/format/event.rs:104-119 | four bytes likewise |
| Bytes.NumberOf8 | src/format/event.rs:104-119 | eight bytes likewise |
| FileLayout.OpenFileIsLaidOut | src/format/writer.rs:58-84 | a file in the making byte by byte: header, bookmark behind the last full 8192 records, each record 1, 40, 0, 0, 0 and its event |
| FileLayout.FinishedFileIsLaidOut | src/format/writer.rs:97-130 | a finished file byte by byte, with both offsets, metadata entries and section table |
| FileLayout.ReadsUpToBadRecord | src/format/reader.rs:143-185 | behind any well-formed records, a record over 16,777,216 bytes or an event record that is not 40 bytes long is that error, and one past the boundary ends the reading |
| FileLayout.TableEntryIsFound | src/format/reader.rs:214-232 | the first whole 20-byte entry with section number 3 is found, its offset and size read little-endian |
| FileLayout.TableWithoutEntry | src/format/reader.rs:214-238 | without one nothing is found |
| MetadataEntries.EntriesAreParsed | src/format/writer.rs:202-232 | of any entries, with stray bytes or part of an entry behind them, each count is the last eight-byte value under its name |
| MetadataEntries.SectionIsRead | src/format/reader.rs:240-257 | what the section found leads to: the size error, end of file, or the counts parsed |
| MetadataEntries.NoSectionToRead | src/format/reader.rs:200-238 | without a table, or without such an entry in it, there are no counts |
| Reader.Open | src/format/reader.rs:117-132 | header errors are reported, the boundary is the smaller of bookmark and file length |
| Reader.WperfReader.NextEvent | src/format/reader.rs:143-185 | the next event at or before the boundary, skipping unknown records, or the specified error; where the stream stands afterwards in every case |
| Reader.WperfReader.ReadAllEvents | src/format/reader.rs:188-194 | all events up to the boundary or the first error |
| Reader.WperfReader.ReadMetadata | src/format/reader.rs:200-257 | the first metadata section's counts, none without a footer, an error for an oversized or cut payload |
| Reader.WperfReader.Rewind | src/format/reader.rs:261-265 | the position is the start of the data section |
| Reader.RecoversAnyTruncation | src/format/reader.rs:117-185 | any well-formed records (unknown types included), any cut after the header, any bookmark whose boundary does not reach into what follows the records: no error, and exactly the events of the records wholly before the boundary |
| Reader.ReadsPrefix | src/format/reader.rs:143-194 | the same for any bytes that begin like some records |
| Reader.CrashRecovery | src/format/writer.rs:76-81 | a crashed recording, cut anywhere, reads back as the events before both the last bookmark and the cut |
| Reader.FinishedRoundTrip | src/format/writer.rs:97-130 | a finished file reads back as exactly the events written |
| Reader.MetadataUnderTruncation | src/format/reader.rs:200-257 | a finished file cut anywhere after the header gives the exact counts or none, never an error |
| EventOrder.LeAntisymmetric | src/format/event.rs:67-84 | events with equal sort keys are equal, so an unstable sort is deterministic |
| EventOrder.SortedUnique | src/pipeline.rs:87-91 | a multiset of events has one sorted arrangement |
| EventOrder.LeMeaning | src/format/event.rs:67-84 | the order of events is decided by the first differing field of timestamp, pid, tid, prev_tid, next_tid, prev_pid, next_pid, cpu, type, state, flags |
| EventOrder.SortIsUnique | src/pipeline.rs:87-91 | the sort yields that arrangement, the one in order of those fields |
| EventOrder.AscendingInFieldOrder | src/pipeline.rs:87-91 | so does emptying a heap |
| Pipeline.SortUnstable | src/pipeline.rs:87-91 | the sorted trace is the input in order of those fields |
| EventOrder.SortIgnoresOrder | src/pipeline.rs:87-91 | two traces sort to the same sequence exactly when they hold the same events |
| Reorder.ReorderBuf.Push | src/transport/reorder.rs:65-71 | the new buffer, the events flushed in order of their fields, and their number |
| Reorder.ReorderBuf.FlushExpired | src/transport/reorder.rs:77-90 | exactly the leading run at or below the cutoff leaves the heap, in order |
| Reorder.ReorderBuf.Drain | src/transport/reorder.rs:96-104 | everything left comes out in order of the fields and the buffer starts over |
| Reorder.Conservation | src/transport/reorder.rs:65-104 | emitted plus buffered events are always the events pushed |
| Reorder.WindowIsExact | src/transport/reorder.rs:77-90 | after every push everything out is at or below the cutoff, everything buffered strictly newer |
| Reorder.OrderedOutput | src/transport/reorder.rs:65-104 | the whole output is in order (by timestamp, or fully) exactly when no arrival belongs before an earlier one whose timestamp was at or below the cutoff by then |
| Reorder.AgreesWithSort | src/transport/reorder.rs:12-15 | pushes then drain equal the plain sort exactly under the same condition |
| Reorder.OutIsExpired | src/transport/reorder.rs:77-90 | what is out after any arrivals are exactly those at or below the cutoff |
| Reorder.NoWindowSorts | src/transport/reorder.rs:12-15 | for every window the two events of timestamp 0 with pids 1 and 0 do not come out as the plain sort |
| Reorder.SomeInputComesOutUnordered | src/transport/reorder.rs:12-15 | some input comes out with timestamps in disorder exactly for every window below the largest 64-bit value |
| Reorder.BoundedLateness | src/transport/reorder.rs:65-104 | arrivals at or above the prior cutoff keep timestamps in order, strictly above it they reproduce the sort |
| Reorder.ExpiryRules | src/transport/reorder.rs:75-78 | flushing by the documented age rule hands out the same sequence as the code exactly when the newest event is past the first window or nothing of timestamp 0 is buffered |
| Reorder.ExpiryOnPush | src/transport/reorder.rs:65-78 | in every session a push hands out what the documented rule would exactly when the newest event is past the first window or the arrival is not of timestamp 0 |
| Reorder.TimeZeroGoesOutAtOnce | src/transport/reorder.rs:75-78 | a first event of timestamp 0 is handed out at once for every window; the documented rule keeps it for every window above 0 |
| Pipeline.BuildWaitForGraph | src/pipeline.rs:79-103 | reading, sorting and correlating, with reader errors passed on |
| Reports.BuildReport | src/report.rs:202-257 | the report fails only on reader errors; otherwise its edges, statistics and ratio are those fixed by the events, the ratio is the disk's wait over itself or absent, and knots and critical path are those of the reported edges |
| Reports.RunReport | src/report.rs:166-172 | the same for a file: header errors are passed on, the threshold is given in microseconds |
| Reports.FileOrderIsInvisible | src/pipeline.rs:87-91 | the order of events in the file cannot be seen in the reported edges, statistics or ratio |
| Reports.ReportIsDetermined | src/pipeline.rs:87-91 | two reports of traces that hold the same events show the same edges, statistics and ratio, whatever the file order and the drain order |
| Reports.GraphPartIsDetermined | src/report.rs:218-227 | the same edges give the same knots and the same critical path total, whatever the numbering of components |
| Reports.SameEventsInFiles | src/report.rs:202-257 | two readable files that hold the same events have the same report, up to their own drop counts |
| Reports.CutRecordingReport | src/format/writer.rs:76-81 | a recording cut anywhere reports exactly what a finished recording of the recovered events reports, without a drop count |
| Reports.ReorderingIsInvisible | src/transport/reorder.rs:12-15 | recording through the reorder buffer, for any window and lateness, gives the report of recording directly |
| Pipeline.SortedByTime | src/correlate.rs:209-214 | correlation always gets time-ordered input |
| Pipeline.RecordedTrace | src/pipeline.rs:79-91 | events recorded through the reorder buffer, however late, into a finished file come back with their counts and sort to the sorted trace |

## Left out

- petgraph's strongly connected components and topological sort: a parameter
  that meets its specification (mutual-reachability classes as sorted lists;
  every edge points forward). That such results exist is proved.
- `BinaryHeap`, `HashMap`, `BTreeMap` and `sort_unstable`: multisets, maps and
  the mathematical sort.
- I/O errors and torn header writes: the stream is a byte sequence with a
  position, and every write is complete.
- Floating point: a ratio is its two integer sums.
- 64-bit overflow of sums and offsets: natural numbers; the file format theorems
  assume that the offsets fit 64 bits.
- Reports.BuildReport: the `cascade` view is the cascaded edge list itself,
  without its metrics; which of several heaviest chains is reported, and the
  order of the knots, follow the library's numbering and are not fixed.
- The JSON, DOT and SVG forms, argument parsing, the recorder's poll loops and
  the BPF programs.
- CascadeEngine.TransferToTargets: the nested loops of `compute_cascade` are two
  methods, one per loop.
- Pipeline.SortUnstable: a selection loop stands in for the library sort; only
  its result matters.
- The write-only fields that JSON output derives from the counters, and the
  one-time warning for an unknown event type.
