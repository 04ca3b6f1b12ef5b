# CPM/PERT scheduling core in Dafny

This project models the scheduling core of `CPM_PERT.py`, a script that reads activities with three-point estimates (optimistic A, most likely M, pessimistic B) and a list of precedent activities, and then computes a Critical Path Method schedule. The model covers:

- how the precedent cell of a row is split into predecessor names;
- the PERT expected time TE = (A + 4M + B)/6 and the variance ((B − A)/6)² of every activity;
- the precedence graph: one node per activity and per named predecessor, one edge per precedence, and default attributes of 0;
- a topological order, computed by Kahn's algorithm, which fails on a cycle;
- the forward pass (earliest start ES and finish EF) and the backward pass (latest start LS and finish LF);
- the critical activities, which are the nodes with ES = LS, and the project total, which is the largest EF;
- the sample variance of the TE of a chosen subset of activities.

Durations, estimates and times are `real`. Names are `string`. A Python dict is modelled as a map together with a sequence of its keys in insertion order. The networkx `DiGraph` becomes a class, `PrecedenceGraph.DiGraph`, with a node list, an edge list and two partial attribute maps. Its methods update these fields.

The two passes are methods whose loops fill maps. Each method is proved equal to a fold over the topological order: `ForwardFrom` or `BackwardFrom`. Each fold is then proved to satisfy the CPM definitions, `EarliestTimes` and `LatestTimes`:

- ES is the largest EF of the predecessors, or 0 when there are none, and EF = ES + duration.
- LF is the smallest LS of the successors, or the total when there are none, and LS = LF − duration.

`ScheduleProperties` proves several consequences:

- Those definitions have exactly one solution.
- Slack is never negative.
- ES is never negative when durations are not.
- When no duration is negative, a non-empty project has a critical activity, and the total is the EF of a node without successors. Without that condition it can fail: with an edge a→b and durations 1 and −5, ES/LS are 0/5 for a and 1/6 for b, so no node is critical.

`Scheduling.Schedule` composes the whole computation. Its error cases are `CycleFound`, which the script raises from `nx.topological_sort`, and `EmptyGraph`, which the script raises as the failure of `max` on an empty dict at line 88.

Some functions have no contract of their own; the lemmas in the table specify them:
- `PrecedentParsing.Join` is specified through `Split` and `SplitJoin`.
- `CriticalPath.MaxOr` and `CriticalPath.MinOr` (the `max`/`min(..., default=)` of lines 69 and 78) are specified through `MaxOrBounds` and `MinOrBounds`.
- `CriticalPath.Lookups` (the `.get` list of lines 69 and 78) is specified through `LookupsEntries`, `MaxOfLookups` and `MinOfLookups`.
- `CriticalPath.StartAfter` and `CriticalPath.ForwardVisit` (one iteration of lines 69-72), and `CriticalPath.ForwardFrom` (the fold over the loop), are specified through `ForwardFromCorrect`, `ForwardPassCorrect` and `ForwardPass`.
- `CriticalPath.FinishBefore`, `CriticalPath.BackwardVisit` (one iteration of lines 78-81) and `CriticalPath.BackwardFrom` are specified through `BackwardFromCorrect`, `BackwardPassCorrect` and `BackwardPass`.

Files:
- `seqs.dfy`: sequence helpers.
- `parsing.dfy`: the predecessor cell.
- `activities.dfy`: records and estimates.
- `results.dfy`: the error type.
- `graph.dfy`: the graph build.
- `toposort.dfy`: Kahn's algorithm.
- `timing.dfy`: both passes, the total and the critical set.
- `timing_properties.dfy`: the schedule properties above.
- `subset.dfy`: the subset statistics.
- `schedule.dfy`: the composition.

## Model

| member | source | states |
|---|---|---|
| PrecedentParsing.Strip | CPM_PERT.py:15 | `str.strip()`: the result neither starts nor ends with whitespace and is no longer than the input |
| PrecedentParsing.StripIsTrimmedInfix | CPM_PERT.py:15 | strip removes only whitespace, and only at the two ends: the result is a contiguous infix with whitespace on both sides |
| PrecedentParsing.StripIdempotent | CPM_PERT.py:17 | stripping twice is the same as stripping once |
| PrecedentParsing.StripEmptyIffAllSpace | CPM_PERT.py:17 | `p.strip()` is falsy exactly when the piece is all whitespace |
| PrecedentParsing.Split | CPM_PERT.py:16 | `split(',')` yields at least one piece, no piece contains a comma, and joining the pieces with commas gives back the cell |
| PrecedentParsing.SplitJoin | CPM_PERT.py:16 | the other half of the round trip: splitting the comma-join of comma-free pieces gives back the pieces |
| PrecedentParsing.CleanPieces | CPM_PERT.py:17 | the comprehension keeps exactly the stripped pieces that are non-empty and not `nan`, and each kept name is stripped |
| PrecedentParsing.CleanPiecesCounts | CPM_PERT.py:17 | each kept piece appears exactly as often as among the stripped pieces, repeats included, and every other piece appears zero times |
| PrecedentParsing.CleanPiecesInOrder | CPM_PERT.py:17 | the kept names are a subsequence of the stripped pieces, in their left-to-right order |
| PrecedentParsing.ParsePredecessors | CPM_PERT.py:16-17 | every predecessor name is non-empty, not `nan`, stripped and comma-free; the names are exactly the kept pieces of the split cell, each as often as it occurs there |
| PrecedentParsing.MissingCellHasNoPredecessors | CPM_PERT.py:16-17 | a missing cell, read as `nan`, and an empty cell both give no predecessors |
| Activities.ExpectedTime | CPM_PERT.py:37 | when o ≤ m ≤ p, TE lies between o and p; when all three estimates agree, TE equals them |
| Activities.Variance | CPM_PERT.py:38 | the variance is never negative, and it is 0 when o = p |
| Activities.ComputeEstimates | CPM_PERT.py:35-41 | the loop writes TE and variance for every record and for nothing else, each computed from that record's own estimates |
| PrecedenceGraph.PredList | CPM_PERT.py:69 | `G.predecessors(v)` lists exactly the sources of the edges into v |
| PrecedenceGraph.SuccList | CPM_PERT.py:78 | `G.successors(u)` lists exactly the targets of the edges out of u |
| PrecedenceGraph.DiGraph.constructor | CPM_PERT.py:48 | a new graph has no nodes, no edges and no attributes |
| PrecedenceGraph.DiGraph.AddNode | CPM_PERT.py:52 | `add_node` appends the node only if it is new and sets both attributes, replacing earlier ones; edges do not change |
| PrecedenceGraph.DiGraph.AddEdge | CPM_PERT.py:54 | `add_edge` appends each endpoint that is new, then the edge unless it is already present; attributes do not change |
| PrecedenceGraph.DiGraph.FillDefaults | CPM_PERT.py:57-61 | afterwards every node has a duration and a variance; a node that had one keeps it and a node that lacked one gets 0; nodes and edges do not change |
| PrecedenceGraph.AddActivity | CPM_PERT.py:52-54 | one loop iteration adds the activity with its attributes, then one edge from each listed predecessor to it, in order |
| PrecedenceGraph.AddActivities | CPM_PERT.py:51-54 | the build loop leaves the nodes, edges and attributes that the fold over the activities in dict order describes |
| PrecedenceGraph.GraphNodeSet | CPM_PERT.py:51-54 | the nodes are distinct, and they are exactly the activity names together with every name listed as a predecessor, including names that have no record |
| PrecedenceGraph.GraphEdgeSet | CPM_PERT.py:53-54 | the edges are distinct, and there is an edge u→v exactly when v is an activity that lists u as a predecessor |
| PrecedenceGraph.AttrsAfterEntries | CPM_PERT.py:52 | the build loop gives each activity the attribute taken from its own record and gives no other name an attribute |
| PrecedenceGraph.BuildGraph | CPM_PERT.py:48-61 | the built graph has a duration and a variance on every node: an activity's own TE and variance, or 0 for a name that is only a predecessor |
| TopologicalOrder.OrderGivesReadyNode | CPM_PERT.py:68 | whenever some topological order exists, one of the unplaced nodes has all of its predecessors placed |
| TopologicalOrder.TopologicalSort | CPM_PERT.py:68 | the result lists every node exactly once with every edge pointing forward; it fails, with CycleFound, only when no such order exists |
| CriticalPath.MaxOrBounds | CPM_PERT.py:69 | `max(xs, default=d)` gives d when xs is empty, and otherwise an element of xs that no element exceeds |
| CriticalPath.MinOrBounds | CPM_PERT.py:78 | `min(xs, default=d)` gives d when xs is empty, and otherwise an element of xs that is no larger than any element |
| CriticalPath.LookupsEntries | CPM_PERT.py:69 | `[m.get(k, d) for k in keys]` has one entry per key: that key's value, or d when the key is absent |
| CriticalPath.MaxOfLookups | CPM_PERT.py:69 | when all keys are present, the maximum lookup bounds every key's value and equals the value of one of them |
| CriticalPath.MinOfLookups | CPM_PERT.py:78 | when all keys are present, the minimum lookup is bounded by every key's value and equals the value of one of them |
| CriticalPath.ArgMax | CPM_PERT.py:88 | `max(keys, key=m.get)` is one of the keys, with a value no smaller than any other key's |
| CriticalPath.TotalDuration | CPM_PERT.py:88 | the result fails with EmptyGraph exactly when there are no keys; otherwise it bounds every EF and equals the EF of some node |
| CriticalPath.ForwardFromCorrect | CPM_PERT.py:68-72 | visiting nodes, a node only after its predecessors, keeps the identities ES = max(EF of predecessors, default 0) and EF = ES + duration for every visited node |
| CriticalPath.BackwardFromCorrect | CPM_PERT.py:77-81 | visiting nodes in reverse, a node only after its successors, keeps the identities LF = min(LS of successors, default total) and LS = LF − duration for every visited node |
| CriticalPath.EquationsGiveEarliest | CPM_PERT.py:69-70 | those identities on every node give the CPM earliest times: ES is 0 without predecessors and otherwise the largest predecessor EF, and EF(u) ≤ ES(v) on every edge u→v |
| CriticalPath.EquationsGiveLatest | CPM_PERT.py:78-79 | those identities on every node give the CPM latest times: LF is the total without successors and otherwise the smallest successor LS, and LF(u) ≤ LS(v) on every edge |
| CriticalPath.ForwardPassCorrect | CPM_PERT.py:66-72 | the fold along a topological order yields the earliest times of every node, with EF(u) ≤ ES(v) on every edge |
| CriticalPath.BackwardPassCorrect | CPM_PERT.py:75-81 | the fold along the reversed topological order yields the latest times of every node for the given total, with LF(u) ≤ LS(v) on every edge |
| CriticalPath.ForwardPass | CPM_PERT.py:66-72 | the loop fills `earliest_start` and `earliest_finish` with the fold over the topological order, which makes them the earliest times, with EF(u) ≤ ES(v) on every edge |
| CriticalPath.BackwardPass | CPM_PERT.py:75-81 | the loop fills `latest_start` and `latest_finish` with the fold along the reversed order, using the largest EF as the total; these are the latest times, with LF(u) ≤ LS(v) on every edge; a graph with no nodes leaves both maps empty |
| CriticalPath.CriticalNodes | CPM_PERT.py:84 | a node is on the critical path exactly when its ES equals its LS, and the critical nodes keep the graph's node order |
| CriticalPath.CriticalFlags | CPM_PERT.py:85 | every node gets a flag, and the flag is true exactly when the node has ES = LS |
| ScheduleProperties.NeighboursAreOrdered | CPM_PERT.py:68-81 | in a topological order a node's predecessors all come before it and its successors all come after it, so neither the `.get` default on line 69 nor the one on line 78 is ever taken |
| ScheduleProperties.EarliestNonNegative | CPM_PERT.py:69-70 | when no duration is negative, every ES is at least 0 and every EF is at least its ES |
| ScheduleProperties.FinishSlackAt | CPM_PERT.py:78-79 | for any total no smaller than every EF, a node's EF never exceeds its LF |
| ScheduleProperties.SlackNonNegative | CPM_PERT.py:69-81 | ES ≤ LS and EF ≤ LF for every node, whatever the signs of the durations |
| ScheduleProperties.LatestWithinTotalAt | CPM_PERT.py:78 | when no duration is negative, no LF exceeds the total |
| ScheduleProperties.ZeroSlackAtTotal | CPM_PERT.py:84-88 | when no duration is negative, a node whose EF is the total has ES = LS |
| ScheduleProperties.CriticalPathExists | CPM_PERT.py:84-88 | when no duration is negative, a non-empty project has at least one critical activity |
| ScheduleProperties.SinkReachedAt | CPM_PERT.py:69-70 | when no duration is negative, every node has a node without successors whose EF is at least as late |
| ScheduleProperties.TotalIsSinkFinish | CPM_PERT.py:88 | when no duration is negative, the total is the EF of a node without successors |
| ScheduleProperties.EarliestUnique | CPM_PERT.py:66-72 | any two assignments of earliest times to the same graph and durations are equal, so the forward pass computes the only one |
| ScheduleProperties.LatestUnique | CPM_PERT.py:75-81 | any two assignments of latest times for the same total are equal, so the backward pass computes the only one |
| Scheduling.Schedule | CPM_PERT.py:35-88 | the whole computation fails with EmptyGraph exactly when there are no activities, and with CycleFound only when no topological order exists; otherwise it yields the graph the source builds, with its durations, the earliest and latest times, the total as the largest EF, and the critical set and flags; when every record has 0 ≤ A ≤ M ≤ B, the critical set is non-empty and the total is the EF of a node without successors |
| SubsetStats.KnownNames | CPM_PERT.py:148 | the names kept are exactly the requested names that have a record, in request order |
| SubsetStats.KnownNamesCounts | CPM_PERT.py:148 | a requested name with a record is kept as often as it is requested, repeats included, and a name without one is never kept |
| SubsetStats.SubsetTimes | CPM_PERT.py:148 | the k-th collected time is the TE of the k-th requested name that has a record |
| SubsetStats.SquaredDeviations | CPM_PERT.py:152 | a sum of squared deviations is never negative |
| SubsetStats.SampleVariance | CPM_PERT.py:152 | `statistics.variance` of at least two values is never negative |
| SubsetStats.SubsetVariance | CPM_PERT.py:148-156 | the subset variance is never negative, and it is 0 when at most one requested name has a record |
| SubsetStats.KnownNamesSuffice | CPM_PERT.py:148 | unknown names are ignored: requesting only the known names gives the same times and the same variance |
| SubsetStats.UnknownNameIgnored | CPM_PERT.py:148 | appending a name that has no record changes neither the times nor the variance |
| SubsetStats.ConstantTimesHaveNoVariance | CPM_PERT.py:152 | when all collected times are equal, their sample variance is 0 |

## Left out

- Reading the spreadsheet with `pd.read_excel` (lines 12-14 and 18-28) is I/O. The activity records are a parameter, a `Store` holding the dict together with its insertion-ordered keys. What a repeated activity name in the sheet does to the dict is not modelled. Line 15 is modelled only as far as `Strip` goes.
- `std_dev = sqrt(variance)` (line 39), the `std_dev` node attribute (lines 52 and 62-63) and `statistics.stdev` (line 153) produce irrational results and are not modelled.
- Python floats are modelled as exact reals. Rounding is not modelled, so neither is its effect on the exact equality ES == LS at line 84.
- The two tables, the printed output and `tabulate` (lines 90-118 and 158-170) are output only. The KeyError that line 96 raises for a predecessor-only node is part of that output and is not modelled.
- The PERT probability section (lines 121-139) is not modelled. It uses `scipy.stats.norm.cdf`, a foreign floating-point call. It also reads `total_standard_deviation`, a name the script never defines, so line 121 raises NameError.
- `networkx` internals are not modelled. `nx.topological_sort` is replaced by Kahn's algorithm. The model may choose a different valid order than networkx, but `ScheduleProperties.EarliestUnique` and `ScheduleProperties.LatestUnique` show that the order cannot change the times. The exception networkx raises on a cycle becomes `Err(CycleFound)`. Edges are an insertion-ordered, duplicate-free sequence. `G.predecessors` and `G.successors` are filters over it.
- CriticalPath.BackwardPass: the total `earliest_finish[max(earliest_finish, key=earliest_finish.get)]` is computed once before the loop, whereas line 78 evaluates it again for every node. `earliest_finish` does not change during that loop, so the value is the same.
- CriticalPath.ArgMax: the contract does not state that the first of several keys with the largest value is returned. The body does return the first, as `max` does, but the total uses only the value.
- Activities.Variance: the contract does not state the converse, that the variance is 0 only when o = p. SubsetStats.SampleVariance does not state that the variance is 0 only when all values are equal. The solver's nonlinear real arithmetic does not prove strict positivity of a square through a function.
- Activities.ComputeEstimates: TE and the variance are returned as a map beside the records rather than written back into the record dicts.
