# A verified model of the ARC-AGI-3 exploration agent

This Dafny project models the algorithmic cores of the agent under `src/arc_agi_agent` and
`src/ccode_baseline_v2` and proves what they promise: perception (components, tracking, periods), the
transition graph and its search, the two exploration state machines and the orchestrator that feeds them,
the memory tables and the persistent store, the masks and the ASCII form of grids, and the POI store with
its frontier queue and parallel merge. `dafny verify dfyconfig.toml` checks everything.

Floats are reals, square-root distances are compared as squares, hashes and state keys are opaque strings,
dictionary and set orders are arbitrary, and the environment, the analysts and the language model arrive as
arbitrary inputs. Methods that the source writes as loops or as updates of fields are methods here; each is
proved against a specification on values, and the results below are about those specifications.

| file | what it holds |
|---|---|
| `common.dfy` | finite sets, lists without repeats, counter maps, stable sorting, exact means, decimal text |
| `components.dfy` | grids and connected regions; component extraction; largest area of a colour |
| `tracking.dfy` | greedy matchings; box overlap; tracking between two frames |
| `periodicity.dfy` | periods along an axis |
| `transition_graph.dfy` | walks; breadth-first search; edge statistics and adjacency index |
| `history.dfy` | records, the bounded history and the selection of new entries |
| `simple_frontier.dfy`, `coord_frontier.dfy` | the explorers' counters, untried lists, bans and proposals |
| `orchestrator.dfy` | the step machine that joins both explorers with the history |
| `explorer_run.dfy` | the simple explorer's own loop and its termination |
| `action_memory.dfy`, `memory_tables.dfy`, `memory.dfy` | per-action memory and its merge; bounded tables; the memory state |
| `memory_store.dfy` | run summaries and the two persistent prior tables |
| `masks.dfy`, `ui_bar.dfy`, `hud_probe.dfy` | masks and run-length form; UI-bar detection and filtering; the HUD probe |
| `poi_records.dfy`, `poi_index.dfy`, `hypothesis_store.dfy`, `focused_explorer.dfy` | visits and their logs; the identity index; the store's objects; the queue, sequential and parallel runs |
| `ascii_grid.dfy` | the ASCII printer and its parser |

Where the code and what its callers expect of it part ways, the project states exactly when they agree:

- The history is cut with `history[-N:]`, which keeps everything for N = 0 and too little for N = 1 (a lost
  game adds two records in one step). The simple explorer's state is exact in every run if and only if N = 0 or
  N >= 2, or it has no action to try (`SimpleFrontier.WindowsThatSuffice`). The coordinate explorer returns before
  it counts when no coordinate action is on offer, so its counters are exact in every run if and only if there is
  one and N = 0 or N >= 2 (`CoordFrontier.WindowsThatSuffice`); over runs that only click actions on offer, if and
  only if N = 0, N >= 2 or there is none (`CoordFrontier.WindowsThatSufficeForOffered`).
- Tracking a frame against itself is still if and only if the thresholds accept a perfect overlap
  (`Tracking.SelfTrackingIsStill`; for extracted components `Tracking.ExtractedTrackingIsStill`).
- Merging two memories equals replaying both logs if and only if, for every action in both, the first saw it
  no later than the second (`ActionMemory.MergeMatchesReplay`).
- The bounded tables are least-recently-used while touches are in order, so in particular while steps increase
  (`MemoryTables.IncreasingIsInOrder`); with equal steps a table can drop the row it just touched
  (`MemoryTables.EqualStepsEvictTheLatest`). The touched row survives if and only if it was there,
  there is room or some row sorts before it (`MemoryTables.TouchedRowSurvives`); and the tables of a log hold the
  latest keys under every limit if and only if, at each touch, the keys touched since that key's last touch are
  stamped in the order of the log (`MemoryTables.LatestExactlyInOrder`).
- A batch of detections keeps the identity index a bijection if and only if no re-keying to SELF hits an
  occupied key (`PoiIndex.BatchKeepsIndex`); a save and load restores the index if and only if no record has
  an empty key (`PoiIndex.RestoredIsComplete`).
- The visit limit holds in sequential runs; for a POI within it, it survives the merge of parallel workers if and
  only if at most one worker ran or the POI was no target to begin with (`FocusedExploration.LimitSurvivesMerge`).
- A printed grid parses if and only if it has at most 100 rows, and parses to itself if and only if its
  colours are 0 to 35 (`AsciiGrids.ParseOfPrinted`, `AsciiGrids.RoundTripIsExact`).
- The coordinate backfill, run when no try is on record, adds something if and only if the history holds a
  countable record with a negative or missing step index (`CoordFrontier.BackfillExactly`).

## Model

| member | source | states |
|---|---|---|
| Cells.NeighborsTouch | src/arc_agi_agent/components.py:134-148 | the lists of neighbours hold exactly the cells at distance one, along an axis, and under 8-connectivity also along a diagonal; regions are defined by these distances |
| Components.ExtractComponents | src/arc_agi_agent/components.py:11-62 | the reported components are the same-colour regions of allowed colour and sufficient area, one each, in row-major order of first cell, cut to the first `max_objects` (at least one), with exact area, tight box and mean position |
| Components.Fill | src/arc_agi_agent/components.py:31-49 | the stack fill from an unmarked cell lists its region exactly once per cell and marks exactly that region more |
| Components.LeadersExact | src/arc_agi_agent/components.py:25-62 | the leaders before a position are exactly the first cells of the reportable regions before it, strictly ordered |
| Components.LeadersCover | src/arc_agi_agent/components.py:25-62 | every cell of an allowed colour in a large enough region lies in the region of exactly one leader |
| Components.LeadersDisjoint | src/arc_agi_agent/components.py:25-62 | two reported components never share a cell |
| Components.BoxIsTight | src/arc_agi_agent/components.py:50-58 | the box from the minima and maxima of the coordinates holds the region and touches it on all four sides |
| Components.CentroidInBox | src/arc_agi_agent/components.py:48 | the mean position of a reported component lies inside its box |
| Components.SumLaws | src/arc_agi_agent/components.py:48 | the sum behind the mean is additive over lists and the identity on one number |
| Components.LargestComponentFraction | src/arc_agi_agent/grid_utils.py:53-74 | the fraction is the largest 4-connected area of the colour over the grid size |
| Components.LargestIsOverall | src/arc_agi_agent/grid_utils.py:53-74 | the maximum over the filled regions is the maximum over the regions of all cells of the colour |
| Components.LargestAreaUnique | src/arc_agi_agent/grid_utils.py:53-74 | a grid and a colour have one largest 4-connected area, so the fraction above is determined |
| Components.ExtractionAgreesOnLargest | src/arc_agi_agent/grid_utils.py:53-74 | under 4-connectivity, when nothing was cut off, the largest reported component of a colour has the area the background score uses; when none is reported, every region of the colour is smaller than `min_area` |
| Matchings.GreedyIsMaximal | src/arc_agi_agent/components.py:74-106 | a greedy pairing is one-to-one, respects the match test and leaves no compatible pair unmatched |
| Matchings.MaximalIsHalfOptimal | src/arc_agi_agent/components.py:74-106 | a maximal pairing has at least half as many pairs as any valid one |
| Matchings.SomeOfKindFree | src/arc_agi_agent/components.py:74-106 | among identical objects one is still unused when the loop reaches another of its kind |
| Tracking.BestPartner | src/arc_agi_agent/components.py:78-91 | the inner scan returns an unused compatible object that no other compatible one beats, and none only when there is none |
| Tracking.TakenOverlapsMost | src/arc_agi_agent/components.py:78-91 | no compatible object still free overlaps more than the one taken, and none that overlaps as much is nearer |
| Tracking.TrackComponents | src/arc_agi_agent/components.py:65-131 | the deltas report a greedy pairing: every current object once, in order, then every previous object left over |
| Tracking.DeltasCarry | src/arc_agi_agent/components.py:92-131 | every current object appeared, or was carried over from a compatible previous one: the delta leads from the one centroid to the other and is static exactly when they agree |
| Tracking.LaterDeltasLose | src/arc_agi_agent/components.py:118-131 | past the current objects every delta reports a previous one as gone, with its id, colour and box |
| Tracking.TrackingIsHalfOptimal | src/arc_agi_agent/components.py:65-131 | the reported matches are at least half of any colour- and threshold-respecting matching |
| Tracking.AppearedMinusDisappeared | src/arc_agi_agent/components.py:107-131 | appeared minus disappeared is the change in the number of objects |
| Tracking.IouLaws | src/arc_agi_agent/components.py:151-165 | overlap of boxes lies in [0,1], is symmetric, and is 1 exactly for equal boxes |
| Tracking.IouIsShare | src/arc_agi_agent/components.py:151-165 | the overlap is the number of cells in both boxes over the number of cells in either |
| Tracking.AreaCounts | src/arc_agi_agent/components.py:162-163 | the area of a box is the number of its cells |
| Tracking.DistanceIsEuclidean | src/arc_agi_agent/components.py:167-168 | the squared distance is the sum of the squares of its two legs, each as long as its coordinates differ |
| Tracking.WithinIsDistance | src/arc_agi_agent/components.py:171-182 | comparing squares decides as comparing distances does, negative thresholds included |
| Tracking.AcceptsIdenticalExactly | src/arc_agi_agent/components.py:171-182 | when the match test accepts an object against itself, in terms of the three thresholds |
| Tracking.SelfTrackingIsStill | src/arc_agi_agent/components.py:65-131 | tracking a list against itself reports only static objects with zero displacement exactly when the thresholds accept a perfect overlap (or the list is empty), duplicates included |
| Tracking.ExtractedTrackingIsStill | src/arc_agi_agent/components.py:11-131 | the same for the components extracted from any grid: their boxes are real, so tracking them against themselves is still exactly under these thresholds |
| Periodicity.AxisPeriodicity | src/arc_agi_agent/grid_utils.py:126-148 | the reported periods are exactly the divisors of the size, up to the bound, with which the lines repeat, in increasing order |
| Periodicity.PeriodIsInvariance | src/arc_agi_agent/grid_utils.py:132-147 | a divisor repeats exactly when the lines, wrapped around, are invariant under the shift by it |
| Periodicity.GcdLaws | src/arc_agi_agent/grid_utils.py:132-147 | the greatest common divisor divides both numbers and is divided by every common divisor |
| Periodicity.PeriodsClosedUnderGcd | src/arc_agi_agent/grid_utils.py:132-147 | the periods of an axis are closed under greatest common divisors |
| Periodicity.LeastPeriodDividesAll | src/arc_agi_agent/grid_utils.py:126-148 | the first reported period divides all the others |
| Periodicity.SizeIsPeriod | src/arc_agi_agent/grid_utils.py:126-148 | the size itself is always a period, so the list is empty only when the bound excludes it |
| TransitionGraphs.TransitionGraphStore.AddNode | src/arc_agi_agent/transition_graph.py:16-19 | a new state joins the nodes and the index, a known one changes nothing |
| TransitionGraphs.TransitionGraphStore.AddEdge | src/arc_agi_agent/transition_graph.py:21-53 | the edge map stays exact for the log of transitions and the adjacency index lists each edge key once |
| TransitionGraphs.TransitionGraphStore.BfsPath | src/arc_agi_agent/transition_graph.py:55-80 | for distinct ends a shortest recorded walk when one within the depth exists, and none only when every walk is longer |
| TransitionGraphs.AnswerDecides | src/arc_agi_agent/full_transition_graph.py:58-83 | a path comes back exactly when some recorded walk within the depth exists |
| TransitionGraphs.BumpSummarizes | src/arc_agi_agent/full_transition_graph.py:20-56 | count, exact means, signature counts and the first three example steps of an edge describe the transitions it stands for |
| BreadthFirst.Search | src/arc_agi_agent/transition_graph.py:65-80 | the queue loop over the adjacency index finds a shortest walk or proves every walk longer than the depth |
| BreadthFirst.Expand | src/arc_agi_agent/transition_graph.py:72-79 | expanding a state queues each unseen successor once with a shortest walk to it |
| Walks.CrossingBound | src/arc_agi_agent/transition_graph.py:65-80 | no state outside the seen ones is closer than one step past the nearest unexpanded one |
| Means.RunningMeanIsExact | src/arc_agi_agent/memory.py:935-938 | the incremental mean stays the exact mean of all values so far |
| Means.MergeMeanAdds | src/arc_agi_agent/memory.py:941-945 | the merged mean stands for both sums together |
| Decimals.NaturalReads | src/arc_agi_agent/viz.py:88-89 | the printed digits read back as the number, without a leading zero |
| Decimals.DecimalDetermines | src/arc_agi_agent/memory.py:653 | different integers are printed differently |
| History.NewEntriesOfSuffix | src/arc_agi_agent/simple_explorer.py:448-456 | from any tail of a numbered log, filtering and sorting by step selects exactly the records after the marker that the tail holds |
| History.WindowOfSuffix | src/arc_agi_agent/swarm_orchestrator.py:390-391 | cutting the extended history keeps it a tail of the log, of the window's length once there are enough records |
| SimpleFrontier.RefreshIsExact | src/arc_agi_agent/simple_explorer.py:435-483 | a refresh from a history that still holds everything unseen makes attempts, outcomes, untried lists and marker exact for the whole log, whatever was cut off before; an untried list holds exactly the known actions that are neither exhausted nor hidden by memory |
| SimpleFrontier.RecordedCounters | src/arc_agi_agent/simple_explorer.py:729-744 | recording adds one to exactly one attempt counter and one outcome counter, so outcomes sum to attempts |
| SimpleFrontier.RecordKeepsUntried | src/arc_agi_agent/simple_explorer.py:735-744 | a recorded action leaves its untried list exactly when the record exhausts it, by the attempt cap or a repeated outcome; every other action stays |
| SimpleFrontier.ReorderKeepsExact | src/arc_agi_agent/simple_explorer.py:359-404 | memory takes exactly the blocked actions off a list, unless that is all of them, and never brings one back |
| SimpleFrontier.ChosenIsFresh | src/arc_agi_agent/simple_explorer.py:220-269 | a chosen action is known, not exhausted in the whole log and not hidden; among those it is the one whose turn the step is, or else the first in the order of the ids, however memory sorts them; none is chosen only when there is none |
| SimpleFrontier.NextActionTakes | src/arc_agi_agent/simple_explorer.py:701-717 | the same for any state whose untried lists are exact |
| SimpleFrontier.WideWindowIsExact | src/arc_agi_agent/swarm_orchestrator.py:390-414 | with a window of 0 or at least 2 records every run keeps counters and untried lists exact |
| SimpleFrontier.WindowsThatSuffice | src/arc_agi_agent/swarm_orchestrator.py:390-414 | the state, counters and untried lists, is exact in all runs exactly for these windows, or when there is nothing to try |
| SimpleFrontier.LostGameIsMiscounted | src/arc_agi_agent/swarm_orchestrator.py:396-414 | with any other window a single lost game is miscounted |
| SimpleFrontier.SimpleFrontierState.UpdateFromHistory | src/arc_agi_agent/simple_explorer.py:435-483 | the dictionaries change as the refresh on values says |
| SimpleFrontier.SimpleFrontierState.RecordActionOutcome | src/arc_agi_agent/simple_explorer.py:729-744 | the dictionaries change as one recorded outcome says |
| SimpleFrontier.SimpleFrontierState.EnsureState | src/arc_agi_agent/simple_explorer.py:681-698 | a new state starts with no counts and all actions in rotated order, a known one is left alone |
| SimpleFrontier.RotatedAt | src/arc_agi_agent/simple_explorer.py:693-698 | the rotated order is the cyclic order of the ids from the place the hash gives |
| SimpleFrontier.SimpleFrontierState.ChooseAction | src/arc_agi_agent/simple_explorer.py:220-269 | refresh, registration, memory ordering and choice in that order |
| SimpleFrontier.SimpleFrontierState.BuildFrontierReport | src/arc_agi_agent/simple_explorer.py:272-328 | the report's refresh, registration and ordering, without a choice |
| CoordFrontier.RefreshIsExact | src/arc_agi_agent/full_explorer.py:524-566 | as for the simple explorer, for tries, no-ops, bans, tried coordinates and the marker |
| CoordFrontier.ReportIsExact | src/arc_agi_agent/full_explorer.py:342-381 | a report makes the same counters exact for the whole log when there is a coordinate action |
| CoordFrontier.TrialKeepsTries | src/arc_agi_agent/full_explorer.py:540-566 | each counted record adds one try to its key and action and nothing elsewhere |
| CoordFrontier.TrialKeepsNoops | src/arc_agi_agent/full_explorer.py:540-566 | per-state no-ops are exact and sum to the global no-ops of the key |
| CoordFrontier.TrialKeepsBans | src/arc_agi_agent/full_explorer.py:555-563 | each state's ban list is exactly the keys at or over the no-op threshold |
| CoordFrontier.GlobalNoopsBelowTrials | src/arc_agi_agent/full_explorer.py:540-566 | a key never has more no-ops than tries |
| CoordFrontier.BackfillExactly | src/arc_agi_agent/full_explorer.py:475-503 | the backfill adds something exactly when the history holds a countable record with a missing or negative step |
| CoordFrontier.BackfillIdle | src/arc_agi_agent/full_explorer.py:475-503 | on exact counters and a numbered log the backfill adds nothing |
| CoordFrontier.WindowsThatSuffice | src/arc_agi_agent/swarm_orchestrator.py:390-420 | reported after every step, the coordinate counters are exact in all runs exactly when there is a coordinate action and the window is 0 or at least 2 |
| CoordFrontier.WindowsThatSufficeForOffered | src/arc_agi_agent/full_explorer.py:342-381 | over runs that only take coordinate actions on offer, exactly when the window is 0 or at least 2 or there is none |
| CoordFrontier.ProposalIsUnderCap | src/arc_agi_agent/full_explorer.py:280-339 | a proposed coordinate has been tried fewer times than the cap in the whole log and is banned neither at the state nor globally |
| CoordFrontier.ProposalIsFirstOpen | src/arc_agi_agent/full_explorer.py:280-339 | the proposal is the first candidate the whole log leaves open: of the queue without what was tried at the state since, else of the scored ones, or in the order of memory; none is proposed only when none is open |
| CoordFrontier.PopsFirstOpen | src/arc_agi_agent/full_explorer.py:667-683 | the pop returns the first open candidate and keeps exactly what stands after it |
| CoordFrontier.RefreshQueue | src/arc_agi_agent/full_explorer.py:524-566 | a refresh takes off every queue exactly the candidates tried at its state since the last one |
| CoordFrontier.ReportKeepsChoice | src/arc_agi_agent/full_explorer.py:342-381 | a report in between does not change which candidate a choice at the same state proposes |
| CoordFrontier.FullFrontierState.UpdateFromHistory | src/arc_agi_agent/full_explorer.py:524-566 | the dictionaries change as the refresh on values says |
| CoordFrontier.FullFrontierState.BackfillCoordTrials | src/arc_agi_agent/full_explorer.py:475-503 | the dictionaries change as the backfill on values says |
| CoordFrontier.FullFrontierState.PopCoordCandidate | src/arc_agi_agent/full_explorer.py:667-683 | candidates are dropped from the queue's head up to the first proposable one, which is returned |
| CoordFrontier.FullFrontierState.ChooseAction | src/arc_agi_agent/full_explorer.py:280-339 | the choice and the whole new state are those of the specification |
| Orchestrator.Blackboard.EnsureFreshReports | src/arc_agi_agent/swarm_orchestrator.py:541-560 | right after the freshness refresh every counter and untried list of the simple explorer equals what the entire log calls for, and so does every counter of the coordinate explorer when coordinate actions are on offer; a report of this step is left alone |
| Orchestrator.Blackboard.BuildSimpleReport | src/arc_agi_agent/swarm_orchestrator.py:541-550 | building the simple report brings its counters up to the whole log and stamps it fresh; the explorer's state is that of the report |
| Orchestrator.Blackboard.BuildCoordReport | src/arc_agi_agent/swarm_orchestrator.py:551-560 | the same for the coordinate report, which does not change what would be proposed |
| Orchestrator.Blackboard.UpdatePhase | src/arc_agi_agent/swarm_orchestrator.py:729-745 | done stays done, exploit stays exploit, and probing ends on confidence (mechanic and rule at 0.55, or the goal at 0.70) or an empty budget |
| Orchestrator.Blackboard.ProposeCoord | src/arc_agi_agent/full_explorer.py:280-339 | what the coordinate explorer proposes is its first open candidate, and keeps every key within its attempt cap over the run; it proposes nothing only when nothing is open |
| Orchestrator.Blackboard.ProbeAction | src/arc_agi_agent/swarm_orchestrator.py:748-781 | the choice is the first open coordinate or the simple action whose turn it is; coordinates go first when the history has none at the state or they are asked for, and then decide if any is open, otherwise a simple action does; there is no choice only when neither explorer has anything open; an explorer's state changes exactly when it is asked, and the coordinate one reports again |
| Orchestrator.Blackboard.SelectAction | src/arc_agi_agent/swarm_orchestrator.py:205-234 | a probing step takes a scripted test, else what the frontier chooses, else what the planner offers; another step takes the latter at once; the budget and the proposals are charged accordingly |
| Orchestrator.CoordTrialsCount | src/arc_agi_agent/swarm_orchestrator.py:784-792 | the count that sends coordinates first is positive exactly when the history holds a coordinate action taken at the state |
| Orchestrator.WideEnoughExactly | src/arc_agi_agent/swarm_orchestrator.py:390-414 | the windows the run is modelled for are exactly those under which the simple explorer, once it has actions, is exact in every run |
| Orchestrator.Blackboard.RecordStep | src/arc_agi_agent/swarm_orchestrator.py:390-420 | the log gains the transition, and after a lost game the reset; the run is done exactly when the game ended or the reset failed |
| Orchestrator.Blackboard.StepOnce | src/arc_agi_agent/swarm_orchestrator.py:161-425 | one step takes the action its phase calls for, as above, judged by the whole log and the candidates at its start; it keeps all invariants, appends its transition and the reset after a lost game and nothing else, probes only unconfident and within budget, never again after exploiting, and ends the run exactly when the environment does |
| Orchestrator.Blackboard.Run | src/arc_agi_agent/swarm_orchestrator.py:36-158 | a run, begun with the report at the start, appends exactly the records of its steps and stops with the first outcome that finishes it or after all its steps; over any run probe steps stay within their budget and no coordinate is proposed more often than the cap allows; what memory hides only grows, and is nothing when it never interferes |
| ExplorerRun.PickFrontier | src/arc_agi_agent/simple_explorer.py:747-760 | a state with untried actions that none is ahead of, and none exactly when all are exhausted |
| ExplorerRun.Explorer.TakeStep | src/arc_agi_agent/simple_explorer.py:495-563 | an answered step moves to the answered state, describes both states once, adds one transition to the graph and records the outcome; a failed one changes nothing; each outcome counter stays the count of its graph edge and each attempt counter their sum |
| ExplorerRun.StepAgrees | src/arc_agi_agent/simple_explorer.py:495-563 | one step recorded in the graph and in the counters keeps the two in agreement |
| ExplorerRun.Explorer.GoToFrontier | src/arc_agi_agent/simple_explorer.py:98-139 | leaving an exhausted state walks a shortest recorded route to a leading frontier state, or jumps there when routing is off or no route is short enough, or stops the run for one of its reasons |
| ExplorerRun.Explorer.Iterate | src/arc_agi_agent/simple_explorer.py:92-188 | an iteration at a state with untried actions tries the next one at once; after a walk it tries the next one there; it breaks off only for a reason to end the run |
| ExplorerRun.Explorer.TryNext | src/arc_agi_agent/simple_explorer.py:141-188 | the next action by turn is tried and recorded from the current state; a failed call ends the run |
| ExplorerRun.Explorer.Run | src/arc_agi_agent/simple_explorer.py:89-188 | for every environment the loop ends within `max_steps` steps, and only when the steps or the states are used up, a call fails or no known state has anything untried; of three iterations in a row an environment step comes before the third |
| ActionMemory.EventSignatures | src/arc_agi_agent/memory.py:898-917 | each non-empty kind is counted as often as it occurs; the number of all of them sits under the reserved name |
| ActionMemory.AddSignatures | src/arc_agi_agent/memory.py:681-694 | a record's event counts grow by the observation's, without the total |
| ActionMemory.Record | src/arc_agi_agent/memory.py:596-615 | after one more observation the memory describes the longer log: counts, exact means, signatures, sources, last step |
| ActionMemory.MergeDescribes | src/arc_agi_agent/memory.py:320-348 | the merge of two records describes both lists of observations in sequence |
| ActionMemory.DescriptionIsUnique | src/arc_agi_agent/memory.py:596-615 | a list of observations admits one record only |
| ActionMemory.MergeMatchesReplay | src/arc_agi_agent/memory.py:305-348 | merging the memories of two logs gives the memory of their concatenation exactly when no shared action was last seen later in the first |
| MemoryTables.SortItems | src/arc_agi_agent/memory.py:956-963 | the items sorted by last step, then name |
| MemoryTables.Evict | src/arc_agi_agent/memory.py:956-976 | a table over a positive limit keeps exactly the limit's rows that come last in the eviction order |
| MemoryTables.TouchKeepsRecent | src/arc_agi_agent/memory.py:618-664 | while touches are in order a touch and an eviction leave exactly the most recently touched keys, as many as the limit admits |
| MemoryTables.IncreasingIsInOrder | src/arc_agi_agent/memory.py:956-963 | touches with strictly increasing steps are always in order |
| MemoryTables.HeldExactlyWhenRecent | src/arc_agi_agent/memory.py:956-976 | a touched key is still in the table exactly when fewer than `limit` other keys were touched after it |
| MemoryTables.TenureIsBounded | src/arc_agi_agent/memory.py:956-963 | a row counts at most its key's touches, and all of them when there is no limit |
| MemoryTables.TouchedRowSurvives | src/arc_agi_agent/memory.py:618-664 | whatever the steps, the touched row outlives the eviction exactly when there is no limit, it was in the table, there is room, or some row sorts before it |
| MemoryTables.LatestExactlyInOrder | src/arc_agi_agent/memory.py:956-976 | for any log of touches, the tables hold the latest keys by place in the log under every limit exactly when at each touch the keys touched since that key's own last touch are stamped in order |
| MemoryTables.EqualStepsEvictTheLatest | src/arc_agi_agent/memory.py:956-963 | two touches in one step can evict the later one |
| Memory.TouchStateAction | src/arc_agi_agent/memory.py:618-637 | each held row counts exactly the touches since its key last fell out |
| Memory.TouchCoord | src/arc_agi_agent/memory.py:640-664 | the same for coordinates, with the exact mean of changed cells |
| Memory.CoordKeyDetermines | src/arc_agi_agent/memory.py:653 | two coordinates share a row only when they are equal |
| Memory.ActionKeyDetermines | src/arc_agi_agent/memory.py:545-550 | simple actions of different names have different keys, and so have clicks that differ in a proper id or a coordinate |
| Memory.MemoryState.Update | src/arc_agi_agent/memory.py:35-75 | one update feeds the action record, the state-action table and the action's coordinate table, each exact for what it received; an action without a key changes nothing |
| MemoryStore.ActionEfficacy | src/arc_agi_agent/trajectory_summarizer.py:389-416 | a run's summary encodes, for every action that occurs, its attempts and the exact rates and means of its records |
| MemoryStore.RoundRecovers | src/arc_agi_agent/memory_store.py:131-133 | rounding a value less than one half away from an integer gives that integer |
| MemoryStore.RoundIsNearest | src/arc_agi_agent/memory_store.py:131-133 | rounding gives the nearest integer, and the even one of two equally near |
| MemoryStore.ApproximateRateRecovers | src/arc_agi_agent/memory_store.py:131-133 | a rate whose error adds up to less than one half still decodes to the exact no-op count |
| MemoryStore.CombineAdds | src/arc_agi_agent/memory_store.py:144-158 | combining rows adds attempts, no-ops, changed cells and box areas exactly |
| MemoryStore.UpsertAddsToSum | src/arc_agi_agent/memory_store.py:160-182 | an upsert adds its totals to the sum over its action's rows and to no other action |
| MemoryStore.IngestGlobal | src/arc_agi_agent/memory_store.py:120-159 | every action with attempts gets its row joined with the decoded entry and stamped with the time of the ingest, every other row stays; totals are added once |
| MemoryStore.IngestBySignature | src/arc_agi_agent/memory_store.py:160-182 | the same under the run's signature, time stamp included; every other row stays |
| MemoryStore.Store.IngestRunSummary | src/arc_agi_agent/memory_store.py:99-182 | both tables hold the totals of all runs ingested |
| MemoryStore.Store.GlobalIsSumOfSignatures | src/arc_agi_agent/memory_store.py:120-182 | each global row is the sum and the attempts-weighted mean of its per-signature rows |
| MemoryStore.SummaryKeepsTotals | src/arc_agi_agent/memory_store.py:128-135 | a run summarized and decoded again brings exactly its records' totals |
| MemoryStore.StoreCountsEveryRecord | src/arc_agi_agent/trajectory_summarizer.py:419-450 | the store's totals are those of every record ever summarized |
| Masks.MaskToRuns | src/arc_agi_agent/hud_probe_accumulator.py:70-86 | the runs are sorted, positive, separated, cover exactly the set cells and have lengths summing to the area |
| Masks.CanonicalIsUnique | src/arc_agi_agent/transition_event_compiler.py:357-373 | a mask has one canonical run list only |
| Masks.MaskToRle | src/arc_agi_agent/transition_event_compiler.py:357-373 | the stored form expands back to the mask |
| Masks.CountIsSize | src/arc_agi_agent/transition_event_compiler.py:265-270 | the count of a difference or mask is the number of its true cells |
| UiBar.LargestContiguousRun | src/arc_agi_agent/transition_event_compiler.py:376-391 | the length of the longest stretch of neighbouring columns, whatever their order |
| UiBar.LargestRun | src/arc_agi_agent/transition_event_compiler.py:440-444 | the measured length is at least n exactly when the row has n neighbouring changed cells |
| UiBar.ThresholdLaws | src/arc_agi_agent/transition_event_compiler.py:407-440 | a count reaches the row or run threshold exactly when it reaches the absolute one and falls short of the share of the width by less than one cell |
| UiBar.BestBand | src/arc_agi_agent/transition_event_compiler.py:413-428 | the band with the highest score, then the topmost, then the shortest; none exactly when no row qualifies |
| UiBar.ScoreIsBandCount | src/arc_agi_agent/transition_event_compiler.py:413-428 | the score of a band is the number of its changed cells |
| UiBar.BestHasMost | src/arc_agi_agent/transition_event_compiler.py:413-428 | no band of qualifying rows has more changed cells than the best one; one with as many starts later, or at the same row and is no shorter |
| UiBar.Columns | src/arc_agi_agent/transition_event_compiler.py:446-453 | the columns reach exactly the padding past the first and the last changed column of the band, or the end of the grid; they are the whole width when the band has no change |
| UiBar.LargeShareExactly | src/arc_agi_agent/transition_event_compiler.py:435-438 | the share test passes exactly when the band's changes reach that portion of all changes, with no change at all included |
| UiBar.DetectUiProgressBar | src/arc_agi_agent/transition_event_compiler.py:394-455 | a box comes back exactly when the best band dominates the changes and every row has a long run; the mask is that band's box and covers its changes |
| UiBar.HiddenPlusKept | src/arc_agi_agent/transition_event_compiler.py:266-270 | every changed cell is either hidden by the mask or kept |
| UiBar.BoxHidesBand | src/arc_agi_agent/transition_event_compiler.py:446-455 | the box hides exactly the band's changes |
| UiBar.BarBoundsFiltered | src/arc_agi_agent/transition_event_compiler.py:435-455 | the filtered count is the raw count minus the band's changes, and at most the share of it the band leaves |
| UiBar.GridDelta | src/arc_agi_agent/transition_event_compiler.py:240-302 | the raw count takes every changed cell of the used grids, the filtered one all but those hidden on the primary grid |
| UiBar.DetectAndCount | src/arc_agi_agent/transition_event_compiler.py:70-125 | the detector on the primary grid and the counts together: without a bar nothing is filtered; with one, and no other compared grid of that name and shape, raw minus filtered is exactly the band's changes and filtered is at most the remaining share plus the changes elsewhere |
| HudProbe.CountedMeansChanged | src/arc_agi_agent/hud_probe_accumulator.py:112-117 | a cell's count is positive exactly when some difference of the window sets it |
| HudProbe.EdgeIsNearBorder | src/arc_agi_agent/hud_probe_accumulator.py:21-31 | the four slices mark exactly the cells at most the margin away from a border |
| HudProbe.Candidates | src/arc_agi_agent/hud_probe_accumulator.py:34-67 | the candidate boxes are the tight boxes of the 4-connected support regions of sufficient area |
| HudProbe.KeepActive | src/arc_agi_agent/hud_probe_accumulator.py:157-168 | exactly the boxes that were active in a large enough share of the window are kept, in their order |
| HudProbe.ActiveCellsCount | src/arc_agi_agent/hud_probe_accumulator.py:157-165 | the active cells of a box are counted where the edge band and the difference are both set |
| HudProbe.GameProbe.Observe | src/arc_agi_agent/hud_probe_accumulator.py:94-117 | the counts always tally the last `window` differences; another shape starts over, a finalized probe ignores frames |
| HudProbe.GameProbe.DropOldest | src/arc_agi_agent/hud_probe_accumulator.py:112-114 | dropping the oldest difference takes exactly its cells off the counts |
| HudProbe.GameProbe.SupportMask | src/arc_agi_agent/hud_probe_accumulator.py:137-144 | the rate test marks exactly the edge cells changed at least once in the window |
| HudProbe.GameProbe.Finalize | src/arc_agi_agent/hud_probe_accumulator.py:119-197 | the report's boxes are exactly the HUD boxes, its mask their union, its runs decode to it and sum to its area; it is none exactly when the window is short or no box is active |
| HudProbe.MaskHoldsRegions | src/arc_agi_agent/hud_probe_accumulator.py:175-182 | the decoded mask is set at every cell of the regions behind the reported boxes, and exactly inside the boxes |
| PoiRecords.VisitKeepsSane | src/ccode_baseline_v2/hypothesis_store.py:21-30 | a visit keeps the confidence in [0,1] |
| PoiRecords.RepeatedResults | src/ccode_baseline_v2/hypothesis_store.py:21-30 | after n equal results the confidence is 1 for big changes, 0.2 n more but at most 1 for small ones, 0.3 n less but at least 0 for none, and unchanged for the others |
| PoiRecords.EligibleAfterVisit | src/ccode_baseline_v2/hypothesis_store.py:110-155 | a visited record is a target again exactly after a big change below the limit, if it is reachable and neither SELF nor HUD |
| PoiRecords.ReplayCounts | src/ccode_baseline_v2/hypothesis_store.py:138-155 | replaying a log adds its occurrences to the visit count and leaves its last label and hash |
| PoiRecords.MergeMatchesWorker | src/ccode_baseline_v2/focused_explorer.py:622-630 | applying all visits and then all hashes gives what the worker's own copy went through event by event |
| PoiRecords.VisitsAreBounded | src/ccode_baseline_v2/hypothesis_store.py:110-130 | in a sequential run no POI passes the visit limit |
| PoiRecords.OnlyBigChangesRepeat | src/ccode_baseline_v2/hypothesis_store.py:110-130 | a POI visited again had a big change at every earlier visit |
| PoiRecords.TotalVisitsBounded | src/ccode_baseline_v2/hypothesis_store.py:110-130 | a sequential run makes at most the limit's visits per POI |
| PoiIndex.IndexIsBijection | src/ccode_baseline_v2/hypothesis_store.py:37-40 | in a complete index keys and records determine each other and are equally many |
| PoiIndex.MergeOneKeepsIndex | src/ccode_baseline_v2/hypothesis_store.py:55-90 | one detection keeps the index complete exactly when it does not re-key onto an occupied key |
| PoiIndex.RekeyMoves | src/ccode_baseline_v2/hypothesis_store.py:63-79 | a record first tagged SELF is found under the key of its new colours and size from then on, and its old key is free |
| PoiIndex.PlainKeepsKey | src/ccode_baseline_v2/hypothesis_store.py:63-79 | any other detection of a known key leaves the record's key and the index alone |
| PoiIndex.AreaBinLaw | src/ccode_baseline_v2/hypothesis_store.py:66-67 | the size bin of that key takes four areas together |
| PoiIndex.LostStaysLost | src/ccode_baseline_v2/hypothesis_store.py:65-78 | a record that cannot be found under its key keeps its values and stays unfindable, whatever is detected next |
| PoiIndex.BatchKeepsIndex | src/ccode_baseline_v2/hypothesis_store.py:44-90 | the same for a whole batch |
| PoiIndex.BatchKeepsHistory | src/ccode_baseline_v2/hypothesis_store.py:58-83 | merging preserves a known record's confidence and visit history |
| PoiIndex.BatchShowsLatest | src/ccode_baseline_v2/hypothesis_store.py:58-83 | without re-keys a known record shows the box and colours of its key's last detection, the last known tag, reachability if ever detected, the new version and full priority |
| PoiIndex.BatchBrings | src/ccode_baseline_v2/hypothesis_store.py:84-90 | a key the store did not know gets one record, with the id, confidence and history of its first detection, kept up to date by the later ones |
| PoiIndex.OneRecordPerKey | src/ccode_baseline_v2/hypothesis_store.py:44-104 | one update without re-keys leaves one record for each key known before or brought by the batch |
| PoiIndex.OneRecordPerKeyEverSeen | src/ccode_baseline_v2/hypothesis_store.py:44-104 | after any run of such updates from the empty store there is one record for each identity key ever seen, and the index finds it |
| PoiIndex.BatchSeesKey | src/ccode_baseline_v2/hypothesis_store.py:58-102 | a key the batch does not bring is spared from ageing exactly when some record is re-keyed onto it |
| PoiIndex.BatchSeesItsKeys | src/ccode_baseline_v2/hypothesis_store.py:92-102 | while nothing is re-keyed, exactly the batch's keys are spared from ageing |
| PoiIndex.AbsenceMakesStale | src/ccode_baseline_v2/hypothesis_store.py:92-102 | over any run of updates that neither bring a record's key nor re-key another record onto it, the record keeps everything but its priority, and loses that from the fourth absence in a row when visited and the eighth when not |
| PoiIndex.UpdateKeepsSane | src/ccode_baseline_v2/hypothesis_store.py:84-104 | updates keep every confidence in [0,1] |
| PoiIndex.RemoveKeepsComplete | src/ccode_baseline_v2/hypothesis_store.py:132-136 | removing a record of a complete store with its key leaves every other record findable |
| PoiIndex.SaveLoadRestores | src/ccode_baseline_v2/hypothesis_store.py:159-210 | what was saved loads back to the same records, motion flags reset, and the same index without the empty key |
| PoiIndex.RestoredIsComplete | src/ccode_baseline_v2/hypothesis_store.py:209-210 | the loaded index finds every record exactly when no key is empty |
| HypothesisStores.HypothesisStore.Update | src/ccode_baseline_v2/hypothesis_store.py:44-104 | the record objects and both dictionaries change as the batch on values says; merged plus new is the batch size |
| HypothesisStores.HypothesisStore.MergeInto | src/ccode_baseline_v2/hypothesis_store.py:58-83 | a known record is updated in place and re-indexed when first tagged SELF |
| HypothesisStores.HypothesisStore.GetTargets | src/ccode_baseline_v2/hypothesis_store.py:110-130 | exactly the eligible records, once each, in non-increasing confidence |
| HypothesisStores.HypothesisStore.RecordConsequence | src/ccode_baseline_v2/hypothesis_store.py:138-155 | one visit changes one record, in both dictionaries at once; an unknown id changes nothing |
| HypothesisStores.HypothesisStore.Remove | src/ccode_baseline_v2/hypothesis_store.py:132-136 | the record and the index entry of its key go, whoever holds that entry |
| HypothesisStores.HypothesisStore.Save | src/ccode_baseline_v2/hypothesis_store.py:159-183 | every record is written once |
| HypothesisStores.HypothesisStore.Load | src/ccode_baseline_v2/hypothesis_store.py:185-210 | the store becomes what was saved, in objects of its own |
| HypothesisStores.SaveAndLoad | src/ccode_baseline_v2/hypothesis_store.py:159-210 | a complete store saved and loaded elsewhere is restored there |
| FocusedExploration.FrontierQueue.Refresh | src/ccode_baseline_v2/focused_explorer.py:298-302 | the queue holds exactly the eligible records of the live store, sorted |
| FocusedExploration.FrontierQueue.CurrentTarget | src/ccode_baseline_v2/focused_explorer.py:304-307 | the head of the queue, eligible at that moment, and no eligible record not given up on is more confident; none only when nothing is eligible |
| FocusedExploration.FrontierQueue.MarkVisited | src/ccode_baseline_v2/focused_explorer.py:309-318 | the visit is recorded and the queue is rebuilt for the changed store |
| FocusedExploration.FrontierQueue.Tick | src/ccode_baseline_v2/focused_explorer.py:320-335 | a step without movement counts; at the stuck limit exactly the head is given up on, and the queue rebuilt when that empties it; below it nothing changes |
| FocusedExploration.FocusedExplorer.TakeStep | src/ccode_baseline_v2/focused_explorer.py:454-540 | a step that arrives visits a most confident eligible record among those not given up on, and logs that visit and the new looks; any other step logs nothing; steps without movement are counted, and give up on the target at the limit |
| FocusedExploration.FocusedExplorer.RunSequential | src/ccode_baseline_v2/focused_explorer.py:417-575 | whatever the environment answers, the store is the replay of the log; the log follows the episodes step by step: each arrival logs one visit of an eligible record and the new looks, every other step nothing; episodes that began without a target are counted |
| FocusedExploration.RunIsEligible | src/ccode_baseline_v2/focused_explorer.py:417-575 | every visit in the log of a run went to a record that was eligible at that moment |
| FocusedExploration.RunIsBounded | src/ccode_baseline_v2/focused_explorer.py:417-575 | a sequential run keeps all visit counts within the limit, their total within the limit times the POIs, and confidences in [0,1] |
| FocusedExploration.RunWorker | src/ccode_baseline_v2/focused_explorer.py:636-649 | a worker's logs are those of a run of its episodes; replaying them on the original store reproduces its private copy, and the visits alone reproduce all of it but the pixel hashes |
| FocusedExploration.ReplayRestoresWorker | src/ccode_baseline_v2/focused_explorer.py:622-630 | the same as a law on values |
| FocusedExploration.MergeLogs | src/ccode_baseline_v2/focused_explorer.py:622-630 | the real store replays the collected visits and then the collected hashes |
| FocusedExploration.RunParallel | src/ccode_baseline_v2/focused_explorer.py:577-633 | each worker's log is that of a run of its chunk; after the merge the real store is the replay of all of them in chunk order |
| FocusedExploration.MergedCounts | src/ccode_baseline_v2/focused_explorer.py:622-626 | each POI counts its old visits and its occurrences in all logs, and shows the last result in chunk order |
| FocusedExploration.LimitSurvivesMerge | src/ccode_baseline_v2/focused_explorer.py:577-633 | a POI within the visit limit stays within it after every merge exactly when at most one worker ran or it was no target to begin with |
| AsciiGrids.AsciiGrid | src/arc_agi_agent/viz.py:10-17 | the printed text is the header and one labelled row per grid row |
| AsciiGrids.GridFromAscii | src/arc_agi_agent/grid_utils.py:175-189 | the parser reads the non-blank lines after the first, and fails on ragged rows |
| AsciiGrids.SplitTakesLine | src/arc_agi_agent/grid_utils.py:176 | up to a line end, CR LF counting as one, the text is one line, and what follows is split on its own |
| AsciiGrids.VisibleLinesAreRows | src/arc_agi_agent/grid_utils.py:183-188 | a line becomes a row exactly when it shows something besides white space |
| AsciiGrids.ColumnsLineUp | src/arc_agi_agent/viz.py:10-17 | in a printed grid the glyph of a column stands at the same place in the header and in every row |
| AsciiGrids.GlyphReadsBack | src/arc_agi_agent/viz.py:92-94 | a printed colour reads back modulo 36 |
| AsciiGrids.ParseOfPrinted | src/arc_agi_agent/grid_utils.py:175-189 | parsing a printed grid gives every colour modulo 36 up to 100 rows, and fails for every taller grid |
| AsciiGrids.RoundTripIsExact | src/arc_agi_agent/viz.py:10-17 | up to 100 rows the round trip is the identity exactly for colours 0 to 35 |

## Left out

- Input and output: environment access, command line, files, JSON, SQLite connections and locks, process pools, logging and images; only the map updates and log replays they carry are modelled.
- Hashes: state keys, identity keys and the hash behind a SELF key are opaque values; floating-point rounding appears only in `MemoryStore.ApproximateRateRecovers`.
- `coord_selectors.py`: the coordinate candidates of a state arrive as a list; how they are extracted and scored is not modelled.
- The standalone `full_explorer.run` loop (src/arc_agi_agent/full_explorer.py:94-209): only the stepwise `choose_action` and report path is modelled.
- The memory view behind `_apply_memory_ordering`: which actions it hides and how it orders them is an arbitrary input.
- The planner, rule proposer, mechanic classifier and goal detector: the action they select is an arbitrary input of a step.
- Whether recorded edges are true transitions of the environment: the simple explorer reassigns its current state without moving the environment, so nothing is claimed.
- ExplorerRun.Explorer.Run: a step that raises on a walked route ends the run here; in the source the exception leaves `run` without a report.
- Memory: recent actions, feature windows, template statistics, mechanic priors, views and the fallback of coordinates to the planner's decision; the credited source of an observation arrives resolved.
- `_merge_state_action_stats` and `_merge_coord_heatmaps` (src/arc_agi_agent/memory.py:351-404): they merge tables that may have evicted rows, so no replay law holds for them.
- Memory tables start empty; a state loaded from disk is not modelled.
- The store's hypothesis priors, failure histograms and game memory; a missing task signature, for which SQLite would insert a new row at every ingest.
- MemoryStore.ActionEfficacy: does not model the per-coordinate table, best and worst actions or dominant signatures of the summary, which feed no modelled table.
- UiBar.DetectAndCount: takes the bar filter as enabled and no exclusion mask as given from outside.
- UiBar.GridDelta: does not model palettes, changed colours or the union box, and takes compared frames of equal shape, since what numpy makes of unequal ones (broadcasting or an error) is not modelled.
- HudProbe.GameProbe.Finalize: does not model the reported scores, union box and area fraction, which repeat what the boxes and the mask say; one game's state is modelled, not the dictionary of games.
- HypothesisStores.HypothesisStore.Update: takes detections with ids of their own, as the detector's random ids give; passing a record of the store itself back in is not modelled.
- HypothesisStores.HypothesisStore.Load: takes lists with distinct ids, as saving produces.
- FocusedExploration.FocusedExplorer.RunSequential: does not model the shaped reward, the match detector or episode records, none of which changes the store; arrival at a target is an arbitrary answer.
- AsciiGrids.ParseOfPrinted: a grid without rows parses to no rows; that numpy then forgets its width is not modelled.
- Overlays, labels and images of `viz.py` other than the printed grid.
