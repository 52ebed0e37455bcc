# Verified model of the Battlesnake engine's algorithmic layer

A Dafny model of the exact algorithms of the C engine in `battlesnake/c-core` and of the
conservative prefilter in `tools/check_duel_structural_policy.py`. Boards are values; one
declarative joint move is the base, and both implementations of it, the in-place make and
unmake over heap-owned arrays and the clone-and-apply, are proved against it. On top of it
stand the safety test, the proof searches, the graph and time searches, the certificates
about routes and cycles, the matrix solver, alpha-beta and the selection of a root move.

`dafny verify dfyconfig.toml` checks the whole project.

## How it is organised

| files | what they hold |
|---|---|
| `Limits`, `Counting`, `Remainders`, `Optional`, `Outcomes`, `Graphs`, `Grid` | machine limits, cardinalities, remainders, missing values, outcomes and bounds, walks in finite graphs, the two coordinate systems |
| `Boards` | boards as values and the declarative joint move, with causes of death |
| `Occupancy`, `HeadToHead`, `CloneStep`, `SafeMoves` | the run invariant, the head-to-head pass, clone-and-apply, the one-step safety test |
| `SearchState`, `Interleavings` | the mutable board with its undo stack, as a class |
| `ForcedLoss`, `Replies` | the forced-loss prover and why it may ignore some replies |
| `FloodFill`, `Capacity`, `Prefilter`, `ShortRecords` | flood fill, two-core peeling, relaxed capacity, its lower bound and when that can be trusted |
| `LowLink`, `ChokePoints`, `ChokeSearch`, `BlockedRoots`, `BoardChokePoints`, `CellMarks` | choke points by an iterative low-link search, from open and from blocked heads |
| `TimeWindows`, `TimeSearch`, `VacateTimes`, `OpponentArrival`, `SearchOrder`, `SpaceTime`, `TailFlags` | reachability in time, and when the tail and death flags can be trusted |
| `BestFirst`, `AStar`, `BoardPaths` | shortest paths |
| `SoloRuns`, `Rounds` | runs of one snake, and going round a closed loop for ever |
| `Lasso`, `LassoValidation`, `LassoLimits` | bounded lassos |
| `Perimeter`, `PerimeterCycles`, `Circulation` | the perimeter certificate |
| `FoodTiming` | promotion times and food delays |
| `LinearSystems`, `Supports`, `MatrixGames` | zero-sum matrix games |
| `AlphaBeta`, `JointMoves`, `GameTrees`, `SearchFolds`, `Minimax`, `StepDuels` | alpha-beta on trees and on the mutable board, and where the survival step misleads it |
| `RootComparison`, `RootSelection`, `RootFallback`, `RootDecisions`, `TiedRoots` | comparing and selecting root moves, what the choice is worth, and a tie that misleads it |

Loops and in-place updates of the source are methods with loops over arrays or class fields;
their contracts tie the result to specification functions, about which the lemmas speak.
Clocks and interruptions are arbitrary functions of a counter that no two checks share, tie-breaks and move ordering
arbitrary functions of the search so far, evaluations an arbitrary function of the board.
Scores, payoffs and tolerances are real numbers.

## What the proofs found

- Clone-and-apply removes every copy of an eaten food cell, the in-place step only the first:
  they agree exactly when no eaten cell is listed twice (`CloneStep.CloneAgreesWithStep`).
- A safe step is fatal at health 1 unless the target is food, and onto a tail that is stacked under
  another segment (`SafeMoves.SafeStepExactly`, `SafeMoves.StackedTailIsFatal`).
- Choke points are exact when the head cell is open. From a blocked head, which a weak snake on a
  hazard has, none is missed, but the first neighbour listed in each component and vertices cut
  off only from it are reported too (`BoardChokePoints.CoreChokePoints`,
  `BoardChokePoints.BlockedHeadPoints`, `BoardChokePoints.HeadOnHazardOverReports`).
- A proved lasso can be followed for ever exactly when the ruleset is not constrictor and the body
  and the food items left on the loop after one replay fit there (`Lasso.LoopsForeverExactly`):
  the validator neither looks at the ruleset nor counts items beyond the first round
  (`LassoLimits.RepeatedFoodCollides`).
- The perimeter certificate counts cells with food, not items, and does not look at the ruleset.
  Food listed several times on the border and constrictor growth defeat it
  (`Circulation.CertificateCountsCells`); the exact condition is `Circulation.CirculatesExactly`.
- The prefilter can be trusted exactly when recorded lengths cover bodies
  (`ShortRecords.RecordMustCover`).
- Alpha-beta scores a win or loss again for every turn it is passed up, while the window stays
  where it was. Its flags are truthful on all boards exactly when the survival step is zero
  (`StepDuels.BoardFlagsTrueWithoutStep`); with a step they still are when decided positions
  two or more turns away are draws (`Minimax.SearchRoot`).
- Even after an exact search the selected root need not be optimal: a cut-off move is recorded with
  the best score as an upper bound, and may win the tie-break (`TiedRoots.TieMisleads`). The
  selection can be relied on exactly when all moves left to the tie-breaks are recorded exactly
  with the highest score (`RootDecisions.OptimalExactly`).
- The space-time search stops with the last cell to be reached. When the tail lies under the head,
  every return to that cell after the last arrival is then missed, and one at the same time is
  noticed exactly when it is discovered before the last cell (`SpaceTime.SearchIsExact`). The tail
  flag is right on all boards exactly when the tail is not under the head, or never leaves; the
  death flag goes wrong with it unless the recorded length is too small (`TailFlags.FlagRightExactly`, `TailFlags.DeathRightExactly`).

## Model

| member | source | states |
|---|---|---|
| Grid.NeighborsAreSteps | battlesnake/c-core/core/core_algorithms.c:548-563 | the index neighbours a search lists are exactly the in-bounds cells one direction away, so the index and the coordinate view of the board have the same edges |
| Grid.GridGraphWellFormed | battlesnake/c-core/core/core_algorithms.c:548-563 | the cell graph stays inside the board and is symmetric |
| Boards.CausesExplainDeaths | battlesnake/c-core/core/search_state.c:227-270 | a snake survives a joint move exactly when no cause of death is recorded for it |
| Occupancy.StepKeepsPlacement | battlesnake/c-core/core/search_state.c:197-270 | one joint move, whatever it is, keeps the surviving bodies in bounds, pairwise disjoint and free of repetition |
| Occupancy.RunKeepsPlacement | battlesnake/c-core/core/search_state.c:322-395 | the placement invariant over every run of joint moves, of any length |
| Occupancy.RunFitsOnBoard | battlesnake/c-core/core/search_state.c:322-395 | however long the run, the total length of the living snakes is at most width times height |
| HeadToHead.PassEnds | battlesnake/c-core/core/search_state.c:245-270 | the order-dependent pairwise loop leaves alive exactly the snakes strictly longer than every other standing snake on their cell |
| HeadToHead.PassComparesPair | battlesnake/c-core/core/search_state.c:250-268 | one comparison of the loop keeps the invariant that says which pairs are settled |
| CloneStep.CloneAndApply | battlesnake/c-core/datatypes/board.c:311-445 | the clone-and-apply loop computes the declarative step, with every copy of an eaten food cell removed |
| CloneStep.CloneAgreesWithStep | battlesnake/c-core/datatypes/board.c:414-438 | clone-and-apply and the in-place step give the same board if and only if no food cell that a snake moves onto is listed twice |
| SafeMoves.IsSafe | battlesnake/c-core/datatypes/board.c:213-285 | the loop decides the declarative safety predicate: target on the board, not on a body that stays, no fatal hazard, no rival of sufficient length within one step |
| SafeMoves.SafeMoveList | battlesnake/c-core/datatypes/board.c:287-300 | the list of safe directions in engine order |
| SafeMoves.SafeStepSurvives | battlesnake/c-core/datatypes/board.c:213-285 | a step judged safe survives an assignment of directions to the other snakes if and only if health is at least 2 or the target is food, and the target lies on no segment but last ones that leave it; bodies may be stacked |
| SafeMoves.SafeStepExactly | battlesnake/c-core/datatypes/board.c:213-285 | when different snakes lie on different cells: if and only if health is at least 2 or the target is food, and the target is on no body without its last segment |
| SafeMoves.SafeTargetNotOnTrunk | battlesnake/c-core/datatypes/board.c:213-285 | where no bodies overlap, no target judged safe is on a body without its last segment, so health alone decides |
| SafeMoves.StackedTailIsFatal | battlesnake/c-core/datatypes/board.c:213-285 | a board on which a step judged safe onto a stacked tail is fatal |
| SafeMoves.SafeMoveKeepsSnakeAlive | battlesnake/c-core/datatypes/board.c:311-445 | under that condition the snake is on the next board in both implementations of the step |
| SearchStates.CoreSearchState.constructor | battlesnake/c-core/core/search_state.c:288-298 | the mutable board starts as a one-board stack with bodies of its own |
| SearchStates.CoreSearchState.MakeMovesDetailed | battlesnake/c-core/core/search_state.c:322-395 | make pushes the declarative step of the top board, keeps ownership and all saved boards, and reports the causes of death |
| SearchStates.CoreSearchState.Unmake | battlesnake/c-core/core/search_state.c:401-434 | unmake pops to an identical board, also of the snakes and food removed in between; on an empty undo stack it reports failure and changes nothing |
| SearchStates.CoreSearchState.RestoreFrame | battlesnake/c-core/core/search_state.c:401-434 | the saved food always fits the live food buffer, so the assertion of the source cannot fail |
| SearchStates.CoreSearchState.AdvanceSnakes | battlesnake/c-core/core/search_state.c:339-363 | the in-place movement loop matches the declarative movers: bodies shifted, health, growth, eaten food, deaths and causes |
| SearchStates.CoreSearchState.ResolveBodyCollisions | battlesnake/c-core/core/search_state.c:227-243 | body collisions in place, with their causes |
| SearchStates.CoreSearchState.ResolveHeadCollisions | battlesnake/c-core/core/search_state.c:245-270 | head-to-head collisions in place, with their causes |
| SearchStates.CoreSearchState.CompactLiveSnakes | battlesnake/c-core/core/search_state.c:272-286 | stable compaction keeps exactly the survivors, in order |
| SearchStates.CoreSearchState.ApplyFoodRemoval | battlesnake/c-core/core/search_state.c:187-195 | stable removal of the eaten items |
| Interleavings.Perform | battlesnake/c-core/core/search_state.c:322-434 | any script of makes and unmakes leaves the stack that the script gives on immutable boards |
| Interleavings.BalancedRestores | battlesnake/c-core/core/search_state.c:322-434 | a script that unmakes everything it makes restores every board of the stack |
| Interleavings.StackShrinks | battlesnake/c-core/core/search_state.c:401-434 | snake and food counts only shrink going up the stack |
| ForcedLoss.CommandMoveList | battlesnake/c-core/core/core_algorithms.c:120-139 | the command moves of a snake, in engine order |
| ForcedLoss.ForcedLossNode | battlesnake/c-core/core/core_algorithms.c:3904-3970 | proven implies a forced loss within the depth and not proven an escape strategy; the work is at most a tree of sixteen branches a turn, and when that fits the budget and the clock never strikes, proven is equivalent to a forced loss and not proven to an escape strategy; the board is restored and the budget overrun by at most 16 per turn |
| ForcedLoss.RefuteRootMove | battlesnake/c-core/core/core_algorithms.c:3972-4021 | the same for one root move: bounded work, and both answers exact when it fits the budget; a root without opposing commands is unknown |
| ForcedLoss.EscapeIsFinal | battlesnake/c-core/core/core_algorithms.c:3904-3970 | an escape strategy contradicts a forced loss at every depth, however much greater |
| ForcedLoss.ForcedLossPersists | battlesnake/c-core/core/core_algorithms.c:3904-3970 | a forced loss stays forced when more turns are allowed |
| Replies.LeftOutReplyNeverForces | battlesnake/c-core/core/core_algorithms.c:120-139 | a reply left out of the command moves kills the replier and so never forces the loss |
| Replies.PruningIsLossless | battlesnake/c-core/core/core_algorithms.c:120-139 | searching only command moves decides the game with all four replies |
| FloodFill.Flood | battlesnake/c-core/core/core_algorithms.c:1980-1998 | the flood counts exactly the connected component of the start |
| FloodFill.PeelLowers | battlesnake/c-core/core/core_algorithms.c:2031-2038 | lowering one neighbour keeps degrees and the marks outside every core |
| FloodFill.FringeOutsideCores | battlesnake/c-core/core/core_algorithms.c:2006-2040 | a cell with fewer than two neighbours left belongs to no set whose members have two neighbours each |
| FloodFill.Peel | battlesnake/c-core/core/core_algorithms.c:2003-2041 | peeling, each cell queued at most once, tells whether the start lies in the two-core of its component |
| FloodFill.PeelingEnds | battlesnake/c-core/core/core_algorithms.c:2023-2041 | what is left after peeling is exactly the union of all sets whose members have two neighbours each |
| Capacity.BlockBody | battlesnake/c-core/core/core_algorithms.c:1970-1979 | the body is blocked except for the head cell |
| Capacity.RelaxedStaticCapacity | battlesnake/c-core/core/core_algorithms.c:1945-2047 | the capacity is the size of the head's component, and the flag tells membership in its two-core; zero for a missing snake or an invalid board |
| Prefilter.FloodCapacity | tools/check_duel_structural_policy.py:585-606 | the set-and-deque flood counts the cells reachable from the target |
| Prefilter.EvaluateCommand | battlesnake/c-core/core/core_algorithms.c:1861-1905 | the engine's evaluation of one command on the relaxed one-snake position |
| Prefilter.BoundIsConservative | tools/check_duel_structural_policy.py:554-606 | for every board and command the bound over all occupied cells is at most the engine's relaxed capacity after the command |
| Prefilter.ShouldRunDiagnostics | tools/check_duel_structural_policy.py:528-582 | diagnostics are skipped exactly when no evaluated command has a surviving reply or every evaluated command's bound fits |
| Prefilter.FittingCommandIsNotDeficient | tools/check_duel_structural_policy.py:528-582 | a command whose bound fits has engine capacity of at least its post-move length when the recorded length covers the body |
| ShortRecords.ShortRecordMisleads | tools/check_duel_structural_policy.py:579-581 | for every body and every shorter record there is a board on which a fitting command is deficient |
| ShortRecords.RecordMustCover | tools/check_duel_structural_policy.py:528-582 | fitting commands are safe on all boards if and only if the recorded length covers the body |
| LowLink.StartKeeps | battlesnake/c-core/core/core_algorithms.c:6520-6524 | the initial arrays satisfy the low-link invariant |
| LowLink.SkipKeeps | battlesnake/c-core/core/core_algorithms.c:6545-6549 | passing over a blocked neighbour keeps the invariant |
| LowLink.DiscoverKeeps | battlesnake/c-core/core/core_algorithms.c:6550-6555 | discovering a neighbour keeps the invariant: times, tree, nesting, low-links and reports |
| LowLink.BackEdgeKeeps | battlesnake/c-core/core/core_algorithms.c:6556-6558 | a back edge keeps the invariant |
| LowLink.FinishKeeps | battlesnake/c-core/core/core_algorithms.c:6562-6571 | finishing a vertex and reporting to its parent keeps the invariant |
| ChokePoints.NoCrossEdges | battlesnake/c-core/core/core_algorithms.c:6526-6572 | no edge joins different subtrees of the finished search |
| ChokePoints.FoundIsReachable | battlesnake/c-core/core/core_algorithms.c:6526-6572 | the search finds exactly what is reachable |
| ChokePoints.ApexComponent | battlesnake/c-core/core/core_algorithms.c:6526-6572 | what lies below the open root, or below a child of the blocked root, is exactly its open component |
| ChokePoints.HangingCuts | battlesnake/c-core/core/core_algorithms.c:6568-6570 | a subtree that cannot climb above the vertex it hangs on is cut off from the top of its component when that vertex is blocked |
| ChokePoints.AroundVertex | battlesnake/c-core/core/core_algorithms.c:6568-6570 | when no subtree hangs on a vertex, every other vertex of the component is reached around it |
| ChokePoints.ReportsCutVertices | battlesnake/c-core/core/core_algorithms.c:6526-6575 | in each component the finished search reports exactly the cut vertices as seen from its top |
| ChokePoints.ReportsApex | battlesnake/c-core/core/core_algorithms.c:6568-6570 | below a blocked root the top of a component is reported exactly when it has an open neighbour |
| ChokeSearch.SearchChokePoints | battlesnake/c-core/core/core_algorithms.c:6513-6572 | the loop over the arrays runs that state machine to its end and never overflows its stack |
| ChokeSearch.ReportsExactly | battlesnake/c-core/core/core_algorithms.c:6513-6575 | from an open root the reports are exactly the cut vertices |
| BlockedRoots.BlockedRootReports | battlesnake/c-core/core/core_algorithms.c:6513-6575 | from a blocked root a vertex is reported if and only if it is the first-listed neighbour of the root in its component and has another open neighbour, or it is a cut vertex as seen from that neighbour |
| BlockedRoots.NoneMissed | battlesnake/c-core/core/core_algorithms.c:6526-6575 | from a blocked root no cut vertex is missed |
| BlockedRoots.ExactWhenApart | battlesnake/c-core/core/core_algorithms.c:6526-6575 | when no component has two neighbours of the blocked root, the reports are exactly the cut vertices |
| ChokeSearch.BlockedRootOverReports | battlesnake/c-core/core/core_algorithms.c:6545-6549 | from a blocked root a vertex may be reported that cuts nothing off |
| BoardChokePoints.FillMovementBlocks | battlesnake/c-core/core/core_algorithms.c:141-171 | which cells count as blocked: bodies without tails, the own head opened, hazards a weak snake cannot afford |
| BoardChokePoints.CoreChokePoints | battlesnake/c-core/core/core_algorithms.c:6470-6587 | from an open head cell the points returned are exactly the other cells whose blocking disconnects something the head can reach; from a blocked one exactly those that cut up a component next to it, as seen from its first-listed cell |
| BoardChokePoints.BlockedHeadPoints | battlesnake/c-core/core/core_algorithms.c:161-169 | a blocked head is told of every choke point, and of others only when two of its neighbours share a component |
| BoardChokePoints.HeadOnHazardOverReports | battlesnake/c-core/core/core_algorithms.c:161-169 | a board with a weak snake on a hazard on which a point is reported that is no choke point |
| VacateTimes.FillVacateTimes | battlesnake/c-core/core/core_algorithms.c:769-809 | each cell gets the latest time at which a segment on it is expected to leave, or zero |
| TimeWindows.AtIsRoute | battlesnake/c-core/core/core_algorithms.c:1145-1202 | being in a set of the time expansion means having walked there within the windows |
| TimeWindows.LoopErasure | battlesnake/c-core/core/core_algorithms.c:1068-1077 | whatever can be entered can be entered within the settling time plus one step for every cell, so the finite horizon decides walks of every length |
| TimeWindows.NeverMeansNever | battlesnake/c-core/core/core_algorithms.c:1126-1128 | a cell whose arrival stays at the sentinel cannot be entered by a walk of any length |
| TimeSearch.Complete | battlesnake/c-core/core/core_algorithms.c:1145-1202 | in queue order everything reached up to the time of the next entry has been found |
| TimeSearch.QueueHasRoom | battlesnake/c-core/core/core_algorithms.c:1079-1090 | the queue has room for every state not seen before |
| TimeSearch.RecordedIsExact | battlesnake/c-core/core/core_algorithms.c:1068-1202 | with the queue exhausted the arrival table is exact for walks of every length |
| OpponentArrival.FillOpponentArrival | battlesnake/c-core/core/core_algorithms.c:811-924 | for every horizon the marks are exactly the places rivals can be at each time, and with a sufficient horizon the arrival times are least over all walks |
| SpaceTime.TallyStep | battlesnake/c-core/core/core_algorithms.c:1185-1193 | in queue order each cell is counted once and the maximum is the largest arrival |
| SpaceTime.SpreadOwn | battlesnake/c-core/core/core_algorithms.c:1171-1201 | one expansion keeps arrivals, counters and tail flag, and stops early exactly with the last cell to be reached |
| SearchOrder.LayerIsAt | battlesnake/c-core/core/core_algorithms.c:1145-1202 | the order of discovery lists, for each time, exactly the cells where the snake can be then |
| SpaceTime.SearchIsExact | battlesnake/c-core/core/core_algorithms.c:1145-1204 | where the search stops, early or not, arrivals and counts are exact and the tail flag is settled: it tells whether the tail can be entered, except after an early stop with the tail under the head, when it tells whether the head cell is entered again before the last arrival, or at that time and earlier in the order of discovery than the last cell |
| SpaceTime.CoreSpaceTimeCompute | battlesnake/c-core/core/core_algorithms.c:1019-1207 | arrivals are least over walks of every length entering each cell after it is vacated and strictly before a rival; counts, maximum, tail flag and death flag follow from them and from the order of discovery; invalid boards are errors |
| TailFlags.StackedTailMisleads | battlesnake/c-core/core/core_algorithms.c:1198-1204 | for every stacked body a board whose tail flag is false although the tail can be entered, and whose death flag is then wrong unless the recorded length is too small |
| TailFlags.FlagRightExactly | battlesnake/c-core/core/core_algorithms.c:1195-1204 | for bodies of any number of segments: the tail flag is right on all boards if and only if the tail is not on the head cell or never leaves it |
| TailFlags.DeathRightExactly | battlesnake/c-core/core/core_algorithms.c:1195-1204 | the same for the death flag, given the recorded length: lengths that the other cells always cover need no tail |
| BestFirst.Close | battlesnake/c-core/core/core_algorithms.c:504-547 | closing a vertex of least total keeps the frontier totals above the closed ones |
| BestFirst.Improve | battlesnake/c-core/core/core_algorithms.c:571-582 | relaxing an edge keeps the invariant |
| BestFirst.GoalIsNearest | battlesnake/c-core/core/core_algorithms.c:504-518 | when the goal is selected no walk to it is shorter than its score |
| BestFirst.Exhausted | battlesnake/c-core/core/core_algorithms.c:503-585 | an empty frontier means that the goal cannot be reached |
| BestFirst.ScoreBelowSize | battlesnake/c-core/core/core_algorithms.c:571-574 | scores stay below the number of cells, so the sentinel is never mistaken for a score |
| AStar.EstimateConsistent | battlesnake/c-core/core/core_algorithms.c:61-63 | the Manhattan distance is consistent on the grid |
| AStar.SelectBest | battlesnake/c-core/core/core_algorithms.c:504-513 | selection by total, then by larger score |
| AStar.RelaxOne | battlesnake/c-core/core/core_algorithms.c:565-584 | one neighbour: scores, totals, parents and the open list, which has room for every cell |
| AStar.Reconstruct | battlesnake/c-core/core/core_algorithms.c:518-543 | the path is read off the parents, from start to goal |
| AStar.Search | battlesnake/c-core/core/core_algorithms.c:497-585 | the search answers with a shortest walk, or with nothing when there is none |
| BoardPaths.FillPathBlocks | battlesnake/c-core/core/core_algorithms.c:423-481 | the blocked cells: bodies except tails expected to leave, unaffordable hazards, and steps of rivals of sufficient length |
| BoardPaths.PathIsWalk | battlesnake/c-core/core/core_algorithms.c:548-584 | a path in coordinates is a walk of the same length in the graph of cells |
| BoardPaths.CoreShortestPath | battlesnake/c-core/core/core_algorithms.c:374-595 | a path is returned exactly when one exists, and no shorter one exists; missing snake or coordinates off the board give no path, invalid boards are errors |
| BoardPaths.PathCellsAreSafe | battlesnake/c-core/core/core_algorithms.c:423-481 | every cell a path enters after its start is one the one-step safety test accepts |
| LassoValidation.ValidateBoundedLasso | battlesnake/c-core/core/core_algorithms.c:2366-2496 | the verdict proved is given exactly when the all-food, no-health replay proves the lasso, unless a clock or the buffer size intervenes; the failure flag is set exactly when the loop itself was acceptable |
| LassoValidation.ReplayStep | battlesnake/c-core/core/core_algorithms.c:2414-2459 | one step of the replay in place decides whether it is survived |
| LassoValidation.EatAt | battlesnake/c-core/core/core_algorithms.c:2441-2448 | the flags remove the first item left on the cell |
| LassoValidation.ShiftBody | battlesnake/c-core/core/core_algorithms.c:2454-2459 | the body moves in place |
| Rounds.NeverMeets | battlesnake/c-core/core/core_algorithms.c:2460-2491 | on a closed loop with room for body and food items the snake never meets itself |
| Rounds.MeetsInTheEnd | battlesnake/c-core/core/core_algorithms.c:2460-2491 | with less room the snake that loses no food meets itself after finitely many laps |
| Rounds.GrowingMeets | battlesnake/c-core/core/search_state.c:197-243 | a snake that grows every turn meets itself on any loop |
| Lasso.RunBelowReplay | battlesnake/c-core/core/core_algorithms.c:2359-2365 | on rulesets without constant growth: whichever food is missing, the real body is a prefix of the all-food body and real health is at least the replay's |
| Lasso.RouteIsSurvivable | battlesnake/c-core/core/core_algorithms.c:2359-2496 | the route is free of wall, health and self-body deaths for every possible subset of the food |
| Lasso.RouteSurvivableExactly | battlesnake/c-core/core/core_algorithms.c:2359-2496 | the route of a proved lasso is survivable for all subsets of the food if and only if the ruleset is not constrictor |
| Lasso.LoopsForever | battlesnake/c-core/core/core_algorithms.c:2460-2491 | afterwards the snake goes round the loop for any number of steps without leaving the board or meeting itself, when the food left on the loop fits |
| Lasso.SingleFoodFits | battlesnake/c-core/core/core_algorithms.c:2441-2448 | food cells listed once always fit |
| Lasso.LoopsForeverExactly | battlesnake/c-core/core/core_algorithms.c:2366-2496 | a proved lasso can be followed for ever, whatever food is missing, if and only if the ruleset is not constrictor and after one replay body and food items left on the loop fit on it together |
| LassoLimits.RepeatedFoodCollides | battlesnake/c-core/core/core_algorithms.c:2441-2448 | a proved lasso with a food cell listed several times that ends in a self-collision |
| Perimeter.CoordOfIndex | battlesnake/c-core/core/core_algorithms.c:3230-3252 | exactly the border cells have an index, and it leads back to the cell |
| Perimeter.IndexOfCoord | battlesnake/c-core/core/core_algorithms.c:3254-3276 | every number below the capacity is the index of a border cell of its own |
| Perimeter.NeighborsAreAdjacent | battlesnake/c-core/core/core_algorithms.c:3254-3276 | cyclically consecutive indices are one step apart |
| PerimeterCycles.BodyDirection | battlesnake/c-core/core/core_algorithms.c:3316-3332 | the modular check decides whether, and in which direction, the body follows the border |
| PerimeterCycles.BoundedCycleCapacity | battlesnake/c-core/core/core_algorithms.c:3283-3357 | the capacity is positive exactly when the snake is certified, and then the length of the border |
| Rounds.LengthAndItems | battlesnake/c-core/core/core_algorithms.c:3349-3355 | going round, length and food items left on the loop never add up to more than at the start |
| Circulation.CirculatesExactly | battlesnake/c-core/core/core_algorithms.c:3277-3357 | a snake along the border circulates for ever, whatever food is missing, if and only if the ruleset is not constrictor and body and food items on the border fit there together |
| Circulation.CertificateCountsCells | battlesnake/c-core/core/core_algorithms.c:3333-3339 | whenever a counted food cell lies on the border, enough further copies of it leave the certificate in place and make the snake meet itself |
| Circulation.CirculatesForever | battlesnake/c-core/core/core_algorithms.c:3277-3357 | outside constrictor, with counted food listed once, a certified snake circulates for any number of turns, in bounds and clear of itself |
| Circulation.HeadsAreAdjacent | battlesnake/c-core/core/core_algorithms.c:3254-3276 | circulating takes one legal step per turn |
| Circulation.ArrivalIsTurn | battlesnake/c-core/core/core_algorithms.c:3340-3343 | the arrival used against rivals, less one, is the turn on which the head comes to the cell |
| FoodTiming.SaturatingAdd | battlesnake/c-core/core/core_algorithms.c:2891-2897 | addition up to the sentinel |
| FoodTiming.PromotionIsConservative | battlesnake/c-core/core/core_algorithms.c:2899-2912 | no way of eating distinct foods reaches the required number of meals before the promotion time |
| FoodTiming.MealsTakeTime | battlesnake/c-core/core/core_algorithms.c:2899-2912 | m distinct meals by turn n put the m-th meal time at n or earlier |
| FoodTiming.FoodDelayFixedPoint | battlesnake/c-core/core/core_algorithms.c:2914-2939 | the iteration ends at the least fixed point |
| FoodTiming.DelayBoundsMeals | battlesnake/c-core/core/core_algorithms.c:2914-2939 | whatever is eaten, at most the delay's number of meals have been eaten by base plus delay |
| FoodTiming.SegmentVacates | battlesnake/c-core/core/core_algorithms.c:2914-2939 | from turn base plus delay on the segment is gone, for every schedule |
| FoodTiming.ArrivalIsOptimistic | battlesnake/c-core/core/core_algorithms.c:2963-3014 | arrivals computed without occupied cells are never later than an actual walk |
| LinearSystems.ReduceColumn | battlesnake/c-core/core/position_eval.c:256-288 | in place, one column: first largest pivot, swap, divide, clear |
| LinearSystems.ColumnKeeps | battlesnake/c-core/core/position_eval.c:256-288 | reducing a column makes it a unit vector and keeps the set of solutions |
| LinearSystems.SolutionIsUnique | battlesnake/c-core/core/position_eval.c:255-296 | when the elimination goes through, its last column is the one and only solution of the original system |
| LinearSystems.StuckAtZero | battlesnake/c-core/core/position_eval.c:266-268 | a column without a nonzero pivot means that a solution, if there is one, is not the only one |
| LinearSystems.SolveLinearSystem | battlesnake/c-core/core/position_eval.c:255-296 | it succeeds if and only if no column of the elimination has all its pivots below 1e-10, and then returns the solution |
| Supports.BuildSystem | battlesnake/c-core/core/position_eval.c:324-337 | the augmented matrix is the equalizing system of the two supports |
| Supports.MaskToIndices | battlesnake/c-core/core/position_eval.c:245-253 | the indices of the set bits, in order |
| Supports.CandidateIsStrategy | battlesnake/c-core/core/position_eval.c:343-354 | an accepted solution gives nonnegative weights with a sum between 1 and 1 + 4e-9 |
| Supports.OfferIsCandidate | battlesnake/c-core/core/position_eval.c:339-369 | unless the elimination gets stuck, what a pair of supports offers are exactly the solutions of its system that pass the checks |
| Supports.OfferHoldsUp | battlesnake/c-core/core/position_eval.c:343-369 | an offer is a strategy that holds up against every opposing move |
| Supports.TrySupports | battlesnake/c-core/core/position_eval.c:339-369 | a pair of supports is accepted if and only if it has an offer, and then that offer is returned |
| Supports.BestIsUnique | battlesnake/c-core/core/position_eval.c:371-376 | the first of the best offers is determined by the matrix |
| Supports.BestStrategy | battlesnake/c-core/core/position_eval.c:298-474 | the search finds a strategy if and only if some pair of supports offers one, and returns the first of those no offer improves on |
| MatrixGames.Interchange | battlesnake/c-core/core/position_eval.c:356-366 | summing the expectation by rows or by columns gives the same |
| MatrixGames.RowGuarantee | battlesnake/c-core/core/position_eval.c:298-385 | the row strategy earns at least v - 1e-9 against every mixture |
| MatrixGames.ColumnGuarantee | battlesnake/c-core/core/position_eval.c:387-474 | the column strategy concedes at most its value plus 1e-9 to every mixture |
| MatrixGames.MixedValueIsSound | battlesnake/c-core/core/position_eval.c:580-601 | in the mixed branch the value lies within v - 1e-9 and v + 1e-6 + 1e-9 of what each side can force |
| MatrixGames.PureMatrixValue | battlesnake/c-core/core/position_eval.c:476-538 | the fallback value is exactly the maximum over rows of the minimum over columns; ties up to 1e-12 affect only the choice and the confidence |
| MatrixGames.WorstOfRow | battlesnake/c-core/core/position_eval.c:501-516 | the minimum of a row and the most confident entry attaining it |
| MatrixGames.SolveZeroSumMatrix | battlesnake/c-core/core/position_eval.c:555-612 | the mixed branch is taken if and only if payoffs differ, both searches find a strategy and the values agree up to 1e-6; it returns those strategies, otherwise the pure maximin |
| AlphaBeta.SearchSound | battlesnake/c-core/core/core_algorithms.c:5405-5835 | when decided positions two or more turns below the root keep their scores (draws, or no survival step), the value is exact inside the window and a bound on the right side outside, for every order of moves and replies |
| AlphaBeta.WorstReplySound | battlesnake/c-core/core/core_algorithms.c:5616-5760 | the reply loop with its narrowing window |
| AlphaBeta.RootSound | battlesnake/c-core/core/core_algorithms.c:5764-5769 | in the widest window the value is the max-min value and every recorded root value is exact or an upper bound as flagged; replies that decide the game at once may be any |
| AlphaBeta.RootRecords | battlesnake/c-core/core/core_algorithms.c:5764-5790 | no record is above the best score, and an exact one attains it |
| AlphaBeta.MaximinForces | battlesnake/c-core/core/core_algorithms.c:5584-5835 | the max-min value is the most the own moves can force |
| AlphaBeta.PlainIsMaximin | battlesnake/c-core/core/core_algorithms.c:5584-5835 | the search without windows computes the same value |
| AlphaBeta.StepMisleads | battlesnake/c-core/core/core_algorithms.c:1749-1761 | for all weights with a survival step a tree with an untrue flag |
| AlphaBeta.FlagsTrueWithoutStep | battlesnake/c-core/core/core_algorithms.c:1419-1430 | the flags agree with the search without windows on all trees, decided positions included, if and only if the survival step is zero |
| StepDuels.DuelMisleads | battlesnake/c-core/core/core_algorithms.c:5720-5769 | for all weights with a survival step a board and a search of depth two whose only root record is below its true value, flagged exact or not |
| StepDuels.BoardFlagsTrueWithoutStep | battlesnake/c-core/core/core_algorithms.c:5405-5835 | the same equivalence over the game trees of boards, for all orders of moves and replies and all finite evaluations |
| TiedRoots.TieMisleads | battlesnake/c-core/core/core_algorithms.c:4897-4927 | for all weights and in both modes a board, an evaluation and surroundings on which every selection after an exact search takes a cut-off move that forces less than the other one |
| JointMoves.EveryJointIsDecoded | battlesnake/c-core/core/core_algorithms.c:5619-5630 | the mixed-radix numbers enumerate every combination of options |
| JointMoves.DecodeMoves | battlesnake/c-core/core/core_algorithms.c:5625-5630 | the digit loop reads one combination off its number |
| JointMoves.CountCombinations | battlesnake/c-core/core/core_algorithms.c:5597-5603 | the number of combinations, or an error when it does not fit |
| GameTrees.FewSnakesFit | battlesnake/c-core/core/core_algorithms.c:5597-5603 | with at most fifteen snakes the combinations fit throughout the search |
| GameTrees.UnfoldingForces | battlesnake/c-core/core/core_algorithms.c:5584-5835 | every ordered unfolding of a board allows forcing exactly what the board allows |
| GameTrees.UnfoldingIsSteady | battlesnake/c-core/core/core_algorithms.c:5584-5835 | every unfolding of a board whose decided positions keep their scores is a tree on which the search is sound |
| GameTrees.NoStepSettles | battlesnake/c-core/core/core_algorithms.c:1419-1430 | without a survival step that is every board |
| SearchFolds.WorstReplyEnds | battlesnake/c-core/core/core_algorithms.c:5616-5760 | the reply loop in terms of the replies seen |
| SearchFolds.BestMoveEnds | battlesnake/c-core/core/core_algorithms.c:5584-5820 | the own-move loop in terms of the moves tried |
| Minimax.TryReplies | battlesnake/c-core/core/core_algorithms.c:5597-5760 | making and unmaking every reply up to a cut-off computes the worst reply of a complete branch; it fails only when interrupted or when some position in reach has too many joint replies |
| Minimax.SearchNode | battlesnake/c-core/core/core_algorithms.c:5405-5875 | on the mutable board the search returns the value of a game tree of the board and restores the board; it finishes unless interrupted or crowded |
| Minimax.SearchRoot | battlesnake/c-core/core/core_algorithms.c:5405-5875 | without interruption and with at most fifteen snakes the search finishes; when decided positions keep their scores, the score is the most the snake can force, an exact record attains it and each record is truthful, for every ordering, tie-break and history |
| RootComparison.CompareAntisymmetric | battlesnake/c-core/core/core_algorithms.c:1603-1747 | exchanging the two roots reverses the verdict and keeps its reason |
| RootComparison.EqualMeansSame | battlesnake/c-core/core/core_algorithms.c:1544-1567 | only indistinguishable records compare equal |
| RootComparison.ComparisonHasCycle | battlesnake/c-core/core/core_algorithms.c:1603-1747 | three roots may beat each other in a circle, which is why layers are needed |
| RootSelection.RemoveDominated | battlesnake/c-core/core/core_algorithms.c:4642-4819 | the double loop keeps exactly the moves no other active move dominates |
| RootSelection.DominationGrows | battlesnake/c-core/core/core_algorithms.c:4762-4819 | each domination relation is acyclic: a measure grows along it |
| RootSelection.LayerKeepsSome | battlesnake/c-core/core/core_algorithms.c:4642-4819 | a layer never removes the last move |
| RootSelection.KeepLongestLosses | battlesnake/c-core/core/core_algorithms.c:4716-4747 | of two or more exact losses the longest stay |
| RootSelection.LadderWinner | battlesnake/c-core/core/core_algorithms.c:5098-5190 | a move left by the ladder is outcome-dominated by no valid root, structurally by no unresolved survivor, and outlived or numerically dominated by none at those layers |
| RootSelection.WinnerSurvivesDuels | battlesnake/c-core/core/core_algorithms.c:5098-5190 | no valid root beats the winner on outcomes in the pairwise comparison |
| RootFallback.KeepStrictMaxima | battlesnake/c-core/core/core_algorithms.c:4897-4927 | the moves of the largest score that is a number |
| RootFallback.KeepBestCorridors | battlesnake/c-core/core/core_algorithms.c:4973-5008 | the moves with the best corridor, unless one cannot be measured |
| RootFallback.KeepBest | battlesnake/c-core/core/core_algorithms.c:5010-5075 | the moves of the largest tail path or space |
| RootFallback.SingletonReason | battlesnake/c-core/core/core_algorithms.c:4854-4895 | the reason recorded for a single maximum |
| RootFallback.StagesNarrow | battlesnake/c-core/core/core_algorithms.c:5098-5297 | along all stages the active moves get fewer but never run out |
| RootFallback.SelectRootCandidate | battlesnake/c-core/core/core_algorithms.c:5098-5297 | a root is returned whenever one is valid: the only move of the first stage that leaves one, for that stage's reason |
| RootFallback.LadderChoice | battlesnake/c-core/core/core_algorithms.c:5098-5297 | the guarantees of the choice in ladder mode |
| RootFallback.StrictChoice | battlesnake/c-core/core/core_algorithms.c:4897-4927 | under strict minimax no valid root scores higher than the choice |
| RootDecisions.OptimalExactly | battlesnake/c-core/core/core_algorithms.c:5098-5297 | in both modes, for records that a search can leave: the selection is optimal in all surroundings and for all values the records allow if and only if all moves left to the tie-breaks are recorded exactly with the highest score |
| RootDecisions.StrictFinalists | battlesnake/c-core/core/core_algorithms.c:4897-4927 | under strict minimax those moves are the ones with the highest score, so only their flags matter |
| RootDecisions.RootDecision | battlesnake/c-core/core/core_algorithms.c:5836-5855 | on the board: under strict minimax the record of the choice is the most that can be forced; under the condition on the moves left, or on the choice itself, the choice forces it in both modes |
| RootDecisions.DecideRoot | battlesnake/c-core/core/core_algorithms.c:5405-5855 | search and selection together return a root move with its recorded value; that value is the most that can be forced under strict minimax, and the move forces it under the condition on the moves left |
| RootDecisions.LadderDecision | battlesnake/c-core/core/core_algorithms.c:5836-5855 | with the ladder an exact choice is optimal when an exact move of the best score is still in play at the numeric layer |

## Left out

- Integer width: coordinates, health and counters are unbounded integers; the limits the code tests (cell count, body buffer, combination count, saturating times, the 16-bit distance) are modelled, wrap-around elsewhere is not.
- Floating point: rounding is not modelled; infinities and not-a-number appear only in root selection.
- Allocation: it is assumed to succeed; a failed make leaves the source's board partly moved, and nothing is claimed about it. Growth of undo, body and scratch capacity is not modelled beyond the buffer a body needs.
- SearchStates.CoreSearchState.MakeMovesDetailed: the scratch arrays of the source for heads, deaths and causes are local sequences here, since nothing outside the call can see them.
- SpaceTime.CoreSpaceTimeCompute: the thread-local scratch with its stamps is replaced by fresh arrays; reuse of stamps after wrap-around is not modelled, and the size test on the number of states that cannot fail with 64-bit sizes is left out.
- OpponentArrival.FillOpponentArrival: the marks returned stand for the source's separate reachability output, which holds the same states; the clock checks during initialisation are left out, those of the search loop are kept.
- ChokeSearch.SearchChokePoints: the child counter of the source, which is written but never read, is left out.
- Lasso.RouteIsSurvivable: assumes a starting health of at most 100 and hazard damage of at least -1; with more health a meal would lower it. Constrictor boards are the subject of `Lasso.RouteSurvivableExactly`.
- Lasso.RunBelowReplay: assumes a ruleset other than constrictor; `Lasso.RouteSurvivableExactly` covers all.
- Lasso.LoopsForever: assumes a ruleset other than constrictor and loop food that fits, the exact condition of `Lasso.LoopsForeverExactly`; says nothing about health after the route.
- Lasso.LoopsForeverExactly: takes the route to be one a snake can walk, each head one step from the one before, as the search that records it guarantees.
- LassoValidation.ValidateBoundedLasso: the closing of cells by rivals is an arbitrary function of the step.
- PerimeterCycles.BoundedCycleCapacity: the closing of cells by rivals is an arbitrary function of cell, arrival and deadline.
- Circulation.CirculatesExactly: leaves health aside, which the source certifies separately.
- Circulation.CirculatesForever: assumes a ruleset other than constrictor and border food listed once; `Circulation.CirculatesExactly` is the exact condition.
- Prefilter.FittingCommandIsNotDeficient: assumes a recorded length that covers the body; that this is exactly the condition is `ShortRecords.RecordMustCover`.
- FoodTiming.SegmentVacates: speaks of deadlines below the sentinel; at the sentinel the source claims nothing either.
- Minimax.SearchNode: the transposition table is off and causes of death are not attached to values.
- Minimax.SearchRoot: the value is the best score of the loop; the source then selects a root move and returns that move's recorded value, as `RootDecisions.DecideRoot` does.
- RootDecisions.DecideRoot: takes the root moves to be distinct directions; structural statistics and surroundings are inputs.
- AlphaBeta.WorstReplySound: speaks, like the other rows about trees, of trees on which decided positions keep their scores, as below.
- AlphaBeta.SearchSound: speaks of trees on which decided positions keep their scores; that no weaker condition on the weights alone would do is `AlphaBeta.FlagsTrueWithoutStep`, but single trees outside it may be searched correctly too.
- RootFallback.SelectRootCandidate: whether the fallback is constrained, corridor metrics, tail paths, heading and reachable space are inputs.
- Prefilter.ShouldRunDiagnostics: the exact command profile the tool asks the engine for is an input; so is the check that the snake exists.
- The structural proof search as a whole, with its region and doorway rules, biconnected components and corridor metrics: policy built on the certificates modelled here.
- Voronoi territory, reachable space, evaluation formulas, weight profiles, Zobrist hashing, the transposition table and move-ordering heuristics.
- Null pointers, statuses that only report them, memory release, statistics counters and parallel root search.
- HTTP, sockets, JSON, replay and report tools, bindings and learning code.
