# Trabalho-grafos in Dafny

This project models the routing core of Trabalho-grafos, a solver for the
capacitated arc-routing problem. A vehicle based at a depot has a fixed
capacity. It must serve a catalog of required nodes, edges and arcs of a
weighted graph, and the total travel and service cost should be as low as
possible. The model covers two layers.

**The graph layer.** There are three generations of the `Graph` class:
`Graph.hpp`, `etapa1/Graph.hpp` and `etapa3/Graph.hpp`.
- Each builds adjacency lists. An undirected edge is stored as two entries and an arc as one.
- Each computes all-pairs shortest distances with Floyd–Warshall, using an explicit infinity.
- The generations differ, and the model keeps the differences:
  - Parallel edges keep the minimum cost in `Graph.hpp` and `etapa3/Graph.hpp`. In `etapa1/Graph.hpp` the last edge listed wins.
  - `etapa1/Graph.hpp` also keeps a predecessor matrix and reconstructs paths from it.
  - `etapa3/Graph.hpp` ignores edges whose endpoints are out of range.
- The older generations also compute integer statistics: edge, arc and required counts, connected components by depth-first search, degree bounds, and the diameter.

**The two solvers.**
- `etapa3/Solver.hpp`, over the data model of `etapa3/Solution.hpp`:
  - an exact route cost, which is infinite as soon as one leg is unreachable;
  - a recomputation of the solution metrics;
  - a one-route-per-service construction;
  - three first-improvement moves that edit the solution in place: relocate, swap and 2-opt;
  - a local search that applies the moves until none improves.
- `etapa2/Solver.hpp`:
  - path reconstruction with a step bound;
  - a first-fit greedy packer;
  - the constant-based cost estimates.

## Modules

Each module corresponds to one concept.
- `Common`: the cost type `Inf | Fin(int)`, which plays the role of the `INF` sentinel, the 32-bit `INT_MAX`, and sequence reversal.
- `Adjacency`: adjacency lists and the initial distance matrices. The minimum over parallel edges is `MinInit`. The last listed edge is `LastInit` and `PredInit`.
- `ShortestPaths`: Floyd–Warshall.
  - As a function, pivot by pivot (`Fw`, `Shortest`).
  - As the in-place triple loop (`RelaxAll`).
  - With its meaning, proved: a finite entry is the cost of a cheapest walk, and `Inf` means that no walk exists.
- `GraphStats`: the integer statistics, with depth-first search over a `visited` array.
- `PredecessorWalk`: following a predecessor row backwards. This is the common part of `reconstructPath` and `getPath`.
- `RootGraph`, `Etapa1Graph`, `Etapa3Graph`: the three `Graph` classes.
- `Etapa3Solution`: `Service`, `Route`, `Solution`, plus the flattening of routes into the served catalog and demand sums.
- `Etapa3RouteCost`: the route cost as a recursive function, and its meaning as a sum of legs and service terms.
- `Etapa3Metrics`: the metrics recomputation as a function, `Recalculated`. A solution whose caches agree with it is `Settled`.
- `Etapa3Moves`: the three moves as functions on the routes, with these properties proved:
  - the search's "no move found" means that no improving move exists;
  - an accepted move lowers the total, keeps the services and keeps capacity.
- `Etapa3Solver`: the `Solver` class with its lazily filled distance cache, whose methods update a `Solution` object in place.
- `Etapa2Solver`: the earlier `Solver` class. Its packer is specified by the function `Pack`.

## Model

| member | source | states |
|---|---|---|
| Adjacency.EmptyAdj | Graph.hpp:44-50 | a new graph has one empty adjacency list per vertex |
| Adjacency.WithEdgeEntries | Graph.hpp:53-61 | adding an edge keeps the lists well formed and adds one entry for an arc, two for an undirected edge |
| Adjacency.MinOverIsMinimum | Graph.hpp:82-86 | the initial entry from parallel edges is at most every edge's cost, and is either the base value or one edge's cost |
| Adjacency.LastOverIsLast | etapa1/Graph.hpp:88-93 | the initial entry is the cost of the last edge listed to that target, and the base when there is none |
| Adjacency.LastOverFinite | etapa1/Graph.hpp:86-93 | the initial entry is finite exactly when the base is finite or some edge leads to the target |
| Adjacency.MinInitDiagonal | Graph.hpp:80-86 | with non-negative costs the diagonal starts at zero, even with self-loops |
| Adjacency.MinOverAppend | etapa3/Graph.hpp:84-89 | one more parallel edge lowers the entry to the minimum of its cost and the previous entry |
| Adjacency.WithUndirectedEdgeSymmetric | etapa3/Graph.hpp:63-66 | an undirected edge keeps the initial matrix symmetric |
| ShortestPaths.Witness | Graph.hpp:88-94 | every finite entry after pivot k is the cost of a walk through vertices below k |
| ShortestPaths.FwOptimal | Graph.hpp:88-94 | after pivot k no walk through vertices below k is cheaper than the entry, given non-negative costs |
| ShortestPaths.ShortestIsOptimal | Graph.hpp:88-94 | the final matrix is at most the cost of every walk |
| ShortestPaths.ShortestInfIffNoPath | etapa3/Graph.hpp:91-100 | an entry is infinite exactly when no walk joins the two vertices, and a finite entry is the cost of some walk |
| ShortestPaths.ShortestTriangle | etapa3/Graph.hpp:91-100 | the triangle inequality holds over finite entries |
| ShortestPaths.ShortestDiagonal | Graph.hpp:80-94 | a zero diagonal stays zero |
| ShortestPaths.FwSymmetric | etapa3/Graph.hpp:91-100 | relaxation keeps a symmetric matrix symmetric |
| ShortestPaths.FwNonNegative | Graph.hpp:88-94 | relaxation keeps non-negative entries non-negative |
| ShortestPaths.StepKeepsPivot | Graph.hpp:88-94 | round k leaves row k and column k unchanged, so the in-place update equals the textbook one |
| ShortestPaths.RelaxAll | Graph.hpp:88-94 | the in-place triple loop, which skips infinite legs, computes the shortest-path matrix |
| ShortestPaths.RelaxRow | Graph.hpp:89-93 | one row of one round relaxes each cell against the pivot and touches no other row |
| ShortestPaths.BuildMinInit | Graph.hpp:80-86 | the initialisation loops produce the minimum-over-parallel-edges matrix |
| GraphStats.EdgeCountBound | Graph.hpp:103-121 | the edge count is at most the number of entries, and equal to it in a directed graph |
| GraphStats.UndirectedEdgeCountedOnce | etapa1/Graph.hpp:155-166 | in an undirected graph a new edge between distinct vertices adds exactly one to the edge count, and a self-loop adds none |
| GraphStats.DirectedEdgeCount | etapa1/Graph.hpp:155-166 | in a directed graph the edge count grows by the number of entries added |
| GraphStats.NumEdges | etapa1/Graph.hpp:155-166 | the loop counts entries with i < to, or all of them when directed |
| GraphStats.NumArcs | etapa1/Graph.hpp:168-173 | the loop counts all adjacency entries |
| GraphStats.CountTrueBound | etapa1/Graph.hpp:176-179 | the required-node count is at most the number of nodes, with equality exactly when all are required |
| GraphStats.NumRequiredNodes | etapa1/Graph.hpp:176-179 | the loop counts the true flags |
| GraphStats.SetRequiredArcCount | Graph.hpp:139-146 | setting one flag changes the required-arc count by exactly that flag's change |
| GraphStats.NumRequiredArcs | etapa1/Graph.hpp:191-198 | the loop counts the ordered required pairs |
| GraphStats.RequiredEdgeCountTranspose | etapa1/Graph.hpp:181-189 | the required-edge count does not depend on the direction in which a pair is flagged |
| GraphStats.PairsFromBound | Graph.hpp:129-136 | a row contributes at most one per pair to its right |
| GraphStats.NumRequiredEdges | etapa1/Graph.hpp:181-189 | the loop counts unordered pairs i < j flagged in either direction |
| GraphStats.ClosedContainsReach | Graph.hpp:69-76 | a mark set closed under entries contains every vertex reachable from a marked one |
| GraphStats.Dfs | etapa1/Graph.hpp:72-79 | the search marks u, keeps old marks, marks only vertices reachable from u, and closes the new marks under entries |
| GraphStats.ConnectedComponents | etapa1/Graph.hpp:207-217 | the count is the number of search roots, lies between 1 and V for V > 0, no root reaches a later root, and every vertex is reached from some root |
| GraphStats.MinDegreeOf | etapa1/Graph.hpp:220-226 | the minimum degree bounds every list from below and is some list's size, or INT_MAX when there are no vertices |
| GraphStats.MaxDegreeOf | etapa1/Graph.hpp:228-233 | the maximum degree bounds every list from above and is some list's size, or 0 |
| GraphStats.MinDegreeAtMostMax | Graph.hpp:168-181 | with at least one vertex the minimum degree is at most the maximum |
| GraphStats.MinDegree | Graph.hpp:168-173 | the loop computes the minimum degree |
| GraphStats.MaxDegree | Graph.hpp:176-181 | the loop computes the maximum degree |
| GraphStats.Diameter | etapa1/Graph.hpp:267-274 | the result bounds every finite distance, is one of them or 0, and is never negative |
| PredecessorWalk.ReversedTrailIsChain | etapa1/Graph.hpp:115-121 | reversing the walk back from v gives a path from u to v whose every step follows the predecessor row |
| PredecessorWalk.Pigeonhole | etapa2/Solver.hpp:131-149 | more than V steps inside V vertices repeat a vertex |
| PredecessorWalk.WalkNeverEnds | etapa1/Graph.hpp:115-118 | a walk that avoids u for V + 1 steps within range avoids it forever |
| RootGraph.Graph.constructor | Graph.hpp:44-50 | V empty lists, no required nodes, no required pairs |
| RootGraph.Graph.AddEdge | Graph.hpp:53-61 | appends u→v, plus v→u when undirected, sets the required flags, and makes the graph directed once an arc is added |
| RootGraph.Graph.SetRequiredNode | Graph.hpp:64-66 | sets one flag, and the required-node count grows by one exactly when it was unset |
| RootGraph.Graph.NumNodes | Graph.hpp:98-100 | the node count is the number of lists |
| RootGraph.Graph.FloydWarshall | Graph.hpp:79-95 | with non-negative costs the result is the shortest-path matrix from the minimum initial matrix |
| Etapa1Graph.BuildLastInit | etapa1/Graph.hpp:83-93 | dist starts infinite and pred -1, the diagonal is 0 and u, and the last parallel edge sets both entries |
| Etapa1Graph.InitPredMatches | etapa1/Graph.hpp:83-93 | initially a predecessor is set exactly where the distance is finite, and each one is the tail of a real edge |
| Etapa1Graph.RelaxWithPred | etapa1/Graph.hpp:94-104 | relaxation keeps predecessors matching finite distances and, with non-negative costs, yields the shortest-path matrix together with the predecessor table of the same recurrence (`FwPred`: an improved cell takes the predecessor of its second leg), and keeps every predecessor the tail of a real edge |
| Etapa1Graph.RelaxedByImproves | etapa1/Graph.hpp:97-98 | the guarded update of a cell (both legs finite and strictly cheaper) is the recurrence's relaxed cell |
| Etapa1Graph.PredStepKeepsPivot | etapa1/Graph.hpp:97-100 | with a pivot cell that is infinite or non-negative, round k leaves the predecessors in row k and column k unchanged |
| Etapa1Graph.RelaxRound | etapa1/Graph.hpp:95-103 | one round over all rows turns the distances into `Step` and the predecessors into `PredStep` of the round's starting matrices, while the in-place updates read cells already rewritten |
| Etapa1Graph.PredRowMatches | etapa1/Graph.hpp:95-103 | a row relaxed midway through a round gets the same predecessors as against the round's starting matrices |
| Etapa1Graph.RelaxRow | etapa1/Graph.hpp:96-102 | only row i changes; each cell becomes the relaxed distance and, exactly where it improves, takes `pred[k][j]` |
| Etapa1Graph.WalkBack | etapa1/Graph.hpp:114-121 | the backward walk either meets -1 and gives [], reaches u and gives a path from u to v whose steps follow the row, or never ends (None) |
| Etapa1Graph.WalkArrives | etapa1/Graph.hpp:114-121 | a walk that reaches u yields exactly the reversed trail, which starts with u and ends with v |
| Etapa1Graph.PathAlongEntries | etapa1/Graph.hpp:99-103 | a path following predecessors set from real edges walks along adjacency entries |
| Etapa1Graph.Graph.constructor | etapa1/Graph.hpp:47-53 | V empty lists, no flags, and no predecessor matrix yet |
| Etapa1Graph.Graph.AddEdge | etapa1/Graph.hpp:56-64 | appends u→v and sets required[u][v], plus the reverse when undirected; directed becomes true on an arc and never reverts |
| Etapa1Graph.Graph.SetRequiredNode | etapa1/Graph.hpp:67-69 | sets one flag and changes nothing else |
| Etapa1Graph.Graph.NumNodes | etapa1/Graph.hpp:150-153 | the node count is the number of lists |
| Etapa1Graph.Graph.FloydWarshall | etapa1/Graph.hpp:81-107 | stores the predecessor matrix, keeps predecessors matching finite distances, and with non-negative costs returns the shortest paths from the last-edge matrix and the predecessor table `FwPred` of the same recurrence |
| Etapa1Graph.Graph.ReconstructPath | etapa1/Graph.hpp:111-122 | [] before floydWarshall or when pred[u][v] is -1; otherwise the outcome of the backward walk, which starts with u, ends with v and follows adjacency entries |
| Etapa3Graph.Graph.constructor | etapa3/Graph.hpp:44-49 | V > 0 empty lists |
| Etapa3Graph.NewGraph | etapa3/Graph.hpp:44-49 | construction fails exactly when the vertex count is at most 0 |
| Etapa3Graph.Graph.AddEdge | etapa3/Graph.hpp:59-67 | an endpoint out of range leaves the lists unchanged; otherwise appends u→v, plus v→u when undirected |
| Etapa3Graph.Graph.NumNodes | etapa3/Graph.hpp:73-75 | the node count is the number of lists and is positive |
| Etapa3Graph.Graph.FloydWarshall | etapa3/Graph.hpp:81-101 | with non-negative costs the shortest-path matrix from the minimum initial matrix, symmetric when every edge is undirected |
| Etapa3Solution.NewRoute | etapa3/Solution.hpp:31-36 | a fresh route has no services, demand 0 and cost 0 |
| Etapa3Solution.Solution.constructor | etapa3/Solution.hpp:43-47 | a fresh solution has cost 0, no routes and time 0 |
| Etapa3Solution.DemandSumPermutation | etapa3/Solver.hpp:100-103 | the demand of a route depends only on the multiset of its services |
| Etapa3Solution.DemandSumRemove | etapa3/Solver.hpp:153 | removing a service lowers the demand by its demand |
| Etapa3RouteCost.Dist | etapa3/Solver.hpp:64-68 | an out-of-range index gives infinity; otherwise the matrix entry |
| Etapa3RouteCost.RouteCostFromByLegs | etapa3/Solver.hpp:77-89 | the accumulated cost is finite exactly when every leg is, and is then the sum of the legs plus the service terms |
| Etapa3RouteCost.RouteCostByLegs | etapa3/Solver.hpp:75-90 | an empty route costs 0; otherwise it is infinite exactly when some leg is, and otherwise the sum of legs and service terms |
| Etapa3RouteCost.RouteCostFloor | etapa3/Solver.hpp:75-90 | a finite route cost is bounded below by lower bounds on distances and terms |
| Etapa3Metrics.RefreshAll | etapa3/Solver.hpp:99-105 | each route gets its demand sum and its route cost |
| Etapa3Metrics.FirstInf | etapa3/Solver.hpp:104-108 | the first route whose cost is infinite, or the number of routes |
| Etapa3Metrics.DropEmpty | etapa3/Solver.hpp:111-112 | only non-empty routes remain |
| Etapa3Metrics.DropEmptyMembers | etapa3/Solver.hpp:111-112 | a route survives exactly when it was present and non-empty |
| Etapa3Metrics.FlattenDropEmpty | etapa3/Solver.hpp:111-112 | dropping empty routes keeps the served sequence |
| Etapa3Metrics.CostSumDropEmpty | etapa3/Solver.hpp:105-112 | dropping empty routes keeps the total |
| Etapa3Metrics.RecalculatedInfIff | etapa3/Solver.hpp:97-113 | the total is infinite exactly when some route cost is |
| Etapa3Metrics.RecalculatedAllFinite | etapa3/Solver.hpp:97-113 | with all routes finite, the result is the refreshed routes minus the empty ones, and the sum of their costs |
| Etapa3Metrics.RecalculatedKeepsServices | etapa3/Solver.hpp:97-113 | recomputation never changes which services are served, in which order |
| Etapa3Metrics.RecalculatedFinite | etapa3/Solver.hpp:97-113 | a finite result has every cache current and a total equal to the sum of route costs |
| Etapa3Metrics.SettledIff | etapa3/Solver.hpp:97-113 | a solution is settled exactly when recomputing leaves it unchanged with a finite total |
| Etapa3Metrics.RecalculatedSettles | etapa3/Solver.hpp:97-113 | recomputing a second time changes nothing |
| Etapa3Metrics.RecalculatedCapacity | etapa3/Solver.hpp:100-103 | routes within capacity stay within capacity after recomputation |
| Etapa3Metrics.CostSumFloor | etapa3/Solver.hpp:105-107 | the total of current routes is at least the number of services served times the sum of one service-term floor and two distance floors |
| Etapa3Moves.Remove | etapa3/Solver.hpp:154-155 | removing one service removes exactly it from the multiset |
| Etapa3Moves.Insert | etapa3/Solver.hpp:159-160 | inserting adds exactly that service to the multiset |
| Etapa3Moves.ReverseRange | etapa3/Solver.hpp:221-222 | reversing a segment keeps the length and the multiset |
| Etapa3Moves.ReverseRangeAt | etapa3/Solver.hpp:221-222 | positions i..j are mirrored and all others kept |
| Etapa3Moves.NoRelocateMeansNone | etapa3/Solver.hpp:147-173 | the scan finds nothing exactly when no relocation to another route that fits improves the two route costs |
| Etapa3Moves.NoSwapMeansNone | etapa3/Solver.hpp:179-206 | the scan finds nothing exactly when no exchange that fits both routes improves them |
| Etapa3Moves.NoTwoOptMeansNone | etapa3/Solver.hpp:213-235 | the scan finds nothing exactly when no segment reversal of length at least 2 improves its route |
| Etapa3Moves.RelocateLowers | etapa3/Solver.hpp:162-168 | an accepted relocation strictly lowers the recomputed total |
| Etapa3Moves.RelocateKeepsServices | etapa3/Solver.hpp:163-166 | relocation keeps the multiset of all served services |
| Etapa3Moves.RelocateKeepsCapacity | etapa3/Solver.hpp:153 | with non-negative demands both affected routes stay within capacity |
| Etapa3Moves.RelocateEffect | etapa3/Solver.hpp:147-173 | an accepted relocation gives a settled solution with a strictly lower total and the same services, and, with non-negative demands, capacity kept |
| Etapa3Moves.SwapLowers | etapa3/Solver.hpp:194-200 | an accepted swap strictly lowers the recomputed total |
| Etapa3Moves.SwapKeepsServices | etapa3/Solver.hpp:195-198 | swap keeps the multiset of all served services |
| Etapa3Moves.SwapKeepsCapacity | etapa3/Solver.hpp:186-187 | both swapped routes stay within capacity |
| Etapa3Moves.SwapEffect | etapa3/Solver.hpp:179-206 | an accepted swap gives a settled solution with a strictly lower total, the same services, and capacity kept |
| Etapa3Moves.TwoOptLowers | etapa3/Solver.hpp:224-228 | an accepted reversal strictly lowers the recomputed total |
| Etapa3Moves.TwoOptKeepsServices | etapa3/Solver.hpp:221-226 | 2-opt keeps the multiset of all served services |
| Etapa3Moves.TwoOptKeepsDemand | etapa3/Solver.hpp:221-226 | 2-opt keeps the demand of the route it edits |
| Etapa3Moves.TwoOptEffect | etapa3/Solver.hpp:213-235 | an accepted reversal gives a settled solution with a strictly lower total, the same services, and capacity kept |
| Etapa3Moves.RecalculatedAfterEdit | etapa3/Solver.hpp:167-168 | after editing two routes of a settled solution, the recomputed total changes by exactly the two routes' cost changes |
| Etapa3Moves.SwapDemand | etapa3/Solver.hpp:186-187 | replacing one service changes the demand by the difference |
| Etapa3Moves.RemoveDemand | etapa3/Solver.hpp:153-155 | removing a service lowers the demand by its demand |
| Etapa3Moves.InsertDemand | etapa3/Solver.hpp:153-160 | inserting a service raises the demand by its demand |
| Etapa3Solver.FirstBad | etapa3/Solver.hpp:124-135 | the first service that does not fit a vehicle or whose own tour is unreachable |
| Etapa3Solver.FirstBadIff | etapa3/Solver.hpp:124-135 | construction stops early exactly when some service is not admissible |
| Etapa3Solver.Singles | etapa3/Solver.hpp:124-133 | one route per service, in catalog order, with ids 1..n |
| Etapa3Solver.FlattenSingles | etapa3/Solver.hpp:124-133 | the single routes serve exactly the catalog, in order |
| Etapa3Solver.InitialSolutionFeasible | etapa3/Solver.hpp:120-141 | when every service is admissible, the construction is settled, finite, one service per route, serves the catalog and keeps capacity |
| Etapa3Solver.Renumbered | etapa3/Solver.hpp:279-281 | route i gets id i + 1 and nothing else changes |
| Etapa3Solver.RenumberedSolved | etapa3/Solver.hpp:279-281 | renumbering keeps a solved solution solved, and it is then never reported infeasible |
| Etapa3Solver.OptimumIgnoresIds | etapa3/Solver.hpp:242-259 | route ids play no part in whether a move improves |
| Etapa3Solver.RefreshStep | etapa3/Solver.hpp:104-108 | one iteration of the metric loop keeps its invariant, or stops at the first infinite route with the result of the recomputation |
| Etapa3Solver.Solver.constructor | etapa3/Solver.hpp:46-51 | keeps the graph, depot and capacity, no services, and computes nothing: the distance cache starts empty |
| Etapa3Solver.Solver.EnsureDistancesCalculated | etapa3/Solver.hpp:31-36 | the first call fills the cache with the table of the graph as it stands then (the shortest-walk table for non-negative costs); later calls keep the cached table |
| Etapa3Solver.Solver.GetDistance | etapa3/Solver.hpp:64-68 | fills the cache if needed, then infinity for an index outside the table and the table's entry otherwise |
| Etapa3Solver.NewSolver | etapa3/Solver.hpp:46-51 | construction fails exactly for a null graph, a depot outside [0, V), or capacity at most 0; otherwise the solver starts with no services and an empty distance cache |
| Etapa3Solver.Solver.AddService | etapa3/Solver.hpp:56-58 | appends the service to the catalog |
| Etapa3Solver.Solver.CalculateRouteCost | etapa3/Solver.hpp:75-90 | the accumulator loop computes the route cost |
| Etapa3Solver.Solver.SumDemands | etapa3/Solver.hpp:100-103 | the loop computes the demand sum |
| Etapa3Solver.Solver.RecalculateRoutes | etapa3/Solver.hpp:97-113 | the in-place loop yields exactly the recomputed routes and total, including the early return on infinity |
| Etapa3Solver.Solver.RecalculateSolutionMetrics | etapa3/Solver.hpp:97-113 | the solution's routes and total become the recomputed ones |
| Etapa3Solver.Solver.ConstructInitialSolution | etapa3/Solver.hpp:120-141 | stops with an infinite total and the routes built so far at the first inadmissible service; otherwise the recomputed single routes |
| Etapa3Solver.Solver.FindRelocate | etapa3/Solver.hpp:148-171 | the nested scan returns the first improving relocation in loop order, or shows that none exists |
| Etapa3Solver.Solver.TryRelocate | etapa3/Solver.hpp:147-173 | false leaves the solution unchanged with no relocation left; true applies the first improving one and recomputes |
| Etapa3Solver.Solver.FindSwap | etapa3/Solver.hpp:180-204 | the nested scan returns the first improving swap in loop order, or shows that none exists |
| Etapa3Solver.Solver.TrySwap | etapa3/Solver.hpp:179-206 | false leaves the solution unchanged with no swap left; true applies the first improving one and recomputes |
| Etapa3Solver.Solver.FindTwoOpt | etapa3/Solver.hpp:214-233 | the nested scan returns the first improving reversal in loop order, or shows that none exists |
| Etapa3Solver.Solver.Try2Opt | etapa3/Solver.hpp:213-235 | false leaves the solution unchanged with no reversal left; true applies the first improving one and recomputes |
| Etapa3Solver.Solver.ImproveOnce | etapa3/Solver.hpp:245-257 | one round either strictly lowers the total, keeping services, settledness and, with non-negative demands, capacity, or changes nothing at a local optimum |
| Etapa3Solver.Solver.Progress | etapa3/Solver.hpp:242-259 | the total is bounded below while the services are kept, so the search terminates |
| Etapa3Solver.Solver.LocalSearch | etapa3/Solver.hpp:242-259 | ends settled at a local optimum with the same services, a total no higher, and, with non-negative demands, capacity kept |
| Etapa3Solver.Solver.Solve | etapa3/Solver.hpp:265-283 | first fills the distance cache from the graph as it stands at solve time unless it is already filled; then, against that table: ids are 1..k; infeasible exactly when construction fails; otherwise settled, locally optimal, the catalog served once, and, with non-negative demands, capacity kept |
| Etapa3Solver.Solver.SolveCached | etapa3/Solver.hpp:269-283 | with the cache filled, against the cached table: ids are 1..k; infeasible exactly when construction fails; otherwise settled, locally optimal, the catalog served once, and, with non-negative demands, capacity kept |
| Etapa3Solver.RenumberRoutes | etapa3/Solver.hpp:279-281 | the routes become the renumbered ones and the total is unchanged |
| Etapa2Solver.Cleared | etapa2/Solver.hpp:33-38 | clearing gives a fresh route at the same depot |
| Etapa2Solver.ServiceNodes | etapa2/Solver.hpp:176-181 | a service adds its u, and also its v unless it is a node |
| Etapa2Solver.NextFit | etapa2/Solver.hpp:236-248 | the first unserved service at or after a position that still fits, or the end |
| Etapa2Solver.FillTakes | etapa2/Solver.hpp:227-272 | a route takes distinct unserved services and marks exactly those |
| Etapa2Solver.FillLoad | etapa2/Solver.hpp:227-272 | a route's load never exceeds capacity, and no unserved service left behind would fit |
| Etapa2Solver.PackCovers | etapa2/Solver.hpp:205-284 | every route is non-empty and within capacity, and together the routes hold each unserved service exactly once |
| Etapa2Solver.PackFinishes | etapa2/Solver.hpp:216-248 | with non-negative demands the packing fails exactly when some unserved service is heavier than a vehicle |
| Etapa2Solver.EstimateOfBuilt | etapa2/Solver.hpp:299-322 | the estimate of a built route is the sum of its service terms plus 50 per service |
| Etapa2Solver.EstimateAtLeast | etapa2/Solver.hpp:299-322 | with well-formed services the estimate is at least 50 per service |
| Etapa2Solver.Solver.constructor | etapa2/Solver.hpp:59-82 | keeps depot and capacity, no services or routes, and takes distances and predecessors from the graph |
| Etapa2Solver.NewSolver | etapa2/Solver.hpp:59-82 | construction fails exactly for a null graph, a depot outside [0, V), or capacity at most 0; otherwise the solver has the graph's distances and predecessors and no services or routes |
| Etapa2Solver.Solver.AddService | etapa2/Solver.hpp:85-104 | appends the service exactly when its endpoints are in range and its demand and costs are not negative |
| Etapa2Solver.Solver.GetDistance | etapa2/Solver.hpp:107-117 | an out-of-range index gives infinity; otherwise the matrix entry |
| Etapa2Solver.Solver.Insertion | etapa2/Solver.hpp:153-202 | into a non-empty route the estimate is the service term plus 100; an infinite result adds no path |
| Etapa2Solver.Solver.InsertionIsTour | etapa2/Solver.hpp:157-184 | into an empty route, for a service whose two ends coincide whenever its kind is 'N' (a node service sits on one node), the cost is the depot-service-depot tour, as the later route cost computes it |
| Etapa2Solver.Solver.GetPath | etapa2/Solver.hpp:120-150 | [from] when from == to, [] out of range; otherwise non-empty exactly when the walk reaches from, and then a path from from to to following predecessors |
| Etapa2Solver.Solver.NoArrival | etapa2/Solver.hpp:131-149 | a walk that has not reached the start within 2V steps never will |
| Etapa2Solver.Solver.FirstUnserved | etapa2/Solver.hpp:218-224 | -1 exactly when all are served; otherwise the first unserved |
| Etapa2Solver.Solver.Alternative | etapa2/Solver.hpp:236-248 | the next unserved service that fits after the current one, or -1 |
| Etapa2Solver.Solver.FillRoute | etapa2/Solver.hpp:227-272 | the inner loop builds the route that the first-fit specification takes |
| Etapa2Solver.Solver.SimplifiedConstructive | etapa2/Solver.hpp:205-284 | diverges exactly when the packing fails; otherwise the routes are the packed groups, re-estimated |
| Etapa2Solver.Solver.RecalculateAllCosts | etapa2/Solver.hpp:287-296 | each route's cost becomes its estimate, read as `INF` when it equals `INT_MAX`, and the total is the sum of the estimates other than that one |
| Etapa2Solver.Solver.CalculateRouteCost | etapa2/Solver.hpp:299-322 | 0 for an empty route, otherwise the service terms plus 50 per service |
| Etapa2Solver.Advance | etapa2/Solver.hpp:210-279 | one outer round removes served services and keeps the packing invariant |

## Left out

- Command-line menus, directory scanning and instance parsing (`main.cpp`, `etapa1.cpp`, `etapa2/main.cpp`, `etapa3/main.cpp`): stream I/O, with no routing logic.
- `saveSolution`, `exportToDOT`, `printStats` and `printStatsToFile`: file and console output. The same goes for the `cout`/`cerr` progress lines of `solve`, `constructInitialSolution` and etapa2's `simplifiedConstructive`, and for the `name` argument of the etapa3 constructor, which only labels those lines. `Graph.hpp:226` calls an undefined `numVertices`. The "inviavel" decision of `saveSolution` is kept as the predicate `Etapa3Solver.Infeasible`.
- The `chrono` timing of `solve`: the elapsed time is a parameter of `Etapa3Solver.Solver.Solve`. The clock-seeded `mt19937` of `etapa2/Solver.hpp` is never used.
- `density`, `averagePathLength` and `betweenness`: floating point, and outside the routing core.
- Machine integers: costs, demands and distances are unbounded integers with an explicit `Inf`. Overflow of `int` and `long long` sums near the `INF` sentinel is not modelled.
- Etapa3Solver.Solver.CalculateRouteCost: in the C++ it reaches the table through `getDistance`, which fills the cache when it is still empty. The model reads the cached table `distances` and does not fill it; with an empty cache every leg is `Inf`. `Solve` and `GetDistance` do fill it first, so a solver built before its graph's edges and then solved, as `etapa3/main.cpp` does, is modelled with the table of the finished graph.
- Etapa3Solver.Solver.RecalculateRoutes: reads the cached table `distances` without the lazy fill `getDistance` performs, as for CalculateRouteCost above; it is called with a filled cache from `Solve`.
- Etapa3Solver.Solver.RecalculateSolutionMetrics: reads the cached table `distances` without the lazy fill `getDistance` performs, as for CalculateRouteCost above; it is called with a filled cache from `Solve`.
- Etapa3Solver.Solver.ConstructInitialSolution: reads the cached table `distances` without the lazy fill `getDistance` performs, as for CalculateRouteCost above; it is called with a filled cache from `Solve`.
- Etapa3Solver.Solver.FindRelocate: reads the cached table `distances` without the lazy fill `getDistance` performs, as for CalculateRouteCost above; it is called with a filled cache from `Solve`.
- Etapa3Solver.Solver.TryRelocate: reads the cached table `distances` without the lazy fill `getDistance` performs, as for CalculateRouteCost above; it is called with a filled cache from `Solve`.
- Etapa3Solver.Solver.FindSwap: reads the cached table `distances` without the lazy fill `getDistance` performs, as for CalculateRouteCost above; it is called with a filled cache from `Solve`.
- Etapa3Solver.Solver.TrySwap: reads the cached table `distances` without the lazy fill `getDistance` performs, as for CalculateRouteCost above; it is called with a filled cache from `Solve`.
- Etapa3Solver.Solver.FindTwoOpt: reads the cached table `distances` without the lazy fill `getDistance` performs, as for CalculateRouteCost above; it is called with a filled cache from `Solve`.
- Etapa3Solver.Solver.Try2Opt: reads the cached table `distances` without the lazy fill `getDistance` performs, as for CalculateRouteCost above; it is called with a filled cache from `Solve`.
- Etapa3Solver.Solver.LocalSearch: reads the cached table `distances` without the lazy fill `getDistance` performs, as for CalculateRouteCost above; it is called with a filled cache from `Solve`.
- `etapa2/Graph.hpp` is not part of this model. The etapa2 solver uses the `etapa1` graph, whose `floydWarshall` returns the pair of matrices the etapa2 constructor reads.
- The `served` field of the etapa2 `Service` is never read. The `position` argument of `calculateInsertion` is unused and is not a parameter.
- Null graph pointers and the constructors' exceptions: `Etapa3Solver.NewSolver` and `Etapa2Solver.NewSolver` return `None` exactly where the C++ constructors throw. The class constructors behind them take only the arguments that pass those checks. The constructors of `Graph.hpp:47` and `etapa1/Graph.hpp:47` take an `int` vertex count, and a negative one makes `adj.resize` throw; `RootGraph.Graph.constructor` and `Etapa1Graph.Graph.constructor` take a `nat` and do not model that exception.
- Etapa2Solver.Solver.SimplifiedConstructive: when a service is heavier than a vehicle the C++ loop never ends. The model returns `diverges` instead of looping, and that case is exactly `Pack` failing.
- Etapa1Graph.Graph.ReconstructPath: the C++ loop has no step bound and runs forever when the predecessor walk cycles without reaching `u`. The model returns `None` in that case.
- Etapa1Graph.Graph.FloydWarshall, RootGraph.Graph.FloydWarshall, Etapa3Graph.Graph.FloydWarshall: the shortest-path results are stated for non-negative edge costs only. With negative costs only the shape of the matrix, and in etapa1 the predecessor invariant, are stated.
- Etapa3Solver.Solver.EnsureDistancesCalculated: the table that fills the cache is stated to be the shortest-walk table for non-negative edge costs only, because it comes from the graph's `floydWarshall` above; with negative costs only its shape is stated.
- Etapa3Solver.Solver.GetDistance: the freshly filled table is the shortest-walk table for non-negative edge costs only, as for EnsureDistancesCalculated.
- Etapa3Solver.Solver.Solve: the freshly filled table is the shortest-walk table for non-negative edge costs only, as for EnsureDistancesCalculated.
- Etapa2Solver.Solver.constructor: `distances` is stated to be the shortest-walk table of the graph for non-negative edge costs only, because it comes from the etapa1 `floydWarshall` above; with negative costs only its shape and the predecessor invariant are stated.
- Etapa2Solver.NewSolver: the new solver's `distances` is the shortest-walk table for non-negative edge costs only, as for the constructor; the `None` cases are exact.
- Etapa3Solver.Solver.LocalSearch: capacity is guaranteed to be kept only when demands are non-negative. Relocation checks only the receiving route, so a negative demand could in principle break the source route's bound.
- Etapa3Moves.RelocateEffect: capacity is guaranteed to be kept only when demands are non-negative, for the same reason as LocalSearch.
- Etapa3Solver.Solver.ImproveOnce: capacity is guaranteed to be kept only when demands are non-negative, for the same reason as LocalSearch.
- Etapa3Solver.Solver.Solve: capacity is guaranteed to be kept only when demands are non-negative, for the same reason as LocalSearch.
- Etapa3Solver.Solver.SolveCached: capacity is guaranteed to be kept only when demands are non-negative, for the same reason as LocalSearch.
- Etapa3Solver.Solver.Try2Opt: the model performs one pass of the double loop. Since the C++ returns at the first improvement, its outer `while` never runs a second pass with effect.
- Etapa2Solver.Solver.RecalculateAllCosts: the C++ skips a route whose cost is `INF`. The `int` estimate equals `INF` only when it is exactly `INT_MAX`, and the model reads that value as `Inf` and skips it too. An estimate that would wrap past `INT_MAX` is covered by the machine-integer line above and is not modelled.
