# ACO-VRP solving engine in Dafny

This project models the core of an Ant Colony Optimization solver for the
capacitated vehicle routing problem (package `aco_vrp`) and proves
properties of that model.

The instance is a list of clients. The first client is the depot, with
demand 0. Every client keeps a list of (id, distance) pairs to the other
clients and a candidate list of its nearest customers.

A colony (`ACO`) holds:
- a set of ants, each with a capacity, a current client, a memory (the
  route so far) and a finish flag;
- a symmetric pheromone matrix;
- a symmetric matrix of traversed-edge marks;
- the best routes collected so far.

The solver (`VRP`) keeps one visit counter per client and builds routes in
rounds:
- an ant at the depot takes a depot candidate (a random one while the depot
  is unvisited, otherwise the first unvisited one);
- any other ant takes the first admissible candidate of its current client;
- an ant returns to the depot when nothing fits or its capacity reaches 0.

When all ants have finished, the heaviest route (ties broken by the
shortest distance, then by the last route found) becomes the round's route,
and its visits are counted. The candidate-list strategy (`acovrplc`)
repeats rounds until every counter is nonzero. Routes can then be improved
by 2-opt, and the solver can pick the colony with the smallest total
distance.

## Modules

| file | module | source | form |
|---|---|---|---|
| `wrappers.dfy` | `Wrappers` | Java `null` | `Option` datatype |
| `clients.dfy` | `Clients` | `Client.java`, id lookups | class `Client`; lookups as functions with lemmas |
| `ants.dfy` | `Ants` | `Ant.java` | class `Ant` with ghost capacity accounting |
| `routes.dfy` | `Routes` | `calculateDistance`, `calculateDemand` | functions, loop methods proved against them |
| `candidates.dfy` | `Candidates` | `Candidates.java` | stable sort and candidate list as functions; in-place builder class |
| `two_opt.dfy` | `TwoOpt` | `TwoOpt.java` | `swap` as a loop, `improveRoute` as nested loops |
| `colony.dfy` | `Colony` | `ACO.java` | class `Aco` over two `array2` matrices |
| `solving.dfy` | `Selection` | selection rules of `VRP.java` | reference functions and their lemmas |
| `vrp.dfy` | `Solver` | `VRP.java` | class `Vrp` with the round loop and `acovrplc` |

The model follows the code in four places where a reader might expect
otherwise:
- In `obtainBestRoute`, the last route of maximal demand and minimal
  distance wins a tie, not the first.
- With a candidate length of 0, `searchCandidates` returns every non-depot
  id, unless the nearest entry is the depot. In that case it returns
  nothing.
- `acovrplc` stops when every counter is nonzero, the depot's included.
- `obtainBestDistance` treats a distance of 0 as "not set yet".
- A route with a single customer can carry more than the capacity Q. The
  first customer comes from the depot rule (`selectNextCD`), which does not
  check demand, so the route invariant allows that one overdraw.

## Model

| member | source | states |
|---|---|---|
| Clients.Client.constructor | proyecto_tesis/src/aco_vrp/Client.java:35-43 | a new client has the given id, city and state, demand -1, is not the depot, and has empty candidate and distance lists |
| Clients.Client.SetDemand | proyecto_tesis/src/aco_vrp/Client.java:105-107 | sets the demand and changes no other field |
| Clients.Client.SetIsDepot | proyecto_tesis/src/aco_vrp/Client.java:114-116 | sets the depot flag and changes no other field |
| Clients.Client.SetCandidates | proyecto_tesis/src/aco_vrp/Client.java:122-124 | sets the candidate list and changes no other field |
| Clients.Client.SetDistances | proyecto_tesis/src/aco_vrp/Client.java:130-132 | sets the distance list and changes no other field |
| Clients.Client.SearchDistance | proyecto_tesis/src/aco_vrp/Client.java:139-150 | the loop returns the distance of the last pair with the id, and 0 when no pair has it |
| Clients.DistanceInMeaning | proyecto_tesis/src/aco_vrp/Client.java:139-150 | the reference lookup is 0 when no pair names the id, and otherwise the distance of the last pair naming it |
| Clients.DistanceInNonnegative | proyecto_tesis/src/aco_vrp/Client.java:139-150 | a list of nonnegative distances gives a nonnegative lookup, missing ids included |
| Clients.LastIndexOf | proyecto_tesis/src/aco_vrp/VRP.java:228-241 | the index is -1 or a position of a client with that id |
| Clients.LastIndexOfMeaning | proyecto_tesis/src/aco_vrp/VRP.java:228-241 | no client after the index has the id, and the index is -1 exactly when no client has it |
| Clients.LastIndexOfOwnId | proyecto_tesis/src/aco_vrp/VRP.java:228-241 | with unique ids, looking up the id of client k finds k |
| Clients.IdsAt | proyecto_tesis/src/aco_vrp/VRP.java:286-297 | position k of the id list is the id of pair k |
| Ants.Ant.constructor | proyecto_tesis/src/aco_vrp/Ant.java:29-36 | a new ant stands at its start client, remembers only it, is unfinished and has the full capacity |
| Ants.Ant.SetCapacity | proyecto_tesis/src/aco_vrp/Ant.java:82-84 | sets the capacity and restarts the accounting from it; memory, position and flag untouched |
| Ants.Ant.SetMemory | proyecto_tesis/src/aco_vrp/Ant.java:90-92 | sets the memory and nothing else |
| Ants.Ant.SetFinish | proyecto_tesis/src/aco_vrp/Ant.java:98-100 | sets the finish flag and nothing else |
| Ants.Ant.AddCurrentClient | proyecto_tesis/src/aco_vrp/Ant.java:106-111 | the client becomes current and is appended to the memory. Its demand is taken off the capacity, which stays the start capacity minus all demands charged since |
| Candidates.SortSorted | proyecto_tesis/src/aco_vrp/Candidates.java:51-56 | the sorted list is in nondecreasing distance order |
| Candidates.SortPermutation | proyecto_tesis/src/aco_vrp/Candidates.java:51-56 | the sorted list is a permutation of the original |
| Candidates.SortStable | proyecto_tesis/src/aco_vrp/Candidates.java:51-56 | the pairs of any one distance keep their original order |
| Candidates.SortIdentity | proyecto_tesis/src/aco_vrp/Candidates.java:51-56 | an already sorted list is left as it is |
| Candidates.SortIdempotent | proyecto_tesis/src/aco_vrp/Candidates.java:51-56 | sorting twice is sorting once |
| Candidates.SortKeepsIds | proyecto_tesis/src/aco_vrp/Candidates.java:51-56 | sorting neither adds pairs nor loses ids |
| Candidates.CandidatesExcludeDepot | proyecto_tesis/src/aco_vrp/Candidates.java:58-66 | the candidate list never holds the depot's id, and every id in it comes from the distance list |
| Candidates.CandidatesSize | proyecto_tesis/src/aco_vrp/Candidates.java:58-66 | the result is a prefix of the non-depot ids in list order. For a positive length it has at most that many ids, and all of them when it is shorter. A negative length, or length 0 with the first pair not the depot's, gives every non-depot id |
| Candidates.CandidatesNonempty | proyecto_tesis/src/aco_vrp/Candidates.java:58-66 | a nonempty list without the depot gives at least one candidate |
| Candidates.CandidatesNearest | proyecto_tesis/src/aco_vrp/Candidates.java:51-66 | on a sorted list the candidates are the ids of the first non-depot pairs, and none is farther than a non-depot pair left out |
| Candidates.BreakResult | proyecto_tesis/src/aco_vrp/Candidates.java:63-65 | stopping once the collected ids reach the length gives the candidate list |
| Candidates.CandidateBuilder.constructor | proyecto_tesis/src/aco_vrp/Candidates.java:24-26 | the builder keeps the requested length |
| Candidates.CandidateBuilder.SearchCandidates | proyecto_tesis/src/aco_vrp/Candidates.java:47-69 | the client's distance list is replaced by its stable sort, and the result is the candidate list of the sorted list |
| Candidates.CandidateBuilder.ObtainCandidates | proyecto_tesis/src/aco_vrp/Candidates.java:33-39 | every client's distances are sorted in place, and its candidates are taken from them with clients[0] as the depot |
| Routes.CalculateDistance | proyecto_tesis/src/aco_vrp/VRP.java:248-260 | the loop sums the looked-up distances of consecutive stops; 0 for routes of at most one stop |
| Routes.CalculateDemand | proyecto_tesis/src/aco_vrp/VRP.java:267-277 | the loop sums the demands of all stops |
| Routes.RouteDistanceNonnegative | proyecto_tesis/src/aco_vrp/VRP.java:248-260 | stops with nonnegative distance lists give a nonnegative route distance |
| Routes.RouteDemandPermutation | proyecto_tesis/src/aco_vrp/VRP.java:267-277 | two routes with the same stops have the same demand |
| TwoOpt.Reverse | proyecto_tesis/src/aco_vrp/TwoOpt.java:72-75 | position k of the reversal holds element n-1-k |
| TwoOpt.SwappedAt | proyecto_tesis/src/aco_vrp/TwoOpt.java:64-82 | positions before i and after j are kept; position k in [i, j] gets element i+j-k |
| TwoOpt.SwappedSplit | proyecto_tesis/src/aco_vrp/TwoOpt.java:64-82 | the result is the prefix, the reversed segment and the suffix |
| TwoOpt.SwappedPermutation | proyecto_tesis/src/aco_vrp/TwoOpt.java:64-82 | the result is a permutation of the route |
| TwoOpt.SwappedTwice | proyecto_tesis/src/aco_vrp/TwoOpt.java:64-82 | reversing the same segment twice restores the route |
| TwoOpt.Swap | proyecto_tesis/src/aco_vrp/TwoOpt.java:64-82 | the three copying loops build exactly the route with segment [i, j] reversed |
| TwoOpt.SwappedKeepsStops | proyecto_tesis/src/aco_vrp/TwoOpt.java:40-41 | reversing an inner segment keeps the stops and both end points |
| TwoOpt.TryReversal | proyecto_tesis/src/aco_vrp/TwoOpt.java:42-48 | the reversal is kept exactly when it is strictly shorter, and then carries its own distance |
| TwoOpt.SweepRow | proyecto_tesis/src/aco_vrp/TwoOpt.java:41-49 | one row of the scan either improves the distance strictly, or changes nothing and tried every j of the row without gain |
| TwoOpt.Sweep | proyecto_tesis/src/aco_vrp/TwoOpt.java:40-50 | a full pass either improves the distance strictly, or changes nothing and no reversal is shorter than the bound |
| TwoOpt.ImproveRoute | proyecto_tesis/src/aco_vrp/TwoOpt.java:31-55 | the result is the input rearranged with the same ends, and is either the input or strictly shorter than the given distance. No reversal of it is shorter (a local optimum) |
| TwoOpt.RearrangedNonnegative | proyecto_tesis/src/aco_vrp/TwoOpt.java:36-52 | a rearranged route of nonnegative stops stays nonnegative, so the search ends |
| Colony.Aco.constructor | proyecto_tesis/src/aco_vrp/ACO.java:36-43 | a new colony has no best routes, m numbered ants at clients[0], and both matrices initialised |
| Colony.Aco.CreateAnts | proyecto_tesis/src/aco_vrp/ACO.java:51-58 | m distinct new ants with ids 0..m-1 (none for m <= 0), each with capacity Q, at the depot, memory [depot], unfinished |
| Colony.Aco.AddPheromones | proyecto_tesis/src/aco_vrp/ACO.java:64-83 | n by n matrices: tau0 off the diagonal and 0 on it; marks false off the diagonal and unset on it |
| Colony.Aco.GetIndexClient | proyecto_tesis/src/aco_vrp/ACO.java:166-179 | the last position of the client's id, or -1 |
| Colony.Aco.SetVisitClient | proyecto_tesis/src/aco_vrp/ACO.java:145-159 | a cell becomes true exactly when the route joins its two clients in either direction; every other cell keeps its value, and symmetry is kept |
| Colony.Aco.VisitEdge | proyecto_tesis/src/aco_vrp/ACO.java:147-157 | one step of the route loop marks the next edge on top of the edges marked so far |
| Colony.Aco.MarkVisited | proyecto_tesis/src/aco_vrp/ACO.java:152-156 | cells [x][y] and [y][x] become true, and no other cell changes |
| Colony.Aco.UpdateLP | proyecto_tesis/src/aco_vrp/ACO.java:184-197 | only off-diagonal cells marked true change, each to (1-alpha)*tau + alpha*tau0 |
| Colony.Aco.UpdateGP | proyecto_tesis/src/aco_vrp/ACO.java:204-217 | each cell is updated once per route edge joining its clients in either direction; no other cell changes, and symmetry is kept |
| Colony.Aco.UpdateEdge | proyecto_tesis/src/aco_vrp/ACO.java:208-215 | both cells of one edge get the same global update of [x][y]; nothing else changes |
| Colony.Aco.EvaporateP | proyecto_tesis/src/aco_vrp/ACO.java:223-231 | delta is added to every off-diagonal cell; the diagonal and symmetry are kept |
| Colony.LocalUpdateFixed | proyecto_tesis/src/aco_vrp/ACO.java:191-192 | a cell at tau0 stays at tau0 |
| Colony.LocalUpdateBetween | proyecto_tesis/src/aco_vrp/ACO.java:191-192 | for alpha in [0, 1], the local update moves a value between itself and tau0 |
| Colony.GlobalRepeatFixed | proyecto_tesis/src/aco_vrp/ACO.java:212-213 | a cell at 1/distance stays there however often it is updated |
| Colony.GlobalRepeatNonnegative | proyecto_tesis/src/aco_vrp/ACO.java:212-213 | for alpha in [0, 1] and a positive distance, repeated updates keep a cell nonnegative |
| Colony.EdgeCountSymmetric | proyecto_tesis/src/aco_vrp/ACO.java:154-155 | a route joins a and b as often as it joins b and a |
| Colony.EdgeCountPositive | proyecto_tesis/src/aco_vrp/ACO.java:146-157 | the edge count is positive exactly when some step of the route joins the two cells |
| Colony.EdgeCountStep | proyecto_tesis/src/aco_vrp/ACO.java:146-157 | one more step of the route adds its own edge to the count |
| Selection.NextCandidateMeaning | proyecto_tesis/src/aco_vrp/VRP.java:305-332 | the rule returns nothing exactly when no candidate is admissible. Otherwise it returns the client of the first admissible one in list order: unvisited, not in the memory, and with demand within capacity |
| Selection.NextCandidateFits | proyecto_tesis/src/aco_vrp/VRP.java:312-326 | a client chosen is in the list, unvisited, not in the memory and fits the capacity |
| Selection.FirstUnvisitedMeaning | proyecto_tesis/src/aco_vrp/VRP.java:366-376 | nothing is found exactly when every id is visited; a found client is unvisited and listed |
| Selection.DepotChoiceMeaning | proyecto_tesis/src/aco_vrp/VRP.java:340-380 | a depot choice comes from the depot's lists. Once the depot was visited, the choice is an unvisited client, and there is none exactly when every listed client was visited |
| Selection.DedupMeaning | proyecto_tesis/src/aco_vrp/VRP.java:418-430 | deduplication keeps exactly the memories present, each once |
| Selection.MaxDemandMeaning | proyecto_tesis/src/aco_vrp/VRP.java:416-430 | the maximal demand is at least 0, at least every route's demand, and attained unless it is 0 |
| Selection.BestDistanceMeaning | proyecto_tesis/src/aco_vrp/VRP.java:388-405 | 0 when no route has the demand; otherwise the distance of some such route, and the minimum when all of them are positive |
| Selection.LastMatchMeaning | proyecto_tesis/src/aco_vrp/VRP.java:434-442 | nothing matches exactly when no route has both the demand and the distance; otherwise the last route that has them |
| Selection.BestRouteIsMaximal | proyecto_tesis/src/aco_vrp/VRP.java:413-445 | the best route is one of the memories, and no memory carries more demand |
| Selection.BestRouteIsShortest | proyecto_tesis/src/aco_vrp/VRP.java:413-445 | among memories of the best demand with positive distances, the best route is the shortest |
| Selection.BestRouteExists | proyecto_tesis/src/aco_vrp/VRP.java:413-445 | with at least one memory and nonnegative demands, a best route exists |
| Selection.TotalDistanceBounds | proyecto_tesis/src/aco_vrp/VRP.java:861-872 | with nonnegative routes the total is nonnegative and at least each route's distance |
| Selection.ZeroCountNone | proyecto_tesis/src/aco_vrp/VRP.java:548-559 | no counter is 0 exactly when the number of zero counters is 0 |
| Selection.ZeroCountDecreases | proyecto_tesis/src/aco_vrp/VRP.java:544-560 | counters that only grow never add zeros, and a zero that is raised lowers the count |
| Solver.DistinctBound | proyecto_tesis/src/aco_vrp/VRP.java:469-509 | a route without repeated clients has at most as many stops as there are clients, which bounds the rounds |
| Solver.DepotCountedTwice | proyecto_tesis/src/aco_vrp/VRP.java:451-459 | a route that starts and ends at the depot and passes no other depot stop raises the depot's counter by 2 |
| Solver.AddCustomer | proyecto_tesis/src/aco_vrp/VRP.java:485-487 | appending an admissible customer keeps the route invariant, with capacity Q minus the route's demand |
| Solver.ReturnToDepot | proyecto_tesis/src/aco_vrp/VRP.java:489-496 | appending the depot finishes the route and keeps the invariant |
| Solver.RouteDemandNonnegative | proyecto_tesis/src/aco_vrp/VRP.java:267-277 | stops of nonnegative demand give a nonnegative route demand |
| Solver.OnlyDepotHasItsId | proyecto_tesis/src/aco_vrp/VRP.java:477 | with unique ids, the only client with the depot's id is the depot |
| Solver.FirstStopUnvisited | proyecto_tesis/src/aco_vrp/VRP.java:349-377 | with the depot visited and some client not, the route's first customer is unvisited |
| Solver.VisitsProgress | proyecto_tesis/src/aco_vrp/VRP.java:544-559 | counting a round's route leaves the depot's counter nonzero, adds no zero counter, and removes one while any remains |
| Solver.ListsNameClients | proyecto_tesis/src/aco_vrp/Candidates.java:33-66 | sorted distance lists and candidate lists name only clients of the instance when the original lists did |
| Solver.DepotListsPrepared | proyecto_tesis/src/aco_vrp/Candidates.java:33-66 | the depot's sorted list still names every other client and never the depot. Its candidates leave out the depot and are nonempty when there is another client |
| Solver.Vrp.constructor | proyecto_tesis/src/aco_vrp/VRP.java:54-62 | the solver holds the instance and parameters, a new colony of m numbered ants at clients[0], and one counter at 0 per client |
| Solver.Vrp.SetUpVisits | proyecto_tesis/src/aco_vrp/VRP.java:160-166 | one counter per client, all 0 |
| Solver.Vrp.NextInt | proyecto_tesis/src/aco_vrp/VRP.java:346 | the draw lies in [0, bound) and consumes one value of the draw sequence |
| Solver.Vrp.SearchClient | proyecto_tesis/src/aco_vrp/VRP.java:210-221 | the last client with the id. Nothing is returned exactly when no client has it |
| Solver.Vrp.SearchIndexClient | proyecto_tesis/src/aco_vrp/VRP.java:228-241 | the last position with the client's id, and -1 exactly when no client has it |
| Solver.Vrp.GetOrderedDist | proyecto_tesis/src/aco_vrp/VRP.java:286-297 | the ids of the distance list, in list order |
| Solver.Vrp.SelectNextClient | proyecto_tesis/src/aco_vrp/VRP.java:305-332 | the loop returns the reference next-candidate choice for the ant's memory, capacity and current client |
| Solver.Vrp.FirstUnvisitedOf | proyecto_tesis/src/aco_vrp/VRP.java:366-376 | the loop returns the first unvisited client of the id list |
| Solver.Vrp.SelectNextCD | proyecto_tesis/src/aco_vrp/VRP.java:340-380 | returns the reference depot choice. It uses a drawn index while the depot is unvisited, and a draw is consumed only then |
| Solver.Vrp.ChooseNext | proyecto_tesis/src/aco_vrp/VRP.java:476-482 | a client chosen is in the list, not in the memory, not the depot, and fits unless it is the first customer. On the first move out of a visited depot whose lists name an unvisited client, an unvisited client is always chosen. Any client chosen past the first customer, or once the depot was visited, is unvisited |
| Solver.Vrp.MoveTo | proyecto_tesis/src/aco_vrp/VRP.java:485-492 | the customer is appended and its demand charged; at capacity exactly 0 the ant also returns to the depot and finishes. The memory keeps holding only unvisited customers, apart from a first one drawn while the depot was unvisited |
| Solver.Vrp.ReturnHome | proyecto_tesis/src/aco_vrp/VRP.java:493-496 | the depot is appended and the ant finishes, capacity unchanged; the memory still holds only unvisited customers, apart from a first one drawn while the depot was unvisited |
| Solver.Vrp.Advance | proyecto_tesis/src/aco_vrp/VRP.java:475-497 | an unfinished ant either appends a new customer, returning to the depot when that leaves capacity 0, or returns to the depot and finishes. Its route invariant holds, a first customer taken from a visited depot whose lists name an unvisited client is unvisited, and every other customer taken is unvisited |
| Solver.Vrp.Turn | proyecto_tesis/src/aco_vrp/VRP.java:471-497 | a finished ant is left as it is; an unfinished one makes one move; the route invariant, the unvisited first customer and the unvisited later customers are kept |
| Solver.Vrp.MoveAnts | proyecto_tesis/src/aco_vrp/VRP.java:470-498 | every finished ant is left as it is and every unfinished one makes one move, all keeping their route invariant, unvisited first customer and unvisited later customers |
| Solver.Vrp.AllFinished | proyecto_tesis/src/aco_vrp/VRP.java:500-508 | true exactly when every ant is finished |
| Solver.Vrp.Round | proyecto_tesis/src/aco_vrp/VRP.java:470-508 | every ant makes its move of the round, and the result is true exactly when all ants are now finished |
| Solver.Vrp.BuildRoutes | proyecto_tesis/src/aco_vrp/VRP.java:469-509 | starting from ready ants, the loop ends with every ant finished on a route from the depot back to the depot that keeps the route invariant (capacity Q minus demand served, no repeated customer). Each first customer is unvisited when the depot was visited and its lists name an unvisited client, and every customer is unvisited except a first one drawn while the depot was unvisited |
| Solver.Vrp.BestOfFinished | proyecto_tesis/src/aco_vrp/VRP.java:413-445 | the best of finished memories exists, has maximal demand and runs depot to depot through clients of the list. It repeats no customer, stays within Q unless it serves a single customer, and holds only unvisited customers apart from a first one drawn while the depot was unvisited |
| Solver.Vrp.BestOfRound | proyecto_tesis/src/aco_vrp/VRP.java:511 | every ant is finished at the depot, its memory ending there. The round's route is one of the memories, of maximal demand, from the depot back to the depot, with no repeated customer, within Q unless it serves a single customer, and with only unvisited customers apart from a first one drawn while the depot was unvisited |
| Solver.Vrp.SelectClientCL | proyecto_tesis/src/aco_vrp/VRP.java:465-514 | every ant ends finished at the depot. The route is a memory of maximal demand, from the depot back to the depot, with no repeated customer and within Q unless it serves a single customer. Its customers were unvisited, apart from a first one drawn while the depot was unvisited, and the counters grow by exactly its passes |
| Solver.Vrp.CalculateTotalDistance | proyecto_tesis/src/aco_vrp/VRP.java:861-872 | the loop sums the distances of the colony's best routes |
| Solver.Vrp.ObtainBestDistance | proyecto_tesis/src/aco_vrp/VRP.java:388-405 | the loop computes the reference best distance, 0 meaning unset |
| Solver.Vrp.DistinctMemories | proyecto_tesis/src/aco_vrp/VRP.java:414-430 | the memories without repeats, and their maximal demand |
| Solver.Vrp.LastMatchOf | proyecto_tesis/src/aco_vrp/VRP.java:434-442 | the loop returns the last route with the demand and the distance |
| Solver.FreshSnoc | proyecto_tesis/src/aco_vrp/VRP.java:476-496 | appending the depot, or a customer that is unvisited whenever the memory is past the depot or the depot was visited, keeps the memory's customers unvisited |
| Solver.PositionNames | proyecto_tesis/src/aco_vrp/VRP.java:228-241 | with unique ids, the position looked up for a stop of the list is a valid index holding that very client |
| Solver.AtMostOnce | proyecto_tesis/src/aco_vrp/VRP.java:451-459 | a position that occurs at no two places of the position list is counted at most once |
| Solver.AddPassesBump | proyecto_tesis/src/aco_vrp/VRP.java:454-456 | one more pass at a position raises that counter by 1 and no other |
| Solver.Vrp.ObtainBestRoute | proyecto_tesis/src/aco_vrp/VRP.java:413-445 | returns the reference best route of the memories |
| Solver.Vrp.UpdateVisits | proyecto_tesis/src/aco_vrp/VRP.java:451-459 | when every stop names a client, each counter grows by the number of times its client occurs in the route. At the first stop that names none, the lookup gives -1, the update stops there flagged out of bounds, and exactly the earlier stops are counted. The list length is kept |
| Solver.Vrp.ResetAnts | proyecto_tesis/src/aco_vrp/VRP.java:519-532 | every ant has capacity Q, memory [depot] and is unfinished, current client unchanged; the clients are untouched, and ants that had all returned to the depot are ready for the next round |
| Solver.Vrp.ListsPrepared | proyecto_tesis/src/aco_vrp/VRP.java:540-541 | after building the lists, they still name only clients, and the depot's lists leave out the depot. The depot has candidates while it is unvisited, and its distance list still names every other client |
| Solver.Vrp.AllVisited | proyecto_tesis/src/aco_vrp/VRP.java:548-559 | true exactly when no counter is 0 |
| Solver.Vrp.BuildLists | proyecto_tesis/src/aco_vrp/VRP.java:540-541 | every client's distances are sorted in place and its candidates built, with the lists fit for route building |
| Solver.Vrp.NextRoute | proyecto_tesis/src/aco_vrp/VRP.java:545-547 | one pass: a route of the round that repeats no customer and stays within Q unless it serves a single customer, counted in the counters, ants reset. While any client is unvisited, fewer counters are 0. Counters that were at most 1 past the depot stay so, when a depot counter of 0 meant all counters were 0 |
| Solver.OncePerRoute | proyecto_tesis/src/aco_vrp/VRP.java:451-459 | counting a route without repeated customers, all unvisited apart from a first one drawn while every counter was 0, keeps every counter past the depot at most 1 |
| Solver.ServedRoutesSnoc | proyecto_tesis/src/aco_vrp/VRP.java:544-545 | appending a served route to a list of served routes keeps the list served |
| Solver.Vrp.ServeNext | proyecto_tesis/src/aco_vrp/VRP.java:544-558 | one turn of the loop: the next route is served and counted on top of the routes so far, and the flag is true exactly when no counter is 0 |
| Solver.Vrp.CollectRoutes | proyecto_tesis/src/aco_vrp/VRP.java:542-562 | the loop ends with every counter nonzero. It appends at least one route to the old best routes, each depot to depot with no repeated customer and within Q unless it serves a single customer. The counters grow by exactly the passes of the routes appended. Starting from all counters 0, every customer ends visited exactly once |
| Solver.Vrp.AcoVrpLc | proyecto_tesis/src/aco_vrp/VRP.java:539-563 | builds the candidate lists, then collects routes until every counter is nonzero. The old best routes are kept; the new ones go depot to depot, repeat no customer and stay within Q unless they serve a single customer. The counters grow by their passes, every customer is served exactly once when all counters started at 0, and the ants end reset |
| Solver.Vrp.CreateColonies | proyecto_tesis/src/aco_vrp/VRP.java:848-854 | m distinct new colonies (none for m <= 0), each valid, with m ants and no best routes |
| Solver.Vrp.ObtainBestSolution | proyecto_tesis/src/aco_vrp/VRP.java:878-896 | nothing exactly when there are no colonies; otherwise a colony of minimal total distance, with no earlier colony as short |
| Solver.Vrp.ImproveBestRoute | proyecto_tesis/src/aco_vrp/VRP.java:821-828 | the result is the route itself, or a rearrangement with the same ends and demand that is strictly shorter, has a nonzero distance and admits no shorter inner reversal |
| Solver.Vrp.ApplyTwoOpt | proyecto_tesis/src/aco_vrp/VRP.java:818-832 | every best route of the colony is replaced in place by its improvement, and the number of routes is kept |

## Left out

- Getters of `Client`, `Ant` and `ACO` (Client.java:49-99, Ant.java:42-79, ACO.java:89-115): the model reads the fields directly.
- `ACO.setAnts`, `setBestRoutes` and the setter misnamed `getPheromones` (ACO.java:121-140): plain field assignments, written inline where the core uses them.
- `VRP.readConfigurations` (VRP.java:67-154) reads a file and calls `System.exit` on errors. The constructor takes m, Q, alpha and tau0 as parameters instead; beta, q0 and q are not used by the core.
- `EvaporateDaemon` (VRP.java:168-203) is a background thread racing on the pheromone matrix, so concurrency is not modelled. `EvaporateP` is the single evaporation step.
- `selectClientSR`, `calculateSum`, `calulatePIJ`, `selectClientHLP`, `selectClientJ`, `selectClientVRP`, `acovrp` and `acovrpTwoOpt` (VRP.java:571-846) are left out. They rank clients with `Math.pow` raised to a real exponent.
- `macovrp`, `macovrpTwoOpt` and `vrp` (VRP.java:902-975) are left out. They drive those strategies and exit on errors.
- `convertRoutes` (VRP.java:981-1017) only prints to the console.
- SearchBD.java and Connector.java (database access) and Solution.java (file reading and `main`) are not part of this model. Three things that code guarantees become preconditions (`Solver.Vrp.Instance`):
  - the depot is the first client, with demand 0;
  - client ids are unique;
  - demands are nonnegative.
- Randomness: `random.nextInt` becomes a draw sequence given to the constructor. `NextInt` takes the next value modulo the bound, so the distribution of `java.util.Random` is not modelled.
- Java `int` overflow is not modelled: distances, demands, capacities and counters are unbounded integers. This covers the comparator `p1.getValue1() - p2.getValue1()` (Candidates.java:54): the sort compares distances exactly.
- Pheromones are exact `real` numbers, with no floating-point rounding.
- Aliasing between Java lists is not modelled:
  - `setMemory` stores the caller's list;
  - `acovrplc` appends to the colony's own best-route list;
  - `applyTwoOpt` edits the colony's list.

  Lists are values here. Each method assigns the fields it changes, with the same final state.
- `TwoOpt`'s reference to the solver (TwoOpt.java:20-22) exists only to call `calculateDistance`; the model calls `RouteDistance` directly.
- Colony.Aco.UpdateGP: requires a nonzero distance. `Math.pow(0, -1)` is Infinity in Java and has no `real` counterpart.
- Colony.Aco.SetVisitClient: requires consecutive stops to be different clients. Java would read the null mark on the diagonal and throw.
- Colony.Aco.SetVisitClient: requires every stop of a route of two or more stops to name a client. For a stop that names none, `getIndexClient` gives -1 and `visitClient.get(-1)` throws (ACO.java:150-152).
- Colony.Aco.UpdateGP: requires every stop of a route of two or more stops to name a client, for the same -1 index (ACO.java:208-210).
- Solver.Vrp.SelectNextClient and Solver.Vrp.SelectNextCD: require every listed id to name a client. Java would otherwise dereference the null returned by `searchClient`.
- Solver.Vrp.SelectNextCD: requires the depot to have candidates while its counter is 0. Java's `nextInt(0)` on an empty list throws (VRP.java:346).
- Solver.Vrp.UpdateVisits: the exception that `visits.get(-1)` throws for a stop that names no client (VRP.java:454-455) becomes the returned flag `outOfBounds`, with the counters as they are at the throw. Its one caller, `selectClientCL`, is shown never to meet that case.
- Solver.Vrp.SelectClientCL: requires at least one ant, all ready at the depot. With no ants, `obtainBestRoute` returns null and `updateVisits` throws.
- Solver.Vrp.AcoVrpLc has six preconditions and one weaker postcondition:
  - it requires the colony passed in to be the solver's own `aco`. `selectClientCL` works on `aco` and `resetAnts` on the argument, and every caller (VRP.java:943, 966) passes `aco`.
  - it requires the depot's distance list to name every client other than the depot, as the distances loaded for the instance do. Without this, the loop need not end.
  - it requires the depot's distance list never to name the depot itself, as the distances loaded for the instance do. The depot would otherwise be a depot candidate.
  - it requires at least two clients while the depot's counter is 0. `nextInt(0)` on an empty candidate list would throw.
  - it requires nonnegative counters.
  - it requires ants ready at the depot, numbered by position.
  - its postcondition does not restate the sorted distance and candidate lists. `Solver.Vrp.BuildLists` states them, with the rest carried by `Prepared()`.
- Solver.Vrp.ObtainBestRoute: with no ants, Java returns null; the model returns `None`.
