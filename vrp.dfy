/**
 * The solver (VRP.java): the instance's clients and depot, the colony, the
 * visit counters, and the procedures that build routes from the candidate
 * lists, pick the best route of a round, improve routes with 2-opt and
 * compare colonies.
 */
module Solver {
  import opened Wrappers
  import opened Clients
  import opened Ants
  import opened Routes
  import opened TwoOpt
  import opened Candidates
  import opened Colony
  import opened Selection

  /** The memories of the ants, in order. */
  function Memories(ants: seq<Ant>): (r: seq<seq<Client>>)
    reads ants
    ensures |r| == |ants| && forall k | 0 <= k < |ants| :: r[k] == ants[k].memory
  {
    seq(|ants|, k requires 0 <= k < |ants| reads ants => ants[k].memory)
  }

  /** The finish flags of the ants, in order. */
  function Finishes(ants: seq<Ant>): (r: seq<bool>)
    reads ants
    ensures |r| == |ants| && forall k | 0 <= k < |ants| :: r[k] == ants[k].finish
  {
    seq(|ants|, k requires 0 <= k < |ants| reads ants => ants[k].finish)
  }

  /** No client occurs twice. */
  predicate Distinct(s: seq<Client>)
  {
    forall i, j | 0 <= i < j < |s| :: s[i] != s[j]
  }

  /** A sequence without repeats has as many elements as its set. */
  lemma {:induction false} DistinctCard(s: seq<Client>)
    requires Distinct(s)
    ensures |set c | c in s| == |s|
  {
    if |s| > 0 {
      var front := s[..|s| - 1];
      DistinctCard(front);
      assert (set c | c in s) == (set c | c in front) + {s[|s| - 1]};
    }
  }

  /** A set drawn from a sequence has at most its length. */
  lemma {:induction false} SetCard(s: seq<Client>)
    ensures |set c | c in s| <= |s|
  {
    if |s| > 0 {
      var front := s[..|s| - 1];
      SetCard(front);
      assert (set c | c in s) == (set c | c in front) + {s[|s| - 1]};
    }
  }

  /** A route without repeats drawn from the clients is no longer than the client list. */
  lemma DistinctBound(s: seq<Client>, clients: seq<Client>)
    requires Distinct(s) && forall c | c in s :: c in clients
    ensures |s| <= |clients|
  {
    DistinctCard(s);
    SetCard(clients);
    var used, all := set c | c in s, set c | c in clients;
    assert used <= all;
    assert |used| <= |all| by {
      SubsetCard(used, all);
    }
  }

  /** A subset is no larger than its superset. */
  lemma {:induction false} SubsetCard<T>(a: set<T>, b: set<T>)
    requires a <= b
    ensures |a| <= |b|
  {
    if a != {} {
      var x :| x in a;
      SubsetCard(a - {x}, b - {x});
    }
  }

  /**
   * A route that starts and ends at the depot and passes it nowhere else
   * raises the depot's counter by exactly 2.
   */
  lemma DepotCountedTwice(route: seq<Client>, clients: seq<Client>)
    requires UniqueIds(clients) && |clients| > 0 && |route| >= 2
    requires route[0] == clients[0] && route[|route| - 1] == clients[0]
    requires forall k | 0 < k < |route| - 1 :: route[k] in clients && route[k] != clients[0]
    ensures multiset(Positions(route, clients))[0] == 2
  {
    var ps := Positions(route, clients);
    LastIndexOfOwnId(clients, 0);
    var mid := ps[1..|ps| - 1];
    assert ps == [ps[0]] + mid + [ps[|ps| - 1]];
    forall k | 0 <= k < |mid|
      ensures mid[k] != 0
    {
      var j :| 0 <= j < |clients| && clients[j] == route[k + 1];
      LastIndexOfOwnId(clients, j);
      assert mid[k] == ps[k + 1];
    }
    assert 0 !in multiset(mid);
  }

  /** The positions the routes pass, with one copy for every pass. */
  function RouteVisits(routes: seq<seq<Client>>, clients: seq<Client>): multiset<int>
  {
    if |routes| == 0 then multiset{}
    else RouteVisits(routes[..|routes| - 1], clients) + multiset(Positions(routes[|routes| - 1], clients))
  }

  /** The counters with each one raised by the passes at its position. */
  function AddPasses(visits: seq<int>, passes: multiset<int>): seq<int>
  {
    seq(|visits|, k requires 0 <= k < |visits| => visits[k] + passes[k])
  }

  /** One more pass at a position raises that counter alone. */
  lemma AddPassesBump(visits: seq<int>, passes: multiset<int>, index: int)
    requires 0 <= index < |visits|
    ensures AddPasses(visits, passes)[index := AddPasses(visits, passes)[index] + 1] == AddPasses(visits, passes + multiset{index})
  {
  }

  /** Raising the counters twice raises them by both sets of passes. */
  lemma AddPassesTwice(visits: seq<int>, passes: multiset<int>, more: multiset<int>)
    ensures AddPasses(AddPasses(visits, passes), more) == AddPasses(visits, passes + more)
  {
  }

  /** One more route adds its positions to the count. */
  lemma RouteVisitsSnoc(routes: seq<seq<Client>>, route: seq<Client>, clients: seq<Client>)
    ensures RouteVisits(routes + [route], clients) == RouteVisits(routes, clients) + multiset(Positions(route, clients))
  {
    assert (routes + [route])[..|routes|] == routes;
  }

  /**
   * One best route more: the counters only grow, and while some client is
   * unvisited one of them leaves 0. The depot's does when it was 0, because
   * every route starts there; otherwise the depot's distance list names
   * every other client, so the depot rule saw an unvisited one and the
   * route starts with an unvisited customer.
   */
  lemma VisitsProgress(visits: seq<int>, visits': seq<int>, route: seq<Client>, depot: Client, clients: seq<Client>)
    requires UniqueIds(clients) && |clients| > 0 && depot == clients[0]
    requires |visits| == |clients| && |visits'| == |clients|
    requires forall k | 0 <= k < |visits| :: visits[k] >= 0
    requires visits' == AddPasses(visits, multiset(Positions(route, clients)))
    requires |route| >= 2 && route[0] == depot
    requires forall j | 1 <= j < |clients| :: clients[j].id in Ids(depot.distances)
    requires SeesUnvisited(depot, clients, visits) ==> Unvisited(clients, visits, route[1].id)
    ensures forall k | 0 <= k < |visits'| :: visits'[k] >= 0
    ensures visits'[0] != 0
    ensures ZeroCount(visits') <= ZeroCount(visits)
    ensures ZeroCount(visits) > 0 ==> ZeroCount(visits') < ZeroCount(visits)
  {
    var ps := Positions(route, clients);
    LastIndexOfOwnId(clients, 0);
    assert ps[0] == 0 && ps[0] in multiset(ps);
    ZeroCountDecreases(visits, visits');
    if ZeroCount(visits) > 0 {
      ZeroCountNone(visits);
      var w := 0;
      if visits[0] != 0 {
        w := FirstStopUnvisited(visits, route, depot, clients);
        assert ps[1] == w && ps[1] in multiset(ps);
      }
      assert visits[w] == 0 && visits'[w] != 0;
    }
  }

  /**
   * When the depot was visited but some client was not, the route's first
   * customer is an unvisited one: the depot's distance list names them all.
   */
  lemma FirstStopUnvisited(visits: seq<int>, route: seq<Client>, depot: Client, clients: seq<Client>) returns (w: int)
    requires UniqueIds(clients) && |clients| > 0 && depot == clients[0]
    requires |visits| == |clients| && visits[0] != 0
    requires exists z | 0 <= z < |visits| :: visits[z] == 0
    requires |route| >= 2
    requires forall j | 1 <= j < |clients| :: clients[j].id in Ids(depot.distances)
    requires SeesUnvisited(depot, clients, visits) ==> Unvisited(clients, visits, route[1].id)
    ensures w == LastIndexOf(clients, route[1].id) && 0 <= w < |visits| && visits[w] == 0
  {
    var z :| 0 <= z < |visits| && visits[z] == 0;
    LastIndexOfOwnId(clients, z);
    assert Unvisited(clients, visits, clients[z].id);
    w := LastIndexOf(clients, route[1].id);
  }

  /**
   * Sorting a distance list that names only clients of the list, and
   * taking candidates from it, gives lists that name only such clients.
   */
  lemma ListsNameClients(ds: seq<(int, int)>, clients: seq<Client>, depotId: int, length: int)
    requires forall p | p in ds :: 0 <= LastIndexOf(clients, p.0)
    ensures forall p | p in SortByDistance(ds) :: 0 <= LastIndexOf(clients, p.0)
    ensures forall id | id in CandidateList(SortByDistance(ds), depotId, length) :: 0 <= LastIndexOf(clients, id)
  {
    var sorted := SortByDistance(ds);
    SortKeepsIds(ds);
    CandidatesExcludeDepot(sorted, depotId, length);
    IdsAt(sorted);
    forall id | id in CandidateList(sorted, depotId, length)
      ensures 0 <= LastIndexOf(clients, id)
    {
      var t :| 0 <= t < |sorted| && Ids(sorted)[t] == id;
      assert sorted[t] in sorted;
    }
  }

  /**
   * The depot's lists built from a distance list without the depot that
   * names every other client: the sorted list still names them all and not
   * the depot, the candidates leave out the depot, and there is a candidate
   * when there is another client.
   */
  lemma DepotListsPrepared(ds: seq<(int, int)>, clients: seq<Client>, length: int)
    requires |clients| > 0
    requires forall p | p in ds :: p.0 != clients[0].id
    requires forall j | 1 <= j < |clients| :: clients[j].id in Ids(ds)
    ensures forall p | p in SortByDistance(ds) :: p.0 != clients[0].id
    ensures forall j | 1 <= j < |clients| :: clients[j].id in Ids(SortByDistance(ds))
    ensures clients[0].id !in CandidateList(SortByDistance(ds), clients[0].id, length)
    ensures |clients| >= 2 ==> |CandidateList(SortByDistance(ds), clients[0].id, length)| > 0
  {
    var sorted := SortByDistance(ds);
    SortKeepsIds(ds);
    CandidatesExcludeDepot(sorted, clients[0].id, length);
    if |clients| >= 2 {
      assert clients[1].id in Ids(ds);
      CandidatesNonempty(sorted, clients[0].id, length);
    }
  }

  /** Clients with distinct ids are distinct. */
  lemma DistinctClients(clients: seq<Client>)
    requires UniqueIds(clients)
    ensures forall x, y | 0 <= x < y < |clients| :: clients[x] != clients[y]
  {
    forall x, y | 0 <= x < y < |clients|
      ensures clients[x] != clients[y]
    {
      assert IdAt(clients, x) != IdAt(clients, y);
    }
  }

  /** The state of an ant that has been reset for a new round: at the depot, full capacity, unfinished. */
  ghost predicate Ready(ant: Ant, depot: Client, Q: int)
    reads ant
  {
    && ant.Valid() && !ant.finish && ant.memory == [depot] && ant.currentClient == depot && ant.capacity == Q
  }

  /** An ant whose route is over: finished and back at the depot, its memory ending there. */
  ghost predicate Returned(ant: Ant, depot: Client)
    reads ant
  {
    ant.finish && ant.currentClient == depot && |ant.memory| >= 2 && ant.memory[|ant.memory| - 1] == depot
  }

  /** A route from the depot back to the depot through clients of the list. */
  predicate HomeRoute(route: seq<Client>, depot: Client, clients: seq<Client>)
  {
    |route| >= 2 && route[0] == depot && route[|route| - 1] == depot && forall c | c in route :: c in clients
  }

  /** Every ant of the list is ready for a new round. */
  ghost predicate AllReady(ants: seq<Ant>, depot: Client, Q: int)
    reads ants
  {
    forall k | 0 <= k < |ants| :: Ready(ants[k], depot, Q)
  }

  /**
   * What holds of an ant's route during a round. It starts at the depot,
   * holds only clients of the list, and the capacity is Q minus the demand
   * served. An unfinished ant stands at its last stop and has no repeats; a
   * finished one is back at the depot with no repeats before it. Only the
   * first customer may overdraw the capacity.
   */
  predicate RouteState(memory: seq<Client>, capacity: int, current: Client, finished: bool, depot: Client, clients: seq<Client>, Q: int)
    reads memory
  {
    && |memory| >= 1 && memory[0] == depot
    && (forall c | c in memory :: c in clients)
    && capacity == Q - RouteDemand(memory)
    && if finished then
         && |memory| >= 2 && memory[|memory| - 1] == depot && current == depot
         && Distinct(memory[..|memory| - 1])
         && (capacity >= 0 || |memory| <= 3)
       else
         && current == memory[|memory| - 1]
         && Distinct(memory)
         && (capacity >= 0 || |memory| <= 2)
  }

  /** The route invariant of an ant, with its capacity bookkeeping. */
  ghost predicate OnRoute(ant: Ant, depot: Client, clients: seq<Client>, Q: int)
    reads ant, ant.memory
  {
    ant.Valid() && RouteState(ant.memory, ant.capacity, ant.currentClient, ant.finish, depot, clients, Q)
  }

  /**
   * Adding a new customer to an unfinished route keeps the invariant, as
   * long as its demand fits or it is the first customer.
   */
  lemma AddCustomer(memory: seq<Client>, capacity: int, c: Client, depot: Client, clients: seq<Client>, Q: int)
    requires |memory| >= 1 && RouteState(memory, capacity, memory[|memory| - 1], false, depot, clients, Q)
    requires c in clients && c !in memory && c.demand >= 0
    requires |memory| == 1 || c.demand <= capacity
    ensures RouteState(memory + [c], capacity - c.demand, c, false, depot, clients, Q)
  {
    RouteDemandSnoc(memory, c);
    var m := memory + [c];
    forall i, j | 0 <= i < j < |m|
      ensures m[i] != m[j]
    {
      if j < |memory| {
        assert m[i] == memory[i] && m[j] == memory[j];
      } else {
        assert m[i] in memory;
      }
    }
  }

  /** Returning to the depot ends an unfinished route and keeps the invariant. */
  lemma ReturnToDepot(memory: seq<Client>, capacity: int, depot: Client, clients: seq<Client>, Q: int)
    requires |memory| >= 1 && RouteState(memory, capacity, memory[|memory| - 1], false, depot, clients, Q)
    requires depot in clients && depot.demand == 0
    ensures RouteState(memory + [depot], capacity, depot, true, depot, clients, Q)
  {
    RouteDemandSnoc(memory, depot);
    assert (memory + [depot])[..|memory|] == memory;
  }

  /**
   * One move of an unfinished ant: back to the depot and finished; or on
   * to a new customer, then, when that leaves exactly no capacity, back to
   * the depot and finished.
   */
  predicate Move(before: seq<Client>, after: seq<Client>, finished: bool, capacity: int, depot: Client)
  {
    || (after == before + [depot] && finished)
    || (&& |after| > |before|
        && after[|before|] !in before && after[|before|] != depot
        && ((after == before + [after[|before|]] && !finished && capacity != 0)
            || (after == before + [after[|before|], depot] && finished && capacity == 0)))
  }

  /** Appending a client to a route adds its demand. */
  lemma RouteDemandSnoc(route: seq<Client>, c: Client)
    ensures RouteDemand(route + [c]) == RouteDemand(route) + c.demand
  {
    assert (route + [c])[..|route|] == route;
  }

  /** With nonnegative demands every route drawn from the clients has a nonnegative demand. */
  lemma {:induction false} RouteDemandNonnegative(route: seq<Client>)
    requires forall c | c in route :: c.demand >= 0
    ensures RouteDemand(route) >= 0
  {
    if |route| > 0 {
      var front := route[..|route| - 1];
      assert forall c | c in front :: c in route;
      RouteDemandNonnegative(front);
    }
  }

  /**
   * The depot's counter is nonzero and some id of its lists names a client
   * whose counter is 0.
   */
  ghost predicate SeesUnvisited(depot: Client, clients: seq<Client>, visits: seq<int>)
    reads depot
  {
    && |visits| > 0 && visits[0] != 0
    && exists id | id in depot.candidates || id in Ids(depot.distances) :: Unvisited(clients, visits, id)
  }

  /** A client of the list is found by its id. */
  lemma FoundInClients(clients: seq<Client>, c: Client)
    requires c in clients
    ensures 0 <= LastIndexOf(clients, c.id)
  {
  }

  /** Every stop of a route drawn from the clients is found by its id. */
  lemma KnownRoute(route: seq<Client>, clients: seq<Client>)
    requires forall c | c in route :: c in clients
    ensures forall j | 0 <= j < |route| :: 0 <= LastIndexOf(clients, route[j].id)
  {
    forall j | 0 <= j < |route|
      ensures 0 <= LastIndexOf(clients, route[j].id)
    {
      FoundInClients(clients, route[j]);
    }
  }

  /** With unique ids only the first client carries the first client's id. */
  lemma OnlyDepotHasItsId(clients: seq<Client>, c: Client)
    requires UniqueIds(clients) && |clients| > 0 && c in clients && c.id == clients[0].id
    ensures c == clients[0]
  {
    var j :| 0 <= j < |clients| && clients[j] == c;
    assert IdAt(clients, j) == IdAt(clients, 0);
  }

  /**
   * A route a round commits: from the depot back to the depot through
   * clients of the list, no customer twice, and within the capacity Q,
   * except that a lone first customer may overdraw it (the depot rule does
   * not look at the capacity).
   */
  predicate ServedRoute(route: seq<Client>, depot: Client, clients: seq<Client>, Q: int)
    reads route
  {
    && HomeRoute(route, depot, clients)
    && Distinct(route[..|route| - 1])
    && (RouteDemand(route) <= Q || |route| <= 3)
  }

  /**
   * Every customer of the memory was unvisited when the round began, except
   * a first customer drawn while the depot's counter was 0: then the depot
   * rule draws a candidate without looking at the counters.
   */
  predicate FreshCustomers(memory: seq<Client>, depot: Client, clients: seq<Client>, visits: seq<int>)
  {
    forall j | 1 <= j < |memory| && memory[j] != depot && (2 <= j || (|visits| > 0 && visits[0] != 0)) ::
      Unvisited(clients, visits, memory[j].id)
  }

  /** Appending the depot, or a customer chosen as the rules choose, keeps the memory fresh. */
  lemma FreshSnoc(memory: seq<Client>, x: Client, depot: Client, clients: seq<Client>, visits: seq<int>)
    requires |memory| >= 1 && FreshCustomers(memory, depot, clients, visits)
    requires x != depot && (|memory| >= 2 || (|visits| > 0 && visits[0] != 0)) ==> Unvisited(clients, visits, x.id)
    ensures FreshCustomers(memory + [x], depot, clients, visits)
  {
    var m := memory + [x];
    forall j | 1 <= j < |m| && m[j] != depot && (2 <= j || (|visits| > 0 && visits[0] != 0))
      ensures Unvisited(clients, visits, m[j].id)
    {
      if j < |memory| {
        assert m[j] == memory[j];
      }
    }
  }

  /** A stop of a route drawn from the clients sits at its own position. */
  lemma PositionNames(route: seq<Client>, clients: seq<Client>, j: int)
    requires UniqueIds(clients) && 0 <= j < |route| && route[j] in clients
    ensures 0 <= Positions(route, clients)[j] < |clients| && clients[Positions(route, clients)[j]] == route[j]
  {
    var i :| 0 <= i < |clients| && clients[i] == route[j];
    LastIndexOfOwnId(clients, i);
  }

  /** A value that occurs at no two positions of a list occurs in it at most once. */
  lemma {:induction false} AtMostOnce(ps: seq<int>, k: int)
    requires forall i, j | 0 <= i < j < |ps| && ps[i] == k :: ps[j] != k
    ensures multiset(ps)[k] <= 1
  {
    if |ps| > 0 {
      var init := ps[..|ps| - 1];
      assert ps == init + [ps[|ps| - 1]];
      AtMostOnce(init, k);
      if ps[|ps| - 1] == k {
        forall i | 0 <= i < |init|
          ensures init[i] != k
        {
          assert init[i] == ps[i];
        }
      }
    }
  }

  /** Every route of the list is a served route through the client list. */
  predicate ServedRoutes(routes: seq<seq<Client>>, depot: Client, clients: seq<Client>, Q: int)
    reads clients
  {
    forall j | 0 <= j < |routes| ::
      && HomeRoute(routes[j], depot, clients)
      && (assert forall i | 0 <= i < |routes[j]| :: routes[j][i] in clients; ServedRoute(routes[j], depot, clients, Q))
  }

  /** One served route more keeps the list served. */
  lemma ServedRoutesSnoc(routes: seq<seq<Client>>, route: seq<Client>, depot: Client, clients: seq<Client>, Q: int)
    requires ServedRoutes(routes, depot, clients, Q) && ServedRoute(route, depot, clients, Q)
    ensures ServedRoutes(routes + [route], depot, clients, Q)
  {
    forall j | 0 <= j < |routes| + 1
      ensures HomeRoute((routes + [route])[j], depot, clients)
      ensures ServedRoute((routes + [route])[j], depot, clients, Q)
    {
      if j < |routes| {
        assert (routes + [route])[j] == routes[j];
      }
    }
  }

  /** No customer has been served by more than one route. */
  predicate SingleVisits(visits: seq<int>)
  {
    forall k | 1 <= k < |visits| :: visits[k] <= 1
  }

  /**
   * Counting a committed route whose customers were all unvisited (but a
   * first customer drawn while nothing was visited) keeps every customer's
   * counter at most 1: a customer occurs once in the route, and only if its
   * counter was 0.
   */
  lemma OncePerRoute(visits: seq<int>, visits': seq<int>, route: seq<Client>, depot: Client, clients: seq<Client>)
    requires UniqueIds(clients) && |clients| > 0 && depot == clients[0]
    requires |visits| == |clients| && visits' == AddPasses(visits, multiset(Positions(route, clients)))
    requires HomeRoute(route, depot, clients) && Distinct(route[..|route| - 1])
    requires FreshCustomers(route, depot, clients, visits)
    requires visits[0] == 0 ==> forall k | 0 <= k < |visits| :: visits[k] == 0
    requires forall k | 1 <= k < |visits| :: visits[k] <= 1
    ensures forall k | 1 <= k < |visits'| :: visits'[k] <= 1
  {
    var ps := Positions(route, clients);
    DistinctClients(clients);
    forall k | 1 <= k < |visits'|
      ensures visits'[k] <= 1
    {
      forall i, j | 0 <= i < j < |ps| && ps[i] == k
        ensures ps[j] != k
      {
        PositionNames(route, clients, i);
        PositionNames(route, clients, j);
        if j < |route| - 1 {
          var front := route[..|route| - 1];
          assert front[i] == route[i] && front[j] == route[j];
        }
      }
      AtMostOnce(ps, k);
      if k in multiset(ps) {
        var j :| 0 <= j < |ps| && ps[j] == k;
        PositionNames(route, clients, j);
        assert route[j] != depot;
      }
    }
  }

  /**
   * What 2-opt does to one best route: the same clients with the same
   * ends and the same demand; either the route as it was, or one that is
   * strictly shorter, has a nonzero distance, and no reversal of an inner
   * stretch shortens further.
   */
  predicate Improved(route: seq<Client>, route0: seq<Client>)
    reads route, route0
  {
    && Rearranged(route, route0)
    && RouteDemand(route) == RouteDemand(route0)
    && (|| route == route0
        || (&& RouteDistance(route) < RouteDistance(route0)
            && RouteDistance(route) != 0
            && NoImprovingSwap(route, RouteDistance(route))))
  }

  class Vrp {
    const m: int
    const Q: int
    const alpha: real
    const tau0: real
    const clients: seq<Client>
    const depot: Client
    var aco: Aco
    var colonies: seq<Aco>
    var visits: seq<int>
    /** The values the random number generator produces, in order of the calls. */
    const draws: nat -> nat
    /** How many values have been drawn. */
    var drawn: nat

    /**
     * The problem instance every procedure relies on: the depot is the
     * first client and has no demand, ids are unique, and demands are
     * nonnegative.
     */
    ghost predicate Instance()
      reads clients`demand
    {
      && |clients| > 0 && depot == clients[0] && depot.demand == 0
      && UniqueIds(clients)
      && (forall c | c in clients :: c.demand >= 0)
    }

    /** Every id in a distance list names a client of the instance. */
    ghost predicate KnownDistances()
      reads clients`distances
    {
      DistancesNameClients(clients)
    }

    /** Every id in a candidate list names a client of the instance. */
    ghost predicate KnownCandidates()
      reads clients`candidates
    {
      CandidatesNameClients(clients)
    }

    /** The depot's lists never name the depot. */
    ghost predicate DepotListsExcludeDepot()
      reads depot
    {
      depot.id !in depot.candidates && forall p | p in depot.distances :: p.0 != depot.id
    }

    /** The instance, lists that name only its clients, and depot lists without the depot. */
    ghost predicate Loaded()
      reads clients
    {
      Instance() && KnownCandidates() && KnownDistances() && DepotListsExcludeDepot()
    }

    /**
     * What route building relies on: the loaded instance, one counter per
     * client, and depot candidates to draw from while the depot is unvisited.
     */
    ghost predicate Prepared()
      reads this`visits, clients
    {
      && Loaded()
      && |visits| == |clients|
      && (visits[0] == 0 ==> |depot.candidates| > 0)
    }

    /**
     * A solver for the clients with the depot: a colony of m ants with
     * capacity Q, and every visit counter at 0.
     */
    constructor (clients: seq<Client>, depot: Client, m: int, Q: int, alpha: real, tau0: real, draws: nat -> nat)
      requires |clients| > 0
      ensures this.clients == clients && this.depot == depot && this.m == m && this.Q == Q
      ensures this.alpha == alpha && this.tau0 == tau0 && this.draws == draws && drawn == 0
      ensures fresh(aco) && aco.Valid() && aco.clients == clients && aco.bestRoutes == []
      ensures |aco.ants| == (if m > 0 then m else 0)
      ensures forall k | 0 <= k < |aco.ants| :: Ready(aco.ants[k], clients[0], Q)
      ensures Numbered(aco.ants)
      ensures colonies == []
      ensures |visits| == |clients| && forall k | 0 <= k < |visits| :: visits[k] == 0
    {
      this.clients := clients;
      this.depot := depot;
      this.m := m;
      this.Q := Q;
      this.alpha := alpha;
      this.tau0 := tau0;
      this.draws := draws;
      drawn := 0;
      aco := new Aco(m, Q, alpha, tau0, clients);
      colonies := [];
      visits := [];
      new;
      SetUpVisits();
    }

    /** One counter per client, each 0. */
    method SetUpVisits()
      modifies this`visits
      ensures |visits| == |clients| && forall k | 0 <= k < |visits| :: visits[k] == 0
    {
      visits := [];
      var i := 0;
      while i < |clients|
        invariant 0 <= i <= |clients| && |visits| == i
        invariant forall k | 0 <= k < i :: visits[k] == 0
      {
        visits := visits + [0];
        i := i + 1;
      }
    }

    /** The next value of the random number generator, brought into [0, bound). */
    method NextInt(bound: int) returns (r: int)
      requires bound > 0
      modifies this`drawn
      ensures 0 <= r < bound && r == draws(old(drawn)) % bound && drawn == old(drawn) + 1
    {
      r := draws(drawn) % bound;
      drawn := drawn + 1;
    }

    /**
     * The client with this id, the last one when ids repeat, or nothing
     * when no client has it.
     */
    method SearchClient(idClient: int) returns (client: Option<Client>)
      ensures client == ClientWith(clients, idClient)
      ensures client.Some? ==> client.value in clients && client.value.id == idClient
      ensures client.None? <==> forall c | c in clients :: c.id != idClient
    {
      client := None;
      var i := 0;
      while i < |clients|
        invariant 0 <= i <= |clients|
        invariant client == ClientWith(clients[..i], idClient)
      {
        assert clients[..i + 1][..i] == clients[..i];
        var id := clients[i].id;
        if idClient == id {
          client := Some(clients[i]);
        }
        i := i + 1;
      }
      assert clients[..i] == clients;
      LastIndexOfMeaning(clients, idClient);
    }

    /** The index of the last client with this client's id, or -1. */
    method SearchIndexClient(client: Client) returns (indexC: int)
      ensures indexC == LastIndexOf(clients, client.id)
      ensures indexC >= 0 ==> clients[indexC].id == client.id
      ensures indexC == -1 <==> forall c | c in clients :: c.id != client.id
    {
      var idClient := client.id;
      indexC := -1;
      var i := 0;
      while i < |clients|
        invariant 0 <= i <= |clients|
        invariant indexC == LastIndexOf(clients[..i], idClient)
      {
        assert clients[..i + 1][..i] == clients[..i];
        var c := clients[i];
        var idC := c.id;
        if idClient == idC {
          indexC := i;
        }
        i := i + 1;
      }
      assert clients[..i] == clients;
      LastIndexOfMeaning(clients, idClient);
    }

    /** The ids of the client's distance list, in the list's order. */
    method GetOrderedDist(client: Client) returns (idDistances: seq<int>)
      ensures |idDistances| == |client.distances|
      ensures forall k | 0 <= k < |idDistances| :: idDistances[k] == client.distances[k].0
    {
      var distances := client.distances;
      idDistances := [];
      var i := 0;
      while i < |distances|
        invariant 0 <= i <= |distances| && |idDistances| == i
        invariant forall k | 0 <= k < i :: idDistances[k] == distances[k].0
      {
        var distance := distances[i];
        var idClient := distance.0;
        idDistances := idDistances + [idClient];
        i := i + 1;
      }
    }

    /**
     * The candidate rule for an ant away from the depot: the first
     * candidate of its current client that is unvisited, not in its memory
     * and within its capacity.
     */
    method SelectNextClient(ant: Ant) returns (nextClient: Option<Client>)
      requires |visits| == |clients|
      requires forall id | id in ant.currentClient.candidates :: 0 <= LastIndexOf(clients, id)
      ensures nextClient == NextCandidate(ant.currentClient.candidates, clients, visits, ant.memory, ant.capacity)
    {
      var memory := ant.memory;
      var capacity := ant.capacity;
      var currentClient := ant.currentClient;
      var candidates := currentClient.candidates;
      nextClient := None;
      var i := 0;
      while i < |candidates|
        invariant 0 <= i <= |candidates|
        invariant NextCandidate(candidates[i..], clients, visits, memory, capacity) ==
          NextCandidate(candidates, clients, visits, memory, capacity)
      {
        var idClient := candidates[i];
        var client := SearchClient(idClient);
        var index := SearchIndexClient(client.value);
        var demand := client.value.demand;
        var numVisits := visits[index];
        assert candidates[i..][1..] == candidates[i + 1..];
        if numVisits == 0 && client.value !in memory && demand <= capacity {
          nextClient := client;
          break;
        }
        i := i + 1;
      }
    }

    /** The first client named by the list whose counter is 0, if any. */
    method FirstUnvisitedOf(ids: seq<int>) returns (nextClient: Option<Client>)
      requires |visits| == |clients|
      requires forall id | id in ids :: 0 <= LastIndexOf(clients, id)
      ensures nextClient == FirstUnvisited(ids, clients, visits)
    {
      nextClient := None;
      var i := 0;
      while i < |ids|
        invariant 0 <= i <= |ids|
        invariant FirstUnvisited(ids[i..], clients, visits) == FirstUnvisited(ids, clients, visits)
      {
        var idClient := ids[i];
        var client := SearchClient(idClient);
        var index := SearchIndexClient(client.value);
        var numVC := visits[index];
        assert ids[i..][1..] == ids[i + 1..];
        if numVC == 0 {
          nextClient := client;
          break;
        }
        i := i + 1;
      }
    }

    /**
     * The depot rule: while the depot's counter is 0, the depot candidate
     * at a random index; otherwise the first unvisited depot candidate;
     * failing both, the first unvisited id in the depot's distance order.
     * One random value is drawn exactly when the depot's counter is 0.
     */
    method SelectNextCD() returns (nextClient: Option<Client>)
      requires |visits| == |clients| > 0
      requires visits[0] == 0 ==> |depot.candidates| > 0
      requires forall id | id in depot.candidates :: 0 <= LastIndexOf(clients, id)
      requires forall p | p in depot.distances :: 0 <= LastIndexOf(clients, p.0)
      modifies this`drawn
      ensures drawn == old(drawn) + (if visits[0] == 0 then 1 else 0)
      ensures nextClient == DepotChoice(depot.candidates, Ids(depot.distances), clients, visits,
        if visits[0] == 0 then draws(old(drawn)) % |depot.candidates| else 0)
    {
      var numVisits := visits[0];
      var candidates := depot.candidates;
      nextClient := None;
      if numVisits == 0 {
        var indexLC := NextInt(|candidates|);
        var idClient := candidates[indexLC];
        nextClient := SearchClient(idClient);
      } else {
        nextClient := FirstUnvisitedOf(candidates);
      }
      if nextClient.None? {
        var idDistances := GetOrderedDist(depot);
        IdsAt(depot.distances);
        assert idDistances == Ids(depot.distances);
        forall id | id in idDistances
          ensures 0 <= LastIndexOf(clients, id)
        {
          var k :| 0 <= k < |idDistances| && idDistances[k] == id;
          assert depot.distances[k] in depot.distances;
        }
        nextClient := FirstUnvisitedOf(idDistances);
      }
    }

    /**
     * One move of an unfinished ant (the body of the round loop): from the
     * depot by the depot rule, elsewhere by the candidate rule. A chosen
     * client is added; when that leaves no capacity the ant returns to the
     * depot and finishes. With no client chosen it returns to the depot and
     * finishes. The route invariant is kept, and the depot rule's first
     * customer is unvisited whenever the depot's counter is nonzero and its
     * lists name an unvisited client.
     */
    method Advance(ant: Ant)
      requires Prepared()
      requires OnRoute(ant, depot, clients, Q) && !ant.finish
      requires FreshCustomers(ant.memory, depot, clients, visits)
      modifies ant, this`drawn
      ensures OnRoute(ant, depot, clients, Q)
      ensures FreshCustomers(ant.memory, depot, clients, visits)
      ensures Move(old(ant.memory), ant.memory, ant.finish, ant.capacity, depot)
      ensures |old(ant.memory)| == 1 && SeesUnvisited(depot, clients, visits) ==>
        |ant.memory| >= 2 && Unvisited(clients, visits, ant.memory[1].id)
    {
      var client := ChooseNext(ant);
      if client.Some? {
        MoveTo(ant, client.value);
      } else {
        ReturnHome(ant);
      }
    }

    /**
     * An unfinished ant takes a new customer; when that leaves exactly no
     * capacity it goes back to the depot and finishes.
     */
    method MoveTo(ant: Ant, client: Client)
      requires depot in clients && depot.demand == 0
      requires OnRoute(ant, depot, clients, Q) && !ant.finish
      requires client in clients && client !in ant.memory && client != depot && client.demand >= 0
      requires |ant.memory| == 1 || client.demand <= ant.capacity
      requires FreshCustomers(ant.memory, depot, clients, visits)
      requires |ant.memory| >= 2 || (|visits| > 0 && visits[0] != 0) ==> Unvisited(clients, visits, client.id)
      modifies ant
      ensures OnRoute(ant, depot, clients, Q)
      ensures FreshCustomers(ant.memory, depot, clients, visits)
      ensures ant.capacity == old(ant.capacity) - client.demand
      ensures ant.capacity != 0 ==> ant.memory == old(ant.memory) + [client] && !ant.finish
      ensures ant.capacity == 0 ==> ant.memory == old(ant.memory) + [client, depot] && ant.finish
    {
      ghost var memory0, capacity0 := ant.memory, ant.capacity;
      ant.AddCurrentClient(client);
      AddCustomer(memory0, capacity0, client, depot, clients, Q);
      FreshSnoc(memory0, client, depot, clients, visits);
      var capacity := ant.capacity;
      if capacity == 0 {
        ReturnHome(ant);
        assert memory0 + [client] + [depot] == memory0 + [client, depot];
      }
    }

    /** An unfinished ant goes back to the depot and finishes. */
    method ReturnHome(ant: Ant)
      requires depot in clients && depot.demand == 0
      requires OnRoute(ant, depot, clients, Q) && !ant.finish
      requires FreshCustomers(ant.memory, depot, clients, visits)
      modifies ant
      ensures OnRoute(ant, depot, clients, Q)
      ensures FreshCustomers(ant.memory, depot, clients, visits)
      ensures ant.memory == old(ant.memory) + [depot] && ant.finish && ant.capacity == old(ant.capacity)
    {
      ReturnToDepot(ant.memory, ant.capacity, depot, clients, Q);
      FreshSnoc(ant.memory, depot, depot, clients, visits);
      ant.AddCurrentClient(depot);
      ant.SetFinish(true);
    }

    /**
     * The client an unfinished ant moves to, if any: by the depot rule at
     * the depot (whose route is then just the depot), by the candidate
     * rule elsewhere. The client is a new customer of the list whose demand
     * fits, except that the depot rule does not look at the capacity.
     */
    method ChooseNext(ant: Ant) returns (client: Option<Client>)
      requires Prepared()
      requires OnRoute(ant, depot, clients, Q) && !ant.finish
      modifies this`drawn
      ensures client.Some? ==> (
        && client.value in clients && client.value !in ant.memory
        && client.value != depot && client.value.demand >= 0
        && (|ant.memory| == 1 || client.value.demand <= ant.capacity))
      ensures |ant.memory| == 1 && SeesUnvisited(depot, clients, visits) ==>
        client.Some? && Unvisited(clients, visits, client.value.id)
      ensures client.Some? && (|ant.memory| >= 2 || visits[0] != 0) ==> Unvisited(clients, visits, client.value.id)
    {
      var currentClient := ant.currentClient;
      assert currentClient in ant.memory;
      if currentClient.id == depot.id {
        OnlyDepotHasItsId(clients, currentClient);
        assert |ant.memory| == 1;
        client := SelectNextCD();
        ghost var draw := if visits[0] == 0 then draws(old(drawn)) % |depot.candidates| else 0;
        DepotChoiceMeaning(depot.candidates, Ids(depot.distances), clients, visits, draw);
        if client.Some? {
          IdsAt(depot.distances);
          assert client.value.id != depot.id;
        }
      } else {
        client := SelectNextClient(ant);
        NextCandidateFits(currentClient.candidates, clients, visits, ant.memory, ant.capacity);
      }
    }

    /** Whether every ant has finished its route. */
    method AllFinished(ants: seq<Ant>) returns (aux: bool)
      ensures aux <==> forall k | 0 <= k < |ants| :: ants[k].finish
    {
      aux := true;
      var i := 0;
      while i < |ants|
        invariant 0 <= i <= |ants|
        invariant aux <==> forall k | 0 <= k < i :: ants[k].finish
      {
        var ant := ants[i];
        var finishA := ant.finish;
        aux := aux && finishA;
        i := i + 1;
      }
    }

    /**
     * How an ant changed in a round, against its memory and finish flag
     * before it: a finished ant is untouched, an unfinished one made one
     * move; and when it set out from the depot while the depot's counter
     * was nonzero and the depot's lists named an unvisited client, its first
     * customer is unvisited.
     */
    ghost predicate Stepped(ant: Ant, memory0: seq<Client>, finished0: bool)
      reads this`visits, depot, ant, ant.memory
    {
      && (finished0 ==> ant.finish && ant.memory == memory0)
      && (!finished0 ==> Move(memory0, ant.memory, ant.finish, ant.capacity, depot))
      && (|memory0| == 1 && !finished0 && SeesUnvisited(depot, clients, visits) ==>
            |ant.memory| >= 2 && Unvisited(clients, visits, ant.memory[1].id))
    }

    /**
     * Every ant that has left the depot started with an unvisited customer
     * whenever the depot's counter is nonzero and its lists name one.
     */
    ghost predicate FairAnt(ant: Ant)
      reads this`visits, depot, ant
    {
      && (|ant.memory| >= 2 && SeesUnvisited(depot, clients, visits) ==> Unvisited(clients, visits, ant.memory[1].id))
      && FreshCustomers(ant.memory, depot, clients, visits)
    }

    /** The turn of one ant in a round: it moves when it is unfinished. */
    method Turn(ant: Ant)
      requires Prepared()
      requires OnRoute(ant, depot, clients, Q) && FairAnt(ant)
      modifies ant, this`drawn
      ensures OnRoute(ant, depot, clients, Q) && FairAnt(ant)
      ensures Stepped(ant, old(ant.memory), old(ant.finish))
    {
      ghost var memory0 := ant.memory;
      var finishA := ant.finish;
      if !finishA {
        Advance(ant);
        if |memory0| >= 2 {
          assert ant.memory[1] == memory0[1];
        }
      }
    }

    /**
     * One round of route building: every unfinished ant of the colony
     * moves once, in list order; finished ants stay as they are.
     */
    method MoveAnts(ants: seq<Ant>)
      requires Prepared()
      requires Numbered(ants)
      requires forall k | 0 <= k < |ants| :: OnRoute(ants[k], depot, clients, Q) && FairAnt(ants[k])
      modifies ants, this`drawn
      ensures forall k | 0 <= k < |ants| :: OnRoute(ants[k], depot, clients, Q) && FairAnt(ants[k])
      ensures forall k | 0 <= k < |ants| :: Stepped(ants[k], old(ants[k].memory), old(ants[k].finish))
    {
      var i := 0;
      while i < |ants|
        invariant 0 <= i <= |ants|
        invariant forall k | 0 <= k < i ::
          && OnRoute(ants[k], depot, clients, Q) && FairAnt(ants[k])
          && Stepped(ants[k], old(ants[k].memory), old(ants[k].finish))
        invariant forall k | i <= k < |ants| :: unchanged(ants[k])
      {
        var ant := ants[i];
        Turn(ant);
        i := i + 1;
      }
    }

    /**
     * Builds one route per ant with the candidate lists, in rounds, until
     * every ant has finished; then takes the best route of the round and
     * counts its visits. Every ant ends finished with a route from the
     * depot back to the depot; the route returned is one of theirs and
     * serves no less demand than any other. When the depot's counter was
     * nonzero and its lists named an unvisited client, the route's first
     * customer was unvisited.
     */
    method SelectClientCL(colony: Aco) returns (route: seq<Client>)
      requires Prepared()
      requires |colony.ants| > 0
      requires Numbered(colony.ants)
      requires forall k | 0 <= k < |colony.ants| :: Ready(colony.ants[k], depot, Q)
      modifies colony.ants, this`drawn, this`visits
      ensures unchanged(clients)
      ensures Loaded()
      ensures forall k | 0 <= k < |colony.ants| :: Returned(colony.ants[k], depot)
      ensures exists k | 0 <= k < |colony.ants| :: route == colony.ants[k].memory
      ensures forall k | 0 <= k < |colony.ants| :: RouteDemand(colony.ants[k].memory) <= RouteDemand(route)
      ensures |route| >= 2 && route[0] == depot && route[|route| - 1] == depot
      ensures forall c | c in route :: c in clients
      ensures |visits| == |clients|
      ensures visits == AddPasses(old(visits), multiset(Positions(route, clients)))
      ensures old(SeesUnvisited(depot, clients, visits)) ==> Unvisited(clients, old(visits), route[1].id)
      ensures ServedRoute(route, depot, clients, Q) && FreshCustomers(route, depot, clients, old(visits))
    {
      var ants := colony.ants;
      BuildRoutes(ants);
      route := BestOfRound(ants);
      KnownRoute(route, clients);
      ghost var served := ServedRoute(route, depot, clients, Q);
      var outOfBounds := UpdateVisits(route);
      assert !outOfBounds;
      assert served == ServedRoute(route, depot, clients, Q);
    }

    /**
     * The best route once every ant has finished: one of the ants' routes,
     * serving the most demand, from the depot back to the depot through
     * clients of the list, and starting with an unvisited customer when
     * the depot rule had one to offer.
     */
    method BestOfRound(ants: seq<Ant>) returns (route: seq<Client>)
      requires Instance() && |ants| > 0 && |visits| == |clients|
      requires forall k | 0 <= k < |ants| :: OnRoute(ants[k], depot, clients, Q) && ants[k].finish
      requires forall k | 0 <= k < |ants| :: |ants[k].memory| >= 2 && SeesUnvisited(depot, clients, visits) ==>
        Unvisited(clients, visits, ants[k].memory[1].id)
      requires forall k | 0 <= k < |ants| :: FreshCustomers(ants[k].memory, depot, clients, visits)
      ensures forall k | 0 <= k < |ants| :: Returned(ants[k], depot)
      ensures exists k | 0 <= k < |ants| :: route == ants[k].memory
      ensures forall k | 0 <= k < |ants| :: RouteDemand(ants[k].memory) <= RouteDemand(route)
      ensures |route| >= 2 && route[0] == depot && route[|route| - 1] == depot
      ensures forall c | c in route :: c in clients
      ensures SeesUnvisited(depot, clients, visits) ==> Unvisited(clients, visits, route[1].id)
      ensures ServedRoute(route, depot, clients, Q) && FreshCustomers(route, depot, clients, visits)
    {
      // the ants and the clients of their routes exist already, so the call below leaves them alone
      assert forall k | 0 <= k < |ants| :: allocated(ants[k]) && forall c | c in ants[k].memory :: allocated(c);
      var bestRoute := ObtainBestRoute(ants);
      BestOfFinished(ants);
      route := bestRoute.value;
    }

    /**
     * The rounds of route building: every unfinished ant moves once per
     * round until all have finished.
     */
    method BuildRoutes(ants: seq<Ant>)
      requires Prepared()
      requires Numbered(ants)
      requires forall k | 0 <= k < |ants| :: Ready(ants[k], depot, Q)
      modifies ants, this`drawn
      ensures forall k | 0 <= k < |ants| :: OnRoute(ants[k], depot, clients, Q) && ants[k].finish
      ensures forall k | 0 <= k < |ants| :: |ants[k].memory| >= 2 && SeesUnvisited(depot, clients, visits) ==>
        Unvisited(clients, visits, ants[k].memory[1].id)
      ensures forall k | 0 <= k < |ants| :: FreshCustomers(ants[k].memory, depot, clients, visits)
    {
      assert RouteDemand([depot]) == 0 by {
        assert [depot][..0] == [];
      }
      var finishC := false;
      ghost var rounds := 0;
      while !finishC
        invariant forall k | 0 <= k < |ants| :: OnRoute(ants[k], depot, clients, Q)
        invariant finishC ==> forall k | 0 <= k < |ants| :: ants[k].finish
        invariant FairStart(ants)
        invariant forall k | 0 <= k < |ants| :: !ants[k].finish ==> rounds < |ants[k].memory|
        invariant !finishC ==> rounds < |clients|
        decreases |clients| - rounds
      {
        finishC := Round(ants);
        rounds := rounds + 1;
        if !finishC {
          var k :| 0 <= k < |ants| && !ants[k].finish;
          DistinctBound(ants[k].memory, clients);
        }
      }
    }

    /**
     * One round followed by the check whether every ant has finished: every
     * unfinished ant moves once, and the result says whether all are done.
     */
    method Round(ants: seq<Ant>) returns (finishC: bool)
      requires Prepared()
      requires Numbered(ants)
      requires forall k | 0 <= k < |ants| :: OnRoute(ants[k], depot, clients, Q) && FairAnt(ants[k])
      modifies ants, this`drawn
      ensures forall k | 0 <= k < |ants| :: OnRoute(ants[k], depot, clients, Q) && FairAnt(ants[k])
      ensures forall k | 0 <= k < |ants| :: Stepped(ants[k], old(ants[k].memory), old(ants[k].finish))
      ensures finishC <==> forall k | 0 <= k < |ants| :: ants[k].finish
    {
      MoveAnts(ants);
      finishC := AllFinished(ants);
    }

    /** The fair start of every ant. */
    ghost predicate FairStart(ants: seq<Ant>)
      reads this`visits, depot, ants
    {
      forall k | 0 <= k < |ants| :: FairAnt(ants[k])
    }

    /**
     * Once every ant has finished, the best route exists, is one of the
     * memories, serves the most demand, runs from the depot back to the
     * depot through clients of the list, and carries over the first
     * customer's property.
     */
    lemma BestOfFinished(ants: seq<Ant>)
      requires Instance() && |ants| > 0 && |visits| == |clients|
      requires forall k | 0 <= k < |ants| :: OnRoute(ants[k], depot, clients, Q) && ants[k].finish
      requires forall k | 0 <= k < |ants| :: |ants[k].memory| >= 2 && SeesUnvisited(depot, clients, visits) ==>
        Unvisited(clients, visits, ants[k].memory[1].id)
      requires forall k | 0 <= k < |ants| :: FreshCustomers(ants[k].memory, depot, clients, visits)
      ensures BestRouteIn(Memories(ants)).Some?
      ensures var route := BestRouteIn(Memories(ants)).value;
        && route in Memories(ants)
        && (forall r | r in Memories(ants) :: RouteDemand(r) <= RouteDemand(route))
        && |route| >= 2 && route[0] == depot && route[|route| - 1] == depot
        && (forall c | c in route :: c in clients)
        && (SeesUnvisited(depot, clients, visits) ==> Unvisited(clients, visits, route[1].id))
        && ServedRoute(route, depot, clients, Q) && FreshCustomers(route, depot, clients, visits)
    {
      var memories := Memories(ants);
      forall r | r in memories
        ensures RouteDemand(r) >= 0
      {
        RouteDemandNonnegative(r);
      }
      BestRouteExists(memories);
      BestRouteIsMaximal(memories);
      var route := BestRouteIn(memories).value;
      var k :| 0 <= k < |ants| && memories[k] == route;
      assert OnRoute(ants[k], depot, clients, Q);
    }

    /** The distance of a colony: the sum of the distances of its best routes. */
    method CalculateTotalDistance(colony: Aco) returns (totalDistance: int)
      ensures totalDistance == TotalDistance(colony.bestRoutes)
    {
      totalDistance := 0;
      var bestRoutes := colony.bestRoutes;
      var i := 0;
      while i < |bestRoutes|
        invariant 0 <= i <= |bestRoutes|
        invariant totalDistance == TotalDistance(bestRoutes[..i])
      {
        var br := bestRoutes[i];
        // the clients the total reads exist already, so the call below leaves them alone
        assert forall c | c in Stops(bestRoutes[..i]) :: allocated(c);
        var distance := CalculateDistance(br);
        assert bestRoutes[..i + 1][..i] == bestRoutes[..i];
        totalDistance := totalDistance + distance;
        i := i + 1;
      }
      assert bestRoutes[..i] == bestRoutes;
    }

    /** The best distance among the routes of demand `maxDemand`, 0 standing for none. */
    method ObtainBestDistance(routes: seq<seq<Client>>, maxDemand: int) returns (bestDistance: int)
      ensures bestDistance == BestDistance(routes, maxDemand)
    {
      bestDistance := 0;
      var i := 0;
      while i < |routes|
        invariant 0 <= i <= |routes|
        invariant bestDistance == BestDistance(routes[..i], maxDemand)
      {
        var route := routes[i];
        // the clients the best distance reads exist already, so the calls below leave them alone
        assert forall c | c in Stops(routes[..i]) :: allocated(c);
        var demand := CalculateDemand(route);
        var distance := CalculateDistance(route);
        assert routes[..i + 1][..i] == routes[..i];
        if demand == maxDemand {
          if bestDistance == 0 {
            bestDistance := distance;
          } else if distance < bestDistance {
            bestDistance := distance;
          }
        }
        i := i + 1;
      }
      assert routes[..i] == routes;
    }

    /** The memories of the ants without repeats, and the largest demand among them (0 when none is larger). */
    method DistinctMemories(ants: seq<Ant>) returns (routes: seq<seq<Client>>, maxDemand: int)
      ensures routes == Dedup(Memories(ants)) && maxDemand == MaxDemand(routes)
    {
      ghost var memories := Memories(ants);
      // the clients of the memories exist already, so the loop below leaves them alone
      assert forall c | c in Stops(memories) :: allocated(c);
      routes := [];
      maxDemand := 0;
      var i := 0;
      while i < |ants|
        invariant 0 <= i <= |ants|
        invariant routes == Dedup(memories[..i])
        invariant maxDemand == old(MaxDemand(routes))
      {
        var ant := ants[i];
        var memory := ant.memory;
        var demand := CalculateDemand(memory);
        assert memory == memories[i];
        assert demand == old(RouteDemand(memory));
        assert memories[..i + 1][..i] == memories[..i];
        if memory !in routes {
          assert (routes + [memory])[..|routes|] == routes;
          routes := routes + [memory];
          if demand > maxDemand {
            maxDemand := demand;
          }
        }
        i := i + 1;
      }
      assert memories[..i] == memories;
      DedupMeaning(memories);
      assert Stops(routes) <= Stops(memories);
    }

    /** The last route of the given demand and distance, if any. */
    method LastMatchOf(routes: seq<seq<Client>>, maxDemand: int, bestDistance: int) returns (bestRoute: Option<seq<Client>>)
      ensures bestRoute == LastMatch(routes, maxDemand, bestDistance)
    {
      bestRoute := None;
      var i := 0;
      while i < |routes|
        invariant 0 <= i <= |routes|
        invariant bestRoute == LastMatch(routes[..i], maxDemand, bestDistance)
      {
        var route := routes[i];
        // the clients the match reads exist already, so the calls below leave them alone
        assert forall c | c in Stops(routes[..i]) :: allocated(c);
        var demand := CalculateDemand(route);
        var distance := CalculateDistance(route);
        assert routes[..i + 1][..i] == routes[..i];
        if demand == maxDemand && distance == bestDistance {
          bestRoute := Some(route);
        }
        i := i + 1;
      }
      assert routes[..i] == routes;
    }

    /**
     * The best route of a round: over the distinct memories of the ants,
     * the last one of the largest demand with the best distance.
     */
    method ObtainBestRoute(ants: seq<Ant>) returns (bestRoute: Option<seq<Client>>)
      ensures bestRoute == BestRouteIn(Memories(ants))
    {
      var routes, maxDemand := DistinctMemories(ants);
      // the ants and the clients of their memories exist already, so the calls below leave them alone
      assert forall k | 0 <= k < |ants| :: allocated(ants[k]);
      assert forall c | c in Stops(routes) :: allocated(c);
      var bestDistance := ObtainBestDistance(routes, maxDemand);
      bestRoute := LastMatchOf(routes, maxDemand, bestDistance);
    }

    /**
     * Raises the counter of every client of the route by one per
     * occurrence; the number of counters stays the same.
     */
    method UpdateVisits(route: seq<Client>) returns (outOfBounds: bool)
      requires |visits| == |clients|
      modifies this`visits
      ensures outOfBounds <==> exists k | 0 <= k < |route| :: LastIndexOf(clients, route[k].id) < 0
      ensures |visits| == |old(visits)|
      ensures !outOfBounds ==> forall k | 0 <= k < |visits| :: visits[k] == old(visits)[k] + multiset(Positions(route, clients))[k]
      ensures !outOfBounds ==> visits == AddPasses(old(visits), multiset(Positions(route, clients)))
      ensures outOfBounds ==> exists m | 0 <= m < |route| ::
        && LastIndexOf(clients, route[m].id) < 0
        && (forall k | 0 <= k < m :: 0 <= LastIndexOf(clients, route[k].id))
        && visits == AddPasses(old(visits), multiset(Positions(route[..m], clients)))
    {
      ghost var ps := Positions(route, clients);
      ghost var visits0 := visits;
      outOfBounds := false;
      var i := 0;
      while i < |route|
        invariant 0 <= i <= |route| && |visits| == |clients|
        invariant forall k | 0 <= k < i :: 0 <= LastIndexOf(clients, route[k].id)
        invariant visits == AddPasses(visits0, multiset(ps[..i]))
      {
        var client := route[i];
        var index := SearchIndexClient(client);
        assert index == ps[i];
        if index < 0 {
          // the counter at index -1 does not exist: the stops before this one are counted, the rest are not
          assert Positions(route[..i], clients) == ps[..i];
          outOfBounds := true;
          return;
        }
        var numVisits := visits[index];
        AddPassesBump(visits0, multiset(ps[..i]), index);
        visits := visits[index := numVisits + 1];
        assert multiset(ps[..i + 1]) == multiset(ps[..i]) + multiset{ps[i]} by {
          assert ps[..i + 1] == ps[..i] + [ps[i]];
        }
        i := i + 1;
      }
      assert ps[..i] == ps;
    }

    /**
     * Every ant of the colony gets capacity Q, memory [depot] and an
     * unfinished route; the list of ants and each ant's current client
     * stay as they were.
     */
    method ResetAnts(colony: Aco)
      modifies colony.ants
      ensures unchanged(clients)
      ensures forall k | 0 <= k < |colony.ants| ::
        && colony.ants[k].Valid() && colony.ants[k].capacity == Q && colony.ants[k].startCapacity == Q
        && colony.ants[k].charged == []
        && colony.ants[k].memory == [depot] && !colony.ants[k].finish
        && colony.ants[k].currentClient == old(colony.ants[k].currentClient)
      ensures (forall k | 0 <= k < |colony.ants| :: old(Returned(colony.ants[k], depot))) ==> AllReady(colony.ants, depot, Q)
    {
      var ants := colony.ants;
      var i := 0;
      while i < |ants|
        invariant 0 <= i <= |ants|
        invariant forall k | 0 <= k < |ants| :: ants[k].currentClient == old(ants[k].currentClient)
        invariant forall k | 0 <= k < i ::
          && ants[k].Valid() && ants[k].capacity == Q && ants[k].startCapacity == Q && ants[k].charged == []
          && ants[k].memory == [depot] && !ants[k].finish
      {
        var ant := ants[i];
        ant.SetCapacity(Q);
        var newMemory := [depot];
        ant.SetMemory(newMemory);
        ant.SetFinish(false);
        i := i + 1;
      }
    }

    /**
     * What building the candidate lists leaves behind: the lists, sorted
     * copies of distance lists that named only clients of the instance,
     * still name only clients; the depot's lists do not name the depot; the
     * depot has candidates to draw from while it is unvisited; and the
     * depot's distance list still names every other client.
     */
    twostate lemma ListsPrepared(length: int)
      requires old(Instance()) && old(KnownDistances()) && |visits| == |clients|
      requires forall p | p in old(depot.distances) :: p.0 != depot.id
      requires forall j | 1 <= j < |clients| :: clients[j].id in old(Ids(depot.distances))
      requires visits[0] == 0 ==> |clients| >= 2
      requires forall k | 0 <= k < |clients| ::
        && clients[k].distances == SortByDistance(old(clients[k].distances))
        && clients[k].candidates == CandidateList(clients[k].distances, clients[0].id, length)
      requires forall k | 0 <= k < |clients| :: clients[k].demand == old(clients[k].demand)
      ensures Prepared()
      ensures forall j | 1 <= j < |clients| :: clients[j].id in Ids(depot.distances)
    {
      assert Instance();
      forall k | 0 <= k < |clients|
        ensures forall p | p in clients[k].distances :: 0 <= LastIndexOf(clients, p.0)
        ensures forall id | id in clients[k].candidates :: 0 <= LastIndexOf(clients, id)
      {
        var ds := old(clients[k].distances);
        assert forall p | p in ds :: 0 <= LastIndexOf(clients, p.0);
        ListsNameClients(ds, clients, depot.id, length);
        assert clients[k].distances == SortByDistance(ds);
      }
      assert KnownDistances() && KnownCandidates() by {
        forall c | c in clients
          ensures forall p | p in c.distances :: 0 <= LastIndexOf(clients, p.0)
          ensures forall id | id in c.candidates :: 0 <= LastIndexOf(clients, id)
        {
          var k :| 0 <= k < |clients| && clients[k] == c;
        }
      }
      DepotListsPrepared(old(depot.distances), clients, length);
    }

    /** Whether every client has been visited: no counter is 0. */
    method AllVisited() returns (aux: bool)
      ensures aux <==> forall k | 0 <= k < |visits| :: visits[k] != 0
    {
      aux := true;
      var i := 0;
      while i < |visits|
        invariant 0 <= i <= |visits|
        invariant aux <==> forall k | 0 <= k < i :: visits[k] != 0
      {
        var numVists := visits[i];
        var isVisited := false;
        if numVists != 0 {
          isVisited := true;
        }
        aux := aux && isVisited;
        i := i + 1;
      }
    }

    /**
     * Route construction with candidate lists: builds every client's
     * candidate list of the given length, then, until every client has been
     * visited, adds the best route of a round to the colony's best routes
     * and resets the ants. Every added route runs from the depot back to the
     * depot through clients of the list, the counters grow by exactly the
     * visits of the added routes, and the ants are ready for a new round.
     * The loop ends because each round visits a client that was unvisited:
     * the depot first, then a customer the depot's lists name.
     */
    method AcoVrpLc(colony: Aco, lengthLC: int)
      requires colony == aco
      requires Instance() && KnownDistances()
      requires forall p | p in depot.distances :: p.0 != depot.id
      requires forall j | 1 <= j < |clients| :: clients[j].id in Ids(depot.distances)
      requires |visits| == |clients| && forall k | 0 <= k < |visits| :: visits[k] >= 0
      requires visits[0] == 0 ==> |clients| >= 2
      requires |aco.ants| > 0 && Numbered(aco.ants)
      requires AllReady(aco.ants, depot, Q)
      modifies clients`distances, clients`candidates, aco.ants, aco`bestRoutes, this`drawn, this`visits
      ensures forall k | 0 <= k < |visits| :: visits[k] != 0
      ensures |aco.bestRoutes| > |old(aco.bestRoutes)|
      ensures aco.bestRoutes[..|old(aco.bestRoutes)|] == old(aco.bestRoutes)
      ensures ServedRoutes(aco.bestRoutes[|old(aco.bestRoutes)|..], depot, clients, Q)
      ensures |visits| == |clients| && visits == AddPasses(old(visits), RouteVisits(aco.bestRoutes[|old(aco.bestRoutes)|..], clients))
      ensures (forall k | 0 <= k < |old(visits)| :: old(visits)[k] == 0) ==> forall k | 1 <= k < |visits| :: visits[k] == 1
      ensures AllReady(aco.ants, depot, Q)
    {
      BuildLists(lengthLC);
      CollectRoutes(colony);
    }

    /**
     * The candidate lists of the given length for every client, built as
     * route construction needs them.
     */
    method BuildLists(lengthLC: int)
      requires Instance() && KnownDistances() && |visits| == |clients|
      requires forall p | p in depot.distances :: p.0 != depot.id
      requires forall j | 1 <= j < |clients| :: clients[j].id in Ids(depot.distances)
      requires visits[0] == 0 ==> |clients| >= 2
      modifies clients`distances, clients`candidates
      ensures forall k | 0 <= k < |clients| ::
        && clients[k].distances == SortByDistance(old(clients[k].distances))
        && clients[k].candidates == CandidateList(clients[k].distances, depot.id, lengthLC)
      ensures Prepared()
      ensures forall j | 1 <= j < |clients| :: clients[j].id in Ids(depot.distances)
    {
      var candidates := new CandidateBuilder(lengthLC);
      DistinctClients(clients);
      candidates.ObtainCandidates(clients);
      ListsPrepared(lengthLC);
    }

    /**
     * The loop of route construction with candidate lists, once the lists
     * are built: until every client has been visited, adds the best route
     * of a round to the colony's best routes and resets the ants.
     */
    method CollectRoutes(colony: Aco)
      requires colony == aco
      requires Prepared()
      requires forall j | 1 <= j < |clients| :: clients[j].id in Ids(depot.distances)
      requires forall k | 0 <= k < |visits| :: visits[k] >= 0
      requires |aco.ants| > 0 && Numbered(aco.ants)
      requires AllReady(aco.ants, depot, Q)
      modifies aco.ants, aco`bestRoutes, this`drawn, this`visits
      ensures forall k | 0 <= k < |visits| :: visits[k] != 0
      ensures |aco.bestRoutes| > |old(aco.bestRoutes)|
      ensures aco.bestRoutes[..|old(aco.bestRoutes)|] == old(aco.bestRoutes)
      ensures ServedRoutes(aco.bestRoutes[|old(aco.bestRoutes)|..], depot, clients, Q)
      ensures |visits| == |clients| && visits == AddPasses(old(visits), RouteVisits(aco.bestRoutes[|old(aco.bestRoutes)|..], clients))
      ensures (forall k | 0 <= k < |old(visits)| :: old(visits)[k] == 0) ==> forall k | 1 <= k < |visits| :: visits[k] == 1
      ensures AllReady(aco.ants, depot, Q)
    {
      ghost var visits0 := visits;
      ghost var fromZero := forall k | 0 <= k < |visits| :: visits[k] == 0;
      var added: seq<seq<Client>> := [];
      var finishC := false;
      while !finishC
        invariant Prepared()
        invariant forall k | 0 <= k < |visits| :: visits[k] >= 0
        invariant finishC ==> forall k | 0 <= k < |visits| :: visits[k] != 0
        invariant AllReady(aco.ants, depot, Q)
        invariant finishC ==> |added| > 0
        invariant ServedRoutes(added, depot, clients, Q)
        invariant visits == AddPasses(visits0, RouteVisits(added, clients))
        invariant fromZero ==> SingleVisits(visits)
        invariant fromZero && visits[0] == 0 ==> forall k | 0 <= k < |visits| :: visits[k] == 0
        decreases ZeroCount(visits) + if finishC then 0 else 1
        modifies aco.ants, this`drawn, this`visits
      {
        var route;
        route, finishC := ServeNext(visits0, added, fromZero);
        added := added + [route];
      }
      aco.bestRoutes := aco.bestRoutes + added;
    }

    /**
     * One pass of that loop: the best route of a round, with its visits
     * counted, then the ants reset. While some client is unvisited, fewer
     * counters are 0 afterwards.
     */
    /**
     * One turn of the loop in `CollectRoutes`: the next route and whether every client is now
     * visited, with what the loop's invariant needs about the routes found so far.
     */
    method ServeNext(ghost visits0: seq<int>, ghost added: seq<seq<Client>>, ghost fromZero: bool)
      returns (route: seq<Client>, finishC: bool)
      requires Prepared()
      requires forall j | 1 <= j < |clients| :: clients[j].id in Ids(depot.distances)
      requires forall k | 0 <= k < |visits| :: visits[k] >= 0
      requires |aco.ants| > 0 && Numbered(aco.ants)
      requires AllReady(aco.ants, depot, Q)
      requires ServedRoutes(added, depot, clients, Q)
      requires visits == AddPasses(visits0, RouteVisits(added, clients))
      requires fromZero ==> SingleVisits(visits)
      requires fromZero && visits[0] == 0 ==> forall k | 0 <= k < |visits| :: visits[k] == 0
      modifies aco.ants, this`drawn, this`visits
      ensures unchanged(clients)
      ensures Prepared()
      ensures forall k | 0 <= k < |visits| :: visits[k] >= 0
      ensures AllReady(aco.ants, depot, Q)
      ensures ServedRoutes(added + [route], depot, clients, Q)
      ensures visits == AddPasses(visits0, RouteVisits(added + [route], clients))
      ensures fromZero ==> SingleVisits(visits)
      ensures visits[0] != 0
      ensures finishC <==> forall k | 0 <= k < |visits| :: visits[k] != 0
      ensures ZeroCount(visits) + (if finishC then 0 else 1) <= old(ZeroCount(visits))
    {
      route := NextRoute();
      ServedRoutesSnoc(added, route, depot, clients, Q);
      RouteVisitsSnoc(added, route, clients);
      AddPassesTwice(visits0, RouteVisits(added, clients), multiset(Positions(route, clients)));
      finishC := AllVisited();
      ZeroCountNone(visits);
    }

    method NextRoute() returns (route: seq<Client>)
      requires Prepared()
      requires forall j | 1 <= j < |clients| :: clients[j].id in Ids(depot.distances)
      requires forall k | 0 <= k < |visits| :: visits[k] >= 0
      requires |aco.ants| > 0 && Numbered(aco.ants)
      requires AllReady(aco.ants, depot, Q)
      modifies aco.ants, this`drawn, this`visits
      ensures unchanged(clients)
      ensures Prepared()
      ensures forall k | 0 <= k < |visits| :: visits[k] >= 0
      ensures AllReady(aco.ants, depot, Q)
      ensures ServedRoute(route, depot, clients, Q)
      ensures visits == AddPasses(old(visits), multiset(Positions(route, clients)))
      ensures visits[0] != 0
      ensures ZeroCount(visits) <= old(ZeroCount(visits))
      ensures old(ZeroCount(visits)) > 0 ==> ZeroCount(visits) < old(ZeroCount(visits))
      ensures old(SingleVisits(visits)) && (old(visits)[0] == 0 ==> forall k | 0 <= k < |old(visits)| :: old(visits)[k] == 0) ==>
        SingleVisits(visits)
    {
      ghost var visits0 := visits;
      route := SelectClientCL(aco);
      ghost var served := ServedRoute(route, depot, clients, Q);
      ghost var visits1 := visits;
      ResetAnts(aco);
      assert served == ServedRoute(route, depot, clients, Q);
      assert visits == visits1;
      VisitsProgress(visits0, visits, route, depot, clients);
      if SingleVisits(visits0) && (visits0[0] == 0 ==> forall k | 0 <= k < |visits0| :: visits0[k] == 0) {
        OncePerRoute(visits0, visits, route, depot, clients);
      }
    }

    /** Builds m colonies of the instance, each with m ants and no best routes yet. */
    method CreateColonies()
      requires |clients| > 0
      modifies this`colonies
      ensures |colonies| == if m > 0 then m else 0
      ensures forall k | 0 <= k < |colonies| ::
        && fresh(colonies[k]) && colonies[k].Valid() && colonies[k].clients == clients
        && colonies[k].bestRoutes == [] && |colonies[k].ants| == |colonies|
      ensures forall k, k' | 0 <= k < k' < |colonies| :: colonies[k] != colonies[k']
    {
      colonies := [];
      var i := 0;
      while i < m
        invariant 0 <= i <= (if m > 0 then m else 0) && |colonies| == i
        invariant forall k | 0 <= k < i ::
          && fresh(colonies[k]) && colonies[k].Valid() && colonies[k].clients == clients
          && colonies[k].bestRoutes == [] && |colonies[k].ants| == m
        invariant forall k, k' | 0 <= k < k' < i :: colonies[k] != colonies[k']
      {
        var colonyI := new Aco(m, Q, alpha, tau0, clients);
        colonies := colonies + [colonyI];
        i := i + 1;
      }
    }

    /**
     * The colony whose best routes are shortest in total, the earliest one
     * on a tie, or nothing when there are no colonies.
     */
    method ObtainBestSolution() returns (bestColony: Option<Aco>)
      ensures bestColony.None? <==> |colonies| == 0
      ensures bestColony.Some? ==> exists k | 0 <= k < |colonies| ::
        && bestColony.value == colonies[k]
        && (forall j | 0 <= j < |colonies| :: TotalDistance(colonies[k].bestRoutes) <= TotalDistance(colonies[j].bestRoutes))
        && (forall j | 0 <= j < k :: TotalDistance(colonies[k].bestRoutes) < TotalDistance(colonies[j].bestRoutes))
    {
      var bestDistance := 0;
      bestColony := None;
      // the totals of the colonies, which the loop below does not change
      ghost var cs := colonies;
      ghost var totals := seq(|cs|, j requires 0 <= j < |cs| reads if 0 <= j < |cs| then {cs[j]} + Stops(cs[j].bestRoutes) else {} =>
        TotalDistance(cs[j].bestRoutes));
      // the colonies and the clients the totals read exist already, so the loop below leaves them alone
      assert forall j | 0 <= j < |cs| :: allocated(cs[j]) && forall c | c in Stops(cs[j].bestRoutes) :: allocated(c);
      ghost var best := 0;
      var i := 0;
      while i < |colonies|
        invariant 0 <= i <= |colonies|
        invariant bestColony.None? <==> i == 0
        invariant i > 0 ==> (
          && 0 <= best < i && bestColony == Some(colonies[best])
          && bestDistance == totals[best]
          && (forall j | 0 <= j < i :: bestDistance <= totals[j])
          && (forall j | 0 <= j < best :: bestDistance < totals[j]))
        invariant colonies == cs
      {
        var colony := colonies[i];
        var totalDistance := CalculateTotalDistance(colony);
        assert totalDistance == totals[i];
        if i == 0 {
          bestDistance := totalDistance;
          bestColony := Some(colony);
          best := i;
        } else if totalDistance < bestDistance {
          bestDistance := totalDistance;
          bestColony := Some(colony);
          best := i;
        }
        i := i + 1;
      }
      forall j | 0 <= j < |colonies|
        ensures totals[j] == TotalDistance(colonies[j].bestRoutes)
      {
        assert colonies[j] == cs[j];
      }
    }

    /**
     * Improves one best route with 2-opt; the improvement is kept unless
     * its distance is 0.
     */
    method ImproveBestRoute(route: seq<Client>) returns (newRoute: seq<Client>)
      requires NonnegativeRoute(route)
      ensures Improved(newRoute, route)
    {
      var distance := CalculateDistance(route);
      var bestRoute := ImproveRoute(route, distance);
      var bestDistance := CalculateDistance(bestRoute);
      newRoute := route;
      if bestDistance != 0 {
        RouteDemandPermutation(bestRoute, route);
        newRoute := bestRoute;
      }
    }

    /**
     * Improves every best route of the colony with 2-opt, in place; the
     * number of routes stays the same.
     */
    method ApplyTwoOpt(colony: Aco) returns (routes: seq<seq<Client>>)
      requires forall k | 0 <= k < |colony.bestRoutes| :: NonnegativeRoute(colony.bestRoutes[k])
      modifies colony`bestRoutes
      ensures routes == colony.bestRoutes && |routes| == |old(colony.bestRoutes)|
      ensures forall k | 0 <= k < |routes| :: Improved(routes[k], old(colony.bestRoutes)[k])
    {
      ghost var routes0 := colony.bestRoutes;
      var i := 0;
      while i < |colony.bestRoutes|
        invariant 0 <= i <= |colony.bestRoutes| && |colony.bestRoutes| == |routes0|
        invariant forall k | i <= k < |routes0| :: colony.bestRoutes[k] == routes0[k]
        invariant forall k | 0 <= k < i :: Improved(colony.bestRoutes[k], routes0[k])
      {
        var route := colony.bestRoutes[i];
        var newRoute := ImproveBestRoute(route);
        colony.bestRoutes := colony.bestRoutes[i := newRoute];
        i := i + 1;
      }
      routes := colony.bestRoutes;
    }
  }
}
