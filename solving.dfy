/**
 * Pure specifications of the solver's searches and selection rules
 * (VRP.java): which client an id names, which client an ant takes next,
 * and which route of a round is best.
 */
module Selection {
  import opened Wrappers
  import opened Clients
  import opened Routes

  /** The client holding this id, the last one when ids repeat, if any. */
  function ClientWith(clients: seq<Client>, id: int): Option<Client>
  {
    var k := LastIndexOf(clients, id);
    if k >= 0 then Some(clients[k]) else None
  }

  /** The client named by `id` is known and has not been visited yet. */
  predicate Unvisited(clients: seq<Client>, visits: seq<int>, id: int)
  {
    var k := LastIndexOf(clients, id);
    0 <= k < |visits| && visits[k] == 0
  }

  /**
   * The client named by `id` may come next for an ant with this memory and
   * capacity: unvisited, not in the memory, and its demand fits.
   */
  predicate Admissible(clients: seq<Client>, visits: seq<int>, memory: seq<Client>, capacity: int, id: int)
    reads clients
  {
    var k := LastIndexOf(clients, id);
    0 <= k < |visits| && visits[k] == 0 && clients[k] !in memory && clients[k].demand <= capacity
  }

  /** The client of the first admissible candidate id, if any. */
  function NextCandidate(cands: seq<int>, clients: seq<Client>, visits: seq<int>, memory: seq<Client>, capacity: int): Option<Client>
    reads clients
  {
    if |cands| == 0 then None
    else if Admissible(clients, visits, memory, capacity, cands[0]) then Some(clients[LastIndexOf(clients, cands[0])])
    else NextCandidate(cands[1..], clients, visits, memory, capacity)
  }

  /**
   * The candidate rule picks the first admissible candidate in list order,
   * and nothing exactly when no candidate is admissible.
   */
  lemma {:induction false} NextCandidateMeaning(cands: seq<int>, clients: seq<Client>, visits: seq<int>, memory: seq<Client>, capacity: int)
    ensures NextCandidate(cands, clients, visits, memory, capacity).None? <==>
      forall k | 0 <= k < |cands| :: !Admissible(clients, visits, memory, capacity, cands[k])
    ensures NextCandidate(cands, clients, visits, memory, capacity).Some? ==>
      exists k | 0 <= k < |cands| ::
        && Admissible(clients, visits, memory, capacity, cands[k])
        && NextCandidate(cands, clients, visits, memory, capacity).value == clients[LastIndexOf(clients, cands[k])]
        && forall j | 0 <= j < k :: !Admissible(clients, visits, memory, capacity, cands[j])
  {
    if |cands| > 0 && !Admissible(clients, visits, memory, capacity, cands[0]) {
      NextCandidateMeaning(cands[1..], clients, visits, memory, capacity);
      assert forall k | 1 <= k < |cands| :: cands[k] == cands[1..][k - 1];
      if NextCandidate(cands, clients, visits, memory, capacity).Some? {
        var k' :| 0 <= k' < |cands| - 1
          && Admissible(clients, visits, memory, capacity, cands[1..][k'])
          && NextCandidate(cands[1..], clients, visits, memory, capacity).value == clients[LastIndexOf(clients, cands[1..][k'])]
          && forall j | 0 <= j < k' :: !Admissible(clients, visits, memory, capacity, cands[1..][j]);
        assert forall j | 0 <= j < k' + 1 :: !Admissible(clients, visits, memory, capacity, cands[j]) by {
          forall j | 0 < j < k' + 1
            ensures !Admissible(clients, visits, memory, capacity, cands[j])
          {
            assert cands[j] == cands[1..][j - 1];
          }
        }
      }
    }
  }

  /** What the candidate rule picks is a client of the list, outside the memory, within the capacity and unvisited. */
  lemma NextCandidateFits(cands: seq<int>, clients: seq<Client>, visits: seq<int>, memory: seq<Client>, capacity: int)
    ensures var r := NextCandidate(cands, clients, visits, memory, capacity);
      r.Some? ==> (r.value in clients && r.value !in memory && r.value.demand <= capacity
        && Unvisited(clients, visits, r.value.id))
  {
    NextCandidateMeaning(cands, clients, visits, memory, capacity);
  }

  /** The client of the first unvisited id of the list, if any. */
  function FirstUnvisited(ids: seq<int>, clients: seq<Client>, visits: seq<int>): Option<Client>
  {
    if |ids| == 0 then None
    else if Unvisited(clients, visits, ids[0]) then Some(clients[LastIndexOf(clients, ids[0])])
    else FirstUnvisited(ids[1..], clients, visits)
  }

  /** The first-unvisited search finds an unvisited client exactly when the list names one. */
  lemma {:induction false} FirstUnvisitedMeaning(ids: seq<int>, clients: seq<Client>, visits: seq<int>)
    ensures FirstUnvisited(ids, clients, visits).None? <==> forall k | 0 <= k < |ids| :: !Unvisited(clients, visits, ids[k])
    ensures var r := FirstUnvisited(ids, clients, visits);
      r.Some? ==> r.value in clients && r.value.id in ids && Unvisited(clients, visits, r.value.id)
  {
    if |ids| > 0 && !Unvisited(clients, visits, ids[0]) {
      FirstUnvisitedMeaning(ids[1..], clients, visits);
      assert forall k | 1 <= k < |ids| :: ids[k] == ids[1..][k - 1];
    }
  }

  /**
   * The rule of an ant at the depot. While the depot is unvisited the drawn
   * candidate is taken, with no other check; otherwise the first unvisited
   * candidate. When that gives nothing, the first unvisited id in distance
   * order.
   */
  function DepotChoice(cands: seq<int>, distIds: seq<int>, clients: seq<Client>, visits: seq<int>, draw: int): Option<Client>
    requires |visits| > 0 && (visits[0] == 0 ==> 0 <= draw < |cands|)
  {
    var first := if visits[0] == 0 then ClientWith(clients, cands[draw]) else FirstUnvisited(cands, clients, visits);
    if first.Some? then first else FirstUnvisited(distIds, clients, visits)
  }

  /**
   * The depot rule picks a client of the list named by a candidate or a
   * distance-list id. Once the depot has been visited the pick is unvisited,
   * and there is none exactly when neither list names an unvisited client.
   */
  lemma DepotChoiceMeaning(cands: seq<int>, distIds: seq<int>, clients: seq<Client>, visits: seq<int>, draw: int)
    requires |visits| > 0 && (visits[0] == 0 ==> 0 <= draw < |cands|)
    ensures var r := DepotChoice(cands, distIds, clients, visits, draw);
      r.Some? ==> r.value in clients && (r.value.id in cands || r.value.id in distIds)
    ensures var r := DepotChoice(cands, distIds, clients, visits, draw);
      visits[0] != 0 && r.Some? ==> Unvisited(clients, visits, r.value.id)
    ensures var r := DepotChoice(cands, distIds, clients, visits, draw);
      visits[0] != 0 ==>
        (r.None? <==> (forall id | id in cands || id in distIds :: !Unvisited(clients, visits, id)))
  {
    FirstUnvisitedMeaning(cands, clients, visits);
    FirstUnvisitedMeaning(distIds, clients, visits);
  }

  // ---- Best route of a round

  /** The clients of all routes of a list. */
  function Stops(routes: seq<seq<Client>>): set<Client>
  {
    set r, c | r in routes && c in r :: c
  }

  /** Every route of the list and every prefix of the list draw their clients from its stops. */
  lemma StopsCover(routes: seq<seq<Client>>)
    ensures forall k, c | 0 <= k < |routes| && c in routes[k] :: c in Stops(routes)
    ensures |routes| > 0 ==> Stops(routes[..|routes| - 1]) <= Stops(routes)
  {
    forall k, c | 0 <= k < |routes| && c in routes[k]
      ensures c in Stops(routes)
    {
      assert routes[k] in routes;
    }
  }

  /** The list without repeats, each route where it first occurs. */
  function Dedup(routes: seq<seq<Client>>): seq<seq<Client>>
  {
    if |routes| == 0 then []
    else
      var d := Dedup(routes[..|routes| - 1]);
      if routes[|routes| - 1] in d then d else d + [routes[|routes| - 1]]
  }

  /** Dropping repeats keeps every route and leaves no route twice. */
  lemma {:induction false} DedupMeaning(routes: seq<seq<Client>>)
    ensures forall r :: r in Dedup(routes) <==> r in routes
    ensures forall i, j | 0 <= i < j < |Dedup(routes)| :: Dedup(routes)[i] != Dedup(routes)[j]
  {
    if |routes| > 0 {
      DedupMeaning(routes[..|routes| - 1]);
      assert routes == routes[..|routes| - 1] + [routes[|routes| - 1]];
    }
  }

  /** The largest demand of a route of the list, and 0 when none is larger. */
  function MaxDemand(routes: seq<seq<Client>>): int
    reads Stops(routes)
  {
    if |routes| == 0 then 0
    else
      StopsCover(routes);
      var p := MaxDemand(routes[..|routes| - 1]);
      var d := RouteDemand(routes[|routes| - 1]);
      if d > p then d else p
  }

  /** No route of the list exceeds the maximum, and a positive maximum is some route's demand. */
  lemma {:induction false} MaxDemandMeaning(routes: seq<seq<Client>>)
    ensures 0 <= MaxDemand(routes)
    ensures forall k | 0 <= k < |routes| :: RouteDemand(routes[k]) <= MaxDemand(routes)
    ensures MaxDemand(routes) == 0 || exists k | 0 <= k < |routes| :: RouteDemand(routes[k]) == MaxDemand(routes)
  {
    if |routes| > 0 {
      var front := routes[..|routes| - 1];
      MaxDemandMeaning(front);
      assert forall k | 0 <= k < |front| :: front[k] == routes[k];
    }
  }

  /**
   * The running best distance over the routes of demand `maxDemand`, where
   * 0 stands for "none yet": the first such route, or one found while the
   * best is 0, replaces it; later ones replace it only when shorter.
   */
  function BestDistance(routes: seq<seq<Client>>, maxDemand: int): int
    reads Stops(routes)
  {
    if |routes| == 0 then 0
    else
      StopsCover(routes);
      var b := BestDistance(routes[..|routes| - 1], maxDemand);
      var r := routes[|routes| - 1];
      if RouteDemand(r) != maxDemand then b
      else if b == 0 || RouteDistance(r) < b then RouteDistance(r)
      else b
  }

  /**
   * The best distance is 0 when no route has the demand, and otherwise the
   * distance of one that has it. When all those distances are positive it
   * is the smallest of them.
   */
  lemma {:induction false} BestDistanceMeaning(routes: seq<seq<Client>>, maxDemand: int)
    ensures (forall k | 0 <= k < |routes| :: RouteDemand(routes[k]) != maxDemand) ==> BestDistance(routes, maxDemand) == 0
    ensures (exists k | 0 <= k < |routes| :: RouteDemand(routes[k]) == maxDemand) ==>
      exists k | 0 <= k < |routes| :: RouteDemand(routes[k]) == maxDemand && RouteDistance(routes[k]) == BestDistance(routes, maxDemand)
    ensures (forall k | 0 <= k < |routes| && RouteDemand(routes[k]) == maxDemand :: RouteDistance(routes[k]) > 0) ==>
      forall k | 0 <= k < |routes| && RouteDemand(routes[k]) == maxDemand :: BestDistance(routes, maxDemand) <= RouteDistance(routes[k])
  {
    if |routes| > 0 {
      var front := routes[..|routes| - 1];
      BestDistanceMeaning(front, maxDemand);
      assert forall k | 0 <= k < |front| :: front[k] == routes[k];
    }
  }

  /** The route has the given demand and distance. */
  predicate Matches(route: seq<Client>, maxDemand: int, bestDistance: int)
    reads route
  {
    RouteDemand(route) == maxDemand && RouteDistance(route) == bestDistance
  }

  /** The last route of the list with the given demand and distance, if any. */
  function LastMatch(routes: seq<seq<Client>>, maxDemand: int, bestDistance: int): Option<seq<Client>>
    reads Stops(routes)
  {
    if |routes| == 0 then None
    else
      StopsCover(routes);
      if Matches(routes[|routes| - 1], maxDemand, bestDistance) then Some(routes[|routes| - 1])
      else LastMatch(routes[..|routes| - 1], maxDemand, bestDistance)
  }

  /** The last match is a matching route of the list that no later route matches; there is none exactly when nothing matches. */
  lemma {:induction false} LastMatchMeaning(routes: seq<seq<Client>>, maxDemand: int, bestDistance: int)
    ensures LastMatch(routes, maxDemand, bestDistance).None? <==>
      forall k | 0 <= k < |routes| :: !Matches(routes[k], maxDemand, bestDistance)
    ensures LastMatch(routes, maxDemand, bestDistance).Some? ==>
      exists k | 0 <= k < |routes| ::
        && routes[k] == LastMatch(routes, maxDemand, bestDistance).value
        && Matches(routes[k], maxDemand, bestDistance)
        && forall j | k < j < |routes| :: !Matches(routes[j], maxDemand, bestDistance)
  {
    if |routes| > 0 && !Matches(routes[|routes| - 1], maxDemand, bestDistance) {
      var front := routes[..|routes| - 1];
      LastMatchMeaning(front, maxDemand, bestDistance);
      assert forall k | 0 <= k < |front| :: front[k] == routes[k];
    }
  }

  /**
   * The best route among the memories: over the distinct memories, the last
   * one of the largest demand whose distance is the best distance.
   */
  function BestRouteIn(memories: seq<seq<Client>>): Option<seq<Client>>
    reads Stops(memories)
  {
    var routes := Dedup(memories);
    DedupMeaning(memories);
    assert Stops(routes) <= Stops(memories);
    var maxDemand := MaxDemand(routes);
    LastMatch(routes, maxDemand, BestDistance(routes, maxDemand))
  }

  /** The best route is one of the memories, and no memory serves more demand. */
  lemma BestRouteIsMaximal(memories: seq<seq<Client>>)
    ensures var r := BestRouteIn(memories);
      r.Some? ==> r.value in memories && forall m | m in memories :: RouteDemand(m) <= RouteDemand(r.value)
  {
    var routes := Dedup(memories);
    DedupMeaning(memories);
    var maxDemand := MaxDemand(routes);
    var best := BestDistance(routes, maxDemand);
    MaxDemandMeaning(routes);
    LastMatchMeaning(routes, maxDemand, best);
    var r := BestRouteIn(memories);
    if r.Some? {
      var k :| 0 <= k < |routes| && routes[k] == r.value && Matches(routes[k], maxDemand, best);
      assert routes[k] in routes;
      forall m | m in memories
        ensures RouteDemand(m) <= RouteDemand(r.value)
      {
        assert m in routes;
      }
    }
  }

  /**
   * When the memories of the best route's demand all have positive
   * distances, the best route is the shortest of them.
   */
  lemma BestRouteIsShortest(memories: seq<seq<Client>>)
    ensures var r := BestRouteIn(memories);
      r.Some? && (forall m | m in memories && RouteDemand(m) == RouteDemand(r.value) :: RouteDistance(m) > 0) ==>
        forall m | m in memories && RouteDemand(m) == RouteDemand(r.value) :: RouteDistance(r.value) <= RouteDistance(m)
  {
    var routes := Dedup(memories);
    DedupMeaning(memories);
    var maxDemand := MaxDemand(routes);
    var best := BestDistance(routes, maxDemand);
    BestDistanceMeaning(routes, maxDemand);
    LastMatchMeaning(routes, maxDemand, best);
    var r := BestRouteIn(memories);
    if r.Some? {
      var k :| 0 <= k < |routes| && routes[k] == r.value && Matches(routes[k], maxDemand, best);
      if forall m | m in memories && RouteDemand(m) == maxDemand :: RouteDistance(m) > 0 {
        forall m | m in memories && RouteDemand(m) == maxDemand
          ensures best <= RouteDistance(m)
        {
          assert m in routes;
        }
      }
    }
  }

  /** With at least one memory and nonnegative demands there always is a best route. */
  lemma BestRouteExists(memories: seq<seq<Client>>)
    requires |memories| > 0 && forall m | m in memories :: RouteDemand(m) >= 0
    ensures BestRouteIn(memories).Some?
  {
    var routes := Dedup(memories);
    DedupMeaning(memories);
    var maxDemand := MaxDemand(routes);
    var best := BestDistance(routes, maxDemand);
    MaxDemandMeaning(routes);
    BestDistanceMeaning(routes, maxDemand);
    LastMatchMeaning(routes, maxDemand, best);
    assert memories[0] in routes;
    var j :| 0 <= j < |routes| && routes[j] == memories[0];
    if maxDemand == 0 {
      assert RouteDemand(routes[j]) == 0;
    }
    var k :| 0 <= k < |routes| && RouteDemand(routes[k]) == maxDemand && RouteDistance(routes[k]) == best;
    assert Matches(routes[k], maxDemand, best);
  }

  /** The sum of the distances of the routes. */
  function TotalDistance(routes: seq<seq<Client>>): int
    reads Stops(routes)
  {
    if |routes| == 0 then 0
    else
      StopsCover(routes);
      TotalDistance(routes[..|routes| - 1]) + RouteDistance(routes[|routes| - 1])
  }

  /** With nonnegative distances the total is nonnegative and no route exceeds it. */
  lemma {:induction false} TotalDistanceBounds(routes: seq<seq<Client>>)
    requires forall k | 0 <= k < |routes| :: NonnegativeRoute(routes[k])
    ensures 0 <= TotalDistance(routes)
    ensures forall k | 0 <= k < |routes| :: RouteDistance(routes[k]) <= TotalDistance(routes)
  {
    if |routes| > 0 {
      var front := routes[..|routes| - 1];
      assert forall k | 0 <= k < |front| :: front[k] == routes[k];
      TotalDistanceBounds(front);
      RouteDistanceNonnegative(routes[|routes| - 1]);
    }
  }

  // ---- Visit counters

  /** How many counters are still 0. */
  function ZeroCount(visits: seq<int>): nat
  {
    if |visits| == 0 then 0
    else ZeroCount(visits[..|visits| - 1]) + if visits[|visits| - 1] == 0 then 1 else 0
  }

  /** Every counter is nonzero exactly when none is 0. */
  lemma {:induction false} ZeroCountNone(visits: seq<int>)
    ensures ZeroCount(visits) == 0 <==> forall k | 0 <= k < |visits| :: visits[k] != 0
  {
    if |visits| > 0 {
      var front := visits[..|visits| - 1];
      ZeroCountNone(front);
      assert forall k | 0 <= k < |front| :: front[k] == visits[k];
    }
  }

  /**
   * Raising nonnegative counters never adds a zero, and turning some zero
   * counter nonzero removes one.
   */
  lemma {:induction false} ZeroCountDecreases(visits: seq<int>, visits': seq<int>)
    requires |visits| == |visits'|
    requires forall k | 0 <= k < |visits| :: 0 <= visits[k] <= visits'[k]
    ensures ZeroCount(visits') <= ZeroCount(visits)
    ensures (exists k | 0 <= k < |visits| :: visits[k] == 0 && visits'[k] != 0) ==> ZeroCount(visits') < ZeroCount(visits)
  {
    if |visits| > 0 {
      var n := |visits| - 1;
      ZeroCountDecreases(visits[..n], visits'[..n]);
      if exists k | 0 <= k < |visits| :: visits[k] == 0 && visits'[k] != 0 {
        var k :| 0 <= k < |visits| && visits[k] == 0 && visits'[k] != 0;
        if k < n {
          assert visits[..n][k] == 0 && visits'[..n][k] != 0;
        }
      }
    }
  }
}
