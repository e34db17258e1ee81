/**
 * Route arithmetic of the solver (VRP.calculateDistance, VRP.calculateDemand).
 * Neither reads any solver state, so they live here where the 2-opt improver
 * can use them as well.
 */
module Routes {
  import opened Clients

  /** Sum over consecutive pairs of the distance the first records for the second. */
  function RouteDistance(route: seq<Client>): int
    reads route
  {
    if |route| <= 1 then 0
    else RouteDistance(route[..|route| - 1]) + DistanceIn(route[|route| - 2].distances, route[|route| - 1].id)
  }

  /** Sum of the demands of every element of the route. */
  function RouteDemand(route: seq<Client>): int
    reads route
  {
    if |route| == 0 then 0 else RouteDemand(route[..|route| - 1]) + route[|route| - 1].demand
  }

  /** Every client of the route records only nonnegative distances. */
  predicate NonnegativeRoute(route: seq<Client>)
    reads route
  {
    forall c | c in route :: NonnegativeDistances(c.distances)
  }

  method CalculateDistance(route: seq<Client>) returns (distanceR: int)
    ensures distanceR == RouteDistance(route)
    ensures |route| <= 1 ==> distanceR == 0
  {
    distanceR := 0;
    var i := 0;
    while i < |route|
      invariant 0 <= i <= |route|
      invariant distanceR == RouteDistance(route[..if i + 1 < |route| then i + 1 else |route|])
    {
      if i < |route| - 1 {
        var client1 := route[i];
        var idClient2 := route[i + 1].id;
        var d := client1.SearchDistance(idClient2);
        assert route[..i + 2][..i + 1] == route[..i + 1];
        distanceR := distanceR + d;
      }
      i := i + 1;
    }
    assert route[..|route|] == route;
  }

  method CalculateDemand(route: seq<Client>) returns (demandT: int)
    ensures demandT == RouteDemand(route)
  {
    demandT := 0;
    var i := 0;
    while i < |route|
      invariant 0 <= i <= |route|
      invariant demandT == RouteDemand(route[..i])
    {
      assert route[..i + 1][..i] == route[..i];
      demandT := demandT + route[i].demand;
      i := i + 1;
    }
    assert route[..i] == route;
  }

  /** With nonnegative distances every route has a nonnegative distance. */
  lemma {:induction false} RouteDistanceNonnegative(route: seq<Client>)
    requires NonnegativeRoute(route)
    ensures RouteDistance(route) >= 0
  {
    if |route| > 1 {
      var init := route[..|route| - 1];
      assert forall c | c in init :: c in route;
      RouteDistanceNonnegative(init);
      DistanceInNonnegative(route[|route| - 2].distances, route[|route| - 1].id);
    }
  }

  /** The demand of a route depends only on which clients it holds, not their order. */
  lemma {:induction false} RouteDemandPermutation(a: seq<Client>, b: seq<Client>)
    requires multiset(a) == multiset(b)
    ensures RouteDemand(a) == RouteDemand(b)
    decreases |a|
  {
    if |a| > 0 {
      var x := a[|a| - 1];
      assert x in multiset(b);
      var k :| 0 <= k < |b| && b[k] == x;
      var b' := b[..k] + b[k + 1..];
      assert b == b[..k] + [x] + b[k + 1..];
      assert a == a[..|a| - 1] + [x];
      assert multiset(a[..|a| - 1]) == multiset(a) - multiset{x};
      assert multiset(b') == multiset(b) - multiset{x};
      RouteDemandPermutation(a[..|a| - 1], b');
      RouteDemandRemove(b, k);
    }
  }

  /** Taking one element out of a route takes its demand off the route's demand. */
  lemma {:induction false} RouteDemandRemove(s: seq<Client>, k: int)
    requires 0 <= k < |s|
    ensures RouteDemand(s) == RouteDemand(s[..k] + s[k + 1..]) + s[k].demand
    decreases |s|
  {
    if k < |s| - 1 {
      var init := s[..|s| - 1];
      RouteDemandRemove(init, k);
      assert init[..k] + init[k + 1..] == (s[..k] + s[k + 1..])[..|s| - 2];
    } else {
      assert s[..k] + s[k + 1..] == s[..|s| - 1];
    }
  }
}
