/** The 2-opt local search that post-processes finished routes (TwoOpt.java). */
module TwoOpt {
  import opened Clients
  import opened Routes

  function Min(a: int, b: int): int
  {
    if a <= b then a else b
  }

  /** The elements of `s` in the opposite order. */
  function Reverse<T>(s: seq<T>): (r: seq<T>)
    ensures |r| == |s|
    ensures forall k | 0 <= k < |s| :: r[k] == s[|s| - 1 - k]
  {
    if |s| == 0 then [] else Reverse(s[1..]) + [s[0]]
  }

  lemma {:induction false} ReversePermutation<T>(s: seq<T>)
    ensures multiset(Reverse(s)) == multiset(s)
  {
    if |s| > 0 {
      ReversePermutation(s[1..]);
      assert s == [s[0]] + s[1..];
    }
  }

  /** The route with the segment from position `i` to position `j` (both included) reversed. */
  function Swapped<T>(route: seq<T>, i: int, j: int): (r: seq<T>)
    requires 0 <= i <= j < |route|
    ensures |r| == |route|
  {
    seq(|route|, k requires 0 <= k < |route| => if i <= k <= j then route[i + j - k] else route[k])
  }

  /** Positions outside `i`..`j` keep their element; position k inside takes the one at i + j - k. */
  lemma SwappedAt<T>(route: seq<T>, i: int, j: int)
    requires 0 <= i <= j < |route|
    ensures forall k | 0 <= k < i :: Swapped(route, i, j)[k] == route[k]
    ensures forall k | i <= k <= j :: Swapped(route, i, j)[k] == route[i + j - k]
    ensures forall k | j < k < |route| :: Swapped(route, i, j)[k] == route[k]
  {
  }

  /** The reversal as a concatenation: the front, the reversed segment, the back. */
  lemma SwappedSplit<T>(route: seq<T>, i: int, j: int)
    requires 0 <= i <= j < |route|
    ensures Swapped(route, i, j) == route[..i] + Reverse(route[i..j + 1]) + route[j + 1..]
  {
    var r := route[..i] + Reverse(route[i..j + 1]) + route[j + 1..];
    SwappedAt(route, i, j);
    forall k | 0 <= k < |route|
      ensures Swapped(route, i, j)[k] == r[k]
    {
    }
  }

  /** Reversing a segment only reorders the route. */
  lemma SwappedPermutation<T>(route: seq<T>, i: int, j: int)
    requires 0 <= i <= j < |route|
    ensures multiset(Swapped(route, i, j)) == multiset(route)
  {
    var front, middle, back := route[..i], route[i..j + 1], route[j + 1..];
    SwappedSplit(route, i, j);
    ReversePermutation(middle);
    assert route == front + middle + back;
    calc {
      multiset(front + Reverse(middle) + back);
      multiset(front) + multiset(Reverse(middle)) + multiset(back);
      multiset(front) + multiset(middle) + multiset(back);
      multiset(front + middle + back);
    }
  }

  /** Reversing the same segment twice gives back the route. */
  lemma SwappedTwice<T>(route: seq<T>, i: int, j: int)
    requires 0 <= i <= j < |route|
    ensures Swapped(Swapped(route, i, j), i, j) == route
  {
    var twice := Swapped(Swapped(route, i, j), i, j);
    SwappedAt(route, i, j);
    SwappedAt(Swapped(route, i, j), i, j);
    forall k | 0 <= k < |route|
      ensures twice[k] == route[k]
    {
    }
  }

  /** Builds the route with positions `i`..`j` reversed, element by element. */
  method Swap<T>(route: seq<T>, i: int, j: int) returns (newRoute: seq<T>)
    requires 0 <= i <= j < |route|
    ensures newRoute == Swapped(route, i, j)
  {
    newRoute := [];
    var r := 0;
    var k := 0;
    while k <= i - 1
      invariant 0 <= k <= i
      invariant newRoute == route[..k]
    {
      newRoute := newRoute + [route[k]];
      k := k + 1;
    }
    k := i;
    while k <= j
      invariant i <= k <= j + 1
      invariant r == k - i
      invariant |newRoute| == k
      invariant newRoute[..i] == route[..i]
      invariant forall t | i <= t < k :: newRoute[t] == route[i + j - t]
    {
      newRoute := newRoute + [route[j - r]];
      r := r + 1;
      k := k + 1;
    }
    k := j + 1;
    while k < |route|
      invariant j + 1 <= k <= |route|
      invariant |newRoute| == k
      invariant newRoute[..i] == route[..i]
      invariant forall t | i <= t <= j :: newRoute[t] == route[i + j - t]
      invariant forall t | j < t < k :: newRoute[t] == route[t]
    {
      newRoute := newRoute + [route[k]];
      k := k + 1;
    }
    var expected := Swapped(route, i, j);
    SwappedAt(route, i, j);
    forall t | 0 <= t < |route|
      ensures newRoute[t] == expected[t]
    {
      if t < i {
        assert newRoute[t] == newRoute[..i][t];
      }
    }
  }

  /** No reversal of an inner segment gives a route shorter than `bound`. */
  predicate NoImprovingSwap(route: seq<Client>, bound: int)
    reads route
  {
    forall i, j | 1 <= i < j < |route| - 1 ::
      (SwappedPermutation(route, i, j);
       RouteDistance(Swapped(route, i, j)) >= bound)
  }

  /** `route` holds the same clients as `route0`, with the same first and last stop. */
  predicate Rearranged(route: seq<Client>, route0: seq<Client>)
  {
    && |route| == |route0|
    && multiset(route) == multiset(route0)
    && (|route0| > 0 ==> route[0] == route0[0] && route[|route| - 1] == route0[|route0| - 1])
  }

  /** Reversing an inner segment rearranges the route: the depot stays at both ends. */
  lemma SwappedKeepsStops(route: seq<Client>, i: int, j: int)
    requires 1 <= i <= j < |route| - 1
    ensures Rearranged(Swapped(route, i, j), route)
  {
    SwappedPermutation(route, i, j);
    SwappedAt(route, i, j);
  }

  lemma RearrangedNonnegative(route: seq<Client>, route0: seq<Client>)
    requires Rearranged(route, route0) && NonnegativeRoute(route0)
    ensures NonnegativeRoute(route)
  {
    forall c | c in route
      ensures NonnegativeDistances(c.distances)
    {
      assert c in multiset(route0);
    }
  }

  lemma RearrangedTrans(a: seq<Client>, b: seq<Client>, c: seq<Client>)
    requires Rearranged(a, b) && Rearranged(b, c)
    ensures Rearranged(a, c)
  {
  }

  /** Every end j' with i < j' < j was tried from start `i` and none beat `bound`. */
  predicate RowChecked(route: seq<Client>, i: int, j: int, bound: int)
    reads route
    decreases j
  {
    if j <= i + 1 || i < 0 then true
    else RowChecked(route, i, j - 1, bound) &&
         (j - 1 < |route| ==> RouteDistance(Swapped(route, i, j - 1)) >= bound)
  }

  lemma RowCheckedStep(route: seq<Client>, i: int, j: int, bound: int)
    requires 0 <= i < j && RowChecked(route, i, j, bound)
    requires j < |route| ==> RouteDistance(Swapped(route, i, j)) >= bound
    ensures RowChecked(route, i, j + 1, bound)
  {
  }

  lemma {:induction false} RowCheckedAll(route: seq<Client>, i: int, j: int, bound: int)
    requires 0 <= i && RowChecked(route, i, j, bound)
    ensures forall j' | i < j' < j && j' < |route| :: RouteDistance(Swapped(route, i, j')) >= bound
    decreases j
  {
    if j > i + 1 {
      RowCheckedAll(route, i, j - 1, bound);
    }
  }

  /** Every start i' with 1 <= i' < i had its whole row checked. */
  predicate RowsChecked(route: seq<Client>, i: int, bound: int)
    reads route
    decreases i
  {
    if i <= 1 then true
    else RowsChecked(route, i - 1, bound) && RowChecked(route, i - 1, |route| - 1, bound)
  }

  lemma {:induction false} RowsCheckedAll(route: seq<Client>, i: int, bound: int)
    requires RowsChecked(route, i, bound) && |route| <= i
    ensures NoImprovingSwap(route, bound)
  {
    forall i', j' | 1 <= i' < j' < |route| - 1
      ensures RouteDistance(Swapped(route, i', j')) >= bound
    {
      RowsCheckedHas(route, i, i', bound);
      RowCheckedAll(route, i', |route| - 1, bound);
    }
  }

  lemma {:induction false} RowsCheckedHas(route: seq<Client>, i: int, i': int, bound: int)
    requires RowsChecked(route, i, bound) && 1 <= i' < i
    ensures RowChecked(route, i', |route| - 1, bound)
    decreases i
  {
    if i' < i - 1 {
      RowsCheckedHas(route, i - 1, i', bound);
    }
  }

  /**
   * One step of the search: reverses `i`..`j` and keeps the result only when
   * it is strictly shorter than `distance0`.
   */
  method TryReversal(route0: seq<Client>, distance0: int, i: int, j: int)
    returns (route: seq<Client>, distance: int, kept: bool)
    requires 1 <= i < j < |route0| - 1
    ensures Rearranged(route, route0)
    ensures kept <==> RouteDistance(Swapped(route0, i, j)) < distance0
    ensures kept ==> route == Swapped(route0, i, j) && distance == RouteDistance(route)
    ensures !kept ==> route == route0 && distance == distance0
  {
    var bestRoute := Swap(route0, i, j);
    var bestDistance := CalculateDistance(bestRoute);
    if bestDistance < distance0 {
      SwappedKeepsStops(route0, i, j);
      route, distance, kept := bestRoute, bestDistance, true;
    } else {
      route, distance, kept := route0, distance0, false;
    }
  }

  /**
   * The inner loop of a sweep, for a fixed start `i`: tries every end `j` with
   * i < j < |route| - 1 and keeps each reversal strictly shorter than the best
   * distance so far. `improve` counts the reversals kept.
   */
  method SweepRow(route0: seq<Client>, distance0: int, i: int) returns (route: seq<Client>, distance: int, improve: nat)
    requires 1 <= i
    ensures Rearranged(route, route0)
    ensures improve == 0 ==> route == route0 && distance == distance0
    ensures improve == 0 ==> RowChecked(route0, i, |route0| - 1, distance0)
    ensures improve != 0 ==> distance == RouteDistance(route) && distance < distance0
  {
    route, distance, improve := route0, distance0, 0;
    var j := i + 1;
    while j < |route| - 1
      invariant i + 1 <= j && (j == i + 1 || j <= |route0| - 1)
      invariant Rearranged(route, route0)
      invariant improve == 0 ==> route == route0 && distance == distance0
      invariant improve != 0 ==> distance == RouteDistance(route) && distance < distance0
      invariant improve == 0 ==> RowChecked(route0, i, j, distance0)
    {
      var route', distance', kept := TryReversal(route, distance, i, j);
      if improve == 0 && !kept {
        RowCheckedStep(route0, i, j, distance0);
      }
      if kept {
        RearrangedTrans(route', route, route0);
        route, distance, improve := route', distance', improve + 1;
      }
      j := j + 1;
    }
  }

  /**
   * One sweep of the improver over every segment `i`..`j` with 1 <= i < j < |route| - 1.
   * `improve` counts the reversals kept; a sweep that keeps none proves the
   * route locally optimal.
   */
  method Sweep(route0: seq<Client>, distance0: int) returns (route: seq<Client>, distance: int, improve: nat)
    ensures Rearranged(route, route0)
    ensures improve == 0 ==> route == route0 && distance == distance0 && NoImprovingSwap(route0, distance0)
    ensures improve != 0 ==> distance == RouteDistance(route) && distance < distance0
  {
    route, distance, improve := route0, distance0, 0;
    var i := 1;
    while i < |route|
      invariant 1 <= i <= if |route0| < 1 then 1 else |route0|
      invariant Rearranged(route, route0)
      invariant improve == 0 ==> route == route0 && distance == distance0
      invariant improve != 0 ==> distance == RouteDistance(route) && distance < distance0
      invariant improve == 0 ==> RowsChecked(route0, i, distance0)
    {
      var route', distance', improve' := SweepRow(route, distance, i);
      route, distance, improve := route', distance', improve + improve';
      i := i + 1;
    }
    if improve == 0 {
      RowsCheckedAll(route0, i, distance0);
    }
  }

  /**
   * First-improvement 2-opt: repeats sweeps until one keeps nothing. The result
   * is the input or strictly shorter than `distance0`, holds the same clients
   * with the same endpoints (the depot never moves), and no inner reversal
   * shortens it further.
   */
  method ImproveRoute(route0: seq<Client>, distance0: int) returns (route: seq<Client>)
    requires NonnegativeRoute(route0)
    ensures Rearranged(route, route0)
    ensures route == route0 || RouteDistance(route) < distance0
    ensures NoImprovingSwap(route, Min(distance0, RouteDistance(route)))
    ensures distance0 == RouteDistance(route0) ==> NoImprovingSwap(route, RouteDistance(route))
  {
    route := route0;
    var distance := distance0;
    var improve := 1;
    while improve != 0
      invariant Rearranged(route, route0)
      invariant (route == route0 && distance == distance0) || (distance == RouteDistance(route) && distance < distance0)
      invariant improve == 0 ==> NoImprovingSwap(route, distance)
      decreases (if improve != 0 then 1 else 0) + (if distance < 0 then 0 else distance)
    {
      var route', distance', improve' := Sweep(route, distance);
      RearrangedTrans(route', route, route0);
      if improve' != 0 {
        RearrangedNonnegative(route', route0);
        RouteDistanceNonnegative(route');
      }
      route, distance, improve := route', distance', improve';
    }
  }
}
