/**
 * A colony of ants (ACO.java): its ants, the best routes it has found, and
 * two n-by-n matrices over the client list, the pheromone amounts and the
 * marks of the edges ants have travelled.
 */
module Colony {
  import opened Wrappers
  import opened Clients
  import opened Ants

  /** One local update: the pheromone moves a fraction `alpha` of the way to `tau0`. */
  function LocalUpdate(tau: real, alpha: real, tau0: real): real
  {
    (1.0 - alpha) * tau + alpha * tau0
  }

  /** One global update with a route of length `distance`: the deposit is 1 / distance. */
  function GlobalUpdate(tau: real, alpha: real, distance: int): real
    requires distance != 0
  {
    (1.0 - alpha) * tau + alpha * (1.0 / distance as real)
  }

  /** `k` global updates in a row. */
  function GlobalRepeat(tau: real, alpha: real, distance: int, k: nat): real
    requires distance != 0
  {
    if k == 0 then tau else GlobalUpdate(GlobalRepeat(tau, alpha, distance, k - 1), alpha, distance)
  }

  /** The initial amount is a fixed point of the local update. */
  lemma LocalUpdateFixed(alpha: real, tau0: real)
    ensures LocalUpdate(tau0, alpha, tau0) == tau0
  {
  }

  /**
   * With 0 <= alpha <= 1 the local update is a weighted mean: the new amount
   * lies between the old one and `tau0`.
   */
  lemma LocalUpdateBetween(tau: real, alpha: real, tau0: real)
    requires 0.0 <= alpha <= 1.0
    ensures tau <= tau0 ==> tau <= LocalUpdate(tau, alpha, tau0) <= tau0
    ensures tau0 <= tau ==> tau0 <= LocalUpdate(tau, alpha, tau0) <= tau
  {
    var d := tau0 - tau;
    assert LocalUpdate(tau, alpha, tau0) == tau + alpha * d;
    if 0.0 <= d {
      assert 0.0 <= alpha * d && 0.0 <= (1.0 - alpha) * d;
    } else {
      assert alpha * d <= 0.0 && (1.0 - alpha) * d <= 0.0;
    }
  }

  /** 1 / distance is a fixed point of the global update, however often it is applied. */
  lemma {:induction false} GlobalRepeatFixed(alpha: real, distance: int, k: nat)
    requires distance != 0
    ensures GlobalRepeat(1.0 / distance as real, alpha, distance, k) == 1.0 / distance as real
  {
    if k > 0 {
      GlobalRepeatFixed(alpha, distance, k - 1);
    }
  }

  /** With 0 <= alpha <= 1 and a positive distance, global updates keep a pheromone nonnegative. */
  lemma {:induction false} GlobalRepeatNonnegative(tau: real, alpha: real, distance: int, k: nat)
    requires 0.0 <= alpha <= 1.0 && 0 < distance && 0.0 <= tau
    ensures 0.0 <= GlobalRepeat(tau, alpha, distance, k)
  {
    if k > 0 {
      GlobalRepeatNonnegative(tau, alpha, distance, k - 1);
      var t := GlobalRepeat(tau, alpha, distance, k - 1);
      assert 0.0 <= (1.0 - alpha) * t;
      assert 0.0 <= alpha * (1.0 / distance as real);
    }
  }

  /** The matrix positions of a route's clients: the last index of each one's id in `clients`. */
  function Positions(route: seq<Client>, clients: seq<Client>): (ps: seq<int>)
    ensures |ps| == |route|
  {
    seq(|route|, k requires 0 <= k < |route| => LastIndexOf(clients, route[k].id))
  }

  /** Stops i and i + 1 of the position list join cells a and b, in either direction. */
  predicate JoinsAt(ps: seq<int>, i: int, a: int, b: int)
    requires 0 <= i < |ps| - 1
  {
    (ps[i] == a && ps[i + 1] == b) || (ps[i] == b && ps[i + 1] == a)
  }

  /** How many consecutive pairs of the position list join cells a and b. */
  function EdgeCount(ps: seq<int>, a: int, b: int): nat
  {
    if |ps| < 2 then 0
    else EdgeCount(ps[..|ps| - 1], a, b) + if JoinsAt(ps, |ps| - 2, a, b) then 1 else 0
  }

  /** The count is that of an unordered pair. */
  lemma {:induction false} EdgeCountSymmetric(ps: seq<int>, a: int, b: int)
    ensures EdgeCount(ps, a, b) == EdgeCount(ps, b, a)
  {
    if |ps| >= 2 {
      EdgeCountSymmetric(ps[..|ps| - 1], a, b);
    }
  }

  /** The count is positive exactly when some consecutive pair joins a and b. */
  lemma {:induction false} EdgeCountPositive(ps: seq<int>, a: int, b: int)
    ensures EdgeCount(ps, a, b) > 0 <==> exists i | 0 <= i < |ps| - 1 :: JoinsAt(ps, i, a, b)
  {
    if |ps| >= 2 {
      var front := ps[..|ps| - 1];
      EdgeCountPositive(front, a, b);
      forall i | 0 <= i < |front| - 1
        ensures JoinsAt(front, i, a, b) == JoinsAt(ps, i, a, b)
      {
      }
    }
  }

  /** The ants, the best routes and the two matrices of one colony. */
  class Aco {
    const alpha: real
    const tau0: real
    var ants: seq<Ant>
    var bestRoutes: seq<seq<Client>>
    var pheromones: array2<real>
    /** Java's Boolean matrix: None is the null left on the diagonal. */
    var visitClient: array2<Option<bool>>
    const clients: seq<Client>

    /**
     * Both matrices are |clients| by |clients| and symmetric, and the edge
     * marks are unset exactly on the diagonal.
     */
    ghost predicate Valid()
      reads this, pheromones, visitClient
    {
      && pheromones.Length0 == |clients| && pheromones.Length1 == |clients|
      && visitClient.Length0 == |clients| && visitClient.Length1 == |clients|
      && (forall a, b | 0 <= a < |clients| && 0 <= b < |clients| :: visitClient[a, b].None? <==> a == b)
      && (forall a, b | 0 <= a < |clients| && 0 <= b < |clients| :: visitClient[a, b] == visitClient[b, a])
      && (forall a, b | 0 <= a < |clients| && 0 <= b < |clients| :: pheromones[a, b] == pheromones[b, a])
    }

    /**
     * A colony of `m` ants with capacity `Q` at the depot `clients[0]`, no
     * best routes yet, and fresh matrices.
     */
    constructor (m: int, Q: int, alpha: real, tau0: real, clients: seq<Client>)
      requires |clients| > 0
      ensures Valid() && fresh(pheromones) && fresh(visitClient)
      ensures this.alpha == alpha && this.tau0 == tau0 && this.clients == clients && bestRoutes == []
      ensures |ants| == if m > 0 then m else 0
      ensures forall k | 0 <= k < |ants| :: fresh(ants[k]) && NewAnt(ants[k], k, Q, clients[0])
      ensures forall k, k' | 0 <= k < k' < |ants| :: ants[k] != ants[k']
      ensures forall a, b | 0 <= a < |clients| && 0 <= b < |clients| ::
        && pheromones[a, b] == (if a != b then tau0 else 0.0)
        && visitClient[a, b] == (if a != b then Some(false) else None)
    {
      this.alpha := alpha;
      this.tau0 := tau0;
      this.clients := clients;
      bestRoutes := [];
      ants := [];
      pheromones := new real[0, 0];
      visitClient := new Option<bool>[0, 0];
      new;
      CreateAnts(m, Q, clients[0]);
      AddPheromones(clients);
    }

    /** A freshly created ant: its id, full capacity, standing at `depot` with only it in memory. */
    ghost predicate NewAnt(ant: Ant, id: int, Q: int, depot: Client)
      reads ant
    {
      && ant.id == id && ant.capacity == Q && ant.currentClient == depot
      && ant.memory == [depot] && !ant.finish
      && ant.Valid() && ant.startCapacity == Q && ant.charged == []
    }

    /** Replaces the ants with `m` new ones, numbered 0..m-1, each at `depot` with capacity `Q`. */
    method CreateAnts(m: int, Q: int, depot: Client)
      modifies this`ants
      ensures |ants| == if m > 0 then m else 0
      ensures forall k | 0 <= k < |ants| :: fresh(ants[k]) && NewAnt(ants[k], k, Q, depot)
      ensures forall k, k' | 0 <= k < k' < |ants| :: ants[k] != ants[k']
    {
      ants := [];
      var i := 0;
      while i < m
        invariant 0 <= i <= (if m > 0 then m else 0) && |ants| == i
        invariant forall k | 0 <= k < i :: fresh(ants[k]) && NewAnt(ants[k], k, Q, depot)
        invariant forall k, k' | 0 <= k < k' < i :: ants[k] != ants[k']
      {
        var ant := new Ant(i, Q, depot);
        ants := ants + [ant];
        i := i + 1;
      }
    }

    /**
     * New n-by-n matrices for n = |clients|: pheromone `tau0` off the
     * diagonal and 0 on it; edge marks false off the diagonal and unset on it.
     */
    method AddPheromones(clients: seq<Client>)
      modifies this`pheromones, this`visitClient
      ensures fresh(pheromones) && fresh(visitClient)
      ensures pheromones.Length0 == |clients| && pheromones.Length1 == |clients|
      ensures visitClient.Length0 == |clients| && visitClient.Length1 == |clients|
      ensures forall a, b | 0 <= a < |clients| && 0 <= b < |clients| ::
        && pheromones[a, b] == (if a != b then tau0 else 0.0)
        && visitClient[a, b] == (if a != b then Some(false) else None)
    {
      var n := |clients|;
      var p := new real[n, n]((a, b) => 0.0);
      var i := 0;
      while i < n
        modifies p
        invariant 0 <= i <= n
        invariant forall a, b | 0 <= a < n && 0 <= b < n :: p[a, b] == if a < i && a != b then tau0 else 0.0
      {
        var j := 0;
        while j < n
          invariant 0 <= j <= n
          invariant forall a, b | 0 <= a < n && 0 <= b < n ::
            p[a, b] == if (a < i || (a == i && b < j)) && a != b then tau0 else 0.0
        {
          if i != j {
            p[i, j] := tau0;
          }
          j := j + 1;
        }
        i := i + 1;
      }
      var v := new Option<bool>[n, n]((a, b) => None);
      i := 0;
      while i < n
        modifies v
        invariant 0 <= i <= n
        invariant forall a, b | 0 <= a < n && 0 <= b < n :: v[a, b] == if a < i && a != b then Some(false) else None
      {
        var j := 0;
        while j < n
          invariant 0 <= j <= n
          invariant forall a, b | 0 <= a < n && 0 <= b < n ::
            v[a, b] == if (a < i || (a == i && b < j)) && a != b then Some(false) else None
        {
          if i != j {
            v[i, j] := Some(false);
          }
          j := j + 1;
        }
        i := i + 1;
      }
      pheromones, visitClient := p, v;
    }

    /** The index of the last client of the list with this client's id, or -1. */
    method GetIndexClient(client: Client) returns (indexC: int)
      ensures indexC == LastIndexOf(clients, client.id)
    {
      var idClient := client.id;
      indexC := -1;
      var i := 0;
      while i < |clients|
        invariant 0 <= i <= |clients|
        invariant indexC == LastIndexOf(clients[..i], idClient)
      {
        assert clients[..i + 1][..i] == clients[..i];
        if idClient == clients[i].id {
          indexC := i;
        }
        i := i + 1;
      }
      assert clients[..i] == clients;
    }

    /**
     * The step of the loop of SetVisitClient at position `i`: the edge from
     * the i-th to the next stop of the route is marked, so the marked edges
     * are those of the route up to its (i+1)-th stop, besides those marked
     * before.
     */
    method VisitEdge(route: seq<Client>, i: int, ghost before: seq<seq<Option<bool>>>)
      requires Valid() && 0 <= i < |route| - 1
      requires forall k | 0 <= k < |route| :: 0 <= LastIndexOf(clients, route[k].id)
      requires forall j | 0 <= j < |route| - 1 :: Positions(route, clients)[j] != Positions(route, clients)[j + 1]
      requires |before| == |clients| && forall a | 0 <= a < |clients| :: |before[a]| == |clients|
      requires forall a, b | 0 <= a < |clients| && 0 <= b < |clients| ::
        visitClient[a, b] == if EdgeCount(Positions(route, clients)[..i + 1], a, b) > 0 then Some(true) else before[a][b]
      modifies visitClient
      ensures Valid()
      ensures forall a, b | 0 <= a < |clients| && 0 <= b < |clients| ::
        visitClient[a, b] == if EdgeCount(Positions(route, clients)[..i + 2], a, b) > 0 then Some(true) else before[a][b]
    {
      ghost var ps := Positions(route, clients);
      var indexC1 := GetIndexClient(route[i]);
      var indexC2 := GetIndexClient(route[i + 1]);
      assert indexC1 == ps[i] && indexC2 == ps[i + 1];
      MarkVisited(indexC1, indexC2);
      forall a, b | 0 <= a < |clients| && 0 <= b < |clients|
        ensures visitClient[a, b] == if EdgeCount(ps[..i + 2], a, b) > 0 then Some(true) else before[a][b]
      {
        EdgeCountStep(ps, i, a, b);
        EdgeCountSymmetric(ps[..i + 1], a, b);
      }
    }

    /**
     * Marks the edge between the clients at positions `x` and `y` as used,
     * in both directions, unless it is marked already.
     */
    method MarkVisited(x: int, y: int)
      requires Valid() && 0 <= x < |clients| && 0 <= y < |clients| && x != y
      modifies visitClient
      ensures Valid()
      ensures forall a, b | 0 <= a < |clients| && 0 <= b < |clients| ::
        visitClient[a, b] == if (a == x && b == y) || (a == y && b == x) then Some(true) else old(visitClient[a, b])
    {
      var isVisited := visitClient[x, y];
      if !isVisited.value {
        visitClient[x, y] := Some(true);
        visitClient[y, x] := Some(true);
      }
    }

    /**
     * Marks every edge of the route, in both directions. Every client of
     * the route must be in the list, and consecutive clients must be at
     * different positions: the unset diagonal mark cannot be read.
     */
    method SetVisitClient(route: seq<Client>)
      requires Valid()
      requires |route| > 1 ==> forall k | 0 <= k < |route| :: 0 <= LastIndexOf(clients, route[k].id)
      requires forall i | 0 <= i < |route| - 1 :: Positions(route, clients)[i] != Positions(route, clients)[i + 1]
      modifies visitClient
      ensures Valid()
      ensures forall a, b | 0 <= a < |clients| && 0 <= b < |clients| ::
        visitClient[a, b] == if EdgeCount(Positions(route, clients), a, b) > 0 then Some(true) else old(visitClient[a, b])
    {
      ghost var ps := Positions(route, clients);
      ghost var n, vc := |clients|, visitClient;
      ghost var before := seq(n, a requires 0 <= a < n reads vc =>
        seq(n, b requires 0 <= b < n reads vc => vc[a, b]));
      var i := 0;
      while i < |route|
        invariant 0 <= i <= |route| || (|route| == 0 && i == 0)
        invariant Valid()
        invariant forall a, b | 0 <= a < n && 0 <= b < n ::
          visitClient[a, b] == if EdgeCount(ps[..if i < |route| then i + 1 else |route|], a, b) > 0 then Some(true) else before[a][b]
      {
        if i < |route| - 1 {
          VisitEdge(route, i, before);
        }
        i := i + 1;
      }
      assert ps[..|route|] == ps;
    }

    /**
     * The local update of every marked edge:
     * each off-diagonal cell marked true moves towards `tau0`.
     */
    method UpdateLP()
      requires Valid()
      modifies pheromones
      ensures Valid()
      ensures forall a, b | 0 <= a < |clients| && 0 <= b < |clients| ::
        pheromones[a, b] ==
          if a != b && visitClient[a, b] == Some(true) then LocalUpdate(old(pheromones[a, b]), alpha, tau0)
          else old(pheromones[a, b])
    {
      var n := pheromones.Length0;
      var i := 0;
      while i < n
        invariant 0 <= i <= n
        invariant forall a, b | 0 <= a < n && 0 <= b < n ::
          pheromones[a, b] ==
            if a < i && a != b && visitClient[a, b] == Some(true) then LocalUpdate(old(pheromones[a, b]), alpha, tau0)
            else old(pheromones[a, b])
      {
        var j := 0;
        while j < n
          invariant 0 <= j <= n
          invariant forall a, b | 0 <= a < n && 0 <= b < n ::
            pheromones[a, b] ==
              if (a < i || (a == i && b < j)) && a != b && visitClient[a, b] == Some(true)
              then LocalUpdate(old(pheromones[a, b]), alpha, tau0)
              else old(pheromones[a, b])
        {
          if i != j {
            var isVisited := visitClient[i, j];
            if isVisited.value {
              var tauIJ := pheromones[i, j];
              pheromones[i, j] := (1.0 - alpha) * tauIJ + alpha * tau0;
            }
          }
          j := j + 1;
        }
        i := i + 1;
      }
    }

    /**
     * The global update with the best route of a round: each edge of the
     * route gets one global update, written to both of its cells, so a
     * cell joined k times by the route gets k of them. Every client of the
     * route must be in the list, and `distance` must not be 0 (1 / 0 is not
     * a pheromone amount).
     */
    method UpdateGP(bestRoute: seq<Client>, distance: int)
      requires Valid() && distance != 0
      requires |bestRoute| > 1 ==> forall k | 0 <= k < |bestRoute| :: 0 <= LastIndexOf(clients, bestRoute[k].id)
      modifies pheromones
      ensures Valid()
      ensures forall a, b | 0 <= a < |clients| && 0 <= b < |clients| ::
        pheromones[a, b] == GlobalRepeat(old(pheromones[a, b]), alpha, distance, EdgeCount(Positions(bestRoute, clients), a, b))
    {
      ghost var ps := Positions(bestRoute, clients);
      var i := 0;
      while i < |bestRoute|
        invariant 0 <= i <= |bestRoute| || (|bestRoute| == 0 && i == 0)
        invariant Valid()
        invariant forall a, b | 0 <= a < |clients| && 0 <= b < |clients| ::
          pheromones[a, b] == GlobalRepeat(old(pheromones[a, b]), alpha, distance, EdgeCount(ps[..if i < |bestRoute| then i + 1 else |bestRoute|], a, b))
      {
        if i < |bestRoute| - 1 {
          var indexC1 := GetIndexClient(bestRoute[i]);
          var indexC2 := GetIndexClient(bestRoute[i + 1]);
          assert indexC1 == ps[i] && indexC2 == ps[i + 1];
          UpdateEdge(indexC1, indexC2, distance);
          forall a, b | 0 <= a < |clients| && 0 <= b < |clients|
            ensures pheromones[a, b] == GlobalRepeat(old(pheromones[a, b]), alpha, distance, EdgeCount(ps[..i + 2], a, b))
          {
            EdgeCountStep(ps, i, a, b);
            if JoinsAt(ps, i, a, b) {
              EdgeCountSymmetric(ps[..i + 1], a, b);
              assert EdgeCount(ps[..i + 1], a, b) == EdgeCount(ps[..i + 1], indexC1, indexC2);
              assert old(pheromones[a, b]) == old(pheromones[indexC1, indexC2]);
            }
          }
        }
        i := i + 1;
      }
      assert ps[..|bestRoute|] == ps;
    }

    /** One step of the global update: the cells of edge (x, y) both get the update of cell [x, y]. */
    method UpdateEdge(x: int, y: int, distance: int)
      requires Valid() && distance != 0
      requires 0 <= x < |clients| && 0 <= y < |clients|
      modifies pheromones
      ensures Valid()
      ensures forall a, b | 0 <= a < |clients| && 0 <= b < |clients| ::
        pheromones[a, b] ==
          if (a == x && b == y) || (a == y && b == x) then GlobalUpdate(old(pheromones[x, y]), alpha, distance)
          else old(pheromones[a, b])
    {
      var tauIJ := pheromones[x, y];
      var newTauIJ := (1.0 - alpha) * tauIJ + alpha * (1.0 / distance as real);
      pheromones[x, y] := newTauIJ;
      pheromones[y, x] := newTauIJ;
    }

    /** The added evaporation amount `delta` on every off-diagonal cell. */
    method EvaporateP(delta: real)
      requires Valid()
      modifies pheromones
      ensures Valid()
      ensures forall a, b | 0 <= a < |clients| && 0 <= b < |clients| ::
        pheromones[a, b] == if a != b then old(pheromones[a, b]) + delta else old(pheromones[a, b])
    {
      var n := pheromones.Length0;
      var i := 0;
      while i < n
        invariant 0 <= i <= n
        invariant forall a, b | 0 <= a < n && 0 <= b < n ::
          pheromones[a, b] == if a < i && a != b then old(pheromones[a, b]) + delta else old(pheromones[a, b])
      {
        var j := 0;
        while j < n
          invariant 0 <= j <= n
          invariant forall a, b | 0 <= a < n && 0 <= b < n ::
            pheromones[a, b] ==
              if (a < i || (a == i && b < j)) && a != b then old(pheromones[a, b]) + delta else old(pheromones[a, b])
        {
          if i != j {
            pheromones[i, j] := pheromones[i, j] + delta;
          }
          j := j + 1;
        }
        i := i + 1;
      }
    }
  }

  /** Counting one more consecutive pair: pair i adds one to the count of the cells it joins. */
  lemma EdgeCountStep(ps: seq<int>, i: int, a: int, b: int)
    requires 0 <= i < |ps| - 1
    ensures EdgeCount(ps[..i + 2], a, b) == EdgeCount(ps[..i + 1], a, b) + (if JoinsAt(ps, i, a, b) then 1 else 0)
  {
    assert ps[..i + 2][..i + 1] == ps[..i + 1];
  }
}
