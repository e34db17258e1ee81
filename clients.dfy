/**
 * Customers and the depot of a routing instance (Client.java), with the
 * lookups by id that the colony and the solver run over the client list.
 */
module Clients {

  /** A location: the depot (demand 0) or a customer. */
  class Client {
    const id: int
    const city: string
    const state: string
    var demand: int
    var isDepot: bool
    /** Ids of the nearest customers, as built by the candidate-list builder. */
    var candidates: seq<int>
    /** Pairs (id of another client, distance to it). */
    var distances: seq<(int, int)>

    /** A new client has no demand yet (-1), is not the depot and has empty lists. */
    constructor (id: int, city: string, state: string)
      ensures this.id == id && this.city == city && this.state == state
      ensures demand == -1 && !isDepot
      ensures candidates == [] && distances == []
    {
      this.id := id;
      this.city := city;
      this.state := state;
      demand := -1;
      isDepot := false;
      candidates := [];
      distances := [];
    }

    method SetDemand(demand: int)
      modifies this`demand
      ensures this.demand == demand
    {
      this.demand := demand;
    }

    method SetIsDepot(isDepot: bool)
      modifies this`isDepot
      ensures this.isDepot == isDepot
    {
      this.isDepot := isDepot;
    }

    method SetCandidates(candidates: seq<int>)
      modifies this`candidates
      ensures this.candidates == candidates
    {
      this.candidates := candidates;
    }

    method SetDistances(distances: seq<(int, int)>)
      modifies this`distances
      ensures this.distances == distances
    {
      this.distances := distances;
    }

    /**
     * The distance to the client with id `idClient2`: the distance of the last
     * pair carrying that id, or 0 when no pair does.
     */
    method SearchDistance(idClient2: int) returns (distance: int)
      ensures distance == DistanceIn(distances, idClient2)
      ensures (forall k | 0 <= k < |distances| :: distances[k].0 != idClient2) ==> distance == 0
      ensures forall k | LastPairWith(distances, idClient2, k) :: distance == distances[k].1
    {
      distance := 0;
      var i := 0;
      while i < |distances|
        invariant 0 <= i <= |distances|
        invariant distance == DistanceIn(distances[..i], idClient2)
      {
        assert distances[..i + 1][..i] == distances[..i];
        if distances[i].0 == idClient2 {
          distance := distances[i].1;
        }
        i := i + 1;
      }
      assert distances[..i] == distances;
      DistanceInMeaning(distances, idClient2);
    }
  }

  /** Position `k` holds the last pair of `ds` whose id is `id`. */
  predicate LastPairWith(ds: seq<(int, int)>, id: int, k: int)
  {
    0 <= k < |ds| && ds[k].0 == id && forall j | k < j < |ds| :: ds[j].0 != id
  }

  /** The distance recorded for `id` in a distance list: the last matching pair wins, 0 if none. */
  function DistanceIn(ds: seq<(int, int)>, id: int): int
  {
    if |ds| == 0 then 0
    else if ds[|ds| - 1].0 == id then ds[|ds| - 1].1
    else DistanceIn(ds[..|ds| - 1], id)
  }

  /**
   * What the lookup means: 0 when no pair carries `id`, otherwise the
   * distance of the last pair that does.
   */
  lemma {:induction false} DistanceInMeaning(ds: seq<(int, int)>, id: int)
    ensures (forall k | 0 <= k < |ds| :: ds[k].0 != id) ==> DistanceIn(ds, id) == 0
    ensures forall k | LastPairWith(ds, id, k) :: DistanceIn(ds, id) == ds[k].1
  {
    if |ds| > 0 && ds[|ds| - 1].0 != id {
      DistanceInMeaning(ds[..|ds| - 1], id);
      assert forall k | LastPairWith(ds, id, k) :: LastPairWith(ds[..|ds| - 1], id, k);
    }
  }

  /** Every distance in the list is nonnegative. */
  predicate NonnegativeDistances(ds: seq<(int, int)>)
  {
    forall k | 0 <= k < |ds| :: ds[k].1 >= 0
  }

  lemma {:induction false} DistanceInNonnegative(ds: seq<(int, int)>, id: int)
    requires NonnegativeDistances(ds)
    ensures DistanceIn(ds, id) >= 0
  {
    if |ds| > 0 && ds[|ds| - 1].0 != id {
      DistanceInNonnegative(ds[..|ds| - 1], id);
    }
  }

  /** The ids of the pairs of a distance list, in list order. */
  function Ids(ds: seq<(int, int)>): (r: seq<int>)
    ensures |r| == |ds|
  {
    if |ds| == 0 then [] else Ids(ds[..|ds| - 1]) + [ds[|ds| - 1].0]
  }

  /** Position k of the id list is the id of pair k. */
  lemma {:induction false} IdsAt(ds: seq<(int, int)>)
    ensures forall k | 0 <= k < |ds| :: Ids(ds)[k] == ds[k].0
  {
    if |ds| > 0 {
      IdsAt(ds[..|ds| - 1]);
    }
  }

  /** The id of the client at position i. */
  function IdAt(clients: seq<Client>, i: int): int
    requires 0 <= i < |clients|
  {
    clients[i].id
  }

  /** No two clients of the list share an id. */
  predicate UniqueIds(clients: seq<Client>)
  {
    forall i, j | 0 <= i < j < |clients| :: IdAt(clients, i) != IdAt(clients, j)
  }

  /** The position of the last client with the given id, or -1 when there is none. */
  function LastIndexOf(clients: seq<Client>, id: int): (k: int)
    ensures -1 <= k < |clients|
    ensures k >= 0 ==> clients[k].id == id
  {
    if |clients| == 0 then -1
    else if clients[|clients| - 1].id == id then |clients| - 1
    else LastIndexOf(clients[..|clients| - 1], id)
  }

  /** The last position with the id, and -1 exactly when no client has it. */
  lemma {:induction false} LastIndexOfMeaning(clients: seq<Client>, id: int)
    ensures var k := LastIndexOf(clients, id);
      && (k >= 0 ==> forall j | k < j < |clients| :: clients[j].id != id)
      && (k == -1 <==> forall j | 0 <= j < |clients| :: clients[j].id != id)
  {
    if |clients| > 0 && clients[|clients| - 1].id != id {
      LastIndexOfMeaning(clients[..|clients| - 1], id);
    }
  }

  /** With unique ids, looking a client up by its own id finds its own position. */
  lemma {:induction false} LastIndexOfOwnId(clients: seq<Client>, k: int)
    requires UniqueIds(clients) && 0 <= k < |clients|
    ensures LastIndexOf(clients, clients[k].id) == k
  {
    var n := |clients| - 1;
    if k < n {
      assert IdAt(clients, k) != IdAt(clients, n);
      var front := clients[..n];
      assert UniqueIds(front) by {
        forall i, j | 0 <= i < j < |front|
          ensures IdAt(front, i) != IdAt(front, j)
        {
          assert IdAt(front, i) == IdAt(clients, i) && IdAt(front, j) == IdAt(clients, j);
        }
      }
      LastIndexOfOwnId(front, k);
    }
  }

  /** Every id in a distance list names a client of the list. */
  ghost predicate DistancesNameClients(clients: seq<Client>)
    reads clients`distances
  {
    forall c | c in clients :: forall p | p in c.distances :: 0 <= LastIndexOf(clients, p.0)
  }

  /** Every id in a candidate list names a client of the list. */
  ghost predicate CandidatesNameClients(clients: seq<Client>)
    reads clients`candidates
  {
    forall c | c in clients :: forall id | id in c.candidates :: 0 <= LastIndexOf(clients, id)
  }
}
