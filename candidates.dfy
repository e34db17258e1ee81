/**
 * The nearest-K candidate lists (Candidates.java): every client's distance
 * list is sorted by distance, stably, and its first `length` non-depot ids
 * become the client's candidates.
 */
module Candidates {
  import opened Clients

  /** The pairs of a distance list are in nondecreasing distance order. */
  predicate SortedByDistance(ds: seq<(int, int)>)
  {
    forall a, b | 0 <= a < b < |ds| :: ds[a].1 <= ds[b].1
  }

  /**
   * Stable insertion of `x` into a sorted list: `x` goes after every pair
   * whose distance is at most its own.
   */
  function Insert(s: seq<(int, int)>, x: (int, int)): (r: seq<(int, int)>)
    ensures |r| == |s| + 1
  {
    if |s| == 0 || s[|s| - 1].1 <= x.1 then s + [x]
    else Insert(s[..|s| - 1], x) + [s[|s| - 1]]
  }

  /**
   * Insertion sort from the front: inserts each pair of `rest`, in order,
   * into the sorted accumulator `acc`.
   */
  function InsertAll(acc: seq<(int, int)>, rest: seq<(int, int)>): (r: seq<(int, int)>)
    ensures |r| == |acc| + |rest|
    decreases |rest|
  {
    if |rest| == 0 then acc else InsertAll(Insert(acc, rest[0]), rest[1..])
  }

  /** The distance list in nondecreasing distance order, ties in their original order (List.sort is stable). */
  function SortByDistance(ds: seq<(int, int)>): (r: seq<(int, int)>)
    ensures |r| == |ds|
  {
    InsertAll([], ds)
  }

  /** The pairs of `ds` whose distance is `d`, in list order. */
  function WithDistance(ds: seq<(int, int)>, d: int): seq<(int, int)>
  {
    if |ds| == 0 then []
    else WithDistance(ds[..|ds| - 1], d) + (if ds[|ds| - 1].1 == d then [ds[|ds| - 1]] else [])
  }

  lemma {:induction false} InsertSorted(s: seq<(int, int)>, x: (int, int))
    requires SortedByDistance(s)
    ensures SortedByDistance(Insert(s, x))
    ensures forall k | 0 <= k < |Insert(s, x)| :: Insert(s, x)[k] == x || Insert(s, x)[k] in s
    decreases |s|
  {
    if |s| > 0 && s[|s| - 1].1 > x.1 {
      var front := s[..|s| - 1];
      assert SortedByDistance(front);
      InsertSorted(front, x);
      var r := Insert(front, x);
      forall k | 0 <= k < |r|
        ensures r[k].1 <= s[|s| - 1].1
      {
        if r[k] != x {
          assert r[k] in front;
        }
      }
    }
  }

  lemma {:induction false} InsertPermutation(s: seq<(int, int)>, x: (int, int))
    ensures multiset(Insert(s, x)) == multiset(s) + multiset{x}
    decreases |s|
  {
    if |s| > 0 && s[|s| - 1].1 > x.1 {
      InsertPermutation(s[..|s| - 1], x);
      assert s == s[..|s| - 1] + [s[|s| - 1]];
    }
  }

  lemma {:induction false} InsertStable(s: seq<(int, int)>, x: (int, int), d: int)
    ensures WithDistance(Insert(s, x), d) == WithDistance(s, d) + (if x.1 == d then [x] else [])
    decreases |s|
  {
    if |s| == 0 || s[|s| - 1].1 <= x.1 {
      assert (s + [x])[..|s|] == s;
    } else {
      var front, last := s[..|s| - 1], s[|s| - 1];
      InsertStable(front, x, d);
      var r := Insert(front, x);
      assert (r + [last])[..|r|] == r;
      if x.1 == d {
        assert last.1 != d;
      }
    }
  }

  lemma {:induction false} InsertAllSorted(acc: seq<(int, int)>, rest: seq<(int, int)>)
    requires SortedByDistance(acc)
    ensures SortedByDistance(InsertAll(acc, rest))
    decreases |rest|
  {
    if |rest| > 0 {
      InsertSorted(acc, rest[0]);
      InsertAllSorted(Insert(acc, rest[0]), rest[1..]);
    }
  }

  lemma {:induction false} InsertAllPermutation(acc: seq<(int, int)>, rest: seq<(int, int)>)
    ensures multiset(InsertAll(acc, rest)) == multiset(acc) + multiset(rest)
    decreases |rest|
  {
    if |rest| > 0 {
      InsertPermutation(acc, rest[0]);
      InsertAllPermutation(Insert(acc, rest[0]), rest[1..]);
      assert rest == [rest[0]] + rest[1..];
    }
  }

  lemma {:induction false} WithDistanceAppend(a: seq<(int, int)>, b: seq<(int, int)>, d: int)
    ensures WithDistance(a + b, d) == WithDistance(a, d) + WithDistance(b, d)
    decreases |b|
  {
    if |b| == 0 {
      assert a + b == a;
    } else {
      WithDistanceAppend(a, b[..|b| - 1], d);
      assert (a + b)[..|a + b| - 1] == a + b[..|b| - 1];
    }
  }

  lemma {:induction false} InsertAllStable(acc: seq<(int, int)>, rest: seq<(int, int)>, d: int)
    ensures WithDistance(InsertAll(acc, rest), d) == WithDistance(acc, d) + WithDistance(rest, d)
    decreases |rest|
  {
    if |rest| > 0 {
      var x := rest[0];
      InsertStable(acc, x, d);
      InsertAllStable(Insert(acc, x), rest[1..], d);
      WithDistanceAppend([x], rest[1..], d);
      assert rest == [x] + rest[1..];
      assert [x][..0] == [];
    }
  }

  lemma {:induction false} InsertAllIdentity(acc: seq<(int, int)>, rest: seq<(int, int)>)
    requires SortedByDistance(acc + rest)
    ensures InsertAll(acc, rest) == acc + rest
    decreases |rest|
  {
    if |rest| > 0 {
      var x := rest[0];
      assert (acc + rest)[|acc|] == x;
      if |acc| > 0 {
        assert (acc + rest)[|acc| - 1] == acc[|acc| - 1];
      }
      assert Insert(acc, x) == acc + [x];
      assert acc + rest == (acc + [x]) + rest[1..];
      InsertAllIdentity(acc + [x], rest[1..]);
    }
  }

  /** The sorted list is sorted. */
  lemma SortSorted(ds: seq<(int, int)>)
    ensures SortedByDistance(SortByDistance(ds))
  {
    InsertAllSorted([], ds);
  }

  /** Sorting only reorders the list. */
  lemma SortPermutation(ds: seq<(int, int)>)
    ensures multiset(SortByDistance(ds)) == multiset(ds)
  {
    InsertAllPermutation([], ds);
  }

  /** Pairs with equal distance keep their relative order. */
  lemma SortStable(ds: seq<(int, int)>, d: int)
    ensures WithDistance(SortByDistance(ds), d) == WithDistance(ds, d)
  {
    InsertAllStable([], ds, d);
    assert [] + ds == ds;
  }

  /** A list already in order is left as it is. */
  lemma SortIdentity(ds: seq<(int, int)>)
    requires SortedByDistance(ds)
    ensures SortByDistance(ds) == ds
  {
    assert [] + ds == ds;
    InsertAllIdentity([], ds);
  }

  /** Sorting twice is sorting once. */
  lemma SortIdempotent(ds: seq<(int, int)>)
    ensures SortByDistance(SortByDistance(ds)) == SortByDistance(ds)
  {
    SortSorted(ds);
    SortIdentity(SortByDistance(ds));
  }

  /** Sorting keeps every pair of the list, and so every id. */
  lemma SortKeepsIds(ds: seq<(int, int)>)
    ensures forall p | p in SortByDistance(ds) :: p in ds
    ensures forall id | id in Ids(ds) :: id in Ids(SortByDistance(ds))
  {
    SortPermutation(ds);
    var s := SortByDistance(ds);
    forall p | p in s
      ensures p in ds
    {
      assert p in multiset(s);
    }
    IdsAt(ds);
    IdsAt(s);
    forall id | id in Ids(ds)
      ensures id in Ids(s)
    {
      var t :| 0 <= t < |ds| && Ids(ds)[t] == id;
      assert ds[t] in multiset(s);
      var u :| 0 <= u < |s| && s[u] == ds[t];
      assert Ids(s)[u] == id;
    }
  }

  /** The pairs of `ds` whose id is not the depot's, in list order. */
  function NonDepotPairs(ds: seq<(int, int)>, depotId: int): (r: seq<(int, int)>)
    ensures |r| <= |ds|
  {
    if |ds| == 0 then []
    else NonDepotPairs(ds[..|ds| - 1], depotId) + (if ds[|ds| - 1].0 != depotId then [ds[|ds| - 1]] else [])
  }

  /** The ids of the non-depot pairs, in list order. */
  function NonDepotIds(ds: seq<(int, int)>, depotId: int): seq<int>
  {
    Ids(NonDepotPairs(ds, depotId))
  }

  /**
   * What the candidate loop keeps from a sorted list `ds`: for a positive
   * `length` the first `length` non-depot ids (all of them when there are
   * fewer). For `length` 0 the size check, made after each pair, fires at
   * once when the first pair is the depot's, giving no candidates; otherwise
   * the list is never of size 0 again and, as for a negative `length`, every
   * non-depot id is kept.
   */
  function CandidateList(ds: seq<(int, int)>, depotId: int, length: int): seq<int>
  {
    var ids := NonDepotIds(ds, depotId);
    if length > 0 then ids[..if length < |ids| then length else |ids|]
    else if length == 0 && |ds| > 0 && ds[0].0 == depotId then []
    else ids
  }

  lemma {:induction false} NonDepotPairsMembers(ds: seq<(int, int)>, depotId: int)
    ensures forall k | 0 <= k < |NonDepotPairs(ds, depotId)| ::
      NonDepotPairs(ds, depotId)[k].0 != depotId && NonDepotPairs(ds, depotId)[k] in ds
  {
    if |ds| > 0 {
      NonDepotPairsMembers(ds[..|ds| - 1], depotId);
      var p := NonDepotPairs(ds[..|ds| - 1], depotId);
      forall k | 0 <= k < |p|
        ensures p[k] in ds
      {
        assert p[k] in ds[..|ds| - 1];
      }
    }
  }

  /** A list without the depot's id keeps all its pairs. */
  lemma {:induction false} NonDepotPairsAll(ds: seq<(int, int)>, depotId: int)
    requires forall k | 0 <= k < |ds| :: ds[k].0 != depotId
    ensures NonDepotPairs(ds, depotId) == ds
  {
    if |ds| > 0 {
      NonDepotPairsAll(ds[..|ds| - 1], depotId);
    }
  }

  /** Dropping pairs from a sorted list leaves it sorted. */
  lemma {:induction false} NonDepotPairsSorted(ds: seq<(int, int)>, depotId: int)
    requires SortedByDistance(ds)
    ensures SortedByDistance(NonDepotPairs(ds, depotId))
  {
    if |ds| > 0 {
      var front := ds[..|ds| - 1];
      assert SortedByDistance(front);
      NonDepotPairsSorted(front, depotId);
      NonDepotPairsMembers(front, depotId);
      var p := NonDepotPairs(front, depotId);
      forall k | 0 <= k < |p|
        ensures p[k].1 <= ds[|ds| - 1].1
      {
        assert p[k] in front;
      }
    }
  }

  /** The non-depot pairs of a prefix are a prefix of the non-depot pairs. */
  lemma {:induction false} NonDepotPairsPrefix(ds: seq<(int, int)>, depotId: int, m: int)
    requires 0 <= m <= |ds|
    ensures NonDepotPairs(ds[..m], depotId) <= NonDepotPairs(ds, depotId)
    decreases |ds|
  {
    if m < |ds| {
      NonDepotPairsPrefix(ds[..|ds| - 1], depotId, m);
      assert ds[..|ds| - 1][..m] == ds[..m];
    } else {
      assert ds[..m] == ds;
    }
  }

  lemma IdsSnoc(a: seq<(int, int)>, x: (int, int))
    ensures Ids(a + [x]) == Ids(a) + [x.0]
  {
    assert (a + [x])[..|a|] == a;
  }

  lemma IdsPrefix(a: seq<(int, int)>, b: seq<(int, int)>)
    requires a <= b
    ensures Ids(a) <= Ids(b)
  {
    IdsAt(a);
    IdsAt(b);
  }

  /** The candidates never include the depot, and each is an id of the list. */
  lemma CandidatesExcludeDepot(ds: seq<(int, int)>, depotId: int, length: int)
    ensures depotId !in CandidateList(ds, depotId, length)
    ensures forall id | id in CandidateList(ds, depotId, length) :: id in Ids(ds)
  {
    NonDepotPairsMembers(ds, depotId);
    var p := NonDepotPairs(ds, depotId);
    var c := CandidateList(ds, depotId, length);
    IdsAt(p);
    IdsAt(ds);
    assert c <= Ids(p);
    forall id | id in c
      ensures id != depotId && id in Ids(ds)
    {
      var k :| 0 <= k < |c| && c[k] == id;
      var t :| 0 <= t < |ds| && ds[t] == p[k];
      assert Ids(ds)[t] == id;
    }
  }

  /**
   * The size bound: for a positive `length` at most `length` ids, and fewer
   * only when every non-depot id is already in; for a negative `length`, or
   * for 0 unless the first pair is the depot's, every non-depot id.
   */
  lemma CandidatesSize(ds: seq<(int, int)>, depotId: int, length: int)
    ensures CandidateList(ds, depotId, length) <= NonDepotIds(ds, depotId)
    ensures length > 0 ==> |CandidateList(ds, depotId, length)| <= length
    ensures length > 0 && |CandidateList(ds, depotId, length)| < length ==>
      CandidateList(ds, depotId, length) == NonDepotIds(ds, depotId)
    ensures length < 0 || (length == 0 && (|ds| == 0 || ds[0].0 != depotId)) ==>
      CandidateList(ds, depotId, length) == NonDepotIds(ds, depotId)
  {
  }

  /** A nonempty list without the depot's id yields at least one candidate, whatever the length. */
  lemma CandidatesNonempty(ds: seq<(int, int)>, depotId: int, length: int)
    requires |ds| > 0 && forall k | 0 <= k < |ds| :: ds[k].0 != depotId
    ensures |CandidateList(ds, depotId, length)| > 0
  {
    NonDepotPairsAll(ds, depotId);
  }

  /**
   * Nearest first: over a sorted list the candidates come in nondecreasing
   * distance order, and no non-depot pair left out is nearer than a
   * candidate: the candidates are the pairs 0..n-1 of the sorted non-depot
   * pairs, and every pair from n on is at least as far as each of them.
   */
  lemma CandidatesNearest(ds: seq<(int, int)>, depotId: int, length: int)
    requires SortedByDistance(ds)
    ensures var p := NonDepotPairs(ds, depotId);
      var n := |CandidateList(ds, depotId, length)|;
      && n <= |p|
      && CandidateList(ds, depotId, length) == Ids(p[..n])
      && SortedByDistance(p)
      && forall a, b | 0 <= a < n <= b < |p| :: p[a].1 <= p[b].1
  {
    NonDepotPairsSorted(ds, depotId);
    var p := NonDepotPairs(ds, depotId);
    var c := CandidateList(ds, depotId, length);
    IdsAt(p);
    IdsAt(p[..|c|]);
    CandidatesSize(ds, depotId, length);
    assert c == Ids(p[..|c|]);
  }

  /** One more pair adds its id to the non-depot ids unless it is the depot's. */
  lemma NonDepotIdsStep(ds: seq<(int, int)>, depotId: int, i: int)
    requires 0 <= i < |ds|
    ensures NonDepotIds(ds[..i + 1], depotId) ==
      NonDepotIds(ds[..i], depotId) + if ds[i].0 != depotId then [ds[i].0] else []
  {
    assert ds[..i + 1][..i] == ds[..i];
    var front := NonDepotPairs(ds[..i], depotId);
    if ds[i].0 != depotId {
      IdsSnoc(front, ds[i]);
    } else {
      assert front + [] == front;
    }
  }

  /** The loop stops after pair m - 1 with exactly `length` ids: that is the candidate list. */
  lemma BreakResult(ds: seq<(int, int)>, depotId: int, length: int, m: int)
    requires 1 <= m <= |ds| && |NonDepotIds(ds[..m], depotId)| == length
    requires length == 0 ==> m == 1
    ensures NonDepotIds(ds[..m], depotId) == CandidateList(ds, depotId, length)
  {
    NonDepotPairsPrefix(ds, depotId, m);
    IdsPrefix(NonDepotPairs(ds[..m], depotId), NonDepotPairs(ds, depotId));
    if length == 0 {
      assert ds[..1][..0] == [];
    }
  }

  /** The builder of every client's candidate list. */
  class CandidateBuilder {
    const length: int

    constructor (length: int)
      ensures this.length == length
    {
      this.length := length;
    }

    /**
     * Sorts the client's own distance list in place (stably, by distance)
     * and returns the first `length` non-depot ids of the sorted list, with
     * the loop's break condition checked after each pair.
     */
    method SearchCandidates(client: Client, depot: Client) returns (candidates: seq<int>)
      modifies client`distances
      ensures client.distances == SortByDistance(old(client.distances))
      ensures candidates == CandidateList(client.distances, depot.id, length)
    {
      var distances := SortByDistance(client.distances);
      client.distances := distances;
      candidates := [];
      var i := 0;
      while i < |distances|
        invariant 0 <= i <= |distances| && client.distances == distances
        invariant candidates == NonDepotIds(distances[..i], depot.id)
        invariant length > 0 ==> |candidates| < length
        invariant length == 0 && i > 0 ==> distances[0].0 != depot.id && |candidates| > 0
      {
        NonDepotIdsStep(distances, depot.id, i);
        var idClient := distances[i].0;
        if idClient != depot.id {
          candidates := candidates + [idClient];
        }
        if |candidates| == length {
          BreakResult(distances, depot.id, length, i + 1);
          break;
        }
        i := i + 1;
      }
      if i == |distances| {
        assert distances[..i] == distances;
      }
    }

    /**
     * Gives every client its candidate list, with the first client of the
     * list as the depot: each client's distance list ends up sorted and its
     * candidates are built from the sorted list.
     */
    method ObtainCandidates(clients: seq<Client>)
      requires |clients| > 0
      requires forall x, y | 0 <= x < y < |clients| :: clients[x] != clients[y]
      modifies clients`distances, clients`candidates
      ensures forall k | 0 <= k < |clients| ::
        && clients[k].distances == SortByDistance(old(clients[k].distances))
        && clients[k].candidates == CandidateList(clients[k].distances, clients[0].id, length)
    {
      var depot := clients[0];
      var i := 0;
      while i < |clients|
        invariant 0 <= i <= |clients|
        invariant forall k | i <= k < |clients| :: clients[k].distances == old(clients[k].distances)
        invariant forall k | 0 <= k < i :: clients[k].distances == SortByDistance(old(clients[k].distances))
        invariant forall k | 0 <= k < i :: clients[k].candidates == CandidateList(clients[k].distances, depot.id, length)
      {
        var client := clients[i];
        var candidates := SearchCandidates(client, depot);
        client.SetCandidates(candidates);
        i := i + 1;
      }
    }
  }
}
