/**
 * `bruteForce_solve_dominating_set`: for every size from `min_size` to
 * `min(max_size, N)`, enumerate the subsets of that size of the degree-sorted vertex
 * list in `itertools.combinations` order; accumulate the closed neighbourhoods of a
 * candidate one vertex at a time, accept it as soon as every vertex is covered, and
 * abandon it once even the largest closed neighbourhood among the remaining vertices,
 * taken once per remaining vertex, cannot close the gap.
 */
module BruteForceDominating {
  import opened Wrappers
  import opened Graphs
  import opened Domination
  import opened Combinatorics

  /** `max(len(neighborhood_closure[w]) for w in remaining_vertices)`, where the
      remaining vertices are `s[lo..]`. */
  function MaxClosedFrom(adj: Adjacency, s: seq<nat>, lo: nat): (m: nat)
    requires lo < |s| && forall i :: 0 <= i < |s| ==> s[i] < |adj|
    ensures forall i :: lo <= i < |s| ==> |Closed(adj, s[i])| <= m
    ensures exists i :: lo <= i < |s| && |Closed(adj, s[i])| == m
    decreases |s| - lo
  {
    if lo == |s| - 1 then |Closed(adj, s[lo])|
    else
      var m := MaxClosedFrom(adj, s, lo + 1);
      if |Closed(adj, s[lo])| > m then |Closed(adj, s[lo])| else m
  }

  /** One step of the candidate loop: `covered_nodes |= neighborhood_closure[vertex]`
      is the cover of the next prefix, full exactly when that prefix dominates. */
  lemma PrefixStep(adj: Adjacency, cand: seq<nat>, idx: nat)
    requires ValidGraph(adj) && idx < |cand| && cand[idx] < |adj|
    ensures Cover(adj, Elems(cand[..idx + 1])) == Cover(adj, Elems(cand[..idx])) + Closed(adj, cand[idx])
    ensures Dominates(adj, Elems(cand[..idx + 1])) <==> |Cover(adj, Elems(cand[..idx + 1]))| == |adj|
  {
    ElemsPrefixSnoc(cand, idx);
    CoverAdd(adj, Elems(cand[..idx]), cand[idx]);
    DominatesIffFull(adj, Elems(cand[..idx + 1]));
  }

  /**
   * The coverage bound of the candidate loop is admissible: when the cover of the
   * vertices taken so far plus the remaining vertices times the largest closed
   * neighbourhood among them falls short of N, the whole candidate does not dominate.
   */
  lemma AbandonIsSound(adj: Adjacency, front: seq<nat>, rest: seq<nat>, maxCov: nat)
    requires ValidGraph(adj)
    requires forall i :: 0 <= i < |rest| ==> rest[i] < |adj| && |Closed(adj, rest[i])| <= maxCov
    requires |Cover(adj, Elems(front))| + Times(|rest|, maxCov) < |adj|
    ensures !Dominates(adj, Elems(front + rest))
  {
    RestCoverBound(adj, rest, maxCov);
    CoverSplitCard(adj, front, rest);
    DominatesIffFull(adj, Elems(front + rest));
  }

  /** The cover of a concatenation is at most the sum of the covers. */
  lemma CoverSplitCard(adj: Adjacency, front: seq<nat>, rest: seq<nat>)
    ensures |Cover(adj, Elems(front + rest))| <= |Cover(adj, Elems(front))| + |Cover(adj, Elems(rest))|
  {
    assert Elems(front + rest) == Elems(front) + Elems(rest);
    CoverUnion(adj, Elems(front), Elems(rest));
    var A, B := Cover(adj, Elems(front)), Cover(adj, Elems(rest));
    assert |A + B| + |A * B| == |A| + |B|;
  }

  /** Vertices that cover at most `maxCov` vertices each cover at most `maxCov` per
      vertex together. */
  lemma RestCoverBound(adj: Adjacency, rest: seq<nat>, maxCov: nat)
    requires ValidGraph(adj)
    requires forall i :: 0 <= i < |rest| ==> rest[i] < |adj| && |Closed(adj, rest[i])| <= maxCov
    ensures |Cover(adj, Elems(rest))| <= Times(|rest|, maxCov)
  {
    forall u | u in Elems(rest) ensures u < |adj| && |Closed(adj, u)| <= maxCov {
      var j :| 0 <= j < |rest| && rest[j] == u;
    }
    CoverCardBound(adj, Elems(rest), maxCov);
    ElemsCard(rest);
    TimesMono(|Elems(rest)|, |rest|, maxCov);
  }

  /** The break test `len(covered_nodes) + (size - idx - 1) * max_coverage < N` at
      position `idx` rules the candidate out. */
  lemma BreakIsSound(adj: Adjacency, cand: seq<nat>, idx: nat, maxCov: nat)
    requires ValidGraph(adj) && idx < |cand|
    requires forall i :: 0 <= i < |cand| ==> cand[i] < |adj|
    requires forall i :: idx + 1 <= i < |cand| ==> |Closed(adj, cand[i])| <= maxCov
    requires |Cover(adj, Elems(cand[..idx + 1]))| + (|cand| - idx - 1) * maxCov < |adj|
    ensures !Dominates(adj, Elems(cand))
  {
    var front, rest := cand[..idx + 1], cand[idx + 1..];
    ProductBound(|Cover(adj, Elems(front))|, |rest|, maxCov, |adj|);
    assert forall i :: 0 <= i < |rest| ==> rest[i] == cand[idx + 1 + i];
    AbandonIsSound(adj, front, rest, maxCov);
    assert cand == front + rest;
  }

  lemma ProductBound(covered: nat, count: nat, maxCov: nat, n: nat)
    requires covered + count * maxCov < n
    ensures covered + Times(count, maxCov) < n
  {
    TimesIsProduct(count, maxCov);
  }

  /** The break test of the candidate loop: with `remaining_vertices` the vertices
      after position `idx`, `len(covered_nodes) + len(remaining_vertices) * max_cov < N`.
      When it holds the candidate does not dominate. */
  method CannotComplete(adj: Adjacency, cand: seq<nat>, idx: nat, covered: set<nat>) returns (hopeless: bool)
    requires ValidGraph(adj) && idx < |cand|
    requires forall i :: 0 <= i < |cand| ==> cand[i] < |adj|
    requires covered == Cover(adj, Elems(cand[..idx + 1]))
    ensures hopeless <==> (idx + 1 < |cand| &&
      |covered| + (|cand| - idx - 1) * MaxClosedFrom(adj, cand, idx + 1) < |adj|)
    ensures hopeless ==> !Dominates(adj, Elems(cand))
  {
    hopeless := false;
    if idx + 1 < |cand| {
      var maxCov := MaxClosedFrom(adj, cand, idx + 1);   // max_cov
      if |covered| + (|cand| - idx - 1) * maxCov < |adj| {
        BreakIsSound(adj, cand, idx, maxCov);
        hopeless := true;
      }
    }
  }

  /** One pass of the candidate loop `for idx, vertex in enumerate(candidate_set)`:
      true when it returns the candidate, false when it breaks or runs out. */
  method TestCandidate(adj: Adjacency, cand: seq<nat>) returns (found: bool)
    requires ValidGraph(adj) && forall i :: 0 <= i < |cand| ==> cand[i] < |adj|
    ensures found <==> |cand| > 0 && Dominates(adj, Elems(cand))
  {
    var covered: set<nat> := {};   // covered_nodes
    assert Elems(cand[..0]) == {};
    assert Cover(adj, {}) == {};
    var idx := 0;
    while idx < |cand|
      invariant 0 <= idx <= |cand|
      invariant covered == Cover(adj, Elems(cand[..idx]))
      invariant idx > 0 ==> !Dominates(adj, Elems(cand[..idx]))
    {
      var vertex := cand[idx];
      PrefixStep(adj, cand, idx);
      covered := covered + Closed(adj, vertex);
      if |covered| == |adj| {
        ElemsPrefix(cand, idx + 1);
        DominatesMono(adj, Elems(cand[..idx + 1]), Elems(cand));
        return true;
      }
      var hopeless := CannotComplete(adj, cand, idx, covered);
      if hopeless {
        return false;
      }
      idx := idx + 1;
    }
    assert cand[..|cand|] == cand;
    found := false;
  }

  /** A non-empty set of vertices that dominates the graph and has between `lo` and
      `hi` elements. */
  ghost predicate DominatingInWindow(adj: Adjacency, T: set<nat>, lo: int, hi: int) {
    T <= Vertices(|adj|) && T != {} && lo <= |T| <= hi && Dominates(adj, T)
  }

  /** The size loop of `bruteForce_solve_dominating_set` for sizes that are not
      negative, with the vertex list in the given order. */
  method SearchSizes(adj: Adjacency, order: seq<nat>, minSize: nat, maxSize: nat)
    returns (r: Option<seq<nat>>)
    requires ValidGraph(adj) && IsOrder(order, |adj|)
    ensures r.Some? ==> minSize <= |r.value| <= maxSize && |r.value| <= |adj|
    ensures r.Some? ==> (Distinct(r.value) && Elems(r.value) <= Vertices(|adj|) &&
      Dominates(adj, Elems(r.value)))
    ensures r.Some? ==> exists i :: (0 <= i < |Combinations(order, |r.value|)| &&
      Combinations(order, |r.value|)[i] == r.value &&
      forall j :: 0 <= j < i ==> !Dominates(adj, Elems(Combinations(order, |r.value|)[j])))
    ensures r.Some? ==> forall T :: T <= Vertices(|adj|) && T != {} && minSize <= |T| < |r.value| ==>
      !Dominates(adj, T)
    ensures r.None? <==> forall T :: !DominatingInWindow(adj, T, minSize, maxSize)
  {
    var maxK := if maxSize < |adj| then maxSize else |adj|;
    DistinctCard(order);
    assert Elems(order) <= Vertices(|adj|);
    FullSubset(Elems(order), |adj|);
    var size := minSize;
    while size <= maxK
      invariant minSize <= size
      invariant forall T :: T <= Vertices(|adj|) && T != {} && minSize <= |T| < size ==> !Dominates(adj, T)
    {
      var combos := Combinations(order, size);
      var i := 0;
      while i < |combos|
        invariant 0 <= i <= |combos|
        invariant forall j :: 0 <= j < i ==> !Dominates(adj, Elems(combos[j])) || size == 0
      {
        var c := combos[i];   // candidate_set
        CombinationsSound(order, size, i);
        forall m | 0 <= m < |c| ensures c[m] < |adj| {
          assert c[m] in Elems(c);
        }
        var found := TestCandidate(adj, c);
        if found {
          DistinctCard(c);
          SubsetCard(Elems(c), |adj|);
          r := Some(c);
          assert DominatingInWindow(adj, Elems(c), minSize, maxSize);
          return;
        }
        assert |c| == size;
        forall j | 0 <= j < i + 1 ensures !Dominates(adj, Elems(combos[j])) || size == 0 {
          if j == i {
            assert combos[j] == c;
          }
        }
        i := i + 1;
      }
      forall T | T <= Vertices(|adj|) && T != {} && minSize <= |T| <= size
        ensures !Dominates(adj, T)
      {
        if |T| == size {
          var j := CombinationsComplete(order, size, T);
        }
      }
      size := size + 1;
    }
    r := None;
    forall T | DominatingInWindow(adj, T, minSize, maxSize) ensures false {
      SubsetCard(T, |adj|);
    }
  }

  /** `bruteForce_solve_dominating_set(min_size=17, max_size=21)` with the vertex list in
      the given order (the source passes the stable degree-descending order). Sizes run
      from `min_size` to `min(max_size, N)`; a negative first size makes `math.comb`
      raise `ValueError`, and an empty range of sizes finds nothing. */
  method BruteForceDominatingSet(adj: Adjacency, order: seq<nat>, minSize: int := 17, maxSize: int := 21)
    returns (r: Result<Option<seq<nat>>>)
    requires ValidGraph(adj) && IsOrder(order, |adj|)
    ensures r.Err? <==> minSize < 0 && minSize <= maxSize && minSize <= |adj|
    ensures r.Ok? ==> (r.value.None? <==> forall T :: !DominatingInWindow(adj, T, minSize, maxSize))
    ensures r.Ok? && r.value.Some? ==> (minSize <= |r.value.value| <= maxSize &&
      Distinct(r.value.value) && Elems(r.value.value) <= Vertices(|adj|) &&
      Dominates(adj, Elems(r.value.value)))
    ensures r.Ok? && r.value.Some? ==> exists i :: (0 <= i < |Combinations(order, |r.value.value|)| &&
      Combinations(order, |r.value.value|)[i] == r.value.value &&
      forall j :: 0 <= j < i ==> !Dominates(adj, Elems(Combinations(order, |r.value.value|)[j])))
    ensures r.Ok? && r.value.Some? ==> forall T ::
      (T <= Vertices(|adj|) && T != {} && minSize <= |T| < |r.value.value| ==> !Dominates(adj, T))
  {
    var maxK := if maxSize < |adj| then maxSize else |adj|;   // max_k
    if minSize < 0 {
      if minSize <= maxK {
        return Err("k must be a non-negative integer");
      }
      return Ok(None);
    }
    if maxSize < 0 {
      return Ok(None);
    }
    var found := SearchSizes(adj, order, minSize, maxSize);
    r := Ok(found);
  }
}
