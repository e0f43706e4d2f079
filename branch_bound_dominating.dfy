/**
 * `branchBound_solve_dominating_set`: starting from each vertex in name order,
 * `dfs_dom` grows `current_set` one vertex at a time, always branching on the closed
 * neighbourhood of the first vertex at index `next_idx` or later that is still
 * undominated (restricted to neighbours above the start index), records an incumbent
 * whenever every vertex is dominated, and prunes with `ceil(remaining / max_cover)`.
 * The incumbent starts as the whole vertex set; no further start is tried once it has
 * a single vertex.
 */
module BranchBoundDominating {
  import opened Wrappers
  import opened Graphs
  import opened Domination

  /** `max(self.graph.degree(v) for v in nodes_sorted)`. */
  function MaxDegree(adj: Adjacency): (d: nat)
    requires |adj| > 0
    ensures forall u :: 0 <= u < |adj| ==> |adj[u]| <= d
    ensures exists u :: 0 <= u < |adj| && |adj[u]| == d
  {
    if |adj| == 1 then |adj[0]|
    else
      var d := MaxDegree(adj[..|adj| - 1]);
      assert forall u :: 0 <= u < |adj| - 1 ==> adj[..|adj| - 1][u] == adj[u];
      if |adj[|adj| - 1]| > d then |adj[|adj| - 1]| else d
  }

  /** `[u for u in s if index_map[u] > start_i]`. */
  function Above(s: seq<nat>, start: nat): (r: seq<nat>)
    ensures forall x :: x in r <==> x in s && x > start
  {
    if s == [] then []
    else if s[0] > start then [s[0]] + Above(s[1..], start)
    else Above(s[1..], start)
  }

  /** `ceil(remaining / max_cover)` vertices are still needed: a dominating set that
      contains `current` has at least that many vertices outside it, because each
      vertex covers at most `mc` vertices. */
  lemma DomBoundIsSound(adj: Adjacency, current: set<nat>, T: set<nat>, mc: nat)
    requires ValidGraph(adj) && current <= T <= Vertices(|adj|) && Dominates(adj, T)
    requires mc > 0 && forall u :: 0 <= u < |adj| ==> |Closed(adj, u)| <= mc
    ensures |T| >= |current| + CeilDiv(|adj| - |Cover(adj, current)|, mc)
  {
    RestBound(adj, current, T, mc);
    CardSplit(current, T);
    CeilBound(|T - current|, |adj| - |Cover(adj, current)|, mc);
  }

  /** At least `remaining` vertices must be covered by the `|T - current|` vertices
      outside `current`, so `|T - current| * mc >= remaining`, and `|T - current|` is
      at least the rounded-up quotient. */
  lemma RestBound(adj: Adjacency, current: set<nat>, T: set<nat>, mc: nat)
    requires ValidGraph(adj) && current <= T <= Vertices(|adj|) && Dominates(adj, T)
    requires mc > 0 && forall u :: 0 <= u < |adj| ==> |Closed(adj, u)| <= mc
    ensures Times(|T - current|, mc) >= |adj| - |Cover(adj, current)|
  {
    RestCovers(adj, current, T);
    CoverCardBound(adj, T - current, mc);
  }

  lemma CardSplit(current: set<nat>, T: set<nat>)
    requires current <= T
    ensures |T| == |current| + |T - current|
  {
    assert T == current + (T - current) && current * (T - current) == {};
  }

  /** The vertices of a dominating `T` outside `current` cover every vertex that
      `current` leaves undominated. */
  lemma RestCovers(adj: Adjacency, current: set<nat>, T: set<nat>)
    requires current <= T && Dominates(adj, T)
    ensures |Cover(adj, T - current)| >= |adj| - |Cover(adj, current)|
  {
    var rest := T - current;
    assert T == current + rest;
    CoverUnion(adj, current, rest);
    DominatesIffFull(adj, T);
    var A, B := Cover(adj, current), Cover(adj, rest);
    assert |A + B| + |A * B| == |A| + |B|;
  }

  /** `ceil(r / mc)` by repeated subtraction; `CeilDivIsQuotient` shows it is the
      source's `(r + mc - 1) // mc` whenever `r` is not negative. Counting keeps the
      cardinality proofs free of division. */
  function CeilDiv(r: int, mc: nat): (q: nat)
    requires mc > 0
    ensures r <= 0 ==> q == 0
    ensures r > 0 ==> q > 0 && Times(q - 1, mc) < r <= Times(q, mc)
    decreases r
  {
    if r <= 0 then 0 else 1 + CeilDiv(r - mc, mc)
  }

  lemma {:induction false} CeilDivIsQuotient(r: nat, mc: nat)
    requires mc > 0
    ensures CeilDiv(r, mc) == (r + mc - 1) / mc
    decreases r
  {
    if r > mc {
      CeilDivIsQuotient(r - mc, mc);
      QuotientStep(r - 1, mc);
      assert (r - mc) + mc - 1 == r - 1;
    } else if r > 0 {
      assert CeilDiv(r - mc, mc) == 0;
      QuotientOne(r + mc - 1, mc);
    }
  }

  lemma QuotientStep(y: nat, mc: nat)
    requires mc > 0
    ensures (y + mc) / mc == y / mc + 1
  {
    var q, m := y / mc, y % mc;
    assert y + mc == (q + 1) * mc + m;
    QuotientUnique(y + mc, q + 1, m, mc);
  }

  lemma QuotientUnique(z: int, q: int, m: int, mc: nat)
    requires mc > 0 && z == q * mc + m && 0 <= m < mc
    ensures z / mc == q
  {
    var q', m' := z / mc, z % mc;
    assert z == q' * mc + m' && 0 <= m' < mc;
    if q' < q {
      Distribute(q, q', mc);
      MulAtLeast(q - q', mc);
    } else if q' > q {
      Distribute(q', q, mc);
      MulAtLeast(q' - q, mc);
    }
  }

  lemma Distribute(a: int, b: int, mc: int)
    ensures (a - b) * mc == a * mc - b * mc
  {
  }

  lemma MulAtLeast(d: int, mc: nat)
    requires d >= 1
    ensures d * mc >= mc
  {
  }

  lemma QuotientOne(x: nat, mc: nat)
    requires mc <= x < 2 * mc
    ensures x / mc == 1
  {
  }

  /** Vertices that cover at most `mc` each need at least `ceil(r / mc)` of them to
      cover `r` vertices. */
  lemma {:induction false} CeilBound(a: nat, r: int, mc: nat)
    requires mc > 0 && Times(a, mc) >= r
    ensures a >= CeilDiv(r, mc)
    decreases a
  {
    if r > 0 {
      CeilBound(a - 1, r - mc, mc);
    }
  }

  /** The scan `for j in range(next_idx, N)` for the first undominated vertex. */
  method FindTarget(n: nat, nextIdx: nat, dominated: set<nat>) returns (target: Option<nat>)
    ensures target.None? <==> forall j :: nextIdx <= j < n ==> j in dominated
    ensures target.Some? ==> nextIdx <= target.value < n && target.value !in dominated
    ensures target.Some? ==> forall j :: nextIdx <= j < target.value ==> j in dominated
  {
    var j := nextIdx;
    while j < n
      invariant nextIdx <= j
      invariant forall k :: nextIdx <= k < j ==> k in dominated
    {
      if j !in dominated {
        return Some(j);
      }
      j := j + 1;
    }
    return None;
  }

  /** `[target] + [u for u in adjacency[target] if index_map[u] > start_i]`: the
      target first, then its neighbours above the start index. */
  function BranchCandidates(adj: Adjacency, t: nat, startI: nat): (r: seq<nat>)
    requires ValidGraph(adj) && t < |adj|
    ensures r != [] && r[0] == t
    ensures forall x :: x in r <==> x == t || (x in adj[t] && x > startI)
    ensures forall i :: 0 <= i < |r| ==> r[i] < |adj|
  {
    var r := [t] + Above(adj[t], startI);
    assert forall i :: 0 <= i < |r| ==> r[i] in r;
    r
  }

  /** A single vertex dominates the graph. */
  predicate DominatesAlone(adj: Adjacency, v: nat) {
    v < |adj| && Dominates(adj, {v})
  }

  /** A dominating set of a non-empty graph is not empty, and one with a single
      vertex is that vertex alone. */
  lemma SizeOneDominator(adj: Adjacency, S: set<nat>) returns (v: nat)
    requires |adj| > 0 && Dominates(adj, S) && |S| <= 1
    ensures S == {v} && DominatesAlone(adj, v)
  {
    assert Covers(adj, S, 0);
    v :| v in S;
    assert S == {v} by {
      if !(S <= {v}) {
        var w :| w in S && w != v;
        SubsetCardLe({v, w}, S);
      }
    }
  }

  /** No closed neighbourhood has more than `max_cover` vertices, and the incumbent is
      a dominating set of `best_size` vertices. */
  predicate SearchInvariant(adj: Adjacency, maxCover: nat, bestSet: set<nat>, bestSize: nat) {
    && ValidGraph(adj)
    && maxCover > 0
    && (forall u :: 0 <= u < |adj| ==> |Closed(adj, u)| <= maxCover)
    && bestSet <= Vertices(|adj|)
    && Dominates(adj, bestSet)
    && bestSize == |bestSet|
  }

  class DomSearch {
    const adj: Adjacency
    const maxCover: nat      // max_cover
    var bestSize: nat        // best_size
    var bestSet: set<nat>    // best_set

    ghost predicate Valid()
      reads this
    {
      SearchInvariant(adj, maxCover, bestSet, bestSize)
    }

    /** `best_size = N`, `best_set = set(nodes_sorted)`. */
    constructor (adj: Adjacency)
      requires ValidGraph(adj) && |adj| > 0
      ensures Valid() && this.adj == adj
      ensures maxCover == MaxDegree(adj) + 1
      ensures bestSet == Vertices(|adj|) && bestSize == |adj|
    {
      this.adj := adj;
      maxCover := MaxDegree(adj) + 1;
      bestSet := Vertices(|adj|);
      bestSize := |adj|;
      new;
      forall u | 0 <= u < |adj| ensures |Closed(adj, u)| <= maxCover {
        ClosedCard(adj, u);
      }
      AllVerticesDominate(adj);
      VerticesCard(|adj|);
    }

    /** `dfs_dom(next_idx, current_set, dominated_set, start_i)`. Every call is made with
        one vertex more in `current_set` than its caller's, so the recursion is at most
        N deep. */
    method DfsDom(nextIdx: nat, current: set<nat>, dominated: set<nat>, startI: nat)
      requires Valid()
      requires current <= Vertices(|adj|) && dominated == Cover(adj, current)
      modifies this
      decreases |adj| - |current|, 1
      ensures Valid() && bestSize <= old(bestSize)
      ensures Dominates(adj, current) ==> bestSize <= |current|
    {
      SubsetCard(current, |adj|);
      DominatesIffFull(adj, current);
      if |dominated| == |adj| {
        Improve(current);
        return;
      }
      var remaining := |adj| - |dominated|;                  // remaining_undom
      var bound := CeilDiv(remaining, maxCover);
      if |current| + bound >= bestSize {
        return;
      }
      var target := FindTarget(|adj|, nextIdx, dominated);
      if target.None? {
        return;
      }
      var candidates := BranchCandidates(adj, target.value, startI);
      TryCandidates(candidates, current, dominated, startI);
    }

    /** `if len(current_set) < best_size`: a dominating `current_set` replaces a larger
        incumbent. */
    method Improve(current: set<nat>)
      requires Valid() && current <= Vertices(|adj|) && Dominates(adj, current)
      modifies this
      ensures Valid() && bestSize <= old(bestSize) && bestSize <= |current|
      ensures bestSet == (if |current| < old(bestSize) then current else old(bestSet))
    {
      if |current| < bestSize {
        bestSize, bestSet := |current|, current;
      }
    }

    /** The loop `for u in candidates` of `dfs_dom`. */
    method TryCandidates(candidates: seq<nat>, current: set<nat>, dominated: set<nat>, startI: nat)
      requires Valid()
      requires current <= Vertices(|adj|) && dominated == Cover(adj, current)
      requires forall i :: 0 <= i < |candidates| ==> candidates[i] < |adj|
      modifies this
      decreases |adj| - |current|, 0
      ensures Valid() && bestSize <= old(bestSize)
    {
      var i := 0;
      while i < |candidates|
        invariant 0 <= i <= |candidates|
        invariant Valid() && bestSize <= old(bestSize)
      {
        var u := candidates[i];
        if u !in current {
          CoverAdd(adj, current, u);
          assert dominated + {u} + Elems(adj[u]) == Cover(adj, current + {u});
          SubsetCard(current + {u}, |adj|);
          DfsDom(u + 1, current + {u}, dominated + {u} + Elems(adj[u]), startI);   // new_set, new_dom
        }
        i := i + 1;
      }
    }

    /** The outer loop `for i, v in enumerate(nodes_sorted)`: `dfs_dom` from every
        start until the incumbent has a single vertex. */
    method TryStarts()
      requires Valid() && |adj| > 0
      modifies this
      ensures Valid() && bestSize <= old(bestSize)
      ensures bestSize == 1 || forall j :: 0 <= j < |adj| && DominatesAlone(adj, j) ==> bestSize <= 1
    {
      var i := 0;
      while i < |adj|
        invariant 0 <= i <= |adj|
        invariant Valid() && bestSize <= old(bestSize)
        invariant forall j :: 0 <= j < i && DominatesAlone(adj, j) ==> bestSize <= 1
      {
        if bestSize == 1 {
          return;
        }
        ghost var before := bestSize;
        StartFrom(i);
        forall j | 0 <= j < i + 1 && DominatesAlone(adj, j) ensures bestSize <= 1 {
          if j < i {
            assert before <= 1;
          }
        }
        i := i + 1;
      }
    }

    /** One start: `dfs_dom(i + 1, {v}, {v} | set(adjacency[v]), i)`. */
    method StartFrom(i: nat)
      requires Valid() && i < |adj|
      modifies this
      ensures Valid() && bestSize <= old(bestSize)
      ensures DominatesAlone(adj, i) ==> bestSize <= 1
    {
      CoverSingleton(adj, i);
      assert {i} <= Vertices(|adj|);
      DfsDom(i + 1, {i}, {i} + Elems(adj[i]), i);   // current_set, dominated_set
    }
  }

  /** `branchBound_solve_dominating_set`; returns `(best_set, best_size)`, or the
      `ValueError` of `max` over no vertices. */
  method BranchBoundDominatingSet(adj: Adjacency) returns (r: Result<(set<nat>, nat)>)
    requires ValidGraph(adj)
    ensures r.Err? <==> |adj| == 0
    ensures r.Ok? ==> r.value.0 <= Vertices(|adj|) && Dominates(adj, r.value.0)
    ensures r.Ok? ==> r.value.1 == |r.value.0| && 1 <= r.value.1 <= |adj|
    ensures r.Ok? ==> (r.value.1 == 1 <==> exists v: nat :: DominatesAlone(adj, v))
  {
    if |adj| == 0 {
      return Err("max() arg is an empty sequence");
    }
    var search := new DomSearch(adj);
    search.TryStarts();
    var S, k := search.bestSet, search.bestSize;
    SizeOneIffAlone(adj, S, k);
    r := Ok((S, k));
  }

  /** When the outer loop ends, by the `best_size == 1` break or after every start,
      the incumbent has one vertex exactly when some single vertex dominates. */
  lemma SizeOneIffAlone(adj: Adjacency, S: set<nat>, k: nat)
    requires |adj| > 0 && S <= Vertices(|adj|) && Dominates(adj, S) && k == |S|
    requires k == 1 || forall j :: 0 <= j < |adj| && DominatesAlone(adj, j) ==> k <= 1
    ensures 1 <= k <= |adj|
    ensures k == 1 <==> exists v: nat :: DominatesAlone(adj, v)
  {
    SubsetCard(S, |adj|);
    if k > 1 {
      forall v: nat | DominatesAlone(adj, v) ensures false {
      }
    } else {
      var v := SizeOneDominator(adj, S);
    }
  }
}
