/**
 * Closed neighbourhoods and dominating sets, shared by the three dominating-set
 * solvers. The closed neighbourhood of `u` is `{u} | set(adjacency[u])`; a set of
 * vertices dominates the graph when the union of their closed neighbourhoods is the
 * whole vertex set.
 */
module Domination {
  import opened Graphs

  /** `{u} | set(adjacency[u])`, the `neighborhood_closure` of `u`. */
  function Closed(adj: Adjacency, u: nat): (r: set<nat>)
    requires u < |adj|
    ensures forall v :: v in r <==> v == u || v in adj[u]
  {
    {u} + Elems(adj[u])
  }

  /** Some vertex of `S` has `v` in its closed neighbourhood. */
  predicate Covers(adj: Adjacency, S: set<nat>, v: nat) {
    exists u :: u in S && u < |adj| && v in Closed(adj, u)
  }

  /** The vertices covered by `S`: the `dominated` set the solvers maintain. */
  function Cover(adj: Adjacency, S: set<nat>): (r: set<nat>)
    ensures forall v: nat :: v in r <==> v < |adj| && Covers(adj, S, v)
  {
    set v | v in Vertices(|adj|) && Covers(adj, S, v)
  }

  /** Every vertex of the graph is covered by `S`. */
  predicate Dominates(adj: Adjacency, S: set<nat>) {
    forall v :: 0 <= v < |adj| ==> Covers(adj, S, v)
  }

  lemma ClosedInRange(adj: Adjacency, u: nat)
    requires ValidGraph(adj) && u < |adj|
    ensures Closed(adj, u) <= Vertices(|adj|)
  {
  }

  /** Adding `u` adds exactly its closed neighbourhood to the cover:
      `dominated | {u} | set(adjacency[u])`. */
  lemma CoverAdd(adj: Adjacency, S: set<nat>, u: nat)
    requires ValidGraph(adj) && u < |adj|
    ensures Cover(adj, S + {u}) == Cover(adj, S) + Closed(adj, u)
  {
    forall v | v in Cover(adj, S + {u}) ensures v in Cover(adj, S) + Closed(adj, u) {
      var w :| w in S + {u} && w < |adj| && v in Closed(adj, w);
    }
    forall v | v in Cover(adj, S) + Closed(adj, u) ensures v in Cover(adj, S + {u}) {
      if v in Closed(adj, u) {
        assert v < |adj|;
        assert u in S + {u};
      } else {
        var w :| w in S && w < |adj| && v in Closed(adj, w);
        assert w in S + {u};
      }
    }
  }

  /** The cover of one vertex is its closed neighbourhood: `{v} | set(adjacency[v])`. */
  lemma CoverSingleton(adj: Adjacency, u: nat)
    requires ValidGraph(adj) && u < |adj|
    ensures Cover(adj, {u}) == Closed(adj, u)
  {
    CoverAdd(adj, {}, u);
    assert {} + {u} == {u};
    assert Cover(adj, {}) == {};
  }

  lemma CoverUnion(adj: Adjacency, S: set<nat>, T: set<nat>)
    ensures Cover(adj, S + T) == Cover(adj, S) + Cover(adj, T)
  {
    forall v | v in Cover(adj, S + T) ensures v in Cover(adj, S) + Cover(adj, T) {
      var w :| w in S + T && w < |adj| && v in Closed(adj, w);
    }
  }

  /** A superset of a dominating set dominates. */
  lemma DominatesMono(adj: Adjacency, S: set<nat>, T: set<nat>)
    requires S <= T && Dominates(adj, S)
    ensures Dominates(adj, T)
  {
    forall v | 0 <= v < |adj| ensures Covers(adj, T, v) {
      assert Covers(adj, S, v);
      var u :| u in S && u < |adj| && v in Closed(adj, u);
      assert u in T;
    }
  }

  /** `len(dominated) == N` is the test for domination. */
  lemma DominatesIffFull(adj: Adjacency, S: set<nat>)
    ensures Dominates(adj, S) <==> |Cover(adj, S)| == |adj|
    ensures Dominates(adj, S) <==> Cover(adj, S) == Vertices(|adj|)
  {
    assert Cover(adj, S) <= Vertices(|adj|);
    VerticesCard(|adj|);
    if |Cover(adj, S)| == |adj| {
      FullSubset(Cover(adj, S), |adj|);
    }
    if Dominates(adj, S) {
      assert Cover(adj, S) == Vertices(|adj|);
    }
  }

  /** The whole vertex set dominates the graph: every vertex covers itself. */
  lemma AllVerticesDominate(adj: Adjacency)
    ensures Dominates(adj, Vertices(|adj|))
  {
    forall v | 0 <= v < |adj| ensures Covers(adj, Vertices(|adj|), v) {
      assert v in Closed(adj, v);
    }
  }

  /** A closed neighbourhood has one vertex more than the neighbour list. */
  lemma ClosedCard(adj: Adjacency, u: nat)
    requires ValidGraph(adj) && u < |adj|
    ensures |Closed(adj, u)| == |adj[u]| + 1
  {
    DistinctCard(adj[u]);
    assert u !in Elems(adj[u]);
  }

  /** `a * m`, written as repeated addition so that the cardinality proofs stay
      linear. */
  function Times(a: nat, m: nat): nat {
    if a == 0 then 0 else Times(a - 1, m) + m
  }

  lemma {:induction false} TimesIsProduct(a: nat, m: nat)
    ensures Times(a, m) == a * m
  {
    if a > 0 {
      TimesIsProduct(a - 1, m);
    }
  }

  lemma {:induction false} TimesMono(a: nat, b: nat, m: nat)
    requires a <= b
    ensures Times(a, m) <= Times(b, m)
    decreases b
  {
    if a < b {
      TimesMono(a, b - 1, m);
    }
  }

  /** A set of vertices whose closed neighbourhoods have at most `mc` vertices each
      covers at most `|X| * mc` vertices. */
  lemma {:induction false} CoverCardBound(adj: Adjacency, X: set<nat>, mc: nat)
    requires ValidGraph(adj) && X <= Vertices(|adj|)
    requires forall u :: u in X ==> |Closed(adj, u)| <= mc
    ensures |Cover(adj, X)| <= Times(|X|, mc)
    decreases |X|
  {
    if X == {} {
      assert Cover(adj, X) == {};
    } else {
      var u :| u in X;
      var Y := X - {u};
      assert X == Y + {u} && |X| == |Y| + 1;
      CoverAdd(adj, Y, u);
      CoverCardBound(adj, Y, mc);
      var A, B := Cover(adj, Y), Closed(adj, u);
      assert |A + B| + |A * B| == |A| + |B|;
    }
  }
}
