/** Simple paths and the facts the longest-path searches share. */
module Paths {
  import opened Graphs

  /** Distinct vertices, each consecutive pair joined by an edge. The empty sequence
      counts as the (trivial) simple path. */
  predicate IsSimplePath(adj: Adjacency, p: seq<nat>) {
    && (forall i :: 0 <= i < |p| ==> p[i] < |adj|)
    && Distinct(p)
    && (forall i :: 0 <= i < |p| - 1 ==> p[i + 1] in adj[p[i]])
  }

  /** `q` starts with `p`. */
  predicate Extends(q: seq<nat>, p: seq<nat>) {
    |p| <= |q| && q[..|p|] == p
  }

  /** The path ends at a vertex with no neighbour off the path. */
  predicate Maximal(adj: Adjacency, p: seq<nat>)
    requires IsSimplePath(adj, p)
  {
    p != [] ==> forall v :: v in adj[p[|p| - 1]] ==> v in p
  }

  /** `p` is a simple path and no simple path of the graph is longer. */
  ghost predicate IsLongest(adj: Adjacency, p: seq<nat>) {
    IsSimplePath(adj, p) && forall q :: IsSimplePath(adj, q) ==> |q| <= |p|
  }

  /** Every simple path that starts with `p` has at most `bound` vertices. */
  ghost predicate ExtensionsAtMost(adj: Adjacency, p: seq<nat>, bound: int) {
    forall q {:trigger Extends(q, p)} :: IsSimplePath(adj, q) && Extends(q, p) ==> |q| <= bound
  }

  /** No simple path has more vertices than the graph. */
  lemma SimplePathLength(adj: Adjacency, p: seq<nat>)
    requires IsSimplePath(adj, p)
    ensures |p| <= |adj|
  {
    DistinctBound(p, |adj|);
  }

  /**
   * The size invariant of both exact searches: while the set of visited vertices is
   * exactly the set of vertices on the current path, the optimistic length
   * `len(path) + (N - len(visited))` equals the vertex count N.
   */
  lemma {:induction false} OptimisticLengthIsVertexCount(n: nat, path: seq<nat>, visited: set<nat>)
    requires Distinct(path) && visited == Elems(path)
    ensures |path| == |visited|
    ensures |path| + (n - |visited|) == n
  {
    DistinctCard(path);
  }

  /** The optimistic length bounds every simple path through the current path: the
      prune `len(path) + remaining <= best` never discards a longer path. */
  lemma OptimisticLengthAdmissible(adj: Adjacency, p: seq<nat>, visited: set<nat>, q: seq<nat>)
    requires visited == Elems(p)
    requires IsSimplePath(adj, q) && Extends(q, p)
    ensures |q| <= |p| + (|adj| - |visited|)
  {
    SimplePathLength(adj, q);
    ElemsCard(p);
  }

  /** The prune of both exact searches is sound: when the optimistic length does not
      beat `bound`, no path through the current one does. */
  lemma PruneIsSound(adj: Adjacency, p: seq<nat>, visited: set<nat>, bound: int)
    requires visited == Elems(p) && |p| + (|adj| - |visited|) <= bound
    ensures ExtensionsAtMost(adj, p, bound)
  {
    forall q | IsSimplePath(adj, q) && Extends(q, p) ensures |q| <= bound {
      OptimisticLengthAdmissible(adj, p, visited, q);
    }
  }

  /** A free neighbour of the last vertex extends a simple path. */
  lemma ExtendPath(adj: Adjacency, p: seq<nat>, v: nat)
    requires ValidGraph(adj) && IsSimplePath(adj, p) && p != []
    requires v in adj[p[|p| - 1]] && v !in p
    ensures IsSimplePath(adj, p + [v])
  {
    var q := p + [v];
    forall i | 0 <= i < |q| - 1 ensures q[i + 1] in adj[q[i]] {
      if i < |p| - 1 { assert q[i] == p[i] && q[i + 1] == p[i + 1]; }
    }
  }

  /** A simple path longer than its prefix `p` continues through a neighbour of the
      last vertex of `p` that is not on `p`. */
  lemma NextVertex(adj: Adjacency, p: seq<nat>, q: seq<nat>)
    requires IsSimplePath(adj, q) && Extends(q, p) && 0 < |p| < |q|
    ensures q[|p|] in adj[p[|p| - 1]] && q[|p|] !in p
    ensures Extends(q, p + [q[|p|]])
  {
    assert q[|p| - 1] == p[|p| - 1];
    assert q[..|p| + 1] == q[..|p|] + [q[|p|]];
  }

  lemma LastNotInPrefix(p: seq<nat>, c: nat)
    requires Distinct(p + [c])
    ensures c !in p
  {
    var s := p + [c];
    assert forall i :: 0 <= i < |p| ==> p[i] == s[i] != s[|p|];
  }

  /** Every non-empty path starts with its first vertex. */
  lemma StartsWithFirst(q: seq<nat>)
    requires q != []
    ensures Extends(q, [q[0]])
  {
  }

  /** A path that ends at a vertex whose neighbours are all on it extends only to itself. */
  lemma MaximalHasNoExtension(adj: Adjacency, p: seq<nat>, q: seq<nat>)
    requires IsSimplePath(adj, p) && p != [] && Maximal(adj, p)
    requires IsSimplePath(adj, q) && Extends(q, p)
    ensures |q| == |p|
  {
    if |q| > |p| {
      NextVertex(adj, p, q);
    }
  }

  lemma ExtensionsAtMostMono(adj: Adjacency, p: seq<nat>, a: int, b: int)
    requires ExtensionsAtMost(adj, p, a) && a <= b
    ensures ExtensionsAtMost(adj, p, b)
  {
  }

  /**
   * The step of both exact searches: if the path itself fits the bound and so does
   * every extension through a free neighbour of its last vertex, then every
   * extension fits it.
   */
  lemma {:induction false} ExtensionsThroughNeighbours(adj: Adjacency, p: seq<nat>, nbrs: seq<nat>, visited: set<nat>, lower: int, bound: int)
    requires IsSimplePath(adj, p) && p != [] && visited == Elems(p) && |p| <= bound && lower <= bound
    requires nbrs == adj[p[|p| - 1]]
    requires forall j :: 0 <= j < |nbrs| && nbrs[j] !in visited ==> ExtensionsAtMost(adj, p + [nbrs[j]], lower)
    ensures ExtensionsAtMost(adj, p, bound)
  {
    forall q | IsSimplePath(adj, q) && Extends(q, p) ensures |q| <= bound {
      if |q| > |p| {
        NextVertex(adj, p, q);
        var j :| 0 <= j < |nbrs| && nbrs[j] == q[|p|];
        assert ExtensionsAtMost(adj, p + [nbrs[j]], lower);
      }
    }
  }

  /** When every simple path from each start vertex of `order` fits `bound`, every
      non-empty simple path of the graph fits it. */
  lemma EveryStartBounded(adj: Adjacency, order: seq<nat>, bound: int)
    requires IsOrder(order, |adj|)
    requires forall j :: 0 <= j < |order| ==> ExtensionsAtMost(adj, [order[j]], bound)
    ensures forall q :: IsSimplePath(adj, q) && q != [] ==> |q| <= bound
  {
    forall q | IsSimplePath(adj, q) && q != [] ensures |q| <= bound {
      OrderCovers(order, |adj|, q[0]);
      var j :| 0 <= j < |order| && order[j] == q[0];
      StartsWithFirst(q);
      assert ExtensionsAtMost(adj, [order[j]], bound);
    }
  }
}
