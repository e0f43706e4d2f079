/**
 * `greedy_solve_longest_path`: from every start vertex, walk forward, always stepping
 * to the free neighbour that itself has the most free neighbours (the first such one in
 * adjacency order), until the current vertex has no free neighbour; keep the longest
 * walk, the earliest start winning ties.
 */
module GreedyPath {
  import opened Wrappers
  import opened Graphs
  import opened Paths

  /** The candidates of one greedy step after the path `p`: the neighbours of its last
      vertex that are not on it (`candidates`). */
  function Candidates(adj: Adjacency, p: seq<nat>): (r: seq<nat>)
    requires ValidGraph(adj) && p != [] && p[|p| - 1] < |adj|
    ensures forall i :: 0 <= i < |r| ==> r[i] < |adj| && r[i] in adj[p[|p| - 1]] && r[i] !in p
  {
    FreeNeighbours(adj, p[|p| - 1], Elems(p))
  }

  /** `u` is the vertex the greedy step picks after `p`: among the candidates it has
      the most neighbours off `p`, and every candidate listed before it has fewer. */
  predicate GreedyChoice(adj: Adjacency, p: seq<nat>, u: nat)
    requires ValidGraph(adj) && p != [] && p[|p| - 1] < |adj|
  {
    var cands := Candidates(adj, p);
    exists k :: 0 <= k < |cands| && cands[k] == u && IsFirstMaxFree(adj, Elems(p), cands, k)
  }

  /** The greedy walk continued from `path` until the last vertex has no free neighbour. */
  function GreedyExtend(adj: Adjacency, path: seq<nat>): (r: seq<nat>)
    requires ValidGraph(adj) && IsSimplePath(adj, path) && path != []
    ensures IsSimplePath(adj, r) && Extends(r, path)
    decreases |adj| - |path|
  {
    var cands := Candidates(adj, path);
    if cands == [] then path
    else
      var u := cands[FirstMaxFree(adj, Elems(path), cands)];
      ExtendPath(adj, path, u);
      SimplePathLength(adj, path + [u]);
      var r := GreedyExtend(adj, path + [u]);
      assert r[..|path|] == r[..|path| + 1][..|path|];
      r
  }

  /** The walk stops only at a vertex with no free neighbour. */
  lemma {:induction false} GreedyExtendMaximal(adj: Adjacency, path: seq<nat>)
    requires ValidGraph(adj) && IsSimplePath(adj, path) && path != []
    ensures Maximal(adj, GreedyExtend(adj, path))
    decreases |adj| - |path|
  {
    var cands := Candidates(adj, path);
    if cands == [] {
      assert forall v :: v in adj[path[|path| - 1]] ==> v in path;
    } else {
      var u := cands[FirstMaxFree(adj, Elems(path), cands)];
      ExtendPath(adj, path, u);
      SimplePathLength(adj, path + [u]);
      GreedyExtendMaximal(adj, path + [u]);
    }
  }

  /** Every vertex the walk adds is the greedy choice after the vertices before it. */
  lemma {:induction false} GreedyExtendSteps(adj: Adjacency, path: seq<nat>, i: nat)
    requires ValidGraph(adj) && IsSimplePath(adj, path) && path != []
    requires |path| <= i < |GreedyExtend(adj, path)|
    ensures GreedyChoice(adj, GreedyExtend(adj, path)[..i], GreedyExtend(adj, path)[i])
    decreases |adj| - |path|
  {
    var cands := Candidates(adj, path);
    var r := GreedyExtend(adj, path);
    assert cands != [];
    var k := FirstMaxFree(adj, Elems(path), cands);
    var u := cands[k];
    ExtendPath(adj, path, u);
    SimplePathLength(adj, path + [u]);
    assert r == GreedyExtend(adj, path + [u]);
    if i == |path| {
      assert r[..|path| + 1] == path + [u];
      assert r[..|path|] == r[..|path| + 1][..|path|];
      assert r[i] == u;
    } else {
      GreedyExtendSteps(adj, path + [u], i);
    }
  }

  /** `path_local` built from the start vertex `v`: a simple path of at most N vertices
      (so the inner loop runs at most N-1 times) that ends at a vertex with no free
      neighbour. */
  function GreedyWalk(adj: Adjacency, v: nat): (r: seq<nat>)
    requires ValidGraph(adj) && v < |adj|
    ensures IsSimplePath(adj, r) && r != [] && r[0] == v && |r| <= |adj| && Maximal(adj, r)
  {
    var r := GreedyExtend(adj, [v]);
    SimplePathLength(adj, r);
    GreedyExtendMaximal(adj, [v]);
    r
  }

  /** Each step of the walk from `v` is the greedy choice. */
  lemma GreedyWalkIsGreedy(adj: Adjacency, v: nat)
    requires ValidGraph(adj) && v < |adj|
    ensures forall i :: 1 <= i < |GreedyWalk(adj, v)| ==> GreedyChoice(adj, GreedyWalk(adj, v)[..i], GreedyWalk(adj, v)[i])
  {
    forall i | 1 <= i < |GreedyWalk(adj, v)|
      ensures GreedyChoice(adj, GreedyWalk(adj, v)[..i], GreedyWalk(adj, v)[i])
    {
      GreedyExtendSteps(adj, [v], i);
    }
  }

  /**
   * The walk is the only path of its kind: every simple path that starts with `path`,
   * ends at a vertex with no free neighbour and takes the greedy step at every vertex
   * after `path` is the greedy walk continued from `path`.
   */
  lemma {:induction false} GreedyExtendIsUnique(adj: Adjacency, path: seq<nat>, q: seq<nat>)
    requires ValidGraph(adj) && IsSimplePath(adj, path) && path != []
    requires IsSimplePath(adj, q) && Extends(q, path) && Maximal(adj, q)
    requires forall i :: |path| <= i < |q| ==> GreedyChoice(adj, q[..i], q[i])
    ensures q == GreedyExtend(adj, path)
    decreases |adj| - |path|
  {
    var cands := Candidates(adj, path);
    if |q| == |path| {
      assert q == path;
    } else {
      assert q[..|path|] == path;
      assert GreedyChoice(adj, path, q[|path|]);
      var k :| 0 <= k < |cands| && cands[k] == q[|path|] && IsFirstMaxFree(adj, Elems(path), cands, k);
      FirstMaxFreeUnique(adj, Elems(path), cands, k);
      NextVertex(adj, path, q);
      ExtendPath(adj, path, q[|path|]);
      SimplePathLength(adj, path + [q[|path|]]);
      GreedyExtendIsUnique(adj, path + [q[|path|]], q);
    }
  }

  /** The selection loop of one greedy step: `best_candidate` after scanning `candidates`
      with `if cover > best_cover`, starting from `best_cover = -1`. */
  method ChooseNext(adj: Adjacency, visited: set<nat>, cands: seq<nat>) returns (best: nat)
    requires |cands| > 0 && forall i :: 0 <= i < |cands| ==> cands[i] < |adj|
    ensures best == cands[FirstMaxFree(adj, visited, cands)]
  {
    var bestCover: int := -1;
    var bestIdx := 0;
    best := cands[0];
    var i := 0;
    while i < |cands|
      invariant 0 <= i <= |cands| && bestIdx < |cands|
      invariant i == 0 ==> bestCover == -1
      invariant i > 0 ==> bestIdx < i && best == cands[bestIdx] && bestCover == FreeDegree(adj, visited, cands[bestIdx])
      invariant forall j :: 0 <= j < i ==> FreeDegree(adj, visited, cands[j]) <= bestCover
      invariant forall j :: 0 <= j < bestIdx ==> FreeDegree(adj, visited, cands[j]) < bestCover
    {
      var u := cands[i];
      var cover := FreeDegree(adj, visited, u);   // sum(1 for w in adjacency[u] if w not in visited_local)
      if cover > bestCover {
        bestCover := cover;
        best := u;
        bestIdx := i;
      }
      i := i + 1;
    }
    FirstMaxFreeUnique(adj, visited, cands, bestIdx);
  }

  /** The inner `while True` of one start: returns `path_local`. */
  method WalkFrom(adj: Adjacency, v: nat) returns (path: seq<nat>)
    requires ValidGraph(adj) && v < |adj|
    ensures path == GreedyWalk(adj, v)
  {
    var visited := {v};       // visited_local
    path := [v];              // path_local
    var current := v;
    assert Elems([v]) == {v};
    while true
      invariant IsSimplePath(adj, path) && path != [] && current == path[|path| - 1]
      invariant visited == Elems(path)
      invariant GreedyExtend(adj, path) == GreedyWalk(adj, v)
      decreases |adj| - |path|
    {
      var cands := FreeNeighbours(adj, current, visited);   // candidates
      if cands == [] {
        break;
      }
      var u := ChooseNext(adj, visited, cands);
      ExtendPath(adj, path, u);
      SimplePathLength(adj, path + [u]);
      ElemsSnoc(path, u);
      visited := visited + {u};
      path := path + [u];
      current := u;
    }
  }

  /** `greedy_solve_longest_path` with the start vertices in the given order (the source
      passes the stable degree-descending order); returns `(best_path, best_len)`. The
      closing report divides by `N_start`, so on an empty graph the call ends in
      `ZeroDivisionError`. */
  method GreedyLongestPath(adj: Adjacency, order: seq<nat>) returns (r: Result<(seq<nat>, nat)>)
    requires ValidGraph(adj) && IsOrder(order, |adj|)
    ensures r.Err? <==> |adj| == 0
    ensures r.Ok? ==> r.value.1 == |r.value.0| && IsSimplePath(adj, r.value.0) && Maximal(adj, r.value.0)
    ensures r.Ok? ==> exists k :: (0 <= k < |order| && r.value.0 == GreedyWalk(adj, order[k]) &&
      (forall j :: 0 <= j < |order| ==> |GreedyWalk(adj, order[j])| <= r.value.1) &&
      (forall j :: 0 <= j < k ==> |GreedyWalk(adj, order[j])| < r.value.1))
  {
    if |adj| == 0 {
      return Err("division by zero");
    }
    var bestLen: nat, bestPath: seq<nat> := 0, [];
    ghost var bestK := 0;
    var k := 0;
    while k < |order|
      invariant 0 <= k <= |order| && bestLen == |bestPath|
      invariant bestK <= k && (k == 0 ==> bestPath == [])
      invariant k > 0 ==> bestK < k && bestPath == GreedyWalk(adj, order[bestK])
      invariant forall j :: 0 <= j < k ==> |GreedyWalk(adj, order[j])| <= bestLen
      invariant forall j :: 0 <= j < bestK ==> |GreedyWalk(adj, order[j])| < bestLen
    {
      var walk := WalkFrom(adj, order[k]);
      ghost var before := bestLen;
      if |walk| > bestLen {
        bestLen, bestPath := |walk|, walk;
        bestK := k;
      }
      forall j | 0 <= j < k + 1 ensures |GreedyWalk(adj, order[j])| <= bestLen {
        if j < k {
          assert |GreedyWalk(adj, order[j])| <= before;
        } else {
          assert j == k;
          assert |GreedyWalk(adj, order[k])| == |walk|;
        }
      }
      k := k + 1;
    }
    assert 0 <= bestK < |order| && bestPath == GreedyWalk(adj, order[bestK]);
    r := Ok((bestPath, bestLen));
  }
}
