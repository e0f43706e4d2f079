/**
 * `apply_greedy_approximation`: a depth-first sweep from a leaf (or the first vertex)
 * finds the first-discovered vertex of greatest DFS depth and the tree path to it; a
 * second sweep from that endpoint, kept off the rest of the first path, gives another
 * tree path, and the two are joined at the endpoint when the second one has an edge
 * out of it.
 */
module TwoSweep {
  import opened Wrappers
  import opened Graphs
  import opened Paths

  /** Every neighbour of `u` has been explored or is blocked: `depth_search(u, ...)`
      has gone through its whole neighbour list. */
  predicate Settled(adj: Adjacency, blocked: set<nat>, explored: set<nat>, u: nat) {
    u < |adj| && forall w :: w in adj[u] ==> w in explored || w in blocked
  }

  lemma SettledMono(adj: Adjacency, blocked: set<nat>, E: set<nat>, F: set<nat>, u: nat)
    requires E <= F && Settled(adj, blocked, E, u)
    ensures Settled(adj, blocked, F, u)
  {
  }

  /** A walk through the graph, each step along an edge, none of whose vertices after
      the first is blocked. */
  predicate IsAvoidingWalk(adj: Adjacency, blocked: set<nat>, p: seq<nat>) {
    && p != []
    && (forall i :: 0 <= i < |p| ==> p[i] < |adj|)
    && (forall i :: 0 <= i < |p| - 1 ==> p[i + 1] in adj[p[i]])
    && (forall i :: 0 < i < |p| ==> p[i] !in blocked)
  }

  /** `v` can be reached from `s` without entering a blocked vertex. */
  ghost predicate Reachable(adj: Adjacency, blocked: set<nat>, s: nat, v: nat) {
    exists p :: IsAvoidingWalk(adj, blocked, p) && p[0] == s && p[|p| - 1] == v
  }

  /** A set that contains the start of a walk and whose every vertex is settled
      contains the whole walk. */
  lemma {:induction false} SettledContainsWalk(adj: Adjacency, blocked: set<nat>, S: set<nat>, p: seq<nat>, i: nat)
    requires IsAvoidingWalk(adj, blocked, p) && p[0] in S && i < |p|
    requires forall u :: u in S ==> Settled(adj, blocked, S, u)
    ensures p[i] in S
  {
    if i > 0 {
      SettledContainsWalk(adj, blocked, S, p, i - 1);
      assert Settled(adj, blocked, S, p[i - 1]);
      assert p[i] in adj[p[i - 1]] && p[i] !in blocked;
    }
  }

  /** The values of `d` at `keys`, in key order: `distance_map.get` over the keys. */
  function Depths(keys: seq<nat>, d: map<nat, nat>): (r: seq<nat>)
    requires forall i :: 0 <= i < |keys| ==> keys[i] in d
    ensures |r| == |keys| && forall i :: 0 <= i < |keys| ==> r[i] == d[keys[i]]
  {
    seq(|keys|, i requires 0 <= i < |keys| => d[keys[i]])
  }

  /** `list.reverse()`. */
  function Reverse(s: seq<nat>): (r: seq<nat>)
    ensures |r| == |s| && forall i :: 0 <= i < |s| ==> r[i] == s[|s| - 1 - i]
  {
    seq(|s|, i requires 0 <= i < |s| => s[|s| - 1 - i])
  }

  /** The DFS tree so far: rooted at `start` at depth 0, every other explored vertex
      unblocked and one level below its explored parent, which it is adjacent to;
      `keys` lists the explored vertices once each. */
  predicate IsDfsTree(adj: Adjacency, start: nat, blocked: set<nat>, explored: set<nat>,
                      parent: map<nat, nat>, dist: map<nat, nat>, keys: seq<nat>)
  {
    && ValidGraph(adj)
    && start < |adj|
    && explored <= Vertices(|adj|)
    && dist.Keys == explored
    && Elems(keys) == explored && Distinct(keys)
    && (explored != {} ==> start in explored)
    && (start in explored ==> dist[start] == 0)
    && (forall v {:trigger TreeEdge(adj, blocked, explored, parent, dist, v)} ::
          v in explored && v != start ==> TreeEdge(adj, blocked, explored, parent, dist, v))
  }

  /** `v` is unblocked and hangs one level below its explored parent, a neighbour. */
  predicate TreeEdge(adj: Adjacency, blocked: set<nat>, explored: set<nat>,
                     parent: map<nat, nat>, dist: map<nat, nat>, v: nat)
  {
    && v !in blocked
    && v in parent && parent[v] in explored && parent[v] < |adj| && v in adj[parent[v]]
    && v in dist && parent[v] in dist && dist[v] == dist[parent[v]] + 1
  }

  /** `explored.add(v)` and `distance_map[v] = depth` grow the tree by one vertex. */
  lemma TreeAdd(adj: Adjacency, start: nat, blocked: set<nat>, explored: set<nat>,
                parent: map<nat, nat>, dist: map<nat, nat>, keys: seq<nat>, v: nat, depth: nat)
    requires IsDfsTree(adj, start, blocked, explored, parent, dist, keys)
    requires v < |adj| && v !in explored
    requires v == start ==> depth == 0
    requires v != start ==> (v !in blocked && v in parent && parent[v] in explored &&
      v in adj[parent[v]] && depth == dist[parent[v]] + 1)
    ensures IsDfsTree(adj, start, blocked, explored + {v}, parent, dist[v := depth], keys + [v])
  {
    DistinctSnoc(keys, v);
    ElemsSnoc(keys, v);
    forall u | u in explored + {v} && u != start
      ensures TreeEdge(adj, blocked, explored + {v}, parent, dist[v := depth], u)
    {
      if u != v {
        assert TreeEdge(adj, blocked, explored, parent, dist, u);
      }
    }
  }

  /** `parent_map[w] = v` for an unexplored `w` leaves the tree as it is. */
  lemma TreeSetParent(adj: Adjacency, start: nat, blocked: set<nat>, explored: set<nat>,
                      parent: map<nat, nat>, dist: map<nat, nat>, keys: seq<nat>, w: nat, v: nat)
    requires IsDfsTree(adj, start, blocked, explored, parent, dist, keys) && w !in explored
    ensures IsDfsTree(adj, start, blocked, explored, parent[w := v], dist, keys)
  {
    forall u | u in explored && u != start
      ensures TreeEdge(adj, blocked, explored, parent[w := v], dist, u)
    {
      assert TreeEdge(adj, blocked, explored, parent, dist, u);
    }
  }

  /**
   * The state of one `find_farthest_path(start, blocked)`: the `explored` set and the
   * `parent_map` and `distance_map` dictionaries that `depth_search` fills, with the
   * keys of `distance_map` in insertion order, which is the order `max` scans them.
   */
  class FarthestSearch {
    const adj: Adjacency
    const start: nat
    const blocked: set<nat>   // blocked_vertices
    var explored: set<nat>
    var parent: map<nat, nat>   // parent_map
    var dist: map<nat, nat>     // distance_map
    var discovered: seq<nat>    // the keys of distance_map, oldest first

    ghost predicate Valid()
      reads this
    {
      IsDfsTree(adj, start, blocked, explored, parent, dist, discovered)
    }

    /** The fresh `explored`, `parent_map` and `distance_map` of one call. */
    constructor (adj: Adjacency, start: nat, blocked: set<nat>)
      requires ValidGraph(adj) && start < |adj|
      ensures Valid()
      ensures this.adj == adj && this.start == start && this.blocked == blocked
      ensures explored == {} && parent == map[] && dist == map[] && discovered == []
    {
      this.adj := adj;
      this.start := start;
      this.blocked := blocked;
      explored, parent, dist, discovered := {}, map[], map[], [];
    }

    /** `depth_search(vertex, depth)`, entered with `v` unexplored and, unless it is
        the start, with `parent_map[v]` just set to an explored neighbour. */
    method DepthSearch(v: nat, depth: nat)
      requires Valid() && v < |adj| && v !in explored
      requires v == start ==> depth == 0
      requires v != start ==> (v !in blocked && v in parent && parent[v] in explored &&
        v in adj[parent[v]] && depth == dist[parent[v]] + 1)
      modifies this
      decreases |adj| - |explored|, 0
      ensures Valid() && old(explored) <= explored && v in explored && dist[v] == depth
      ensures forall u :: u in old(explored) ==> dist[u] == old(dist)[u]
      ensures forall u :: u in explored - old(explored) ==> Settled(adj, blocked, explored, u)
    {
      TreeAdd(adj, start, blocked, explored, parent, dist, discovered, v, depth);
      SubsetCard(explored + {v}, |adj|);
      // explored.add(vertex); distance_map[vertex] = depth
      explored, dist, discovered := explored + {v}, dist[v := depth], discovered + [v];
      SearchNeighbours(v, depth);
    }

    /** The loop `for adjacent in self.graph.neighbors(vertex)` of `depth_search`. */
    method SearchNeighbours(v: nat, depth: nat)
      requires Valid() && v in explored && dist[v] == depth
      modifies this
      decreases |adj| - |explored|, 1
      ensures Valid() && old(explored) <= explored
      ensures forall u :: u in old(explored) ==> dist[u] == old(dist)[u]
      ensures Settled(adj, blocked, explored, v)
      ensures forall u :: u in explored - old(explored) ==> Settled(adj, blocked, explored, u)
    {
      var i := 0;
      while i < |adj[v]|
        invariant 0 <= i <= |adj[v]|
        invariant Valid() && old(explored) <= explored && v in explored
        invariant forall u :: u in old(explored) ==> dist[u] == old(dist)[u]
        invariant forall j :: 0 <= j < i ==> adj[v][j] in explored || adj[v][j] in blocked
        invariant forall u :: u in explored - old(explored) ==> Settled(adj, blocked, explored, u)
      {
        var w := adj[v][i];
        if w !in explored && w !in blocked {
          TreeSetParent(adj, start, blocked, explored, parent, dist, discovered, w, v);
          parent := parent[w := v];
          ghost var before := explored;
          SubsetCardLe(old(explored), explored);
          SubsetCard(explored, |adj|);
          DepthSearch(w, depth + 1);
          forall u | u in explored - old(explored) ensures Settled(adj, blocked, explored, u) {
            if u in before {
              SettledMono(adj, blocked, before, explored, u);
            }
          }
        }
        i := i + 1;
      }
      assert forall x :: x in adj[v] ==> exists j :: 0 <= j < |adj[v]| && adj[v][j] == x;
    }

    /** `depth_search(start_vertex, 0)` on the fresh maps: afterwards every vertex
        reachable from the start without entering a blocked vertex is explored. */
    method Sweep()
      requires Valid() && explored == {}
      modifies this
      ensures Valid() && start in explored
      ensures forall u :: u in explored ==> Settled(adj, blocked, explored, u)
      ensures forall v :: Reachable(adj, blocked, start, v) ==> v in explored
    {
      DepthSearch(start, 0);
      forall v | Reachable(adj, blocked, start, v) ensures v in explored {
        var p :| IsAvoidingWalk(adj, blocked, p) && p[0] == start && p[|p| - 1] == v;
        SettledContainsWalk(adj, blocked, explored, p, |p| - 1);
      }
    }

    /** `find_farthest_path` after the sweep: the tree path from the start to the
        first-discovered vertex of greatest depth. */
    method Farthest() returns (path: seq<nat>, farthest: nat)
      requires Valid() && start in explored
      ensures farthest in explored && forall u :: u in explored ==> dist[u] <= dist[farthest]
      ensures exists k :: (0 <= k < |discovered| && discovered[k] == farthest &&
        forall j :: 0 <= j < k ==> dist[discovered[j]] < dist[farthest])
      ensures path != [] && path[0] == start && path[|path| - 1] == farthest
      ensures |path| == dist[farthest] + 1
      ensures forall i :: 0 <= i < |path| ==> path[i] in explored && dist[path[i]] == i
      ensures forall i :: 0 < i < |path| ==> path[i] in parent && parent[path[i]] == path[i - 1]
      ensures IsSimplePath(adj, path)
      ensures forall i :: 0 < i < |path| ==> path[i] !in blocked
    {
      farthest := Deepest();
      path := PathFromStart(farthest);
    }

    /** `max(distance_map, key=distance_map.get)`: the first key, in insertion order,
        of greatest depth. */
    method Deepest() returns (farthest: nat)
      requires Valid() && start in explored
      ensures farthest in explored && forall u :: u in explored ==> dist[u] <= dist[farthest]
      ensures exists k :: (0 <= k < |discovered| && discovered[k] == farthest &&
        forall j :: 0 <= j < k ==> dist[discovered[j]] < dist[farthest])
    {
      assert forall i :: 0 <= i < |discovered| ==> discovered[i] in Elems(discovered);
      var depths := Depths(discovered, dist);
      var k := FirstMax(depths);
      farthest := discovered[k];
      forall u | u in explored ensures dist[u] <= dist[farthest] {
        var j :| 0 <= j < |discovered| && discovered[j] == u;
        assert depths[j] <= depths[k];
      }
    }

    /** The `while current != start_vertex` walk up `parent_map` from `target`, then
        `append(start_vertex)`: the tree path from `target` back to the start. */
    method ClimbToStart(target: nat) returns (rec: seq<nat>)
      requires Valid() && target in explored
      ensures |rec| == dist[target] + 1 && rec[0] == target && rec[|rec| - 1] == start
      ensures forall i :: 0 <= i < |rec| ==> rec[i] in explored && dist[rec[i]] == dist[target] - i
      ensures forall i :: 0 <= i < |rec| - 1 ==> rec[i] in parent && parent[rec[i]] == rec[i + 1]
    {
      ghost var D := dist[target];
      rec := [];   // path_reconstruction
      var current := target;
      while current != start
        invariant current in explored && |rec| + dist[current] == D
        invariant forall i :: 0 <= i < |rec| ==> rec[i] in explored && dist[rec[i]] == D - i
        invariant forall i :: 0 <= i < |rec| ==> rec[i] != start && rec[i] in parent
        invariant forall i :: 0 <= i < |rec| - 1 ==> parent[rec[i]] == rec[i + 1]
        invariant rec != [] ==> parent[rec[|rec| - 1]] == current
        invariant rec == [] ==> current == target
        invariant rec != [] ==> rec[0] == target
        decreases dist[current]
      {
        assert TreeEdge(adj, blocked, explored, parent, dist, current);
        rec := rec + [current];
        current := parent[current];
      }
      assert current == start && dist[start] == 0;
      rec := rec + [start];
    }

    /** `path_reconstruction.reverse()` of the climb: the tree path from the start to
        `target`. */
    method PathFromStart(target: nat) returns (path: seq<nat>)
      requires Valid() && target in explored
      ensures path != [] && path[0] == start && path[|path| - 1] == target
      ensures |path| == dist[target] + 1
      ensures forall i :: 0 <= i < |path| ==> path[i] in explored && dist[path[i]] == i
      ensures forall i :: 0 < i < |path| ==> path[i] in parent && parent[path[i]] == path[i - 1]
      ensures IsSimplePath(adj, path)
      ensures forall i :: 0 < i < |path| ==> path[i] !in blocked
    {
      ghost var D := dist[target];
      var rec := ClimbToStart(target);
      path := Reverse(rec);
      forall i | 0 <= i < |path| ensures path[i] in explored && dist[path[i]] == i {
        assert path[i] == rec[D - i];
      }
      forall i | 0 < i < |path| ensures path[i] in parent && parent[path[i]] == path[i - 1] {
        assert path[i] == rec[D - i] && path[i - 1] == rec[D - i + 1];
      }
      TreePathIsSimple(path);
    }

    /** A sequence whose `i`-th vertex is explored at depth `i` and is a child of the
        one before it is a simple path. */
    lemma TreePathIsSimple(path: seq<nat>)
      requires Valid() && path != [] && path[0] == start
      requires forall i :: 0 <= i < |path| ==> path[i] in explored && dist[path[i]] == i
      requires forall i :: 0 < i < |path| ==> path[i] in parent && parent[path[i]] == path[i - 1]
      ensures IsSimplePath(adj, path)
      ensures forall i :: 0 < i < |path| ==> path[i] !in blocked
    {
      forall i | 0 < i < |path| ensures path[i] !in blocked && path[i] in adj[path[i - 1]] {
        assert dist[path[i]] == i && path[i] != start;
        assert TreeEdge(adj, blocked, explored, parent, dist, path[i]);
      }
      forall i | 0 <= i < |path| - 1 ensures path[i + 1] in adj[path[i]] {
        assert path[i + 1] in adj[path[i + 1 - 1]];
      }
      forall i, j | 0 <= i < j < |path| ensures path[i] != path[j] {
        assert dist[path[i]] == i && dist[path[j]] == j;
      }
    }
  }

  /** `find_farthest_path(start_vertex, blocked_vertices)`: a simple path from the
      start that runs along DFS tree edges and enters no blocked vertex. The start is
      always put in `distance_map`, so the `return [], None` branch is never taken.
      The ghost results are the final `distance_map` and its keys in insertion order:
      every vertex reachable around the blocked ones is in it, and `farthest` is the
      first key of largest distance, as `max(distance_map, key=distance_map.get)`
      picks it. */
  method FindFarthestPath(adj: Adjacency, start: nat, blocked: set<nat>)
    returns (path: seq<nat>, farthest: nat, ghost dist: map<nat, nat>, ghost keys: seq<nat>)
    requires ValidGraph(adj) && start < |adj|
    ensures path != [] && path[0] == start && path[|path| - 1] == farthest
    ensures IsSimplePath(adj, path)
    ensures forall i :: 0 < i < |path| ==> path[i] !in blocked
    ensures forall v :: Reachable(adj, blocked, start, v) ==> v in dist
    ensures farthest in dist && forall u :: u in dist ==> dist[u] <= dist[farthest]
    ensures Elems(keys) == dist.Keys
    ensures exists k :: (0 <= k < |keys| && keys[k] == farthest &&
      forall j :: 0 <= j < k ==> dist[keys[j]] < dist[farthest])
    ensures forall i :: 0 <= i < |path| ==> path[i] in dist && dist[path[i]] == i
  {
    var search := new FarthestSearch(adj, start, blocked);
    search.Sweep();
    path, farthest := search.Farthest();
    dist, keys := search.dist, search.discovered;
  }

  /** Position of the first vertex of degree one in `nodes[lo..]`, or `|nodes|`. */
  function FirstLeafFrom(adj: Adjacency, nodes: seq<nat>, lo: nat): (k: nat)
    requires lo <= |nodes| && forall i :: 0 <= i < |nodes| ==> nodes[i] < |adj|
    ensures lo <= k <= |nodes|
    ensures k < |nodes| ==> |adj[nodes[k]]| == 1
    ensures forall j :: lo <= j < k ==> |adj[nodes[j]]| != 1
    decreases |nodes| - lo
  {
    if lo == |nodes| || |adj[nodes[lo]]| == 1 then lo else FirstLeafFrom(adj, nodes, lo + 1)
  }

  /** `next((v for v in nodes if degree(v) == 1), nodes[0])`. */
  function InitialVertex(adj: Adjacency, nodes: seq<nat>): (v: nat)
    requires |nodes| > 0 && forall i :: 0 <= i < |nodes| ==> nodes[i] < |adj|
    ensures v in nodes
    ensures (exists i :: 0 <= i < |nodes| && |adj[nodes[i]]| == 1) ==> |adj[v]| == 1
    ensures (exists k :: (0 <= k < |nodes| && nodes[k] == v &&
      forall j :: 0 <= j < k ==> |adj[nodes[j]]| != 1)) || v == nodes[0]
    ensures (forall i :: 0 <= i < |nodes| ==> |adj[nodes[i]]| != 1) ==> v == nodes[0]
  {
    var k := FirstLeafFrom(adj, nodes, 0);
    if k < |nodes| then nodes[k] else nodes[0]
  }

  /** Joining two simple paths at a shared end vertex, when the second one has no
      other vertex in common with the first, gives a simple path. */
  lemma JoinPaths(adj: Adjacency, p: seq<nat>, q: seq<nat>)
    requires IsSimplePath(adj, p) && IsSimplePath(adj, q) && p != [] && q != []
    requires q[0] == p[|p| - 1]
    requires forall i :: 1 <= i < |q| ==> q[i] !in p
    ensures IsSimplePath(adj, p + q[1..])
  {
    var r := p + q[1..];
    forall i | 0 <= i < |r| - 1 ensures r[i + 1] in adj[r[i]] {
      if i >= |p| - 1 {
        assert r[i] == q[i - |p| + 1] && r[i + 1] == q[i - |p| + 2];
      }
    }
    forall i, j | 0 <= i < j < |r| ensures r[i] != r[j] {
      if j >= |p| {
        assert r[j] == q[j - |p| + 1];
        if i >= |p| {
          assert r[i] == q[i - |p| + 1];
        } else {
          assert r[i] in p;
        }
      }
    }
  }

  /** The stitching step: `first_path + second_path[1:]` when the second path leaves the
      shared endpoint and `has_edge(first_path[-1], second_path[1])`, else `first_path`.
      The edge test always succeeds, because `second_path[1]` is a DFS child of the
      endpoint, so the paths are joined exactly when the second one is longer than one
      vertex. */
  method Stitch(adj: Adjacency, first: seq<nat>, second: seq<nat>) returns (complete: seq<nat>)
    requires IsSimplePath(adj, first) && IsSimplePath(adj, second) && first != [] && second != []
    requires second[0] == first[|first| - 1]
    requires forall i :: 1 <= i < |second| ==> second[i] !in first
    ensures IsSimplePath(adj, complete)
    ensures |second| > 1 ==> complete == first + second[1..]
    ensures |second| <= 1 ==> complete == first
  {
    if |second| > 1 && second[1] in adj[first[|first| - 1]] {
      JoinPaths(adj, first, second);
      complete := first + second[1..];
    } else {
      complete := first;
    }
  }

  /** `apply_greedy_approximation` with the vertices in `graph.nodes()` order; the
      result is its `complete_path`, or the `IndexError` of `list(nodes)[0]`, which
      is evaluated even when a leaf exists. */
  method TwoSweepPath(adj: Adjacency, nodes: seq<nat>) returns (r: Result<seq<nat>>)
    requires ValidGraph(adj) && IsOrder(nodes, |adj|)
    ensures r.Err? <==> |adj| == 0
    ensures r.Ok? ==> IsSimplePath(adj, r.value) && r.value != []
    ensures r.Ok? ==> r.value[0] == InitialVertex(adj, nodes)
  {
    if |nodes| == 0 {
      return Err("list index out of range");
    }
    var initial := InitialVertex(adj, nodes);
    ghost var dist1, keys1;
    var first, endpoint;
    first, endpoint, dist1, keys1 := FindFarthestPath(adj, initial, {});
    var used := Elems(first) - {endpoint};   // used_vertices
    ghost var dist2, keys2;
    var second, last;
    second, last, dist2, keys2 := FindFarthestPath(adj, endpoint, used);
    forall i | 1 <= i < |second| ensures second[i] !in first {
      assert second[i] != second[0];
    }
    var complete := Stitch(adj, first, second);
    r := Ok(complete);
  }
}
