/**
 * `bruteForce_solve_longest_path`: depth-first backtracking from every start vertex.
 * The search owns a visited set and a path stack that `explore_path` extends and then
 * restores, and copies the path into the incumbent whenever it is longer. Once the
 * incumbent covers every vertex it raises `StopIteration`, which here sets `stopped`;
 * every frame on the way out then returns at once, as the exception does.
 */
module BruteForcePath {
  import opened Wrappers
  import opened Graphs
  import opened Paths

  /** The incumbent is a simple path, and the search has stopped exactly when the
      incumbent covers every vertex of a non-empty graph. */
  predicate IncumbentInvariant(adj: Adjacency, best: seq<nat>, stopped: bool) {
    && ValidGraph(adj)
    && IsSimplePath(adj, best)
    && (stopped ==> |best| == |adj|)
    && (|best| == |adj| > 0 ==> stopped)
  }

  class Search {
    const adj: Adjacency
    var visited: set<nat>   // visited_set
    var path: seq<nat>      // current_path
    var best: seq<nat>      // optimal_path
    var stopped: bool       // StopIteration has been raised

    ghost predicate Valid()
      reads this
    {
      IncumbentInvariant(adj, best, stopped)
    }

    constructor (adj: Adjacency)
      requires ValidGraph(adj)
      ensures Valid() && this.adj == adj
      ensures visited == {} && path == [] && best == [] && !stopped
    {
      this.adj := adj;
      visited, path, best, stopped := {}, [], [], false;
    }

    /** `explore_path(c, visited_set, current_path)`, entered with `c` free and
        adjacent to the end of the current path. */
    method Explore(c: nat)
      requires Valid() && !stopped
      requires visited == Elems(path) && IsSimplePath(adj, path + [c])
      modifies this
      decreases |adj| - |visited|, 0
      ensures Valid() && |old(best)| <= |best|
      ensures !stopped ==> visited == old(visited) && path == old(path)
      ensures !stopped ==> ExtensionsAtMost(adj, old(path) + [c], |best|)
    {
      LastNotInPrefix(path, c);
      ElemsSnoc(path, c);
      ghost var before, prefix := visited, path;
      visited, path := visited + {c}, path + [c];
      assert visited - {c} == before && path[..|path| - 1] == prefix;
      SubsetCard(visited, |adj|);
      var remaining := |adj| - |visited|;
      if |path| + remaining <= |best| {
        // Lines 105-108, modelled as written; PruneNeverFires shows that this branch
        // is never taken while the search runs.
        PruneIsSound(adj, path, visited, |best|);
        visited, path := visited - {c}, path[..|path| - 1];
        return;
      }
      ExploreNeighbours(c);
      if stopped {
        return;
      }
      Leave(c);
    }

    /** The end of `explore_path` once every free neighbour has been explored: record
        the path if it is longer, then restore `visited_set` and `current_path`. */
    method Leave(c: nat)
      requires Valid() && !stopped
      requires path != [] && path[|path| - 1] == c && visited == Elems(path) && IsSimplePath(adj, path)
      requires forall j :: 0 <= j < |adj[c]| && adj[c][j] !in visited ==>
        ExtensionsAtMost(adj, path + [adj[c][j]], |best|)
      modifies this
      ensures Valid() && |old(best)| <= |best|
      ensures !stopped ==> visited == old(visited) - {c} && path == old(path)[..|old(path)| - 1]
      ensures !stopped ==> ExtensionsAtMost(adj, old(path), |best|)
    {
      ghost var lower := |best|;
      Record();
      if stopped {
        return;
      }
      ExtensionsThroughNeighbours(adj, path, adj[c], visited, lower, |best|);
      visited, path := visited - {c}, path[..|path| - 1];
    }

    /** `if len(current_path) > len(optimal_path)`: copy the path into the incumbent,
        and raise `StopIteration` once it covers every vertex. */
    method Record()
      requires Valid() && !stopped && IsSimplePath(adj, path)
      modifies this
      ensures Valid() && visited == old(visited) && path == old(path)
      ensures best == (if |path| > |old(best)| then path else old(best))
      ensures stopped <==> |path| > |old(best)| && |path| == |adj|
      ensures |path| <= |best|
    {
      if |path| > |best| {
        best := path;
        if |best| == |adj| {
          stopped := true;
        }
      }
    }

    /** The loop `for neighbor in self.adjacency[current_node]` of `explore_path`. */
    method ExploreNeighbours(c: nat)
      requires Valid() && !stopped
      requires path != [] && path[|path| - 1] == c && visited == Elems(path) && IsSimplePath(adj, path)
      modifies this
      decreases |adj| - |visited|, 1
      ensures Valid() && |old(best)| <= |best|
      ensures !stopped ==> visited == old(visited) && path == old(path)
      ensures !stopped ==> forall j :: 0 <= j < |adj[c]| && adj[c][j] !in visited ==>
        ExtensionsAtMost(adj, path + [adj[c][j]], |best|)
    {
      var nbrs := adj[c];
      var i := 0;
      while i < |nbrs|
        invariant 0 <= i <= |nbrs|
        invariant Valid() && !stopped && |old(best)| <= |best|
        invariant visited == old(visited) && path == old(path)
        invariant forall j :: 0 <= j < i && nbrs[j] !in visited ==> ExtensionsAtMost(adj, path + [nbrs[j]], |best|)
      {
        var nb := nbrs[i];
        if nb !in visited {
          ExtendPath(adj, path, nb);
          ghost var before := |best|;
          Explore(nb);
          if stopped {
            return;
          }
          forall j | 0 <= j < i && nbrs[j] !in visited
            ensures ExtensionsAtMost(adj, path + [nbrs[j]], |best|)
          {
            ExtensionsAtMostMono(adj, path + [nbrs[j]], before, |best|);
          }
        }
        i := i + 1;
      }
    }
  }

  /** The prune of `explore_path` never fires: while the search runs, the incumbent is
      shorter than N, and the optimistic length of any path whose vertices are the
      visited set is exactly N. */
  lemma PruneNeverFires(adj: Adjacency, best: seq<nat>, stopped: bool, path: seq<nat>, visited: set<nat>)
    requires IncumbentInvariant(adj, best, stopped) && !stopped
    requires IsSimplePath(adj, path) && path != [] && visited == Elems(path)
    ensures |path| + (|adj| - |visited|) > |best|
  {
    OptimisticLengthIsVertexCount(|adj|, path, visited);
    SimplePathLength(adj, best);
  }

  /** `bruteForce_solve_longest_path` with the start vertices in the given order (the
      source passes the stable degree-descending order). The closing report divides by
      `N_start`, so on an empty graph the call ends in `ZeroDivisionError`. */
  method BruteForceLongestPath(adj: Adjacency, order: seq<nat>) returns (r: Result<seq<nat>>)
    requires ValidGraph(adj) && IsOrder(order, |adj|)
    ensures r.Err? <==> |adj| == 0
    ensures r.Ok? ==> IsLongest(adj, r.value) && r.value != []
  {
    if |adj| == 0 {
      return Err("division by zero");
    }
    var search := new Search(adj);
    var k := 0;
    while k < |order|
      invariant 0 <= k <= |order|
      invariant search.Valid() && search.adj == adj && !search.stopped
      invariant forall j :: 0 <= j < k ==> ExtensionsAtMost(adj, [order[j]], |search.best|)
      invariant k > 0 ==> |search.best| > 0
    {
      search.visited, search.path := {}, [];
      ghost var before := |search.best|;
      assert [] + [order[k]] == [order[k]];
      search.Explore(order[k]);
      if search.stopped {
        break;
      }
      forall j | 0 <= j < k ensures ExtensionsAtMost(adj, [order[j]], |search.best|) {
        ExtensionsAtMostMono(adj, [order[j]], before, |search.best|);
      }
      assert IsSimplePath(adj, [order[k]]) && Extends([order[k]], [order[k]]);
      k := k + 1;
    }
    var best := search.best;
    assert search.stopped || k == |order|;
    if search.stopped {
      forall q | IsSimplePath(adj, q) ensures |q| <= |best| {
        SimplePathLength(adj, q);
      }
    } else {
      EveryStartBounded(adj, order, |best|);
    }
    assert IsSimplePath(adj, [0]);
    assert |[0]| <= |best|;
    r := Ok(best);
  }
}
