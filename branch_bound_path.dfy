/**
 * `branchBound_solve_longest_path`: the same depth-first search as the brute force,
 * but the visited set and the path stack are shared by all starts, the incumbent is
 * recorded only at a vertex with no free neighbour, a branch is entered only while
 * `len(path_stack) + remaining > best_len`, and no further start is tried once
 * `best_len == N`.
 */
module BranchBoundPath {
  import opened Wrappers
  import opened Graphs
  import opened Paths

  /** `best_len` is the length of `best_path`, a simple path that ends at a vertex
      with no free neighbour. */
  predicate IncumbentInvariant(adj: Adjacency, bestPath: seq<nat>, bestLen: nat) {
    && ValidGraph(adj)
    && IsSimplePath(adj, bestPath)
    && Maximal(adj, bestPath)
    && bestLen == |bestPath|
  }

  class Search {
    const adj: Adjacency
    var visited: set<nat>
    var pathStack: seq<nat>   // path_stack
    var bestLen: nat          // best_len
    var bestPath: seq<nat>    // best_path

    ghost predicate Valid()
      reads this
    {
      IncumbentInvariant(adj, bestPath, bestLen)
    }

    constructor (adj: Adjacency)
      requires ValidGraph(adj)
      ensures Valid() && this.adj == adj
      ensures visited == {} && pathStack == [] && bestLen == 0 && bestPath == []
    {
      this.adj := adj;
      visited, pathStack, bestLen, bestPath := {}, [], 0, [];
    }

    /** `dfs_branch(c)`: leaves `visited` and `path_stack` as it found them. */
    method DfsBranch(c: nat)
      requires Valid()
      requires visited == Elems(pathStack) && IsSimplePath(adj, pathStack + [c])
      modifies this
      decreases |adj| - |visited|, 0
      ensures Valid() && old(bestLen) <= bestLen
      ensures visited == old(visited) && pathStack == old(pathStack)
      ensures ExtensionsAtMost(adj, old(pathStack) + [c], bestLen)
    {
      LastNotInPrefix(pathStack, c);
      ElemsSnoc(pathStack, c);
      visited := visited + {c};
      pathStack := pathStack + [c];
      SubsetCard(visited, |adj|);
      assert pathStack[|pathStack| - 1] == c;
      var free := Outside(adj[c], visited);   // vizinhos_livres
      if free == [] {
        LeafIsMaximal(adj, pathStack, visited);
        if |pathStack| > bestLen {
          bestLen := |pathStack|;
          bestPath := pathStack;
        }
        ExtensionsAtMostMono(adj, pathStack, |pathStack|, bestLen);
      } else {
        var remaining := |adj| - |visited|;
        if |pathStack| + remaining > bestLen {
          BranchOver(c, free);
          FreeNeighboursBound(adj, pathStack, visited, free, bestLen);
        } else {
          PruneIsSound(adj, pathStack, visited, bestLen);
        }
      }
      visited := visited - {c};
      pathStack := pathStack[..|pathStack| - 1];
    }

    /** The loop `for nbr in vizinhos_livres: dfs_branch(nbr)`. */
    method BranchOver(c: nat, free: seq<nat>)
      requires Valid()
      requires pathStack != [] && pathStack[|pathStack| - 1] == c
      requires visited == Elems(pathStack) && IsSimplePath(adj, pathStack)
      requires free == Outside(adj[c], visited)
      modifies this
      decreases |adj| - |visited|, 1
      ensures Valid() && old(bestLen) <= bestLen
      ensures visited == old(visited) && pathStack == old(pathStack)
      ensures forall k :: 0 <= k < |free| ==> ExtensionsAtMost(adj, pathStack + [free[k]], bestLen)
    {
      var i := 0;
      while i < |free|
        invariant 0 <= i <= |free|
        invariant Valid() && old(bestLen) <= bestLen
        invariant visited == old(visited) && pathStack == old(pathStack)
        invariant forall k :: 0 <= k < i ==> ExtensionsAtMost(adj, pathStack + [free[k]], bestLen)
      {
        assert free[i] in adj[c] && free[i] !in pathStack;
        ExtendPath(adj, pathStack, free[i]);
        ghost var before := bestLen;
        DfsBranch(free[i]);
        forall k | 0 <= k < i ensures ExtensionsAtMost(adj, pathStack + [free[k]], bestLen) {
          ExtensionsAtMostMono(adj, pathStack + [free[k]], before, bestLen);
        }
        i := i + 1;
      }
    }
  }

  /** The bound of `dfs_branch` fails only once the incumbent covers all N vertices:
      the optimistic length of a path whose vertices are the visited set is exactly N. */
  lemma BoundFailsOnlyAtN(adj: Adjacency, bestPath: seq<nat>, bestLen: nat, pathStack: seq<nat>, visited: set<nat>)
    requires IncumbentInvariant(adj, bestPath, bestLen)
    requires IsSimplePath(adj, pathStack) && visited == Elems(pathStack)
    ensures |pathStack| + (|adj| - |visited|) > bestLen <==> bestLen < |adj|
  {
    OptimisticLengthIsVertexCount(|adj|, pathStack, visited);
  }

  /** At a vertex with no free neighbour the path is maximal and is the only simple
      path that starts with it. */
  lemma LeafIsMaximal(adj: Adjacency, p: seq<nat>, visited: set<nat>)
    requires IsSimplePath(adj, p) && p != [] && visited == Elems(p)
    requires Outside(adj[p[|p| - 1]], visited) == []
    ensures Maximal(adj, p)
    ensures ExtensionsAtMost(adj, p, |p|)
  {
    assert forall v :: v in adj[p[|p| - 1]] ==> v in visited;
    forall q | IsSimplePath(adj, q) && Extends(q, p) ensures |q| <= |p| {
      MaximalHasNoExtension(adj, p, q);
    }
  }

  /** When every path through a free neighbour fits the bound, every path through the
      current one fits it. */
  lemma FreeNeighboursBound(adj: Adjacency, p: seq<nat>, visited: set<nat>, free: seq<nat>, bound: int)
    requires ValidGraph(adj) && IsSimplePath(adj, p) && p != [] && visited == Elems(p)
    requires free == Outside(adj[p[|p| - 1]], visited) && free != []
    requires forall k :: 0 <= k < |free| ==> ExtensionsAtMost(adj, p + [free[k]], bound)
    ensures ExtensionsAtMost(adj, p, bound)
  {
    var nbrs := adj[p[|p| - 1]];
    ExtendPath(adj, p, free[0]);
    assert Extends(p + [free[0]], p + [free[0]]);
    forall j | 0 <= j < |nbrs| && nbrs[j] !in visited
      ensures ExtensionsAtMost(adj, p + [nbrs[j]], bound)
    {
      var k :| 0 <= k < |free| && free[k] == nbrs[j];
    }
    ExtensionsThroughNeighbours(adj, p, nbrs, visited, bound, bound);
  }

  /** `branchBound_solve_longest_path` with the start vertices in the given order (the
      source passes the stable degree-descending order); returns `(best_path, best_len)`.
      The closing report divides by `N_start`, so on an empty graph the call ends in
      `ZeroDivisionError`. */
  method BranchBoundLongestPath(adj: Adjacency, order: seq<nat>) returns (r: Result<(seq<nat>, nat)>)
    requires ValidGraph(adj) && IsOrder(order, |adj|)
    ensures r.Err? <==> |adj| == 0
    ensures r.Ok? ==> r.value.1 == |r.value.0| && r.value.0 != []
    ensures r.Ok? ==> IsLongest(adj, r.value.0) && Maximal(adj, r.value.0)
  {
    if |adj| == 0 {
      return Err("division by zero");
    }
    var search := new Search(adj);
    var k := 0;
    while k < |order|
      invariant 0 <= k <= |order|
      invariant search.Valid() && search.adj == adj
      invariant search.visited == {} && search.pathStack == []
      invariant forall j :: 0 <= j < k ==> ExtensionsAtMost(adj, [order[j]], search.bestLen)
      invariant k > 0 ==> search.bestLen > 0
    {
      if search.bestLen == |adj| {
        break;
      }
      ghost var before := search.bestLen;
      assert [] + [order[k]] == [order[k]];
      search.DfsBranch(order[k]);
      forall j | 0 <= j < k ensures ExtensionsAtMost(adj, [order[j]], search.bestLen) {
        ExtensionsAtMostMono(adj, [order[j]], before, search.bestLen);
      }
      assert IsSimplePath(adj, [order[k]]) && Extends([order[k]], [order[k]]);
      k := k + 1;
    }
    var bestPath, bestLen := search.bestPath, search.bestLen;
    if k < |order| {
      forall q | IsSimplePath(adj, q) ensures |q| <= bestLen {
        SimplePathLength(adj, q);
      }
    } else {
      EveryStartBounded(adj, order, bestLen);
    }
    assert IsSimplePath(adj, [0]);
    assert |[0]| <= bestLen;
    r := Ok((bestPath, bestLen));
  }
}
