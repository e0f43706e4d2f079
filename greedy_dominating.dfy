/**
 * `greedy_solve_dominating_set`: from every start vertex `v` (in name order), start
 * with `{v}` and, while some vertex is undominated, add the undominated vertex with
 * the most undominated neighbours (the first such one in name order); keep the
 * smallest set, the earliest start winning ties, starting from the whole vertex set.
 */
module GreedyDominating {
  import opened Graphs
  import opened Wrappers
  import opened Domination

  /** `b` is the vertex one greedy step picks among the vertices below `n`: it is
      undominated, no undominated vertex has more undominated neighbours, and every
      undominated vertex before it in name order has fewer. */
  predicate IsGreedyPick(adj: Adjacency, dominated: set<nat>, n: nat, b: nat)
    requires n <= |adj|
  {
    && b < n && b !in dominated
    && (forall w :: 0 <= w < n && w !in dominated ==> FreeDegree(adj, dominated, w) <= FreeDegree(adj, dominated, b))
    && (forall w :: 0 <= w < b && w !in dominated ==> FreeDegree(adj, dominated, w) < FreeDegree(adj, dominated, b))
  }

  /** The greedy step restricted to the vertices below `n`; `None` when all of them are
      dominated (the `best_candidate = None` the scan starts from). */
  function PickBelow(adj: Adjacency, dominated: set<nat>, n: nat): (r: Option<nat>)
    requires n <= |adj|
    ensures r.None? <==> forall w :: 0 <= w < n ==> w in dominated
    ensures r.Some? ==> IsGreedyPick(adj, dominated, n, r.value)
  {
    if n == 0 then None
    else
      var p := PickBelow(adj, dominated, n - 1);
      if n - 1 !in dominated && (p.None? || FreeDegree(adj, dominated, n - 1) > FreeDegree(adj, dominated, p.value))
      then Some(n - 1)
      else p
  }

  /** While fewer than N vertices are dominated, some vertex is undominated. */
  lemma SomeUndominated(adj: Adjacency, dominated: set<nat>)
    requires dominated <= Vertices(|adj|) && |dominated| < |adj|
    ensures PickBelow(adj, dominated, |adj|).Some?
  {
    var v := MissingVertex(dominated, |adj|);
  }

  /** The vertex one greedy step adds when `dominated` is the current cover. */
  function GreedyPick(adj: Adjacency, dominated: set<nat>): (u: nat)
    requires PickBelow(adj, dominated, |adj|).Some?
    ensures IsGreedyPick(adj, dominated, |adj|, u)
  {
    PickBelow(adj, dominated, |adj|).value
  }

  /** The greedy set grown from `current` until it dominates the graph. */
  function GreedyDomFrom(adj: Adjacency, current: set<nat>): (r: set<nat>)
    requires ValidGraph(adj) && current <= Vertices(|adj|)
    ensures current <= r <= Vertices(|adj|) && Dominates(adj, r)
    decreases |adj| - |Cover(adj, current)|
  {
    var dominated := Cover(adj, current);
    SubsetCard(dominated, |adj|);
    DominatesIffFull(adj, current);
    if |dominated| >= |adj| then current
    else
      SomeUndominated(adj, dominated);
      var u := GreedyPick(adj, dominated);
      GreedyStepGrows(adj, current, u);
      GreedyDomFrom(adj, current + {u})
  }

  /** Adding an undominated vertex keeps the set inside the graph and covers at least
      one more vertex: the greedy loop makes progress. */
  lemma GreedyStepGrows(adj: Adjacency, current: set<nat>, u: nat)
    requires ValidGraph(adj) && current <= Vertices(|adj|)
    requires u < |adj| && u !in Cover(adj, current)
    ensures current + {u} <= Vertices(|adj|)
    ensures |Cover(adj, current)| < |Cover(adj, current + {u})| <= |adj|
  {
    var dominated := Cover(adj, current);
    CoverAdd(adj, current, u);
    ClosedInRange(adj, u);
    assert dominated + {u} <= Cover(adj, current + {u}) <= Vertices(|adj|);
    SubsetCardLe(dominated + {u}, Cover(adj, current + {u}));
    SubsetCard(Cover(adj, current + {u}), |adj|);
  }

  /** The `current_set` built from the start vertex `v`. */
  function GreedyDom(adj: Adjacency, v: nat): (r: set<nat>)
    requires ValidGraph(adj) && v < |adj|
    ensures v in r && r <= Vertices(|adj|) && Dominates(adj, r) && |r| <= |adj|
  {
    var r := GreedyDomFrom(adj, {v});
    SubsetCard(r, |adj|);
    r
  }

  /**
   * Each step adds one vertex and covers at least one more vertex, so the loop runs at
   * most `N - len(dominated)` more times and the set grows by at most that much.
   */
  lemma {:induction false} GreedyDomFromSize(adj: Adjacency, current: set<nat>)
    requires ValidGraph(adj) && current <= Vertices(|adj|)
    ensures |Cover(adj, current)| <= |adj|
    ensures |GreedyDomFrom(adj, current)| <= |current| + (|adj| - |Cover(adj, current)|)
    decreases |adj| - |Cover(adj, current)|
  {
    var dominated := Cover(adj, current);
    SubsetCard(dominated, |adj|);
    DominatesIffFull(adj, current);
    if |dominated| < |adj| {
      SomeUndominated(adj, dominated);
      var u := GreedyPick(adj, dominated);
      GreedyStepGrows(adj, current, u);
      GreedyDomFromSize(adj, current + {u});
    }
  }

  /** The greedy set from `v` has at most `N - len(adjacency[v])` vertices. */
  lemma GreedyDomSize(adj: Adjacency, v: nat)
    requires ValidGraph(adj) && v < |adj|
    ensures |GreedyDom(adj, v)| <= |adj| - |adj[v]|
  {
    GreedyDomFromSize(adj, {v});
    CoverSingleton(adj, v);
    ClosedCard(adj, v);
  }

  /** The inner `cover` loop: the number of neighbours of `u` not yet dominated. */
  method CountUndominated(adj: Adjacency, dominated: set<nat>, u: nat) returns (cover: nat)
    requires u < |adj|
    ensures cover == FreeDegree(adj, dominated, u)
  {
    cover := 0;
    var i := 0;
    while i < |adj[u]|
      invariant 0 <= i <= |adj[u]|
      invariant cover == CountOutside(adj[u][..i], dominated)
    {
      var w := adj[u][i];
      assert adj[u][..i + 1][..i] == adj[u][..i];
      if w !in dominated {
        cover := cover + 1;
      }
      i := i + 1;
    }
    assert adj[u][..|adj[u]|] == adj[u];
  }

  /** The selection loop of one greedy step over `nodes_sorted`. */
  method PickUndominated(adj: Adjacency, dominated: set<nat>) returns (best: nat)
    requires PickBelow(adj, dominated, |adj|).Some?
    ensures best == GreedyPick(adj, dominated)
  {
    var bestCover: int := -1;
    best := 0;
    var u: nat := 0;
    while u < |adj|
      invariant 0 <= u <= |adj|
      invariant PickBelow(adj, dominated, u).None? ==> bestCover == -1
      invariant PickBelow(adj, dominated, u).Some? ==>
        best == PickBelow(adj, dominated, u).value && bestCover == FreeDegree(adj, dominated, best)
    {
      if u !in dominated {
        var cover := CountUndominated(adj, dominated, u);
        if cover > bestCover {
          bestCover := cover;
          best := u;
        }
      }
      u := u + 1;
    }
  }

  /** The `while len(dominated) < N` loop of the start `v`: returns `current_set`. */
  method GreedyDomStart(adj: Adjacency, v: nat) returns (current: set<nat>)
    requires ValidGraph(adj) && v < |adj|
    ensures current == GreedyDom(adj, v)
  {
    current := {v};
    var dominated := {v} + Elems(adj[v]);
    CoverSingleton(adj, v);
    while |dominated| < |adj|
      invariant current <= Vertices(|adj|) && dominated == Cover(adj, current)
      invariant GreedyDomFrom(adj, current) == GreedyDom(adj, v)
      decreases |adj| - |dominated|
    {
      SomeUndominated(adj, dominated);
      var u := PickUndominated(adj, dominated);
      GreedyStepGrows(adj, current, u);
      CoverAdd(adj, current, u);
      current := current + {u};
      dominated := dominated + ({u} + Elems(adj[u]));
    }
    SubsetCard(dominated, |adj|);
    DominatesIffFull(adj, current);
  }

  /** What the start loop keeps after the starts below `v`, part one: `best_set` is a
      dominating set of the graph, the whole vertex set or the set of the start
      `bestV`. */
  ghost predicate KeptSet(adj: Adjacency, v: nat, bestSet: set<nat>, bestSize: nat, bestV: nat)
    requires ValidGraph(adj) && v <= |adj|
  {
    && bestV <= v
    && bestSize == |bestSet| <= |adj| && bestSet <= Vertices(|adj|) && Dominates(adj, bestSet)
    && (bestSize < |adj| ==> bestV < v && bestSet == GreedyDom(adj, bestV))
    && (bestSize == |adj| ==> bestV == 0)
  }

  /** The size of the set each start builds, in start order. */
  ghost function StartSizes(adj: Adjacency): (r: seq<nat>)
    requires ValidGraph(adj)
    ensures |r| == |adj| && forall w :: 0 <= w < |adj| ==> r[w] == |GreedyDom(adj, w)|
  {
    seq(|adj|, w requires 0 <= w < |adj| => |GreedyDom(adj, w)|)
  }

  /** Part two: no start below `v` built a smaller set, and every start before `bestV`
      built a larger one. */
  ghost predicate KeptMin(sizes: seq<nat>, v: nat, bestSize: nat, bestV: nat)
    requires v <= |sizes|
  {
    && bestV <= v
    && (forall w :: 0 <= w < v ==> bestSize <= sizes[w])
    && (forall w :: 0 <= w < bestV ==> bestSize < sizes[w])
  }

  /** Before any start, the whole vertex set is kept. */
  lemma KeptInit(adj: Adjacency)
    requires ValidGraph(adj)
    ensures KeptSet(adj, 0, Vertices(|adj|), |adj|, 0)
  {
    VerticesCard(|adj|);
    AllVerticesDominate(adj);
  }

  /** One start, `if len(current_set) < best_size`: the set of start `v` replaces the
      kept one, or the kept one stays; either way it is a dominating set of a start. */
  lemma KeptSetStep(adj: Adjacency, v: nat, bestSet: set<nat>, bestSize: nat, bestV: nat)
    requires ValidGraph(adj) && v < |adj| && KeptSet(adj, v, bestSet, bestSize, bestV)
    ensures |GreedyDom(adj, v)| < bestSize ==>
      KeptSet(adj, v + 1, GreedyDom(adj, v), |GreedyDom(adj, v)|, v)
    ensures KeptSet(adj, v + 1, bestSet, bestSize, bestV)
  {
  }

  /** One start keeps the kept size the minimum so far, with the earliest start. */
  lemma KeptMinStep(sizes: seq<nat>, v: nat, bestSize: nat, bestV: nat)
    requires v < |sizes| && KeptMin(sizes, v, bestSize, bestV)
    ensures sizes[v] < bestSize ==> KeptMin(sizes, v + 1, sizes[v], v)
    ensures sizes[v] >= bestSize ==> KeptMin(sizes, v + 1, bestSize, bestV)
  {
  }

  /** After the last start, the kept set is the set of the earliest start. */
  lemma KeptEnd(adj: Adjacency, bestSet: set<nat>, bestSize: nat, bestV: nat)
    requires ValidGraph(adj) && |adj| > 0
    requires KeptSet(adj, |adj|, bestSet, bestSize, bestV)
    requires KeptMin(StartSizes(adj), |adj|, bestSize, bestV)
    ensures 0 <= bestV < |adj| && bestSet == GreedyDom(adj, bestV)
    ensures forall w :: 0 <= w < |adj| ==> bestSize <= |GreedyDom(adj, w)|
    ensures forall w :: 0 <= w < bestV ==> bestSize < |GreedyDom(adj, w)|
  {
    var sizes := StartSizes(adj);
    if bestSize == |adj| {
      FullSubset(bestSet, |adj|);
      FirstStartIsWhole(adj);
    }
    forall w | 0 <= w < |adj| ensures bestSize <= |GreedyDom(adj, w)| {
      assert bestSize <= sizes[w];
    }
    forall w | 0 <= w < bestV ensures bestSize < |GreedyDom(adj, w)| {
      assert bestSize < sizes[w];
    }
  }

  /** `greedy_solve_dominating_set`: returns `(best_set, best_size)`. The closing report
      divides by `N_start`, so on an empty graph the call ends in `ZeroDivisionError`. */
  method GreedyDominatingSet(adj: Adjacency) returns (r: Result<(set<nat>, nat)>)
    requires ValidGraph(adj)
    ensures r.Err? <==> |adj| == 0
    ensures r.Ok? ==> r.value.1 == |r.value.0| <= |adj| && r.value.0 <= Vertices(|adj|)
    ensures r.Ok? ==> Dominates(adj, r.value.0)
    ensures r.Ok? ==> exists v :: (0 <= v < |adj| && r.value.0 == GreedyDom(adj, v) &&
      (forall w :: 0 <= w < |adj| ==> r.value.1 <= |GreedyDom(adj, w)|) &&
      (forall w :: 0 <= w < v ==> r.value.1 < |GreedyDom(adj, w)|))
  {
    if |adj| == 0 {
      return Err("division by zero");
    }
    var bestSize: nat := |adj|;
    var bestSet := Vertices(|adj|);   // set(nodes_sorted)
    KeptInit(adj);
    ghost var sizes := StartSizes(adj);
    ghost var bestV := 0;
    var v := 0;
    while v < |adj|
      invariant 0 <= v <= |adj|
      invariant KeptSet(adj, v, bestSet, bestSize, bestV) && KeptMin(sizes, v, bestSize, bestV)
    {
      var current := GreedyDomStart(adj, v);
      KeptSetStep(adj, v, bestSet, bestSize, bestV);
      KeptMinStep(sizes, v, bestSize, bestV);
      if |current| < bestSize {
        bestSize := |current|;
        bestSet := current;
        bestV := v;
      }
      v := v + 1;
    }
    KeptEnd(adj, bestSet, bestSize, bestV);
    r := Ok((bestSet, bestSize));
  }

  /** When no start does better than the whole vertex set, the whole vertex set is
      what the first start builds, so keeping it keeps the earliest start's set. */
  lemma FirstStartIsWhole(adj: Adjacency)
    requires ValidGraph(adj) && |adj| > 0 && |GreedyDom(adj, 0)| >= |adj|
    ensures GreedyDom(adj, 0) == Vertices(|adj|)
  {
    FullSubset(GreedyDom(adj, 0), |adj|);
  }
}
