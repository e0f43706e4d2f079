/** Option and Result wrappers shared by the solvers. */
module Wrappers {
  datatype Option<T> = None | Some(value: T)

  /** A solver either returns a value or fails the way the Python code raises. */
  datatype Result<T> = Ok(value: T) | Err(msg: string)
}

/**
 * The graph every solver reads. Vertices are 0 .. |adj|-1, numbered in the order of
 * their names (`sorted(graph.nodes())`); `adj[v]` lists the neighbours of `v` in the
 * order the graph reports them (`list(graph.neighbors(v))`).
 */
module Graphs {
  type Adjacency = seq<seq<nat>>

  predicate Distinct(s: seq<nat>) {
    forall i, j :: 0 <= i < j < |s| ==> s[i] != s[j]
  }

  function Elems(s: seq<nat>): set<nat> {
    set x | x in s
  }

  /** The vertex set {0, ..., n-1}. */
  function Vertices(n: nat): (r: set<nat>)
    ensures forall v :: v in r <==> 0 <= v < n
  {
    if n == 0 then {} else Vertices(n - 1) + {n - 1}
  }

  /** An undirected simple graph: neighbours are vertices, no self-loops, adjacency is
      symmetric, and no neighbour is listed twice. */
  predicate ValidGraph(adj: Adjacency) {
    && (forall u, v :: 0 <= u < |adj| && v in adj[u] ==> v < |adj| && v != u)
    && (forall u, i :: 0 <= u < |adj| && 0 <= i < |adj[u]| ==> adj[u][i] < |adj| && u in adj[adj[u][i]])
    && (forall u :: 0 <= u < |adj| ==> Distinct(adj[u]))
  }

  /** A permutation of the vertices, the shape of every start-vertex order. */
  predicate IsOrder(order: seq<nat>, n: nat) {
    |order| == n && Distinct(order) && forall i :: 0 <= i < |order| ==> order[i] < n
  }

  /** The elements of `s` that are not in `S`, in their order in `s` (the list
      comprehension `[x for x in s if x not in S]`). */
  function Outside(s: seq<nat>, S: set<nat>): (r: seq<nat>)
    ensures |r| <= |s|
    ensures forall x :: x in r <==> x in s && x !in S
  {
    if s == [] then []
    else Outside(s[..|s| - 1], S) + (if s[|s| - 1] in S then [] else [s[|s| - 1]])
  }

  /** `r` is `s` with some elements dropped and the rest in their order. */
  predicate IsSubsequence(r: seq<nat>, s: seq<nat>)
    decreases |s|
  {
    if r == [] then true
    else if s == [] then false
    else if r[|r| - 1] == s[|s| - 1] then IsSubsequence(r[..|r| - 1], s[..|s| - 1])
    else IsSubsequence(r, s[..|s| - 1])
  }

  /** The filter keeps the order of the list it filters. */
  lemma {:induction false} OutsideKeepsOrder(s: seq<nat>, S: set<nat>)
    ensures IsSubsequence(Outside(s, S), s)
  {
    if s != [] {
      var p, x := s[..|s| - 1], s[|s| - 1];
      var r := Outside(p, S);
      OutsideKeepsOrder(p, S);
      if x !in S {
        assert (r + [x])[..|r|] == r;
      } else {
        assert Outside(s, S) == r + [] == r;
        if r != [] {
          assert r[|r| - 1] in r;
        }
      }
    }
  }

  /** The neighbours of `u` that are not in `S`, in adjacency order. */
  function FreeNeighbours(adj: Adjacency, u: nat, S: set<nat>): (r: seq<nat>)
    requires ValidGraph(adj) && u < |adj|
    ensures forall x :: x in r <==> x in adj[u] && x !in S
    ensures forall i :: 0 <= i < |r| ==> r[i] < |adj| && r[i] in adj[u] && r[i] !in S
  {
    var r := Outside(adj[u], S);
    assert forall i :: 0 <= i < |r| ==> r[i] in r;
    r
  }

  /** The number of elements of `s` that are not in `S`. */
  function CountOutside(s: seq<nat>, S: set<nat>): nat {
    if s == [] then 0
    else CountOutside(s[..|s| - 1], S) + (if s[|s| - 1] in S then 0 else 1)
  }

  /** The number of neighbours of `u` outside `S`. */
  function FreeDegree(adj: Adjacency, S: set<nat>, u: nat): nat
    requires u < |adj|
  {
    CountOutside(adj[u], S)
  }

  /** The count is the length of the filtered list. */
  lemma {:induction false} CountOutsideIsLength(s: seq<nat>, S: set<nat>)
    ensures CountOutside(s, S) == |Outside(s, S)| <= |s|
  {
    if s != [] {
      CountOutsideIsLength(s[..|s| - 1], S);
    }
  }

  /** The free degree of `u` is the number of its neighbours outside `S`,
      `len([w for w in adjacency[u] if w not in S])`. */
  lemma FreeDegreeCounts(adj: Adjacency, S: set<nat>, u: nat)
    requires u < |adj|
    ensures FreeDegree(adj, S, u) == |Outside(adj[u], S)| <= |adj[u]|
  {
    CountOutsideIsLength(adj[u], S);
  }

  /** Index of the first maximum of `scores`. */
  function FirstMax(scores: seq<nat>): (k: nat)
    requires |scores| > 0
    ensures k < |scores|
    ensures forall j :: 0 <= j < |scores| ==> scores[j] <= scores[k]
    ensures forall j :: 0 <= j < k ==> scores[j] < scores[k]
  {
    if |scores| == 1 then 0
    else
      var p := FirstMax(scores[..|scores| - 1]);
      if scores[|scores| - 1] > scores[p] then |scores| - 1 else p
  }

  /** The free degree of every candidate, in candidate order. */
  function FreeDegrees(adj: Adjacency, S: set<nat>, cands: seq<nat>): (r: seq<nat>)
    requires forall i :: 0 <= i < |cands| ==> cands[i] < |adj|
    ensures |r| == |cands| && forall i :: 0 <= i < |cands| ==> r[i] == FreeDegree(adj, S, cands[i])
  {
    seq(|cands|, i requires 0 <= i < |cands| => FreeDegree(adj, S, cands[i]))
  }

  /** `cands[k]` has the most neighbours outside `S`, and every candidate before it has
      strictly fewer. */
  predicate IsFirstMaxFree(adj: Adjacency, S: set<nat>, cands: seq<nat>, k: nat)
    requires forall i :: 0 <= i < |cands| ==> cands[i] < |adj|
  {
    && k < |cands|
    && (forall j :: 0 <= j < |cands| ==> FreeDegree(adj, S, cands[j]) <= FreeDegree(adj, S, cands[k]))
    && (forall j :: 0 <= j < k ==> FreeDegree(adj, S, cands[j]) < FreeDegree(adj, S, cands[k]))
  }

  /** Index of the candidate with the most neighbours outside `S`, the first one on
      ties: the result of `if cover > best_cover` scanned left to right. */
  function FirstMaxFree(adj: Adjacency, S: set<nat>, cands: seq<nat>): (k: nat)
    requires |cands| > 0 && forall i :: 0 <= i < |cands| ==> cands[i] < |adj|
    ensures IsFirstMaxFree(adj, S, cands, k)
  {
    FirstMax(FreeDegrees(adj, S, cands))
  }

  /** Only one index is the first maximum. */
  lemma FirstMaxFreeUnique(adj: Adjacency, S: set<nat>, cands: seq<nat>, k: nat)
    requires |cands| > 0 && forall i :: 0 <= i < |cands| ==> cands[i] < |adj|
    requires IsFirstMaxFree(adj, S, cands, k)
    ensures k == FirstMaxFree(adj, S, cands)
  {
  }

  lemma ElemsSnoc(s: seq<nat>, x: nat)
    ensures Elems(s + [x]) == Elems(s) + {x}
  {
    assert forall y :: y in s + [x] <==> y in s || y == x;
  }

  lemma ElemsPrefixSnoc(s: seq<nat>, i: nat)
    requires i < |s|
    ensures Elems(s[..i + 1]) == Elems(s[..i]) + {s[i]}
  {
    assert s[..i + 1] == s[..i] + [s[i]];
    ElemsSnoc(s[..i], s[i]);
  }

  lemma ElemsCons(x: nat, s: seq<nat>)
    ensures Elems([x] + s) == {x} + Elems(s)
  {
    assert forall y :: y in [x] + s <==> y == x || y in s;
  }

  lemma DistinctCons(x: nat, s: seq<nat>)
    requires Distinct(s) && x !in s
    ensures Distinct([x] + s)
  {
    forall a, b | 0 <= a < b < |[x] + s| ensures ([x] + s)[a] != ([x] + s)[b] {
      assert ([x] + s)[b] == s[b - 1];
      if a > 0 {
        assert ([x] + s)[a] == s[a - 1];
      }
    }
  }

  lemma DistinctSnoc(s: seq<nat>, x: nat)
    requires Distinct(s) && x !in s
    ensures Distinct(s + [x])
  {
    assert forall i :: 0 <= i < |s| ==> (s + [x])[i] == s[i];
  }

  lemma ElemsPrefix(s: seq<nat>, i: nat)
    requires i <= |s|
    ensures Elems(s[..i]) <= Elems(s)
  {
    assert forall j :: 0 <= j < i ==> s[..i][j] == s[j];
  }

  lemma VerticesCard(n: nat)
    ensures |Vertices(n)| == n
  {
    if n > 0 {
      VerticesCard(n - 1);
      assert Vertices(n) == Vertices(n - 1) + {n - 1};
    }
  }

  lemma {:induction false} DistinctCard(s: seq<nat>)
    requires Distinct(s)
    ensures |Elems(s)| == |s|
  {
    if s != [] {
      var t := s[..|s| - 1];
      assert s == t + [s[|s| - 1]];
      ElemsSnoc(t, s[|s| - 1]);
      DistinctCard(t);
    }
  }

  lemma {:induction false} ElemsCard(s: seq<nat>)
    ensures |Elems(s)| <= |s|
  {
    if s != [] {
      var t := s[..|s| - 1];
      assert s == t + [s[|s| - 1]];
      ElemsSnoc(t, s[|s| - 1]);
      ElemsCard(t);
    }
  }

  lemma SubsetCard(S: set<nat>, n: nat)
    requires S <= Vertices(n)
    ensures |S| <= n
  {
    VerticesCard(n);
    var d := Vertices(n) - S;
    assert Vertices(n) == S + d && S * d == {};
  }

  lemma SubsetCardLe(A: set<nat>, B: set<nat>)
    requires A <= B
    ensures |A| <= |B|
  {
    assert B == A + (B - A) && A * (B - A) == {};
  }

  /** A set of vertices with n elements is the whole vertex set. */
  lemma FullSubset(S: set<nat>, n: nat)
    requires S <= Vertices(n) && |S| >= n
    ensures S == Vertices(n)
  {
    VerticesCard(n);
    var d := Vertices(n) - S;
    assert Vertices(n) == S + d;
    assert |d| == 0;
  }

  /** A set of vertices with fewer than n elements misses some vertex. */
  lemma MissingVertex(S: set<nat>, n: nat) returns (v: nat)
    requires S <= Vertices(n) && |S| < n
    ensures v < n && v !in S
  {
    VerticesCard(n);
    var d := Vertices(n) - S;
    assert Vertices(n) == S + d;
    assert |d| > 0;
    v :| v in d;
  }

  /** A repetition-free sequence of vertices has at most n elements. */
  lemma DistinctBound(s: seq<nat>, n: nat)
    requires Distinct(s) && forall i :: 0 <= i < |s| ==> s[i] < n
    ensures |s| <= n
  {
    DistinctCard(s);
    SubsetCard(Elems(s), n);
  }

  lemma OrderCovers(order: seq<nat>, n: nat, v: nat)
    requires IsOrder(order, n) && v < n
    ensures v in order
  {
    DistinctCard(order);
    assert Elems(order) <= Vertices(n);
    FullSubset(Elems(order), n);
    assert v in Vertices(n);
  }
}
