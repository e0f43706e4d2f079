/**
 * `itertools.combinations` on a sequence of vertices, with the two facts the
 * brute-force dominating-set search needs of it: every combination is a repetition-free
 * choice of k elements, and every k-element set of elements is one of them. Like the
 * library, the combinations are generated over positions: those of `s[lo..]` taking
 * `s[lo]` come first, then those that skip it.
 */
module Combinatorics {
  import opened Graphs

  /** `x` put in front of every sequence of `cs`. */
  function Prepend(x: nat, cs: seq<seq<nat>>): seq<seq<nat>> {
    if cs == [] then [] else [[x] + cs[0]] + Prepend(x, cs[1..])
  }

  lemma {:induction false} PrependLength(x: nat, cs: seq<seq<nat>>)
    ensures |Prepend(x, cs)| == |cs|
  {
    if cs != [] {
      PrependLength(x, cs[1..]);
    }
  }

  lemma {:induction false} PrependIndex(x: nat, cs: seq<seq<nat>>, j: nat)
    requires j < |cs|
    ensures |Prepend(x, cs)| == |cs| && Prepend(x, cs)[j] == [x] + cs[j]
  {
    PrependLength(x, cs);
    if j > 0 {
      PrependIndex(x, cs[1..], j - 1);
      assert cs[1..][j - 1] == cs[j];
    }
  }

  /** `math.comb(n, k)`, by Pascal's rule. */
  function Binomial(n: nat, k: nat): nat {
    if k == 0 then 1
    else if n == 0 then 0
    else Binomial(n - 1, k - 1) + Binomial(n - 1, k)
  }

  /** There is no way to choose more elements than there are, and one way to choose
      them all. */
  lemma {:induction false} BinomialEdges(n: nat, k: nat)
    ensures k > n ==> Binomial(n, k) == 0
    ensures Binomial(n, n) == 1
  {
    if n > 0 {
      BinomialEdges(n - 1, n - 1);
      BinomialEdges(n - 1, n);
      if k > 0 {
        BinomialEdges(n - 1, k - 1);
        BinomialEdges(n - 1, k);
      }
    }
  }

  /** The k-element combinations of the positions `lo..|s|-1` of `s`; there are
      `math.comb(|s| - lo, k)` of them. */
  function CombinationsFrom(s: seq<nat>, lo: nat, k: nat): (r: seq<seq<nat>>)
    ensures lo <= |s| ==> |r| == Binomial(|s| - lo, k)
    decreases |s| - lo
  {
    if k == 0 then [[]]
    else if lo >= |s| then []
    else
      PrependLength(s[lo], CombinationsFrom(s, lo + 1, k - 1));
      Prepend(s[lo], CombinationsFrom(s, lo + 1, k - 1)) + CombinationsFrom(s, lo + 1, k)
  }

  /** `list(itertools.combinations(s, k))`: as many as `math.comb(len(s), k)` counts. */
  function Combinations(s: seq<nat>, k: nat): (r: seq<seq<nat>>)
    ensures |r| == Binomial(|s|, k)
  {
    CombinationsFrom(s, 0, k)
  }

  /** The elements at positions `lo..|s|-1` of `s`. */
  function ElemsFrom(s: seq<nat>, lo: nat): set<nat> {
    set j | lo <= j < |s| :: s[j]
  }

  lemma ElemsFromSplit(s: seq<nat>, lo: nat)
    requires lo < |s|
    ensures ElemsFrom(s, lo) == {s[lo]} + ElemsFrom(s, lo + 1)
  {
  }

  lemma ElemsFromZero(s: seq<nat>)
    ensures ElemsFrom(s, 0) == Elems(s)
  {
    forall x | x in Elems(s) ensures x in ElemsFrom(s, 0) {
      var j :| 0 <= j < |s| && s[j] == x;
    }
  }

  lemma Split(s: seq<nat>, lo: nat, k: nat)
    requires k > 0 && lo < |s|
    ensures |CombinationsFrom(s, lo, k)| == |CombinationsFrom(s, lo + 1, k - 1)| + |CombinationsFrom(s, lo + 1, k)|
  {
    PrependLength(s[lo], CombinationsFrom(s, lo + 1, k - 1));
  }

  /** The combinations that take `s[lo]` come first. */
  lemma TakeFirst(s: seq<nat>, lo: nat, k: nat, j: nat)
    requires k > 0 && lo < |s| && j < |CombinationsFrom(s, lo + 1, k - 1)|
    ensures j < |CombinationsFrom(s, lo, k)|
    ensures CombinationsFrom(s, lo, k)[j] == [s[lo]] + CombinationsFrom(s, lo + 1, k - 1)[j]
  {
    PrependIndex(s[lo], CombinationsFrom(s, lo + 1, k - 1), j);
  }

  /** The combinations that skip `s[lo]` follow. */
  lemma SkipFirst(s: seq<nat>, lo: nat, k: nat, j: nat)
    requires k > 0 && lo < |s| && j < |CombinationsFrom(s, lo + 1, k)|
    ensures |CombinationsFrom(s, lo + 1, k - 1)| + j < |CombinationsFrom(s, lo, k)|
    ensures CombinationsFrom(s, lo, k)[|CombinationsFrom(s, lo + 1, k - 1)| + j] == CombinationsFrom(s, lo + 1, k)[j]
  {
    PrependLength(s[lo], CombinationsFrom(s, lo + 1, k - 1));
  }

  /** A combination is a repetition-free choice of k elements from positions `lo`
      onwards. */
  predicate Choice(s: seq<nat>, lo: nat, k: nat, c: seq<nat>) {
    && |c| == k
    && (forall m :: 0 <= m < |c| ==> c[m] in ElemsFrom(s, lo))
    && (Distinct(s) ==> Distinct(c))
  }

  /** Putting `s[lo]` in front of a choice from positions `lo + 1` onwards. */
  lemma ChoiceTake(s: seq<nat>, lo: nat, k: nat, c: seq<nat>)
    requires lo < |s| && Choice(s, lo + 1, k, c)
    ensures Choice(s, lo, k + 1, [s[lo]] + c)
  {
    ElemsFromSplit(s, lo);
    var r := [s[lo]] + c;
    forall m | 0 <= m < |r| ensures r[m] in ElemsFrom(s, lo) {
      if m > 0 {
        assert r[m] == c[m - 1];
      }
    }
    if Distinct(s) {
      assert s[lo] !in ElemsFrom(s, lo + 1);
      DistinctCons(s[lo], c);
    }
  }

  /** A choice from positions `lo + 1` onwards is one from `lo` onwards. */
  lemma ChoiceSkip(s: seq<nat>, lo: nat, k: nat, c: seq<nat>)
    requires lo < |s| && Choice(s, lo + 1, k, c)
    ensures Choice(s, lo, k, c)
  {
    ElemsFromSplit(s, lo);
  }

  /** Every combination has k elements, all taken from positions `lo` onwards, and
      none repeated when `s` has no repetition. */
  lemma {:induction false} CombinationsFromSound(s: seq<nat>, lo: nat, k: nat, i: nat)
    requires i < |CombinationsFrom(s, lo, k)|
    ensures Choice(s, lo, k, CombinationsFrom(s, lo, k)[i])
    decreases |s| - lo
  {
    if k == 0 {
      assert CombinationsFrom(s, lo, k)[i] == [];
    } else {
      assert lo < |s|;
      Split(s, lo, k);
      var n1 := |CombinationsFrom(s, lo + 1, k - 1)|;
      if i < n1 {
        TakeFirst(s, lo, k, i);
        CombinationsFromSound(s, lo + 1, k - 1, i);
        ChoiceTake(s, lo, k - 1, CombinationsFrom(s, lo + 1, k - 1)[i]);
      } else {
        SkipFirst(s, lo, k, i - n1);
        CombinationsFromSound(s, lo + 1, k, i - n1);
        ChoiceSkip(s, lo, k, CombinationsFrom(s, lo + 1, k)[i - n1]);
      }
    }
  }

  /** Every k-element set of elements at positions `lo` onwards is enumerated. */
  lemma {:induction false} CombinationsFromComplete(s: seq<nat>, lo: nat, k: nat, T: set<nat>) returns (i: nat)
    requires T <= ElemsFrom(s, lo) && |T| == k
    ensures i < |CombinationsFrom(s, lo, k)| && Elems(CombinationsFrom(s, lo, k)[i]) == T
    decreases |s| - lo
  {
    if k == 0 {
      i := 0;
      assert T == {};
      assert CombinationsFrom(s, lo, k) == [[]];
    } else {
      var x :| x in T;
      assert lo < |s|;
      ElemsFromSplit(s, lo);
      if s[lo] in T {
        var U := T - {s[lo]};
        assert |T| == |U| + 1 by {
          assert T == U + {s[lo]} && s[lo] !in U;
        }
        var j := CombinationsFromComplete(s, lo + 1, k - 1, U);
        i := j;
        ElemsTake(s, lo, k, T, j);
      } else {
        assert T <= ElemsFrom(s, lo + 1);
        var j := CombinationsFromComplete(s, lo + 1, k, T);
        i := ElemsSkip(s, lo, k, T, j);
      }
    }
  }

  lemma ElemsSkip(s: seq<nat>, lo: nat, k: nat, T: set<nat>, j: nat) returns (i: nat)
    requires k > 0 && lo < |s| && j < |CombinationsFrom(s, lo + 1, k)|
    requires Elems(CombinationsFrom(s, lo + 1, k)[j]) == T
    ensures i < |CombinationsFrom(s, lo, k)| && Elems(CombinationsFrom(s, lo, k)[i]) == T
  {
    SkipFirst(s, lo, k, j);
    i := |CombinationsFrom(s, lo + 1, k - 1)| + j;
  }

  lemma ElemsTake(s: seq<nat>, lo: nat, k: nat, T: set<nat>, j: nat)
    requires k > 0 && lo < |s| && s[lo] in T && j < |CombinationsFrom(s, lo + 1, k - 1)|
    requires Elems(CombinationsFrom(s, lo + 1, k - 1)[j]) == T - {s[lo]}
    ensures j < |CombinationsFrom(s, lo, k)| && Elems(CombinationsFrom(s, lo, k)[j]) == T
  {
    TakeFirst(s, lo, k, j);
    ElemsCons(s[lo], CombinationsFrom(s, lo + 1, k - 1)[j]);
  }

  /** Every combination is a choice of k elements of `s`, without repetition when `s`
      has none. */
  lemma CombinationsSound(s: seq<nat>, k: nat, i: nat)
    requires i < |Combinations(s, k)|
    ensures |Combinations(s, k)[i]| == k
    ensures Elems(Combinations(s, k)[i]) <= Elems(s)
    ensures Distinct(s) ==> Distinct(Combinations(s, k)[i])
  {
    CombinationsFromSound(s, 0, k, i);
    ElemsFromZero(s);
    assert forall m :: 0 <= m < |Combinations(s, k)[i]| ==> Combinations(s, k)[i][m] in Elems(s);
  }

  /** Every k-element set of elements of `s` is one of the combinations. */
  lemma CombinationsComplete(s: seq<nat>, k: nat, T: set<nat>) returns (i: nat)
    requires T <= Elems(s) && |T| == k
    ensures i < |Combinations(s, k)| && Elems(Combinations(s, k)[i]) == T
  {
    ElemsFromZero(s);
    i := CombinationsFromComplete(s, 0, k, T);
  }
}
