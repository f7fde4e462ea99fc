/** The two reference searches of the program, `max_prod_brute_force` (every
    range, its product recomputed from scratch) and
    `max_prod_brute_force_improved` (one running product per start index),
    stated once over reals; the unsigned instance is the same search on
    `NatProduct.AsReals(arr)`.

    Both visit the ranges (i, j) in lexicographic order and replace their
    running maximum, initially zero at (0, 0), only on a strictly larger
    product. The lemmas below show that both return the lexicographically
    first range of maximal product (`IsFirstMax`) and that this range is
    unique, so any algorithm proved to return a first maximum agrees with
    both searches index for index. */
module Oracle {
  import opened RealProduct

  /** The running maximum of a search: its product and its inclusive range. */
  datatype Best = Best(prod: real, span: (nat, nat))

  /** One comparison of a search: the range (i, j) with product p replaces
      the running maximum only if p is strictly larger. */
  function Consider(best: Best, p: real, i: nat, j: nat): Best {
    if p > best.prod then Best(p, (i, j)) else best
  }

  /** A comparison never lowers the running maximum, leaves it at least the
      product compared, and moves it to (i, j) only on a strictly larger
      product, so a tie keeps the range visited first. */
  lemma {:induction false} ConsiderNeverDecreases(best: Best, p: real, i: nat, j: nat)
    ensures Consider(best, p, i, j).prod >= best.prod && Consider(best, p, i, j).prod >= p
    ensures Consider(best, p, i, j) == best || Consider(best, p, i, j) == Best(p, (i, j))
    ensures Consider(best, p, i, j) != best ==> p > best.prod
  {
  }

  /** The inner loop of `max_prod_brute_force` for start i, from end j on. */
  ghost function BruteRow(arr: seq<real>, i: nat, j: nat, best: Best): Best
    requires i <= j <= |arr|
    decreases |arr| - j
  {
    if j == |arr| then best
    else BruteRow(arr, i, j + 1, Consider(best, Prod(arr, i, j), i, j))
  }

  /** The outer loop of `max_prod_brute_force`, from start i on. */
  ghost function BruteRows(arr: seq<real>, i: nat, best: Best): Best
    requires i <= |arr|
    decreases |arr| - i
  {
    if i == |arr| then best else BruteRows(arr, i + 1, BruteRow(arr, i, i, best))
  }

  ghost function BruteForce(arr: seq<real>): (nat, nat) {
    BruteRows(arr, 0, Best(0.0, (0, 0))).span
  }

  /** The inner loop of `max_prod_brute_force_improved` for start i: p is the
      running product of arr[i..j - 1]. */
  ghost function ImprovedRow(arr: seq<real>, i: nat, j: nat, p: real, best: Best): Best
    requires i <= j <= |arr|
    decreases |arr| - j
  {
    if j == |arr| then best
    else
      var p' := p * arr[j];
      ImprovedRow(arr, i, j + 1, p', Consider(best, p', i, j))
  }

  ghost function ImprovedRows(arr: seq<real>, i: nat, best: Best): Best
    requires i <= |arr|
    decreases |arr| - i
  {
    if i == |arr| then best else ImprovedRows(arr, i + 1, ImprovedRow(arr, i, i, 1.0, best))
  }

  ghost function BruteForceImproved(arr: seq<real>): (nat, nat) {
    ImprovedRows(arr, 0, Best(0.0, (0, 0))).span
  }

  /** Range (i, j) is visited before range (s, e). */
  predicate Before(i: nat, j: nat, s: nat, e: nat) {
    i < s || (i == s && j < e)
  }

  /** (s, e) is a range of maximal product, and every range visited before it
      has a strictly smaller product. */
  ghost predicate IsFirstMax(arr: seq<real>, s: nat, e: nat) {
    && s <= e < |arr|
    && (forall i: nat, j: nat :: i <= j < |arr| ==> Prod(arr, i, j) <= Prod(arr, s, e))
    && (forall i: nat, j: nat :: i <= j < |arr| && Before(i, j, s, e) ==> Prod(arr, i, j) < Prod(arr, s, e))
  }

  /** `best` is what a search holds once it has visited exactly the ranges
      before (i0, j0): an upper bound of their products that is either zero at
      (0, 0) or the first of them to reach it. */
  ghost predicate Summarizes(arr: seq<real>, i0: nat, j0: nat, best: Best) {
    && best.prod >= 0.0
    && (forall i: nat, j: nat :: i <= j < |arr| && Before(i, j, i0, j0) ==> Prod(arr, i, j) <= best.prod)
    && (best.prod == 0.0 ==> best.span == (0, 0))
    && (best.prod > 0.0 ==>
          && best.span.0 <= best.span.1 < |arr|
          && Prod(arr, best.span.0, best.span.1) == best.prod
          && forall i: nat, j: nat :: i <= j < |arr| && Before(i, j, best.span.0, best.span.1) ==> Prod(arr, i, j) < best.prod)
  }

  /** The cheap search computes exactly what the cubic one computes: its
      running product over arr[i..j - 1] is the recomputed product. */
  lemma {:induction false} ImprovedRowIsBruteRow(arr: seq<real>, i: nat, j: nat, p: real, best: Best)
    requires i <= j <= |arr|
    requires p == Prod(arr, i, j - 1)
    ensures ImprovedRow(arr, i, j, p, best) == BruteRow(arr, i, j, best)
    decreases |arr| - j
  {
    if j < |arr| {
      var p' := p * arr[j];
      assert p' == Prod(arr, i, j);
      ImprovedRowIsBruteRow(arr, i, j + 1, p', Consider(best, p', i, j));
    }
  }

  lemma {:induction false} ImprovedRowsIsBruteRows(arr: seq<real>, i: nat, best: Best)
    requires i <= |arr|
    ensures ImprovedRows(arr, i, best) == BruteRows(arr, i, best)
    decreases |arr| - i
  {
    if i < |arr| {
      ImprovedRowIsBruteRow(arr, i, i, 1.0, best);
      ImprovedRowsIsBruteRows(arr, i + 1, BruteRow(arr, i, i, best));
    }
  }

  /** Both searches return the same range on every input. */
  lemma {:induction false} OraclesAgree(arr: seq<real>)
    ensures BruteForceImproved(arr) == BruteForce(arr)
  {
    ImprovedRowsIsBruteRows(arr, 0, Best(0.0, (0, 0)));
  }

  lemma {:induction false} ConsiderSummarizes(arr: seq<real>, i0: nat, j0: nat, best: Best)
    requires i0 <= j0 < |arr|
    requires Summarizes(arr, i0, j0, best)
    ensures Summarizes(arr, i0, j0 + 1, Consider(best, Prod(arr, i0, j0), i0, j0))
  {
  }

  lemma {:induction false} BruteRowSummarizes(arr: seq<real>, i: nat, j: nat, best: Best)
    requires i <= j <= |arr|
    requires Summarizes(arr, i, j, best)
    ensures Summarizes(arr, i + 1, i + 1, BruteRow(arr, i, j, best))
    decreases |arr| - j
  {
    if j < |arr| {
      ConsiderSummarizes(arr, i, j, best);
      BruteRowSummarizes(arr, i, j + 1, Consider(best, Prod(arr, i, j), i, j));
    }
  }

  lemma {:induction false} BruteRowsSummarizes(arr: seq<real>, i: nat, best: Best)
    requires i <= |arr|
    requires Summarizes(arr, i, i, best)
    ensures Summarizes(arr, |arr|, |arr|, BruteRows(arr, i, best))
    decreases |arr| - i
  {
    if i < |arr| {
      BruteRowSummarizes(arr, i, i, best);
      BruteRowsSummarizes(arr, i + 1, BruteRow(arr, i, i, best));
    }
  }

  /** On a non-empty input of non-negative elements, `max_prod_brute_force`
      returns the first range of maximal product. */
  lemma {:induction false} BruteForceIsFirstMax(arr: seq<real>)
    requires |arr| > 0 && NonNegative(arr)
    ensures IsFirstMax(arr, BruteForce(arr).0, BruteForce(arr).1)
  {
    var best := BruteRows(arr, 0, Best(0.0, (0, 0)));
    BruteRowsSummarizes(arr, 0, Best(0.0, (0, 0)));
    if best.prod == 0.0 {
      ProdSingle(arr, 0);
    }
  }

  /** At most one range is a first maximum. */
  lemma {:induction false} FirstMaxUnique(arr: seq<real>, s: nat, e: nat, s': nat, e': nat)
    requires IsFirstMax(arr, s, e) && IsFirstMax(arr, s', e')
    ensures s == s' && e == e'
  {
    var p, p' := Prod(arr, s, e), Prod(arr, s', e');
    assert Before(s, e, s', e') ==> p < p';
    assert Before(s', e', s, e) ==> p' < p;
  }

  /** Any first maximum is the range both searches return. */
  lemma {:induction false} FirstMaxIsOracle(arr: seq<real>, s: nat, e: nat)
    requires NonNegative(arr)
    requires IsFirstMax(arr, s, e)
    ensures (s, e) == BruteForce(arr) && (s, e) == BruteForceImproved(arr)
  {
    BruteForceIsFirstMax(arr);
    FirstMaxUnique(arr, s, e, BruteForce(arr).0, BruteForce(arr).1);
    OraclesAgree(arr);
  }

  /** A running maximum whose range does not run backwards. */
  predicate Ordered(best: Best) {
    best.span.0 <= best.span.1
  }

  lemma {:induction false} BruteRowOrdered(arr: seq<real>, i: nat, j: nat, best: Best)
    requires i <= j <= |arr| && Ordered(best)
    ensures Ordered(BruteRow(arr, i, j, best))
    decreases |arr| - j
  {
    if j < |arr| {
      BruteRowOrdered(arr, i, j + 1, Consider(best, Prod(arr, i, j), i, j));
    }
  }

  lemma {:induction false} BruteRowsOrdered(arr: seq<real>, i: nat, best: Best)
    requires i <= |arr| && Ordered(best)
    ensures Ordered(BruteRows(arr, i, best))
    decreases |arr| - i
  {
    if i < |arr| {
      BruteRowOrdered(arr, i, i, best);
      BruteRowsOrdered(arr, i + 1, BruteRow(arr, i, i, best));
    }
  }

  /** The closing check of both searches: on every input, whatever the signs
      of its elements, the returned start does not exceed the returned end. */
  lemma {:induction false} SearchesReturnOrderedRange(arr: seq<real>)
    ensures BruteForce(arr).0 <= BruteForce(arr).1
    ensures BruteForceImproved(arr).0 <= BruteForceImproved(arr).1
  {
    BruteRowsOrdered(arr, 0, Best(0.0, (0, 0)));
    OraclesAgree(arr);
  }

  /** On the empty input both searches return (0, 0) untouched. */
  lemma {:induction false} OraclesOnEmpty(arr: seq<real>)
    requires |arr| == 0
    ensures BruteForce(arr) == (0, 0) && BruteForceImproved(arr) == (0, 0)
  {
  }
}
