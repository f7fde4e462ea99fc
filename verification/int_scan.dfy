/** `max_prod_fast_int`: the zero-segmented scan over unsigned integers.

    One left-to-right pass keeps the product of the zero-free run that ends at
    the current index. A zero ends the run; the next non-zero element starts a
    new one. The best range is replaced only on a strictly larger product, so
    ties keep the range found first. The scan returns the same range as both
    brute-force searches. */
module IntScan {
  import opened NatProduct
  import RealProduct
  import Oracle

  /** The scan state after reading arr[..n]: with a non-zero product,
      `current` is the zero-free run ending at n - 1 that starts right after a
      zero (or at index 0), and the product is that run's product; a zero
      product means arr[n - 1] was zero and `current` is (n - 1, n - 1). */
  ghost predicate RunState(arr: seq<nat>, n: nat, current: (nat, nat), currentProd: nat)
    requires n <= |arr|
  {
    && (currentProd == 0 ==> n == 0 || (arr[n - 1] == 0 && current == (n - 1, n - 1)))
    && (currentProd > 0 ==>
          && 0 < n
          && current.0 <= current.1 == n - 1
          && (current.0 == 0 || arr[current.0 - 1] == 0)
          && (forall k :: current.0 <= k < n ==> arr[k] > 0)
          && currentProd == Prod(arr, current.0, current.1))
  }

  /** (maxProd, max) is the first range of maximal product among the ranges
      that end before n, or zero at (0, 0) when all of their products are zero. */
  ghost predicate ScanBest(arr: seq<nat>, n: nat, maxProd: nat, max: (nat, nat))
    requires n <= |arr|
  {
    && (forall i: nat, j: nat :: i <= j < n ==> Prod(arr, i, j) <= maxProd)
    && (maxProd == 0 ==> max == (0, 0))
    && (maxProd > 0 ==>
          && max.0 <= max.1 < n
          && Prod(arr, max.0, max.1) == maxProd
          && forall i: nat, j: nat :: i <= j < n && Oracle.Before(i, j, max.0, max.1) ==> Prod(arr, i, j) < maxProd)
  }

  /** Among the ranges ending at the last index read, the current run has the
      largest product, and every range starting before the run (or every range
      at all, after a zero) has product zero. */
  lemma {:induction false} RunDominates(arr: seq<nat>, last: nat, current: (nat, nat), currentProd: nat)
    requires last < |arr|
    requires RunState(arr, last + 1, current, currentProd)
    ensures forall x: nat :: x <= last ==> Prod(arr, x, last) <= currentProd
    ensures forall x: nat :: x <= last && (currentProd == 0 || x < current.0) ==> Prod(arr, x, last) == 0
  {
    forall x: nat | x <= last
      ensures Prod(arr, x, last) <= currentProd
      ensures currentProd == 0 || x < current.0 ==> Prod(arr, x, last) == 0
    {
      if currentProd == 0 {
        ProdWithZero(arr, x, last, last);
      } else if x < current.0 {
        ProdWithZero(arr, x, current.0 - 1, last);
      } else {
        RunStartDominates(arr, current.0, x, last);
      }
    }
  }

  /** A best range found earlier never starts inside the current run: the run
      start would give an earlier range at least as good. */
  lemma {:induction false} BestStartsNoLaterThanRun(arr: seq<nat>, n: nat, current: (nat, nat), currentProd: nat,
                                 maxProd: nat, max: (nat, nat))
    requires 0 < n <= |arr|
    requires RunState(arr, n, current, currentProd) && currentProd > 0
    requires ScanBest(arr, n - 1, maxProd, max) && maxProd > 0
    ensures max.0 <= current.0
  {
    if max.0 > current.0 {
      RunStartDominates(arr, current.0, max.0, max.1);
      assert false;
    }
  }

  /** Reading arr[n - 1] and comparing the current run with the best range
      keeps the best range a first maximum of all ranges ending before n. */
  lemma {:induction false} ScanStep(arr: seq<nat>, n: nat, current: (nat, nat), currentProd: nat, maxProd: nat, max: (nat, nat))
    requires 0 < n <= |arr|
    requires RunState(arr, n, current, currentProd)
    requires ScanBest(arr, n - 1, maxProd, max)
    ensures currentProd > maxProd ==> ScanBest(arr, n, currentProd, current)
    ensures currentProd <= maxProd ==> ScanBest(arr, n, maxProd, max)
  {
    RunDominates(arr, n - 1, current, currentProd);
    if currentProd <= maxProd && maxProd > 0 && currentProd > 0 {
      BestStartsNoLaterThanRun(arr, n, current, currentProd, maxProd, max);
    }
  }

  /** A best range over all ranges is a first maximum of the whole input. */
  lemma {:induction false} ScanBestIsFirstMax(arr: seq<nat>, maxProd: nat, max: (nat, nat))
    requires |arr| > 0
    requires ScanBest(arr, |arr|, maxProd, max)
    ensures Oracle.IsFirstMax(AsReals(arr), max.0, max.1)
  {
    forall i: nat, j: nat | i <= j < |arr|
      ensures RealProduct.Prod(AsReals(arr), i, j) == Prod(arr, i, j) as real
    {
      ProdAsReals(arr, i, j);
    }
    assert Prod(arr, 0, 0) == arr[0];
  }

  /** The zero-segmented scan. Returns the first range of maximal product,
      which is exactly what both brute-force searches return. */
  method MaxProdFastInt(arr: seq<nat>) returns (max: (nat, nat))
    ensures |arr| == 0 ==> max == (0, 0)
    ensures |arr| > 0 ==> max.0 <= max.1 < |arr| && Oracle.IsFirstMax(AsReals(arr), max.0, max.1)
    ensures max == Oracle.BruteForce(AsReals(arr)) && max == Oracle.BruteForceImproved(AsReals(arr))
  {
    var maxProd: nat := 0;
    max := (0, 0);
    var n := |arr|;
    var current: (nat, nat) := (0, 0);
    var currentProd: nat := 0;

    for i := 0 to n
      invariant RunState(arr, i, current, currentProd)
      invariant ScanBest(arr, i, maxProd, max)
    {
      if arr[i] != 0 {
        if currentProd == 0 {
          currentProd := 1;
          current := (i, current.1);
        }
        currentProd := currentProd * arr[i];
        current := (current.0, i);
      } else {
        current := (i, i);
        currentProd := 0;
      }

      ScanStep(arr, i + 1, current, currentProd, maxProd, max);
      if currentProd > maxProd {
        max := current;
        maxProd := currentProd;
      }
    }

    AsRealsNonNegative(arr);
    if n > 0 {
      ScanBestIsFirstMax(arr, maxProd, max);
      Oracle.FirstMaxIsOracle(AsReals(arr), max.0, max.1);
    } else {
      Oracle.OraclesOnEmpty(AsReals(arr));
    }
  }
}
