/** Products of contiguous ranges of a sequence of reals: the `prod` helper of
    the program at its floating-point instance, with exact `real` arithmetic,
    and the monotonicity facts the real-valued algorithms rely on. */
module RealProduct {

  /** The domain of the real-valued path: no element is negative. */
  ghost predicate NonNegative(arr: seq<real>) {
    forall k :: 0 <= k < |arr| ==> arr[k] >= 0.0
  }

  /** Product of arr[i], ..., arr[j], multiplied left to right starting from
      one. The empty range (j == i - 1) has product one. The last factor is
      taken in `TimesLast`, so that opening a product exposes no
      multiplication until `ProdLast` is called. */
  ghost function Prod(arr: seq<real>, i: nat, j: int): real
    requires i <= j + 1 <= |arr|
    decreases j + 1 - i, 1
  {
    if j < i then 1.0 else TimesLast(arr, i, j)
  }

  /** The product of arr[i..j - 1] times arr[j]. */
  ghost function TimesLast(arr: seq<real>, i: nat, j: nat): real
    requires i <= j < |arr|
    decreases j + 1 - i, 0
  {
    Prod(arr, i, j - 1) * arr[j]
  }

  /** A non-empty range product is the product of the range without its last
      element, times that element. */
  lemma {:induction false} ProdLast(arr: seq<real>, i: nat, j: nat)
    requires i <= j < |arr|
    ensures Prod(arr, i, j) == Prod(arr, i, j - 1) * arr[j]
  {
    assert Prod(arr, i, j) == TimesLast(arr, i, j);
  }

  /** A one-element range has that element as its product. */
  lemma {:induction false} ProdSingle(arr: seq<real>, k: nat)
    requires k < |arr|
    ensures Prod(arr, k, k) == arr[k]
  {
    ProdLast(arr, k, k);
  }

  /** A range product is the product of the products of any two halves. */
  lemma {:induction false} ProdSplit(arr: seq<real>, i: nat, k: int, j: int)
    requires i <= k + 1 <= j + 1 <= |arr|
    ensures Prod(arr, i, j) == Prod(arr, i, k) * Prod(arr, k + 1, j)
    decreases j - k
  {
    if j > k {
      ProdSplit(arr, i, k, j - 1);
      ProdLast(arr, i, j);
      ProdLast(arr, k + 1, j);
      Regroup(Prod(arr, i, j), Prod(arr, i, j - 1), Prod(arr, i, k), Prod(arr, k + 1, j - 1),
              Prod(arr, k + 1, j), arr[j]);
    } else {
      MulOne(Prod(arr, i, k), Prod(arr, k + 1, j));
    }
  }

  lemma {:induction false} ProdNonNegative(arr: seq<real>, i: nat, j: int)
    requires NonNegative(arr)
    requires i <= j + 1 <= |arr|
    ensures Prod(arr, i, j) >= 0.0
    decreases j + 1 - i
  {
    if j >= i {
      ProdNonNegative(arr, i, j - 1);
    }
  }

  /** A range of elements that are all at least one has product at least one. */
  lemma {:induction false} ProdAtLeastOne(arr: seq<real>, i: nat, j: int)
    requires i <= j + 1 <= |arr|
    requires forall k :: i <= k <= j ==> arr[k] >= 1.0
    ensures Prod(arr, i, j) >= 1.0
    decreases j + 1 - i
  {
    if j >= i {
      ProdAtLeastOne(arr, i, j - 1);
      MulAtLeastOne(Prod(arr, i, j - 1), arr[j]);
    }
  }

  /** A non-empty range of elements that are all above one has product above one. */
  lemma {:induction false} ProdAboveOne(arr: seq<real>, i: nat, j: nat)
    requires i <= j < |arr|
    requires forall k :: i <= k <= j ==> arr[k] > 1.0
    ensures Prod(arr, i, j) > 1.0
  {
    ProdAtLeastOne(arr, i, j - 1);
    MulAboveOne(Prod(arr, i, j - 1), arr[j]);
  }

  /** A range of elements in [0, 1] has product in [0, 1]. */
  lemma {:induction false} ProdAtMostOne(arr: seq<real>, i: nat, j: int)
    requires i <= j + 1 <= |arr|
    requires forall k :: i <= k <= j ==> 0.0 <= arr[k] <= 1.0
    ensures 0.0 <= Prod(arr, i, j) <= 1.0
    decreases j + 1 - i
  {
    if j >= i {
      ProdAtMostOne(arr, i, j - 1);
      MulAtMostOne(Prod(arr, i, j - 1), arr[j]);
    }
  }

  /** A non-empty range of elements in [0, 1) has product below one. */
  lemma {:induction false} ProdBelowOne(arr: seq<real>, i: nat, j: nat)
    requires i <= j < |arr|
    requires forall k :: i <= k <= j ==> 0.0 <= arr[k] < 1.0
    ensures 0.0 <= Prod(arr, i, j) < 1.0
  {
    ProdAtMostOne(arr, i, j - 1);
    var head := Prod(arr, i, j - 1);
    assert Prod(arr, i, j) == head * arr[j];
    MulShrinks(arr[j], head, Prod(arr, i, j));
  }

  /** Extending a range to the right over elements that are at least one
      never lowers its product. */
  lemma {:induction false} ExtendRightGrows(arr: seq<real>, i: nat, j: int, j': int)
    requires NonNegative(arr)
    requires i <= j + 1 <= j' + 1 <= |arr|
    requires forall k :: j < k <= j' ==> arr[k] >= 1.0
    ensures Prod(arr, i, j) <= Prod(arr, i, j')
  {
    ProdNonNegative(arr, i, j);
    ProdAtLeastOne(arr, j + 1, j');
    ProdSplit(arr, i, j, j');
    MulGrows(Prod(arr, i, j), Prod(arr, j + 1, j'), Prod(arr, i, j'));
  }

  /** Extending a range to the right over elements in [0, 1] never raises
      its product. */
  lemma {:induction false} ExtendRightShrinks(arr: seq<real>, i: nat, j: int, j': int)
    requires NonNegative(arr)
    requires i <= j + 1 <= j' + 1 <= |arr|
    requires forall k :: j < k <= j' ==> arr[k] <= 1.0
    ensures Prod(arr, i, j') <= Prod(arr, i, j)
  {
    ProdSplit(arr, i, j, j');
    ProdNonNegative(arr, i, j);
    ProdAtMostOne(arr, j + 1, j');
    MulShrinks(Prod(arr, i, j), Prod(arr, j + 1, j'), Prod(arr, i, j'));
  }

  /** Moving the start of a range to the left over elements that are at least
      one never lowers its product. */
  lemma {:induction false} ExtendLeftGrows(arr: seq<real>, s: nat, i: nat, j: int)
    requires NonNegative(arr)
    requires s <= i <= j + 1 <= |arr|
    requires forall k :: s <= k < i ==> arr[k] >= 1.0
    ensures Prod(arr, i, j) <= Prod(arr, s, j)
  {
    ProdSplit(arr, s, i - 1, j);
    ProdAtLeastOne(arr, s, i - 1);
    ProdNonNegative(arr, i, j);
    MulGrowsLeft(Prod(arr, i, j), Prod(arr, s, i - 1), Prod(arr, s, j));
  }

  /** Moving the start of a range to the left over elements in [0, 1] never
      raises its product. */
  lemma {:induction false} ExtendLeftShrinks(arr: seq<real>, s: nat, i: nat, j: int)
    requires NonNegative(arr)
    requires s <= i <= j + 1 <= |arr|
    requires forall k :: s <= k < i ==> arr[k] <= 1.0
    ensures Prod(arr, s, j) <= Prod(arr, i, j)
  {
    ProdSplit(arr, s, i - 1, j);
    ProdNonNegative(arr, i, j);
    ProdAtMostOne(arr, s, i - 1);
    MulShrinksLeft(Prod(arr, i, j), Prod(arr, s, i - 1), Prod(arr, s, j));
  }

  lemma {:induction false} MulAtLeastOne(x: real, y: real)
    requires x >= 1.0 && y >= 1.0
    ensures x * y >= 1.0
  {
  }

  lemma {:induction false} MulAboveOne(x: real, y: real)
    requires x >= 1.0 && y > 1.0
    ensures x * y > 1.0
  {
  }

  lemma {:induction false} MulAtMostOne(x: real, y: real)
    requires 0.0 <= x <= 1.0 && 0.0 <= y <= 1.0
    ensures 0.0 <= x * y <= 1.0
  {
    MulNonNegative(x, y);
    MulShrinks(x, y, x * y);
  }

  lemma {:induction false} MulNonNegative(x: real, y: real)
    requires x >= 0.0 && y >= 0.0
    ensures x * y >= 0.0
  {
  }

  lemma {:induction false} Regroup(whole: real, prefix: real, left: real, middle: real, right: real, last: real)
    requires prefix == left * middle && whole == prefix * last && right == middle * last
    ensures whole == left * right
  {
  }

  lemma {:induction false} MulOne(x: real, y: real)
    requires y == 1.0
    ensures x * y == x
  {
  }

  lemma {:induction false} MulGrows(x: real, y: real, xy: real)
    requires x >= 0.0 && y >= 1.0 && xy == x * y
    ensures x <= xy
  {
  }

  lemma {:induction false} MulGrowsLeft(x: real, y: real, yx: real)
    requires x >= 0.0 && y >= 1.0 && yx == y * x
    ensures x <= yx
  {
  }

  lemma {:induction false} MulShrinksLeft(x: real, y: real, yx: real)
    requires x >= 0.0 && 0.0 <= y <= 1.0 && yx == y * x
    ensures yx <= x
  {
  }

  lemma {:induction false} MulShrinks(x: real, y: real, xy: real)
    requires x >= 0.0 && 0.0 <= y <= 1.0 && xy == x * y
    ensures xy <= x
  {
  }
}
