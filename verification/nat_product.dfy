/** Products of contiguous ranges of a sequence of unsigned integers: the
    `prod` helper of the program at its integer instance, with unbounded `nat`
    arithmetic, and the facts the zero-segmented scan relies on. */
module NatProduct {
  import RealProduct

  /** Product of arr[i], ..., arr[j], multiplied left to right starting from
      one. The empty range (j == i - 1) has product one. */
  ghost function Prod(arr: seq<nat>, i: nat, j: int): nat
    requires i <= j + 1 <= |arr|
    decreases j + 1 - i
  {
    if j < i then 1 else Prod(arr, i, j - 1) * arr[j]
  }

  /** A range product is the product of the products of any two halves. */
  lemma {:induction false} ProdSplit(arr: seq<nat>, i: nat, k: int, j: int)
    requires i <= k + 1 <= j + 1 <= |arr|
    ensures Prod(arr, i, j) == Prod(arr, i, k) * Prod(arr, k + 1, j)
    decreases j - k
  {
    if j > k {
      ProdSplit(arr, i, k, j - 1);
      Regroup(Prod(arr, i, j), Prod(arr, i, j - 1), Prod(arr, i, k), Prod(arr, k + 1, j - 1),
              Prod(arr, k + 1, j), arr[j]);
    } else {
      assert Prod(arr, k + 1, j) == 1;
    }
  }

  /** A zero anywhere in a range makes its product zero. */
  lemma {:induction false} ProdWithZero(arr: seq<nat>, i: nat, z: nat, j: nat)
    requires i <= z <= j < |arr|
    requires arr[z] == 0
    ensures Prod(arr, i, j) == 0
    decreases j - z
  {
    if j > z {
      ProdWithZero(arr, i, z, j - 1);
    }
  }

  /** A zero-free range has product at least one. */
  lemma {:induction false} ProdZeroFree(arr: seq<nat>, i: nat, j: int)
    requires i <= j + 1 <= |arr|
    requires forall k :: i <= k <= j ==> arr[k] > 0
    ensures Prod(arr, i, j) >= 1
    decreases j + 1 - i
  {
    if j >= i {
      ProdZeroFree(arr, i, j - 1);
      MulPositive(Prod(arr, i, j - 1), arr[j], Prod(arr, i, j));
    }
  }

  /** Within a zero-free run the running product never decreases as the run
      is extended to the right. */
  lemma {:induction false} RunPrefixGrows(arr: seq<nat>, i: nat, j: int, j': int)
    requires i <= j + 1 <= j' + 1 <= |arr|
    requires forall k :: j < k <= j' ==> arr[k] > 0
    ensures Prod(arr, i, j) <= Prod(arr, i, j')
  {
    ProdZeroFree(arr, j + 1, j');
    ProdSplit(arr, i, j, j');
    MulGrows(Prod(arr, i, j), Prod(arr, j + 1, j'), Prod(arr, i, j'));
  }

  /** Within a zero-free run, starting a range earlier never lowers its product. */
  lemma {:induction false} RunStartDominates(arr: seq<nat>, s: nat, i: nat, j: int)
    requires s <= i <= j + 1 <= |arr|
    requires forall k :: s <= k < i ==> arr[k] > 0
    ensures Prod(arr, i, j) <= Prod(arr, s, j)
  {
    ProdZeroFree(arr, s, i - 1);
    ProdSplit(arr, s, i - 1, j);
    MulGrowsLeft(Prod(arr, i, j), Prod(arr, s, i - 1), Prod(arr, s, j));
  }

  /** The same sequence read as reals, the domain over which the brute-force
      searches are stated once for both instances. */
  function AsReals(arr: seq<nat>): seq<real> {
    seq(|arr|, k requires 0 <= k < |arr| => arr[k] as real)
  }

  /** Reading the elements as reals does not change any range product. */
  lemma {:induction false} ProdAsReals(arr: seq<nat>, i: nat, j: int)
    requires i <= j + 1 <= |arr|
    ensures RealProduct.Prod(AsReals(arr), i, j) == Prod(arr, i, j) as real
    decreases j + 1 - i
  {
    if j >= i {
      ProdAsReals(arr, i, j - 1);
      CastMul(Prod(arr, i, j - 1), arr[j], Prod(arr, i, j));
    }
  }

  lemma {:induction false} AsRealsNonNegative(arr: seq<nat>)
    ensures RealProduct.NonNegative(AsReals(arr))
  {
  }

  lemma {:induction false} Regroup(whole: nat, prefix: nat, left: nat, middle: nat, right: nat, last: nat)
    requires prefix == left * middle && whole == prefix * last && right == middle * last
    ensures whole == left * right
  {
  }

  lemma {:induction false} MulPositive(x: nat, y: nat, xy: nat)
    requires x >= 1 && y >= 1 && xy == x * y
    ensures xy >= 1
  {
  }

  lemma {:induction false} MulGrows(x: nat, y: nat, xy: nat)
    requires y >= 1 && xy == x * y
    ensures x <= xy
  {
  }

  lemma {:induction false} MulGrowsLeft(x: nat, y: nat, yx: nat)
    requires y >= 1 && yx == y * x
    ensures x <= yx
  {
  }

  lemma {:induction false} CastMul(x: nat, y: nat, xy: nat)
    requires xy == x * y
    ensures xy as real == (x as real) * (y as real)
  {
  }
}
