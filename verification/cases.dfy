/** The fixed cases of the program's tests, stated on the brute-force
    searches; the scan and the reducer inherit them through their contracts. */
module Cases {
  import opened NatProduct
  import RealProduct
  import Oracle
  import Compress
  import Reduce

  /** The searches on one integer input, in both forms. */
  ghost predicate Returns(arr: seq<nat>, r: (nat, nat)) {
    Oracle.BruteForce(AsReals(arr)) == r && Oracle.BruteForceImproved(AsReals(arr)) == r
  }

  /** [1, 2, 3, 4]: the whole input. */
  lemma {:induction false} IncreasingCase()
    ensures Returns([1, 2, 3, 4], (0, 3))
  {
    assert AsReals([1, 2, 3, 4]) == [1.0, 2.0, 3.0, 4.0];
    Oracle.OraclesAgree([1.0, 2.0, 3.0, 4.0]);
  }

  /** [0, 2, 3, 4]: the run after the leading zero. */
  lemma {:induction false} LeadingZeroCase()
    ensures Returns([0, 2, 3, 4], (1, 3))
  {
    assert AsReals([0, 2, 3, 4]) == [0.0, 2.0, 3.0, 4.0];
    Oracle.OraclesAgree([0.0, 2.0, 3.0, 4.0]);
  }

  /** [0, 1, 0, 0] and [0, 1, 0, 1]: of two ranges with product one, the first. */
  lemma {:induction false} OnesCases()
    ensures Returns([0, 1, 0, 0], (1, 1))
    ensures Returns([0, 1, 0, 1], (1, 1))
  {
    assert AsReals([0, 1, 0, 0]) == [0.0, 1.0, 0.0, 0.0];
    Oracle.OraclesAgree([0.0, 1.0, 0.0, 0.0]);
    assert AsReals([0, 1, 0, 1]) == [0.0, 1.0, 0.0, 1.0];
    Oracle.OraclesAgree([0.0, 1.0, 0.0, 1.0]);
  }

  /** [0, 1, 0, 7, 0, 3]: the largest single element between zeros. */
  lemma {:induction false} ZeroSeparatedCase()
    ensures Returns([0, 1, 0, 7, 0, 3], (3, 3))
  {
    assert AsReals([0, 1, 0, 7, 0, 3]) == [0.0, 1.0, 0.0, 7.0, 0.0, 3.0];
    ZeroSeparatedSearch();
    Oracle.OraclesAgree([0.0, 1.0, 0.0, 7.0, 0.0, 3.0]);
  }

  lemma {:induction false} ZeroSeparatedSearch()
    ensures Oracle.BruteForceImproved([0.0, 1.0, 0.0, 7.0, 0.0, 3.0]) == (3, 3)
  {
  }

  /** [4]: the only range. */
  lemma {:induction false} SingletonCase()
    ensures Returns([4], (0, 0))
  {
    assert AsReals([4]) == [4.0];
    Oracle.OraclesAgree([4.0]);
  }

  /** An all-zero input of any length: no range beats zero, so both searches
      keep (0, 0). */
  lemma {:induction false} AllZeroCase(arr: seq<nat>)
    requires forall k :: 0 <= k < |arr| ==> arr[k] == 0
    ensures Returns(arr, (0, 0))
  {
    AsRealsNonNegative(arr);
    if |arr| == 0 {
      Oracle.OraclesOnEmpty(AsReals(arr));
    } else {
      forall i: nat, j: nat | i <= j < |arr|
        ensures RealProduct.Prod(AsReals(arr), i, j) == 0.0
      {
        ProdWithZero(arr, i, i, j);
        ProdAsReals(arr, i, j);
      }
      Oracle.FirstMaxIsOracle(AsReals(arr), 0, 0);
    }
  }

  /** [2, 0.5, 2, 0.5, 4]: the ranges (0, 4) and (2, 4) tie at the maximal
      product 4, and the searches return the earlier one. A range of maximal
      product is therefore not always the searches' range. */
  lemma {:induction false} TieCase()
    ensures Oracle.BruteForce([2.0, 0.5, 2.0, 0.5, 4.0]) == (0, 4)
    ensures Oracle.BruteForceImproved([2.0, 0.5, 2.0, 0.5, 4.0]) == (0, 4)
    ensures RealProduct.Prod([2.0, 0.5, 2.0, 0.5, 4.0], 2, 4) == RealProduct.Prod([2.0, 0.5, 2.0, 0.5, 4.0], 0, 4)
  {
    TieSearch();
    Oracle.OraclesAgree([2.0, 0.5, 2.0, 0.5, 4.0]);
    TieProducts();
  }

  lemma {:induction false} TieSearch()
    ensures Oracle.BruteForceImproved([2.0, 0.5, 2.0, 0.5, 4.0]) == (0, 4)
  {
  }

  lemma {:induction false} TieProducts()
    ensures RealProduct.Prod([2.0, 0.5, 2.0, 0.5, 4.0], 2, 4) == 4.0
    ensures RealProduct.Prod([2.0, 0.5, 2.0, 0.5, 4.0], 0, 4) == 4.0
  {
  }

  /** The run list of the tie input: every element is a run of its own. */
  lemma {:induction false} TieRuns()
    ensures Compress.WellFormed([2.0, 0.5, 2.0, 0.5, 4.0],
                                [Compress.Run(2.0, 0, 0), Compress.Run(0.5, 1, 1), Compress.Run(2.0, 2, 2),
                                 Compress.Run(0.5, 3, 3), Compress.Run(4.0, 4, 4)])
  {
    var arr := [2.0, 0.5, 2.0, 0.5, 4.0];
    forall k | 0 <= k < 5
      ensures RealProduct.Prod(arr, k, k) == arr[k]
    {
      RealProduct.ProdSingle(arr, k);
    }
  }

  /** The two steps of the reducer on the tie runs. */
  lemma {:induction false} TieFold()
    ensures Reduce.Reduced([Compress.Run(2.0, 0, 0), Compress.Run(0.5, 1, 1), Compress.Run(2.0, 2, 2),
                            Compress.Run(0.5, 3, 3), Compress.Run(4.0, 4, 4)]) == (2, 4)
  {
    var runs := [Compress.Run(2.0, 0, 0), Compress.Run(0.5, 1, 1), Compress.Run(2.0, 2, 2),
                 Compress.Run(0.5, 3, 3), Compress.Run(4.0, 4, 4)];
    var once := [Compress.Run(2.0, 0, 0), Compress.Run(0.5, 1, 1), Compress.Run(4.0, 2, 4)];
    assert runs[..2] + [Compress.Run(4.0, 2, 4)] == once;
    assert Reduce.Fold(runs, runs[0]) == Reduce.Fold(once, Compress.Run(4.0, 2, 4));
    assert once[..0] + [Compress.Run(4.0, 0, 4)] == [Compress.Run(4.0, 0, 4)];
    assert Reduce.Fold(once, Compress.Run(4.0, 2, 4)) == Reduce.Fold([Compress.Run(4.0, 0, 4)], Compress.Run(4.0, 2, 4));
  }

  /** On the tie input the reducer returns (2, 4): the first step merges
      2, 0.5 and 4 into (4, 2, 4), and the second merges 2, 0.5 and that run
      into (4, 0, 4), which is not strictly larger and so does not replace
      (2, 4) as the running maximum. The searches return (0, 4), so the
      reducer and the improved search disagree on this input although both
      ranges have the maximal product. */
  method TieReducer() returns (r: (nat, nat))
    ensures r == (2, 4)
    ensures r != Oracle.BruteForceImproved([2.0, 0.5, 2.0, 0.5, 4.0])
    ensures RealProduct.Prod([2.0, 0.5, 2.0, 0.5, 4.0], r.0, r.1)
            == RealProduct.Prod([2.0, 0.5, 2.0, 0.5, 4.0], 0, 4)
  {
    var arr := [2.0, 0.5, 2.0, 0.5, 4.0];
    r := Reduce.MaxProdFastReal(arr);
    ghost var runs := [Compress.Run(2.0, 0, 0), Compress.Run(0.5, 1, 1), Compress.Run(2.0, 2, 2),
                       Compress.Run(0.5, 3, 3), Compress.Run(4.0, 4, 4)];
    assert arr[0] >= 1.0;
    TieRuns();
    TieFold();
    assert r == Reduce.Reduced(runs);
    TieCase();
  }
}
