/** `compress_dual`: the run compressor of the real-valued path.

    It skips the leading elements below one, remembering the first largest of
    them. If nothing else is left, that single element is the whole answer.
    Otherwise it splits the rest of the input into maximal runs of elements
    above one and runs of elements below one, alternating and starting with
    an above-one run, each stored as (product, start, end). A trailing run is
    kept only if its product exceeds one, so a final below-one run is dropped.

    The model requires that no element is exactly 1.0: the code tests `< 1`
    while collecting below-one runs but `> 1` while collecting above-one runs,
    so an element equal to one ends whichever run is open. When it is the
    first element not below one, it closes an above-one run that holds no
    element yet (an inverted span, or an index underflow at position 0);
    elsewhere it can break the alternation, leaving an even-length list on
    which the reducer may miss the maximal range. */
module Compress {
  import opened RealProduct

  /** A run: the product of the elements of arr[start..end] and that span. */
  datatype Run = Run(prod: real, start: nat, end: nat)

  /** No element is exactly one. */
  ghost predicate NoExactOne(arr: seq<real>) {
    forall k :: 0 <= k < |arr| ==> arr[k] != 1.0
  }

  ghost predicate AllBelowOne(arr: seq<real>) {
    forall k :: 0 <= k < |arr| ==> arr[k] < 1.0
  }

  /** The run's span lies inside the input and its product is the product
      of that span. */
  ghost predicate Exact(arr: seq<real>, r: Run) {
    r.start <= r.end < |arr| && r.prod == Prod(arr, r.start, r.end)
  }

  ghost predicate UpRun(arr: seq<real>, r: Run)
    requires r.end < |arr|
  {
    forall k :: r.start <= k <= r.end ==> arr[k] > 1.0
  }

  ghost predicate DownRun(arr: seq<real>, r: Run)
    requires r.end < |arr|
  {
    forall k :: r.start <= k <= r.end ==> arr[k] < 1.0
  }

  /** Runs at even positions are above one, runs at odd positions below one. */
  ghost predicate Alternates(arr: seq<real>, runs: seq<Run>) {
    forall k :: 0 <= k < |runs| ==>
      Exact(arr, runs[k]) && if k % 2 == 0 then UpRun(arr, runs[k]) else DownRun(arr, runs[k])
  }

  /** Each run starts right after the previous one ends. */
  ghost predicate Adjacent(runs: seq<Run>) {
    forall k :: 0 < k < |runs| ==> runs[k].start == runs[k - 1].end + 1
  }

  /** The shape of the list when some element is at least one: an odd number
      of exact, adjacent, alternating runs whose first starts at the first
      element that is not below one, and after whose last every element is
      below one. */
  ghost predicate WellFormed(arr: seq<real>, runs: seq<Run>) {
    && |runs| % 2 == 1
    && Alternates(arr, runs)
    && Adjacent(runs)
    && (forall k :: 0 <= k < runs[0].start ==> arr[k] < 1.0)
    && (forall k :: runs[|runs| - 1].end < k < |arr| ==> arr[k] < 1.0)
  }

  /** The fallback when every element is below one: the single run (m, k, k)
      where m = arr[k] is the largest element and k its first index. */
  ghost predicate Fallback(arr: seq<real>, runs: seq<Run>) {
    && |runs| == 1
    && runs[0].start == runs[0].end < |arr|
    && runs[0].prod == arr[runs[0].start]
    && (forall k :: 0 <= k < |arr| ==> arr[k] <= runs[0].prod)
    && (forall k :: 0 <= k < runs[0].start ==> arr[k] < runs[0].prod)
  }

  /** Appending a run of the right kind right after the last run keeps the
      list alternating and adjacent. */
  lemma {:induction false} Push(arr: seq<real>, runs: seq<Run>, r: Run)
    requires Alternates(arr, runs) && Adjacent(runs)
    requires Exact(arr, r) && if |runs| % 2 == 0 then UpRun(arr, r) else DownRun(arr, r)
    requires |runs| > 0 ==> r.start == runs[|runs| - 1].end + 1
    ensures Alternates(arr, runs + [r]) && Adjacent(runs + [r])
  {
  }

  /** The last run of an odd-length alternating list is an above-one run, so
      its product exceeds one. */
  lemma {:induction false} LastRunAboveOne(arr: seq<real>, runs: seq<Run>)
    requires Alternates(arr, runs) && |runs| % 2 == 1
    ensures runs[|runs| - 1].prod > 1.0
  {
    var last := runs[|runs| - 1];
    assert Exact(arr, last) && UpRun(arr, last);
    ProdAboveOne(arr, last.start, last.end);
  }

  /** The first run of a well-formed list starts at the first element that
      is not below one, so two well-formed lists start at the same index. */
  lemma {:induction false} FirstStartsAgree(arr: seq<real>, r1: seq<Run>, r2: seq<Run>)
    requires WellFormed(arr, r1) && WellFormed(arr, r2)
    ensures r1[0].start == r2[0].start
  {
    var s1, s2 := r1[0].start, r2[0].start;
    assert Exact(arr, r1[0]) && UpRun(arr, r1[0]);
    assert Exact(arr, r2[0]) && UpRun(arr, r2[0]);
    assert arr[s1] > 1.0 && arr[s2] > 1.0;
  }

  /** Runs at the same position that start at the same index end at the same
      index: a run of r1 reaching past the end of r2's run would take in the
      element that opens r2's next run, which is of the other kind, or one of
      the below-one elements after r2's last run, which is above one. */
  lemma {:induction false} EndsAgree(arr: seq<real>, r1: seq<Run>, r2: seq<Run>, m: nat)
    requires WellFormed(arr, r1) && WellFormed(arr, r2)
    requires m < |r1| && m < |r2| && r1[m].start == r2[m].start
    ensures r1[m].end <= r2[m].end
  {
    if r2[m].end < r1[m].end {
      var p := r2[m].end + 1;
      KindAt(arr, r1, m, p);
      if m + 1 < |r2| {
        KindAt(arr, r2, m + 1, p);
        assert false;
      } else {
        assert false;
      }
    }
  }

  /** Inside the run at position m, an element is above one when m is even
      and below one when m is odd. */
  lemma {:induction false} KindAt(arr: seq<real>, runs: seq<Run>, m: nat, p: nat)
    requires WellFormed(arr, runs)
    requires m < |runs| && runs[m].start <= p <= runs[m].end
    ensures p < |arr|
    ensures m % 2 == 0 ==> arr[p] > 1.0
    ensures m % 2 == 1 ==> arr[p] < 1.0
  {
    assert Exact(arr, runs[m]) && if m % 2 == 0 then UpRun(arr, runs[m]) else DownRun(arr, runs[m]);
  }

  /** Two well-formed lists of the same input agree on their first k runs. */
  lemma {:induction false} PrefixesAgree(arr: seq<real>, r1: seq<Run>, r2: seq<Run>, k: nat)
    requires WellFormed(arr, r1) && WellFormed(arr, r2)
    requires k <= |r1| && k <= |r2|
    ensures r1[..k] == r2[..k]
    decreases k
  {
    if k > 0 {
      var m := k - 1;
      PrefixesAgree(arr, r1, r2, m);
      if m == 0 {
        FirstStartsAgree(arr, r1, r2);
      } else {
        assert r1[..m][m - 1] == r2[..m][m - 1];
      }
      EndsAgree(arr, r1, r2, m);
      EndsAgree(arr, r2, r1, m);
      assert Exact(arr, r1[m]) && Exact(arr, r2[m]);
      assert r1[..k] == r1[..m] + [r1[m]];
      assert r2[..k] == r2[..m] + [r2[m]];
    }
  }

  /** A well-formed list never stops short of another one: past its last
      run only below-one elements remain, while a longer list would have an
      above-one run there. */
  lemma {:induction false} LengthsAgree(arr: seq<real>, r1: seq<Run>, r2: seq<Run>)
    requires WellFormed(arr, r1) && WellFormed(arr, r2)
    ensures |r1| >= |r2|
  {
    if |r1| < |r2| {
      var m := |r1| - 1;
      PrefixesAgree(arr, r1, r2, |r1|);
      assert r1[m] == r1[..|r1|][m] == r2[..|r1|][m] == r2[m];
      KindAt(arr, r2, m + 1, r2[m + 1].start);
      KindAt(arr, r2, m + 2, r2[m + 2].start);
      assert false;
    }
  }

  /** The run list is determined by the input: two well-formed lists of the
      same input are equal. */
  lemma {:induction false} WellFormedUnique(arr: seq<real>, r1: seq<Run>, r2: seq<Run>)
    requires WellFormed(arr, r1) && WellFormed(arr, r2)
    ensures r1 == r2
  {
    LengthsAgree(arr, r1, r2);
    LengthsAgree(arr, r2, r1);
    PrefixesAgree(arr, r1, r2, |r1|);
    assert r1 == r1[..|r1|] && r2 == r2[..|r2|];
  }

  /** The fallback run is determined by the input too: it sits at the first
      index of the largest element. */
  lemma {:induction false} FallbackUnique(arr: seq<real>, r1: seq<Run>, r2: seq<Run>)
    requires Fallback(arr, r1) && Fallback(arr, r2)
    ensures r1 == r2
  {
    var s1, s2 := r1[0].start, r2[0].start;
    assert arr[s2] <= r1[0].prod && arr[s1] <= r2[0].prod;
    assert r1 == [r1[0]] && r2 == [r2[0]];
  }

  /** Skip the leading elements below one, keeping the first largest of
      them: the first loop of the compressor. */
  method SkipBelowOne(arr: seq<real>) returns (start: nat, tmpMax: real, tmpMaxIdx: nat)
    requires NonNegative(arr)
    ensures start <= |arr|
    ensures forall k :: 0 <= k < start ==> arr[k] < 1.0
    ensures start < |arr| ==> arr[start] >= 1.0
    ensures start == 0 ==> tmpMax == 0.0 && tmpMaxIdx == 0
    ensures start > 0 ==> tmpMaxIdx < start && tmpMax == arr[tmpMaxIdx]
    ensures forall k :: 0 <= k < start ==> arr[k] <= tmpMax
    ensures forall k :: 0 <= k < tmpMaxIdx ==> arr[k] < tmpMax
  {
    var n := |arr|;
    start := 0;
    tmpMax := 0.0;
    tmpMaxIdx := 0;

    while start < n && arr[start] < 1.0
      invariant start <= n
      invariant forall k :: 0 <= k < start ==> arr[k] < 1.0
      invariant start == 0 ==> tmpMax == 0.0 && tmpMaxIdx == 0
      invariant start > 0 ==> tmpMaxIdx < start && tmpMax == arr[tmpMaxIdx]
      invariant forall k :: 0 <= k < start ==> arr[k] <= tmpMax
      invariant forall k :: 0 <= k < tmpMaxIdx ==> arr[k] < tmpMax
    {
      if arr[start] > tmpMax {
        tmpMax := arr[start];
        tmpMaxIdx := start;
      }
      start := start + 1;
    }
  }

  /** The state of the run splitter after reading arr[..i]: the runs so far
      cover arr[first..start - 1], and arr[start..i - 1] is the open run, all
      below one when `smaller` and all above one otherwise, with product
      `tmpProd`. The open run is empty only before the first element is read. */
  ghost predicate Splitting(arr: seq<real>, first: nat, i: nat, start: nat, tmpProd: real,
                            smaller: bool, compressed: seq<Run>)
    requires first <= start <= i <= |arr|
  {
    && (start == i ==> i == first && compressed == [] && tmpProd == 1.0 && !smaller)
    && tmpProd == Prod(arr, start, i - 1)
    && (smaller <==> |compressed| % 2 == 1)
    && (forall k :: start <= k < i ==> if smaller then arr[k] < 1.0 else arr[k] > 1.0)
    && (compressed == [] ==> start == first)
    && (compressed != [] ==> compressed[0].start == first && compressed[|compressed| - 1].end + 1 == start)
    && Alternates(arr, compressed)
    && Adjacent(compressed)
  }

  /** An element of the open run's kind extends the open run. */
  lemma {:induction false} Absorb(arr: seq<real>, first: nat, i: nat, start: nat, tmpProd: real,
               smaller: bool, compressed: seq<Run>)
    requires first <= start <= i < |arr|
    requires Splitting(arr, first, i, start, tmpProd, smaller, compressed)
    requires if smaller then arr[i] < 1.0 else arr[i] > 1.0
    ensures Splitting(arr, first, i + 1, start, tmpProd * arr[i], smaller, compressed)
  {
    ProdLast(arr, start, i);
  }

  /** An element of the other kind closes the open run, which is pushed, and
      opens a run of the other kind holding just that element. */
  lemma {:induction false} Close(arr: seq<real>, first: nat, i: nat, start: nat, tmpProd: real,
              smaller: bool, compressed: seq<Run>)
    requires NoExactOne(arr)
    requires first <= start <= i < |arr| && arr[first] >= 1.0
    requires Splitting(arr, first, i, start, tmpProd, smaller, compressed)
    requires if smaller then arr[i] >= 1.0 else arr[i] <= 1.0
    ensures start < i
    ensures Splitting(arr, first, i + 1, i, arr[i], !smaller, compressed + [Run(tmpProd, start, i - 1)])
  {
    Push(arr, compressed, Run(tmpProd, start, i - 1));
    ProdSingle(arr, i);
  }

  /** The second loop of the compressor: split arr[first..] into
      alternating runs, the first above one, dropping a trailing run whose
      product does not exceed one. */
  method SplitRuns(arr: seq<real>, first: nat) returns (compressed: seq<Run>)
    requires NonNegative(arr) && NoExactOne(arr)
    requires first < |arr| && arr[first] >= 1.0
    requires forall k :: 0 <= k < first ==> arr[k] < 1.0
    ensures WellFormed(arr, compressed) && compressed[0].start == first
    ensures compressed[|compressed| - 1].prod > 1.0
  {
    var n := |arr|;
    compressed := [];
    var tmpProd := 1.0;
    var start := first;
    var smaller := arr[start] < 1.0;

    for i := start to n
      invariant first <= start <= i
      invariant Splitting(arr, first, i, start, tmpProd, smaller, compressed)
    {
      if smaller {
        if arr[i] < 1.0 {
          Absorb(arr, first, i, start, tmpProd, smaller, compressed);
          tmpProd := tmpProd * arr[i];
        } else {
          Close(arr, first, i, start, tmpProd, smaller, compressed);
          compressed := compressed + [Run(tmpProd, start, i - 1)];
          smaller := false;
          tmpProd := arr[i];
          start := i;
        }
      } else {
        if arr[i] > 1.0 {
          Absorb(arr, first, i, start, tmpProd, smaller, compressed);
          tmpProd := tmpProd * arr[i];
        } else {
          Close(arr, first, i, start, tmpProd, smaller, compressed);
          compressed := compressed + [Run(tmpProd, start, i - 1)];
          smaller := true;
          tmpProd := arr[i];
          start := i;
        }
      }
    }

    if smaller {
      ProdBelowOne(arr, start, n - 1);
    } else {
      ProdAboveOne(arr, start, n - 1);
    }
    if tmpProd > 1.0 {
      Push(arr, compressed, Run(tmpProd, start, n - 1));
      compressed := compressed + [Run(tmpProd, start, n - 1)];
    }
    LastRunAboveOne(arr, compressed);
  }

  /** The compressor: the single fallback run when every element is below
      one (also on the empty input), the alternating run list otherwise. */
  method CompressDual(arr: seq<real>) returns (compressed: seq<Run>)
    requires NonNegative(arr) && NoExactOne(arr)
    ensures |compressed| > 0
    ensures |arr| == 0 ==> compressed == [Run(0.0, 0, 0)]
    ensures |arr| > 0 && AllBelowOne(arr) ==> Fallback(arr, compressed)
    ensures |arr| > 0 && AllBelowOne(arr) ==> forall runs :: Fallback(arr, runs) ==> runs == compressed
    ensures !AllBelowOne(arr) ==> WellFormed(arr, compressed)
    ensures !AllBelowOne(arr) ==> forall runs :: WellFormed(arr, runs) ==> runs == compressed
    ensures !AllBelowOne(arr) ==> compressed[|compressed| - 1].prod > 1.0
  {
    var start, tmpMax, tmpMaxIdx := SkipBelowOne(arr);
    if start == |arr| {
      compressed := [Run(tmpMax, tmpMaxIdx, tmpMaxIdx)];
      forall runs | |arr| > 0 && Fallback(arr, runs)
        ensures runs == compressed
      {
        FallbackUnique(arr, runs, compressed);
      }
      return;
    }
    compressed := SplitRuns(arr, start);
    forall runs | WellFormed(arr, runs)
      ensures runs == compressed
    {
      WellFormedUnique(arr, runs, compressed);
    }
  }
}
