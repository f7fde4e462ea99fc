/** `max_prod_fast_real`: the stack reducer of the real-valued path.

    The run list of the compressor is used as a stack. While it holds at least
    three runs, the top three a (last), b and c are popped; the merged run
    (a.prod * b.prod * c.prod, c.start, a.end) is pushed back if its product
    beats c alone, and c is pushed back otherwise. The best of the merged run,
    a and c is kept as the running maximum, seeded with the first run.

    After each step the top of the stack is the best range that starts at the
    top run's start (`BestFrom`), and every range starting at or after it is
    bounded by the running maximum or the top (`BoundedFrom`). When one run is
    left, its start is the first element that is not below one, and the
    running maximum is a range of maximal product. */
module Reduce {
  import opened RealProduct
  import opened Compress
  import Oracle

  /** The run that replaces c, b and a when the three are merged. */
  function Merge(c: Run, b: Run, a: Run): Run {
    Run(a.prod * b.prod * c.prod, c.start, a.end)
  }

  /** The run pushed back after popping c, b and a: the merged run when its
      product beats c alone, and c otherwise. */
  function Pushed(c: Run, b: Run, a: Run): Run {
    if Merge(c, b, a).prod > c.prod then Merge(c, b, a) else c
  }

  /** The three strict-greater updates of the running maximum after a
      merge: the merged run, then a, then c replace it only when strictly
      larger. The result is the largest of the four, and the maximum never
      decreases. */
  function Update(best: Run, combined: Run, a: Run, c: Run): (m: Run)
    ensures m.prod >= best.prod && m.prod >= combined.prod && m.prod >= a.prod && m.prod >= c.prod
    ensures m == best || m == combined || m == a || m == c
  {
    var m1 := if combined.prod > best.prod then combined else best;
    var m2 := if a.prod > m1.prod then a else m1;
    if c.prod > m2.prod then c else m2
  }

  /** The reducer as a function: while the stack holds three runs or more,
      pop a, b and c, push back the merged run if its product beats c and c
      otherwise, and update the running maximum. The result is the final
      running maximum, which is never below the one it starts from. */
  function Fold(stack: seq<Run>, best: Run): (m: Run)
    ensures m.prod >= best.prod
    decreases |stack|
  {
    if |stack| < 3 then best
    else
      var a, b, c := stack[|stack| - 1], stack[|stack| - 2], stack[|stack| - 3];
      Fold(stack[..|stack| - 3] + [Pushed(c, b, a)], Update(best, Merge(c, b, a), a, c))
  }

  /** The range the reducer returns for a compressed run list, the running
      maximum being seeded with the first run. */
  function Reduced(compressed: seq<Run>): (nat, nat)
    requires |compressed| > 0
  {
    var m := Fold(compressed, compressed[0]);
    (m.start, m.end)
  }

  function Max(x: real, y: real): real {
    if x >= y then x else y
  }

  /** r is exact and no range starting at r.start has a larger product. */
  ghost predicate BestFrom(arr: seq<real>, r: Run) {
    Exact(arr, r) && forall j: nat :: r.start <= j < |arr| ==> Prod(arr, r.start, j) <= r.prod
  }

  /** No range starting at or after s has a product above m. */
  ghost predicate BoundedFrom(arr: seq<real>, s: nat, m: real) {
    forall i: nat, j: nat :: s <= i <= j < |arr| ==> Prod(arr, i, j) <= m
  }

  /** Three adjacent runs: c above one, then b below one, then the top a. */
  ghost predicate Triple(arr: seq<real>, c: Run, b: Run, a: Run) {
    && NonNegative(arr)
    && Exact(arr, c) && UpRun(arr, c)
    && Exact(arr, b) && DownRun(arr, b)
    && b.start == c.end + 1 && a.start == b.end + 1
    && BestFrom(arr, a)
  }

  /** The merged run's product is the product of its span. */
  lemma {:induction false} MergedIsExact(arr: seq<real>, c: Run, b: Run, a: Run)
    requires Exact(arr, c) && Exact(arr, b) && Exact(arr, a)
    requires b.start == c.end + 1 && a.start == b.end + 1
    ensures Exact(arr, Merge(c, b, a))
  {
    ProdSplit(arr, c.start, c.end, b.end);
    ProdSplit(arr, c.start, b.end, a.end);
    MergedProduct(c, b, a, Prod(arr, c.start, b.end), Prod(arr, c.start, a.end));
  }

  /** After a step, the run pushed back is the best range starting at c.start:
      inside c the product only grows, across b it only shrinks, and beyond b
      it is at most c * b times the best range starting at a. */
  lemma {:induction false} FoldedIsBestFrom(arr: seq<real>, c: Run, b: Run, a: Run)
    requires Triple(arr, c, b, a)
    ensures BestFrom(arr, Pushed(c, b, a))
  {
    var combined := Merge(c, b, a);
    MergedIsExact(arr, c, b, a);
    forall j: nat | c.start <= j < |arr|
      ensures Prod(arr, c.start, j) <= Max(c.prod, combined.prod)
    {
      if j <= c.end {
        ExtendRightGrows(arr, c.start, j, c.end);
      } else if j <= b.end {
        ExtendRightShrinks(arr, c.start, c.end, j);
      } else {
        MergedBeyond(arr, c, b, a, j);
      }
    }
  }

  /** The span of c and b together has product c * b, which is not negative. */
  lemma {:induction false} HeadProduct(arr: seq<real>, c: Run, b: Run)
    requires NonNegative(arr) && Exact(arr, c) && Exact(arr, b) && b.start == c.end + 1
    ensures Prod(arr, c.start, b.end) == c.prod * b.prod
    ensures Prod(arr, c.start, b.end) >= 0.0
  {
    ProdSplit(arr, c.start, c.end, b.end);
    ProdNonNegative(arr, c.start, b.end);
  }

  /** A range from c.start reaching past b is at most c * b times the best
      range starting at a. */
  lemma {:induction false} MergedBeyond(arr: seq<real>, c: Run, b: Run, a: Run, j: nat)
    requires NonNegative(arr) && Exact(arr, c) && Exact(arr, b)
    requires b.start == c.end + 1 && a.start == b.end + 1 <= j < |arr|
    requires Prod(arr, a.start, j) <= a.prod
    ensures Prod(arr, c.start, j) <= Merge(c, b, a).prod
  {
    HeadProduct(arr, c, b);
    ProdSplit(arr, c.start, b.end, j);
    MergedBound(c, b, a, Prod(arr, c.start, b.end), Prod(arr, a.start, j), Prod(arr, c.start, j));
  }

  /** After a step, every range starting at or after c.start is bounded by
      any m at least the old maximum, a, c and the merged product. */
  lemma {:induction false} FoldedIsBounded(arr: seq<real>, c: Run, b: Run, a: Run, oldMax: real, m: real)
    requires Triple(arr, c, b, a)
    requires BoundedFrom(arr, a.start, Max(oldMax, a.prod))
    requires m >= oldMax && m >= a.prod && m >= c.prod && m >= Merge(c, b, a).prod
    ensures BoundedFrom(arr, c.start, m)
  {
    FoldedIsBestFrom(arr, c, b, a);
    ProdAboveOne(arr, c.start, c.end);
    forall i: nat, j: nat | c.start <= i <= j < |arr|
      ensures Prod(arr, i, j) <= m
    {
      if i >= a.start {
      } else if i >= b.start {
        if j <= b.end {
          ProdAtMostOne(arr, i, j);
        } else {
          ExtendLeftShrinks(arr, i, a.start, j);
        }
      } else {
        ExtendLeftGrows(arr, c.start, i, j);
      }
    }
  }

  /** The last run of a well-formed list is the best range starting at its
      start, and bounds every range starting at or after it. */
  lemma {:induction false} LastRunIsBest(arr: seq<real>, runs: seq<Run>)
    requires NonNegative(arr) && WellFormed(arr, runs)
    ensures BestFrom(arr, runs[|runs| - 1])
    ensures BoundedFrom(arr, runs[|runs| - 1].start, runs[|runs| - 1].prod)
  {
    var last := runs[|runs| - 1];
    assert Exact(arr, last) && UpRun(arr, last);
    LastRunAboveOne(arr, runs);
    forall j: nat | last.start <= j < |arr|
      ensures Prod(arr, last.start, j) <= last.prod
    {
      if j <= last.end {
        ExtendRightGrows(arr, last.start, j, last.end);
      } else {
        ExtendRightShrinks(arr, last.start, last.end, j);
      }
    }
    forall i: nat, j: nat | last.start <= i <= j < |arr|
      ensures Prod(arr, i, j) <= last.prod
    {
      if i <= last.end {
        ExtendLeftGrows(arr, last.start, i, j);
      } else {
        ProdAtMostOne(arr, i, j);
      }
    }
  }

  /** Once the stack holds only the run starting at the first element that is
      not below one, the running maximum bounds every range: a range starting
      earlier only loses by its below-one prefix. */
  lemma {:induction false} FinalIsOptimal(arr: seq<real>, runs: seq<Run>, stack: seq<Run>, best: Run)
    requires NonNegative(arr) && WellFormed(arr, runs)
    requires Folding(arr, runs, stack, best) && |stack| < 3
    ensures forall i: nat, j: nat :: i <= j < |arr| ==> Prod(arr, i, j) <= best.prod
  {
    var first := runs[0].start;
    assert stack[0].start == first;
    assert Exact(arr, runs[0]) && UpRun(arr, runs[0]);
    ProdSingle(arr, first);
    forall i: nat, j: nat | i <= j < |arr|
      ensures Prod(arr, i, j) <= best.prod
    {
      if i < first {
        if j < first {
          ProdAtMostOne(arr, i, j);
        } else {
          ExtendLeftShrinks(arr, i, first, j);
        }
      }
    }
  }

  /** When every element is below one, the fallback run (m, k, k) is the
      first range of maximal product: every range is at most its first
      element, and every element before k is below m. */
  lemma {:induction false} FallbackIsFirstMax(arr: seq<real>, runs: seq<Run>)
    requires NonNegative(arr) && AllBelowOne(arr) && Fallback(arr, runs)
    ensures Oracle.IsFirstMax(arr, runs[0].start, runs[0].end)
  {
    var k := runs[0].start;
    ProdSingle(arr, k);
    forall i: nat, j: nat | i <= j < |arr|
      ensures Prod(arr, i, j) <= arr[i]
    {
      RangeAtMostFirst(arr, i, j);
    }
  }

  /** When every element is below one, the range the brute-force search
      returns has the largest element as its product. */
  lemma {:induction false} BelowOneSearchFindsLargest(arr: seq<real>)
    requires |arr| > 0 && NonNegative(arr) && AllBelowOne(arr)
    ensures var (s, e) := Oracle.BruteForce(arr);
            && s <= e < |arr|
            && Prod(arr, s, e) == arr[s]
            && forall k :: 0 <= k < |arr| ==> arr[k] <= Prod(arr, s, e)
  {
    Oracle.BruteForceIsFirstMax(arr);
    var (s, e) := Oracle.BruteForce(arr);
    ProdSingle(arr, s);
    RangeAtMostFirst(arr, s, e);
    forall k | 0 <= k < |arr|
      ensures arr[k] <= Prod(arr, s, e)
    {
      ProdSingle(arr, k);
    }
  }

  /** With no element above one, a range is at most its first element. */
  lemma {:induction false} RangeAtMostFirst(arr: seq<real>, i: nat, j: nat)
    requires NonNegative(arr) && AllBelowOne(arr) && i <= j < |arr|
    ensures Prod(arr, i, j) <= arr[i]
  {
    ProdSingle(arr, i);
    ExtendRightShrinks(arr, i, i, j);
  }

  /** The reducer's state when some element is at least one: the stack is
      the run list cut short, with only its top replaced; the top is the best
      range from its start; the running maximum is exact, and together with
      the top it bounds every range starting at or after the top. With a
      single run left, the running maximum alone does. */
  ghost predicate Folding(arr: seq<real>, runs: seq<Run>, stack: seq<Run>, best: Run) {
    && 1 <= |stack| <= |runs| && |stack| % 2 == 1
    && stack[..|stack| - 1] == runs[..|stack| - 1]
    && stack[|stack| - 1].start == runs[|stack| - 1].start
    && Exact(arr, best)
    && BestFrom(arr, stack[|stack| - 1])
    && BoundedFrom(arr, stack[|stack| - 1].start, Max(best.prod, stack[|stack| - 1].prod))
    && (|stack| >= 3 || best.prod >= stack[|stack| - 1].prod)
  }

  /** Before the first step: the whole run list, the first run as maximum. */
  lemma {:induction false} FoldingStarts(arr: seq<real>, runs: seq<Run>)
    requires NonNegative(arr) && WellFormed(arr, runs)
    ensures Folding(arr, runs, runs, runs[0])
  {
    LastRunIsBest(arr, runs);
  }

  /** The top three runs of the stack are c above one, b below one and a,
      adjacent, with c and b still the runs of the list at their positions. */
  lemma {:induction false} TopIsTriple(arr: seq<real>, runs: seq<Run>, stack: seq<Run>, best: Run,
                    c: Run, b: Run, a: Run)
    requires NonNegative(arr) && WellFormed(arr, runs)
    requires Folding(arr, runs, stack, best) && |stack| >= 3
    requires a == stack[|stack| - 1] && b == stack[|stack| - 2] && c == stack[|stack| - 3]
    ensures Triple(arr, c, b, a)
    ensures c == runs[|stack| - 3]
  {
    var k := |stack| - 3;
    assert stack[..|stack| - 1][k] == runs[..|stack| - 1][k];
    assert stack[..|stack| - 1][k + 1] == runs[..|stack| - 1][k + 1];
    assert Exact(arr, runs[k]) && UpRun(arr, runs[k]);
    assert Exact(arr, runs[k + 1]) && DownRun(arr, runs[k + 1]);
    assert runs[k + 2].start == runs[k + 1].end + 1 && runs[k + 1].start == runs[k].end + 1;
  }

  /** What one step of the reducer establishes: c, b and a are popped, the
      merged run or c is pushed back, and the new maximum is one of the old
      maximum, the merged run, a and c, at least as large as each. The run
      pushed back is the best range from c's start, and the new maximum is
      exact and bounds every range starting there. */
  lemma {:induction false} StepFacts(arr: seq<real>, runs: seq<Run>, stack: seq<Run>, best: Run,
                  c: Run, b: Run, a: Run, best': Run)
    requires NonNegative(arr) && WellFormed(arr, runs)
    requires Folding(arr, runs, stack, best) && |stack| >= 3
    requires a == stack[|stack| - 1] && b == stack[|stack| - 2] && c == stack[|stack| - 3]
    requires best' == Update(best, Merge(c, b, a), a, c)
    ensures Pushed(c, b, a).start == runs[|stack| - 3].start && BestFrom(arr, Pushed(c, b, a))
    ensures best'.prod >= Pushed(c, b, a).prod
    ensures Exact(arr, best') && BoundedFrom(arr, c.start, best'.prod)
  {
    TopIsTriple(arr, runs, stack, best, c, b, a);
    MergedIsExact(arr, c, b, a);
    FoldedIsBestFrom(arr, c, b, a);
    FoldedIsBounded(arr, c, b, a, best.prod, best'.prod);
  }

  /** Replacing the top three runs by a run that is the best range from the
      third one's start keeps the reducer state, given a new maximum that is
      exact, at least that run, and bounds every range starting there. */
  lemma {:induction false} FoldStep(arr: seq<real>, runs: seq<Run>, stack: seq<Run>, best: Run, pushed: Run, best': Run)
    requires Folding(arr, runs, stack, best) && |stack| >= 3
    requires pushed.start == runs[|stack| - 3].start && BestFrom(arr, pushed)
    requires Exact(arr, best') && BoundedFrom(arr, pushed.start, best'.prod) && best'.prod >= pushed.prod
    ensures Folding(arr, runs, stack[..|stack| - 3] + [pushed], best')
  {
    var k := |stack| - 3;
    var stack' := stack[..k] + [pushed];
    assert |stack'| == k + 1 && stack'[k] == pushed;
    assert stack[..|stack| - 1][..k] == stack[..k];
    assert stack'[..k] == runs[..k];
    BoundedWeaken(arr, pushed.start, best'.prod, Max(best'.prod, pushed.prod));
  }

  /** One step of the functional reducer, unfolded. */
  lemma {:induction false} FoldOnce(stack: seq<Run>, best: Run)
    requires |stack| >= 3
    ensures var a, b, c := stack[|stack| - 1], stack[|stack| - 2], stack[|stack| - 3];
            Fold(stack, best) == Fold(stack[..|stack| - 3] + [Pushed(c, b, a)], Update(best, Merge(c, b, a), a, c))
  {
  }

  lemma {:induction false} BoundedWeaken(arr: seq<real>, s: nat, m: real, m': real)
    requires BoundedFrom(arr, s, m) && m <= m'
    ensures BoundedFrom(arr, s, m')
  {
  }

  /** The reducer. On every input without negative elements and without an
      element equal to one it returns a range of maximal product; when every
      element is below one that range is the one both brute-force searches
      return, and otherwise it is the range `Reduced` computes on the run
      list. */
  method MaxProdFastReal(arr: seq<real>) returns (r: (nat, nat))
    requires NonNegative(arr) && NoExactOne(arr)
    ensures |arr| == 0 ==> r == (0, 0)
    ensures |arr| > 0 ==>
              && r.0 <= r.1 < |arr|
              && forall i: nat, j: nat :: i <= j < |arr| ==> Prod(arr, i, j) <= Prod(arr, r.0, r.1)
    ensures |arr| > 0 && AllBelowOne(arr) ==>
              r == Oracle.BruteForce(arr) && r == Oracle.BruteForceImproved(arr)
    ensures !AllBelowOne(arr) ==> forall runs :: WellFormed(arr, runs) ==> r == Reduced(runs)
  {
    var compressed := CompressDual(arr);
    ghost var runs := compressed;
    ghost var up := !AllBelowOne(arr);
    var currentMax := compressed[0];
    if up {
      FoldingStarts(arr, runs);
    }

    while |compressed| >= 3
      invariant up ==> Folding(arr, runs, compressed, currentMax)
      invariant !up ==> compressed == runs && currentMax == runs[0]
      invariant |compressed| > 0 && Fold(compressed, currentMax) == Fold(runs, runs[0])
      decreases |compressed|
    {
      assert up;
      ghost var stack, best := compressed, currentMax;
      var a := compressed[|compressed| - 1];
      var b := compressed[|compressed| - 2];
      var c := compressed[|compressed| - 3];
      compressed := compressed[..|compressed| - 3];

      var combined := Merge(c, b, a);

      if combined.prod > c.prod {
        compressed := compressed + [combined];
      } else {
        compressed := compressed + [c];
      }

      if combined.prod > currentMax.prod {
        currentMax := combined;
      }
      if a.prod > currentMax.prod {
        currentMax := a;
      }
      if c.prod > currentMax.prod {
        currentMax := c;
      }

      assert compressed == stack[..|stack| - 3] + [Pushed(c, b, a)];
      assert currentMax == Update(best, combined, a, c);
      FoldOnce(stack, best);
      StepFacts(arr, runs, stack, best, c, b, a, currentMax);
      FoldStep(arr, runs, stack, best, Pushed(c, b, a), currentMax);
    }

    r := (currentMax.start, currentMax.end);

    if |arr| > 0 {
      if up {
        FinalIsOptimal(arr, runs, compressed, currentMax);
      } else {
        FallbackIsFirstMax(arr, runs);
        Oracle.FirstMaxIsOracle(arr, r.0, r.1);
      }
    }
  }

  lemma {:induction false} MergedProduct(c: Run, b: Run, a: Run, cb: real, whole: real)
    requires cb == c.prod * b.prod && whole == cb * a.prod
    ensures whole == Merge(c, b, a).prod
  {
    Regroup3(c.prod, b.prod, a.prod, cb, whole, Merge(c, b, a).prod);
  }

  lemma {:induction false} MergedBound(c: Run, b: Run, a: Run, cb: real, tail: real, whole: real)
    requires cb == c.prod * b.prod && cb >= 0.0 && tail <= a.prod && whole == cb * tail
    ensures whole <= Merge(c, b, a).prod
  {
    MulBound(cb, tail, a.prod, whole, cb * a.prod);
    Regroup3(c.prod, b.prod, a.prod, cb, cb * a.prod, Merge(c, b, a).prod);
  }

  lemma {:induction false} Regroup3(c: real, b: real, a: real, cb: real, cba: real, abc: real)
    requires cb == c * b && cba == cb * a && abc == a * b * c
    ensures cba == abc
  {
  }

  lemma {:induction false} MulBound(x: real, y: real, z: real, xy: real, xz: real)
    requires x >= 0.0 && y <= z && xy == x * y && xz == x * z
    ensures xy <= xz
  {
  }
}
