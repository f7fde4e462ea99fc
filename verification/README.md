# max-prod-rs in Dafny

This is a model of the maximum-product-subrange routines of `max-prod-rs`. Each
routine takes a sequence of numbers and returns the inclusive index range
`(i, j)` whose product `arr[i] * ... * arr[j]` is largest. The model covers
these routines:

- **The two brute-force searches.** `max_prod_brute_force` recomputes every
  range product. `max_prod_brute_force_improved` keeps one running product per
  start index. Both visit ranges in lexicographic order and replace their
  maximum, which starts as zero at `(0, 0)`, only on a strictly larger product.
  They are modelled once, over reals, as ghost functions (module `Oracle`).
- **The zero-segmented scan** over unsigned integers, `max_prod_fast_int`
  (module `IntScan`).
- **The run compressor** `compress_dual` (module `Compress`) and **the stack
  reducer** `max_prod_fast_real` (module `Reduce`). These two make up the path
  for non-negative reals.
- **The range product** `prod`, in both instances: `RealProduct` and
  `NatProduct`.

Numbers are exact. Unsigned integers are `nat`, real numbers are `real`, and
the unsigned searches are the real searches applied to the integers read as
reals (`NatProduct.AsReals`).

What is proved:

- **The searches.** Both searches return the same range on every input. On
  non-empty, non-negative input, that range is the unique lexicographically first range
  of maximal product (`Oracle.IsFirstMax`).
- **The scan.** It returns exactly the searches' range.
- **The compressor.** On input with some element at least one, it returns an
  odd-length list of adjacent runs. The runs alternate between elements above
  one and elements below one. Each run carries the exact product of its span.
  The first run starts at the first element that is not below one. Only
  elements below one follow the last run. When every element is below one, it
  returns the single run of the first largest element.
- **The reducer.** It returns a range of maximal product. When every element
  is below one, that range is the searches' range.

The real path requires non-negative elements and no element equal to one.
The compressor tests `< 1` for below-one runs but `> 1` for above-one runs
(`src/main.rs:115` and `src/main.rs:124`), so an element of exactly 1.0 ends
whichever run is open and opens a run of the other kind. What that does
depends on where the 1.0 sits:

- When the 1.0 is the first element that is not below one, it closes an
  above-one run that holds no element yet. That run is pushed with the span
  `(start, start - 1)`, or the index computation underflows when the 1.0 is at
  position 0.
- Elsewhere it breaks the alternation of the run list, and the reducer can
  return a range that is not maximal. On `[2, 0.5, 3, 0.5, 1]` the compressor
  returns the four runs `(2, 0, 0)`, `(0.5, 1, 1)`, `(3, 2, 2)` and
  `(0.5, 3, 3)`, an even-length list. The reducer merges the top three into
  `(0.75, 1, 3)` and returns `(0, 0)` with product 2, while `(0, 2)` has
  product 3.
- It can also do no harm: on `[2, 1, 3]` the result is `(0, 2)`, which is
  maximal.

Two more behaviours of the program are stated here as the code has them:

- **Empty input.** Neither fast routine fails on an empty input. The scan
  skips its loop and returns `(0, 0)`. The compressor's skip loop ends at once
  with `start == n`, so it returns the run `(0, 0, 0)` (`src/main.rs:107-108`),
  and the reducer returns `(0, 0)` too. No contract here requires a non-empty
  input.
- **Ties on the real path.** The program's tests assert that the reducer and
  the improved search return the same indices (`src/main.rs:209`, `216` and
  `225`). That equality fails on ties. On `[2, 0.5, 2, 0.5, 4]`, the ranges
  `(0, 4)` and `(2, 4)` both have the maximal product 4, and the searches
  return `(0, 4)` (`Cases.TieCase`). The reducer merges runs from the right
  and replaces its maximum only on a strictly larger product, so it keeps
  `(2, 4)` (`Cases.TieReducer`). All these values are exact in binary floating
  point. The reducer's contract therefore promises a maximal range, the range
  of the functional reducer `Reduce.Reduced` on the run list, and index
  equality with the searches only for all-below-one input.

## Model

| member | source | states |
|---|---|---|
| RealProduct.Prod | src/main.rs:185-192 | the product of arr[i..=j], multiplied left to right starting from one; the empty range has product one |
| RealProduct.ProdLast | src/main.rs:187-189 | a non-empty range's product is the product of the range without its last element, times that element |
| RealProduct.ProdSingle | src/main.rs:185-192 | a one-element range's product is that element |
| RealProduct.ProdSplit | src/main.rs:185-192 | the product of a range is the product of the products of any two halves it splits into |
| RealProduct.ProdNonNegative | src/main.rs:185-192 | a range of non-negative reals has a non-negative product |
| RealProduct.ProdAtLeastOne | src/main.rs:185-192 | a range of elements at least one has product at least one |
| RealProduct.ProdAboveOne | src/main.rs:185-192 | a non-empty range of elements above one has product above one |
| RealProduct.ProdAtMostOne | src/main.rs:185-192 | a range of elements in [0, 1] has product in [0, 1] |
| RealProduct.ProdBelowOne | src/main.rs:185-192 | a non-empty range of elements in [0, 1) has product in [0, 1) |
| RealProduct.ExtendRightGrows | src/main.rs:185-192 | extending a range to the right over elements at least one never lowers its product |
| RealProduct.ExtendRightShrinks | src/main.rs:185-192 | extending a range to the right over elements at most one never raises its product |
| RealProduct.ExtendLeftGrows | src/main.rs:185-192 | extending a range to the left over elements at least one never lowers its product |
| RealProduct.ExtendLeftShrinks | src/main.rs:185-192 | extending a range to the left over elements at most one never raises its product |
| NatProduct.Prod | src/main.rs:185-192 | the unsigned product of arr[i..=j], multiplied left to right starting from one; the empty range has product one |
| NatProduct.ProdSplit | src/main.rs:185-192 | the unsigned range product splits into the product of the products of its two halves |
| NatProduct.ProdWithZero | src/main.rs:185-192 | a zero anywhere in a range makes its product zero |
| NatProduct.ProdZeroFree | src/main.rs:185-192 | a zero-free range has product at least one |
| NatProduct.RunPrefixGrows | src/main.rs:65-72 | inside a zero-free run, the running product never decreases as the run grows to the right |
| NatProduct.RunStartDominates | src/main.rs:65-72 | inside a zero-free run, starting a range earlier never lowers its product |
| NatProduct.ProdAsReals | src/main.rs:185-192 | reading the unsigned elements as reals leaves every range product unchanged |
| Oracle.Consider | src/main.rs:25-28 | one comparison of a search: a strictly larger product replaces the running maximum, anything else keeps it |
| Oracle.ConsiderNeverDecreases | src/main.rs:25-28 | a comparison never lowers the running maximum, leaves it at least the product compared, and moves it only on a strictly larger product, so a tie keeps the range visited first |
| Oracle.BruteRow | src/main.rs:18-29 | the inner loop of the recomputing search for one start: every end from the given one on, each product recomputed from scratch |
| Oracle.BruteRows | src/main.rs:17-30 | the outer loop of the recomputing search: every start from the given one on |
| Oracle.BruteForce | src/main.rs:12-34 | the recomputing search, its maximum starting as zero at (0, 0) |
| Oracle.ImprovedRow | src/main.rs:42-50 | the inner loop of the improved search for one start: the running product is multiplied by each new element |
| Oracle.ImprovedRows | src/main.rs:41-51 | the outer loop of the improved search: every start from the given one on, each with a running product reset to one |
| Oracle.BruteForceImproved | src/main.rs:36-55 | the improved search, its maximum starting as zero at (0, 0) |
| Oracle.ImprovedRowIsBruteRow | src/main.rs:41-50 | the improved inner loop, whose running product is the product so far, reaches the same maximum as the recomputing inner loop |
| Oracle.ImprovedRowsIsBruteRows | src/main.rs:17-30 | the improved outer loop reaches the same maximum as the recomputing outer loop |
| Oracle.OraclesAgree | src/main.rs:12-55 | the two brute-force searches return the same range on every input |
| Oracle.ConsiderSummarizes | src/main.rs:25-28 | a strict-greater replacement keeps the running maximum the first maximum of the ranges visited so far |
| Oracle.BruteRowSummarizes | src/main.rs:18-29 | after one start index's inner loop, the running maximum is the first maximum of all ranges visited |
| Oracle.BruteRowsSummarizes | src/main.rs:17-30 | after the outer loop, the running maximum is the first maximum of all ranges |
| Oracle.BruteForceIsFirstMax | src/main.rs:12-34 | on non-empty non-negative input, the search returns the lexicographically first range of maximal product |
| Oracle.FirstMaxUnique | src/main.rs:25-28 | at most one range is the first range of maximal product |
| Oracle.FirstMaxIsOracle | src/main.rs:12-55 | any first range of maximal product is the range both searches return |
| Oracle.BruteRowOrdered | src/main.rs:18-29 | the inner loop keeps the running range's start at most its end |
| Oracle.BruteRowsOrdered | src/main.rs:17-30 | the outer loop keeps the running range's start at most its end |
| Oracle.SearchesReturnOrderedRange | src/main.rs:32-33 | the closing check of both searches holds on every input: start at most end |
| Oracle.OraclesOnEmpty | src/main.rs:13-17 | on the empty input both searches return (0, 0) |
| IntScan.RunDominates | src/main.rs:65-76 | among the ranges ending at the current index, the current zero-free run has the largest product, and ranges reaching back past a zero have product zero |
| IntScan.BestStartsNoLaterThanRun | src/main.rs:78-81 | a best range found earlier never starts inside the current run |
| IntScan.ScanStep | src/main.rs:65-81 | one iteration keeps the best range the first maximum of all ranges ending so far |
| IntScan.ScanBestIsFirstMax | src/main.rs:82-85 | after the last index the best range is the first range of maximal product of the whole input |
| IntScan.MaxProdFastInt | src/main.rs:57-86 | the scan returns (0, 0) on empty input, otherwise the first range of maximal product, and on every input exactly the range both searches return |
| Compress.Push | src/main.rs:118-118 | appending a run of the other kind right after the last run keeps the list alternating and adjacent |
| Compress.LastRunAboveOne | src/main.rs:135-137 | the last run of an odd-length alternating list has product above one |
| Compress.KindAt | src/main.rs:113-133 | in a well-formed list, every element inside an even-position run is above one and every element inside an odd-position run is below one |
| Compress.FirstStartsAgree | src/main.rs:98-111 | two well-formed run lists of the same input start at the same index, the first element not below one |
| Compress.EndsAgree | src/main.rs:113-133 | of two well-formed lists whose runs at one position start together, the first's run ends no later than the second's: a run ends just before the first element of the other kind |
| Compress.PrefixesAgree | src/main.rs:111-137 | two well-formed run lists of the same input agree on every common prefix |
| Compress.LengthsAgree | src/main.rs:135-137 | a well-formed run list is never shorter than another of the same input, since both end with the above-one run followed only by elements below one |
| Compress.WellFormedUnique | src/main.rs:111-137 | an input has at most one well-formed alternating run list |
| Compress.FallbackUnique | src/main.rs:98-108 | when every element is below one, there is at most one fallback run: the first largest element |
| Compress.SkipBelowOne | src/main.rs:92-105 | the skipped prefix is all below one and stops at an element not below one; the kept element is the first largest of the prefix |
| Compress.Absorb | src/main.rs:114-125 | an element of the open run's kind multiplies into the open run's exact product |
| Compress.Close | src/main.rs:117-131 | an element of the other kind closes a non-empty open run, pushes it, and opens a run holding just that element |
| Compress.SplitRuns | src/main.rs:111-137 | the runs from the first element not below one are adjacent, alternate from an above-one run, carry exact products, and the last has product above one |
| Compress.CompressDual | src/main.rs:88-142 | the list is never empty; it is the first largest element when all are below one (and (0, 0, 0) on empty input), the well-formed alternating run list otherwise; in both cases it is the only list with those properties |
| Reduce.Merge | src/main.rs:157-157 | the merged run: the product of the three popped runs, spanning from c's start to a's end |
| Reduce.Pushed | src/main.rs:160-164 | the run pushed back: the merged run when its product beats c alone, c otherwise |
| Reduce.Update | src/main.rs:166-177 | the three strict-greater updates leave a maximum that is one of the old maximum, the merged run, a and c, at least each of them, so the running maximum never decreases |
| Reduce.Fold | src/main.rs:149-178 | the reducer's loop as a function on the stack and the running maximum; the final maximum is never below the one it starts from |
| Reduce.Reduced | src/main.rs:144-183 | the range the reducer returns for a run list, the running maximum seeded with the first run |
| Reduce.MergedIsExact | src/main.rs:157-157 | the merged run's product is the exact product of the span from c's start to a's end |
| Reduce.HeadProduct | src/main.rs:157-157 | the span of c and b together has the non-negative product c * b |
| Reduce.MergedBeyond | src/main.rs:157-157 | a range from c's start that reaches past b is at most the merged product |
| Reduce.FoldedIsBestFrom | src/main.rs:160-164 | the run pushed back (merged if larger than c, else c) is the best range starting at c's start |
| Reduce.FoldedIsBounded | src/main.rs:166-177 | after the maximum is updated, it bounds every range starting at or after c's start |
| Reduce.LastRunIsBest | src/main.rs:145-147 | the last run is the best range from its start and bounds every range starting at or after it |
| Reduce.FoldingStarts | src/main.rs:145-147 | the reducer state holds for the compressed list with its first run as maximum |
| Reduce.TopIsTriple | src/main.rs:151-153 | the three runs popped are, from the bottom, an above-one run, a below-one run and the top run, adjacent and exact, with the top the best range from its start |
| Reduce.StepFacts | src/main.rs:149-177 | after one pop-merge-push step and the three strict-greater updates, the run pushed back is the best range from c's start, and the new maximum is exact, at least that run, and bounds every range starting there |
| Reduce.FoldStep | src/main.rs:160-164 | replacing the top three runs by such a run keeps the reducer state: a cut-short run list whose top is the best range from its start |
| Reduce.FinalIsOptimal | src/main.rs:149-182 | with one run left, the running maximum bounds every range, including those starting in the skipped below-one prefix |
| Reduce.FallbackIsFirstMax | src/main.rs:107-108 | when all elements are below one, the single fallback run is the first range of maximal product |
| Reduce.RangeAtMostFirst | src/main.rs:185-192 | with no element at or above one, a range's product is at most its first element |
| Reduce.MaxProdFastReal | src/main.rs:144-183 | on non-negative input without an element equal to one, the reducer returns (0, 0) on empty input and otherwise a range of maximal product, which is the searches' range when every element is below one; when some element is at least one it is the functional reducer's range on the well-formed run list |
| Reduce.BelowOneSearchFindsLargest | src/main.rs:308-317 | when every element is below one, the search's range has the largest element as its product |
| Cases.IncreasingCase | src/main.rs:243-248 | on [1, 2, 3, 4] both searches, and hence the scan, return (0, 3) |
| Cases.LeadingZeroCase | src/main.rs:252-257 | on [0, 2, 3, 4] both searches, and hence the scan, return (1, 3) |
| Cases.OnesCases | src/main.rs:261-275 | on [0, 1, 0, 0] and [0, 1, 0, 1] both searches, and hence the scan, return (1, 1) |
| Cases.ZeroSeparatedCase | src/main.rs:279-284 | on [0, 1, 0, 7, 0, 3] both searches, and hence the scan, return (3, 3) |
| Cases.SingletonCase | src/main.rs:288-293 | on [4] both searches, and hence the scan, return (0, 0) |
| Cases.AllZeroCase | src/main.rs:78-81 | on an all-zero input of any length no range beats zero, so both searches, and hence the scan, return (0, 0) |
| Cases.TieCase | src/main.rs:12-55 | on [2, 0.5, 2, 0.5, 4] both searches return (0, 4), and (2, 4) has the same product 4 |
| Cases.TieRuns | src/main.rs:111-137 | on [2, 0.5, 2, 0.5, 4] every element is a run of its own in the well-formed run list |
| Cases.TieFold | src/main.rs:149-178 | on those five runs the functional reducer returns (2, 4): the second merge (4, 0, 4) is not strictly larger than (4, 2, 4) |
| Cases.TieReducer | src/main.rs:207-210 | on [2, 0.5, 2, 0.5, 4] the reducer returns (2, 4), a range of maximal product that is not the improved search's (0, 4), so the equality the tests assert fails on this tie |

## Left out

- `main` prints a demonstration on a fixed input. It is I/O only.
- The randomized tests (`test_random_real`, `test_random_real2`, `test_random_int`, `test_real_brute_force_01`) draw random inputs. Their deterministic content is stated for all inputs instead: the `MaxProdFastInt` and `MaxProdFastReal` contracts, and `Reduce.BelowOneSearchFindsLargest`.
- `test_integer1` is a fixed 60-element input. Its expected range `(15, 59)` is not restated, because evaluating the searches on it is far too large. `MaxProdFastInt` still returns the searches' range on it.
- `test_real_basic` is a fixed 11-element real input. Its expected range is not restated, for the same reason.
- Floating-point rounding is not modelled. Products are exact reals, so rounding-induced disagreements between the reducer and the searches are outside the model.
- Fixed-width overflow of the unsigned instance (`u32`, `u128`) is not modelled. Products are unbounded `nat`, so a wrapping or panicking multiplication is outside the model.
- The `num` trait machinery (`Num`, `Integer`, `Unsigned`, `Real`) is replaced by the two concrete instances, `nat` and `real`.
- Negative reals are excluded by the real path's precondition. The reducer's reasoning about runs relies on products of below-one runs staying in [0, 1).
- Elements exactly equal to 1.0 are excluded by the real path's precondition. As written, a 1.0 that is the first element not below one gives an inverted span, or an index underflow at position 0. A 1.0 elsewhere can break the alternation of the run list and make the reducer return a range that is not maximal, as on `[2, 0.5, 3, 0.5, 1]`.
- MaxProdFastReal: promises a range of maximal product, not the searches' exact range, except when every element is below one. On ties the reducer's range can differ from the searches' range (`Cases.TieReducer`).
