# LogHistogram: a verified model

This project models the logarithmic histogram of `digest/logHistogram.go`.

- A `LogHistogram` has a fixed array of 32-bit counters.
- Its bins are very nearly logarithmically spaced from `min` to `max`.
- A value's bin comes from `approxLog2`, a cheap piecewise-quadratic stand-in for log2. It is scaled by `logFactor` (bins per doubling) and shifted by `logOffset`, then truncated to an integer.
- The lower edge of bin `k` is `pow2` of the scaled edge number. `pow2` is the exact inverse of `approxLog2`, so every edge falls exactly into its own bin.
- Histograms with the same bounds and bin count can be merged by adding their counters element by element. The addition wraps modulo 2^32.

The project has three modules.

- `Approx` (`approx.dfy`) covers `approxLog2` and `pow2` over the reals.
  - A positive double is its normal form `mantissa * 2^exponent` with the mantissa in [1, 2). This is the information the source reads out of the bit fields.
  - `math.Sqrt`, which `pow2` calls, is a parameter `sqrt`. The predicate `IsSqrt` states that it returns the non-negative root.
  - The module proves that the two functions are exact inverses of each other and both strictly increasing. It also proves that `approxLog2` is exact at the powers of two.
- `Counters` (`counters.dfy`) covers the counters as values.
  - `uint32` is wrap-around addition modulo 2^32.
  - It defines the counters left by a sequence of increments (`Tally`) and the element-wise merge of several counter slices (`MergeAll`).
  - The `Receiver` operand stands for a histogram merged into itself, which shares its counter array.
  - It proves that increments are independent of order, that merges of arguments that do not share the receiver's counters are independent of order, and that tallying separate parts and then merging equals tallying the whole.
  - Once the receiver is among the arguments, the order of a merge matters (`Counters.SelfMergeOrderMatters`).
- `LogHistograms` (`log_histogram.dfy`) covers the constructor `NewLogHistogram` and the class `LogHistogram`.
  - The class's `count` array is updated in place by `Add` and `AddHistograms`.
  - `BucketIndex`, `LowerBound`, `bucket`, `GetBounds`, `GetCounts` and `AddHistograms` are modelled.
  - `math.Log`, which the constructor calls, is a parameter `ln`. The predicate `IsLogLike` states that it is positive above 1.

The [1e-6, 0.5] range check on the precision argument applies to the value after the 0.98 guard band has scaled it (`digest/logHistogram.go:21` and `:29`). So an argument of 0.51 is accepted, and 0.6 is refused (`LogHistograms.AcceptedEpsilons`).

## Model

| member | source | states |
|---|---|---|
| Approx.Decompose | digest/logHistogram.go:62-64 | every positive value is `mantissa * 2^exponent` with the mantissa in [1, 2), as the source reads it from the exponent and fraction bits |
| Approx.DecomposeNormal | digest/logHistogram.go:62-64 | the split is unique: decomposing `m * 2^e` with m in [1, 2) gives back m and e |
| Approx.NormalUnique | digest/logHistogram.go:62-64 | two normal forms with the same value are the same |
| Approx.ApproxLog2 | digest/logHistogram.go:61-66 | the integer part of approxLog2 is exactly the binary exponent of the value |
| Approx.ApproxLog2OfNormal | digest/logHistogram.go:61-66 | approxLog2 of `m * 2^e` is `e - 1 + m(2 - m/3) - 2/3`, i.e. the exponent field less 1024 plus the quadratic |
| Approx.MantissaPoly | digest/logHistogram.go:65 | the quadratic `m(2 - m/3) - 2/3` that stands in for `1 + log2(m)`; its contract is carried by MantissaPolyEnds, MantissaPolyRange and MantissaPolyIncreasing |
| Approx.MantissaPolyEnds | digest/logHistogram.go:65 | the quadratic equals `1 + log2(m)` at both ends of the mantissa range: 1 at m = 1 and 2 at m = 2 |
| Approx.MantissaPolyRange | digest/logHistogram.go:65 | the quadratic maps a mantissa in [1, 2) into [1, 2) |
| Approx.MantissaPolyIncreasing | digest/logHistogram.go:65 | the quadratic is strictly increasing on [1, 2] |
| Approx.ApproxLog2OnOctave | digest/logHistogram.go:52-66 | on each closed octave [2^e, 2^(e+1)] approxLog2 is one polynomial, so the approximation is continuous at the powers of two |
| Approx.ApproxLog2Exact | digest/logHistogram.go:52-66 | approxLog2 is exact at every power of two: approxLog2(2^k) = k |
| Approx.ApproxLog2Increasing | digest/logHistogram.go:61-66 | approxLog2 is strictly increasing on the positive reals |
| Approx.ApproxLog2Monotone | digest/logHistogram.go:61-66 | approxLog2 is monotone on the positive reals |
| Approx.ExponentDominates | digest/logHistogram.go:62-64 | a larger exponent means a larger value, whatever the mantissas |
| Approx.RootRange | digest/logHistogram.go:78 | for the fractional part pow2 computes, in [1, 2), the root `sqrt(7 - 3y)` lies in (1, 2], so the mantissa `3 - sqrt(..)` lies in [1, 2) |
| Approx.Pow2 | digest/logHistogram.go:75-80 | pow2(x) lies in the octave [2^floor(x), 2^(floor(x)+1)) |
| Approx.ApproxLog2OfPow2 | digest/logHistogram.go:68-80 | pow2 is positive and approxLog2(pow2(x)) = x for every real x |
| Approx.Pow2OfApproxLog2 | digest/logHistogram.go:68-80 | pow2(approxLog2(v)) = v for every positive v: the round trip tested in TestInverse |
| Approx.Pow2Increasing | digest/logHistogram.go:75-80 | pow2 is strictly increasing |
| Approx.Ldexp | digest/logHistogram.go:79 | `m * 2^k` is positive for a positive m |
| Approx.LdexpIncreasing | digest/logHistogram.go:79 | `m * 2^k` rises strictly with m |
| Approx.LdexpGrows | digest/logHistogram.go:79 | `m * 2^k` does not fall as k grows, for a positive m |
| Approx.LdexpDouble | digest/logHistogram.go:79 | `2m * 2^k = m * 2^(k+1)` |
| Counters.WrapAdd | digest/logHistogram.go:91 | uint32 addition: the plain sum when it fits, otherwise the sum less 2^32 |
| Counters.Increment | digest/logHistogram.go:91 | Go's `count[b]++` on a uint32 slice; its contract is carried by IncrementAt |
| Counters.IncrementAt | digest/logHistogram.go:91 | counter b rises by one modulo 2^32, every other counter is unchanged, and the length stays the same |
| Counters.Tally | digest/logHistogram.go:90-92 | a sequence of increments keeps the number of counters |
| Counters.TallyCounts | digest/logHistogram.go:90-92 | after a sequence of increments, counter i has risen by the number of times i was incremented, modulo 2^32 |
| Counters.TallyOrderIrrelevant | digest/logHistogram.go:90-92 | the counters do not depend on the order in which the values were added |
| Counters.TallyAppend | digest/logHistogram.go:90-92 | counters fed `a` plus fresh counters fed `b`, added element-wise, equal counters fed `a` then `b` |
| Counters.AddCounts | digest/logHistogram.go:111-113 | the element-wise uint32 sum of two counter slices of one length keeps that length |
| Counters.AddCountsAt | digest/logHistogram.go:111-113 | each counter of the sum is the sum of the two counters modulo 2^32 |
| Counters.MergeStep | digest/logHistogram.go:111-113 | one merged argument keeps the number of counters; the doubling of a self-merge is stated by SelfMergeDoubles |
| Counters.SelfMergeDoubles | digest/logHistogram.go:111-113 | merging the receiver into itself doubles each counter modulo 2^32, because counter i is read before it is written |
| Counters.SelfMergeOrderMatters | digest/logHistogram.go:107-114 | with the receiver among the arguments the merge depends on their order: counters [1] merged with (receiver, [1]) give [3], with ([1], receiver) give [4] |
| Counters.MergeAll | digest/logHistogram.go:107-114 | merging a list of arguments keeps the number of counters |
| Counters.MergePrefixStep | digest/logHistogram.go:107-114 | merging one more argument of the list is one more merge step |
| Counters.MergeAllSums | digest/logHistogram.go:107-114 | when no argument shares the receiver's counters, counter i ends as its start value plus the arguments' counters i, modulo 2^32 |
| Counters.SumAtConcat | digest/logHistogram.go:107-114 | column sums add up over concatenated argument lists |
| Counters.SumAtRemove | digest/logHistogram.go:107-114 | removing one argument lowers a column sum by that argument's counter |
| Counters.SumAtPermutation | digest/logHistogram.go:107-114 | column sums do not depend on the order of the arguments |
| Counters.SeparatePermuted | digest/logHistogram.go:107-114 | a reordering of arguments that do not share the receiver's counters shares none either |
| Counters.MergeOrderIrrelevant | digest/logHistogram.go:107-114 | merging arguments that do not share the receiver's counters gives the same counters in any order |
| Counters.ConcatInRange | digest/logHistogram.go:90-92 | concatenated sequences of valid bin indices are valid bin indices |
| Counters.TalliesOf | digest/logHistogram.go:107-114 | the counters of separately fed histograms are distinct arguments of the right length |
| Counters.MergeOfSeparatelyFed | digest/logHistogram.go:107-114 | merging histograms fed separate parts into the one fed the head gives the counters of one histogram fed head and parts in turn |
| LogHistograms.GuardedEpsilon | digest/logHistogram.go:17-21 | a precision of 0 becomes the default 0.1 scaled to 0.098; any other precision is scaled by 0.98, so dividing by 0.98 gives it back |
| LogHistograms.CheckConfig | digest/logHistogram.go:17-33 | a range error exactly when `max <= 2 min` or a bound is not positive; a precision error exactly when the range is sensible and the scaled precision is outside [1e-6, 0.5]; otherwise the scaled precision |
| LogHistograms.AcceptedEpsilons | digest/logHistogram.go:17-33 | over a sensible range, the precision is accepted exactly when it is 0 or lies in [1e-6/0.98, 0.5/0.98]; 0.6 is refused and 0.51 accepted |
| LogHistograms.TruncToInt | digest/logHistogram.go:83 | Go's `int(float)`: truncation toward zero, from below for non-negative values and from above for negative ones |
| LogHistograms.TruncMonotone | digest/logHistogram.go:83 | truncation is monotone |
| LogHistograms.PositionIncreasing | digest/logHistogram.go:82-84 | with a positive scale, the scaled log rises strictly with the value |
| LogHistograms.PositionMonotone | digest/logHistogram.go:82-84 | with a positive scale, the scaled log is monotone in the value |
| LogHistograms.BinIndexMonotone | digest/logHistogram.go:82-84 | with a positive scale, a larger value never gets a smaller bin index |
| LogHistograms.EdgePosition | digest/logHistogram.go:82-88 | the edge `pow2((k + offset) / factor)` is positive and its scaled log is exactly k |
| LogHistograms.EdgeOfZero | digest/logHistogram.go:86-88 | with the offset `approxLog2(min) * logFactor` the constructor sets, the edge of bin 0 is `min` |
| LogHistograms.OriginBin | digest/logHistogram.go:40-42 | with the offset of the constructor, `min` is at scaled position 0 and in bin 0 |
| LogHistograms.ScaleFor | digest/logHistogram.go:35 | `ln 2 / ln(1 + epsilon)` is positive for a positive precision |
| LogHistograms.NewLogHistogram | digest/logHistogram.go:16-50 | the checks' errors pass through; then a too-many-bins error exactly when the bin of `max` plus one exceeds 10000; otherwise a fresh valid histogram with the given bounds, scale `ln 2 / ln(1 + epsilon)`, offset `approxLog2(min) * scale` and that many zeroed counters |
| LogHistograms.LogHistogram.constructor | digest/logHistogram.go:36-48 | the struct with the given fields and `bins` zeroed counters |
| LogHistograms.LogHistogram.BucketIndex | digest/logHistogram.go:82-84 | the bin of a positive x is its scaled position `approxLog2(x) * logFactor - logOffset` truncated toward zero: the integer part from below when the position is not negative, from above when it is |
| LogHistograms.LogHistogram.LowerBound | digest/logHistogram.go:86-88 | every lower edge is positive |
| LogHistograms.LogHistogram.BucketIndexOfMin | digest/logHistogram.go:82-84 | with the offset the constructor sets, `min` falls into bin 0 |
| LogHistograms.LogHistogram.BucketIndexInRange | digest/logHistogram.go:82-84 | every value from `min` to `max` has a counter, given the bin count the constructor sets |
| LogHistograms.LogHistogram.LowerBoundPosition | digest/logHistogram.go:82-88 | the lower edge of bin k is at scaled position k exactly |
| LogHistograms.LogHistogram.BucketIndexOfLowerBound | digest/logHistogram.go:82-88 | BucketIndex(LowerBound(k)) = k for every integer k: every edge falls into its own bin |
| LogHistograms.LogHistogram.LowerBoundOfZero | digest/logHistogram.go:86-88 | LowerBound(0) is `min`, given the offset the constructor sets |
| LogHistograms.LogHistogram.LowerBoundIncreasing | digest/logHistogram.go:86-88 | the lower edges rise strictly with k |
| LogHistograms.LogHistogram.LowerBoundBrackets | digest/logHistogram.go:82-88 | from `min` up, a value lies in [LowerBound(b), LowerBound(b+1)) where b is its bin |
| LogHistograms.LogHistogram.TruncationWidensBinZero | digest/logHistogram.go:83 | because `int()` truncates toward zero, every value between the edges of bins -1 and 1 gets index 0 |
| LogHistograms.LogHistogram.Bucket | digest/logHistogram.go:119-127 | bucket always names an existing counter |
| LogHistograms.LogHistogram.BucketMonotone | digest/logHistogram.go:119-127 | bucket is monotone in the value, clamping included |
| LogHistograms.LogHistogram.BucketAgreesInside | digest/logHistogram.go:119-127 | on [min, max] bucket equals BucketIndex; only values outside are clamped |
| LogHistograms.LogHistogram.Bins | digest/logHistogram.go:119-127 | the buckets of a sequence of values, one per value, all naming existing counters |
| LogHistograms.LogHistogram.CountsAfter | digest/logHistogram.go:90-92 | a fresh histogram fed a sequence of values keeps its number of counters |
| LogHistograms.LogHistogram.CountsAfterAdd | digest/logHistogram.go:90-92 | one more Add of v raises the counter of bucket(v) of the fed counters by one |
| LogHistograms.LogHistogram.BinsConcat | digest/logHistogram.go:90-92 | the buckets of concatenated value sequences are the concatenated buckets |
| LogHistograms.LogHistogram.BinsOfParts | digest/logHistogram_test.go:45-54 | the bins of each part of a stream, one sequence per part, all naming existing counters |
| LogHistograms.LogHistogram.TalliesOfParts | digest/logHistogram_test.go:45-54 | counting the bins of each part equals feeding each part to a fresh histogram |
| LogHistograms.LogHistogram.BinsOfWhole | digest/logHistogram_test.go:45-54 | the bins of a whole stream are the bins of its head followed by those of its parts |
| LogHistograms.LogHistogram.SeparateFeedsMerge | digest/logHistogram_test.go:39-86 | histograms fed separate parts of a stream, merged into the one fed the head, hold the counters of one histogram fed the whole stream |
| LogHistograms.LogHistogram.Add | digest/logHistogram.go:90-92 | the counter of bucket(v) rises by one modulo 2^32; no other counter changes |
| LogHistograms.LogHistogram.GetBounds | digest/logHistogram.go:94-100 | a fresh array with one lower edge per counter; it starts at `min`, rises strictly, and its last edge is at most `max` |
| LogHistograms.LogHistogram.GetCounts | digest/logHistogram.go:102-104 | the histogram's own counter array, not a copy |
| LogHistograms.LogHistogram.CompatibleWith | digest/logHistogram.go:108 | the merge test: a histogram that passes has the same number of counters, and every histogram passes against itself |
| LogHistograms.LogHistogram.FirstIncompatible | digest/logHistogram.go:107-110 | the position of the first argument with other bounds or another bin count; all arguments before it match |
| LogHistograms.LogHistogram.PassesBeyond | digest/logHistogram.go:107-110 | an argument that passes the merge test, at or before the first failing one, lies before it, so the merge goes on past it |
| LogHistograms.LogHistogram.Operands | digest/logHistogram.go:107-113 | what each argument adds: a snapshot of its counters, or the receiver's own counters when it shares them |
| LogHistograms.LogHistogram.AddCountsFrom | digest/logHistogram.go:111-113 | the counters become the element-wise uint32 sum of their old values and the source's old values, even when the source is the same array |
| LogHistograms.LogHistogram.AddHistograms | digest/logHistogram.go:106-116 | success exactly when every argument matches; otherwise an incompatibility error. The arguments before the first mismatch are merged in order and no later one is |

## Left out

- Floating point is modelled by the reals. The model leaves out the bit layout of doubles, subnormals, zero, infinities, NaN and rounding. The exact inverse `pow2(approxLog2(v)) = v` is proved over the reals. The source's test allows it a rounding error of 1e-13.
- The ±0.01 error bound of approxLog2 against the true log2 is not proved, because the model has no true logarithm. TestBoundaries' bound on the ratio of neighbouring edges is not proved either: it compares against `math.Exp`, which is not modelled.
- `math.Log` and `math.Sqrt` are parameters of the model. Only the properties the proofs use are assumed of them: `ln` is positive above 1, and `sqrt` returns the non-negative root.
- The totals TestLogHistogram_Add expects in the first bin (17) and the last bin (16) are not stated. They include values clamped by bucket and values inside those bins, and where the bin edges fall depends on `logFactor`, which the model leaves open through the parameter `ln`. The test's merge half is modelled by `SeparateFeedsMerge`.
- LogHistograms.LogHistogram.BucketIndex: not modelled for zero or negative arguments, where approxLog2 reads the sign and exponent bits of an IEEE double. bucket never passes it one, so Add and GetBounds are fully covered.
- Go's `int` conversion of a float out of the 64-bit range and Go's `int` overflow are not modelled. The bin count is bounded by 10000 before any array is allocated.
- Nil receivers and nil arguments are not modelled. A merged argument is a `LogHistogram` reference.
- LogHistograms.LogHistogram.AddHistograms: the compatibility test checks only `min`, `max` and the number of counters, exactly as the source does. Histograms with equal bounds but different precisions can have the same number of bins and be merged, though their bins differ. The model reproduces this rather than adding a check of `logFactor`.
- LogHistograms.NewLogHistogram: the error messages are kept only as error kinds.
- Concurrency is not modelled. The source does not synchronise updates to the counters.
