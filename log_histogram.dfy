/**
 * LogHistogram of digest/logHistogram.go: a fixed array of 32-bit counters whose bins
 * are very nearly logarithmically spaced from `min` to `max`.  A value's bin is found
 * by scaling `ApproxLog2` of it; the bin edges are `Pow2` of the scaled edge numbers,
 * so every edge falls exactly into its own bin.  Histograms built with the same bounds
 * can be merged by adding their counters.
 *
 * Floating point is modelled by the reals; `math.Log` and `math.Sqrt`, which the
 * source calls, are parameters `ln` and `sqrt` with the properties the proofs use.
 */
module LogHistograms {
  import opened Approx
  import opened Counters

  /** The kinds of error the source returns (it builds a message; only the kind is kept). */
  datatype Error = RangeError | PrecisionError | TooManyBins | Incompatible

  datatype Result<T> = Ok(value: T) | Err(error: Error)

  /** The outcome of an operation that returns only an error or nil. */
  datatype Outcome = Pass | Fail(error: Error)

  /** The precision used when the caller passes 0. */
  const DefaultEpsilon: real := 0.1
  /** The factor the precision is scaled by, to make up for the error of ApproxLog2. */
  const GuardBand: real := 0.98
  /** The accepted range of the scaled precision. */
  const MinEpsilon: real := 0.000001
  const MaxEpsilon: real := 0.5
  /** The most bins a histogram may have. */
  const MaxBins: int := 10000

  /** The precision the bins are laid out for: the default in place of 0, less the guard band. */
  function GuardedEpsilon(epsilonFactor: real): (r: real)
    ensures epsilonFactor == 0.0 ==> r == 0.098
    ensures epsilonFactor != 0.0 ==> r / GuardBand == epsilonFactor
  {
    (if epsilonFactor == 0.0 then DefaultEpsilon else epsilonFactor) * GuardBand
  }

  /**
   * The argument checks of NewLogHistogram, in the source's order: the two range checks,
   * then the check of the precision after the guard band is applied.  On success, the
   * precision to use.
   */
  function CheckConfig(min: real, max: real, epsilonFactor: real): (r: Result<real>)
    ensures r == Err(RangeError) <==> max <= 2.0 * min || min <= 0.0 || max <= 0.0
    ensures r == Err(PrecisionError) <==>
              0.0 < min && 2.0 * min < max &&
              !(MinEpsilon <= GuardedEpsilon(epsilonFactor) <= MaxEpsilon)
    ensures r.Err? ==> r.error == RangeError || r.error == PrecisionError
    ensures r.Ok? ==> r.value == GuardedEpsilon(epsilonFactor) && MinEpsilon <= r.value <= MaxEpsilon
  {
    var epsilon := GuardedEpsilon(epsilonFactor);
    if max <= 2.0 * min then Err(RangeError)
    else if min <= 0.0 || max <= 0.0 then Err(RangeError)
    else if epsilon < MinEpsilon || epsilon > MaxEpsilon then Err(PrecisionError)
    else Ok(epsilon)
  }

  /**
   * Over a sensible range, the precisions accepted are 0 (the default) and those whose
   * scaled value lies in [MinEpsilon, MaxEpsilon]: 0.6 is refused, since 0.6 * 0.98 is
   * above 0.5, while 0.51 is accepted, since 0.51 * 0.98 is not.
   */
  lemma AcceptedEpsilons(min: real, max: real, epsilonFactor: real)
    requires 0.0 < min && 2.0 * min < max
    ensures CheckConfig(min, max, epsilonFactor).Ok? <==>
              epsilonFactor == 0.0 ||
              MinEpsilon / GuardBand <= epsilonFactor <= MaxEpsilon / GuardBand
    ensures CheckConfig(min, max, 0.6) == Err(PrecisionError)
    ensures CheckConfig(min, max, 0.51) == Ok(0.51 * GuardBand)
  {
  }

  /** Go's conversion `int(t)` of a float: truncation toward zero. */
  function TruncToInt(t: real): (r: int)
    ensures 0.0 <= t ==> r as real <= t < r as real + 1.0
    ensures t < 0.0 ==> r as real - 1.0 < t <= r as real
  {
    if 0.0 <= t then t.Floor else -((-t).Floor)
  }

  lemma TruncMonotone(s: real, t: real)
    requires s <= t
    ensures TruncToInt(s) <= TruncToInt(t)
  {
  }

  /**
   * Where a positive x lies on the axis of bins: its approximate log, scaled and shifted
   * so that bin k covers the positions from k up to k + 1.
   */
  function BinPosition(logFactor: real, logOffset: real, x: real): real
    requires 0.0 < x
  {
    ApproxLog2(x) * logFactor - logOffset
  }

  /** The bin of a positive x: its position truncated toward zero. */
  function BinIndex(logFactor: real, logOffset: real, x: real): int
    requires 0.0 < x
  {
    TruncToInt(BinPosition(logFactor, logOffset, x))
  }

  /** Positions rise strictly with the value. */
  lemma PositionIncreasing(logFactor: real, logOffset: real, x: real, y: real)
    requires 0.0 < logFactor && 0.0 < x < y
    ensures BinPosition(logFactor, logOffset, x) < BinPosition(logFactor, logOffset, y)
  {
    var p, q := BinPosition(logFactor, logOffset, x), BinPosition(logFactor, logOffset, y);
    assert p == ApproxLog2(x) * logFactor - logOffset;
    assert q == ApproxLog2(y) * logFactor - logOffset;
    ApproxLog2Increasing(x, y);
    MulStrict(ApproxLog2(x), ApproxLog2(y), logFactor);
  }

  lemma PositionMonotone(logFactor: real, logOffset: real, x: real, y: real)
    requires 0.0 < logFactor && 0.0 < x <= y
    ensures BinPosition(logFactor, logOffset, x) <= BinPosition(logFactor, logOffset, y)
  {
    if x < y {
      PositionIncreasing(logFactor, logOffset, x, y);
    }
  }

  /** pow2 of the log that bin k's edge maps back to lies at position k exactly. */
  lemma EdgePosition(logFactor: real, logOffset: real, k: int, sqrt: real -> real)
    requires logFactor != 0.0 && IsSqrt(sqrt)
    ensures 0.0 < Pow2((k as real + logOffset) / logFactor, sqrt)
    ensures BinPosition(logFactor, logOffset, Pow2((k as real + logOffset) / logFactor, sqrt)) == k as real
  {
    var y := (k as real + logOffset) / logFactor;
    var edge := Pow2(y, sqrt);
    ApproxLog2OfPow2(y, sqrt);
    var a := ApproxLog2(edge);
    assert a == y;
    var p := BinPosition(logFactor, logOffset, edge);
    assert p == a * logFactor - logOffset;
    Rescale(a, k as real, logFactor, logOffset);
  }

  /** With the offset of NewLogHistogram, the edge of bin 0 is `min` itself. */
  lemma EdgeOfZero(logFactor: real, logOffset: real, min: real, sqrt: real -> real)
    requires logFactor != 0.0 && 0.0 < min && IsSqrt(sqrt)
    requires logOffset == ApproxLog2(min) * logFactor
    ensures Pow2((0 as real + logOffset) / logFactor, sqrt) == min
  {
    var a := ApproxLog2(min);
    var y := (0 as real + logOffset) / logFactor;
    Unscale(a, logOffset, logFactor);
    assert y == a;
    Pow2OfApproxLog2(min, sqrt);
  }

  /** A larger value never falls into an earlier bin. */
  lemma BinIndexMonotone(logFactor: real, logOffset: real, x: real, y: real)
    requires 0.0 < logFactor && 0.0 < x <= y
    ensures BinIndex(logFactor, logOffset, x) <= BinIndex(logFactor, logOffset, y)
  {
    PositionMonotone(logFactor, logOffset, x, y);
    TruncMonotone(BinPosition(logFactor, logOffset, x), BinPosition(logFactor, logOffset, y));
  }

  /** With the offset of NewLogHistogram, `min` sits at position 0 and so in bin 0. */
  lemma OriginBin(logFactor: real, logOffset: real, min: real)
    requires 0.0 < min && logOffset == ApproxLog2(min) * logFactor
    ensures BinPosition(logFactor, logOffset, min) == 0.0
    ensures BinIndex(logFactor, logOffset, min) == 0
  {
    var p := BinPosition(logFactor, logOffset, min);
    assert p == ApproxLog2(min) * logFactor - logOffset;
  }

  /** The logarithm routine the source calls, as a parameter: positive above 1. */
  ghost predicate IsLogLike(ln: real -> real)
  {
    forall x :: 1.0 < x ==> 0.0 < ln(x)
  }

  lemma Unscale(a: real, offset: real, factor: real)
    requires factor != 0.0 && offset == a * factor
    ensures (0 as real + offset) / factor == a
  {
  }

  /** A position mapped back to a log by `(k + offset) / factor` maps forward to k again. */
  lemma Rescale(a: real, k: real, factor: real, offset: real)
    requires factor != 0.0 && a == (k + offset) / factor
    ensures a * factor - offset == k
  {
  }

  lemma DivPos(a: real, b: real)
    requires 0.0 < a && 0.0 < b
    ensures 0.0 < a / b
  {
  }

  /** The scale of NewLogHistogram: positions per doubling, `ln 2 / ln(1 + epsilon)`. */
  function ScaleFor(epsilon: real, ln: real -> real): (r: real)
    requires IsLogLike(ln) && 0.0 < epsilon
    ensures 0.0 < r
  {
    DivPos(ln(2.0), ln(1.0 + epsilon));
    ln(2.0) / ln(1.0 + epsilon)
  }

  /** The offset of NewLogHistogram: the one that puts `min` at position 0. */
  function OffsetFor(min: real, logFactor: real): real
    requires 0.0 < min
  {
    ApproxLog2(min) * logFactor
  }

  /** The number of counters NewLogHistogram allocates: the bin of `max`, plus one. */
  function BinCountFor(min: real, max: real, logFactor: real): int
    requires 0.0 < min && 0.0 < max
  {
    BinIndex(logFactor, OffsetFor(min, logFactor), max) + 1
  }

  /**
   * NewLogHistogram: checks its arguments in the source's order, derives the scale
   * `logFactor = ln 2 / ln(1 + epsilon)` and the offset that puts `min` at position 0,
   * sizes the counters to the bin of `max` plus one, and refuses more than MaxBins.
   */
  method NewLogHistogram(min: real, max: real, epsilonFactor: real, ln: real -> real)
    returns (r: Result<LogHistogram>)
    requires IsLogLike(ln)
    ensures var c := CheckConfig(min, max, epsilonFactor);
      c.Err? ==> r == Err(c.error)
    ensures var c := CheckConfig(min, max, epsilonFactor);
      c.Ok? && MaxBins < BinCountFor(min, max, ScaleFor(c.value, ln)) ==> r == Err(TooManyBins)
    ensures var c := CheckConfig(min, max, epsilonFactor);
      c.Ok? && BinCountFor(min, max, ScaleFor(c.value, ln)) <= MaxBins ==>
        var logFactor := ScaleFor(c.value, ln);
        && r.Ok? && fresh(r.value) && fresh(r.value.count) && r.value.Valid()
        && r.value.min == min && r.value.max == max
        && r.value.logFactor == logFactor
        && r.value.logOffset == OffsetFor(min, logFactor)
        && r.value.count[..] == Zeros(BinCountFor(min, max, logFactor))
  {
    var checked := CheckConfig(min, max, epsilonFactor);
    if checked.Err? {
      return Err(checked.error);
    }
    var epsilon := checked.value;
    var tmp := ScaleFor(epsilon, ln);
    var logOffset := OffsetFor(min, tmp);
    var binCount := BinCountFor(min, max, tmp);
    if binCount > MaxBins {
      return Err(TooManyBins);
    }
    OriginBin(tmp, logOffset, min);
    BinIndexMonotone(tmp, logOffset, min, max);
    var h := new LogHistogram(min, max, tmp, logOffset, binCount);
    assert h.BucketIndex(max) == binCount - 1;
    return Ok(h);
  }

  class LogHistogram {
    const min: real
    const max: real
    const logFactor: real
    const logOffset: real
    /** The slice header never changes after construction; only the counters do. */
    const count: array<uint32>

    /**
     * What NewLogHistogram establishes: a sensible range, a positive scale, `min` at
     * position 0, and one counter for each bin from that of `min` to that of `max`.
     */
    ghost predicate Valid()
    {
      && 0.0 < min && 2.0 * min < max
      && 0.0 < logFactor
      && logOffset == ApproxLog2(min) * logFactor
      && count.Length == BucketIndex(max) + 1
      && 0 < count.Length <= MaxBins
    }

    /** The struct NewLogHistogram returns, with `bins` zeroed counters. */
    constructor (min: real, max: real, logFactor: real, logOffset: real, bins: nat)
      ensures this.min == min && this.max == max
      ensures this.logFactor == logFactor && this.logOffset == logOffset
      ensures fresh(count) && count.Length == bins && count[..] == Zeros(bins)
    {
      this.min := min;
      this.max := max;
      this.logFactor := logFactor;
      this.logOffset := logOffset;
      count := new uint32[bins](_ => 0);
    }

    /** The bin of a positive x: the integer part of its position, truncated toward zero. */
    function BucketIndex(x: real): (r: int)
      requires 0.0 < x
      ensures var p := ApproxLog2(x) * logFactor - logOffset;
        0.0 <= p ==> r as real <= p < r as real + 1.0
      ensures var p := ApproxLog2(x) * logFactor - logOffset;
        p < 0.0 ==> r as real - 1.0 < p <= r as real
    {
      BinIndex(logFactor, logOffset, x)
    }

    /** The lower edge of bin k: pow2 of the bin's position mapped back to a log. */
    function LowerBound(k: int, sqrt: real -> real): (r: real)
      requires IsSqrt(sqrt) && logFactor != 0.0
      ensures 0.0 < r
    {
      ApproxLog2OfPow2((k as real + logOffset) / logFactor, sqrt);
      Pow2((k as real + logOffset) / logFactor, sqrt)
    }

    /** `min` falls at position 0 exactly, so into bin 0. */
    lemma BucketIndexOfMin()
      requires Valid()
      ensures BucketIndex(min) == 0
    {
    }

    /** Every value from `min` to `max` has a bin with a counter. */
    lemma BucketIndexInRange(x: real)
      requires Valid() && min <= x <= max
      ensures 0 <= BucketIndex(x) < count.Length
    {
      BinIndexMonotone(logFactor, logOffset, min, x);
      BinIndexMonotone(logFactor, logOffset, x, max);
    }

    /** The lower edge of bin k sits at position k exactly. */
    lemma LowerBoundPosition(k: int, sqrt: real -> real)
      requires logFactor != 0.0 && IsSqrt(sqrt)
      ensures BinPosition(logFactor, logOffset, LowerBound(k, sqrt)) == k as real
    {
      EdgePosition(logFactor, logOffset, k, sqrt);
    }

    /** Each lower edge falls into its own bin: LowerBound inverts BucketIndex. */
    lemma BucketIndexOfLowerBound(k: int, sqrt: real -> real)
      requires Valid() && IsSqrt(sqrt)
      ensures BucketIndex(LowerBound(k, sqrt)) == k
    {
      LowerBoundPosition(k, sqrt);
    }

    /** The lower edge of bin 0 is `min` itself. */
    lemma LowerBoundOfZero(sqrt: real -> real)
      requires Valid() && IsSqrt(sqrt)
      ensures LowerBound(0, sqrt) == min
    {
      EdgeOfZero(logFactor, logOffset, min, sqrt);
    }

    /** The edges are strictly increasing. */
    lemma LowerBoundIncreasing(j: int, k: int, sqrt: real -> real)
      requires Valid() && IsSqrt(sqrt) && j < k
      ensures LowerBound(j, sqrt) < LowerBound(k, sqrt)
    {
      var a, b := LowerBound(j, sqrt), LowerBound(k, sqrt);
      LowerBoundPosition(j, sqrt);
      LowerBoundPosition(k, sqrt);
      if b <= a {
        PositionMonotone(logFactor, logOffset, b, a);
        assert false;
      }
    }

    /** From `min` up, a value lies between the lower edge of its bin and that of the next. */
    lemma LowerBoundBrackets(x: real, sqrt: real -> real)
      requires Valid() && IsSqrt(sqrt) && min <= x
      ensures LowerBound(BucketIndex(x), sqrt) <= x < LowerBound(BucketIndex(x) + 1, sqrt)
    {
      var b := BucketIndex(x);
      PositionMonotone(logFactor, logOffset, min, x);
      var lo, hi := LowerBound(b, sqrt), LowerBound(b + 1, sqrt);
      LowerBoundPosition(b, sqrt);
      LowerBoundPosition(b + 1, sqrt);
      if x < lo {
        PositionIncreasing(logFactor, logOffset, x, lo);
        assert false;
      }
      if hi <= x {
        PositionMonotone(logFactor, logOffset, hi, x);
        assert false;
      }
    }

    /**
     * Truncation toward zero makes bin 0 of BucketIndex twice as wide as the others: the
     * values between the edge of bin -1 and that of bin 1 all land in it.  (bucket
     * itself sends every value up to `min` to bin 0.)
     */
    lemma TruncationWidensBinZero(x: real, sqrt: real -> real)
      requires Valid() && IsSqrt(sqrt)
      requires LowerBound(-1, sqrt) < x < LowerBound(1, sqrt)
      ensures BucketIndex(x) == 0
    {
      LowerBoundPosition(-1, sqrt);
      LowerBoundPosition(1, sqrt);
      PositionIncreasing(logFactor, logOffset, LowerBound(-1, sqrt), x);
      PositionIncreasing(logFactor, logOffset, x, LowerBound(1, sqrt));
    }

    /** bucket: values up to `min` go to the first bin, from `max` on to the last. */
    function Bucket(x: real): (r: int)
      requires Valid()
      ensures 0 <= r < count.Length
    {
      if x <= min then 0
      else if x >= max then count.Length - 1
      else
        BucketIndexInRange(x);
        BucketIndex(x)
    }

    /** Clamping keeps the bins in order of value. */
    lemma BucketMonotone(x: real, y: real)
      requires Valid() && x <= y
      ensures Bucket(x) <= Bucket(y)
    {
      if min < x && y < max {
        BinIndexMonotone(logFactor, logOffset, x, y);
      }
    }

    /** Within [min, max], clamping changes nothing: bucket agrees with BucketIndex. */
    lemma BucketAgreesInside(x: real)
      requires Valid() && min <= x <= max
      ensures Bucket(x) == BucketIndex(x)
    {
      if x == min {
        BucketIndexOfMin();
      }
    }

    /** The bins of a sequence of values. */
    function Bins(vs: seq<real>): (r: seq<int>)
      requires Valid()
      ensures |r| == |vs| && InRange(r, count.Length)
    {
      seq(|vs|, k requires 0 <= k < |vs| => Bucket(vs[k]))
    }

    /** The counters a histogram laid out like this one holds after being fed `vs` fresh. */
    function CountsAfter(vs: seq<real>): (r: seq<uint32>)
      requires Valid()
      ensures |r| == count.Length
    {
      Tally(Zeros(count.Length), Bins(vs))
    }

    /** One more Add extends the values fed by one. */
    lemma CountsAfterAdd(vs: seq<real>, v: real)
      requires Valid()
      ensures Increment(CountsAfter(vs), Bucket(v)) == CountsAfter(vs + [v])
    {
      assert Bins(vs + [v])[..|vs|] == Bins(vs);
    }

    lemma {:induction false} BinsConcat(parts: seq<seq<real>>)
      requires Valid()
      ensures Bins(Concat(parts)) == Concat(seq(|parts|, k requires 0 <= k < |parts| => Bins(parts[k])))
      decreases |parts|
    {
      var binParts := seq(|parts|, k requires 0 <= k < |parts| => Bins(parts[k]));
      if parts != [] {
        var init := parts[..|parts| - 1];
        BinsConcat(init);
        assert binParts[..|parts| - 1] == seq(|init|, k requires 0 <= k < |init| => Bins(init[k]));
        assert Bins(Concat(init) + parts[|parts| - 1]) == Bins(Concat(init)) + Bins(parts[|parts| - 1]);
      }
    }

    /**
     * The merge test of the source: histograms with this layout fed separate parts of a
     * stream, merged into the one fed the head of the stream, hold the counters of one
     * histogram fed the whole stream.
     */
    lemma SeparateFeedsMerge(head: seq<real>, parts: seq<seq<real>>)
      requires Valid()
      ensures MergeAll(CountsAfter(head),
                       seq(|parts|, k requires 0 <= k < |parts| => Counts(CountsAfter(parts[k]))))
              == CountsAfter(head + Concat(parts))
    {
      var binParts := BinsOfParts(parts);
      TalliesOfParts(parts);
      BinsOfWhole(head, parts);
      MergeOfSeparatelyFed(Zeros(count.Length), Bins(head), binParts);
    }

    /** The bins of each part of a stream. */
    function BinsOfParts(parts: seq<seq<real>>): (r: seq<seq<int>>)
      requires Valid()
      ensures |r| == |parts|
      ensures forall k :: 0 <= k < |parts| ==> r[k] == Bins(parts[k]) && InRange(r[k], count.Length)
    {
      seq(|parts|, k requires 0 <= k < |parts| => Bins(parts[k]))
    }

    /** Counting the bins of each part is feeding a fresh histogram that part. */
    lemma TalliesOfParts(parts: seq<seq<real>>)
      requires Valid()
      ensures TalliesOf(count.Length, BinsOfParts(parts))
              == seq(|parts|, k requires 0 <= k < |parts| => Counts(CountsAfter(parts[k])))
    {
      var tallies := TalliesOf(count.Length, BinsOfParts(parts));
      var fed := seq(|parts|, k requires 0 <= k < |parts| => Counts(CountsAfter(parts[k])));
      forall k | 0 <= k < |parts| ensures tallies[k] == fed[k] {
      }
    }

    /** The bins of a whole stream are the bins of its head followed by those of its parts. */
    lemma BinsOfWhole(head: seq<real>, parts: seq<seq<real>>)
      requires Valid()
      ensures Bins(head + Concat(parts)) == Bins(head) + Concat(BinsOfParts(parts))
    {
      var whole := head + Concat(parts);
      BinsConcat(parts);
      assert BinsOfParts(parts) == seq(|parts|, k requires 0 <= k < |parts| => Bins(parts[k]));
      forall i | 0 <= i < |whole| ensures Bins(whole)[i] == (Bins(head) + Bins(Concat(parts)))[i] {
      }
    }

    /** Add: one more value counted, in its bucket, modulo 2^32; nothing else changes. */
    method Add(v: real)
      requires Valid()
      modifies count
      ensures count[..] == Increment(old(count[..]), Bucket(v))
    {
      var b := Bucket(v);
      count[b] := WrapAdd(count[b], 1);
    }

    /**
     * GetBounds: a fresh array of the lower edges of all bins; they start at `min`, rise
     * strictly, and the last does not exceed `max`.
     */
    method GetBounds(sqrt: real -> real) returns (r: array<real>)
      requires Valid() && IsSqrt(sqrt)
      ensures fresh(r) && r.Length == count.Length
      ensures forall i :: 0 <= i < r.Length ==> r[i] == LowerBound(i, sqrt)
      ensures r[0] == min && r[r.Length - 1] <= max
      ensures forall i, j :: 0 <= i < j < r.Length ==> r[i] < r[j]
    {
      r := new real[count.Length];
      for i := 0 to r.Length
        invariant forall j :: 0 <= j < i ==> r[j] == LowerBound(j, sqrt)
      {
        r[i] := LowerBound(i, sqrt);
      }
      LowerBoundOfZero(sqrt);
      LowerBoundBrackets(max, sqrt);
      forall i, j | 0 <= i < j < r.Length
        ensures r[i] < r[j]
      {
        LowerBoundIncreasing(i, j, sqrt);
      }
    }

    /** GetCounts: the histogram's own counter array, not a copy. */
    method GetCounts() returns (r: array<uint32>)
      ensures r == count
    {
      r := count;
    }

    /** The test AddHistograms applies: the same bounds and the same number of bins. */
    predicate CompatibleWith(other: LogHistogram): (b: bool)
      ensures b ==> other.count.Length == count.Length
      ensures other == this ==> b
    {
      other.min == min && other.max == max && other.count.Length == count.Length
    }

    /** The position of the first argument that fails the test, or |others| if none does. */
    function FirstIncompatible(others: seq<LogHistogram>): (k: nat)
      ensures k <= |others|
      ensures forall j :: 0 <= j < k ==> CompatibleWith(others[j])
      ensures k < |others| ==> !CompatibleWith(others[k])
      decreases |others|
    {
      if others == [] then 0
      else if !CompatibleWith(others[0]) then 0
      else 1 + FirstIncompatible(others[1..])
    }

    /** An argument that passes the test, at or before the first failure, is not it. */
    lemma PassesBeyond(others: seq<LogHistogram>, j: int)
      requires 0 <= j < |others| && j <= FirstIncompatible(others) && CompatibleWith(others[j])
      ensures j < FirstIncompatible(others)
    {
    }

    /** What merging `other` adds: this histogram's own counters, or a snapshot of other's. */
    function OperandOf(other: LogHistogram): (r: Operand)
      reads other.count
      ensures r.Counts? ==> |r.counts| == other.count.Length
    {
      if other.count == count then Receiver else Counts(other.count[..])
    }

    function Operands(others: seq<LogHistogram>): (r: seq<Operand>)
      reads set o | o in others :: o.count
      ensures |r| == |others|
      ensures forall j :: 0 <= j < |others| ==> r[j] == OperandOf(others[j])
      decreases |others|
    {
      if others == [] then []
      else Operands(others[..|others| - 1]) + [OperandOf(others[|others| - 1])]
    }

    /**
     * The inner loop of AddHistograms: adds `source` into the counters element by element,
     * modulo 2^32.  Element i of `source` is read after elements below i were written, so
     * when `source` is the histogram's own array each counter is doubled.
     */
    method AddCountsFrom(source: array<uint32>)
      requires source.Length == count.Length
      modifies count
      ensures count[..] == AddCounts(old(count[..]), old(source[..]))
    {
      ghost var mid := count[..];
      ghost var src := source[..];
      var i := 0;
      while i < source.Length
        invariant 0 <= i <= count.Length
        invariant forall m :: 0 <= m < i ==> count[m] == WrapAdd(mid[m], src[m])
        invariant forall m :: i <= m < count.Length ==> count[m] == mid[m] && source[m] == src[m]
      {
        count[i] := WrapAdd(count[i], source[i]);
        i := i + 1;
      }
    }

    /**
     * AddHistograms: merges the arguments in order, adding each one's counters into this
     * histogram's element by element, modulo 2^32.  It stops with an error at the first
     * argument whose bounds or bin count differ, before touching any counter for it;
     * the merges before it are kept.  The arguments' own counters are never changed
     * (unless an argument shares this histogram's counters).
     */
    method AddHistograms(others: seq<LogHistogram>) returns (result: Outcome)
      modifies count
      ensures result == Pass <==> FirstIncompatible(others) == |others|
      ensures result.Fail? ==> result.error == Incompatible
      ensures Fits(old(Operands(others))[..FirstIncompatible(others)], count.Length)
      ensures count[..] == MergeAll(old(count[..]), old(Operands(others))[..FirstIncompatible(others)])
    {
      ghost var before := count[..];
      ghost var ops := Operands(others);
      var j := 0;
      while j < |others|
        invariant 0 <= j <= |others|
        invariant j <= FirstIncompatible(others)
        invariant Fits(ops[..j], |before|)
        invariant count[..] == MergeAll(before, ops[..j])
      {
        var other := others[j];
        if !CompatibleWith(other) {
          assert FirstIncompatible(others) == j;
          return Fail(Incompatible);
        }
        ghost var mid := count[..];
        AddCountsFrom(other.count);
        assert count[..] == MergeStep(mid, ops[j]);
        MergePrefixStep(before, ops, j);
        PassesBeyond(others, j);
        j := j + 1;
      }
      assert FirstIncompatible(others) == |others|;
      return Pass;
    }
  }
}
