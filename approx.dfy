/**
 * The approximate base-2 logarithm of digest/logHistogram.go and its exact inverse,
 * stated over the reals.
 *
 * A positive double is its exponent field and its fraction field; here it is the
 * normal form `mantissa * 2^exponent` with `mantissa` in [1, 2).  `ApproxLog2` replaces
 * log2 of the mantissa by a quadratic, and `Pow2` undoes that quadratic with the
 * quadratic formula, so that the two are exact inverses of each other.
 */
module Approx {

  lemma MulNonneg(a: real, b: real)
    requires 0.0 <= a && 0.0 <= b
    ensures 0.0 <= a * b
  {
  }

  lemma MulPos(a: real, b: real)
    requires 0.0 < a && 0.0 < b
    ensures 0.0 < a * b
  {
  }

  lemma MulMono(a: real, b: real, c: real)
    requires a <= b && 0.0 <= c
    ensures a * c <= b * c
  {
    MulNonneg(b - a, c);
    assert (b - a) * c == b * c - a * c;
  }

  lemma MulStrict(a: real, b: real, c: real)
    requires a < b && 0.0 < c
    ensures a * c < b * c
  {
    MulPos(b - a, c);
    assert (b - a) * c == b * c - a * c;
  }

  /**
   * `m * 2^k` for every integer k, by doubling or halving m |k| times (the
   * source's `math.Pow(2, k) * m`).  It is linear in m, so proofs about it stay linear.
   */
  function Ldexp(m: real, k: int): (r: real)
    ensures 0.0 < m ==> 0.0 < r
    decreases if k < 0 then -k else k
  {
    if k == 0 then m
    else if 0 < k then 2.0 * Ldexp(m, k - 1)
    else Ldexp(m, k + 1) / 2.0
  }

  /** 2^k as a real. */
  function TwoPow(k: int): real
  {
    Ldexp(1.0, k)
  }

  lemma LdexpStep(m: real, k: int)
    ensures Ldexp(m, k + 1) == 2.0 * Ldexp(m, k)
  {
    if k < 0 {
      assert Ldexp(m, k) == Ldexp(m, k + 1) / 2.0;
    }
  }

  /** Doubling the mantissa is the same as raising the exponent by one. */
  lemma {:induction false} LdexpDouble(m: real, k: int)
    ensures Ldexp(2.0 * m, k) == Ldexp(m, k + 1)
    decreases if k < 0 then -k else k
  {
    LdexpStep(m, k);
    if 0 < k {
      LdexpDouble(m, k - 1);
      LdexpStep(m, k - 1);
    } else if k < 0 {
      LdexpDouble(m, k + 1);
      LdexpStep(m, k + 1);
    }
  }

  /** For a fixed exponent, a larger mantissa gives a larger value. */
  lemma {:induction false} LdexpIncreasing(a: real, b: real, k: int)
    requires a < b
    ensures Ldexp(a, k) < Ldexp(b, k)
    decreases if k < 0 then -k else k
  {
    if 0 < k {
      LdexpIncreasing(a, b, k - 1);
    } else if k < 0 {
      LdexpIncreasing(a, b, k + 1);
    }
  }

  /** For a fixed positive mantissa, a larger exponent gives a larger value. */
  lemma {:induction false} LdexpGrows(m: real, j: int, k: int)
    requires 0.0 < m && j <= k
    ensures Ldexp(m, j) <= Ldexp(m, k)
    decreases k - j
  {
    if j < k {
      LdexpGrows(m, j, k - 1);
      LdexpStep(m, k - 1);
    }
  }

  /**
   * A positive real in normalised binary form: `mantissa * 2^exponent`.  This is the
   * information the source reads out of the exponent and fraction bits of a double.
   */
  datatype Normal = Normal(mantissa: real, exponent: int)
  {
    predicate Valid()
    {
      1.0 <= mantissa < 2.0
    }

    function Value(): real
    {
      Ldexp(mantissa, exponent)
    }
  }

  /** A larger exponent always means a larger value, whatever the mantissas. */
  lemma ExponentDominates(a: Normal, b: Normal)
    requires a.Valid() && b.Valid() && a.exponent < b.exponent
    ensures a.Value() < b.Value()
  {
    LdexpIncreasing(a.mantissa, 2.0, a.exponent);
    LdexpDouble(1.0, a.exponent);
    LdexpGrows(1.0, a.exponent + 1, b.exponent);
    if 1.0 < b.mantissa {
      LdexpIncreasing(1.0, b.mantissa, b.exponent);
    }
  }

  /** Every positive real has exactly one normal form. */
  lemma NormalUnique(a: Normal, b: Normal)
    requires a.Valid() && b.Valid() && a.Value() == b.Value()
    ensures a == b
  {
    if a.exponent < b.exponent {
      ExponentDominates(a, b);
      assert false;
    } else if b.exponent < a.exponent {
      ExponentDominates(b, a);
      assert false;
    }
    if a.mantissa < b.mantissa {
      LdexpIncreasing(a.mantissa, b.mantissa, a.exponent);
      assert false;
    } else if b.mantissa < a.mantissa {
      LdexpIncreasing(b.mantissa, a.mantissa, a.exponent);
      assert false;
    }
  }

  /** The measure `Decompose` recurses on: how far a value is from [1, 2). */
  function Distance(v: real): int
    requires 0.0 < v
  {
    if 2.0 <= v then v.Floor else if v < 1.0 then (1.0 / v).Floor else 0
  }

  lemma FloorHalves(x: real)
    requires 1.0 <= x
    ensures 0 <= (x / 2.0).Floor < x.Floor
  {
  }

  lemma DistanceShrinks(v: real)
    requires 0.0 < v
    ensures 2.0 <= v ==> 0 <= Distance(v / 2.0) < Distance(v)
    ensures v < 1.0 ==> 0 <= Distance(2.0 * v) < Distance(v)
  {
    if v < 1.0 {
      var w := 1.0 / v;
      assert 1.0 < w by {
        assert w * v == 1.0;
      }
      assert 1.0 / (2.0 * v) == w / 2.0;
      FloorHalves(w);
    } else if 2.0 <= v {
      FloorHalves(v);
    }
  }

  /**
   * The normal form of a positive value, found by halving or doubling it into [1, 2):
   * what the source's masks on the exponent field and the fraction field extract.
   */
  function Decompose(v: real): (n: Normal)
    requires 0.0 < v
    ensures n.Valid() && n.Value() == v
    decreases Distance(v)
  {
    DistanceShrinks(v);
    if 2.0 <= v then
      var n := Decompose(v / 2.0);
      LdexpStep(n.mantissa, n.exponent);
      Normal(n.mantissa, n.exponent + 1)
    else if v < 1.0 then
      var n := Decompose(2.0 * v);
      LdexpStep(n.mantissa, n.exponent - 1);
      Normal(n.mantissa, n.exponent - 1)
    else
      Normal(v, 0)
  }

  lemma DecomposeNormal(n: Normal)
    requires n.Valid()
    ensures 0.0 < n.Value() && Decompose(n.Value()) == n
  {
    NormalUnique(Decompose(n.Value()), n);
  }

  /**
   * The quadratic that stands in for `1 + log2(m)` on a mantissa m:
   * `m * (2 - m / 3) - 2 / 3`, which is 1 at m = 1 and 2 at m = 2.
   */
  function MantissaPoly(m: real): real
  {
    m * (2.0 - (1.0 / 3.0) * m) - 2.0 / 3.0
  }

  /** The quadratic agrees with `1 + log2(m)` at both ends of the mantissa range. */
  lemma MantissaPolyEnds()
    ensures MantissaPoly(1.0) == 1.0 && MantissaPoly(2.0) == 2.0
  {
  }

  lemma MantissaPolyRange(m: real)
    requires 1.0 <= m < 2.0
    ensures 1.0 <= MantissaPoly(m) < 2.0
  {
    var a, b := m - 1.0, 5.0 - m;
    MulNonneg(a, b);
    assert MantissaPoly(m) - 1.0 == a * b / 3.0;
    var c, d := 2.0 - m, 4.0 - m;
    MulPos(c, d);
    assert 2.0 - MantissaPoly(m) == c * d / 3.0;
  }

  /** The quadratic is strictly increasing on the closed interval [1, 2]. */
  lemma MantissaPolyIncreasing(a: real, b: real)
    requires 1.0 <= a < b <= 2.0
    ensures MantissaPoly(a) < MantissaPoly(b)
  {
    var c, d := b - a, 2.0 - (a + b) / 3.0;
    MulPos(c, d);
    assert MantissaPoly(b) - MantissaPoly(a) == c * d;
  }

  /**
   * approxLog2: the unbiased exponent of `value` plus a quadratic in its mantissa.  The
   * source subtracts 1024 rather than the bias 1023 from the exponent field and lets the
   * quadratic, which lies in [1, 2), make up the difference; the integer part of the
   * result is therefore exactly the binary exponent of `value`.
   */
  function ApproxLog2(value: real): (r: real)
    requires 0.0 < value
    ensures Decompose(value).exponent as real <= r < Decompose(value).exponent as real + 1.0
  {
    var n := Decompose(value);
    var exponent := n.exponent - 1;
    MantissaPolyRange(n.mantissa);
    MantissaPoly(n.mantissa) + exponent as real
  }

  lemma ApproxLog2OfNormal(n: Normal)
    requires n.Valid()
    ensures 0.0 < n.Value()
    ensures ApproxLog2(n.Value()) == (n.exponent - 1) as real + MantissaPoly(n.mantissa)
  {
    DecomposeNormal(n);
  }

  /**
   * On every closed octave [2^e, 2^(e+1)] approxLog2 is the one polynomial
   * `e - 1 + MantissaPoly(m)` of the mantissa, the right end included: the pieces meet
   * at the powers of two, so the approximation is continuous there.
   */
  lemma ApproxLog2OnOctave(m: real, e: int)
    requires 1.0 <= m <= 2.0
    ensures 0.0 < Ldexp(m, e)
    ensures ApproxLog2(Ldexp(m, e)) == (e - 1) as real + MantissaPoly(m)
  {
    if m < 2.0 {
      ApproxLog2OfNormal(Normal(m, e));
    } else {
      LdexpDouble(1.0, e);
      ApproxLog2OfNormal(Normal(1.0, e + 1));
    }
  }

  /** approxLog2 is exact at every power of two. */
  lemma ApproxLog2Exact(k: int)
    ensures ApproxLog2(TwoPow(k)) == k as real
  {
    ApproxLog2OnOctave(1.0, k);
  }

  /** approxLog2 is strictly increasing on the positive reals. */
  lemma ApproxLog2Increasing(v: real, w: real)
    requires 0.0 < v < w
    ensures ApproxLog2(v) < ApproxLog2(w)
  {
    var a, b := Decompose(v), Decompose(w);
    if b.exponent < a.exponent {
      ExponentDominates(b, a);
      assert false;
    } else if a.exponent == b.exponent {
      if b.mantissa <= a.mantissa {
        if b.mantissa < a.mantissa {
          LdexpIncreasing(b.mantissa, a.mantissa, a.exponent);
        }
        assert false;
      }
      MantissaPolyIncreasing(a.mantissa, b.mantissa);
    }
  }

  lemma ApproxLog2Monotone(v: real, w: real)
    requires 0.0 < v <= w
    ensures ApproxLog2(v) <= ApproxLog2(w)
  {
    if v < w {
      ApproxLog2Increasing(v, w);
    }
  }

  /**
   * The square-root routine the source calls, as a parameter: it must return the
   * non-negative square root of every non-negative real.
   */
  ghost predicate IsSqrt(sqrt: real -> real)
  {
    forall x :: 0.0 <= x ==> 0.0 <= sqrt(x) && sqrt(x) * sqrt(x) == x
  }

  /** On the fractional range pow2 feeds it, the root lies in (1, 2]. */
  lemma RootRange(y: real, sqrt: real -> real)
    requires IsSqrt(sqrt) && 1.0 <= y < 2.0
    ensures 1.0 < sqrt(7.0 - 3.0 * y) <= 2.0
  {
    var s := sqrt(7.0 - 3.0 * y);
    assert 0.0 <= s && s * s == 7.0 - 3.0 * y;
    if s <= 1.0 {
      MulMono(s, 1.0, s);
      assert false;
    }
    if 2.0 < s {
      assert false;
    }
  }

  /**
   * pow2: the exact inverse of approxLog2.  The integer part of x, less one, becomes the
   * exponent; the rest, in [1, 2), is mapped back to a mantissa by the root
   * `3 - sqrt(7 - 3y)` of `MantissaPoly(m) = y`, and the result is
   * `2^(exponent + 1) * m`.  It lies in the same octave as 2^x.
   */
  function Pow2(x: real, sqrt: real -> real): (r: real)
    requires IsSqrt(sqrt)
    ensures TwoPow(x.Floor) <= r < TwoPow(x.Floor + 1)
  {
    var exponent := x.Floor - 1;
    var y := x - exponent as real;
    RootRange(y, sqrt);
    var m := 3.0 - sqrt(7.0 - 3.0 * y);
    assert exponent + 1 == x.Floor;
    assert TwoPow(x.Floor) <= Ldexp(m, x.Floor) by {
      if 1.0 < m {
        LdexpIncreasing(1.0, m, x.Floor);
      }
    }
    LdexpIncreasing(m, 2.0, x.Floor);
    LdexpDouble(1.0, x.Floor);
    Ldexp(m, exponent + 1)
  }

  /** approxLog2 undoes pow2 exactly, for every real x. */
  lemma ApproxLog2OfPow2(x: real, sqrt: real -> real)
    requires IsSqrt(sqrt)
    ensures 0.0 < Pow2(x, sqrt)
    ensures ApproxLog2(Pow2(x, sqrt)) == x
  {
    var f := x.Floor;
    var y := x - (f - 1) as real;
    RootRange(y, sqrt);
    var s := sqrt(7.0 - 3.0 * y);
    var m := 3.0 - s;
    assert s * s == 7.0 - 3.0 * y;
    assert MantissaPoly(m) == y;
    assert Pow2(x, sqrt) == Normal(m, f).Value();
    ApproxLog2OfNormal(Normal(m, f));
  }

  /** pow2 undoes approxLog2 exactly, for every positive value. */
  lemma Pow2OfApproxLog2(v: real, sqrt: real -> real)
    requires IsSqrt(sqrt) && 0.0 < v
    ensures Pow2(ApproxLog2(v), sqrt) == v
  {
    var w := Pow2(ApproxLog2(v), sqrt);
    ApproxLog2OfPow2(ApproxLog2(v), sqrt);
    if w < v {
      ApproxLog2Increasing(w, v);
      assert false;
    } else if v < w {
      ApproxLog2Increasing(v, w);
      assert false;
    }
  }

  /** pow2 is strictly increasing. */
  lemma Pow2Increasing(x: real, y: real, sqrt: real -> real)
    requires IsSqrt(sqrt) && x < y
    ensures Pow2(x, sqrt) < Pow2(y, sqrt)
  {
    var a, b := Pow2(x, sqrt), Pow2(y, sqrt);
    ApproxLog2OfPow2(x, sqrt);
    ApproxLog2OfPow2(y, sqrt);
    if b < a {
      ApproxLog2Increasing(b, a);
      assert false;
    }
  }
}
