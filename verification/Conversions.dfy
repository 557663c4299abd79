/** Facts about converting between any two formats: what is kept, what is undone, how far the result may be off. */
module Conversions {
  import opened Powers
  import opened Magnitudes
  import opened Formats

  /** Encodings as integers in the order of their values: the magnitude pattern with the sign in front. */
  function Key(f: IeeeFormat, b: nat): int {
    var a: int := Pattern(f, b);
    if Sign(f, b) == 1 then -a else a
  }

  function Flip(f: IeeeFormat, b: nat): nat
    requires IsEncoding(f, b)
  {
    EncodingParts(f, b);
    Signed(f, 1 - Sign(f, b), Pattern(f, b))
  }

  lemma UnitsOrder(f: IeeeFormat, a: nat, b: nat)
    ensures a < b <==> Units(f, a) < Units(f, b)
    ensures Units(f, a) == 0 <==> a == 0
  {
    hide Magnitude;
    MagnitudeIncreases(f.t, f.quantum, a, b);
    MagnitudeIncreases(f.t, f.quantum, b, a);
    MagnitudeIncreases(f.t, f.quantum, 0, a);
    MagnitudeLow(f.t, f.quantum, 0);
  }

  /** The order of the keys is the order of the values, and equal keys are equal values. */
  lemma KeyOrder(f: IeeeFormat, a: nat, b: nat)
    requires IsEncoding(f, a) && !IsNaN(f, a) && IsEncoding(f, b) && !IsNaN(f, b)
    ensures Less(Value(f, a), Value(f, b)) <==> Key(f, a) < Key(f, b)
    ensures Value(f, a) == Value(f, b) <==> Key(f, a) == Key(f, b)
  {
    hide Units;
    InfinityFits(f);
    UnitsOrder(f, Pattern(f, a), Pattern(f, b));
    UnitsOrder(f, Pattern(f, b), Pattern(f, a));
  }

  /** Two encodings of one value differ at most in the sign of a zero. */
  lemma SameKey(f: IeeeFormat, a: nat, b: nat)
    requires IsEncoding(f, a) && IsEncoding(f, b)
    ensures Key(f, a) == Key(f, b) <==> a == b || (Pattern(f, a) == 0 && Pattern(f, b) == 0)
  {
  }

  lemma ConvertParts(from: IeeeFormat, to: IeeeFormat, b: nat)
    requires IsEncoding(from, b) && !IsNaN(from, b)
    ensures var r := ConvertFormat(from, to, b);
            && IsEncoding(to, r) && !IsNaN(to, r)
            && Sign(to, r) == Sign(from, b)
            && Pattern(to, r) == ConvertPattern(from, to, Pattern(from, b))
  {
  }

  /** A conversion keeps the sign, keeps infinities, and rounds everything else as the standard demands;
      no other encoding does. */
  lemma ConvertIsTiesToEven(from: IeeeFormat, to: IeeeFormat, b: nat, r: nat)
    requires IsEncoding(from, b) && IsFinite(from, b) && IsEncoding(to, r)
    ensures r == ConvertFormat(from, to, b) <==>
            && Sign(to, r) == Sign(from, b)
            && RoundsTiesToEven(to, Units(from, Pattern(from, b)), Pattern(to, r))
  {
    hide Magnitude, Nearest;
    ConvertParts(from, to, b);
    EncodingParts(to, r);
    RoundingIsTiesToEven(to, Units(from, Pattern(from, b)), Pattern(to, r));
  }

  lemma ConvertPatternMonotone(from: IeeeFormat, to: IeeeFormat, a: nat, b: nat)
    requires a <= b <= from.infinity
    ensures ConvertPattern(from, to, a) <= ConvertPattern(from, to, b)
  {
    hide Magnitude, Nearest;
    MagnitudeIncreases(from.t, from.quantum, a, b);
    NearestMonotone(to.t, to.quantum, Units(from, a), Units(from, b));
  }

  lemma ZeroConverts(from: IeeeFormat, to: IeeeFormat)
    ensures from.infinity > 0 && ConvertPattern(from, to, 0) == 0
  {
    hide Magnitude;
    InfinityFits(from);
    InfinityFits(to);
    UnitsOrder(from, 0, 0);
    MagnitudeLow(to.t, to.quantum, 0);
    NearestOfExact(to.t, to.quantum, 0);
  }

  lemma PatternsInRange(f: IeeeFormat, b: nat)
    requires IsEncoding(f, b) && !IsNaN(f, b)
    ensures 0 <= Pattern(f, b) <= f.infinity && 0 <= Sign(f, b) < 2
  {
  }

  /** Conversions never swap two numbers, whatever their signs. */
  lemma ConvertIsMonotone(from: IeeeFormat, to: IeeeFormat, a: nat, b: nat)
    requires IsEncoding(from, a) && !IsNaN(from, a) && IsEncoding(from, b) && !IsNaN(from, b)
    ensures !Less(Value(from, b), Value(from, a)) ==>
            !Less(Value(to, ConvertFormat(from, to, b)), Value(to, ConvertFormat(from, to, a)))
  {
    hide Value, ConvertFormat, ConvertPattern, Units, Pattern, Sign;
    var x, y := Pattern(from, a), Pattern(from, b);
    ConvertParts(from, to, a);
    ConvertParts(from, to, b);
    KeyOrder(from, b, a);
    KeyOrder(to, ConvertFormat(from, to, b), ConvertFormat(from, to, a));
    PatternsInRange(from, a);
    PatternsInRange(from, b);
    ZeroConverts(from, to);
    if x <= y { ConvertPatternMonotone(from, to, x, y); } else { ConvertPatternMonotone(from, to, y, x); }
  }

  lemma InfinityPower(f: IeeeFormat)
    ensures Units(f, f.infinity) == Pow2(150 + f.Bias())
  {
    hide Magnitude;
    InfinityUnits(f);
    Pow2Adds(f.t, 150 + f.Bias() - f.t);
  }

  lemma UnitsAreShort(f: IeeeFormat, a: nat) returns (n: nat, j: nat)
    ensures n < Pow2(f.t + 1) && j >= f.quantum && Units(f, a) == n * Pow2(j)
  {
    var e, fraction := Halved(a, f.t), Dropped(a, f.t);
    HalvedAndDropped(a, f.t);
    HalvedIsQuotient(a, f.t);
    MagnitudeIsIeee(f.t, f.quantum, e, fraction);
    n := if e == 0 then fraction else Pow2(f.t) + fraction;
    j := if e == 0 then f.quantum else f.quantum + (e - 1);
  }

  lemma PatternWidens(from: IeeeFormat, to: IeeeFormat, a: nat)
    requires from.t <= to.t && from.w <= to.w && a < from.infinity
    ensures ConvertPattern(from, to, a) < to.infinity
    ensures Units(to, ConvertPattern(from, to, a)) == Units(from, a)
  {
    hide Magnitude, Nearest;
    var n, j := UnitsAreShort(from, a);
    Pow2Monotone(from.w - 1, to.w - 1);
    Pow2Monotone(from.t + 1, to.t + 1);
    var b := Nearest(to.t, to.quantum, n * Pow2(j));
    NearestIsExact(to.t, to.quantum, n, j);
    assert Units(from, from.infinity) <= Units(to, to.infinity) by {
      InfinityPower(from);
      InfinityPower(to);
      Pow2Monotone(150 + from.Bias(), 150 + to.Bias());
    }
    UnitsOrder(from, a, from.infinity);
    UnitsOrder(to, b, to.infinity);
  }

  /** A format with more bits in both fields holds every value. */
  lemma WideningIsExact(from: IeeeFormat, to: IeeeFormat, b: nat)
    requires from.t <= to.t && from.w <= to.w
    requires IsEncoding(from, b) && !IsNaN(from, b)
    ensures Value(to, ConvertFormat(from, to, b)) == Value(from, b)
  {
    hide Magnitude, Nearest;
    ConvertParts(from, to, b);
    if IsFinite(from, b) {
      PatternWidens(from, to, Pattern(from, b));
    }
  }

  /** Widening and narrowing again gives back the very encoding. */
  lemma RoundTrip(small: IeeeFormat, large: IeeeFormat, b: nat)
    requires small.t <= large.t && small.w <= large.w
    requires IsEncoding(small, b) && !IsNaN(small, b)
    ensures var wide := ConvertFormat(small, large, b);
            && IsEncoding(large, wide) && !IsNaN(large, wide)
            && ConvertFormat(large, small, wide) == b
  {
    hide Magnitude, Nearest;
    ConvertParts(small, large, b);
    EncodingParts(small, b);
    var a := Pattern(small, b);
    if a < small.infinity {
      PatternWidens(small, large, a);
      NearestOfExact(small.t, small.quantum, a);
    }
  }

  /** Narrowing and widening again gives back exactly the numbers that the small format holds. */
  lemma RoundTripFixes(small: IeeeFormat, large: IeeeFormat, v: nat)
    requires small.t <= large.t && small.w <= large.w
    requires IsEncoding(large, v) && !IsNaN(large, v)
    ensures var narrow := ConvertFormat(large, small, v);
            && IsEncoding(small, narrow) && !IsNaN(small, narrow)
            && (ConvertFormat(small, large, narrow) == v <==>
                exists h: nat :: IsEncoding(small, h) && Value(small, h) == Value(large, v))
  {
    hide ConvertFormat, ConvertPattern, Units, Pattern, Sign;
    var narrow := ConvertFormat(large, small, v);
    ConvertParts(large, small, v);
    WideningIsExact(small, large, narrow);
    if h: nat :| IsEncoding(small, h) && Value(small, h) == Value(large, v) {
      assert !IsNaN(small, h);
      WideningIsExact(small, large, h);
      ConvertParts(small, large, h);
      KeyOrder(large, ConvertFormat(small, large, h), v);
      SameKey(large, ConvertFormat(small, large, h), v);
      if ConvertFormat(small, large, h) == v {
        RoundTrip(small, large, h);
      } else {
        ZeroConverts(large, small);
        ZeroConverts(small, large);
        ConvertParts(small, large, narrow);
        EncodingParts(large, v);
        EncodingParts(large, ConvertFormat(small, large, narrow));
      }
    }
  }

  /** Conversions commute with changing the sign. */
  lemma ConvertFlips(from: IeeeFormat, to: IeeeFormat, b: nat)
    requires IsEncoding(from, b) && !IsNaN(from, b)
    ensures IsEncoding(from, Flip(from, b)) && !IsNaN(from, Flip(from, b))
    ensures IsEncoding(to, ConvertFormat(from, to, b))
    ensures ConvertFormat(from, to, Flip(from, b)) == Flip(to, ConvertFormat(from, to, b))
  {
  }

  lemma FlipNegatesKey(f: IeeeFormat, b: nat)
    requires IsEncoding(f, b)
    ensures IsEncoding(f, Flip(f, b)) && Key(f, Flip(f, b)) == -Key(f, b)
  {
  }

  /** How far rounding may move a magnitude that does not overflow. */
  lemma RoundingError(f: IeeeFormat, x: nat)
    requires x < f.OverflowThreshold()
    ensures var d := Distance(x, Units(f, RoundMagnitude(f, x)));
            && (x < Pow2(f.quantum + f.t + 1) ==> 2 * d <= Pow2(f.quantum))
            && (x >= Pow2(f.quantum + f.t) ==> Pow2(f.t + 1) * d <= x)
  {
    hide Magnitude, Nearest;
    OverflowsFromThreshold(f, x);
    NearestError(f.t, f.quantum, x);
  }

  lemma MidpointProduct(p: int, u: int)
    ensures (p - 1) * u + p * u == (2 * p - 1) * u
  {
  }

  /** The midpoint below the smallest positive number, and the one below the smallest normal number. */
  lemma FirstMidpoints(t: nat, s: nat)
    ensures Magnitude(t, s, 0) + Magnitude(t, s, 1) == Pow2(s)
    ensures Magnitude(t, s, Pow2(t) - 1) + Magnitude(t, s, Pow2(t)) == (2 * Pow2(t) - 1) * Pow2(s)
  {
    hide Pow2, Magnitude;
    Pow2Next(t);
    MagnitudeLow(t, s, 0);
    MagnitudeLow(t, s, 1);
    MagnitudeLow(t, s, Pow2(t) - 1);
    MagnitudeLow(t, s, Pow2(t));
    MidpointProduct(Pow2(t), Pow2(s));
  }

  /** Which magnitudes become zero, and which become at least the smallest normal number. */
  lemma RoundingClass(f: IeeeFormat, x: nat)
    ensures RoundMagnitude(f, x) == 0 <==> 2 * x <= Pow2(f.quantum)
    ensures RoundMagnitude(f, x) >= Pow2(f.t) <==> 2 * x >= (2 * Pow2(f.t) - 1) * Pow2(f.quantum)
  {
    hide Pow2, Magnitude, Nearest, Scaled;
    var p := Pow2(f.t);
    InfinityFits(f);
    FieldSizes(f);
    NearestAtLeast(f.t, f.quantum, x, 1);
    NearestAtLeast(f.t, f.quantum, x, p);
    FirstMidpoints(f.t, f.quantum);
  }
}
