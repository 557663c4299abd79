/** The binary interchange formats of IEEE 754-2008 section 3.4, and rounding into them.

    Finite values are exact integers counted in units of 2^-149, the smallest positive binary32 number. */
module Formats {
  import opened Powers
  import opened Magnitudes

  /** A format has t fraction bits and, above them, a w-bit exponent field and one sign bit. The other three
      numbers follow from these two, as Valid says. */
  datatype Format = Format(t: nat, w: nat, signBit: nat, infinity: nat, quantum: nat) {
    predicate Valid() {
      && t >= 1 && w >= 2
      && signBit == Pow2(w + t)
      && infinity + Pow2(t) == signBit      // all exponent bits set and no fraction bit
      && quantum + t == 149 + (1 - Bias())  // the smallest positive value is 2^(emin - t), emin = 1 - bias
    }

    /** The exponent bias, which is also the largest exponent emax. */
    function Bias(): int {
      if w == 0 then 0 else Pow2(w - 1) - 1
    }

    lemma BiasIsLarge()
      requires Valid()
      ensures 1 <= Bias() && t + Bias() <= 150
    {
    }

    /** IEEE 754-2008 section 4.3.1: 2^emax * (2 - 2^-(t+1)), the least magnitude that rounds to infinity. */
    function OverflowThreshold(): nat
      requires Valid()
    {
      BiasIsLarge();
      Scaled(Pow2(t + 2) - 1, 149 + Bias() - (t + 1))
    }
  }

  type IeeeFormat = f: Format | f.Valid()
    witness (Pow2Values(); Format(23, 8, 0x8000_0000, 0x7F80_0000, 0))

  const BINARY32: IeeeFormat := (Pow2Values(); Format(23, 8, 0x8000_0000, 0x7F80_0000, 0))
  const BINARY16: IeeeFormat := (Pow2Values(); Format(10, 5, 0x8000, 0x7C00, 125))
  const BFLOAT16: IeeeFormat := (Pow2Values(); Format(7, 8, 0x8000, 0x7F80, 16))

  /** An encoding is a sign bit above a magnitude pattern. */
  predicate IsEncoding(f: IeeeFormat, b: nat) { b < 2 * f.signBit }

  function Sign(f: IeeeFormat, b: nat): nat { if b < f.signBit then 0 else 1 }

  function Pattern(f: IeeeFormat, b: nat): nat { if b < f.signBit then b else b - f.signBit }

  function Signed(f: IeeeFormat, sign: nat, pattern: nat): nat { if sign == 0 then pattern else f.signBit + pattern }

  predicate IsNaN(f: IeeeFormat, b: nat) { Pattern(f, b) > f.infinity }
  predicate IsInfinite(f: IeeeFormat, b: nat) { Pattern(f, b) == f.infinity }
  predicate IsFinite(f: IeeeFormat, b: nat) { Pattern(f, b) < f.infinity }

  /** The value of a magnitude pattern, in units of 2^-149. */
  function Units(f: IeeeFormat, pattern: nat): nat {
    Magnitude(f.t, f.quantum, pattern)
  }

  datatype Extended = NegativeInfinity | Finite(units: int) | PositiveInfinity | NaN

  function Value(f: IeeeFormat, b: nat): Extended {
    var a := Pattern(f, b);
    if a > f.infinity then NaN
    else if a == f.infinity then (if Sign(f, b) == 1 then NegativeInfinity else PositiveInfinity)
    else if Sign(f, b) == 1 then Finite(-(Units(f, a) as int)) else Finite(Units(f, a))
  }

  /** IEEE 754-2008 section 5.11: NaN is unordered, and zeros of either sign are equal. */
  predicate Less(x: Extended, y: Extended) {
    && x != NaN && y != NaN && x != y
    && (x.NegativeInfinity? || y.PositiveInfinity? || (x.Finite? && y.Finite? && x.units < y.units))
  }

  /** The rounding attribute roundTiesToEven of IEEE 754-2008 section 4.3.1, for an exact magnitude x: the
      magnitude of the threshold and everything above it becomes infinity; anything else becomes the finite
      number nearest to it, and of two equally near ones the one with an even last digit. */
  ghost predicate RoundsTiesToEven(f: IeeeFormat, x: nat, pattern: nat) {
    if x >= f.OverflowThreshold() then pattern == f.infinity
    else
      && pattern < f.infinity
      && forall c: nat | c < f.infinity && c != pattern ::
           || Distance(x, Units(f, pattern)) < Distance(x, Units(f, c))
           || (Distance(x, Units(f, pattern)) == Distance(x, Units(f, c)) && pattern % 2 == 0)
  }

  function RoundMagnitude(f: IeeeFormat, x: nat): nat {
    var b := Nearest(f.t, f.quantum, x);
    if b < f.infinity then b else f.infinity
  }

  lemma RoundAtMostInfinity(f: IeeeFormat, x: nat)
    ensures RoundMagnitude(f, x) <= f.infinity
  {
  }

  function ConvertPattern(from: IeeeFormat, to: IeeeFormat, pattern: nat): nat
    requires pattern <= from.infinity
  {
    if pattern == from.infinity then to.infinity else RoundMagnitude(to, Units(from, pattern))
  }

  /** IEEE 754-2008 section 5.4.2, for anything but a NaN: the same sign, and the magnitude rounded. */
  function ConvertFormat(from: IeeeFormat, to: IeeeFormat, b: nat): nat
    requires IsEncoding(from, b) && !IsNaN(from, b)
  {
    Signed(to, Sign(from, b), ConvertPattern(from, to, Pattern(from, b)))
  }

  // ---------------------------------------------------------------------------------------------
  // Patterns, signs and their limits

  lemma FieldSizes(f: IeeeFormat)
    ensures Pow2(f.w) == 2 * Pow2(f.w - 1) && Pow2(f.w) >= 4
    ensures Pow2(f.t) == 2 * Pow2(f.t - 1) && Pow2(f.t + 1) == 2 * Pow2(f.t)
  {
  }

  lemma AllOnes(n: nat, p: nat)
    requires n >= 4
    ensures (n - 1) * p + p == n * p
    ensures (n - 1) * p >= 2 * p
  {
  }

  lemma EvenMultiple(n: nat, h: nat)
    ensures (n * (2 * h)) % 2 == 0
  {
    assert n * (2 * h) == 2 * (n * h);
  }

  lemma InfinityFits(f: IeeeFormat)
    ensures f.infinity >= Pow2(f.t + 1) && f.infinity % 2 == 0
    ensures f.infinity == (Pow2(f.w) - 1) * Pow2(f.t)
  {
    Pow2Adds(f.w, f.t);
    FieldSizes(f);
    AllOnes(Pow2(f.w), Pow2(f.t));
    EvenMultiple(Pow2(f.w) - 1, Pow2(f.t - 1));
  }

  lemma SignedParts(f: IeeeFormat, sign: nat, pattern: nat)
    requires sign < 2 && pattern < f.signBit
    ensures IsEncoding(f, Signed(f, sign, pattern))
    ensures Sign(f, Signed(f, sign, pattern)) == sign && Pattern(f, Signed(f, sign, pattern)) == pattern
  {
  }

  lemma EncodingParts(f: IeeeFormat, b: nat)
    requires IsEncoding(f, b)
    ensures Sign(f, b) < 2 && Pattern(f, b) < f.signBit && b == Signed(f, Sign(f, b), Pattern(f, b))
  {
  }

  lemma ThresholdUnits(f: IeeeFormat)
    ensures 148 + f.Bias() - f.t >= 0
    ensures f.OverflowThreshold() == (Pow2(f.t + 2) - 1) * Pow2(148 + f.Bias() - f.t)
  {
    f.BiasIsLarge();
    ScaledIsProduct(Pow2(f.t + 2) - 1, 148 + f.Bias() - f.t);
  }

  lemma Pow2Quadruples(k: nat)
    ensures Pow2(k + 1) == 2 * Pow2(k) && Pow2(k + 2) == 4 * Pow2(k)
  {
  }

  lemma SumOfLast(p: int, p4: int, h: int, h2: int, h4: int)
    requires p4 == 4 * p && h2 == 2 * h && h4 == 4 * h
    ensures p * h4 + (2 * p - 1) * h2 == 2 * ((p4 - 1) * h)
  {
  }

  lemma InfinityUnits(f: IeeeFormat)
    ensures f.t + f.Bias() <= 150
    ensures Units(f, f.infinity) == Pow2(f.t) * Pow2(150 + f.Bias() - f.t)
  {
    hide Pow2, Magnitude;
    f.BiasIsLarge();
    FieldSizes(f);
    InfinityFits(f);
    assert f.quantum + (Pow2(f.w) - 2) == 150 + f.Bias() - f.t;
    MagnitudeIsIeee(f.t, f.quantum, Pow2(f.w) - 1, 0);
  }

  lemma LastPattern(n: nat, p: nat)
    requires n >= 4
    ensures (n - 1) * p - 1 == (n - 2) * p + (p - 1)
  {
  }

  lemma LargestUnits(f: IeeeFormat)
    ensures f.infinity > 0 && f.t + f.Bias() <= 150
    ensures Units(f, f.infinity - 1) == (2 * Pow2(f.t) - 1) * Pow2(149 + f.Bias() - f.t)
  {
    hide Pow2, Magnitude;
    var p, n := Pow2(f.t), Pow2(f.w);
    f.BiasIsLarge();
    FieldSizes(f);
    InfinityFits(f);
    LastPattern(n, p);
    assert f.quantum + (n - 3) == 149 + f.Bias() - f.t;
    MagnitudeIsIeee(f.t, f.quantum, n - 2, p - 1);
  }

  /** The threshold lies halfway between the largest finite number and the next power of two. */
  lemma ThresholdIsMidpoint(f: IeeeFormat)
    ensures f.infinity > 0
    ensures Units(f, f.infinity - 1) + Units(f, f.infinity) == 2 * f.OverflowThreshold()
  {
    hide *;
    ThresholdUnits(f);
    var k := 148 + f.Bias() - f.t;
    InfinityUnits(f);
    LargestUnits(f);
    Pow2Quadruples(k);
    Pow2Quadruples(f.t);
    SumOfLast(Pow2(f.t), Pow2(f.t + 2), Pow2(k), Pow2(k + 1), Pow2(k + 2));
  }

  // ---------------------------------------------------------------------------------------------
  // Rounding is what the standard says

  /** Rounding overflows exactly from the threshold on. */
  lemma OverflowsFromThreshold(f: IeeeFormat, x: nat)
    ensures RoundMagnitude(f, x) == f.infinity <==> x >= f.OverflowThreshold()
  {
    hide Magnitude, Nearest;
    InfinityFits(f);
    ThresholdIsMidpoint(f);
    NearestAtLeast(f.t, f.quantum, x, f.infinity);
  }

  lemma BracketBeats(t: nat, s: nat, x: nat, b: nat, c: nat)
    requires Brackets(t, s, x, b) && b != c
    ensures var d, d' := Distance(x, Magnitude(t, s, b)), Distance(x, Magnitude(t, s, c));
            d < d' || (d == d' && b % 2 == 0)
  {
    hide Magnitude;
    if c < b {
      MagnitudeIncreases(t, s, c, b - 1);
      MagnitudeIncreases(t, s, c, b);
      NextIsLarger(t, s, b - 1);
    } else {
      MagnitudeIncreases(t, s, b + 1, c);
      NextIsLarger(t, s, b);
    }
  }

  lemma RoundMagnitudeRounds(f: IeeeFormat, x: nat)
    ensures RoundsTiesToEven(f, x, RoundMagnitude(f, x))
  {
    hide Magnitude, Nearest;
    OverflowsFromThreshold(f, x);
    var b := RoundMagnitude(f, x);
    if x < f.OverflowThreshold() {
      NearestBrackets(f.t, f.quantum, x);
      forall c: nat | c < f.infinity && c != b
        ensures || Distance(x, Units(f, b)) < Distance(x, Units(f, c))
                || (Distance(x, Units(f, b)) == Distance(x, Units(f, c)) && b % 2 == 0)
      {
        BracketBeats(f.t, f.quantum, x, b, c);
      }
    }
  }

  lemma NearestFiniteBrackets(f: IeeeFormat, x: nat, b: nat)
    requires x < f.OverflowThreshold() && RoundsTiesToEven(f, x, b)
    ensures Brackets(f.t, f.quantum, x, b)
  {
    hide Magnitude;
    ThresholdIsMidpoint(f);
    NextIsLarger(f.t, f.quantum, b);
    if b > 0 {
      NextIsLarger(f.t, f.quantum, b - 1);
      assert Units(f, b - 1) <= Units(f, b);
    }
    if b + 1 < f.infinity {
      assert Units(f, b + 1) >= Units(f, b);
    }
  }

  /** Main result on rounding: the recursive function computes the one pattern the standard allows. */
  lemma RoundingIsTiesToEven(f: IeeeFormat, x: nat, pattern: nat)
    ensures RoundsTiesToEven(f, x, pattern) <==> pattern == RoundMagnitude(f, x)
  {
    hide Magnitude, Nearest;
    RoundMagnitudeRounds(f, x);
    if RoundsTiesToEven(f, x, pattern) {
      OverflowsFromThreshold(f, x);
      if x < f.OverflowThreshold() {
        NearestFiniteBrackets(f, x, pattern);
        BracketIsNearest(f.t, f.quantum, x, pattern);
      }
    }
  }
}
