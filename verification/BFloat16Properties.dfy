/** What BFloat16 promises its users, over all bit patterns. Magnitudes are in units of 2^-149. */
module BFloat16Properties {
  import opened Words
  import opened Powers
  import opened Magnitudes
  import opened Formats
  import opened Conversions
  import opened Comparisons
  import opened FloatArithmetic
  import opened BFloat16Impl

  /** The least magnitude that overflows is (2 - 2^-8) * 2^127. */
  lemma ThresholdB()
    ensures BFLOAT16.OverflowThreshold() == 0x1FF * Pow2(268)
    ensures Units(BINARY32, BINARY32.infinity) >= BFLOAT16.OverflowThreshold()
  {
    hide Pow2, Magnitude;
    assert BFLOAT16.Bias() == 127 && BINARY32.Bias() == 127 && Pow2(9) == 0x200 by { Pow2Values(); }
    ThresholdUnits(BFLOAT16);
    InfinityPower(BINARY32);
    Pow2Adds(9, 268);
  }

  /** Exactly one encoding is the correctly rounded one, and narrowing finds it. */
  lemma NarrowingIsTiesToEven(v: Word32, r: Word16)
    requires IsFinite(BINARY32, v)
    ensures r == Narrowed(v) <==>
            && Sign(BFLOAT16, r) == Sign(BINARY32, v)
            && RoundsTiesToEven(BFLOAT16, Units(BINARY32, Pattern(BINARY32, v)), Pattern(BFLOAT16, r))
  {
    hide Pow2, Magnitude, Nearest, RoundsTiesToEven, ConvertFormat, Units;
    NarrowedFits(v);
    ConvertIsTiesToEven(BINARY32, BFLOAT16, v, r);
  }

  /** Only NaNs become NaN, only infinities and overflows become infinite, and the sign of a number stays. */
  lemma NarrowedParts(v: Word32)
    ensures IsNaN(BFLOAT16, Narrowed(v)) <==> IsNaN(BINARY32, v)
    ensures IsNaN(BINARY32, v) ==> Narrowed(v) == 0x7FC1
    ensures !IsNaN(BINARY32, v) ==>
            && Narrowed(v) / 0x8000 == v / 0x8000_0000
            && Narrowed(v) % 0x8000 == ConvertPattern(BINARY32, BFLOAT16, Pattern(BINARY32, v))
            && (IsInfinite(BFLOAT16, Narrowed(v)) <==>
                IsInfinite(BINARY32, v) || Units(BINARY32, Pattern(BINARY32, v)) >= 0x1FF * Pow2(268))
  {
    hide Pow2, Magnitude, Nearest, Units, ConvertFormat, RoundMagnitude;
    ThresholdB();
    NarrowedFits(v);
    WidenedFits(Narrowed(v));
    if !IsNaN(BINARY32, v) {
      ConvertParts(BINARY32, BFLOAT16, v);
      OverflowsFromThreshold(BFLOAT16, Units(BINARY32, Pattern(BINARY32, v)));
    }
  }

  /** Every bfloat16 value is a binary32 value; every NaN widens to the one quiet NaN. */
  lemma WideningIsExactB(h: Word16)
    ensures Value(BINARY32, Widened(h)) == Value(BFLOAT16, h)
    ensures IsNaN(BFLOAT16, h) ==> Widened(h) == 0x7FC0_0000
    ensures !IsNaN(BFLOAT16, h) ==> Widened(h) / 0x8000_0000 == h / 0x8000
  {
    hide Pow2, Magnitude, Nearest, Units, ConvertFormat, ConvertPattern;
    WidenedFits(h);
    if !IsNaN(BFLOAT16, h) {
      WideningIsExact(BFLOAT16, BINARY32, h);
      ConvertParts(BFLOAT16, BINARY32, h);
      FloatParts(Widened(h));
    }
  }

  /** Narrowing undoes widening, except that every NaN becomes 0x7FC1, whatever its sign. */
  lemma NarrowingUndoesWidening(h: Word16)
    ensures Narrowed(Widened(h)) == if IsNaN(BFLOAT16, h) then 0x7FC1 else h
  {
    hide Pow2, Magnitude, Nearest, Units, ConvertFormat, ConvertPattern;
    WidenedFits(h);
    if !IsNaN(BFLOAT16, h) {
      RoundTrip(BFLOAT16, BINARY32, h);
    }
  }

  /** A second trip through bfloat16 changes nothing more, for NaNs too. */
  lemma NarrowingIsIdempotent(v: Word32)
    ensures Narrowed(Widened(Narrowed(v))) == Narrowed(v)
  {
    hide Pow2, Widened, ConvertFormat, ConvertPattern, Units, IsInfinite;
    NarrowedParts(v);
    NarrowingUndoesWidening(Narrowed(v));
  }

  lemma UpperHalfIsNumber(v: Word32)
    requires !IsNaN(BINARY32, v)
    ensures !IsNaN(BFLOAT16, v / 0x1_0000)
  {
  }

  lemma LowerHalfIsZero(v: Word32)
    requires !IsNaN(BINARY32, v)
    ensures Widened(Narrowed(v)) == v <==> v % 0x1_0000 == 0
  {
    hide Pow2, Narrowed, Widened, ConvertFormat, ConvertPattern, Units, IsInfinite;
    NarrowedParts(v);
    WidenedByPadding(Narrowed(v));
    if v % 0x1_0000 == 0 {
      var h: Word16 := v / 0x1_0000;
      UpperHalfIsNumber(v);
      WidenedByPadding(h);
      NarrowingUndoesWidening(h);
    }
  }

  /** A float survives the trip exactly when its lower half is zero, and those are the bfloat16 numbers. */
  lemma SurvivorsAreBFloat16(v: Word32)
    requires !IsNaN(BINARY32, v)
    ensures Widened(Narrowed(v)) == v <==> v % 0x1_0000 == 0
    ensures Widened(Narrowed(v)) == v <==> exists h: Word16 :: Value(BFLOAT16, h) == Value(BINARY32, v)
  {
    hide Pow2, Magnitude, Nearest, Units, ConvertFormat, ConvertPattern, Value, RoundMagnitude;
    NarrowedParts(v);
    LowerHalfIsZero(v);
    NarrowedFits(v);
    RoundTripFixes(BFLOAT16, BINARY32, v);
    if h: nat :| IsEncoding(BFLOAT16, h) && Value(BFLOAT16, h) == Value(BINARY32, v) {
      var word: Word16 := h;
    }
    if h: Word16 :| Value(BFLOAT16, h) == Value(BINARY32, v) {
      WidenedFits(h);
    }
  }

  // ---------------------------------------------------------------------------------------------
  // Predicates, order and signs

  lemma AbsBits(h: BFloat16)
    ensures h.AbsImpl() == h.val % 0x8000
  {
    hide And32, Xor32, Bitwise, Not32;
    SignOf16(h.val);
  }

  lemma PredicatesOnPatterns(h: BFloat16)
    ensures h.AbsImpl() == h.val % 0x8000
    ensures h.IsNegative() <==> h.val >= 0x8000
    ensures h.IsNaN() <==> IsNaN(BFLOAT16, h.val)
    ensures h.IsNaN() <==> h.val % 0x8000 > 0x7F80
    ensures Sign(BFLOAT16, h.val) == h.val / 0x8000 && Pattern(BFLOAT16, h.val) == h.val % 0x8000
    ensures IsEncoding(BFLOAT16, h.val)
  {
    hide And32, BFloat16.AbsImpl;
    AbsBits(h);
    WidenedFits(h.val);
  }

  lemma MaskedExponent(a: Word16)
    requires a < 0x8000
    ensures And32(a, BIASED_EXPONENT_MASK) == 0 <==> a < 0x80
  {
    hide Bitwise, Pow2;
    Pow2Values();
    ExponentField(7, 8, a / 0x80, a % 0x80);
    assert a / 0x80 * 0x80 + a % 0x80 == a;
  }

  lemma ClassThresholds(a: nat)
    ensures a < 0x80 <==> Units(BFLOAT16, a) < Pow2(23)
    ensures a == 0 <==> Units(BFLOAT16, a) == 0
  {
    hide Pow2, Magnitude;
    Pow2Values();
    MagnitudeLow(7, 16, 0x80);
    UnitsOrder(BFLOAT16, a, 0x80);
  }

  /** Each predicate says about the value what its comment claims. */
  lemma ClassesByValue(h: BFloat16)
    ensures var x := Value(BFLOAT16, h.val);
            && (h.IsNaN() <==> x == NaN)
            && (h.IsFinite() <==> x.Finite?)
            && (h.IsPositiveInfinity() <==> x == PositiveInfinity)
            && (h.IsNegativeInfinity() <==> x == NegativeInfinity)
            && (h.IsInfinity() <==> x == PositiveInfinity || x == NegativeInfinity)
            && (h.IsNaNOrZero() <==> x == NaN || x == Finite(0))
            && (h.IsSubnormal() <==> x.Finite? && 0 < Absolute(x.units) < Pow2(23))
            && (h.IsNormal() <==> x.Finite? && Absolute(x.units) >= Pow2(23))
  {
    hide Pow2, Units, And32;
    PredicatesOnPatterns(h);
    MaskedExponent(h.val % 0x8000);
    ClassThresholds(h.val % 0x8000);
    WidenedFits(h.val);
  }

  lemma RoundingClassB(x: nat)
    ensures RoundMagnitude(BFLOAT16, x) == 0 <==> x <= Pow2(15)
    ensures RoundMagnitude(BFLOAT16, x) >= 0x80 <==> x >= 255 * Pow2(15)
  {
    hide Pow2, RoundMagnitude;
    assert Pow2(BFLOAT16.t) == 0x80 by { Pow2Values(); }
    Pow2Next(15);
    RoundingClass(BFLOAT16, x);
  }

  lemma ThresholdsApart()
    ensures 255 * Pow2(15) < 0x1FF * Pow2(268)
  {
    hide Pow2;
    Pow2Monotone(15, 268);
  }

  /** Which floats end up in which class. */
  lemma NarrowingClasses(v: Word32)
    requires !IsNaN(BINARY32, v)
    ensures var h, x, halfStep := BFloat16(Narrowed(v)), Units(BINARY32, Pattern(BINARY32, v)), Pow2(15);
            && !h.IsNaN()
            && (h.AbsImpl() == 0 <==> x <= halfStep)
            && (h.IsSubnormal() <==> halfStep < x < 255 * halfStep)
            && (h.IsNormal() <==> 255 * halfStep <= x < 0x1FF * Pow2(268))
            && (h.IsInfinity() <==> x >= 0x1FF * Pow2(268))
  {
    hide Pow2, Magnitude, Nearest, Units, And32, Narrowed, RoundMagnitude;
    var h, a := BFloat16(Narrowed(v)), Pattern(BINARY32, v);
    var x := Units(BINARY32, a);
    ThresholdB();
    NarrowedParts(v);
    PredicatesOnPatterns(h);
    MaskedExponent(h.val % 0x8000);
    if a < BINARY32.infinity {
      RoundingClassB(x);
      OverflowsFromThreshold(BFLOAT16, x);
      RoundAtMostInfinity(BFLOAT16, x);
    }
    Pow2Values();
    ThresholdsApart();
  }

  lemma LessThanByKey(a: BFloat16, b: BFloat16)
    ensures a.LessThan(b) <==> !a.IsNaN() && !b.IsNaN() && Key(BFLOAT16, a.val) < Key(BFLOAT16, b.val)
    ensures BFloat16.AreZero(a, b) <==> a.val % 0x8000 == 0 && b.val % 0x8000 == 0
  {
    hide Pow2, Bitwise, And32, Or32, Key;
    PredicatesOnPatterns(a);
    PredicatesOnPatterns(b);
    OrWithoutSign(a.val, b.val);
    SignOf16(Or32(a.val, b.val));
    BitsAgainstKeys(BFLOAT16, a.val, b.val);
  }

  /** operator< is the order of the values, and of the floats that ToFloat returns, for every pair. */
  lemma LessThanIsValueOrder(a: BFloat16, b: BFloat16)
    ensures a.LessThan(b) <==> Less(Value(BFLOAT16, a.val), Value(BFLOAT16, b.val))
    ensures a.LessThan(b) <==> Less(Value(BINARY32, Widened(a.val)), Value(BINARY32, Widened(b.val)))
  {
    hide Pow2, Units, Key, BFloat16.LessThan, BFloat16.IsNaN, Widened;
    LessThanByKey(a, b);
    PredicatesOnPatterns(a);
    PredicatesOnPatterns(b);
    WideningIsExactB(a.val);
    WideningIsExactB(b.val);
    if !a.IsNaN() && !b.IsNaN() {
      KeyOrder(BFLOAT16, a.val, b.val);
    }
  }

  predicate Incomparable(a: BFloat16, b: BFloat16) {
    !a.LessThan(b) && !b.LessThan(a)
  }

  /** For all patterns operator< is a strict partial order. Incomparability carries over from a pair of
      neighbours to the outer two unless a NaN stands between numbers of different value, and only then
      fails; for numbers, being incomparable is having the same value. */
  lemma LessThanIsStrictWeakOrder(a: BFloat16, b: BFloat16, c: BFloat16)
    ensures !a.LessThan(a)
    ensures a.LessThan(b) ==> !b.LessThan(a)
    ensures a.LessThan(b) && b.LessThan(c) ==> a.LessThan(c)
    ensures (Incomparable(a, b) && Incomparable(b, c) ==> Incomparable(a, c)) <==>
            !(b.IsNaN() && !a.IsNaN() && !c.IsNaN() && a.val != c.val && !BFloat16.AreZero(a, c))
    ensures !a.IsNaN() && !b.IsNaN() ==>
            (Incomparable(a, b) <==> Value(BFLOAT16, a.val) == Value(BFLOAT16, b.val))
  {
    hide Pow2, Units, Key, Value, BFloat16.LessThan, BFloat16.IsNaN, BFloat16.AreZero;
    LessThanByKey(a, a);
    LessThanByKey(a, b);
    LessThanByKey(b, a);
    LessThanByKey(b, c);
    LessThanByKey(c, b);
    LessThanByKey(a, c);
    LessThanByKey(c, a);
    BitsAgainstKeys(BFLOAT16, a.val, c.val);
    PredicatesOnPatterns(a);
    PredicatesOnPatterns(b);
    if !a.IsNaN() && !b.IsNaN() {
      KeyOrder(BFLOAT16, a.val, b.val);
    }
  }

  /** operator== is equality of values, except that it tells the two zeros apart. */
  lemma EqualsIsValueEquality(a: BFloat16, b: BFloat16)
    ensures (a.Equals(b) <==> Value(BFLOAT16, a.val) == Value(BFLOAT16, b.val) && Value(BFLOAT16, a.val) != NaN)
            <==> !(BFloat16.AreZero(a, b) && a.val != b.val)
  {
    hide Pow2, Units, Key, BFloat16.IsNaN, BFloat16.AreZero;
    LessThanByKey(a, b);
    PredicatesOnPatterns(a);
    PredicatesOnPatterns(b);
    BitsAgainstKeys(BFLOAT16, a.val, b.val);
    if !a.IsNaN() && !b.IsNaN() {
      KeyOrder(BFLOAT16, a.val, b.val);
    }
  }

  /** The gap, concretely: +0 and -0 are both zero, of one value, and not equal. */
  lemma ZerosAreNotEqual()
    ensures BFloat16.AreZero(BFloat16(0), BFloat16(0x8000)) && !BFloat16(0).Equals(BFloat16(0x8000))
    ensures Value(BFLOAT16, 0) == Value(BFLOAT16, 0x8000) == Finite(0)
    ensures Incomparable(BFloat16(0), BFloat16(0x8000))
  {
    hide Pow2, Units, And32, Or32;
    LessThanByKey(BFloat16(0), BFloat16(0x8000));
    LessThanByKey(BFloat16(0x8000), BFloat16(0));
    PredicatesOnPatterns(BFloat16(0));
    PredicatesOnPatterns(BFloat16(0x8000));
    ClassThresholds(0);
  }

  /** For numbers exactly one of <, >, == holds, but none of them for zeros of opposite sign. */
  lemma Trichotomy(a: BFloat16, b: BFloat16)
    requires !a.IsNaN() && !b.IsNaN()
    ensures a.LessThan(b) || b.LessThan(a) || a.Equals(b) <==> !(BFloat16.AreZero(a, b) && a.val != b.val)
    ensures !(a.LessThan(b) && b.LessThan(a)) && !(a.LessThan(b) && a.Equals(b)) && !(b.LessThan(a) && a.Equals(b))
  {
    hide Pow2, Key, BFloat16.LessThan, BFloat16.IsNaN, BFloat16.AreZero;
    LessThanByKey(a, b);
    LessThanByKey(b, a);
    BitsAgainstKeys(BFLOAT16, a.val, b.val);
  }

  lemma NegateBits(h: BFloat16)
    ensures h.NegateImpl() == if h.IsNaN() then h.val else Toggled(h.val)
  {
    hide BFloat16.IsNaN, Xor32, And32, Or32, Bitwise, Not32;
    SignOf16(h.val);
  }

  lemma NegateOnPatterns(h: BFloat16)
    ensures h.Negate().IsNaN() <==> h.IsNaN()
    ensures h.IsNaN() ==> h.Negate() == h
    ensures !h.IsNaN() ==> h.Negate().val == Flip(BFLOAT16, h.val) && h.Negate().Negate() == h
  {
    hide BFloat16.NegateImpl, BFloat16.IsNaN, BFloat16.AbsImpl, Flip, IsNaN, Pattern, Sign, IsEncoding, Toggled;
    PredicatesOnPatterns(h);
    PredicatesOnPatterns(h.Negate());
    NegateBits(h);
    NegateBits(h.Negate());
    ToggledTwice(h.val);
    WordParts(BFLOAT16, h.val);
  }

  /** Abs clears the sign bit and nothing else, zeros and NaNs included; Abs and Negate do to the value what
      they say; NaN stays NaN. */
  lemma SignOperationsByValue(h: BFloat16)
    ensures h.Abs().val == h.val % 0x8000
    ensures Value(BFLOAT16, h.Abs().val) == AbsoluteValue(Value(BFLOAT16, h.val))
    ensures Value(BFLOAT16, h.Negate().val) == Negated(Value(BFLOAT16, h.val))
    ensures h.IsNaN() ==> h.Negate() == h
    ensures !h.IsNaN() ==> h.Negate().val == Flip(BFLOAT16, h.val) && h.Negate().Negate() == h
  {
    hide Pow2, Value, BFloat16.NegateImpl, BFloat16.AbsImpl, BFloat16.IsNaN, Flip;
    PredicatesOnPatterns(h);
    NegateOnPatterns(h);
    ValueOfPattern(BFLOAT16, h.val);
    ValueOfFlip(BFLOAT16, h.val);
    assert h.IsNaN() ==> Value(BFLOAT16, h.val) == NaN by { ClassesByValue(h); }
  }

  /** Negating reverses operator<, for every pair. */
  lemma NegateReversesOrder(a: BFloat16, b: BFloat16)
    ensures a.LessThan(b) <==> b.Negate().LessThan(a.Negate())
  {
    hide Pow2, Units, Key, Value, BFloat16.LessThan, BFloat16.IsNaN, BFloat16.Negate, Flip;
    LessThanByKey(a, b);
    LessThanByKey(b.Negate(), a.Negate());
    PredicatesOnPatterns(a);
    PredicatesOnPatterns(b);
    NegateOnPatterns(a);
    NegateOnPatterns(b);
    FlipNegatesKey(BFLOAT16, a.val);
    FlipNegatesKey(BFLOAT16, b.val);
  }

  /** Narrowing -v is negating the narrowed v, and widening commutes with Negate. */
  lemma ConversionsCommuteWithNegate(v: Word32, h: BFloat16)
    ensures !IsNaN(BINARY32, v) ==> Narrowed((v + 0x8000_0000) % 0x1_0000_0000) == BFloat16(Narrowed(v)).Negate().val
    ensures !h.IsNaN() ==> Widened(h.Negate().val) == (Widened(h.val) + 0x8000_0000) % 0x1_0000_0000
  {
    hide Pow2, Units, Key, Value, BFloat16.IsNaN, BFloat16.Negate, ConvertFormat, Flip, IsInfinite;
    NarrowedFits(v);
    NarrowedParts(v);
    FloatParts(v);
    if !IsNaN(BINARY32, v) {
      ConvertFlips(BINARY32, BFLOAT16, v);
      PredicatesOnPatterns(BFloat16(Narrowed(v)));
      SignOperationsByValue(BFloat16(Narrowed(v)));
    }
    PredicatesOnPatterns(h);
    if !h.IsNaN() {
      SignOperationsByValue(h);
      ConvertFlips(BFLOAT16, BINARY32, h.val);
      FloatParts(Widened(h.val));
    }
  }

  // ---------------------------------------------------------------------------------------------
  // Monotonicity and error

  /** Narrowing never swaps two floats. */
  lemma NarrowingIsMonotone(v: Word32, w: Word32)
    requires !IsNaN(BINARY32, v) && !IsNaN(BINARY32, w)
    requires !Less(Value(BINARY32, w), Value(BINARY32, v))
    ensures !BFloat16(Narrowed(w)).LessThan(BFloat16(Narrowed(v)))
  {
    hide Pow2, Units, ConvertFormat, Value, BFloat16.LessThan, Less;
    NarrowedFits(v);
    NarrowedFits(w);
    ConvertIsMonotone(BINARY32, BFLOAT16, v, w);
    LessThanIsValueOrder(BFloat16(Narrowed(w)), BFloat16(Narrowed(v)));
  }

  /** Half a step of 2^-133 below 2^-126, and one part in 2^8 from there up to the threshold. */
  lemma NarrowingError(v: Word32)
    requires IsFinite(BINARY32, v)
    requires Units(BINARY32, Pattern(BINARY32, v)) < 0x1FF * Pow2(268)
    ensures Value(BINARY32, v).Finite? && Value(BINARY32, Widened(Narrowed(v))).Finite?
    ensures var exact, got := Value(BINARY32, v).units, Value(BINARY32, Widened(Narrowed(v))).units;
            && (Absolute(exact) < Pow2(23) ==> Absolute(exact - got) <= Pow2(15))
            && (Absolute(exact) >= Pow2(23) ==> 0x100 * Absolute(exact - got) <= Absolute(exact))
  {
    hide Magnitude, Nearest, Units, ConvertFormat, Narrowed, Widened, Pow2, RoundMagnitude;
    var x := Units(BINARY32, Pattern(BINARY32, v));
    ThresholdB();
    NarrowedFits(v);
    NarrowedParts(v);
    WidenedFits(Narrowed(v));
    OverflowsFromThreshold(BFLOAT16, x);
    RoundingError(BFLOAT16, x);
    Pow2Monotone(23, 24);
    Pow2Values();
    WideningIsExactB(Narrowed(v));
    assert IsFinite(BFLOAT16, Narrowed(v));
    DistanceOfValues(BINARY32, v, BFLOAT16, Narrowed(v));
  }
}
