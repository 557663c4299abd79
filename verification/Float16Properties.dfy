/** What Float16 promises its users, over all bit patterns. Magnitudes are in units of 2^-149. */
module Float16Properties {
  import opened Words
  import opened Powers
  import opened Magnitudes
  import opened Formats
  import opened Conversions
  import opened Comparisons
  import opened FloatArithmetic
  import opened Float16Impl

  lemma CutUnits()
    ensures Units(BINARY32, F16_MAX) == 65536 * Pow2(149)
  {
    hide Pow2, Magnitude;
    Pow2Values();
    ExponentShift(23, 0, 142, 0x80_0000);
    MagnitudeLow(23, 142, 0x80_0000);
    Pow2Adds(23, 142);
    Pow2Adds(16, 149);
  }

  /** The threshold is 65520, the code cuts at 65536, and infinity lies above both. */
  lemma Threshold16()
    ensures BINARY16.OverflowThreshold() == 65520 * Pow2(149)
    ensures Units(BINARY32, F16_MAX) == 65536 * Pow2(149)
    ensures Units(BINARY32, BINARY32.infinity) >= BINARY16.OverflowThreshold()
  {
    hide Pow2, Magnitude;
    assert BINARY16.Bias() == 15 && BINARY32.Bias() == 127 by { Pow2Values(); }
    assert Pow2(12) == 0x1000 && Pow2(16) == 0x1_0000 by { Pow2Values(); }
    assert Pow2(153) == 16 * Pow2(149) by { Pow2Values(); Pow2Adds(4, 149); }
    assert Pow2(165) == 0x1_0000 * Pow2(149) by { Pow2Adds(16, 149); }
    ThresholdUnits(BINARY16);
    InfinityPower(BINARY32);
    Pow2Monotone(165, 277);
    CutUnits();
  }

  /** Exactly one encoding is the correctly rounded one, and narrowing finds it. */
  lemma NarrowingIsTiesToEven(v: Word32, r: Word16)
    requires IsFinite(BINARY32, v)
    ensures r == Narrowed(v) <==>
            && Sign(BINARY16, r) == Sign(BINARY32, v)
            && RoundsTiesToEven(BINARY16, Units(BINARY32, Pattern(BINARY32, v)), Pattern(BINARY16, r))
  {
    hide Pow2, Magnitude, Nearest, RoundsTiesToEven, ConvertFormat, Units;
    NarrowedFits(v);
    ConvertIsTiesToEven(BINARY32, BINARY16, v, r);
  }

  /** Every binary16 number is a binary32 number; a NaN keeps its sign and payload. */
  lemma WideningIsExact16(h: Word16)
    ensures Value(BINARY32, Widened(h)) == Value(BINARY16, h)
    ensures IsNaN(BINARY16, h) ==> Widened(h) == h / 0x8000 * 0x8000_0000 + 0x7F80_0000 + h % 0x400 * 0x2000
    ensures Widened(h) / 0x8000_0000 == h / 0x8000
  {
    hide Pow2, Magnitude, Nearest, Units, ConvertFormat, ConvertPattern;
    WidenedFits(h);
    if IsNaN(BINARY16, h) {
      assert h % 0x400 != 0;
      SignedParts(BINARY32, Sign(BINARY16, h), F32_INFTY + h % 0x400 * 0x2000);
    } else {
      WideningIsExact(BINARY16, BINARY32, h);
      ConvertParts(BINARY16, BINARY32, h);
      NarrowedFits(Widened(h));
    }
  }

  /** Narrowing undoes widening, except that every NaN becomes the quiet NaN of its sign. */
  lemma NarrowingUndoesWidening(h: Word16)
    ensures Narrowed(Widened(h)) == if IsNaN(BINARY16, h) then h / 0x8000 * 0x8000 + 0x7E00 else h
  {
    hide Pow2, Magnitude, Nearest, Units, ConvertFormat, ConvertPattern;
    WidenedFits(h);
    if IsNaN(BINARY16, h) {
      WideningIsExact16(h);
      NarrowedFits(Widened(h));
    } else {
      RoundTrip(BINARY16, BINARY32, h);
    }
  }

  lemma NarrowedParts(v: Word32)
    ensures IsNaN(BINARY16, Narrowed(v)) <==> IsNaN(BINARY32, v)
    ensures IsNaN(BINARY32, v) ==> Narrowed(v) == v / 0x8000_0000 * 0x8000 + 0x7E00
    ensures Narrowed(v) / 0x8000 == v / 0x8000_0000
    ensures !IsNaN(BINARY32, v) ==>
            Narrowed(v) % 0x8000 == ConvertPattern(BINARY32, BINARY16, Pattern(BINARY32, v))
  {
    hide Pow2, Magnitude, Nearest, Units, ConvertFormat, ConvertPattern;
    NarrowedFits(v);
    WidenedFits(Narrowed(v));
    if !IsNaN(BINARY32, v) {
      ConvertParts(BINARY32, BINARY16, v);
    }
  }

  /** A second trip through binary16 changes nothing more, for NaNs too. */
  lemma NarrowingIsIdempotent(v: Word32)
    ensures Narrowed(Widened(Narrowed(v))) == Narrowed(v)
  {
    hide Pow2, Narrowed, Widened, ConvertPattern;
    NarrowedParts(v);
    NarrowingUndoesWidening(Narrowed(v));
  }

  /** A float survives the trip exactly when it is a binary16 number. */
  lemma SurvivorsAreBinary16(v: Word32)
    requires !IsNaN(BINARY32, v)
    ensures Widened(Narrowed(v)) == v <==> exists h: Word16 :: Value(BINARY16, h) == Value(BINARY32, v)
  {
    hide Pow2, Magnitude, Nearest, Units, ConvertFormat, ConvertPattern, Value;
    NarrowedFits(v);
    RoundTripFixes(BINARY16, BINARY32, v);
    NarrowedParts(v);
    if h: nat :| IsEncoding(BINARY16, h) && Value(BINARY16, h) == Value(BINARY32, v) {
      var word: Word16 := h;
    }
    if h: Word16 :| Value(BINARY16, h) == Value(BINARY32, v) {
      WidenedFits(h);
    }
  }

  /** Neither cast to 16 bits drops anything: the words fit below the sign bit. */
  lemma CastsLoseNothing(u: Word32)
    requires u < F16_MAX
    ensures u < MIN_NORMAL ==>
            var word := Sub32(AddFloat(u, DENORM_MAGIC), DENORM_MAGIC);
            word <= 0x400 && ToUint16(word) == word
    ensures u >= MIN_NORMAL ==>
            var word := Shr32(Add32(Add32(u, 0xc800_0fff), And32(Shr32(u, 13), 1)), 13);
            word <= 0x7C00 && ToUint16(word) == word
  {
    hide Pow2, Bitwise, AddFloat, And32, RoundMagnitude, Units, Shr32;
    if u < MIN_NORMAL { MagicAddition(u); } else { RebiasAndRound(u); }
  }

  // ---------------------------------------------------------------------------------------------
  // Classes

  lemma AbsBits(h: Float16)
    ensures h.AbsImpl() == h.val % 0x8000
  {
    hide And32, Xor32, Bitwise, Not32;
    SignOf16(h.val);
  }

  /** The masks and comparisons of the predicates, arithmetically. */
  lemma PredicatesOnPatterns(h: Float16)
    ensures h.AbsImpl() == h.val % 0x8000
    ensures h.IsNegative() <==> h.val >= 0x8000
    ensures h.IsNaN() <==> IsNaN(BINARY16, h.val)
    ensures h.IsNaN() <==> h.val % 0x8000 > 0x7C00
    ensures Sign(BINARY16, h.val) == h.val / 0x8000 && Pattern(BINARY16, h.val) == h.val % 0x8000
    ensures IsEncoding(BINARY16, h.val)
  {
    hide And32, Float16.AbsImpl;
    AbsBits(h);
    WidenedFits(h.val);
  }

  lemma MaskedExponent(a: Word16)
    requires a < 0x8000
    ensures And32(a, BIASED_EXPONENT_MASK) == 0 <==> a < 0x400
  {
    hide Bitwise, Pow2;
    Pow2Values();
    ExponentField(10, 5, a / 0x400, a % 0x400);
    assert a / 0x400 * 0x400 + a % 0x400 == a;
  }

  lemma ClassThresholds(a: nat)
    ensures a < 0x400 <==> Units(BINARY16, a) < Pow2(135)
    ensures a == 0 <==> Units(BINARY16, a) == 0
  {
    hide Pow2, Magnitude;
    Pow2Values();
    MagnitudeLow(10, 125, 0x400);
    Pow2Adds(10, 125);
    UnitsOrder(BINARY16, a, 0x400);
  }

  /** Each predicate says about the value what its comment claims. */
  lemma ClassesByValue(h: Float16)
    ensures var x := Value(BINARY16, h.val);
            && (h.IsNaN() <==> x == NaN)
            && (h.IsFinite() <==> x.Finite?)
            && (h.IsPositiveInfinity() <==> x == PositiveInfinity)
            && (h.IsNegativeInfinity() <==> x == NegativeInfinity)
            && (h.IsInfinity() <==> x == PositiveInfinity || x == NegativeInfinity)
            && (h.IsNaNOrZero() <==> x == NaN || x == Finite(0))
            && (h.IsSubnormal() <==> x.Finite? && 0 < Absolute(x.units) < Pow2(135))
            && (h.IsNormal() <==> x.Finite? && Absolute(x.units) >= Pow2(135))
  {
    hide Pow2, Units, And32;
    PredicatesOnPatterns(h);
    MaskedExponent(h.val % 0x8000);
    ClassThresholds(h.val % 0x8000);
    WidenedFits(h.val);
  }

  lemma NegateBits(h: Float16)
    ensures h.NegateImpl() == if h.IsNaN() then h.val else Toggled(h.val)
  {
    hide Float16.IsNaN, Xor32, And32, Or32, Bitwise, Not32;
    SignOf16(h.val);
  }

  lemma NegateOnPatterns(h: Float16)
    ensures h.Negate().IsNaN() <==> h.IsNaN()
    ensures h.IsNaN() ==> h.Negate() == h
    ensures !h.IsNaN() ==> h.Negate().val == Flip(BINARY16, h.val) && h.Negate().Negate() == h
  {
    hide Float16.NegateImpl, Float16.IsNaN, Float16.AbsImpl, Flip, IsNaN, Pattern, Sign, IsEncoding, Toggled;
    PredicatesOnPatterns(h);
    PredicatesOnPatterns(h.Negate());
    NegateBits(h);
    NegateBits(h.Negate());
    ToggledTwice(h.val);
    WordParts(BINARY16, h.val);
  }

  /** Abs clears the sign bit and nothing else, zeros and NaNs included; Abs and Negate do to the value what
      they say; NaN stays NaN. */
  lemma SignOperationsByValue(h: Float16)
    ensures h.Abs().val == h.val % 0x8000
    ensures Value(BINARY16, h.Abs().val) == AbsoluteValue(Value(BINARY16, h.val))
    ensures Value(BINARY16, h.Negate().val) == Negated(Value(BINARY16, h.val))
    ensures h.IsNaN() ==> h.Negate() == h
    ensures !h.IsNaN() ==> h.Negate().val == Flip(BINARY16, h.val) && h.Negate().Negate() == h
  {
    hide Pow2, Value, Float16.NegateImpl, Float16.AbsImpl, Float16.IsNaN, Flip;
    PredicatesOnPatterns(h);
    NegateOnPatterns(h);
    ValueOfPattern(BINARY16, h.val);
    ValueOfFlip(BINARY16, h.val);
    assert h.IsNaN() ==> Value(BINARY16, h.val) == NaN by { ClassesByValue(h); }
  }

  lemma RoundingClass16(x: nat)
    ensures RoundMagnitude(BINARY16, x) == 0 <==> x <= Pow2(124)
    ensures RoundMagnitude(BINARY16, x) >= 0x400 <==> x >= 2047 * Pow2(124)
  {
    hide Pow2, RoundMagnitude;
    assert Pow2(BINARY16.t) == 0x400 by { Pow2Values(); }
    Pow2Next(124);
    RoundingClass(BINARY16, x);
  }

  lemma ThresholdsApart()
    ensures 2047 * Pow2(124) < 65520 * Pow2(149)
  {
    hide Pow2;
    Pow2Monotone(124, 149);
  }

  /** Which floats end up in which class. */
  lemma NarrowingClasses(v: Word32)
    requires !IsNaN(BINARY32, v)
    ensures var h, x, halfStep := Float16(Narrowed(v)), Units(BINARY32, Pattern(BINARY32, v)), Pow2(124);
            && !h.IsNaN()
            && (h.AbsImpl() == 0 <==> x <= halfStep)
            && (h.IsSubnormal() <==> halfStep < x < 2047 * halfStep)
            && (h.IsNormal() <==> 2047 * halfStep <= x < 65520 * Pow2(149))
            && (h.IsInfinity() <==> x >= 65520 * Pow2(149))
  {
    hide Pow2, Magnitude, Nearest, Units, And32, Narrowed, RoundMagnitude;
    var h, a := Float16(Narrowed(v)), Pattern(BINARY32, v);
    var x := Units(BINARY32, a);
    Threshold16();
    NarrowedParts(v);
    PredicatesOnPatterns(h);
    MaskedExponent(h.val % 0x8000);
    if a < BINARY32.infinity {
      RoundingClass16(x);
      OverflowsFromThreshold(BINARY16, x);
      RoundAtMostInfinity(BINARY16, x);
    }
    Pow2Next(124);
    ThresholdsApart();
  }

  // ---------------------------------------------------------------------------------------------
  // Order

  lemma LessThanByKey(a: Float16, b: Float16)
    ensures a.LessThan(b) <==> !a.IsNaN() && !b.IsNaN() && Key(BINARY16, a.val) < Key(BINARY16, b.val)
    ensures Float16.AreZero(a, b) <==> a.val % 0x8000 == 0 && b.val % 0x8000 == 0
  {
    hide Pow2, Bitwise, And32, Or32, Key;
    PredicatesOnPatterns(a);
    PredicatesOnPatterns(b);
    OrWithoutSign(a.val, b.val);
    SignOf16(Or32(a.val, b.val));
    BitsAgainstKeys(BINARY16, a.val, b.val);
  }

  /** operator< is the order of the values, and of the floats that ToFloat returns, for every pair. */
  lemma LessThanIsValueOrder(a: Float16, b: Float16)
    ensures a.LessThan(b) <==> Less(Value(BINARY16, a.val), Value(BINARY16, b.val))
    ensures a.LessThan(b) <==> Less(Value(BINARY32, Widened(a.val)), Value(BINARY32, Widened(b.val)))
  {
    hide Pow2, Units, Key, Float16.LessThan, Float16.IsNaN, Widened;
    LessThanByKey(a, b);
    PredicatesOnPatterns(a);
    PredicatesOnPatterns(b);
    WideningIsExact16(a.val);
    WideningIsExact16(b.val);
    if !a.IsNaN() && !b.IsNaN() {
      KeyOrder(BINARY16, a.val, b.val);
    }
  }

  predicate Incomparable(a: Float16, b: Float16) {
    !a.LessThan(b) && !b.LessThan(a)
  }

  /** For all patterns operator< is a strict partial order. Incomparability carries over from a pair of
      neighbours to the outer two unless a NaN stands between numbers of different value, and only then
      fails; for numbers, being incomparable is having the same value. */
  lemma LessThanIsStrictWeakOrder(a: Float16, b: Float16, c: Float16)
    ensures !a.LessThan(a)
    ensures a.LessThan(b) ==> !b.LessThan(a)
    ensures a.LessThan(b) && b.LessThan(c) ==> a.LessThan(c)
    ensures (Incomparable(a, b) && Incomparable(b, c) ==> Incomparable(a, c)) <==>
            !(b.IsNaN() && !a.IsNaN() && !c.IsNaN() && a.val != c.val && !Float16.AreZero(a, c))
    ensures !a.IsNaN() && !b.IsNaN() ==>
            (Incomparable(a, b) <==> Value(BINARY16, a.val) == Value(BINARY16, b.val))
  {
    hide Pow2, Units, Key, Value, Float16.LessThan, Float16.IsNaN, Float16.AreZero;
    LessThanByKey(a, a);
    LessThanByKey(a, b);
    LessThanByKey(b, a);
    LessThanByKey(b, c);
    LessThanByKey(c, b);
    LessThanByKey(a, c);
    LessThanByKey(c, a);
    BitsAgainstKeys(BINARY16, a.val, c.val);
    PredicatesOnPatterns(a);
    PredicatesOnPatterns(b);
    if !a.IsNaN() && !b.IsNaN() {
      KeyOrder(BINARY16, a.val, b.val);
    }
  }

  /** The instance 1, NaN, 2: both numbers are incomparable to the NaN between them, and one is less. */
  lemma NaNBreaksTheWeakOrder(nan: Float16)
    requires nan.IsNaN()
    ensures Incomparable(Float16(0x3C00), nan) && Incomparable(nan, Float16(0x4000))
    ensures Float16(0x3C00).LessThan(Float16(0x4000))
  {
    hide Pow2, And32, Or32;
    PredicatesOnPatterns(Float16(0x3C00));
    PredicatesOnPatterns(Float16(0x4000));
  }

  /** operator== is equality of values, except that it tells the two zeros apart. */
  lemma EqualsIsValueEquality(a: Float16, b: Float16)
    ensures (a.Equals(b) <==> Value(BINARY16, a.val) == Value(BINARY16, b.val) && Value(BINARY16, a.val) != NaN)
            <==> !(Float16.AreZero(a, b) && a.val != b.val)
  {
    hide Pow2, Units, Key, Float16.IsNaN, Float16.AreZero;
    LessThanByKey(a, b);
    PredicatesOnPatterns(a);
    PredicatesOnPatterns(b);
    BitsAgainstKeys(BINARY16, a.val, b.val);
    if !a.IsNaN() && !b.IsNaN() {
      KeyOrder(BINARY16, a.val, b.val);
    }
  }

  /** The gap, concretely: +0 and -0 are both zero, of one value, and not equal. */
  lemma ZerosAreNotEqual()
    ensures Float16.AreZero(Float16(0), Float16(0x8000)) && !Float16(0).Equals(Float16(0x8000))
    ensures Value(BINARY16, 0) == Value(BINARY16, 0x8000) == Finite(0)
    ensures Incomparable(Float16(0), Float16(0x8000))
  {
    hide Pow2, Units, And32, Or32;
    LessThanByKey(Float16(0), Float16(0x8000));
    LessThanByKey(Float16(0x8000), Float16(0));
    PredicatesOnPatterns(Float16(0));
    PredicatesOnPatterns(Float16(0x8000));
    ClassThresholds(0);
  }

  /** For numbers exactly one of <, >, == holds, but none of them for zeros of opposite sign. */
  lemma Trichotomy(a: Float16, b: Float16)
    requires !a.IsNaN() && !b.IsNaN()
    ensures a.LessThan(b) || b.LessThan(a) || a.Equals(b) <==> !(Float16.AreZero(a, b) && a.val != b.val)
    ensures !(a.LessThan(b) && b.LessThan(a)) && !(a.LessThan(b) && a.Equals(b)) && !(b.LessThan(a) && a.Equals(b))
  {
    hide Pow2, Key, Float16.LessThan, Float16.IsNaN, Float16.AreZero;
    LessThanByKey(a, b);
    LessThanByKey(b, a);
    BitsAgainstKeys(BINARY16, a.val, b.val);
  }

  // ---------------------------------------------------------------------------------------------
  // Monotonicity

  /** Narrowing never swaps two floats. */
  lemma NarrowingIsMonotone(v: Word32, w: Word32)
    requires !IsNaN(BINARY32, v) && !IsNaN(BINARY32, w)
    requires !Less(Value(BINARY32, w), Value(BINARY32, v))
    ensures !Float16(Narrowed(w)).LessThan(Float16(Narrowed(v)))
  {
    hide Pow2, Magnitude, Nearest, Units, ConvertFormat, ConvertPattern, Value, Float16.LessThan, Less;
    NarrowedFits(v);
    NarrowedFits(w);
    ConvertIsMonotone(BINARY32, BINARY16, v, w);
    LessThanIsValueOrder(Float16(Narrowed(w)), Float16(Narrowed(v)));
  }

  lemma NaNIsAValue(f: IeeeFormat, a: nat, g: IeeeFormat, b: nat)
    requires Value(f, a) == Value(g, b)
    ensures IsNaN(f, a) <==> IsNaN(g, b)
  {
  }

  /** A binary16 number below (above) a float is never above (below) the narrowed float. */
  lemma NarrowingCrossesNoHalf(v: Word32, h: Float16)
    requires !IsNaN(BINARY32, v) && !IsNaN(BINARY16, h.val)
    ensures !Less(Value(BINARY32, v), Value(BINARY16, h.val)) ==> !Float16(Narrowed(v)).LessThan(h)
    ensures !Less(Value(BINARY16, h.val), Value(BINARY32, v)) ==> !h.LessThan(Float16(Narrowed(v)))
  {
    hide Narrowed, Widened, Value, Float16.LessThan, Less;
    WideningIsExact16(h.val);
    NarrowingUndoesWidening(h.val);
    assert !IsNaN(BINARY32, Widened(h.val)) by { NaNIsAValue(BINARY16, h.val, BINARY32, Widened(h.val)); }
    if !Less(Value(BINARY32, v), Value(BINARY16, h.val)) { NarrowingIsMonotone(Widened(h.val), v); }
    if !Less(Value(BINARY16, h.val), Value(BINARY32, v)) { NarrowingIsMonotone(v, Widened(h.val)); }
  }

  ghost predicate SortedFloats(values: seq<Word32>) {
    && (forall i :: 0 <= i < |values| ==> !IsNaN(BINARY32, values[i]))
    && forall i, j :: 0 <= i < j < |values| ==> !Less(Value(BINARY32, values[j]), Value(BINARY32, values[i]))
  }

  /** A sorted vector stays sorted when all its elements are narrowed. */
  lemma SortedStaysSorted(values: seq<Word32>, halves: seq<Float16>)
    requires SortedFloats(values) && |halves| == |values|
    requires forall i :: 0 <= i < |values| ==> halves[i].val == Narrowed(values[i])
    ensures forall i, j :: 0 <= i < j < |halves| ==> !halves[j].LessThan(halves[i])
  {
    hide Narrowed, Value, Float16.LessThan, Less;
    forall i, j | 0 <= i < j < |halves|
      ensures !halves[j].LessThan(halves[i])
    {
      NarrowingIsMonotone(values[i], values[j]);
      assert halves[i] == Float16(Narrowed(values[i])) && halves[j] == Float16(Narrowed(values[j]));
    }
  }

  /** So FromFloats sends a sorted vector to a sorted vector. */
  method FromSortedFloats(values: seq<Word32>) returns (halves: seq<Float16>)
    ensures |halves| == |values|
    ensures forall i :: 0 <= i < |values| ==> halves[i].val == Narrowed(values[i])
    ensures SortedFloats(values) ==> forall i, j :: 0 <= i < j < |halves| ==> !halves[j].LessThan(halves[i])
  {
    hide Narrowed, Float16.LessThan;
    halves := Float16.FromFloats(values);
    if SortedFloats(values) {
      SortedStaysSorted(values, halves);
    }
  }

  // ---------------------------------------------------------------------------------------------
  // How far off

  /** Half a step of 2^-24 below 2^-14, and one part in 2^11 from there up to 65520. */
  lemma NarrowingError(v: Word32)
    requires IsFinite(BINARY32, v)
    requires Units(BINARY32, Pattern(BINARY32, v)) < 65520 * Pow2(149)
    ensures Value(BINARY32, v).Finite? && Value(BINARY32, Widened(Narrowed(v))).Finite?
    ensures var exact, got := Value(BINARY32, v).units, Value(BINARY32, Widened(Narrowed(v))).units;
            && (Absolute(exact) < Pow2(135) ==> Absolute(exact - got) <= Pow2(124))
            && (Absolute(exact) >= Pow2(135) ==> 0x800 * Absolute(exact - got) <= Absolute(exact))
  {
    hide Magnitude, Nearest, Units, ConvertFormat, Narrowed, Widened, Pow2, RoundMagnitude;
    var x := Units(BINARY32, Pattern(BINARY32, v));
    Threshold16();
    NarrowedFits(v);
    NarrowedParts(v);
    WidenedFits(Narrowed(v));
    OverflowsFromThreshold(BINARY16, x);
    RoundingError(BINARY16, x);
    Pow2Monotone(135, 136);
    assert Pow2(11) == 0x800 by { Pow2Values(); }
    Pow2Next(124);
    RoundAtMostInfinity(BINARY16, x);
    WideningIsExact16(Narrowed(v));
    DistanceOfValues(BINARY32, v, BINARY16, Narrowed(v));
  }

  // ---------------------------------------------------------------------------------------------
  // Sign symmetry

  /** Negating reverses operator<, for every pair. */
  lemma NegateReversesOrder(a: Float16, b: Float16)
    ensures a.LessThan(b) <==> b.Negate().LessThan(a.Negate())
  {
    hide Pow2, Units, Key, Value, Float16.LessThan, Float16.IsNaN, Float16.Negate, Flip;
    LessThanByKey(a, b);
    LessThanByKey(b.Negate(), a.Negate());
    SignOperationsByValue(a);
    SignOperationsByValue(b);
    PredicatesOnPatterns(a);
    PredicatesOnPatterns(b);
    NegateOnPatterns(a);
    NegateOnPatterns(b);
    FlipNegatesKey(BINARY16, a.val);
    FlipNegatesKey(BINARY16, b.val);
  }

  /** Narrowing -v is negating the narrowed v, and widening commutes with Negate. */
  lemma ConversionsCommuteWithNegate(v: Word32, h: Float16)
    ensures !IsNaN(BINARY32, v) ==> Narrowed((v + 0x8000_0000) % 0x1_0000_0000) == Float16(Narrowed(v)).Negate().val
    ensures !h.IsNaN() ==> Widened(h.Negate().val) == (Widened(h.val) + 0x8000_0000) % 0x1_0000_0000
  {
    hide Pow2, Units, Key, Value, Float16.IsNaN, Float16.Negate, ConvertFormat, Flip;
    NarrowedFits(v);
    NarrowedParts(v);
    FloatParts(v);
    if !IsNaN(BINARY32, v) {
      ConvertFlips(BINARY32, BINARY16, v);
      PredicatesOnPatterns(Float16(Narrowed(v)));
      SignOperationsByValue(Float16(Narrowed(v)));
    }
    PredicatesOnPatterns(h);
    if !h.IsNaN() {
      SignOperationsByValue(h);
      ConvertFlips(BINARY16, BINARY32, h.val);
      FloatParts(Widened(h.val));
    }
  }
}
