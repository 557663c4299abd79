/** binary16: the conversions, predicates and comparisons of Float16Impl, over the 16-bit pattern. */
module Float16Impl {
  import opened Words
  import opened Powers
  import HalfEven
  import opened Magnitudes
  import opened Formats
  import opened Conversions
  import opened FloatArithmetic

  const SIGN_MASK: Word16 := 0x8000
  const BIASED_EXPONENT_MASK: Word16 := 0x7C00
  const POSITIVE_INFINITY_BITS: Word16 := 0x7C00
  const NEGATIVE_INFINITY_BITS: Word16 := 0xFC00
  const POSITIVE_QNAN_BITS: Word16 := 0x7E00
  const F32_INFTY: Word32 := 0x7F80_0000     // 255 << 23
  const F16_MAX: Word32 := 0x4780_0000       // (127 + 16) << 23
  const DENORM_MAGIC: Word32 := 0x3F00_0000  // ((127 - 15) + (23 - 10) + 1) << 23, which is 0.5
  const MIN_NORMAL: Word32 := 0x3880_0000    // 113 << 23, which is 2^-14

  lemma NarrowedFits(v: Word32)
    ensures IsEncoding(BINARY32, v) && Sign(BINARY32, v) == v / 0x8000_0000 && Pattern(BINARY32, v) == v % 0x8000_0000
    ensures Signed(BINARY16, Sign(BINARY32, v), POSITIVE_QNAN_BITS) == v / 0x8000_0000 * 0x8000 + POSITIVE_QNAN_BITS
    ensures !IsNaN(BINARY32, v) ==> ConvertFormat(BINARY32, BINARY16, v) < 0x1_0000
  {
  }

  /** What narrowing should give: IEEE conversion, and one quiet NaN of either sign. */
  function Narrowed(v: Word32): (r: Word16) {
    NarrowedFits(v);
    if IsNaN(BINARY32, v) then Signed(BINARY16, Sign(BINARY32, v), POSITIVE_QNAN_BITS)
    else ConvertFormat(BINARY32, BINARY16, v)
  }

  lemma WidenedFits(h: Word16)
    ensures IsEncoding(BINARY16, h) && Sign(BINARY16, h) == h / 0x8000 && Pattern(BINARY16, h) == h % 0x8000
    ensures Signed(BINARY32, Sign(BINARY16, h), F32_INFTY + h % 0x400 * 0x2000)
         == h / 0x8000 * 0x8000_0000 + F32_INFTY + h % 0x400 * 0x2000
    ensures !IsNaN(BINARY16, h) ==> ConvertFormat(BINARY16, BINARY32, h) < 0x1_0000_0000
  {
  }

  /** What widening should give: IEEE conversion, and for a NaN its sign and payload. */
  function Widened(h: Word16): (r: Word32) {
    WidenedFits(h);
    if IsNaN(BINARY16, h) then Signed(BINARY32, Sign(BINARY16, h), F32_INFTY + h % 0x400 * 0x2000)
    else ConvertFormat(BINARY16, BINARY32, h)
  }

  // ---------------------------------------------------------------------------------------------
  // The arithmetic tricks, one lemma each

  /** The two formats' values as magnitudes, and 112 << 23 as a change of the smallest exponent. */
  lemma MagnitudesOfWords(u: nat)
    ensures Units(BINARY32, u) == Magnitude(23, 0, u) && Units(BINARY16, u) == Magnitude(10, 125, u)
    ensures u >= 0x80_0000 ==> Magnitude(23, 0, u + 0x3800_0000) == Magnitude(23, 112, u)
  {
    hide Magnitude;
    if u >= 0x80_0000 {
      Pow2Values();
      ExponentShift(23, 0, 112, u);
    }
  }

  lemma MagicUnits()
    ensures Units(BINARY32, MIN_NORMAL) == Pow2(135) && Units(BINARY32, DENORM_MAGIC) == Pow2(148)
  {
    hide Pow2, Magnitude, Units;
    Pow2Values();
    MagnitudesOfWords(MIN_NORMAL);
    MagnitudesOfWords(0x80_0000);
    MagnitudesOfWords(DENORM_MAGIC);
    ExponentShift(23, 0, 125, 0x80_0000);
    MagnitudeLow(23, 112, 0x80_0000);
    MagnitudeLow(23, 125, 0x80_0000);
    Pow2Adds(23, 112);
    Pow2Adds(23, 125);
  }

  lemma NearestLow(t: nat, s: nat, x: nat)
    requires x < Pow2(s + t + 1)
    ensures Nearest(t, s, x) == HalfEven.Round(x, s)
  {
  }

  /** Below 2^-14: one float addition of 0.5 and one integer subtraction round |v| * 2^24. */
  lemma MagicAddition(u: Word32)
    requires u < MIN_NORMAL
    ensures var word := Sub32(AddFloat(u, DENORM_MAGIC), DENORM_MAGIC);
            && word == HalfEven.Round(Units(BINARY32, u), 125) == RoundMagnitude(BINARY16, Units(BINARY32, u))
            && word <= 0x400
  {
    hide Pow2, Magnitude, HalfEven.Round, Nearest, Xor32, AddFloat, Units;
    Pow2Values();
    MagicUnits();
    var x := Units(BINARY32, u);
    UnitsOrder(BINARY32, u, MIN_NORMAL);
    AddPositive(u, DENORM_MAGIC);
    Pow2Monotone(135, 148);
    NearestOfMagicSum(23, 0, 125, x);
    assert 126 * Pow2(23) == DENORM_MAGIC;
    LowRange(9, 125, x);
    Pow2Monotone(135, 136);
    NearestLow(10, 125, x);
  }

  /** Rounding away 13 fraction bits of a rebiased word. */
  lemma RoundRebiased(rebiased: nat)
    requires rebiased >= 0x80_0000
    ensures Nearest(10, 125, Units(BINARY32, rebiased + 0x3800_0000)) == HalfEven.Round(rebiased, 13)
    ensures HalfEven.Round(rebiased, 13) == (rebiased + 0xfff + rebiased / 0x2000 % 2) / 0x2000
  {
    hide Pow2, Magnitude, HalfEven.Round, Nearest, Units;
    Pow2Values();
    MagnitudesOfWords(rebiased);
    MagnitudesOfWords(rebiased + 0x3800_0000);
    HalfEven.AddBiasThenTruncate(rebiased, 13);
    NearestOfMagnitude(10, 13, 112, rebiased);
  }

  lemma RebiasedWord(u: Word32)
    requires MIN_NORMAL <= u < F16_MAX
    ensures var word := Add32(Add32(u, 0xc800_0fff), u / 0x2000 % 2);
            && word == u + 0xc800_0fff + u / 0x2000 % 2 - 0x1_0000_0000
            && (u - 0x3800_0000) / 0x2000 % 2 == u / 0x2000 % 2
            && word / 0x2000 <= 0x7C00
  {
  }

  /** From 2^-14 up to 2^16: rebias the exponent and round the word itself, the sum wrapping around once. */
  lemma RebiasAndRound(u: Word32)
    requires MIN_NORMAL <= u < F16_MAX
    ensures var word := Add32(Add32(u, 0xc800_0fff), And32(Shr32(u, 13), 1));
            && word == u + 0xc800_0fff + u / 0x2000 % 2 - 0x1_0000_0000
            && Shr32(word, 13) == RoundMagnitude(BINARY16, Units(BINARY32, u)) <= 0x7C00
  {
    hide Pow2, HalfEven.Round, Nearest, Units, And32;
    Pow2Values();
    LowBit(Shr32(u, 13));
    RebiasedWord(u);
    Shifts(u, 13);
    Shifts(Add32(Add32(u, 0xc800_0fff), u / 0x2000 % 2), 13);
    RoundRebiased(u - 0x3800_0000);
  }

  /** From 2^16 on everything overflows. */
  lemma LargeMagnitudes(u: Word32)
    requires F16_MAX <= u < F32_INFTY
    ensures RoundMagnitude(BINARY16, Units(BINARY32, u)) == 0x7C00
  {
    hide Pow2, HalfEven.Round, Nearest, Units;
    RoundRebiased(u - 0x3800_0000);
  }

  /** Normal numbers widen by padding the fraction and rebiasing the exponent. */
  lemma PadAndRebias(a: nat)
    requires 0x400 <= a < 0x7C00
    ensures RoundMagnitude(BINARY32, Units(BINARY16, a)) == a * 0x2000 + 0x3800_0000
  {
    hide Pow2, Magnitude, Nearest, Units;
    Pow2Values();
    MagnitudesOfWords(a);
    MagnitudesOfWords(a * 0x2000);
    PaddedFraction(10, 13, 112, a);
    NearestOfExact(23, 0, a * 0x2000 + 0x3800_0000);
  }

  lemma Distribute(a: int, p: int)
    ensures (a * 0x2000 + 0x80_0000) * p == 0x80_0000 * p + a * (0x2000 * p)
  {
  }

  lemma SubnormalUnits(a: nat)
    requires a < 0x400
    ensures Units(BINARY32, a * 0x2000 + MIN_NORMAL) == Units(BINARY32, MIN_NORMAL) + Units(BINARY16, a)
  {
    hide Pow2, Magnitude, Units;
    Pow2Values();
    MagnitudesOfWords(a);
    MagnitudesOfWords(0x80_0000);
    MagnitudesOfWords(MIN_NORMAL);
    MagnitudesOfWords(a * 0x2000 + 0x80_0000);
    MagnitudesOfWords(a * 0x2000 + MIN_NORMAL);
    MagnitudeLow(23, 112, a * 0x2000 + 0x80_0000);
    MagnitudeLow(23, 112, 0x80_0000);
    MagnitudeLow(10, 125, a);
    Pow2Adds(13, 112);
    Distribute(a, Pow2(112));
  }

  /** Subnormal numbers widen by one float subtraction of 2^-14, which is exact. */
  lemma Renormalize(a: nat)
    requires a < 0x400
    ensures SubFloat(a * 0x2000 + MIN_NORMAL, MIN_NORMAL) == RoundMagnitude(BINARY32, Units(BINARY16, a))
  {
    hide Pow2, Magnitude, Nearest, SubFloat, Units, RoundMagnitude;
    SubnormalUnits(a);
    SubPositive(a * 0x2000 + MIN_NORMAL, MIN_NORMAL);
  }

  // ---------------------------------------------------------------------------------------------
  // The type

  /** The sign bit is added on top of a result that leaves its place free. */
  lemma SignOnTop(val: Word16, bit: nat)
    requires val < 0x8000 && bit < 2
    ensures ToUint16(Or32(val, ToUint16(Shr32(bit * 0x8000_0000, 16)))) == bit * 0x8000 + val
  {
    hide Pow2, Bitwise, Shr32;
    Pow2Values();
    Shifts(bit * 0x8000_0000, 16);
    ScaledIsProduct(bit, 15);
    DisjointBits(OR, 15, val, bit);
  }

  lemma SignOnTopOfFloat(o: Word32, bit: nat)
    requires o < 0x8000_0000 && bit < 2
    ensures Or32(o, Shl32(bit * 0x8000, 16)) == bit * 0x8000_0000 + o
  {
    hide Pow2, Bitwise, Shl32;
    Pow2Values();
    ShiftFits(bit * 0x8000, 16, 0x1_0000);
    ScaledIsProduct(bit, 31);
    DisjointBits(OR, 31, o, bit);
  }

  /** The narrowed pattern, one case for each way through the conversion. */
  lemma NarrowedByCases(v: Word32)
    ensures var s, u := v / 0x8000_0000 * 0x8000, v % 0x8000_0000;
            && (F32_INFTY < u ==> Narrowed(v) == s + 0x7e00)
            && (F16_MAX <= u <= F32_INFTY ==> Narrowed(v) == s + 0x7c00)
            && (u < MIN_NORMAL ==>
                var word := ToUint16(Sub32(AddFloat(u, DENORM_MAGIC), DENORM_MAGIC));
                word < 0x8000 && Narrowed(v) == s + word)
            && (MIN_NORMAL <= u < F16_MAX ==>
                var word := ToUint16(Shr32(Add32(Add32(u, 0xc800_0fff), And32(Shr32(u, 13), 1)), 13));
                word < 0x8000 && Narrowed(v) == s + word)
  {
    hide Pow2, Sign, Pattern, And32, Shr32, Sub32, AddFloat, Units, HalfEven.Round, RoundMagnitude;
    NarrowedFits(v);
    var u := v % 0x8000_0000;
    if u < MIN_NORMAL {
      MagicAddition(u);
    } else if u < F16_MAX {
      RebiasAndRound(u);
    } else if u < F32_INFTY {
      LargeMagnitudes(u);
    }
  }

  /** The exponent field of a magnitude shifted up by 13. */
  lemma ExponentBits(a: nat)
    requires a < 0x8000
    ensures And32(0xF80_0000, a * 0x2000) == a / 0x400 * 0x80_0000
  {
    hide Pow2, Bitwise;
    Pow2Values();
    ExponentField(23, 5, a / 0x400, a % 0x400 * 0x2000);
    assert a / 0x400 * Pow2(23) + a % 0x400 * 0x2000 == a * 0x2000;
  }

  lemma ShiftedWords(a: nat)
    requires a < 0x8000
    ensures Shl32(a, 13) == a * 0x2000 && Shl32(0x7c00, 13) == 0xF80_0000
    ensures Shl32(113, 23) == MIN_NORMAL && Shl32(127 - 15, 23) == 0x3800_0000
    ensures Shl32(128 - 16, 23) == 0x3800_0000 && Shl32(1, 23) == 0x80_0000
  {
    hide Pow2, Shl32;
    Pow2Values();
    ShiftFits(a, 13, 0x2000);
    ShiftFits(0x7c00, 13, 0x2000);
    ShiftFits(113, 23, 0x80_0000);
    ShiftFits(127 - 15, 23, 0x80_0000);
    ShiftFits(128 - 16, 23, 0x80_0000);
    ShiftFits(1, 23, 0x80_0000);
  }

  /** The widened word, one case for each way through the conversion. */
  lemma WidenedByCases(h: Word16)
    ensures var s, a := h / 0x8000 * 0x8000_0000, h % 0x8000;
            && (a < 0x400 ==> var word := SubFloat(a * 0x2000 + MIN_NORMAL, MIN_NORMAL);
                              word < 0x8000_0000 && Widened(h) == s + word)
            && (0x400 <= a < 0x7C00 ==> Widened(h) == s + a * 0x2000 + 0x3800_0000)
            && (0x7C00 <= a ==> Widened(h) == s + a * 0x2000 + 0x7000_0000)
  {
    hide Pow2, Sign, Pattern, Scaled, Halved, SubFloat, Units, RoundMagnitude;
    WidenedFits(h);
    var a := h % 0x8000;
    if a < 0x400 {
      Renormalize(a);
      RoundedFits(0, Units(BINARY16, a));
    } else if a < 0x7C00 {
      PadAndRebias(a);
    }
  }

  datatype Float16 = Float16(val: Word16) {

    static method ToUint16Impl(v: Word32) returns (val: Word16)
      ensures val == Narrowed(v)
    {
      hide Narrowed, And32, Or32, Xor32, Shl32, Shr32, Add32, Sub32, ToUint16, AddFloat;
      SignOf32(v);
      ShiftedWords(0);
      NarrowedByCases(v);

      var u: Word32 := v;
      val := 0;

      var sign := And32(u, 0x8000_0000);
      u := Xor32(u, sign);

      if u >= F16_MAX {
        val := if u > F32_INFTY then 0x7e00 else 0x7c00;
      } else {
        if u < Shl32(113, 23) {
          u := AddFloat(u, DENORM_MAGIC);
          val := ToUint16(Sub32(u, DENORM_MAGIC));
        } else {
          var mantOdd := And32(Shr32(u, 13), 1);
          u := Add32(u, 0xc800_0fff);
          u := Add32(u, mantOdd);
          val := ToUint16(Shr32(u, 13));
        }
      }

      SignOnTop(val, v / 0x8000_0000);
      val := ToUint16(Or32(val, ToUint16(Shr32(sign, 16))));
    }

    /** The explicit constructor from float. */
    static method FromFloat(v: Word32) returns (h: Float16)
      ensures h.val == Narrowed(v)
    {
      var val := ToUint16Impl(v);
      h := Float16(val);
    }

    method ToFloatImpl() returns (f: Word32)
      ensures f == Widened(val)
    {
      hide Pow2, Bitwise, And32, Or32, Shl32, SubFloat, Widened;
      ShiftedWords(val % 0x8000);
      SignOf16(val);
      ExponentBits(val % 0x8000);
      WidenedByCases(val);

      var magic := Shl32(113, 23);
      var shiftedExp := Shl32(0x7c00, 13);
      var o := Shl32(And32(val, 0x7fff), 13);
      var exp := And32(shiftedExp, o);
      o := Add32(o, Shl32(127 - 15, 23));

      if exp == shiftedExp {
        o := Add32(o, Shl32(128 - 16, 23));
      } else if exp == 0 {
        o := Add32(o, Shl32(1, 23));
        o := SubFloat(o, magic);
      }

      SignOnTopOfFloat(o, val / 0x8000);
      o := Or32(o, Shl32(And32(val, 0x8000), 16));
      return o;
    }

    predicate IsNegative() { ToInt16(val) < 0 }

    function AbsImpl(): Word16 { ToUint16(And32(val, Not32(SIGN_MASK))) }

    function NegateImpl(): Word16 {
      if IsNaN() then val else ToUint16(Xor32(val, SIGN_MASK))
    }

    predicate IsNaN() { AbsImpl() > POSITIVE_INFINITY_BITS }
    predicate IsFinite() { AbsImpl() < POSITIVE_INFINITY_BITS }
    predicate IsPositiveInfinity() { val == POSITIVE_INFINITY_BITS }
    predicate IsNegativeInfinity() { val == NEGATIVE_INFINITY_BITS }
    predicate IsInfinity() { AbsImpl() == POSITIVE_INFINITY_BITS }
    predicate IsNaNOrZero() { AbsImpl() == 0 || AbsImpl() > POSITIVE_INFINITY_BITS }

    predicate IsNormal() {
      && AbsImpl() < POSITIVE_INFINITY_BITS
      && AbsImpl() != 0
      && And32(AbsImpl(), BIASED_EXPONENT_MASK) != 0
    }

    predicate IsSubnormal() {
      && AbsImpl() < POSITIVE_INFINITY_BITS
      && AbsImpl() != 0
      && And32(AbsImpl(), BIASED_EXPONENT_MASK) == 0
    }

    function Abs(): Float16 { Float16(AbsImpl()) }
    function Negate(): Float16 { Float16(NegateImpl()) }

    static predicate AreZero(lhs: Float16, rhs: Float16) {
      ToUint16(And32(Or32(lhs.val, rhs.val), Not32(SIGN_MASK))) == 0
    }

    /** operator== */
    predicate Equals(rhs: Float16) {
      if IsNaN() || rhs.IsNaN() then false else val == rhs.val
    }

    /** operator< */
    predicate LessThan(rhs: Float16) {
      if IsNaN() || rhs.IsNaN() then false
      else if IsNegative() != rhs.IsNegative() then IsNegative() && !AreZero(this, rhs)
      else val != rhs.val && ((val < rhs.val) != IsNegative())
    }

    /** The documented way to convert a vector: std::transform with a back_inserter. */
    static method FromFloats(values: seq<Word32>) returns (halves: seq<Float16>)
      ensures |halves| == |values|
      ensures forall i :: 0 <= i < |values| ==> halves[i].val == Narrowed(values[i])
    {
      halves := [];
      for i := 0 to |values|
        invariant |halves| == i
        invariant forall k :: 0 <= k < i ==> halves[k].val == Narrowed(values[k])
      {
        var h := FromFloat(values[i]);
        halves := halves + [h];
      }
    }
  }
}
