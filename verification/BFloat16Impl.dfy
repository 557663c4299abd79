/** bfloat16: the conversions, predicates and comparisons of BFloat16Impl and BFloat16_t, over the 16-bit pattern. */
module BFloat16Impl {
  import opened Words
  import opened Powers
  import HalfEven
  import opened Magnitudes
  import opened Formats
  import opened FloatArithmetic
  import opened Memory

  const SIGN_MASK: Word16 := 0x8000
  const BIASED_EXPONENT_MASK: Word16 := 0x7F80
  const POSITIVE_INFINITY_BITS: Word16 := 0x7F80
  const NEGATIVE_INFINITY_BITS: Word16 := 0xFF80
  const POSITIVE_QNAN_BITS: Word16 := 0x7FC1
  const ROUND_TO_NEAREST: Word16 := 0x7FFF

  lemma NarrowedFits(v: Word32)
    ensures IsEncoding(BINARY32, v) && Sign(BINARY32, v) == v / 0x8000_0000 && Pattern(BINARY32, v) == v % 0x8000_0000
    ensures !IsNaN(BINARY32, v) ==> ConvertFormat(BINARY32, BFLOAT16, v) < 0x1_0000
  {
  }

  /** What narrowing should give: IEEE conversion, and one quiet NaN for every NaN. */
  function Narrowed(v: Word32): (r: Word16) {
    NarrowedFits(v);
    if IsNaN(BINARY32, v) then POSITIVE_QNAN_BITS else ConvertFormat(BINARY32, BFLOAT16, v)
  }

  lemma WidenedFits(h: Word16)
    ensures IsEncoding(BFLOAT16, h) && Sign(BFLOAT16, h) == h / 0x8000 && Pattern(BFLOAT16, h) == h % 0x8000
    ensures !IsNaN(BFLOAT16, h) ==> ConvertFormat(BFLOAT16, BINARY32, h) < 0x1_0000_0000
  {
  }

  /** What widening should give: IEEE conversion, and the quiet NaN of `float` for every NaN. */
  function Widened(h: Word16): (r: Word32) {
    WidenedFits(h);
    if IsNaN(BFLOAT16, h) then QUIET_NAN else ConvertFormat(BFLOAT16, BINARY32, h)
  }

  lemma MagnitudesOfWords(u: nat)
    ensures Units(BINARY32, u) == Magnitude(23, 0, u) && Units(BFLOAT16, u) == Magnitude(7, 16, u)
  {
  }

  /** Rounding the magnitude word to its upper half is rounding the number, overflow included. */
  lemma RoundUpperHalf(u: nat)
    requires u <= 0x7F80_0000
    ensures u <= BINARY32.infinity
    ensures ConvertPattern(BINARY32, BFLOAT16, u) == HalfEven.Round(u, 16)
    ensures HalfEven.Round(u, 16) == (u + 0x7FFF + u / 0x1_0000 % 2) / 0x1_0000
  {
    hide Pow2, Magnitude, HalfEven.Round, Nearest, Units;
    Pow2Values();
    HalfEven.AddBiasThenTruncate(u, 16);
    MagnitudesOfWords(u);
    NearestOfMagnitude(7, 16, 0, u);
  }

  lemma PatternOfNumber(v: Word32)
    requires !IsNaN(BINARY32, v)
    ensures v % 0x8000_0000 <= 0x7F80_0000
  {
  }

  /** The sum over a magnitude, and the same sum with the sign bit on top. */
  lemma UpperHalfOfSum(s: nat, u: nat)
    requires s < 2 && u <= 0x7F80_0000
    ensures var v, sum := s * 0x8000_0000 + u, u + 0x7FFF + u / 0x1_0000 % 2;
            && v / 0x1_0000 % 2 == u / 0x1_0000 % 2
            && (v + (v / 0x1_0000 % 2 + 0x7FFF)) / 0x1_0000 == s * 0x8000 + sum / 0x1_0000
            && sum / 0x1_0000 <= 0x7F80
            && (s * 0x8000 + sum / 0x1_0000) % 0x8000 == sum / 0x1_0000
  {
    assert (s * 0x8000_0000 + u) / 0x1_0000 == s * 0x8000 + u / 0x1_0000;
  }

  /** The numbers alone: a magnitude up to infinity, a sign bit s, and the bias. */
  lemma BiasedWord(s: nat, u: nat)
    requires s < 2 && u <= 0x7F80_0000
    ensures var v, bias := s * 0x8000_0000 + u, (s * 0x8000_0000 + u) / 0x1_0000 % 2 + 0x7FFF;
            && u + bias < 0x8000_0000
            && Add32(v, bias) == v + bias
            && (v + bias) / 0x1_0000 % 0x8000 <= 0x7F80
  {
    UpperHalfOfSum(s, u);
  }

  /** The integer addition stays below the sign bit, so it neither wraps nor makes a NaN. */
  lemma BiasNeverOverflows(v: Word32)
    requires !IsNaN(BINARY32, v)
    ensures var bias := v / 0x1_0000 % 2 + ROUND_TO_NEAREST;
            && v % 0x8000_0000 + bias < 0x8000_0000
            && Add32(v, bias) == v + bias
            && (v + bias) / 0x1_0000 % 0x8000 <= POSITIVE_INFINITY_BITS
  {
    hide IsNaN, Add32;
    PatternOfNumber(v);
    BiasedWord(v / 0x8000_0000, v % 0x8000_0000);
  }

  lemma NarrowedByAddition(v: Word32)
    requires !IsNaN(BINARY32, v)
    ensures Narrowed(v) == Add32(v, v / 0x1_0000 % 2 + ROUND_TO_NEAREST) / 0x1_0000
  {
    hide Pow2, Magnitude, HalfEven.Round, Nearest, Units, ConvertPattern;
    NarrowedFits(v);
    BiasNeverOverflows(v);
    RoundUpperHalf(v % 0x8000_0000);
    UpperHalfOfSum(v / 0x8000_0000, v % 0x8000_0000);
  }

  lemma WidenedByPadding(h: Word16)
    requires !IsNaN(BFLOAT16, h)
    ensures Widened(h) == h * 0x1_0000
  {
    hide Pow2, Magnitude, Nearest, Units;
    Pow2Values();
    WidenedFits(h);
    var a := h % 0x8000;
    MagnitudesOfWords(a);
    PaddedFraction(7, 16, 0, a);
    NearestOfExact(23, 0, a * 0x1_0000);
  }

  /** get_msb_half: two bytes of the object representation of a float. */
  method GetMsbHalf(fl: Word32, native: Endian) returns (result: Word16)
    ensures result == fl / 0x1_0000
  {
    var bytes := Store(fl, 4, native);
    var half := new Byte[2];
    if native == Little {
      MemCopy(half, 0, bytes, 2, 2);
    } else {
      MemCopy(half, 0, bytes, 0, 2);
    }
    assert Capacity(2) == 0x1_0000;
    UpperHalfBytes(fl, native);
    NumberOfBytes(fl / 0x1_0000, 2, native);
    assert half[..] == Bytes(fl / 0x1_0000, 2, native);
    result := Number(half[..], native);
  }

  lemma NarrowedNaN(v: Word32)
    requires IsNaN(BINARY32, v)
    ensures Narrowed(v) == POSITIVE_QNAN_BITS == 0x7FC1
  {
  }

  lemma WidenedNaN(h: Word16)
    requires IsNaN(BFLOAT16, h)
    ensures Widened(h) == QUIET_NAN == 0x7FC0_0000
  {
  }

  lemma NaNByPattern(h: Word16)
    ensures BFloat16(h).IsNaN() <==> Formats.IsNaN(BFLOAT16, h)
  {
    hide And32, Xor32, Not32, Bitwise, Pow2, Pattern;
    SignOf16(h);
    WidenedFits(h);
  }

  /** Two zero bytes on the less significant side multiply by 2^16. */
  lemma PaddedBytes(h: Word16, native: Endian)
    ensures native == Little ==> Bytes(h * 0x1_0000, 4, native) == [0, 0] + Bytes(h, 2, native)
    ensures native == Big ==> Bytes(h * 0x1_0000, 4, native) == Bytes(h, 2, native) + [0, 0]
  {
  }

  datatype BFloat16 = BFloat16(val: Word16) {

    static method ToUint16Impl(v: Word32, native: Endian) returns (result: Word16)
      ensures result == Narrowed(v)
      ensures Formats.IsNaN(BINARY32, v) ==> result == 0x7FC1
    {
      hide Narrowed, And32;
      if Formats.IsNaN(BINARY32, v) {
        result := POSITIVE_QNAN_BITS;
        assert result == Narrowed(v) by { NarrowedNaN(v); }
      } else {
        var upperBits := GetMsbHalf(v, native);
        var u: Word32 := v;
        LowBit(upperBits);
        NarrowedByAddition(v);
        u := Add32(u, And32(upperBits, 1) + ROUND_TO_NEAREST);
        result := GetMsbHalf(u, native);
      }
    }

    static method FromFloat(v: Word32, native: Endian) returns (h: BFloat16)
      ensures h.val == Narrowed(v)
    {
      var val := ToUint16Impl(v, native);
      h := BFloat16(val);
    }

    method ToFloatImpl(native: Endian) returns (f: Word32)
      ensures f == Widened(val)
      ensures IsNaN() ==> f == 0x7FC0_0000
    {
      hide Widened, Bytes, Number;
      NaNByPattern(val);
      if IsNaN() {
        assert QUIET_NAN == Widened(val) by { WidenedNaN(val); }
        return QUIET_NAN;
      }
      var result := new Byte[4];
      var half := Store(val, 2, native);
      if native == Little {
        MemSet(result, 0, 0, 2);
        MemCopy(result, 2, half, 0, 2);
      } else {
        MemCopy(result, 0, half, 0, 2);
        MemSet(result, 2, 0, 2);
      }
      PaddedBytes(val, native);
      assert result[..] == Bytes(val * 0x1_0000, 4, native);
      assert Capacity(4) == 0x1_0000_0000;
      NumberOfBytes(val * 0x1_0000, 4, native);
      WidenedByPadding(val);
      f := Number(result[..], native);
    }

    predicate IsNegative() { ToInt16(val) < 0 }

    function AbsImpl(): Word16 { ToUint16(And32(val, Not32(SIGN_MASK))) }

    function NegateImpl(): Word16 {
      if IsNaN() then val else ToUint16(Xor32(val, SIGN_MASK))
    }

    predicate IsNaN() { AbsImpl() > POSITIVE_INFINITY_BITS }
    predicate IsFinite() { AbsImpl() < POSITIVE_INFINITY_BITS }
    predicate IsPositiveInfinity() { val == POSITIVE_INFINITY_BITS }
    predicate IsNegativeInfinity() { val == NEGATIVE_INFINITY_BITS }
    predicate IsInfinity() { AbsImpl() == POSITIVE_INFINITY_BITS }
    predicate IsNaNOrZero() { AbsImpl() == 0 || AbsImpl() > POSITIVE_INFINITY_BITS }

    predicate IsNormal() {
      && AbsImpl() < POSITIVE_INFINITY_BITS
      && AbsImpl() != 0
      && And32(AbsImpl(), BIASED_EXPONENT_MASK) != 0
    }

    predicate IsSubnormal() {
      && AbsImpl() < POSITIVE_INFINITY_BITS
      && AbsImpl() != 0
      && And32(AbsImpl(), BIASED_EXPONENT_MASK) == 0
    }

    function Abs(): BFloat16 { BFloat16(AbsImpl()) }
    function Negate(): BFloat16 { BFloat16(NegateImpl()) }

    static predicate AreZero(lhs: BFloat16, rhs: BFloat16) {
      ToUint16(And32(Or32(lhs.val, rhs.val), Not32(SIGN_MASK))) == 0
    }

    /** operator== */
    predicate Equals(rhs: BFloat16) {
      if IsNaN() || rhs.IsNaN() then false else val == rhs.val
    }

    /** operator< */
    predicate LessThan(rhs: BFloat16) {
      if IsNaN() || rhs.IsNaN() then false
      else if IsNegative() != rhs.IsNegative() then IsNegative() && !AreZero(this, rhs)
      else val != rhs.val && ((val < rhs.val) != IsNegative())
    }
  }
}
