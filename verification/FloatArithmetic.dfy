/** Addition and subtraction of `float` on bit patterns: IEEE 754-2008 section 5.4.1 under roundTiesToEven. */
module FloatArithmetic {
  import opened Words
  import opened Powers
  import opened Magnitudes
  import opened Formats
  import opened Conversions
  import opened Comparisons

  /** std::numeric_limits<float>::quiet_NaN() */
  const QUIET_NAN: Word32 := 0x7FC0_0000

  function SignedUnits(v: Word32): int {
    if Sign(BINARY32, v) == 1 then -(Units(BINARY32, Pattern(BINARY32, v)) as int)
    else Units(BINARY32, Pattern(BINARY32, v))
  }

  lemma FloatParts(v: Word32)
    ensures IsEncoding(BINARY32, v) && Sign(BINARY32, v) == v / 0x8000_0000 && Pattern(BINARY32, v) == v % 0x8000_0000
    ensures Flip(BINARY32, v) == (v + 0x8000_0000) % 0x1_0000_0000
  {
  }

  lemma RoundedFits(sign: nat, x: nat)
    requires sign < 2
    ensures RoundMagnitude(BINARY32, x) <= 0x7F80_0000
    ensures Signed(BINARY32, sign, RoundMagnitude(BINARY32, x)) == sign * 0x8000_0000 + RoundMagnitude(BINARY32, x)
  {
  }

  /** An exact sum, rounded. A sum of zero is positive unless both operands are negative zeros. */
  function RoundSum(sum: int, negativeZero: bool): Word32 {
    var sign := if sum < 0 || (sum == 0 && negativeZero) then 1 else 0;
    RoundedFits(sign, if sum < 0 then -sum else sum);
    Signed(BINARY32, sign, RoundMagnitude(BINARY32, if sum < 0 then -sum else sum))
  }

  function AddFloat(x: Word32, y: Word32): Word32 {
    if IsNaN(BINARY32, x) || IsNaN(BINARY32, y) then QUIET_NAN
    else if IsInfinite(BINARY32, x) then
      if IsInfinite(BINARY32, y) && Sign(BINARY32, x) != Sign(BINARY32, y) then QUIET_NAN else x
    else if IsInfinite(BINARY32, y) then y
    else RoundSum(SignedUnits(x) + SignedUnits(y), Sign(BINARY32, x) == 1 && Sign(BINARY32, y) == 1)
  }

  function SubFloat(x: Word32, y: Word32): Word32 {
    AddFloat(x, Xor32(y, 0x8000_0000))
  }

  /** Addition is correctly rounded: the magnitude of the exact sum, rounded, under the sign of the sum;
      a sum of zero is negative only for two negative zeros. */
  lemma AddIsCorrectlyRounded(x: Word32, y: Word32)
    requires IsFinite(BINARY32, x) && IsFinite(BINARY32, y)
    ensures var sum := SignedUnits(x) + SignedUnits(y);
            && (Sign(BINARY32, AddFloat(x, y)) == 1 <==>
                sum < 0 || (sum == 0 && Sign(BINARY32, x) == 1 && Sign(BINARY32, y) == 1))
            && RoundsTiesToEven(BINARY32, if sum < 0 then -sum else sum, Pattern(BINARY32, AddFloat(x, y)))
  {
    hide Pow2, Units, RoundMagnitude;
    var sum := SignedUnits(x) + SignedUnits(y);
    var sign := if sum < 0 || (sum == 0 && Sign(BINARY32, x) == 1 && Sign(BINARY32, y) == 1) then 1 else 0;
    var magnitude := if sum < 0 then -sum else sum;
    RoundedFits(sign, magnitude);
    SignedParts(BINARY32, sign, RoundMagnitude(BINARY32, magnitude));
    RoundingIsTiesToEven(BINARY32, magnitude, RoundMagnitude(BINARY32, magnitude));
  }

  /** The units are the value of a finite float, and inverting its sign bit negates them. */
  lemma NegatedFloat(v: Word32)
    ensures Xor32(v, 0x8000_0000) == Flip(BINARY32, v)
    ensures Pattern(BINARY32, Xor32(v, 0x8000_0000)) == Pattern(BINARY32, v)
    ensures Sign(BINARY32, Xor32(v, 0x8000_0000)) == 1 - Sign(BINARY32, v)
    ensures SignedUnits(Xor32(v, 0x8000_0000)) == -SignedUnits(v)
    ensures IsFinite(BINARY32, v) ==> Value(BINARY32, v) == Finite(SignedUnits(v))
  {
    hide Bitwise, Xor32, Units;
    SignOf32(v);
    FloatParts(v);
  }

  /** Subtraction is correctly rounded, for all finite operands: a difference of zero is negative only when
      a positive zero is taken from a negative one. */
  lemma SubIsCorrectlyRounded(x: Word32, y: Word32)
    requires IsFinite(BINARY32, x) && IsFinite(BINARY32, y)
    ensures var difference := SignedUnits(x) - SignedUnits(y);
            && (Sign(BINARY32, SubFloat(x, y)) == 1 <==>
                difference < 0 || (difference == 0 && Sign(BINARY32, x) == 1 && Sign(BINARY32, y) == 0))
            && RoundsTiesToEven(BINARY32, if difference < 0 then -difference else difference,
                                Pattern(BINARY32, SubFloat(x, y)))
  {
    hide Xor32, AddFloat, SignedUnits, RoundsTiesToEven;
    NegatedFloat(y);
    AddIsCorrectlyRounded(x, Xor32(y, 0x8000_0000));
  }

  predicate IsInfinity(x: Extended) { x == PositiveInfinity || x == NegativeInfinity }

  /** Section 6 of the standard: a sum is NaN only for a NaN operand or for infinities of opposite sign, and
      any other infinite operand is the sum. */
  lemma AddOfNonFinite(x: Word32, y: Word32)
    ensures var v, w, sum := Value(BINARY32, x), Value(BINARY32, y), Value(BINARY32, AddFloat(x, y));
            && (sum == NaN <==> v == NaN || w == NaN || (IsInfinity(v) && IsInfinity(w) && v != w))
            && (sum != NaN && IsInfinity(v) ==> sum == v)
            && (sum != NaN && IsInfinity(w) ==> sum == w)
            && (sum == NaN ==> AddFloat(x, y) == 0x7FC0_0000)
  {
    hide Units, RoundMagnitude;
    if IsFinite(BINARY32, x) && IsFinite(BINARY32, y) {
      var sum := SignedUnits(x) + SignedUnits(y);
      RoundedFits(1, if sum < 0 then -sum else sum);
    }
  }

  /** A difference is NaN only for a NaN operand or for equal infinities; otherwise an infinite operand
      decides it, the second one negated. */
  lemma SubOfNonFinite(x: Word32, y: Word32)
    ensures var v, w, difference := Value(BINARY32, x), Value(BINARY32, y), Value(BINARY32, SubFloat(x, y));
            && (difference == NaN <==> v == NaN || w == NaN || (IsInfinity(v) && v == w))
            && (difference != NaN && IsInfinity(v) ==> difference == v)
            && (difference != NaN && IsInfinity(w) ==> difference == Negated(w))
            && (difference == NaN ==> SubFloat(x, y) == 0x7FC0_0000)
  {
    hide Xor32, AddFloat, Value;
    NegatedFloat(y);
    FloatParts(y);
    ValueOfFlip(BINARY32, y);
    AddOfNonFinite(x, Xor32(y, 0x8000_0000));
  }

  /** Adding two positive finite numbers. */
  lemma AddPositive(x: Word32, y: Word32)
    requires x < 0x7F80_0000 && y < 0x7F80_0000
    ensures AddFloat(x, y) == RoundMagnitude(BINARY32, Units(BINARY32, x) + Units(BINARY32, y))
  {
  }

  /** Subtracting the smaller of two positive finite numbers from the larger. */
  lemma SubPositive(x: Word32, y: Word32)
    requires x < 0x7F80_0000 && y < 0x7F80_0000
    requires Units(BINARY32, y) <= Units(BINARY32, x)
    ensures SubFloat(x, y) == RoundMagnitude(BINARY32, Units(BINARY32, x) - Units(BINARY32, y))
  {
    hide Magnitude, Nearest, Xor32;
    NegatedFloat(y);
    RoundedFits(0, Units(BINARY32, x) - Units(BINARY32, y));
  }
}
