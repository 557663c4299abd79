/** Unsigned machine words as natural numbers, with the C++ operators on them. */
module Words {
  import opened Powers

  type Word16 = x: nat | x < 0x1_0000

  type Word32 = x: nat | x < 0x1_0000_0000

  datatype BitOperator = AND | OR | XOR

  function OnBits(op: BitOperator, i: nat, j: nat): (r: nat)
    requires i < 2 && j < 2
    ensures r < 2
  {
    match op
    case AND => if i + j == 2 then 1 else 0
    case OR => if i + j == 0 then 0 else 1
    case XOR => (i + j) % 2
  }

  /** The operator applied to every pair of bits of x and y. */
  function Bitwise(op: BitOperator, x: nat, y: nat): nat
    decreases x + y
  {
    if x == 0 && y == 0 then 0
    else 2 * Bitwise(op, x / 2, y / 2) + OnBits(op, x % 2, y % 2)
  }

  lemma BitwiseStep(op: BitOperator, x: nat, y: nat, i: nat, j: nat)
    requires i < 2 && j < 2
    ensures Bitwise(op, 2 * x + i, 2 * y + j) == 2 * Bitwise(op, x, y) + OnBits(op, i, j)
  {
    assert (2 * x + i) / 2 == x && (2 * y + j) / 2 == y;
  }

  lemma BitwiseOfNothing(op: BitOperator)
    ensures Bitwise(op, 0, 0) == 0
  {
  }

  /** A bitwise operator treats the low k bits and the bits above them separately. */
  lemma {:induction false} BitwiseSplits(op: BitOperator, k: nat, lowX: nat, highX: nat, lowY: nat, highY: nat)
    requires lowX < Pow2(k) && lowY < Pow2(k)
    ensures Bitwise(op, Scaled(highX, k) + lowX, Scaled(highY, k) + lowY)
         == Scaled(Bitwise(op, highX, highY), k) + Bitwise(op, lowX, lowY)
    ensures Bitwise(op, lowX, lowY) < Pow2(k)
    decreases k
  {
    hide Bitwise, OnBits;
    BitwiseOfNothing(op);
    if k == 0 {
    } else {
      var x, i, y, j := lowX / 2, lowX % 2, lowY / 2, lowY % 2;
      BitwiseSplits(op, k - 1, x, highX, y, highY);
      BitwiseStep(op, x, y, i, j);
      BitwiseStep(op, Scaled(highX, k - 1) + x, Scaled(highY, k - 1) + y, i, j);
      assert Scaled(highX, k) + lowX == 2 * (Scaled(highX, k - 1) + x) + i;
      assert Scaled(highY, k) + lowY == 2 * (Scaled(highY, k - 1) + y) + j;
    }
  }

  lemma {:induction false} BitwiseWithZero(op: BitOperator, x: nat)
    ensures Bitwise(op, x, 0) == Bitwise(op, 0, x) == if op == AND then 0 else x
  {
    hide Bitwise;
    if x > 0 {
      BitwiseWithZero(op, x / 2);
      BitwiseStep(op, x / 2, 0, x % 2, 0);
      BitwiseStep(op, 0, x / 2, 0, x % 2);
    } else {
      BitwiseOfNothing(op);
    }
  }

  /** A mask of k ones keeps everything below bit k. */
  lemma {:induction false} AndOnes(k: nat, x: nat)
    requires x < Pow2(k)
    ensures Bitwise(AND, x, Pow2(k) - 1) == x
    decreases k
  {
    hide Bitwise;
    if k > 0 {
      AndOnes(k - 1, x / 2);
      BitwiseStep(AND, x / 2, Pow2(k - 1) - 1, x % 2, 1);
    } else {
      BitwiseOfNothing(AND);
    }
  }

  /** Disjoint fields: x | y == x ^ y == x + y when x lies below bit k and y is a multiple of 2^k. */
  lemma DisjointBits(op: BitOperator, k: nat, x: nat, y: nat)
    requires op != AND && x < Pow2(k)
    ensures Bitwise(op, x, Scaled(y, k)) == x + Scaled(y, k)
  {
    hide Bitwise, Pow2;
    assert Scaled(0, k) == 0 by { ScaledIsProduct(0, k); }
    BitwiseSplits(op, k, x, 0, 0, y);
    BitwiseWithZero(op, x);
    BitwiseWithZero(op, y);
  }

  lemma BitwiseFits(op: BitOperator, x: Word32, y: Word32)
    ensures Bitwise(op, x, y) < 0x1_0000_0000
  {
    Pow2Values();
    BitwiseSplits(op, 32, x, 0, y, 0);
  }

  function And32(x: Word32, y: Word32): Word32 { BitwiseFits(AND, x, y); Bitwise(AND, x, y) }
  function Xor32(x: Word32, y: Word32): Word32 { BitwiseFits(XOR, x, y); Bitwise(XOR, x, y) }
  function Or32(x: Word32, y: Word32): Word32 { BitwiseFits(OR, x, y); Bitwise(OR, x, y) }

  /** Unsigned addition, subtraction and left shift drop everything above bit 31. */
  function Add32(x: Word32, y: Word32): Word32 { (x + y) % 0x1_0000_0000 }
  function Sub32(x: Word32, y: Word32): Word32 { (x - y) % 0x1_0000_0000 }
  function Shl32(x: Word32, k: nat): Word32 { Scaled(x, k) % 0x1_0000_0000 }

  lemma {:induction false} HalvedFits(x: nat, k: nat)
    ensures Halved(x, k) <= x
    decreases k
  {
    if k == 0 {
    } else {
      HalvedFits(x / 2, k - 1);
    }
  }

  function Shr32(x: Word32, k: nat): Word32 {
    HalvedFits(x, k);
    Halved(x, k)
  }

  /** Shifts are products and quotients. */
  lemma Shifts(x: Word32, k: nat)
    ensures Shl32(x, k) == x * Pow2(k) % 0x1_0000_0000 && Shr32(x, k) == x / Pow2(k)
  {
    ScaledIsProduct(x, k);
    HalvedIsQuotient(x, k);
  }

  lemma ShiftFits(x: Word32, k: nat, p: nat)
    requires p == Pow2(k) && x * p < 0x1_0000_0000
    ensures Shl32(x, k) == x * p
  {
    ScaledIsProduct(x, k);
  }

  /** static_cast<uint16_t> and static_cast<int16_t>. */
  function ToUint16(x: Word32): Word16 { x % 0x1_0000 }

  /** The one number of int16_t that agrees with x modulo 2^16. */
  function ToInt16(x: Word16): (r: int)
    ensures -0x8000 <= r < 0x8000 && (r - x) % 0x1_0000 == 0
  {
    if x < 0x8000 then x else x - 0x1_0000
  }

  /** ~x on a 32-bit operand. */
  function Not32(x: Word32): Word32 { 0xFFFF_FFFF - x }

  lemma OneBit(s: nat)
    requires s < 2
    ensures Bitwise(AND, s, 0) == Bitwise(AND, s, 0x1_FFFE) == 0
    ensures Bitwise(AND, s, 1) == s
    ensures Bitwise(XOR, s, 1) == 1 - s
    ensures Bitwise(XOR, s, s) == 0
  {
    BitwiseStep(XOR, 0, 0, s, s);
    BitwiseStep(AND, 0, 0xFFFF, s, 0);
    BitwiseWithZero(AND, 0xFFFF);
    BitwiseWithZero(AND, s);
    BitwiseStep(AND, 0, 0, s, 1);
    BitwiseStep(XOR, 0, 0, s, 1);
  }

  /** The masks that the source applies. */
  lemma SignOf32(u: Word32)
    ensures And32(u, 0x8000_0000) == u / 0x8000_0000 * 0x8000_0000
    ensures Xor32(u, And32(u, 0x8000_0000)) == u % 0x8000_0000
    ensures Xor32(u, 0x8000_0000) == (u + 0x8000_0000) % 0x1_0000_0000
  {
    hide Bitwise;
    Pow2Values();
    var s, a := u / 0x8000_0000, u % 0x8000_0000;
    ScaledIsProduct(s, 31);
    ScaledIsProduct(1, 31);
    ScaledIsProduct(0, 31);
    OneBit(s);
    BitwiseWithZero(AND, a);
    BitwiseWithZero(XOR, a);
    BitwiseSplits(AND, 31, a, s, 0, 1);
    BitwiseSplits(XOR, 31, a, s, 0, s);
    BitwiseSplits(XOR, 31, a, s, 0, 1);
    ScaledIsProduct(1 - s, 31);
  }

  lemma LowBit(x: Word32)
    ensures And32(x, 1) == x % 2
  {
    BitwiseStep(AND, x / 2, 0, x % 2, 1);
    BitwiseWithZero(AND, x / 2);
  }

  /** Masking a 16-bit pattern: the high mask acts on the sign bit, the low mask on the magnitude. */
  lemma Split16(op: BitOperator, x: Word16, high: nat, low: nat)
    requires low < 0x8000
    ensures Bitwise(op, x, high * 0x8000 + low)
         == Bitwise(op, x / 0x8000, high) * 0x8000 + Bitwise(op, x % 0x8000, low)
  {
    hide Bitwise;
    Pow2Values();
    ScaledIsProduct(x / 0x8000, 15);
    ScaledIsProduct(high, 15);
    ScaledIsProduct(Bitwise(op, x / 0x8000, high), 15);
    BitwiseSplits(op, 15, x % 0x8000, x / 0x8000, low, high);
  }

  /** Masking the sign bit of a 16-bit pattern off, out, and over. */
  lemma SignOf16(x: Word16)
    ensures And32(x, Not32(0x8000)) == And32(x, 0x7fff) == x % 0x8000
    ensures And32(x, 0x8000) == x / 0x8000 * 0x8000
    ensures Xor32(x, 0x8000) == (x + 0x8000) % 0x1_0000
  {
    hide Bitwise;
    Pow2Values();
    OneBit(x / 0x8000);
    AndOnes(15, x % 0x8000);
    BitwiseWithZero(AND, x % 0x8000);
    BitwiseWithZero(XOR, x % 0x8000);
    Split16(AND, x, 0x1_FFFE, 0x7fff);
    Split16(AND, x, 0, 0x7fff);
    Split16(AND, x, 1, 0);
    Split16(XOR, x, 1, 0);
  }

  lemma {:induction false} BitwiseCommutes(op: BitOperator, x: nat, y: nat)
    ensures Bitwise(op, x, y) == Bitwise(op, y, x)
    decreases x + y
  {
    if x + y == 0 {
    } else {
      BitwiseCommutes(op, x / 2, y / 2);
    }
  }

  /** Masking with a field of w ones above bit t, the exponent field of a magnitude. */
  lemma ExponentField(t: nat, w: nat, e: nat, f: nat)
    requires e < Pow2(w) && f < Pow2(t)
    ensures Bitwise(AND, e * Pow2(t) + f, (Pow2(w) - 1) * Pow2(t)) == e * Pow2(t)
    ensures Bitwise(AND, (Pow2(w) - 1) * Pow2(t), e * Pow2(t) + f) == e * Pow2(t)
  {
    hide Bitwise, Pow2;
    ScaledIsProduct(e, t);
    ScaledIsProduct(Pow2(w) - 1, t);
    AndOnes(w, e);
    BitwiseCommutes(AND, e, Pow2(w) - 1);
    BitwiseWithZero(AND, f);
    BitwiseSplits(AND, t, f, e, 0, Pow2(w) - 1);
    BitwiseSplits(AND, t, 0, Pow2(w) - 1, f, e);
  }

  lemma {:induction false} OrIsZero(x: nat, y: nat)
    ensures Bitwise(OR, x, y) == 0 <==> x == 0 && y == 0
    decreases x + y
  {
    if x + y == 0 {
    } else {
      OrIsZero(x / 2, y / 2);
    }
  }

  /** (x | y) with the sign bit stripped is zero exactly when both patterns are zero up to their sign. */
  lemma OrWithoutSign(x: Word16, y: Word16)
    ensures Or32(x, y) < 0x1_0000
    ensures And32(Or32(x, y), Not32(0x8000)) == 0 <==> x % 0x8000 == 0 && y % 0x8000 == 0
  {
    hide Bitwise;
    Pow2Values();
    ScaledIsProduct(0, 16);
    BitwiseSplits(OR, 16, x, 0, y, 0);
    BitwiseWithZero(OR, 0);
    Split16(OR, x, y / 0x8000, y % 0x8000);
    BitwiseSplits(OR, 15, x % 0x8000, 0, y % 0x8000, 0);
    SignOf16(Or32(x, y));
    OrIsZero(x % 0x8000, y % 0x8000);
  }
}
