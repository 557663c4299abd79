/** Non-negative binary floating-point numbers with t fraction bits and no largest exponent.

    An encoding b carries its exponent field in b / 2^t and its fraction field in b % 2^t. The value
    of encoding 1, the smallest positive number, is 2^s. */
module Magnitudes {
  import opened Powers
  import HalfEven

  /** The value of an encoding. The patterns below 2^(t + 1) are the multiples of 2^s; every later binade
      repeats the one before it with the step doubled. MagnitudeIsIeee gives the closed form. */
  function Magnitude(t: nat, s: nat, b: nat): nat
    decreases b
  {
    if b < Pow2(t + 1) then Scaled(b, s) else Magnitude(t, s + 1, b - Pow2(t))
  }

  lemma {:induction false} SmallerThanPow2(n: nat)
    ensures n < Pow2(n)
  {
    if n == 0 {
    } else {
      SmallerThanPow2(n - 1);
    }
  }

  /** The encoding nearest to x, ties to the even one: round to a multiple of 2^s if t + 1 bits are enough
      for that, and otherwise go up one binade, where the step between neighbours is twice as large. */
  function Nearest(t: nat, s: nat, x: nat): nat
    decreases x - s
  {
    SmallerThanPow2(s + t + 1);
    if x < Pow2(s + t + 1) then HalfEven.Round(x, s) else Pow2(t) + Nearest(t, s + 1, x)
  }

  /** The first two binades are the multiples of 2^s. */
  lemma MagnitudeLow(t: nat, s: nat, b: nat)
    requires b <= Pow2(t + 1)
    ensures Magnitude(t, s, b) == b * Pow2(s)
  {
    ScaledIsProduct(b, s);
    if b == Pow2(t + 1) {
      ScaledIsProduct(Pow2(t), s + 1);
      assert Pow2(t) * (2 * Pow2(s)) == b * Pow2(s);
    }
  }

  /** Every later binade is the one below it, with the step doubled. */
  lemma MagnitudeHigh(t: nat, s: nat, b: nat)
    requires b >= Pow2(t + 1)
    ensures Magnitude(t, s, b) == Magnitude(t, s + 1, b - Pow2(t))
  {
  }

  lemma Neighbours(q: int, p: int)
    ensures (q - 1) * p == q * p - p && (q + 1) * p == q * p + p
  {
  }

  /** IEEE 754-2008 section 3.4: fraction * 2^s when the exponent field is zero, and
      (2^t + fraction) * 2^(s + exponent field - 1) otherwise. */
  lemma {:induction false} MagnitudeIsIeee(t: nat, s: nat, e: nat, fraction: nat)
    requires fraction < Pow2(t)
    ensures Magnitude(t, s, e * Pow2(t) + fraction)
         == if e == 0 then fraction * Pow2(s) else (Pow2(t) + fraction) * Pow2(s + (e - 1))
    decreases e
  {
    var p := Pow2(t);
    if e <= 1 {
      MagnitudeLow(t, s, e * p + fraction);
    } else {
      MulMonotone(2, e, p);
      Neighbours(e, p);
      MagnitudeHigh(t, s, e * p + fraction);
      MagnitudeIsIeee(t, s + 1, e - 1, fraction);
      assert s + 1 + (e - 1 - 1) == s + (e - 1);
    }
  }

  /** Larger encodings have larger values. */
  lemma {:induction false} NextIsLarger(t: nat, s: nat, b: nat)
    ensures Magnitude(t, s, b) < Magnitude(t, s, b + 1)
    decreases b
  {
    if b < Pow2(t + 1) {
      MagnitudeLow(t, s, b);
      MagnitudeLow(t, s, b + 1);
      assert (b + 1) * Pow2(s) == b * Pow2(s) + Pow2(s);
    } else {
      MagnitudeHigh(t, s, b);
      MagnitudeHigh(t, s, b + 1);
      NextIsLarger(t, s + 1, b - Pow2(t));
    }
  }

  lemma {:induction false} MagnitudeIncreases(t: nat, s: nat, b: nat, c: nat)
    ensures b < c ==> Magnitude(t, s, b) < Magnitude(t, s, c)
    ensures b <= c ==> Magnitude(t, s, b) <= Magnitude(t, s, c)
    decreases c
  {
    if b >= c {
    } else {
      hide Magnitude;
      MagnitudeIncreases(t, s, b, c - 1);
      NextIsLarger(t, s, c - 1);
    }
  }

  /** x lies between the midpoints of b with its two neighbours, and may touch them only if b is even. */
  ghost predicate Brackets(t: nat, s: nat, x: nat, b: nat) {
    && (b > 0 ==>
          && Magnitude(t, s, b - 1) + Magnitude(t, s, b) <= 2 * x
          && (Magnitude(t, s, b - 1) + Magnitude(t, s, b) == 2 * x ==> b % 2 == 0))
    && 2 * x <= Magnitude(t, s, b) + Magnitude(t, s, b + 1)
    && (2 * x == Magnitude(t, s, b) + Magnitude(t, s, b + 1) ==> b % 2 == 0)
  }

  lemma AtLeastNext(x: int, y: int, p: nat)
    requires x > y
    ensures x * p >= y * p + p
  {
    MulMonotone(y + 1, x, p);
    assert (y + 1) * p == y * p + p;
  }

  lemma LowRange(t: nat, s: nat, x: nat)
    requires x < Pow2(s + t + 1)
    ensures HalfEven.Round(x, s) <= Pow2(t + 1)
    ensures x >= Pow2(s + t) ==> HalfEven.Round(x, s) >= Pow2(t)
  {
    hide HalfEven.Round;
    var q := HalfEven.Round(x, s);
    HalfEven.RoundIsRounded(x, s);
    assert Pow2(s + t + 1) == Pow2(t + 1) * Pow2(s) by { Pow2Adds(t + 1, s); }
    assert Pow2(s + t) == Pow2(t) * Pow2(s) by { Pow2Adds(t, s); }
    if q > Pow2(t + 1) {
      AtLeastNext(q, Pow2(t + 1), Pow2(s));
      assert false;
    }
    if q < Pow2(t) && x >= Pow2(s + t) {
      AtLeastNext(Pow2(t), q, Pow2(s));
      assert false;
    }
  }

  /** Nearest stays in the binade of its argument, up to the carry into the next one. */
  lemma NearestRange(t: nat, s: nat, x: nat)
    ensures x < Pow2(s + t + 1) ==> Nearest(t, s, x) <= Pow2(t + 1)
    ensures x >= Pow2(s + t) ==> Nearest(t, s, x) >= Pow2(t)
    decreases x - s
  {
    SmallerThanPow2(s + t + 1);
    if x < Pow2(s + t + 1) {
      LowRange(t, s, x);
    }
  }

  lemma LowBrackets(t: nat, s: nat, x: nat)
    requires x < Pow2(s + t + 1)
    ensures Brackets(t, s, x, HalfEven.Round(x, s))
  {
    hide HalfEven.Round, Magnitude, Pow2;
    var q := HalfEven.Round(x, s);
    HalfEven.RoundIsRounded(x, s);
    LowRange(t, s, x);
    MagnitudeLow(t, s, q);
    Neighbours(q, Pow2(s));
    if q > 0 {
      MagnitudeLow(t, s, q - 1);
    }
    if q < Pow2(t + 1) {
      MagnitudeLow(t, s, q + 1);
    } else {
      Pow2Adds(t + 1, s);
      NextIsLarger(t, s, q);
    }
  }

  lemma BinadeStart(t: nat, s: nat)
    ensures Magnitude(t, s, Pow2(t + 1)) == Pow2(s + t + 1)
  {
    hide Magnitude, Pow2;
    MagnitudeLow(t, s, Pow2(t + 1));
    Pow2Adds(t + 1, s);
  }

  lemma Pow2Next(k: nat)
    ensures Pow2(k + 1) == 2 * Pow2(k)
  {
  }

  lemma BracketsStep(t: nat, s: nat, x: nat, b: nat)
    requires t >= 1 && b >= Pow2(t) && x >= Pow2(s + t + 1)
    requires Brackets(t, s + 1, x, b)
    ensures Brackets(t, s, x, Pow2(t) + b)
  {
    hide Magnitude, Pow2;
    var p := Pow2(t);
    Pow2Next(t);
    Pow2Next(t - 1);
    MagnitudeHigh(t, s, b + p);
    MagnitudeHigh(t, s, b + p + 1);
    if b > p {
      MagnitudeHigh(t, s, b + p - 1);
    } else {
      NextIsLarger(t, s, b + p - 1);
      BinadeStart(t, s);
    }
  }

  lemma {:induction false} NearestBrackets(t: nat, s: nat, x: nat)
    requires t >= 1
    ensures Brackets(t, s, x, Nearest(t, s, x))
    decreases x - s
  {
    SmallerThanPow2(s + t + 1);
    if x < Pow2(s + t + 1) {
      LowBrackets(t, s, x);
    } else {
      var b := Nearest(t, s + 1, x);
      NearestBrackets(t, s + 1, x);
      NearestRange(t, s + 1, x);
      BracketsStep(t, s, x, b);
    }
  }

  /** The midpoints leave room for one encoding only. */
  lemma BracketIsUnique(t: nat, s: nat, x: nat, b: nat, c: nat)
    requires Brackets(t, s, x, b) && Brackets(t, s, x, c)
    ensures b == c
  {
    hide Magnitude;
    var low, high := if b < c then b else c, if b < c then c else b;
    if low < high {
      NextIsLarger(t, s, low);
      MagnitudeIncreases(t, s, low, high - 1);
      MagnitudeIncreases(t, s, low + 1, high);
    }
  }

  lemma BracketIsNearest(t: nat, s: nat, x: nat, b: nat)
    requires t >= 1 && Brackets(t, s, x, b)
    ensures b == Nearest(t, s, x)
  {
    NearestBrackets(t, s, x);
    BracketIsUnique(t, s, x, b, Nearest(t, s, x));
  }

  /** Where rounding reaches an encoding: at the midpoint below it, which counts only if it is even. */
  lemma NearestAtLeast(t: nat, s: nat, x: nat, c: nat)
    requires t >= 1 && c > 0
    ensures Nearest(t, s, x) >= c <==>
            var midpoints := Magnitude(t, s, c - 1) + Magnitude(t, s, c);
            midpoints < 2 * x || (midpoints == 2 * x && c % 2 == 0)
  {
    hide Magnitude;
    var b := Nearest(t, s, x);
    NearestBrackets(t, s, x);
    if b >= c {
      MagnitudeIncreases(t, s, c, b);
      MagnitudeIncreases(t, s, c - 1, b - 1);
    } else {
      MagnitudeIncreases(t, s, b, c - 1);
      MagnitudeIncreases(t, s, b + 1, c);
    }
  }

  /** Rounding never swaps two numbers. */
  lemma NearestMonotone(t: nat, s: nat, x: nat, y: nat)
    requires t >= 1 && x <= y
    ensures Nearest(t, s, x) <= Nearest(t, s, y)
  {
    hide Magnitude;
    var c := Nearest(t, s, x);
    if c > 0 {
      NearestAtLeast(t, s, x, c);
      NearestAtLeast(t, s, y, c);
    }
  }

  /** The fast form. Encodings that keep k more fraction bits over the same exponents are narrowed by
      rounding the encoding itself, as an integer, to a multiple of 2^k; the carry out of the fraction
      field lands in the exponent field, where it belongs. */
  lemma {:induction false} NearestOfMagnitude(t: nat, k: nat, s: nat, b: nat)
    requires t >= 1
    ensures Nearest(t, s + k, Magnitude(t + k, s, b)) == HalfEven.Round(b, k)
    decreases b
  {
    hide Magnitude, HalfEven.Round;
    var x := Magnitude(t + k, s, b);
    var top := Pow2(t + k + 1);
    assert Pow2(s + k + t + 1) == top * Pow2(s) by { Pow2Adds(t + k + 1, s); }
    if b < top {
      MagnitudeLow(t + k, s, b);
      MulOrder(b, top, Pow2(s));
      HalfEven.RoundScales(b, s, k);
    } else {
      MagnitudeLow(t + k, s, top);
      MagnitudeIncreases(t + k, s, top, b);
      MagnitudeHigh(t + k, s, b);
      assert Nearest(t, s + k, x) == Pow2(t) + Nearest(t, s + 1 + k, x);
      NearestOfMagnitude(t, k, s + 1, b - Pow2(t + k));
      assert Pow2(t + k) == Pow2(t) * Pow2(k) by { Pow2Adds(t, k); }
      HalfEven.RoundShifts(b - Pow2(t + k), k, Pow2(t));
    }
  }

  /** Values that have an encoding are rounded to it. */
  lemma NearestOfExact(t: nat, s: nat, b: nat)
    requires t >= 1
    ensures Nearest(t, s, Magnitude(t, s, b)) == b
  {
    NearestOfMagnitude(t, 0, s, b);
    HalfEven.RoundExact(b, 0);
  }

  lemma SplitScale(a: nat, i: nat, j: nat)
    ensures a * Pow2(i + j) == a * Pow2(i) * Pow2(j)
  {
    hide Pow2;
    Pow2Adds(i, j);
  }

  lemma ScaledBelow(a: nat, n: nat, s: nat)
    requires a < Pow2(n)
    ensures a * Pow2(s) < Pow2(s + n)
  {
    hide Pow2;
    Pow2Adds(n, s);
    MulOrder(a, Pow2(n), Pow2(s));
  }

  /** Multiples of 2^j that need no more than t + 1 bits have an encoding. */
  lemma {:induction false} NearestIsExact(t: nat, s: nat, a: nat, j: nat)
    requires a < Pow2(t + 1) && s <= j
    ensures Magnitude(t, s, Nearest(t, s, a * Pow2(j))) == a * Pow2(j)
    decreases a * Pow2(j) - s
  {
    hide Magnitude, HalfEven.Round, Pow2;
    var x := a * Pow2(j);
    SmallerThanPow2(s + t + 1);
    if x < Pow2(s + t + 1) {
      var q := a * Pow2(j - s);
      assert x == q * Pow2(s) by { SplitScale(a, j - s, s); }
      HalfEven.RoundExact(q, s);
      LowRange(t, s, x);
      MagnitudeLow(t, s, q);
    } else {
      assert j > s by { if j == s { ScaledBelow(a, t + 1, s); } }
      NearestIsExact(t, s + 1, a, j);
      NearestRange(t, s + 1, x);
      assert Pow2(t + 1) == 2 * Pow2(t) by { Pow2Next(t); }
      MagnitudeHigh(t, s, Nearest(t, s, x));
    }
  }

  /** Moving the smallest exponent up by j drops j exponents from the encoding. */
  lemma {:induction false} ExponentShift(t: nat, s: nat, j: nat, b: nat)
    requires j > 0 ==> b >= Pow2(t)
    ensures Magnitude(t, s, j * Pow2(t) + b) == Magnitude(t, s + j, b)
    decreases j
  {
    if j == 0 {
    } else {
      hide Magnitude;
      var p := Pow2(t);
      assert j * p == (j - 1) * p + p;
      MulMonotone(0, j - 1, p);
      MagnitudeHigh(t, s, j * p + b);
      ExponentShift(t, s + 1, j - 1, b);
    }
  }

  /** Extra fraction bits that are all zero do not change the value. */
  lemma {:induction false} PaddedFraction(t: nat, k: nat, s: nat, b: nat)
    ensures Magnitude(t + k, s, b * Pow2(k)) == Magnitude(t, s + k, b)
    decreases b
  {
    hide Magnitude, Pow2;
    var p := Pow2(k);
    assert Pow2(t + k) == Pow2(t) * p && Pow2(t + k + 1) == Pow2(t + 1) * p by {
      Pow2Adds(t, k);
      Pow2Adds(t + 1, k);
    }
    MulOrder(b, Pow2(t + 1), p);
    if b <= Pow2(t + 1) {
      MagnitudeLow(t + k, s, b * p);
      MagnitudeLow(t, s + k, b);
      assert b * p * Pow2(s) == b * Pow2(s + k) by { SplitScale(b, k, s); }
    } else {
      Pow2Next(t);
      MagnitudeHigh(t + k, s, b * p);
      MagnitudeHigh(t, s + k, b);
      assert (b - Pow2(t)) * p == b * p - Pow2(t) * p;
      PaddedFraction(t, k, s + 1, b - Pow2(t));
    }
  }

  /** Large arguments: j binades up, both the argument's scale and the encoding move. */
  lemma {:induction false} NearestAbove(t: nat, s: nat, j: nat, x: nat)
    requires j > 0 ==> x >= Pow2(s + t + j)
    ensures Nearest(t, s, x) == j * Pow2(t) + Nearest(t, s + j, x)
    decreases j
  {
    hide HalfEven.Round;
    if j == 0 {
    } else {
      Pow2Monotone(s + t + 1, s + t + j);
      Neighbours(j, Pow2(t));
      NearestAbove(t, s + 1, j - 1, x);
    }
  }

  function Distance(x: nat, y: nat): nat {
    if x < y then y - x else x - y
  }

  lemma RelativeError(t: nat, s: nat, d: nat)
    requires 2 * d <= Pow2(s)
    ensures Pow2(t + 1) * d <= Pow2(s + t)
  {
    MulMonotone(2 * d, Pow2(s), Pow2(t));
    assert Pow2(t + 1) * d == 2 * d * Pow2(t);
    Pow2Adds(s, t);
  }

  /** Half a step in the lowest binades, and one part in 2^(t + 1) everywhere else. */
  lemma {:induction false} NearestError(t: nat, s: nat, x: nat)
    ensures var d := Distance(x, Magnitude(t, s, Nearest(t, s, x)));
            && (x < Pow2(s + t + 1) ==> 2 * d <= Pow2(s))
            && (x >= Pow2(s + t) ==> Pow2(t + 1) * d <= x)
    decreases x - s
  {
    hide Magnitude, HalfEven.Round;
    SmallerThanPow2(s + t + 1);
    var b := Nearest(t, s, x);
    if x < Pow2(s + t + 1) {
      HalfEven.RoundIsRounded(x, s);
      LowRange(t, s, x);
      MagnitudeLow(t, s, b);
      var d := Distance(x, b * Pow2(s));
      assert 2 * d <= Pow2(s);
      if x >= Pow2(s + t) {
        RelativeError(t, s, d);
      }
    } else {
      NearestError(t, s + 1, x);
      NearestRange(t, s + 1, x);
      MagnitudeHigh(t, s, b);
    }
  }

  /** The magic addition. Added to 2^(s + j + t), a smaller x is aligned so that its multiples of 2^(s + j)
      land in the lowest fraction bits, and rounding the sum rounds x to such a multiple. */
  lemma NearestOfMagicSum(t: nat, s: nat, j: nat, x: nat)
    requires t >= 1 && x < Pow2(s + j + t)
    ensures Nearest(t, s, x + Pow2(s + j + t)) == (j + 1) * Pow2(t) + HalfEven.Round(x, s + j)
  {
    hide Pow2, HalfEven.Round;
    var sum := x + Pow2(s + j + t);
    Pow2Next(s + j + t);
    Pow2Next(t - 1);
    NearestAbove(t, s, j, sum);
    assert Nearest(t, s + j, sum) == HalfEven.Round(sum, s + j);
    Pow2Adds(t, s + j);
    HalfEven.RoundShifts(x, s + j, Pow2(t));
    Neighbours(j, Pow2(t));
  }
}
