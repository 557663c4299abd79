/** Division by a power of two, rounded to the nearest integer with ties going to the even one. */
module HalfEven {
  import opened Powers

  /** x / 2^k, rounded to nearest, ties to even. */
  function Round(x: nat, k: nat): nat {
    var p := Pow2(k);
    var q := Halved(x, k);
    var r := Dropped(x, k);
    if 2 * r < p || (2 * r == p && q % 2 == 0) then q else q + 1
  }

  /** q is no further than half a unit from x / 2^k, and only an even q may be exactly half a unit away. */
  ghost predicate IsRounded(x: nat, k: nat, q: nat) {
    var p: int := Pow2(k);
    var d: int := 2 * x - 2 * (q * p);
    && -p <= d <= p
    && (d == p || d == -p ==> q % 2 == 0)
  }

  lemma OneMore(q: int, p: int)
    ensures (q + 1) * p == q * p + p
  {
  }

  lemma RoundIsRounded(x: nat, k: nat)
    ensures IsRounded(x, k, Round(x, k))
  {
    hide Halved, Dropped, Scaled, Pow2;
    HalvedAndDropped(x, k);
    HalvedIsQuotient(x, k);
    OneMore(Halved(x, k), Pow2(k));
  }

  lemma TwoStepsApart(low: int, high: int, p: nat)
    requires low + 2 <= high
    ensures low * p + 2 * p <= high * p
  {
    MulMonotone(low + 2, high, p);
    assert (low + 2) * p == low * p + 2 * p;
  }

  lemma RoundedIsRound(x: nat, k: nat, q: nat)
    requires IsRounded(x, k, q)
    ensures q == Round(x, k)
  {
    hide Round;
    RoundIsRounded(x, k);
    var b, p := Round(x, k), Pow2(k);
    var low, high := if q < b then q else b, if q < b then b else q;
    if low < high {
      MulMonotone(low + 1, high, p);
      assert (low + 1) * p == low * p + p;
      if low + 1 != high {
        TwoStepsApart(low, high, p);
        assert false;
      }
    }
  }

  /** The integer trick of both narrowing conversions: add one less than half a unit, add the bit that
      will become the lowest one, and drop the low bits. */
  lemma AddBiasThenTruncate(x: nat, k: nat)
    requires k >= 1
    ensures (x + (Pow2(k - 1) - 1) + (x / Pow2(k)) % 2) / Pow2(k) == Round(x, k)
  {
    hide Halved, Dropped, Scaled;
    var h, p := Pow2(k - 1), Pow2(k);
    var q, r := Halved(x, k), Dropped(x, k);
    HalvedAndDropped(x, k);
    HalvedIsQuotient(x, k);
    var n := x + (h - 1) + q % 2;
    assert (q + 1) * p == q * p + p && (q + 2) * p == q * p + 2 * p;
    if r + (h - 1) + q % 2 < p {
      DivUnique(n, p, q);
    } else {
      DivUnique(n, p, q + 1);
    }
  }

  lemma ScaledGap(x: int, q: int, p: int, c: int, pc: int)
    requires c > 0 && pc == c * p
    ensures var d, scaled := 2 * x - 2 * (q * p), 2 * (x * c) - 2 * (q * pc);
            && (-p <= d <= p ==> -pc <= scaled <= pc)
            && (scaled == pc ==> d == p) && (scaled == -pc ==> d == -p)
  {
  }

  /** Scaling both operands changes nothing. */
  lemma RoundScales(x: nat, j: nat, k: nat)
    ensures Round(x * Pow2(j), j + k) == Round(x, k)
  {
    hide Round, Pow2;
    var q := Round(x, k);
    RoundIsRounded(x, k);
    Pow2Adds(j, k);
    ScaledGap(x, q, Pow2(k), Pow2(j), Pow2(j + k));
    RoundedIsRound(x * Pow2(j), j + k, q);
  }

  lemma ParityOfSum(q: nat, n: nat)
    requires n % 2 == 0
    ensures (q + n) % 2 == q % 2
  {
  }

  /** An even number of whole units passes through the rounding. */
  lemma RoundShifts(x: nat, k: nat, n: nat)
    requires n % 2 == 0
    ensures Round(x + n * Pow2(k), k) == Round(x, k) + n
  {
    hide Round;
    var p: int, q := Pow2(k), Round(x, k);
    RoundIsRounded(x, k);
    assert 2 * (x + n * p) - 2 * ((q + n) * p) == 2 * x - 2 * (q * p) by {
      assert (q + n) * p == q * p + n * p;
    }
    ParityOfSum(q, n);
    RoundedIsRound(x + n * p, k, q + n);
  }

  /** Whole multiples of the unit are not rounded at all. */
  lemma RoundExact(q: nat, k: nat)
    ensures Round(q * Pow2(k), k) == q
  {
    RoundedIsRound(q * Pow2(k), k, q);
  }
}
