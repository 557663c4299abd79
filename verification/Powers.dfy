/** Powers of two, and the handful of facts about products and quotients that the
    rounding proofs use. */
module Powers {

  function Pow2(k: nat): (p: nat)
    ensures p > 0
  {
    if k == 0 then 1 else 2 * Pow2(k - 1)
  }

  lemma MulMonotone(x: int, y: int, p: nat)
    requires x <= y
    ensures x * p <= y * p
  {
  }

  lemma MulOrder(x: int, y: int, p: int)
    requires p > 0
    ensures x < y <==> x * p < y * p
    ensures x == y <==> x * p == y * p
  {
  }

  lemma {:induction false} Pow2Adds(i: nat, j: nat)
    ensures Pow2(i + j) == Pow2(i) * Pow2(j)
  {
    if i == 0 {
    } else {
      Pow2Adds(i - 1, j);
      assert Pow2(i + j) == 2 * Pow2(i - 1 + j);
    }
  }

  lemma {:induction false} Pow2Monotone(i: nat, j: nat)
    requires i <= j
    ensures Pow2(i) <= Pow2(j)
    ensures i < j ==> 2 * Pow2(i) <= Pow2(j)
    decreases j
  {
    if i == j {
    } else {
      Pow2Monotone(i, j - 1);
    }
  }

  /** n * 2^k by doubling, n / 2^k by halving, and what the halving drops. Bit by bit, these stay linear;
      ScaledIsProduct and HalvedIsQuotient say what they are. */
  function Scaled(n: nat, k: nat): nat {
    if k == 0 then n else 2 * Scaled(n, k - 1)
  }

  function Halved(n: nat, k: nat): nat {
    if k == 0 then n else Halved(n / 2, k - 1)
  }

  function Dropped(n: nat, k: nat): nat {
    if k == 0 then 0 else 2 * Dropped(n / 2, k - 1) + n % 2
  }

  lemma {:induction false} ScaledIsProduct(n: nat, k: nat)
    ensures Scaled(n, k) == n * Pow2(k)
  {
    if k == 0 {
    } else {
      ScaledIsProduct(n, k - 1);
      assert n * (2 * Pow2(k - 1)) == 2 * (n * Pow2(k - 1));
    }
  }

  lemma {:induction false} HalvedAndDropped(n: nat, k: nat)
    ensures n == Scaled(Halved(n, k), k) + Dropped(n, k)
    ensures Dropped(n, k) < Pow2(k)
  {
    if k == 0 {
    } else {
      HalvedAndDropped(n / 2, k - 1);
    }
  }

  /** A quotient is determined by its bracket. */
  lemma DivUnique(n: int, p: int, q: int)
    requires p > 0 && q * p <= n < (q + 1) * p
    ensures n / p == q
    ensures n % p == n - q * p
  {
    var d := n / p;
    assert n == p * d + n % p;
    if d < q {
      MulMonotone(d + 1, q, p);
      assert false;
    } else if d > q {
      MulMonotone(q + 1, d, p);
      assert false;
    }
  }

  lemma HalvedIsQuotient(n: nat, k: nat)
    ensures Halved(n, k) == n / Pow2(k) && Dropped(n, k) == n % Pow2(k)
    ensures n == Halved(n, k) * Pow2(k) + Dropped(n, k)
  {
    hide *;
    var p, q := Pow2(k), Halved(n, k);
    HalvedAndDropped(n, k);
    ScaledIsProduct(q, k);
    assert (q + 1) * p == q * p + p;
    DivUnique(n, p, q);
  }

  /** The powers that appear as literals in the source. */
  lemma Pow2Values()
    ensures Pow2(0) == 1 && Pow2(1) == 2 && Pow2(4) == 16 && Pow2(5) == 32
    ensures Pow2(7) == 0x80 && Pow2(8) == 0x100 && Pow2(9) == 0x200 && Pow2(10) == 0x400 && Pow2(11) == 0x800
    ensures Pow2(12) == 0x1000 && Pow2(13) == 0x2000 && Pow2(15) == 0x8000 && Pow2(16) == 0x1_0000
    ensures Pow2(23) == 0x80_0000 && Pow2(24) == 0x100_0000 && Pow2(26) == 0x400_0000
    ensures Pow2(31) == 0x8000_0000 && Pow2(32) == 0x1_0000_0000
  {
  }
}
