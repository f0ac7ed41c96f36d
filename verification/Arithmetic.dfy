/** Powers of two and the shift that every walk up the tree performs. */
module Arithmetic {

  function Pow2(n: nat): (p: nat)
    ensures p > 0
  {
    if n == 0 then 1 else 2 * Pow2(n - 1)
  }

  /** `n >> levels`, one halving per level as the insertion loop does it. */
  function Shift(n: nat, levels: nat): nat
  {
    if levels == 0 then n else Shift(n, levels - 1) / 2
  }

  lemma {:induction false} ShiftIsDivision(n: nat, levels: nat)
    ensures Shift(n, levels) == n / Pow2(levels)
  {
    if levels > 0 {
      ShiftIsDivision(n, levels - 1);
      var p := Pow2(levels - 1);
      HalveQuotient(n, p, n / p, n % p);
    }
  }

  /** Dividing by 2p halves the quotient by p and moves its parity into the remainder. */
  lemma HalveQuotient(n: nat, p: nat, q: nat, low: nat)
    requires p > 0 && n == q * p + low && low < p
    ensures n / (2 * p) == q / 2
    ensures n % (2 * p) == if q % 2 == 0 then low else p + low
  {
    var half := q / 2;
    assert half * (2 * p) == 2 * half * p;
    if q % 2 == 0 {
      assert 2 * half == q;
      DivisionIsUnique(n, 2 * p, half, low);
    } else {
      assert 2 * half + 1 == q;
      assert q * p == 2 * half * p + p;
      DivisionIsUnique(n, 2 * p, half, p + low);
    }
  }

  lemma DivisionIsUnique(n: nat, d: nat, q: nat, r: nat)
    requires d > 0 && n == q * d + r && r < d
    ensures n / d == q && n % d == r
  {
    var q', r' := n / d, n % d;
    assert (q' - q) * d == r - r';
    MultipleInRange(q' - q, d, r - r');
  }

  lemma MultipleInRange(k: int, d: int, x: int)
    requires k * d == x && -d < x < d
    ensures k == 0
  {
    MultipleAtLeast(k, d);
  }

  lemma MultipleAtLeast(k: int, d: int)
    requires d > 0
    ensures k >= 1 ==> k * d >= d
    ensures k <= -1 ==> k * d <= -d
  {
    if k >= 1 {
      assert k * d == d + (k - 1) * d;
    } else if k <= -1 {
      assert k * d == -d + (k + 1) * d;
    }
  }

  lemma {:induction false} ShiftMonotone(m: nat, n: nat, levels: nat)
    requires m <= n
    ensures Shift(m, levels) <= Shift(n, levels)
    ensures Shift(n, levels) <= Shift(m, levels) + (n - m)
  {
    if levels > 0 {
      ShiftMonotone(m, n, levels - 1);
    }
  }

  /** An index below 2^levels shifts away to nothing. */
  lemma {:induction false} ShiftVanishes(n: nat, levels: nat)
    ensures Shift(n, levels) == 0 <==> n < Pow2(levels)
  {
    ShiftIsDivision(n, levels);
    var p := Pow2(levels);
    if n < p {
      DivisionIsUnique(n, p, 0, n);
    } else {
      assert n == (n / p) * p + n % p;
    }
  }

  lemma {:induction false} Pow2Bound(n: nat, m: nat)
    requires n <= m
    ensures Pow2(n) <= Pow2(m)
  {
    if n < m {
      Pow2Bound(n, m - 1);
    }
  }

  lemma {:induction false} Pow2Add(m: nat, n: nat)
    ensures Pow2(m + n) == Pow2(m) * Pow2(n)
  {
    if n > 0 {
      Pow2Add(m, n - 1);
      assert Pow2(m + n) == 2 * Pow2(m + (n - 1));
      assert 2 * (Pow2(m) * Pow2(n - 1)) == Pow2(m) * (2 * Pow2(n - 1));
    }
  }

  lemma Pow2Of64()
    ensures Pow2(64) == 0x1_0000_0000_0000_0000
  {
    assert Pow2(2) == 4;
    Pow2Add(2, 2);
    Pow2Add(4, 4);
    Pow2Add(8, 8);
    Pow2Add(16, 16);
    Pow2Add(32, 32);
  }

  lemma Pow2FitsWord(n: nat)
    requires n < 64
    ensures Pow2(n) < 0x1_0000_0000_0000_0000
  {
    Pow2Of64();
    Pow2Bound(n + 1, 64);
  }

  /** The bit at `levels` is what one more level adds to the remainder. */
  lemma RemainderGrows(n: nat, levels: nat)
    ensures n % Pow2(levels + 1)
         == n % Pow2(levels) + (if Shift(n, levels) % 2 == 0 then 0 else Pow2(levels))
  {
    ShiftIsDivision(n, levels);
    var p := Pow2(levels);
    HalveQuotient(n, p, n / p, n % p);
    assert Pow2(levels + 1) == 2 * p;
  }
}
