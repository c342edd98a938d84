/** Bitwise and on natural numbers, and what masking with a run of ones means arithmetically. */
module Bits {
  import opened Arith

  function Pow2(n: nat): (p: nat)
    ensures p >= 1
  {
    if n == 0 then 1 else 2 * Pow2(n - 1)
  }

  function And(x: nat, m: nat): nat {
    if x == 0 || m == 0 then 0 else 2 * And(x / 2, m / 2) + (if x % 2 == 1 && m % 2 == 1 then 1 else 0)
  }

  /** ~m on 32 bits. */
  function Not32(m: nat): nat
    requires m < 0x1_0000_0000
  {
    0xffff_ffff - m
  }

  /** `x` rounded down to a multiple of `p`. */
  function Floor(x: nat, p: nat): nat
    requires 0 < p
  {
    x - x % p
  }

  lemma {:induction false} Pow2Monotone(k: nat, n: nat)
    requires k <= n
    ensures Pow2(k) <= Pow2(n) && Pow2(n) == Pow2(k) * Pow2(n - k)
  {
    if k < n {
      Pow2Monotone(k, n - 1);
      assert Pow2(n - k) == 2 * Pow2(n - 1 - k);
    }
  }

  lemma {:induction false} Pow2Ordered(k: nat, n: nat)
    requires k <= n
    ensures Pow2(k) <= Pow2(n)
  {
    if k < n {
      Pow2Ordered(k, n - 1);
    }
  }

  lemma {:induction false} Pow2Values()
    ensures Pow2(16) == 0x1_0000 && Pow2(32) == 0x1_0000_0000 && Pow2(4) == 16
  {
    assert Pow2(4) == 16;
    Pow2Monotone(4, 8);
    Pow2Monotone(8, 16);
    Pow2Monotone(16, 32);
  }

  lemma ModHalf(x: nat, m: nat)
    requires 0 < m
    ensures x % (2 * m) == 2 * ((x / 2) % m) + x % 2
  {
    var h, b := x / 2, x % 2;
    var q, r := h / m, h % m;
    assert x == 2 * h + b && h == q * m + r;
    assert x == q * (2 * m) + (2 * r + b) by { assert 2 * (q * m) == q * (2 * m); }
    DivExact(q, 2 * r + b, 2 * m);
  }

  lemma FloorHalf(y: nat, p: nat)
    requires 0 < p
    ensures Floor(y, 2 * p) == 2 * Floor(y / 2, p)
  {
    ModHalf(y, p);
  }

  lemma AndEven(x: nat, m: nat)
    ensures And(x, 2 * m) == 2 * And(x / 2, m)
  {
    assert 2 * m / 2 == m;
  }

  lemma AndOdd(x: nat, m: nat)
    ensures And(x, 2 * m + 1) == 2 * And(x / 2, m) + x % 2
  {
    assert (2 * m + 1) / 2 == m;
  }

  lemma AndRunFromZero(x: nat, p: nat, pp: nat)
    requires 0 < p && pp == 2 * p && Masks(x / 2, p, 1)
    ensures Masks(x, pp, 1)
  {
    AndOdd(x, p - 1);
    ModHalf(x, p);
  }

  lemma AndRunUp(x: nat, p: nat, q: nat)
    requires 0 < q <= p && And(x / 2, p - q) == Floor((x / 2) % p, q)
    ensures And(x, 2 * p - 2 * q) == Floor(x % (2 * p), 2 * q)
  {
    calc {
      And(x, 2 * p - 2 * q);
      { assert 2 * p - 2 * q == 2 * (p - q); AndEven(x, p - q); }
      2 * And(x / 2, p - q);
      2 * Floor((x / 2) % p, q);
      { HalfOfMod(x, p); }
      2 * Floor((x % (2 * p)) / 2, q);
      { FloorHalf(x % (2 * p), q); }
      Floor(x % (2 * p), 2 * q);
    }
  }

  /** Masking with ones from place `k` up to place `n` drops what lies outside. */
  lemma AndRun(x: nat, n: nat, k: nat)
    requires k <= n
    ensures Pow2(k) <= Pow2(n)
    ensures And(x, Pow2(n) - Pow2(k)) == Floor(x % Pow2(n), Pow2(k))
  {
    AndRunBetween(x, n, k, Pow2(n), Pow2(k));
  }

  /** ANDing with the ones between `q` and `p` rounds down to multiples of `q`, modulo `p`. */
  predicate Masks(x: nat, p: nat, q: nat)
    requires 0 < q <= p
  {
    And(x, p - q) == Floor(x % p, q)
  }

  lemma {:induction false} AndRunBetween(x: nat, n: nat, k: nat, pp: nat, qq: nat)
    requires k <= n && pp == Pow2(n) && qq == Pow2(k)
    ensures qq <= pp && Masks(x, pp, qq)
    decreases n
  {
    Pow2Ordered(k, n);
    if k == n {
      FloorOfMod(x, pp);
    } else {
      var p := Pow2(n - 1);
      assert pp == 2 * p;
      if k == 0 {
        AndRunBetween(x / 2, n - 1, 0, p, 1);
        AndRunFromZero(x, p, pp);
      } else {
        var q := Pow2(k - 1);
        assert qq == 2 * q;
        AndRunBetween(x / 2, n - 1, k - 1, p, q);
        AndRunDoubled(x, p, q, pp, qq);
      }
    }
  }

  lemma AndRunDoubled(x: nat, p: nat, q: nat, pp: nat, qq: nat)
    requires 0 < q <= p && pp == 2 * p && qq == 2 * q && Masks(x / 2, p, q)
    ensures Masks(x, pp, qq)
  {
    AndRunUp(x, p, q);
  }

  lemma HalfOfMod(x: nat, m: nat)
    requires 0 < m
    ensures (x % (2 * m)) / 2 == (x / 2) % m
  {
    ModHalf(x, m);
  }

  lemma FloorOfMod(x: nat, p: nat)
    requires 0 < p
    ensures Floor(x % p, p) == 0
  {
    DivExact(0, x % p, p);
  }

  lemma FloorShift(a: nat, x: nat, p: nat)
    requires 0 < p
    ensures Floor(a * p + x, p) == a * p + Floor(x, p)
  {
    assert a * p + x == (a + x / p) * p + x % p;
    DivExact(a + x / p, x % p, p);
  }

  /** A multiple of a multiple `m` of `p` passes through rounding. */
  lemma FloorPasses(q: nat, a: nat, m: nat, x: nat, p: nat)
    requires 0 < p && m == a * p
    ensures Floor(q * m + x, p) == q * m + Floor(x, p)
  {
    FloorShift(q * a, x, p);
    assert q * (a * p) == (q * a) * p;
  }

  lemma FloorBounds(x: nat, p: nat)
    requires 0 < p
    ensures Floor(x, p) <= x < Floor(x, p) + p && Floor(x, p) % p == 0
  {
    assert Floor(x, p) == (x / p) * p;
    DivExact(x / p, 0, p);
  }
}
