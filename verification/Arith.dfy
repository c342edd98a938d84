/** Machine words and the little non-linear arithmetic the other modules share. */
module Arith {
  const BIT32: nat := 0x1_0000_0000
  const BIT64: nat := 0x1_0000_0000_0000_0000

  function U32(x: int): nat { x % BIT32 }
  function U64(x: int): nat { x % 0x1_0000_0000_0000_0000 }

  lemma U32Exact(x: int)
    requires 0 <= x < BIT32
    ensures U32(x) == x
  {}

  lemma U64Exact(x: int)
    requires 0 <= x < BIT64
    ensures U64(x) == x
  {}

  lemma U32Fits(x: nat)
    ensures U32(x) == x <==> x < BIT32
  {}

  function Min(a: nat, b: nat): nat { if a < b then a else b }
  function Max(a: nat, b: nat): nat { if a < b then b else a }

  lemma DivExact(k: nat, m: nat, p: nat)
    requires m < p
    ensures (k * p + m) / p == k && (k * p + m) % p == m
  {
    var q, r := (k * p + m) / p, (k * p + m) % p;
    assert q * p + r == k * p + m;
    assert (q - k) * p == m - r;
    MultipleGrows(q - k, p);
  }

  lemma MultipleGrows(d: int, p: nat)
    ensures d >= 1 ==> d * p >= p
    ensures d <= -1 ==> d * p <= 0 - p
  {}

  lemma DivStep(x: nat, p: nat)
    requires 1 <= p
    ensures var k := x / p;
      && x < (k + 1) * p
      && (x + 1) / p == if x + 1 == (k + 1) * p then k + 1 else k
  {
    var k, m := x / p, x % p;
    assert x == k * p + m;
    if m + 1 == p {
      assert x + 1 == (k + 1) * p;
      DivExact(k + 1, 0, p);
    } else {
      DivExact(k, m + 1, p);
    }
  }
}
