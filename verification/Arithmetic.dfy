/** Machine words, powers of two, and products and quotients, stated one at a time. */
module Arithmetic {

  type Byte = b: int | 0 <= b < 256

  /** A 64-bit word. */
  type U64 = x: nat | x < 0x1_0000_0000_0000_0000

  function Wrap64(x: int): U64 {
    x % 0x1_0000_0000_0000_0000
  }

  // ---------------------------------------------------------------- powers of two

  function Pow2(n: nat): (r: nat)
    ensures r >= 1
  {
    if n == 0 then 1 else 2 * Pow2(n - 1)
  }

  lemma {:induction false} Pow2Mono(a: nat, b: nat)
    requires a <= b
    ensures Pow2(a) <= Pow2(b)
  {
    if a < b { Pow2Mono(a, b - 1); }
  }

  lemma {:induction false} Pow2Sum(a: nat, b: nat)
    ensures Pow2(a) * Pow2(b) == Pow2(a + b)
  {
    if a > 0 {
      Pow2Sum(a - 1, b);
    }
  }

  lemma NextPower(n: nat)
    ensures Pow2(n + 1) == 2 * Pow2(n)
  {
  }

  lemma Sixteen(e: nat)
    ensures Pow2(e + 4) == 16 * Pow2(e)
  {
    assert Pow2(e + 2) == 4 * Pow2(e);
  }

  lemma SmallPowers()
    ensures Pow2(0) == 1 && Pow2(1) == 2 && Pow2(2) == 4 && Pow2(3) == 8 && Pow2(4) == 16 && Pow2(5) == 32
    ensures Pow2(6) == 64 && Pow2(7) == 128 && Pow2(8) == 256 && Pow2(9) == 512 && Pow2(10) == 1024
    ensures Pow2(11) == 2048
  {
  }

  lemma LargePowers()
    ensures Pow2(15) == 0x8000 && Pow2(16) == 0x1_0000 && Pow2(23) == 0x80_0000 && Pow2(24) == 0x100_0000
    ensures Pow2(31) == 0x8000_0000 && Pow2(32) == 0x1_0000_0000 && Pow2(64) == 0x1_0000_0000_0000_0000
  {
    hide Pow2;
    assert Pow2(7) == 0x80 && Pow2(11) == 0x800 by { SmallPowers(); }
    Sixteen(11);
    Sixteen(15);
    Sixteen(19);
    Sixteen(23);
    Sixteen(27);
    assert Pow2(8) == 0x100 by { SmallPowers(); }
    Sixteen(8);
    Sixteen(12);
    Sixteen(16);
    Sixteen(20);
    Sixteen(24);
    Sixteen(28);
    Pow2Sum(32, 32);
  }

  // ---------------------------------------------------------------- products and quotients

  lemma MulMono(a: int, b: int, p: int)
    requires a <= b && p >= 0
    ensures a * p <= b * p
  {
    assert (b - a) * p >= 0;
    assert (b - a) * p == b * p - a * p;
  }

  lemma NatProduct(x: nat, y: nat, m: nat, n: nat)
    requires x <= m && y <= n
    ensures 0 <= x * y <= m * n
  {
    assert x * y <= m * y <= m * n;
  }

  lemma DivBounds(x: int, w: nat)
    requires w > 0
    ensures x / w * w <= x < (x / w + 1) * w
  {
  }

  /** A quotient between two integers, from the products. */
  lemma DivBetween(x: int, w: int, lo: int, hi: int)
    requires w >= 1 && lo * w <= x < hi * w
    ensures lo <= x / w < hi
  {
    var q := x / w;
    assert q * w <= x < q * w + w == (q + 1) * w;
    if q < lo {
      MulMono(q + 1, lo, w);
      assert false;
    }
    if q >= hi {
      MulMono(hi, q, w);
      assert false;
    }
  }

  lemma DivShrinks(x: nat, w: nat)
    requires w >= 1
    ensures 0 <= x / w <= x
  {
    DivBetween(x, w, 0, x + 1);
  }

  lemma DivIs(x: nat, d: nat, q: nat, r: nat)
    requires r < d && x == q * d + r
    ensures x / d == q && x % d == r
  {
    var q', r' := x / d, x % d;
    assert x == q' * d + r';
    if q' < q { MulMono(q' + 1, q, d); }
    if q < q' { MulMono(q + 1, q', d); }
  }

  /** Multiples of a divisor pass through. */
  lemma AddMultiple(k: nat, m: nat, r: nat)
    requires m >= 1
    ensures (k * m + r) / m == k + r / m && (k * m + r) % m == r % m
  {
    var q, l := r / m, r % m;
    assert r == q * m + l;
    assert (k + q) * m == k * m + q * m;
    DivIs(k * m + r, m, k + q, l);
  }

  lemma SmallMod(x: nat, m: nat)
    requires x < m
    ensures x % m == x && x / m == 0
  {
    DivIs(x, m, 0, x);
  }

  /** The digits of a number in a mixed base: `y` below `m`, `z` below `n`. */
  lemma Fields(x: nat, m: nat, y: nat, n: nat, z: nat, mn: nat, v: nat)
    requires y < m && z < n && mn == m * n && v == x * mn + y * n + z
    ensures v / mn == x && v / n % m == y && v % n == z
  {
    MulMono(y + 1, m, n);
    Distribute(x, m, y, n);
    NatProduct(x, m, x, m);
    DivIs(v, mn, x, y * n + z);
    DivIs(v, n, x * m + y, z);
    DivIs(x * m + y, m, x, y);
  }

  lemma Distribute(x: int, m: int, y: int, n: int)
    ensures (x * m + y) * n == x * (m * n) + y * n && (y + 1) * n == y * n + n
  {
  }
}
