/**
 What the Schur recursion of section 4.2.5 of GSM 06.10 computes.  One stage is a hyperbolic rotation of the
 two arrays; over the stages they hold the correlations of a predictor with the autocorrelations; and the
 predictor made of the coefficients satisfies the normal equations, rounding of every stage included.
 */
module Lattice {
  import opened Arithmetic
  import opened FixedPoint
  import opened Normalize
  import opened Lpc

  // ---------------------------------------------------------------- one stage

  /** 32768 x + r y, rounded to a word, does not saturate. */
  predicate Unsaturated(x: int, y: int, r: int) {
    -0x4000_0000 <= 32768 * x + r * y + 16384 < 0x4000_0000
  }

  lemma ReflectedRounds(x: Word, y: Word, r: Word)
    requires -32767 <= r && Unsaturated(x, y, r)
    ensures -16384 <= 32768 * Reflected(x, y, r) - (32768 * x + r as int * y as int) <= 16384
  {
    var m: int := MultR(y, r);
    assert y as int * r as int == r as int * y as int;
    assert m * 32768 <= r as int * y as int + 16384 < (m + 1) * 32768;
    AddFits(x, m);
  }

  function Magnitude(x: int): nat { if x < 0 then -x else x }

  lemma ProductMagnitude(x: int, y: int, m: nat, n: nat)
    requires Magnitude(x) <= m && Magnitude(y) <= n
    ensures Magnitude(x * y) <= m * n
  {
    NatProduct(Magnitude(x), Magnitude(y), m, n);
    assert x * y == Magnitude(x) * Magnitude(y) || x * y == -(Magnitude(x) * Magnitude(y));
  }

  /** Two sums x + r y and y + r x, all over 32768, with what rounding adds to them. */
  ghost predicate Rotated(x: int, y: int, r: int, x': int, y': int, e: int, f: int) {
    && 32768 * x' == 32768 * x + r * y + e && 32768 * y' == 32768 * y + r * x + f
    && -16384 <= e <= 16384 && -16384 <= f <= 16384 && -32768 <= r <= 32768
  }

  /** Turning back with -r gives (1 - r^2) x again, to within one unit. */
  lemma TurnedBack(x: int, y: int, r: int, x': int, y': int, e: int, f: int)
    requires Rotated(x, y, r, x', y', e, f)
    ensures Magnitude(32768 * (32768 * x' - r * y') - (0x4000_0000 - r * r) * x) <= 0x4000_0000
  {
    calc {
      32768 * (32768 * x' - r * y');
      32768 * (32768 * x') - r * (32768 * y');
      32768 * (32768 * x + r * y + e) - r * (32768 * y + r * x + f);
      { Spread(r, 32768 * y, r * x, f); }
      0x4000_0000 * x + 32768 * (r * y) + 32768 * e - r * (32768 * y) - r * (r * x) - r * f;
      (0x4000_0000 - r * r) * x + 32768 * e - r * f;
    }
    ProductMagnitude(r, f, 32768, 16384);
  }

  lemma Spread(r: int, a: int, b: int, c: int)
    ensures r * (a + b + c) == r * a + r * b + r * c
  {
  }

  /** x^2 - y^2 shrinks by 1 - r^2, to within two units of |x| + |y| and a quarter. */
  lemma Hyperbolic(x: int, y: int, r: int, x': int, y': int, e: int, f: int)
    requires Rotated(x, y, r, x', y', e, f)
    ensures Magnitude(0x4000_0000 * (x' * x' - y' * y') - (0x4000_0000 - r * r) * (x * x - y * y))
         <= 0x8000_0000 * (Magnitude(x) + Magnitude(y)) + 0x1000_0000
  {
    var a, b := 32768 * x + r * y, 32768 * y + r * x;
    Conjugates(x, y, r);
    SquareOfSum(a, e, x');
    SquareOfSum(b, f, y');
    TurnedSize(x, y, r);
    TurnedSize(y, x, r);
    ProductMagnitude(a, e, 32768 * (Magnitude(x) + Magnitude(y)), 16384);
    ProductMagnitude(b, f, 32768 * (Magnitude(x) + Magnitude(y)), 16384);
    SquareSize(e);
    SquareSize(f);
  }

  lemma TurnedSize(x: int, y: int, r: int)
    requires -32768 <= r <= 32768
    ensures Magnitude(32768 * x + r * y) <= 32768 * (Magnitude(x) + Magnitude(y))
  {
    ProductMagnitude(r, y, 32768, Magnitude(y));
  }

  lemma SquareSize(e: int)
    requires -16384 <= e <= 16384
    ensures 0 <= e * e <= 0x1000_0000
  {
    ProductMagnitude(e, e, 16384, 16384);
  }

  lemma SquareOfSum(a: int, e: int, x: int)
    requires 32768 * x == a + e
    ensures 0x4000_0000 * (x * x) == a * a + 2 * (a * e) + e * e
  {
    assert 0x4000_0000 * (x * x) == (32768 * x) * (32768 * x);
    assert (a + e) * (a + e) == a * a + 2 * (a * e) + e * e;
  }

  lemma Conjugates(x: int, y: int, r: int)
    ensures var a, b := 32768 * x + r * y, 32768 * y + r * x;
            a * a - b * b == (0x4000_0000 - r * r) * (x * x - y * y)
  {
    var u, v := 32768 * x, r * y;
    var s, t := 32768 * y, r * x;
    assert (u + v) * (u + v) == u * u + 2 * (u * v) + v * v;
    assert (s + t) * (s + t) == s * s + 2 * (s * t) + t * t;
    assert u * v == 32768 * (r * (x * y)) && s * t == 32768 * (r * (x * y));
    assert u * u == 0x4000_0000 * (x * x) && s * s == 0x4000_0000 * (y * y);
    assert v * v == r * r * (y * y) && t * t == r * r * (x * x);
    assert (0x4000_0000 - r * r) * (x * x - y * y)
        == 0x4000_0000 * (x * x) - 0x4000_0000 * (y * y) - r * r * (x * x) + r * r * (y * y);
  }

  /** Where neither end of stage `m` saturates, P[m] and K[m] are P[m + 1] and K[m] turned by a hyperbolic
      rotation: P^2 - K^2 shrinks by 1 - r^2, and the opposite rotation undoes it. */
  lemma StageIsRotation(p: seq<Word>, k: seq<Word>, r: Word, n: nat, m: nat)
    requires |p| == |k| == 9 && 1 <= n <= 7 && 1 <= m <= 8 - n && -32767 <= r
    requires Unsaturated(p[m + 1], k[m], r) && Unsaturated(k[m], p[m + 1], r)
    ensures var x: int, y: int, x': int, y': int := p[m + 1], k[m], NextP(p, k, r, n)[m], NextK(p, k, r, n)[m];
            var left := 0x4000_0000 - r as int * r as int;
            && Magnitude(0x4000_0000 * (x' * x' - y' * y') - left * (x * x - y * y))
                 <= 0x8000_0000 * (Magnitude(x) + Magnitude(y)) + 0x1000_0000
            && Magnitude(32768 * (32768 * x' - r * y') - left * x) <= 0x4000_0000
            && Magnitude(32768 * (32768 * y' - r * x') - left * y) <= 0x4000_0000
  {
    hide Magnitude, Reflected, Unsaturated;
    var x: int, y: int, x': int, y': int := p[m + 1], k[m], NextP(p, k, r, n)[m], NextK(p, k, r, n)[m];
    ReflectedRounds(p[m + 1], k[m], r);
    ReflectedRounds(k[m], p[m + 1], r);
    var e, f := 32768 * x' - (32768 * x + r * y), 32768 * y' - (32768 * y + r * x);
    assert Rotated(x, y, r, x', y', e, f) && Rotated(y, x, r, y', x', f, e);
    hide Rotated;
    Hyperbolic(x, y, r, x', y', e, f);
    TurnedBack(x, y, r, x', y', e, f);
    TurnedBack(y, x, r, y', x', f, e);
  }
}
