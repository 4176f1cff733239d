/** gsm_enc_norm and gsm_enc_div. */
module Normalize {
  import opened Arithmetic
  import opened FixedPoint

  /** The table gsm_enc_bitoff: leading zeros of a byte. */
  function BitOff(b: nat): (r: nat)
    requires b < 256
    ensures r <= 8 && (b > 0 ==> r <= 7)
    ensures b > 0 ==> 128 <= b * Pow2(r) && (b + 1) * Pow2(r) <= 256
    ensures b < 128 ==> r >= 1
  {
    if b == 0 then 8 else if b == 1 then 7 else if b < 4 then 6 else if b < 8 then 5
    else if b < 16 then 4 else if b < 32 then 3 else if b < 64 then 2 else if b < 128 then 1 else 0
  }

  function NormNonNegative(a: nat): (r: nat)
    requires a <= 0x7FFF_FFFF
    ensures r <= 31
  {
    if a >= 0x1_0000 then
      if a >= 0x100_0000 then BitOff(a / 0x100_0000) - 1 else 7 + BitOff(a / 0x1_0000)
    else
      if a >= 0x100 then 15 + BitOff(a / 0x100) else 23 + BitOff(a)
  }

  /** gsm_enc_norm. */
  function Norm(a: Longword): (r: nat)
    ensures r <= 31
  {
    if a < 0 then
      if a <= -0x4000_0000 then 0 else NormNonNegative(-a - 1)
    else NormNonNegative(a)
  }

  lemma ScaleLower(a: nat, b: nat, p: nat, q: nat, m: nat)
    requires b * p <= a && m <= b * q
    ensures m * p <= a * q
  {
    MulMono(m, b * q, p);
    MulMono(b * p, a, q);
    assert b * q * p == b * p * q;
  }

  lemma ScaleUpper(a: nat, b: nat, p: nat, q: nat, m: nat)
    requires a < b * p && b * q <= m && q >= 1
    ensures a * q < m * p
  {
    MulMono(a + 1, b * p, q);
    MulMono(b * q, m, p);
    assert b * p * q == b * q * p;
    assert (a + 1) * q == a * q + q;
  }

  /** A byte's worth of leading bits decides the shift: `b` is the top byte of `a`, `k` bits up. */
  lemma TopByte(a: nat, b: nat, k: nat)
    requires 0 < b < 256 && b * Pow2(k) <= a < (b + 1) * Pow2(k)
    ensures 128 * Pow2(k) <= a * Pow2(BitOff(b)) < 256 * Pow2(k)
  {
    ScaleLower(a, b, Pow2(k), Pow2(BitOff(b)), 128);
    ScaleUpper(a, b + 1, Pow2(k), Pow2(BitOff(b)), 256);
  }

  lemma NormTop(a: Longword)
    requires a >= 0x100_0000
    ensures var r := BitOff(a / 0x100_0000);
            1 <= r <= 7 && 0x4000_0000 <= a * Pow2(r - 1) <= 0x7FFF_FFFF
  {
    LargePowers();
    hide Pow2;
    var b := a / 0x100_0000;
    TopByte(a, b, 24);
    Halve(a, BitOff(b));
  }

  /** Shifting a positive number left by its norm puts its leading bit just below the sign. */
  lemma NormPositive(a: Longword)
    requires a > 0
    ensures Norm(a) <= 30
    ensures 0x4000_0000 <= a * Pow2(Norm(a)) <= 0x7FFF_FFFF
  {
    SmallPowers();
    LargePowers();
    hide Pow2, BitOff;
    if a >= 0x100_0000 {
      NormTop(a);
    } else if a >= 0x1_0000 {
      NormByte(a, a / 0x1_0000, 16);
    } else if a >= 0x100 {
      NormByte(a, a / 0x100, 8);
    } else {
      NormByte(a, a, 0);
    }
  }

  lemma Halve(a: nat, n: nat)
    requires n >= 1
    ensures a * Pow2(n) == 2 * (a * Pow2(n - 1))
  {
    assert Pow2(n) == 2 * Pow2(n - 1);
    Doubled(a, Pow2(n - 1));
  }

  lemma NormByte(a: nat, b: nat, k: nat)
    requires k in {0, 8, 16} && 0 < b < 256 && b * Pow2(k) <= a < (b + 1) * Pow2(k)
    ensures 0x4000_0000 <= a * Pow2(BitOff(b) + 23 - k) < 0x8000_0000
  {
    SmallPowers();
    LargePowers();
    TopByte(a, b, k);
    Pow2Sum(BitOff(b), 23 - k);
    Pow2Sum(k, 23 - k);
    Rescale(a, Pow2(BitOff(b)), Pow2(k), Pow2(23 - k));
  }

  lemma Rescale(a: nat, p: nat, w: nat, q: nat)
    requires 128 * w <= a * p < 256 * w && w * q == 0x80_0000 && q >= 1
    ensures 0x4000_0000 <= a * (p * q) < 0x8000_0000
  {
    MulMono(128 * w, a * p, q);
    MulMono(a * p + 1, 256 * w, q);
    assert 128 * w * q == 128 * (w * q) && 256 * w * q == 256 * (w * q);
    assert (a * p + 1) * q == a * p * q + q;
    assert a * (p * q) == a * p * q;
  }

  /** The same for negative numbers, down to the smallest word. */
  lemma NormNegative(a: Longword)
    requires a < 0
    ensures -0x8000_0000 <= a * Pow2(Norm(a)) <= -0x4000_0000
  {
    SmallPowers();
    LargePowers();
    if a > -0x4000_0000 {
      var v := -a - 1;
      if v > 0 {
        NormPositive(v);
        var n := Norm(v);
        Pow2Sum(n, 31 - n);
        NextUp(a, Pow2(n), Pow2(31 - n));
      }
    }
  }

  /** There is no room between v * p and the next power of two, so (v + 1) * p still fits. */
  lemma NextUp(a: int, p: int, q: int)
    requires a < 0 && p >= 1 && q >= 1 && p * q == 0x8000_0000
    requires 0x4000_0000 <= (-a - 1) * p < 0x8000_0000
    ensures -0x8000_0000 <= a * p <= -0x4000_0000
  {
    var v: nat := -a - 1;
    if v >= q {
      MulMono(q, v, p);
      assert false;
    }
    MulMono(v + 1, q, p);
    assert q * p == p * q;
    assert (v + 1) * p == v * p + p;
    assert a * p == -((v + 1) * p);
  }

  /** The fractional quotient, at most 32767. */
  function Quotient(num: Word, denum: Word): (r: Word)
    requires 0 <= num <= denum
    ensures 0 <= r <= 32767 && r as int * denum <= num as int * 32768
    ensures num == 0 ==> r == 0
  {
    if num == 0 then 0
    else if num == denum then 32767
    else
      QuotientFits(num, denum);
      num as int * 32768 / denum
  }

  lemma QuotientFits(num: int, denum: int)
    requires 0 < num < denum
    ensures 0 <= num * 32768 / denum <= 32767 && num * 32768 / denum * denum <= num * 32768
  {
    var x := num * 32768;
    var q := x / denum;
    assert x == q * denum + x % denum;
    if q >= 32768 {
      MulMono(32768, q, denum);
    }
  }

  /** And no larger number of 32768ths would do. */
  lemma QuotientLargest(num: Word, denum: Word)
    requires 0 <= num < denum
    ensures num as int * 32768 < (Quotient(num, denum) as int + 1) * denum
  {
    if num > 0 {
      DivBounds(num as int * 32768, denum);
    }
  }

  /** gsm_enc_div: 15 steps of long division.  `denum >= num` makes the quotient fit, and num == denum gives
      32767. */
  method Div(num: Word, denum: Word) returns (div: Word)
    requires 0 <= num <= denum
    ensures div == Quotient(num, denum)
  {
    div := 0;
    if num == 0 {
      return;
    }
    var rest: Longword, k := num, 15;
    ghost var done := 1;
    assert done == Pow2(0);
    hide Pow2, Quotient;
    while k > 0
      invariant 0 <= k <= 15 && done == Pow2(15 - k)
      invariant Dividing(num, denum, done, div, rest)
    {
      PowerLeft(15 - k);
      DividingGoesOn(num, denum, done, div, rest);
      k := k - 1;
      div := div * 2;
      rest := rest * 2;
      if rest >= denum {
        rest := rest - denum;
        div := div + 1;
      }
      done := done * 2;
    }
    LargePowers();
    DividingEnds(num, denum, div, rest);
  }

  /** Long division after log2(done) bits. */
  ghost predicate Dividing(num: int, denum: int, done: int, div: int, rest: int) {
    && 0 < num <= denum && 0 <= div < done && 0 <= rest <= denum
    && div * denum + rest == num * done
    && (if num < denum then rest < denum else div == done - 1 && rest == denum)
  }

  lemma DividingGoesOn(num: int, denum: int, done: int, div: int, rest: int)
    requires Dividing(num, denum, done, div, rest)
    ensures if 2 * rest >= denum then Dividing(num, denum, 2 * done, 2 * div + 1, 2 * rest - denum)
            else Dividing(num, denum, 2 * done, 2 * div, 2 * rest)
  {
    Doubled(num, done);
    if 2 * rest >= denum {
      DivStep(div, rest, 2 * div + 1, 2 * rest - denum, denum);
    } else {
      DivStep(div, rest, 2 * div, 2 * rest, denum);
    }
  }

  lemma DividingEnds(num: Word, denum: Word, div: Word, rest: int)
    requires Dividing(num, denum, 32768, div, rest)
    ensures div == Quotient(num, denum)
  {
    if num < denum {
      DivIs(num * 32768, denum, div, rest);
    }
  }

  lemma PowerLeft(n: nat)
    requires n < 15
    ensures Pow2(n + 1) == 2 * Pow2(n) && Pow2(n + 1) <= 32768
  {
    LargePowers();
    Pow2Mono(n + 1, 15);
  }

  lemma Doubled(a: int, b: int)
    ensures a * (b * 2) == 2 * (a * b)
  {
  }

  lemma DivStep(div0: int, rest0: int, div: int, rest: int, d: int)
    requires (div == 2 * div0 && rest == 2 * rest0) || (div == 2 * div0 + 1 && rest == 2 * rest0 - d)
    ensures div * d + rest == 2 * (div0 * d + rest0)
  {
    if div == 2 * div0 + 1 {
      assert div * d == 2 * (div0 * d) + d;
    } else {
      assert div * d == 2 * (div0 * d);
    }
  }

}
