/** Sections 4.2.15 and 4.2.16 of GSM 06.10: block-adaptive quantization of 13 samples, and its inverse. */
module Apcm {
  import opened Arithmetic
  import opened FixedPoint

  /** Table 4.5: inverse mantissa. */
  function Nrfac(mant: nat): Word
    requires mant < 8
  {
    [29128, 26215, 23832, 21846, 20165, 18725, 17476, 16384][mant]
  }

  /** Table 4.6: direct mantissa; always (mant + 9) * 2048 - 1. */
  function Fac(mant: nat): (r: Word)
    requires mant < 8
    ensures r + 1 == (mant + 9) * 2048
  {
    [18431, 20479, 22527, 24575, 26623, 28671, 30719, 32767][mant]
  }

  /** The exponent and mantissa a coded maximum stands for. */
  datatype Scale = Scale(exp: int, mant: int)

  ghost predicate InBounds(s: Scale) {
    -4 <= s.exp <= 6 && 0 <= s.mant <= 7
  }

  function ScaleOf(xmaxc: int): (s: Scale)
    requires 0 <= xmaxc <= 63
    ensures InBounds(s)
    ensures xmaxc <= 15 ==> s.exp <= 0 && s.mant + 9 == (xmaxc + 1) * Pow2(-s.exp)
    ensures xmaxc > 15 ==> s.exp > 0 && 8 * (s.exp + 1) + s.mant == xmaxc
  {
    if xmaxc > 15 then Scale(xmaxc / 8 - 1, xmaxc % 8)
    else if xmaxc >= 8 then Scale(0, xmaxc - 8)
    else if xmaxc >= 4 then Scale(-1, 2 * xmaxc - 7)
    else if xmaxc >= 2 then Scale(-2, 4 * xmaxc - 5)
    else if xmaxc == 1 then Scale(-3, 7)
    else Scale(-4, 7)
  }

  /** gsm_enc_APCM_quantization_xmaxc_to_exp_mant. */
  method ExpMant(xmaxc: Word) returns (exp: Word, mant: Word)
    requires 0 <= xmaxc <= 63
    ensures Scale(exp, mant) == ScaleOf(xmaxc)
  {
    exp := 0;
    if xmaxc > 15 {
      exp := xmaxc / 8 - 1;
    }
    mant := xmaxc - exp * 8;
    if mant == 0 {
      exp, mant := -4, 7;
    } else {
      while mant <= 7
        invariant xmaxc > 7 ==> 8 <= mant <= 15 && exp == (if xmaxc > 15 then xmaxc / 8 - 1 else 0)
        invariant xmaxc > 7 ==> mant == (if xmaxc > 15 then xmaxc % 8 + 8 else xmaxc)
        invariant xmaxc <= 7 ==> -3 <= exp <= 0 && 1 <= mant <= 15 && mant + 1 == (xmaxc + 1) * Pow2(-exp)
        decreases 8 - mant
      {
        mant, exp := mant * 2 + 1, exp - 1;
      }
      mant := mant - 8;
    }
  }

  /** Below its ceiling: scaled up by the exponent, `x` stays under the mantissa's step. */
  ghost predicate Fits(s: Scale, x: int)
    requires InBounds(s)
  {
    x * Pow2(6 - s.exp) < (s.mant + 9) * 2048
  }

  /** The exponent of xmax: its bit length beyond nine bits. */
  function ExpOf(xmax: Word): (e: nat)
    requires 0 <= xmax
    ensures e <= 6 && (e > 0 ==> xmax / 512 >= Pow2(e - 1)) && xmax / 512 < Pow2(e)
  {
    SmallPowers();
    if xmax < 512 then 0 else if xmax < 1024 then 1 else if xmax < 2048 then 2 else if xmax < 4096 then 3
    else if xmax < 8192 then 4 else if xmax < 16384 then 5 else 6
  }

  lemma OneExp(xmax: Word, e: nat)
    requires 0 <= xmax && e <= 6 && (e > 0 ==> xmax / 512 >= Pow2(e - 1)) && xmax / 512 < Pow2(e)
    ensures e == ExpOf(xmax)
  {
    var x := ExpOf(xmax);
    if e < x {
      Pow2Mono(e, x - 1);
    } else if x < e {
      Pow2Mono(x, e - 1);
    }
  }

  /** The code of xmax: the lowest level that xmax stays under. */
  function LevelOf(xmax: Word): (c: Word)
    requires 0 <= xmax
    ensures 0 <= c <= 63 && Fits(ScaleOf(c), xmax)
    ensures c > 0 ==> !Fits(ScaleOf(c - 1), xmax)
  {
    LevelFits(xmax, ExpOf(xmax));
    xmax / Pow2(ExpOf(xmax) + 5) + ExpOf(xmax) * 8
  }

  /** Quantizing and coding of xmax. */
  method CodeMax(xmax: Word) returns (xmaxc: Word)
    requires 0 <= xmax
    ensures xmaxc == LevelOf(xmax)
  {
    var exp: Word, temp: Word, itest := 0, xmax / 512, 0;
    for i := 0 to 6
      invariant 0 <= exp <= i && itest in {0, 1}
      invariant itest == 0 ==> exp == i
      invariant 0 <= temp <= 63 && Halves(xmax / 512, i, temp)
      invariant exp > 0 ==> xmax / 512 >= Pow2(exp - 1)
      invariant itest == 1 ==> xmax / 512 < Pow2(exp)
    {
      HalvesPositive(xmax / 512, i, temp);
      itest := if itest == 1 || temp <= 0 then 1 else 0;
      temp := temp / 2;
      if itest == 0 {
        exp := exp + 1;
      }
    }
    SmallPowers();
    assert xmax / 512 < Pow2(exp);
    OneExp(xmax, exp);
    temp := exp + 5;
    LevelFits(xmax, exp);
    xmaxc := Clamp(xmax / Pow2(temp) + exp * 8);
  }

  /** `t` is `v` halved `i` times. */
  ghost predicate Halves(v: int, i: nat, t: int) {
    t == if i == 0 then v else if i == 1 then v / 2 else if i == 2 then v / 4 else if i == 3 then v / 8
         else if i == 4 then v / 16 else if i == 5 then v / 32 else v / 64
  }

  lemma HalvesPositive(v: int, i: nat, t: int)
    requires 0 <= v <= 63 && i <= 5 && Halves(v, i, t)
    ensures t > 0 <==> v >= Pow2(i)
    ensures Halves(v, i + 1, t / 2)
  {
    assert Pow2(0) == 1 && Pow2(1) == 2 && Pow2(2) == 4 && Pow2(3) == 8 && Pow2(4) == 16 && Pow2(5) == 32;
  }

  /** Fits, without the powers: the ceiling of each level. */
  lemma Ceiling(xmaxc: int, x: int)
    requires 0 <= xmaxc <= 63
    ensures xmaxc <= 15 ==> (Fits(ScaleOf(xmaxc), x) <==> x < 32 * (xmaxc + 1))
    ensures xmaxc > 15 ==> (Fits(ScaleOf(xmaxc), x) <==> x < (xmaxc % 8 + 9) * Pow2(xmaxc / 8 + 4))
  {
    SmallPowers();
    var s := ScaleOf(xmaxc);
    if xmaxc <= 15 {
      if s.exp == 0 {} else if s.exp == -1 {} else if s.exp == -2 {} else if s.exp == -3 {} else {}
    } else {
      if s.exp == 1 {} else if s.exp == 2 {} else if s.exp == 3 {} else if s.exp == 4 {}
      else if s.exp == 5 {} else {}
    }
  }

  /** One octave of levels, each `w` wide. */
  lemma OctaveFits(xmax: Word, exp: int, w: nat)
    requires 1 <= exp <= 6 && w == Pow2(exp + 5) && 8 * w <= xmax < 16 * w
    ensures var c := xmax / w + exp * 8;
            && 0 < c <= 63 && Fits(ScaleOf(c), xmax) && !Fits(ScaleOf(c - 1), xmax)
  {
    hide Pow2, Fits, ScaleOf;
    var q := xmax / w;
    DivBounds(xmax, w);
    DivBetween(xmax, w, 8, 16);
    var c := q + exp * 8;
    Ceiling(c, xmax);
    Ceiling(c - 1, xmax);
    DivIs(c, 8, exp + 1, q - 8);
    if q == 8 {
      DivIs(c - 1, 8, exp, 7);
      NextPower(exp + 4);
      if exp == 1 { SmallPowers(); }
    } else {
      DivIs(c - 1, 8, exp + 1, q - 9);
    }
  }

  lemma LevelFits(xmax: Word, exp: int)
    requires 0 <= xmax && 0 <= exp <= 6
    requires exp > 0 ==> xmax / 512 >= Pow2(exp - 1)
    requires xmax / 512 < Pow2(exp)
    ensures var c := xmax / Pow2(exp + 5) + exp * 8;
            && 0 <= c <= 63 && Fits(ScaleOf(c), xmax)
            && (c > 0 ==> !Fits(ScaleOf(c - 1), xmax))
  {
    SmallPowers();
    if exp == 0 {
      var c := xmax / 32;
      assert 0 <= c <= 15;
      Ceiling(c, xmax);
      if c > 0 { Ceiling(c - 1, xmax); }
    } else {
      var w := Pow2(exp + 5);
      assert w == 32 * Pow2(exp) == 64 * Pow2(exp - 1);
      OctaveFits(xmax, exp, w);
    }
  }

  // ---------------------------------------------------------------- coding the samples

  /** gsm_enc_asr: an arithmetic shift right by any count. */
  function Asr(a: Word, n: int): Word {
    if n >= 16 then (if a < 0 then -1 else 0)
    else if n <= -16 then 0
    else if n < 0 then Wrap(a * Pow2(-n))
    else (DivBounds(a, Pow2(n)); ShrunkWord(a, Pow2(n)); a / Pow2(n))
  }

  /** gsm_enc_asl: a shift left by any count. */
  function Asl(a: Word, n: int): Word {
    if n >= 16 then 0
    else if n <= -16 then (if a < 0 then -1 else 0)
    else if n < 0 then Asr(a, -n)
    else Wrap(a * Pow2(n))
  }

  lemma ShrunkWord(a: Word, w: nat)
    requires w > 0
    ensures -32768 <= a / w <= 32767
  {
    if a >= 0 { DivShrinks(a, w); } else { ShrunkDown(a, w); }
  }

  lemma ShrunkDown(a: int, w: nat)
    requires w > 0 && a < 0
    ensures a <= a / w < 0
  {
    var q := a / w;
    DivBounds(a, w);
    if q < 0 {
      var m := -(q + 1);
      MulMono(1, w, m);
      assert (q + 1) * w == -(w * m);
    } else {
      MulMono(0, q, w);
    }
  }

  /** The 3-bit code of a sample already scaled up by the exponent. */
  function CodeScaled(mant: nat, xs: int): int
    requires mant < 8
  {
    xs * Nrfac(mant) / 32768 / 4096 + 4
  }

  /** The value a code stands for, still scaled up. */
  function Midpoint(mant: nat, c: int): int
    requires mant < 8
  {
    (Fac(mant) * ((2 * c - 7) * 4096) + 16384) / 32768
  }

  /** The code of sample `x`. */
  function Code(s: Scale, x: Word): int
    requires InBounds(s)
  {
    CodeScaled(s.mant, x * Pow2(6 - s.exp))
  }

  /** A scaled sample is inside the eight steps of the mantissa. */
  ghost predicate InSteps(mant: nat, xs: int) {
    -(mant + 9) * 2048 <= xs < (mant + 9) * 2048 && (mant < 7 ==> -(mant + 9) * 2048 < xs)
  }

  /** How far the rounded table entry is from the exact inverse mantissa. */
  lemma InverseMantissa(mant: nat, xs: int)
    requires mant < 8 && InSteps(mant, xs)
    ensures var r := Nrfac(mant) as int * (mant + 9) - 0x4_0000;
            -0x4_0000 < xs * r < 0x4_0000 && (mant == 7 ==> r == 0)
  {
  }

  /** The product with the inverse mantissa lands in one of eight steps. */
  lemma StepMember(mant: nat, xs: int)
    requires mant < 8 && InSteps(mant, xs)
    ensures var c := CodeScaled(mant, xs);
            0 <= c <= 7 && (c - 4) * ((mant + 9) * 512) <= xs <= (c - 3) * ((mant + 9) * 512)
  {
    InverseMantissa(mant, xs);
    var n, g := Nrfac(mant) as int, mant + 9;
    var q := CodeScaled(mant, xs) - 4;
    assert q * 0x800_0000 <= xs * n < (q + 1) * 0x800_0000;
    InStep(xs, n, g, q);
    assert mant == 7 ==> xs * (n * g - 0x4_0000) == 0;
    InEight(q, g * 512, xs);
  }

  /** Undoing the product: with n about 2^18 / g, q is the step of width 512 g that xs is in. */
  lemma InStep(xs: int, n: int, g: int, q: int)
    requires g >= 1 && q * 0x800_0000 <= xs * n < (q + 1) * 0x800_0000
    requires -0x4_0000 < xs * (n * g - 0x4_0000) < 0x4_0000
    ensures q * (g * 512) <= xs <= (q + 1) * (g * 512)
    ensures xs * (n * g - 0x4_0000) == 0 ==> xs < (q + 1) * (g * 512)
  {
    var e := xs * (n * g - 0x4_0000);
    MulMono(q * 0x800_0000, xs * n, g);
    MulMono(xs * n + 1, (q + 1) * 0x800_0000, g);
    assert xs * n * g == xs * 0x4_0000 + e;
    assert (xs * n + 1) * g == xs * n * g + g;
    assert q * 0x800_0000 * g == q * (g * 512) * 0x4_0000;
    assert (q + 1) * 0x800_0000 * g == (q + 1) * (g * 512) * 0x4_0000;
  }

  lemma InEight(q: int, w: int, xs: int)
    requires w >= 1 && q * w <= xs <= (q + 1) * w && -4 * w <= xs < 4 * w
    requires xs == -4 * w ==> xs < (q + 1) * w
    ensures -4 <= q <= 3
  {
    if q >= 4 {
      MulMono(4, q, w);
    }
    if q + 1 <= -4 {
      MulMono(q + 1, -4, w);
    }
  }

  /** A decoded code is the middle of its step, to within one. */
  lemma MidpointNear(mant: nat, c: int)
    requires mant < 8 && 0 <= c <= 7
    ensures -1 <= Midpoint(mant, c) - (2 * c - 7) * ((mant + 9) * 256) <= 1
  {
    var k, u := 2 * c - 7, (mant + 9) * 256;
    assert Fac(mant) as int == 8 * u - 1;
    assert (8 * u - 1) * (k * 4096) + 16384 == k * u * 32768 + (16384 - 4096 * k);
  }

  /** So a step's midpoint is within half a step, plus one, of every sample coded to it. */
  lemma StepError(mant: nat, xs: int)
    requires mant < 8 && InSteps(mant, xs)
    ensures 0 <= CodeScaled(mant, xs) <= 7
    ensures -(mant + 9) * 256 - 1 <= Midpoint(mant, CodeScaled(mant, xs)) - xs <= (mant + 9) * 256 + 1
  {
    StepMember(mant, xs);
    var c := CodeScaled(mant, xs);
    MidpointNear(mant, c);
    HalfStep(c, (mant + 9) * 256, Midpoint(mant, c), xs);
  }

  lemma HalfStep(c: int, u: int, y: int, xs: int)
    requires (c - 4) * (2 * u) <= xs <= (c - 3) * (2 * u) && -1 <= y - (2 * c - 7) * u <= 1
    ensures -u - 1 <= y - xs <= u + 1
  {
    assert (c - 4) * (2 * u) == 2 * (c * u) - 8 * u;
    assert (c - 3) * (2 * u) == 2 * (c * u) - 6 * u;
    assert (2 * c - 7) * u == 2 * (c * u) - 7 * u;
  }

  /** A sample no larger than the block's maximum never leaves the 16-bit range when scaled up, not even
      -32768. */
  lemma ScaledInSteps(s: Scale, xmax: Word, x: Word)
    requires InBounds(s) && Abs(x) <= xmax && Fits(s, xmax)
    ensures InSteps(s.mant, x * Pow2(6 - s.exp))
    ensures -32768 <= x * Pow2(6 - s.exp) <= 32767
  {
    AbsCases(x);
    FitsBelow(s, xmax);
    hide Pow2, Abs, Fits;
    ScaledBound(x, xmax, Pow2(6 - s.exp), s.mant);
  }

  lemma FitsBelow(s: Scale, xmax: Word)
    requires InBounds(s) && Fits(s, xmax)
    ensures xmax * Pow2(6 - s.exp) < (s.mant + 9) * 2048
  {
  }

  lemma AbsCases(x: Word)
    ensures Abs(x) == if x == -32768 then 32767 else if x < 0 then -x else x
  {
  }

  lemma ScaledBound(x: int, xmax: int, p: nat, mant: nat)
    requires p >= 1 && mant < 8 && xmax <= 32767 && xmax * p < (mant + 9) * 2048
    requires if x == -32768 then xmax == 32767 else -xmax <= x <= xmax
    ensures -32768 <= x * p <= 32767 && InSteps(mant, x * p)
  {
    if x != -32768 {
      var m := if x < 0 then -x else x;
      MulMono(m, xmax, p);
      NegatedProduct(m, p);
    }
  }

  lemma NegatedProduct(m: int, p: int)
    ensures -m * p == -(m * p)
  {
  }

  // ---------------------------------------------------------------- the two procedures

  /** gsm_enc_APCM_quantization: codes a block of 13 samples.  No shift or product leaves its word. */
  method Quantize(xM: array<Word>, xMc: array<Word>) returns (mant: Word, exp: Word, xmaxc: Word)
    requires xM.Length == xMc.Length == 13 && xM != xMc
    modifies xMc
    ensures xmaxc == LevelOf(MaxAbs(xM[..])) && Scale(exp, mant) == ScaleOf(xmaxc)
    ensures forall i :: 0 <= i < 13 ==> 0 <= xMc[i] <= 7 && xMc[i] == Code(ScaleOf(xmaxc), xM[i])
  {
    hide Code, ScaleOf, LevelOf, MaxAbs, Fits, Abs;
    var xmax := FindMax(xM[..]);
    xmaxc := CodeMax(xmax);
    exp, mant := ExpMant(xmaxc);
    ghost var block := xM[..];
    for i := 0 to 13
      invariant forall k :: 0 <= k < i ==> 0 <= xMc[k] <= 7 && xMc[k] == Code(ScaleOf(xmaxc), block[k])
    {
      xMc[i] := CodeSample(exp, mant, xM[i], xmax);
    }
  }

  /** One sample of the block. */
  method CodeSample(exp: Word, mant: Word, x: Word, ghost xmax: Word) returns (c: Word)
    requires InBounds(Scale(exp, mant)) && Abs(x) <= xmax && Fits(Scale(exp, mant), xmax)
    ensures 0 <= c <= 7 && c == Code(Scale(exp, mant), x)
  {
    ScaledInSteps(Scale(exp, mant), xmax, x);
    StepError(mant, x * Pow2(6 - exp));
    var temp1: Word, temp2 := 6 - exp, Nrfac(mant);
    var temp: Word := x * Pow2(temp1);
    temp := Mult(temp, temp2);
    temp := temp / 4096;
    c := temp + 4;
  }

  /** The sample a decoder makes of a code. */
  function Reconstruct(s: Scale, c: int): Word
    requires InBounds(s) && 0 <= c <= 7
  {
    var temp2 := Sub(6, s.exp);
    Asr(Add(MultR(Fac(s.mant), (2 * c - 7) * 4096), Asl(1, Sub(temp2, 1))), temp2)
  }

  /** gsm_enc_APCM_inverse_quantization. */
  method InverseQuantize(xMc: array<Word>, mant: Word, exp: Word, xMp: array<Word>)
    requires xMc.Length == xMp.Length == 13 && xMc != xMp && InBounds(Scale(exp, mant))
    requires forall i :: 0 <= i < 13 ==> 0 <= xMc[i] <= 7
    modifies xMp
    ensures forall i :: 0 <= i < 13 ==> xMp[i] == Reconstruct(Scale(exp, mant), xMc[i])
  {
    hide Reconstruct, Asr, Asl, Sub;
    var temp1 := Fac(mant);
    var temp2 := Sub(6, exp);
    var temp3 := Asl(1, Sub(temp2, 1));
    for i := 0 to 13
      invariant forall k :: 0 <= k < i ==> xMp[k] == Reconstruct(Scale(exp, mant), xMc[k])
    {
      xMp[i] := InverseSample(temp1, temp2, temp3, xMc[i], Scale(exp, mant));
    }
  }

  /** One sample of the block. */
  method InverseSample(temp1: Word, temp2: Word, temp3: Word, c: Word, ghost s: Scale) returns (x: Word)
    requires InBounds(s) && 0 <= c <= 7
    requires temp1 == Fac(s.mant) && temp2 == Sub(6, s.exp) && temp3 == Asl(1, Sub(temp2, 1))
    ensures x == Reconstruct(s, c)
  {
    hide Asr, Asl, Sub, Add;
    var temp: Word := c * 2 - 7;
    temp := temp * 4096;
    temp := MultR(temp1, temp);
    temp := Add(temp, temp3);
    x := Asr(temp, temp2);
  }

  /** Reconstruction without saturation: the midpoint, scaled back down with rounding. */
  lemma ReconstructExact(s: Scale, c: int)
    requires InBounds(s) && 0 <= c <= 7
    ensures var p := Pow2(6 - s.exp);
            Reconstruct(s, c) == (Midpoint(s.mant, c) + p / 2) / p
  {
    HalfPower(6 - s.exp);
    MidpointBound(s.mant, c);
  }

  /** The rounding constant of the decoder: half of the divisor, or zero for the divisor one. */
  lemma HalfPower(t: int)
    requires 0 <= t <= 10
    ensures Asl(1, t - 1) == Pow2(t) / 2 && 0 <= Pow2(t) / 2 <= 512
  {
    assert Pow2(9) == 512;
    if t > 0 {
      Pow2Mono(t - 1, 9);
      WrapFits(Pow2(t - 1));
      assert 1 * Pow2(t - 1) == Pow2(t - 1);
    } else {
      assert Asr(1, 1) == 1 / Pow2(1) == 0;
    }
  }

  lemma MidpointBound(mant: nat, c: int)
    requires mant < 8 && 0 <= c <= 7
    ensures -28700 <= Midpoint(mant, c) <= 28700
  {
    MidpointNear(mant, c);
    NatProduct(if 2 * c >= 7 then 2 * c - 7 else 7 - 2 * c, (mant + 9) * 256, 7, 16 * 256);
  }

  /** Quantizing a sample and decoding the code gives it back to within half a quantizer step, plus one. */
  lemma QuantizationError(s: Scale, xmax: Word, x: Word)
    requires InBounds(s) && Abs(x) <= xmax && Fits(s, xmax)
    ensures 0 <= Code(s, x) <= 7
    ensures var p := Pow2(6 - s.exp);
            -((Fac(s.mant) + 1) / 8 + p) <= (Reconstruct(s, Code(s, x)) - x) * p <= (Fac(s.mant) + 1) / 8 + p
  {
    hide CodeScaled, Midpoint, Reconstruct, InSteps, Fits, Pow2, Abs, Fac;
    var p := Pow2(6 - s.exp);
    ScaledInSteps(s, xmax, x);
    StepError(s.mant, x * p);
    var c := Code(s, x);
    ReconstructExact(s, c);
    RoundedError(Reconstruct(s, c), Midpoint(s.mant, c), x, p, (s.mant + 9) * 256);
  }

  /** The same for every sample of every block, at the scale the block itself selects. */
  lemma BlockError(xM: seq<Word>, i: nat)
    requires i < |xM|
    ensures var s := ScaleOf(LevelOf(MaxAbs(xM)));
            var p := Pow2(6 - s.exp);
            && 0 <= Code(s, xM[i]) <= 7
            && -((Fac(s.mant) + 1) / 8 + p) <= (Reconstruct(s, Code(s, xM[i])) - xM[i]) * p <= (Fac(s.mant) + 1) / 8 + p
  {
    hide ScaleOf, LevelOf, MaxAbs, Abs, Pow2, Code, Reconstruct, Fac, Fits;
    QuantizationError(ScaleOf(LevelOf(MaxAbs(xM))), MaxAbs(xM), xM[i]);
  }

  lemma RoundedError(z: int, y: int, x: int, p: int, h: int)
    requires p >= 1 && z == (y + p / 2) / p && -h - 1 <= y - x * p <= h + 1
    ensures -(h + p) <= (z - x) * p <= h + p
  {
    DivBounds(y + p / 2, p);
    assert (z - x) * p == z * p - x * p;
    assert (z + 1) * p == z * p + p;
  }
}
