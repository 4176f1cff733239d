/** Sections 4.2.5 to 4.2.8 of GSM 06.10: reflection coefficients, log area ratios and their codes. */
module Lpc {
  import opened Arithmetic
  import opened FixedPoint
  import opened Normalize

  // ---------------------------------------------------------------- normalized autocorrelation

  /** The high word of an autocorrelation shifted up by the norm of the first, as the narrowing takes it. */
  function NormalizedAcf(acf: Longword, temp: nat): Word {
    Wrap(acf * Pow2(temp) / 0x1_0000)
  }

  /** No bits are lost when the first autocorrelation is the largest, as for the exact autocorrelations
      of a signal. */
  lemma AcfFits(acf0: Longword, acf: Longword)
    requires acf0 > 0 && -acf0 <= acf <= acf0
    ensures var p := Pow2(Norm(acf0));
            NormalizedAcf(acf, Norm(acf0)) * 0x1_0000 <= acf * p < (NormalizedAcf(acf, Norm(acf0)) + 1) * 0x1_0000
  {
    hide Norm, Pow2;
    NormPositive(acf0);
    var p := Pow2(Norm(acf0));
    var m: nat := if acf < 0 then 0 - acf else acf;
    MulMono(m, acf0, p);
    assert acf * p == m * p || acf * p == -(m * p);
    WrapFits(acf * p / 0x1_0000);
  }

  // ---------------------------------------------------------------- Schur recursion

  /** The reflection coefficient of a step: P[1] / P[0], negated. */
  function Reflection(p0: Word, p1: Word): (r: Word)
    requires Abs(p1) <= p0
    ensures -32767 <= r <= 32767
  {
    if p1 > 0 then -Quotient(Abs(p1), p0) else Quotient(Abs(p1), p0)
  }

  /** One end of a lattice stage: x + r y, rounded and saturated. */
  function Reflected(x: Word, y: Word, r: Word): Word
    requires -32767 <= r
  {
    Add(x, MultR(y, r))
  }

  function NextP(p: seq<Word>, k: seq<Word>, r: Word, n: nat): (q: seq<Word>)
    requires |p| == |k| == 9 && 1 <= n <= 7 && -32767 <= r
    ensures |q| == 9
  {
    seq(9, m requires 0 <= m < 9 =>
      if m == 0 then Reflected(p[0], p[1], r)
      else if m <= 8 - n then Reflected(p[m + 1], k[m], r)
      else p[m])
  }

  function NextK(p: seq<Word>, k: seq<Word>, r: Word, n: nat): (q: seq<Word>)
    requires |p| == |k| == 9 && 1 <= n <= 7 && -32767 <= r
    ensures |q| == 9
  {
    seq(9, m requires 0 <= m < 9 => if 1 <= m <= 8 - n then Reflected(k[m], p[m + 1], r) else k[m])
  }

  /** The coefficients from step `n` on; all zero once P[0] < |P[1]|. */
  function Reflections(p: seq<Word>, k: seq<Word>, n: nat): (r: seq<Word>)
    requires |p| == |k| == 9 && 1 <= n <= 8
    ensures |r| == 9 - n
    ensures forall i :: 0 <= i < |r| ==> -32767 <= r[i] <= 32767
    decreases 8 - n
  {
    if p[0] < Abs(p[1]) then seq(9 - n, _ => 0)
    else
      var r := Reflection(p[0], p[1]);
      [r] + if n == 8 then [] else Reflections(NextP(p, k, r, n), NextK(p, k, r, n), n + 1)
  }

  /** The recursion keeps the prediction error P[0] between zero and its old value; it never saturates. */
  lemma ErrorShrinks(p: seq<Word>, k: seq<Word>, n: nat)
    requires |p| == |k| == 9 && 1 <= n <= 7 && Abs(p[1]) <= p[0]
    ensures var r := Reflection(p[0], p[1]);
            0 <= NextP(p, k, r, n)[0] <= p[0] && NextP(p, k, r, n)[0] == p[0] + MultR(p[1], r)
  {
    hide Reflection, Abs, MultR, Add;
    var r := Reflection(p[0], p[1]);
    ReflectedProduct(p[0], p[1]);
    AddFits(p[0], MultR(p[1], r));
    assert NextP(p, k, r, n)[0] == Reflected(p[0], p[1], r);
  }

  lemma AddFits(a: Word, b: Word)
    requires -32768 <= a + b <= 32767
    ensures Add(a, b) == a + b
  {
  }

  lemma ReflectedProduct(p0: Word, p1: Word)
    requires Abs(p1) <= p0
    ensures -p0 <= MultR(p1, Reflection(p0, p1)) <= 0
  {
    var num, q, r := Abs(p1), Quotient(Abs(p1), p0), Reflection(p0, p1);
    var m: int := if p1 < 0 then 0 - p1 else p1;
    assert p1 as int * r as int == -(m * q);
    if num < p0 {
      assert m == num;
      NatProduct(m, q, p0, 32767);
    } else {
      NatProduct(m, q, 32768, 32767);
      if m != num {
        assert m == 32768 && num == 32767 == p0;
      } else {
        NatProduct(m, q, p0, 32767);
      }
    }
  }

  /** gsm_enc_Reflection_coefficients on any nine autocorrelations: exactly eight coefficients, and every
      division meets its precondition. */
  method ReflectionCoefficients(acf: seq<Longword>, r: array<Word>)
    requires |acf| == 9 && r.Length == 8
    modifies r
    ensures acf[0] == 0 ==> r[..] == seq(8, _ => 0)
    ensures acf[0] != 0 ==>
              var p := NormalizedAll(acf);
              r[..] == Reflections(p, p[0 := 0][8 := 0], 1)
  {
    if acf[0] == 0 {
      for i := 0 to 8
        invariant forall j :: 0 <= j < i ==> r[j] == 0
      {
        r[i] := 0;
      }
      return;
    }
    var temp := Norm(acf[0]);
    var p, k := new Word[9], new Word[9](_ => 0);
    for i := 0 to 9
      invariant forall j :: 0 <= j < i ==> p[j] == NormalizedAcf(acf[j], temp)
      invariant forall j :: 0 <= j < 9 ==> k[j] == if 1 <= j < i && j <= 7 then p[j] else 0
    {
      p[i] := NormalizedAcf(acf[i], temp);
      if 1 <= i <= 7 {
        k[i] := p[i];
      }
    }
    assert p[..] == NormalizedAll(acf);
    assert k[..] == p[..][0 := 0][8 := 0];
    Schur(p, k, r);
  }

  function NormalizedAll(acf: seq<Longword>): (p: seq<Word>)
    requires |acf| == 9
    ensures |p| == 9
  {
    seq(9, i requires 0 <= i < 9 => NormalizedAcf(acf[i], Norm(acf[0])))
  }

  /** The recursion in place on P and K. */
  method Schur(p: array<Word>, k: array<Word>, r: array<Word>)
    requires p.Length == k.Length == 9 && r.Length == 8 && p != k && p != r && k != r
    modifies p, k, r
    ensures r[..] == Reflections(old(p[..]), old(k[..]), 1)
  {
    hide NextP, NextK, Quotient;
    ghost var all := Reflections(p[..], k[..], 1);
    var n := 1;
    while n <= 8
      invariant 1 <= n <= 9
      invariant r[..n - 1] == all[..n - 1]
      invariant n <= 8 ==> all[n - 1..] == Reflections(p[..], k[..], n)
    {
      if p[0] < Abs(p[1]) {
        for i := n to 9
          invariant r[..n - 1] == all[..n - 1]
          invariant forall j :: n - 1 <= j < i - 1 ==> r[j] == 0
        {
          r[i - 1] := 0;
        }
        assert r[n - 1..] == all[n - 1..];
        assert r[..] == r[..n - 1] + r[n - 1..];
        return;
      }
      var c := Div(Abs(p[1]), p[0]);
      if p[1] > 0 {
        c := -c;
      }
      assert c == Reflection(p[..][0], p[..][1]);
      r[n - 1] := c;
      assert all[n - 1..][0] == c;
      if n < 8 {
        assert all[n - 1..][1..] == all[n..];
        Step(p, k, c, n);
      }
      n := n + 1;
    }
  }

  /** One step of the recursion, in place. */
  method Step(p: array<Word>, k: array<Word>, r: Word, n: nat)
    requires p.Length == k.Length == 9 && p != k && 1 <= n <= 7 && -32767 <= r
    modifies p, k
    ensures p[..] == NextP(old(p[..]), old(k[..]), r, n)
    ensures k[..] == NextK(old(p[..]), old(k[..]), r, n)
  {
    hide Reflected;
    ghost var p0, k0 := p[..], k[..];
    p[0] := Reflected(p[0], p[1], r);
    for m := 1 to 9 - n
      invariant forall i :: 0 <= i < 9 ==> p[i] == if i < m then NextP(p0, k0, r, n)[i] else p0[i]
      invariant forall i :: 0 <= i < 9 ==> k[i] == if i < m then NextK(p0, k0, r, n)[i] else k0[i]
    {
      p[m] := Reflected(p[m + 1], k[m], r);
      k[m] := Reflected(k[m], p[m + 1], r);
    }
  }

  // ---------------------------------------------------------------- log area ratios

  /** The piecewise-linear log area ratio of a reflection coefficient (4.2.6). */
  function LogAreaRatio(r: Word): (lar: Word)
    requires -32767 <= r
    ensures -26620 <= lar <= 26620
  {
    var temp := Abs(r);
    var t := if temp < 22118 then temp / 2 else if temp < 31130 then temp - 11059 else (temp - 26112) * 4;
    if r < 0 then -t else t
  }

  /** LARp_to_rp, its inverse (4.2.9.2). */
  function ReflectionOf(lar: Word): (r: Word)
    ensures -32767 <= r <= 32767
  {
    var temp := Abs(lar);
    var t := if temp < 11059 then temp * 2
             else if temp < 20070 then temp + 11059
             else Add(temp / 4, 26112);
    if lar < 0 then -t else t
  }

  /** The transformation keeps the order of coefficients, and decoding its result gives the coefficient
      back, but for the last bit of small ones. */
  lemma LarRoundTrip(r: Word, s: Word)
    requires -32767 <= r && -32767 <= s
    ensures r <= s ==> LogAreaRatio(r) <= LogAreaRatio(s)
    ensures -1 <= ReflectionOf(LogAreaRatio(r)) - r <= 1
    ensures Abs(r) >= 22118 || r % 2 == 0 ==> ReflectionOf(LogAreaRatio(r)) == r
  {
    hide LogAreaRatio, ReflectionOf;
    if r <= s { LarMonotone(r, s); }
    LarInverse(r);
    if Abs(r) >= 22118 || r % 2 == 0 { LarExact(r); }
  }

  lemma LarMonotone(r: Word, s: Word)
    requires -32767 <= r <= s
    ensures LogAreaRatio(r) <= LogAreaRatio(s)
  {
  }

  lemma LarInverse(r: Word)
    requires -32767 <= r
    ensures -1 <= ReflectionOf(LogAreaRatio(r)) - r <= 1
  {
  }

  lemma LarExact(r: Word)
    requires -32767 <= r && (Abs(r) >= 22118 || r % 2 == 0)
    ensures ReflectionOf(LogAreaRatio(r)) == r
  {
  }

  /** gsm_enc_Transformation_to_Log_Area_Ratios, in place. */
  method ToLogAreaRatios(r: array<Word>)
    requires r.Length == 8 && forall i :: 0 <= i < 8 ==> -32767 <= r[i]
    modifies r
    ensures forall i :: 0 <= i < 8 ==> r[i] == LogAreaRatio(old(r[i]))
  {
    for i := 0 to 8
      invariant forall j :: 0 <= j < 8 ==> r[j] == if j < i then LogAreaRatio(old(r[j])) else old(r[j])
    {
      var temp := Abs(r[i]);
      if temp < 22118 {
        temp := temp / 2;
      } else if temp < 31130 {
        temp := temp - 11059;
      } else {
        temp := temp - 26112;
        temp := temp * 4;
      }
      r[i] := if r[i] < 0 then -temp else temp;
    }
  }

  // ---------------------------------------------------------------- coding and decoding

  /** The constants of one coefficient: A and INVA, B, and the limits of its code. */
  datatype Coefficient = Coefficient(a: Word, b: Word, mac: int, mic: int, inva: Word)

  function Table(i: nat): Coefficient
    requires i < 8
  {
    if i < 2 then Coefficient(20480, 0, 31, -32, 13107)
    else if i == 2 then Coefficient(20480, 2048, 15, -16, 13107)
    else if i == 3 then Coefficient(20480, -2560, 15, -16, 13107)
    else if i == 4 then Coefficient(13964, 94, 7, -8, 19223)
    else if i == 5 then Coefficient(15360, -1792, 7, -8, 17476)
    else if i == 6 then Coefficient(8534, -341, 3, -4, 31454)
    else Coefficient(9036, -1144, 3, -4, 29708)
  }

  /** The number of codes of coefficient `i`: a power of two, its field width. */
  function CodeCount(i: nat): int
    requires i < 8
  {
    if i < 2 then 64 else if i < 4 then 32 else if i < 6 then 16 else 8
  }

  /** The level a ratio rounds to, before clipping. */
  function Level(c: Coefficient, lar: Word): int
    requires c.a > -32768
  {
    Add(Add(Mult(c.a, lar), c.b), 256) / 512
  }

  /** Clipped to the code's limits and made non-negative. */
  function CodeOf(c: Coefficient, lar: Word): int
    requires c.a > -32768
  {
    var temp := Level(c, lar);
    if temp > c.mac then c.mac - c.mic else if temp < c.mic then 0 else temp - c.mic
  }

  /** gsm_enc_Quantization_and_coding, in place: every code is within its field. */
  method QuantizeAndCode(lar: array<Word>)
    requires lar.Length == 8
    modifies lar
    ensures forall i :: 0 <= i < 8 ==> lar[i] == CodeOf(Table(i), old(lar[i])) && 0 <= lar[i] < CodeCount(i)
  {
    for i := 0 to 8
      invariant forall j :: 0 <= j < i ==> lar[j] == CodeOf(Table(j), old(lar[j])) && 0 <= lar[j] < CodeCount(j)
      invariant forall j :: i <= j < 8 ==> lar[j] == old(lar[j])
    {
      var c := Table(i);
      var temp := Mult(c.a, lar[i]);
      temp := Add(temp, c.b);
      temp := Add(temp, 256);
      temp := temp / 512;
      lar[i] := if temp > c.mac then c.mac - c.mic else if temp < c.mic then 0 else temp - c.mic;
    }
  }

  /** One step of gsm_enc_Decoding_of_the_coded_Log_Area_Ratios. */
  function DecodedRatio(i: nat, larc: Word): Word
    requires i < 8 && 0 <= larc < CodeCount(i)
  {
    var c := Table(i);
    var temp1: Word := Add(larc, c.mic) * 1024;
    var temp2 := Sub(temp1, c.b * 2);
    var temp3 := MultR(c.inva, temp2);
    Add(temp3, temp3)
  }

  /** Half a quantizer step of coefficient `i`, rounded up, plus at most one. */
  function HalfStep(i: nat): int
    requires i < 8
  {
    if i < 4 then 410 else if i == 4 then 601 else if i == 5 then 547 else if i == 6 then 984 else 929
  }

  /** A log area ratio that is not clipped is decoded to within half a step. */
  lemma LarQuantizationError(i: nat, lar: Word)
    requires i < 8 && -26620 <= lar <= 26620
    requires Table(i).mic <= Level(Table(i), lar) <= Table(i).mac
    ensures var c := CodeOf(Table(i), lar);
            0 <= c < CodeCount(i) && -HalfStep(i) <= DecodedRatio(i, c) - lar <= HalfStep(i)
  {
    hide Level, CodeOf, DecodedRatio, Table, CodeCount, HalfStep;
    if i < 4 {
      LarErrorWide(i, lar);
    } else {
      LarErrorNarrow(i, lar);
    }
  }

  /** The quantizers of 20 steps to the unit. */
  lemma LarErrorWide(i: nat, lar: Word)
    requires i < 4 && -26620 <= lar <= 26620
    requires Table(i).mic <= Level(Table(i), lar) <= Table(i).mac
    ensures var c := CodeOf(Table(i), lar);
            0 <= c < CodeCount(i) && -HalfStep(i) <= DecodedRatio(i, c) - lar <= HalfStep(i)
  {
    if i < 2 {} else if i == 2 {} else {}
  }

  lemma LarErrorNarrow(i: nat, lar: Word)
    requires 4 <= i < 8 && -26620 <= lar <= 26620
    requires Table(i).mic <= Level(Table(i), lar) <= Table(i).mac
    ensures var c := CodeOf(Table(i), lar);
            0 <= c < CodeCount(i) && -HalfStep(i) <= DecodedRatio(i, c) - lar <= HalfStep(i)
  {
    if i == 4 {} else if i == 5 {} else if i == 6 {} else {}
  }

  // ---------------------------------------------------------------- the nearest code

  /** Half the ratio that level `l` of coefficient `i` decodes to. */
  function Half(i: nat, l: int): int
    requires i < 8
  {
    (Table(i).inva * (1024 * l - 2 * Table(i).b) + 16384) / 32768
  }

  lemma DecodedTwice(i: nat, larc: Word)
    requires i < 8 && 0 <= larc < CodeCount(i)
    ensures DecodedRatio(i, larc) == 2 * Half(i, larc + Table(i).mic)
  {
  }

  /** A ratio is at level `l` or below exactly when it is left of the boundary between `l` and l + 1. */
  lemma LevelUpTo(i: nat, lar: Word, l: int)
    requires i < 8
    ensures Level(Table(i), lar) <= l <==> Table(i).a * lar as int < 32768 * (512 * l + 256 - Table(i).b)
  {
    hide Mult, Add;
    var c := Table(i);
    var x: int := Mult(c.a, lar);
    assert -20480 <= x <= 20480;
    AddFits(x, c.b);
    AddFits(x + c.b, 256);
  }

  /** The next half is as many whole 32768ths further as a step holds, and one more on a carry. */
  lemma NextHalf(x: int, inva: nat)
    ensures x / 32768 + (x + 1024 * inva) / 32768 == Middle(inva, x / 32768, x % 32768)
  {
  }

  lemma HalvesMeet(i: nat, l: int)
    requires i < 8 && Table(i).inva >= 0
    ensures var x := Table(i).inva * (1024 * l - 2 * Table(i).b) + 16384;
            Half(i, l) + Half(i, l + 1) == Middle(Table(i).inva, x / 32768, x % 32768)
  {
    hide Table, Middle;
    var c := Table(i);
    var x := c.inva * (1024 * l - 2 * c.b) + 16384;
    assert c.inva * (1024 * (l + 1) - 2 * c.b) + 16384 == x + 1024 * c.inva;
    NextHalf(x, c.inva);
  }

  /** That boundary is the middle between the two decoded ratios, to within what an integer ratio shows. */
  lemma Boundary(i: nat, l: int)
    requires i < 8 && Table(i).mic <= l < Table(i).mac
    ensures var m := Half(i, l) + Half(i, l + 1);
            Table(i).a * (m - 1) < 32768 * (512 * l + 256 - Table(i).b) <= Table(i).a * (m + 1)
  {
    var c := Table(i);
    assert c.inva >= 0;
    hide Middle, Half, Table;
    HalvesMeet(i, l);
    var x := c.inva * (1024 * l - 2 * c.b) + 16384;
    BoundaryFrom(i, l, x / 32768, x % 32768);
  }

  /** The middle of the two halves, from the quotient and remainder of the lower one. */
  function Middle(inva: nat, h: int, r: nat): int {
    2 * h + 1024 * inva / 32768 + if r + 1024 * inva % 32768 < 32768 then 0 else 1
  }

  lemma BoundaryFrom(i: nat, l: int, h: int, r: nat)
    requires i < 8 && Table(i).mic <= l < Table(i).mac && r < 32768
    requires Table(i).inva * (1024 * l - 2 * Table(i).b) + 16384 == 32768 * h + r
    ensures var m := Middle(Table(i).inva, h, r);
            Table(i).a * (m - 1) < 32768 * (512 * l + 256 - Table(i).b) <= Table(i).a * (m + 1)
  {
    hide Middle;
    if i < 2 {
      WideRow(l, h, r);
    } else if i == 2 {
      WideRow(l - 4, h, r);
    } else if i == 3 {
      WideRow(l + 5, h, r);
    } else if i == 4 {
      FourthRow(l, h, r);
    } else if i == 5 {
      FifthRow(l, h, r);
    } else if i == 6 {
      SixthRow(l, h, r);
    } else {
      SeventhRow(l, h, r);
    }
  }

  lemma WideRow(l: int, h: int, r: nat)
    requires -32 <= l <= 30 && r < 32768 && 13107 * (1024 * l) + 16384 == 32768 * h + r
    ensures var m := Middle(13107, h, r);
            20480 * (m - 1) < 32768 * (512 * l + 256) <= 20480 * (m + 1)
  {
    assert Middle(13107, h, r) == 2 * h + 409 + if r < 13312 then 0 else 1;
  }

  lemma FourthRow(l: int, h: int, r: nat)
    requires -8 <= l <= 6 && r < 32768 && 19223 * (1024 * l - 188) + 16384 == 32768 * h + r
    ensures var m := Middle(19223, h, r);
            13964 * (m - 1) < 32768 * (512 * l + 162) <= 13964 * (m + 1)
  {
    assert Middle(19223, h, r) == 2 * h + 600 + if r < 9216 then 0 else 1;
  }

  lemma FifthRow(l: int, h: int, r: nat)
    requires -8 <= l <= 6 && r < 32768 && 17476 * (1024 * l + 3584) + 16384 == 32768 * h + r
    ensures var m := Middle(17476, h, r);
            15360 * (m - 1) < 32768 * (512 * l + 2048) <= 15360 * (m + 1)
  {
    assert Middle(17476, h, r) == 2 * h + 546 + if r < 28672 then 0 else 1;
  }

  lemma SixthRow(l: int, h: int, r: nat)
    requires -4 <= l <= 2 && r < 32768 && 31454 * (1024 * l + 682) + 16384 == 32768 * h + r
    ensures var m := Middle(31454, h, r);
            8534 * (m - 1) < 32768 * (512 * l + 597) <= 8534 * (m + 1)
  {
    assert Middle(31454, h, r) == 2 * h + 982 + if r < 2048 then 0 else 1;
    if l == -4 {} else if l == -3 {} else if l == -2 {} else if l == -1 {} else if l == 0 {} else {}
  }

  lemma SeventhRow(l: int, h: int, r: nat)
    requires -4 <= l <= 2 && r < 32768 && 29708 * (1024 * l + 2288) + 16384 == 32768 * h + r
    ensures var m := Middle(29708, h, r);
            9036 * (m - 1) < 32768 * (512 * l + 1400) <= 9036 * (m + 1)
  {
    assert Middle(29708, h, r) == 2 * h + 928 + if r < 20480 then 0 else 1;
  }

  lemma Between(a: int, m: int, bound: int, lar: int)
    requires a >= 1 && a * (m - 1) < bound <= a * (m + 1)
    ensures a * lar < bound ==> lar <= m
    ensures a * lar >= bound ==> lar >= m
  {
    if lar >= m + 1 { MulMono(m + 1, lar, a); }
    if lar <= m - 1 { MulMono(lar, m - 1, a); }
  }

  lemma HalfRises(i: nat, l: int)
    requires i < 8
    ensures Half(i, l) <= Half(i, l + 1)
  {
  }

  lemma {:induction false} HalfMonotone(i: nat, l: int, m: int)
    requires i < 8 && l <= m
    ensures Half(i, l) <= Half(i, m)
    decreases m - l
  {
    hide Half;
    if l < m {
      HalfMonotone(i, l, m - 1);
      HalfRises(i, m - 1);
    }
  }

  /** The code never falls when the ratio rises. */
  lemma CodeMonotone(i: nat, lar: Word, lar': Word)
    requires i < 8 && lar <= lar'
    ensures CodeOf(Table(i), lar) <= CodeOf(Table(i), lar')
  {
    hide Level;
    var c := Table(i);
    LevelUpTo(i, lar', Level(c, lar'));
    LevelUpTo(i, lar, Level(c, lar'));
    MulMono(lar, lar', c.a);
  }

  /** No code of the field decodes nearer to the ratio than the code chosen, for every ratio, clipped or
      not. */
  lemma NearestCode(i: nat, lar: Word, other: Word)
    requires i < 8 && 0 <= other < CodeCount(i)
    ensures var c := CodeOf(Table(i), lar);
            0 <= c < CodeCount(i) && Distance(DecodedRatio(i, c), lar) <= Distance(DecodedRatio(i, other), lar)
  {
    hide Level, DecodedRatio, Half;
    var t := Table(i);
    var c := CodeOf(t, lar);
    var l, m := c + t.mic, other + t.mic;
    DecodedTwice(i, c);
    DecodedTwice(i, other);
    if other > c {
      LevelUpTo(i, lar, l);
      Boundary(i, l);
      Between(t.a, Half(i, l) + Half(i, l + 1), 32768 * (512 * l + 256 - t.b), lar);
      HalfMonotone(i, l + 1, m);
      HalfRises(i, l);
    } else if other < c {
      LevelUpTo(i, lar, l - 1);
      Boundary(i, l - 1);
      Between(t.a, Half(i, l - 1) + Half(i, l), 32768 * (512 * (l - 1) + 256 - t.b), lar);
      HalfMonotone(i, m, l - 1);
      HalfRises(i, l - 1);
    }
  }

  function Distance(x: int, y: int): nat { if x < y then y - x else x - y }
}
