/** Sections 4.2.11 and 4.2.12 of GSM 06.10: the long term predictor. */
module Ltp {
  import opened Arithmetic
  import opened FixedPoint
  import opened Normalize

  // ---------------------------------------------------------------- scaling of the residual

  /** How far the residual is scaled down before it is correlated. */
  function Scal(dmax: Word): (r: nat)
    requires dmax >= 0
    ensures r <= 6
  {
    var temp := if dmax != 0 then Norm(dmax as int * 0x1_0000) else 0;
    if temp > 6 then 0 else 6 - temp
  }

  /** The normalized maximum is below 2^9 once scaled. */
  lemma MaxScaled(dmax: Word)
    requires dmax >= 0
    ensures dmax < 512 * Pow2(Scal(dmax))
    ensures dmax == 32767 ==> Scal(dmax) == 6
  {
    if dmax == 0 {
      assert Pow2(6) == 64;
    } else {
      var a: Longword := dmax as int * 0x1_0000;
      NormPositive(a);
      Unscale(dmax, Pow2(Norm(a)));
      NormScaled(dmax, Norm(a));
    }
  }

  lemma Unscale(d: int, p: int)
    requires d * 0x1_0000 * p <= 0x7FFF_FFFF
    ensures d * p < 32768
  {
    assert d * 0x1_0000 * p == d * p * 0x1_0000;
  }

  lemma NormScaled(d: int, t: nat)
    requires 0 < d && d * Pow2(t) < 32768
    ensures d < 512 * Pow2(if t > 6 then 0 else 6 - t)
    ensures d == 32767 ==> t == 0
  {
    assert Pow2(7) == 128 && Pow2(6) == 64;
    if t > 6 {
      Pow2Mono(7, t);
      MulMono(128, Pow2(t), d);
    } else {
      Pow2Sum(t, 6 - t);
      Cancel(d, Pow2(t), Pow2(6 - t));
    }
    if t > 0 {
      Pow2Mono(1, t);
      MulMono(2, Pow2(t), d);
    }
  }

  lemma Cancel(d: int, p: int, q: int)
    requires d * p < 512 * 64 && p * q == 64 && p >= 1 && q >= 1
    ensures d < 512 * q
  {
    assert 512 * q * p == 512 * (p * q);
    if d >= 512 * q {
      MulMono(512 * q, d, p);
      assert false;
    }
  }

  /** And it is not scaled further than that takes: a scaled maximum has all of nine bits. */
  lemma ScaledNoFurther(dmax: Word)
    requires dmax > 0 && Scal(dmax) > 0
    ensures 256 * Pow2(Scal(dmax)) <= dmax
  {
    var a: Longword := dmax as int * 0x1_0000;
    NormPositive(a);
    var t := Norm(a);
    assert t <= 5 && Scal(dmax) == 6 - t;
    Pow2Sum(t, 6 - t);
    SmallPowers();
    Rescale(dmax, Pow2(t), Pow2(6 - t));
  }

  lemma Rescale(d: int, p: int, q: int)
    requires 0x4000_0000 <= d * 0x1_0000 * p && p * q == 64 && p >= 1 && q >= 1
    ensures 256 * q <= d
  {
    assert d * 0x1_0000 * p == d * p * 0x1_0000;
    assert (d + 1) * p == d * p + p && 256 * q * p == 256 * (p * q);
    CancelFactor(256 * q, d + 1, p);
  }

  /** Each scaled residual sample fits 10 bits. */
  lemma SampleScaled(dmax: Word, x: Word)
    requires Abs(x) <= dmax
    ensures -512 <= x / Pow2(Scal(dmax)) <= 511
  {
    MaxScaled(dmax);
    var p := Pow2(Scal(dmax));
    assert Pow2(6) == 64;
    DivBetween(x, p, -512, 512);
  }

  // ---------------------------------------------------------------- correlation and power

  /** The cross-correlation at lag `lag`, first `n` terms; hist[120 + k] is dp[k]. */
  function Corr(wt: seq<Word>, hist: seq<Word>, lag: int, n: nat): int
    requires |wt| == 40 && |hist| == 120 && 40 <= lag <= 120 && n <= 40
  {
    if n == 0 then 0 else Corr(wt, hist, lag, n - 1) + wt[n - 1] as int * hist[120 + n - 1 - lag] as int
  }

  lemma {:induction false} CorrBound(wt: seq<Word>, hist: seq<Word>, lag: int, n: nat)
    requires |wt| == 40 && |hist| == 120 && 40 <= lag <= 120 && n <= 40
    requires forall k :: 0 <= k < 40 ==> -512 <= wt[k] <= 511
    ensures -(n * 0x100_0000) <= Corr(wt, hist, lag, n) <= n * 0x100_0000
  {
    if n > 0 {
      CorrBound(wt, hist, lag, n - 1);
      TermBound(wt[n - 1], hist[120 + n - 1 - lag]);
    }
  }

  lemma TermBound(w: int, h: int)
    requires -512 <= w <= 512 && -32768 <= h <= 32768
    ensures -0x100_0000 <= w * h <= 0x100_0000
  {
    var x: nat := if w < 0 then -w else w;
    var y: nat := if h < 0 then -h else h;
    NatProduct(x, y, 512, 32768);
    assert w * h == x * y || w * h == -(x * y);
  }

  /** The lag found: the first with the largest positive correlation, or 40 if none is positive. */
  ghost predicate BestLag(wt: seq<Word>, hist: seq<Word>, nc: int, upTo: int)
    requires |wt| == 40 && |hist| == 120 && upTo <= 120
  {
    && 40 <= nc <= 120
    && if forall lag :: 40 <= lag <= upTo ==> Corr(wt, hist, lag, 40) <= 0 then nc == 40
       else
         && nc <= upTo && Corr(wt, hist, nc, 40) > 0
         && (forall lag :: 40 <= lag <= upTo ==> Corr(wt, hist, lag, 40) <= Corr(wt, hist, nc, 40))
         && (forall lag :: 40 <= lag < nc ==> Corr(wt, hist, lag, 40) < Corr(wt, hist, nc, 40))
  }

  /** The running best of the search: lag and correlation. */
  function BestOf(wt: seq<Word>, hist: seq<Word>, upTo: int): (int, int)
    requires |wt| == 40 && |hist| == 120 && 39 <= upTo <= 120
    decreases upTo
  {
    if upTo == 39 then (40, 0)
    else
      var (nc, lMax) := BestOf(wt, hist, upTo - 1);
      var c := Corr(wt, hist, upTo, 40);
      if c > lMax then (upTo, c) else (nc, lMax)
  }

  lemma {:induction false} BestOfIsBest(wt: seq<Word>, hist: seq<Word>, upTo: int)
    requires |wt| == 40 && |hist| == 120 && 39 <= upTo <= 120
    ensures BestLag(wt, hist, BestOf(wt, hist, upTo).0, upTo)
    ensures var (nc, lMax) := BestOf(wt, hist, upTo);
            lMax == if upTo >= 40 && Corr(wt, hist, nc, 40) > 0 then Corr(wt, hist, nc, 40) else 0
    decreases upTo
  {
    if upTo >= 40 {
      BestOfIsBest(wt, hist, upTo - 1);
    }
  }

  function Power(hist: seq<Word>, nc: int, n: nat): (r: int)
    requires |hist| == 120 && 40 <= nc <= 120 && n <= 40
    ensures 0 <= r <= n * 0x100_0000
  {
    if n == 0 then 0
    else
      var h: int := hist[120 + n - 1 - nc] / 8;
      NatProduct(if h < 0 then -h else h, if h < 0 then -h else h, 4096, 4096);
      assert h * h == (if h < 0 then -h else h) * (if h < 0 then -h else h);
      Power(hist, nc, n - 1) + h * h
  }

  // ---------------------------------------------------------------- the LTP gain

  /** Table 4.3a. */
  function Dlb(i: nat): Word
    requires i < 4
  {
    [6554, 16384, 26214, 32767][i]
  }

  lemma ShiftFits(l: int, power: Longword)
    requires 0 < power && 0 <= l <= power
    ensures 0 <= l * Pow2(Norm(power)) <= 0x7FFF_FFFF
    ensures l == power ==> 0x4000_0000 <= l * Pow2(Norm(power))
  {
    NormPositive(power);
    MulMono(l, power, Pow2(Norm(power)));
  }

  function HighWord(x: int): (r: Word)
    requires 0 <= x <= 0x7FFF_FFFF
    ensures 0 <= r && r * 0x1_0000 <= x < (r + 1) * 0x1_0000
  {
    x / 0x1_0000
  }

  /** A quantity shifted up by the norm of the power, and its high word taken. */
  function Shifted(l: int, power: Longword): (r: Word)
    requires 0 < power && 0 <= l <= power
    ensures 0 <= r && (l == power ==> 16384 <= r)
    ensures r * 0x1_0000 <= l * Pow2(Norm(power)) < (r + 1) * 0x1_0000
  {
    ShiftFits(l, power);
    HighWord(l * Pow2(Norm(power)))
  }

  function GainCode(lmax: int, power: Longword): (bc: Word)
    requires power >= 0
    ensures 0 <= bc <= 3
  {
    if lmax <= 0 then 0
    else if lmax >= power then 3
    else
      var r, s := Shifted(lmax, power), Shifted(power, power);
      if r <= Mult(s, Dlb(0)) then 0 else if r <= Mult(s, Dlb(1)) then 1 else if r <= Mult(s, Dlb(2)) then 2 else 3
  }

  /** The gain code brackets the true gain lmax / power between its two decision levels, to within 2/32768. */
  lemma GainBracket(lmax: int, power: Longword)
    requires 0 < power
    ensures GainCode(lmax, power) < 3 ==> lmax * 32768 < power * (Dlb(GainCode(lmax, power)) + 2)
    ensures GainCode(lmax, power) > 0 ==> lmax * 32768 > power * (Dlb(GainCode(lmax, power) - 1) - 2)
  {
    var bc := GainCode(lmax, power);
    if lmax <= 0 {
      assert power * (Dlb(0) + 2) > 0;
    } else if lmax >= power {
      assert power * (Dlb(2) - 2) == power * 26212;
    } else {
      var r, s, p := Shifted(lmax, power), Shifted(power, power), Pow2(Norm(power));
      NormPositive(power);
      if bc < 3 { Below(lmax, power, r, s, p, Dlb(bc)); }
      if bc > 0 { Above(lmax, power, r, s, p, Dlb(bc - 1)); }
    }
  }

  lemma Below(l: int, w: int, r: Word, s: Word, p: int, d: Word)
    requires 0 <= l && 0 < w && p >= 1 && 0 <= s && 0 <= d
    requires l * p < (r + 1) * 0x1_0000 && s * 0x1_0000 <= w * p && 0x4000_0000 <= w * p
    requires r <= Mult(s, d)
    ensures l * 32768 < w * (d + 2)
  {
    var lp, wp, sd := l * p, w * p, s as int * d as int;
    assert r * 32768 <= sd;
    MulMono(s * 0x1_0000, wp, d);
    assert s as int * 0x1_0000 * d as int == sd * 0x1_0000;
    assert lp * 32768 < wp * d + 2 * wp;
    CancelFactor(l * 32768, w * (d + 2), p);
    Regroup(l, 0, 32768, p);
    Regroup(w, d, 2, p);
  }

  lemma Above(l: int, w: int, r: Word, s: Word, p: int, d: Word)
    requires 0 <= l && 0 < w && p >= 1 && 0 <= s && 0 <= d
    requires r * 0x1_0000 <= l * p && w * p < (s + 1) * 0x1_0000 && 0x4000_0000 <= w * p
    requires r > Mult(s, d)
    ensures l * 32768 > w * (d - 2)
  {
    var lp, wp, sd := l * p, w * p, s as int * d as int;
    assert r * 32768 > sd;
    MulMono(wp, (s as int + 1) * 0x1_0000, d);
    assert (s as int + 1) * 0x1_0000 * d as int == (sd + d) * 0x1_0000;
    assert lp * 32768 > wp * d - 2 * wp;
    CancelFactor(w * (d - 2), l * 32768, p);
    Regroup(l, 0, 32768, p);
    Regroup(w, d, -2, p);
  }

  lemma Regroup(w: int, d: int, c: int, p: int)
    ensures w * (d + c) * p == w * p * d + c * (w * p)
  {
    var k, wp := d + c, w * p;
    assert w * k * p == wp * k;
    assert wp * k == wp * d + c * wp;
  }

  lemma CancelFactor(a: int, b: int, p: int)
    requires p >= 1
    ensures a * p < b * p ==> a < b
  {
    if b <= a {
      MulMono(b, a, p);
    }
  }

  // ---------------------------------------------------------------- the two procedures

  function ScaledSample(dmax: Word, x: Word): (r: Word)
    requires Abs(x) <= dmax
    ensures -512 <= r <= 511
  {
    SampleScaled(dmax, x);
    x / Pow2(Scal(dmax))
  }

  /** The residual scaled down for the correlation. */
  function ScaledResidual(d: seq<Word>): (wt: seq<Word>)
    requires |d| == 40
    ensures |wt| == 40
    ensures forall k :: 0 <= k < 40 ==> -512 <= wt[k] <= 511
  {
    var dmax := MaxAbs(d);
    seq(40, k requires 0 <= k < 40 => ScaledSample(dmax, d[k]))
  }

  /** The maximal correlation, rescaled. */
  function LMax(d: seq<Word>, hist: seq<Word>, nc: int): int
    requires |d| == 40 && |hist| == 120 && 40 <= nc <= 120
  {
    var c := Corr(ScaledResidual(d), hist, nc, 40);
    if c > 0 then c * 2 / Pow2(6 - Scal(MaxAbs(d))) else 0
  }

  function LagOf(d: seq<Word>, hist: seq<Word>): (nc: Word)
    requires |d| == 40 && |hist| == 120
    ensures 40 <= nc <= 120 && BestLag(ScaledResidual(d), hist, nc, 120)
  {
    BestOfIsBest(ScaledResidual(d), hist, 120);
    BestOf(ScaledResidual(d), hist, 120).0
  }

  function GainOf(d: seq<Word>, hist: seq<Word>): (bc: Word)
    requires |d| == 40 && |hist| == 120
    ensures 0 <= bc <= 3
  {
    var nc := LagOf(d, hist);
    GainCode(LMax(d, hist, nc), 2 * Power(hist, nc, 40))
  }

  /** gsm_enc_Calculation_of_the_LTP_parameters: no sum or shift leaves 32 bits. */
  method Parameters(d: seq<Word>, hist: seq<Word>) returns (bc: Word, nc: Word)
    requires |d| == 40 && |hist| == 120
    ensures nc == LagOf(d, hist) && bc == GainOf(d, hist)
  {
    hide Corr, Power, GainCode, Scal, MaxAbs, ScaledResidual, BestLag;
    var scal, wt := ScaleDown(d);
    var lMax: Longword;
    nc, lMax := Search(wt[..], hist);
    BestOfIsBest(wt[..], hist, 120);
    CorrBound(wt[..], hist, nc, 40);
    lMax := lMax * 2;
    DivShrinks(lMax, Pow2(6 - scal));
    lMax := lMax / Pow2(6 - scal);
    var lPower := SumPower(hist, nc);
    bc := Gain(lMax, lPower);
  }

  /** The search of the optimum scaling, and the working array. */
  method ScaleDown(d: seq<Word>) returns (scal: nat, wt: array<Word>)
    requires |d| == 40
    ensures scal == Scal(MaxAbs(d)) && fresh(wt) && wt[..] == ScaledResidual(d)
  {
    var dmax := FindMax(d);
    var temp := 0;
    if dmax != 0 {
      temp := Norm(dmax as int * 0x1_0000);
    }
    scal := if temp > 6 then 0 else 6 - temp;
    wt := WorkingArray(d, dmax, scal);
  }

  method WorkingArray(d: seq<Word>, dmax: Word, scal: nat) returns (wt: array<Word>)
    requires |d| == 40 && dmax == MaxAbs(d) && scal == Scal(dmax)
    ensures fresh(wt) && wt[..] == ScaledResidual(d)
  {
    hide Scal, MaxAbs, Pow2;
    wt := new Word[40];
    for k := 0 to 40
      invariant forall i :: 0 <= i < k ==> wt[i] == ScaledSample(dmax, d[i])
    {
      SampleScaled(dmax, d[k]);
      wt[k] := d[k] / Pow2(scal);
    }
  }

  /** The power of the history at the lag found. */
  method SumPower(hist: seq<Word>, nc: Word) returns (lPower: Longword)
    requires |hist| == 120 && 40 <= nc <= 120
    ensures lPower == 2 * Power(hist, nc, 40)
  {
    lPower := 0;
    for k := 0 to 40
      invariant lPower == Power(hist, nc, k)
    {
      var t: Longword := hist[k + 120 - nc] / 8;
      assert Power(hist, nc, k + 1) == Power(hist, nc, k) + t * t;
      lPower := lPower + t * t;
    }
    lPower := lPower * 2;
  }

  /** The search over the 81 lags. */
  method Search(wt: seq<Word>, hist: seq<Word>) returns (nc: Word, lMax: Longword)
    requires |wt| == 40 && |hist| == 120
    requires forall k :: 0 <= k < 40 ==> -512 <= wt[k] <= 511
    ensures (nc, lMax) == BestOf(wt, hist, 120)
  {
    lMax, nc := 0, 40;
    for lag := 40 to 121
      invariant (nc, lMax) == BestOf(wt, hist, lag - 1)
    {
      var result: Longword := 0;
      for k := 0 to 40
        invariant result == Corr(wt, hist, lag, k)
      {
        CorrBound(wt, hist, lag, k + 1);
        result := result + wt[k] as int * hist[k + 120 - lag] as int;
      }
      if result > lMax {
        nc, lMax := lag, result;
      }
    }
  }

  /** Coding of the LTP gain. */
  method Gain(lMax: Longword, lPower: Longword) returns (bc: Word)
    requires 0 <= lPower
    ensures bc == GainCode(lMax, lPower)
  {
    if lMax <= 0 {
      return 0;
    }
    if lMax >= lPower {
      return 3;
    }
    var temp := Norm(lPower);
    ShiftFits(lMax, lPower);
    ShiftFits(lPower, lPower);
    var r := HighWord(lMax * Pow2(temp));
    var s := HighWord(lPower * Pow2(temp));
    bc := 0;
    while bc <= 2
      invariant 0 <= bc <= 3
      invariant forall i :: 0 <= i < bc ==> r > Mult(s, Dlb(i))
    {
      if r <= Mult(s, Dlb(bc)) {
        break;
      }
      bc := bc + 1;
    }
  }

  /** Table 4.3b: the decoded gain. */
  function Qlb(bc: int): Word
    requires 0 <= bc <= 3
  {
    [3277, 11469, 21299, 32767][bc]
  }

  /** The estimate of residual sample `k` from the history. */
  function Estimate(hist: seq<Word>, bc: int, nc: int, k: nat): Word
    requires |hist| == 120 && 0 <= bc <= 3 && 40 <= nc <= 120 && k < 40
  {
    MultR(Qlb(bc), hist[120 + k - nc])
  }

  /** The estimated block. */
  function Estimates(hist: seq<Word>, bc: int, nc: int): (r: seq<Word>)
    requires |hist| == 120 && 0 <= bc <= 3 && 40 <= nc <= 120
    ensures |r| == 40
  {
    seq(40, k requires 0 <= k < 40 => Estimate(hist, bc, nc, k))
  }

  /** What the estimate leaves over. */
  function LongTermResidual(d: seq<Word>, est: seq<Word>): (r: seq<Word>)
    requires |d| == |est| == 40
    ensures |r| == 40
  {
    seq(40, k requires 0 <= k < 40 => Sub(d[k], est[k]))
  }

  /** gsm_enc_Long_term_analysis_filtering, with dpp and dp the same array: dp0[base..base+40] is written
      while the history before `base` is read.  No slot is read after it is written. */
  method AnalysisFilter(bc: Word, nc: Word, dp0: array<Word>, base: nat, d: seq<Word>, e: array<Word>)
    requires 0 <= bc <= 3 && 40 <= nc <= 120 && |d| == 40
    requires 120 <= base && base + 40 <= dp0.Length && e.Length == 50 && e != dp0
    modifies dp0, e
    ensures dp0[base..base + 40] == Estimates(old(dp0[base - 120..base]), bc, nc)
    ensures e[5..45] == LongTermResidual(d, Estimates(old(dp0[base - 120..base]), bc, nc))
    ensures dp0[..base] == old(dp0[..base]) && dp0[base + 40..] == old(dp0[base + 40..])
    ensures e[..5] == old(e[..5]) && e[45..] == old(e[45..])
  {
    ghost var hist := dp0[base - 120..base];
    var bp := Qlb(bc);
    for k := 0 to 40
      invariant forall i :: 0 <= i < dp0.Length ==>
                  dp0[i] == if base <= i < base + k then Estimate(hist, bc, nc, i - base) else old(dp0[i])
      invariant forall i :: 0 <= i < 50 ==>
                  e[i] == if 5 <= i < 5 + k then Sub(d[i - 5], Estimate(hist, bc, nc, i - 5)) else old(e[i])
    {
      assert dp0[base + k - nc] == hist[120 + k - nc];
      dp0[base + k] := MultR(bp, dp0[base + k - nc]);
      e[5 + k] := Sub(d[k], dp0[base + k]);
    }
  }

  /** Estimate and residual give the sample back exactly when their difference fits a word. */
  lemma ResidualRestores(d: seq<Word>, est: seq<Word>, k: nat)
    requires |d| == |est| == 40 && k < 40
    ensures Add(est[k], LongTermResidual(d, est)[k]) == d[k] <==> -32768 <= d[k] as int - est[k] as int <= 32767
  {
    assert LongTermResidual(d, est)[k] == Clamp(d[k] as int - est[k] as int);
  }
}
