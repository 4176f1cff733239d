/**
 What the lag and the gain of the long term predictor mean on the samples themselves, before the residual
 is scaled down and the history divided by 8.
 */
module TrueGain {
  import opened Arithmetic
  import opened FixedPoint
  import opened Ltp

  /** The history sample that predicts residual sample `k` at lag `nc`. */
  ghost function Past(hist: seq<Word>, nc: int, k: nat): int
    requires |hist| == 120 && 40 <= nc <= 120 && k < 40
  {
    hist[120 + k - nc]
  }

  ghost function Magnitude(x: int): nat { if x < 0 then -x else x }

  /** The correlation of the residual with the history at lag `nc`. */
  ghost function Cross(d: seq<Word>, hist: seq<Word>, nc: int, n: nat): int
    requires |d| == 40 && |hist| == 120 && 40 <= nc <= 120 && n <= 40
  {
    if n == 0 then 0 else Cross(d, hist, nc, n - 1) + d[n - 1] as int * Past(hist, nc, n - 1)
  }

  /** The energy of the history at that lag. */
  ghost function PastEnergy(hist: seq<Word>, nc: int, n: nat): int
    requires |hist| == 120 && 40 <= nc <= 120 && n <= 40
  {
    if n == 0 then 0 else PastEnergy(hist, nc, n - 1) + Past(hist, nc, n - 1) * Past(hist, nc, n - 1)
  }

  /** The sum of its magnitudes. */
  ghost function PastSize(hist: seq<Word>, nc: int, n: nat): nat
    requires |hist| == 120 && 40 <= nc <= 120 && n <= 40
  {
    if n == 0 then 0 else PastSize(hist, nc, n - 1) + Magnitude(Past(hist, nc, n - 1))
  }

  // ---------------------------------------------------------------- what the scaling loses

  /** The factor the residual is divided by. */
  ghost function Factor(d: seq<Word>): (p: nat)
    requires |d| == 40
    ensures p >= 1
  {
    Pow2(Scal(MaxAbs(d)))
  }

  lemma ScaledAt(d: seq<Word>, k: nat)
    requires |d| == 40 && k < 40
    ensures 0 <= d[k] as int - Factor(d) * ScaledResidual(d)[k] as int < Factor(d)
  {
    hide Scal, MaxAbs, Pow2;
    DivBounds(d[k], Factor(d));
  }

  lemma RemainderProduct(x: int, w: int, p: nat, h: int)
    requires 0 <= x - p * w < p
    ensures Close(x * h, p, w * h, Magnitude(h))
  {
    var r: nat, m := x - p * w, Magnitude(h);
    NatProduct(r, m, p - 1, m);
    assert x * h == (p * w + r) * h == p * (w * h) + r * h;
    assert r * h == r * m || r * h == -(r * m);
  }

  /** `x` and `p` times `c` are apart by at most p - 1 times `size`. */
  ghost predicate Close(x: int, p: nat, c: int, size: nat) {
    -((p - 1) * size) <= x - p * c <= (p - 1) * size
  }

  lemma CloseSum(x: int, y: int, p: nat, b: int, c: int, m: nat, n: nat)
    requires Close(x, p, b, m) && Close(y, p, c, n)
    ensures Close(x + y, p, b + c, m + n)
  {
    Gather(p, b, c);
    Gather(p - 1, m, n);
  }

  /** The correlation of the scaled residual, scaled back, is the true one to within the remainders. */
  lemma {:induction false} CorrClose(d: seq<Word>, hist: seq<Word>, nc: int, n: nat)
    requires |d| == 40 && |hist| == 120 && 40 <= nc <= 120 && n <= 40
    ensures Close(Cross(d, hist, nc, n), Factor(d), Corr(ScaledResidual(d), hist, nc, n), PastSize(hist, nc, n))
  {
    hide Factor, ScaledResidual, Magnitude;
    var p, wt := Factor(d), ScaledResidual(d);
    if n == 0 {
      assert Cross(d, hist, nc, 0) == Corr(wt, hist, nc, 0) == PastSize(hist, nc, 0) == 0;
    } else {
      CorrClose(d, hist, nc, n - 1);
      ScaledAt(d, n - 1);
      var x: int, w: int, h := d[n - 1], wt[n - 1], Past(hist, nc, n - 1);
      RemainderProduct(x, w, p, h);
      hide Close;
      CloseSum(Cross(d, hist, nc, n - 1), x * h, p, Corr(wt, hist, nc, n - 1), w * h,
               PastSize(hist, nc, n - 1), Magnitude(h));
    }
  }

  lemma EighthSquare(h: int)
    ensures -(14 * Magnitude(h) + 49) <= h * h - 64 * (h / 8 * (h / 8)) <= 14 * Magnitude(h) + 49
  {
    var g, r := h / 8, h % 8;
    assert h == 8 * g + r;
    EighthParts(g, r);
  }

  lemma EighthParts(g: int, r: int)
    requires 0 <= r <= 7
    ensures var h := 8 * g + r;
            -(14 * Magnitude(h) + 49) <= h * h - 64 * (g * g) <= 14 * Magnitude(h) + 49
  {
    var h := 8 * g + r;
    assert h * h == 64 * (g * g) + r * (16 * g + r);
    var m: nat := if 16 * g + r < 0 then -(16 * g + r) else 16 * g + r;
    NatProduct(r, m, 7, m);
    assert r * (16 * g + r) == r * m || r * (16 * g + r) == -(r * m);
  }

  /** The power of the history divided by 8, scaled back, is its energy to within the remainders. */
  lemma {:induction false} PowerClose(hist: seq<Word>, nc: int, n: nat)
    requires |hist| == 120 && 40 <= nc <= 120 && n <= 40
    ensures var e := 14 * PastSize(hist, nc, n) + 49 * n;
            -e <= PastEnergy(hist, nc, n) - 64 * Power(hist, nc, n) <= e
  {
    hide Magnitude;
    if n > 0 {
      PowerClose(hist, nc, n - 1);
      EighthSquare(Past(hist, nc, n - 1));
    }
  }

  // ---------------------------------------------------------------- the lag

  /** No lag correlates better on the samples themselves than the lag found, up to what the scaling loses;
      and if no lag correlates positively once scaled, none does by more than that. */
  lemma LagNearlyBest(d: seq<Word>, hist: seq<Word>, lag: int)
    requires |d| == 40 && |hist| == 120 && 40 <= lag <= 120
    ensures var nc := LagOf(d, hist);
            var loss := (Factor(d) - 1) * PastSize(hist, lag, 40);
            if Corr(ScaledResidual(d), hist, nc, 40) > 0 then
              Cross(d, hist, lag, 40) <= Cross(d, hist, nc, 40) + (Factor(d) - 1) * PastSize(hist, nc, 40) + loss
            else Cross(d, hist, lag, 40) <= loss
  {
    hide Factor, ScaledResidual, Corr, Cross, PastSize, LagOf;
    var nc, wt, p := LagOf(d, hist), ScaledResidual(d), Factor(d);
    CorrClose(d, hist, lag, 40);
    CorrClose(d, hist, nc, 40);
    assert BestLag(wt, hist, nc, 120);
    if Corr(wt, hist, nc, 40) > 0 {
      MulMono(Corr(wt, hist, lag, 40), Corr(wt, hist, nc, 40), p);
    } else {
      MulMono(Corr(wt, hist, lag, 40), 0, p);
    }
  }

  // ---------------------------------------------------------------- the gain

  /** The rescaled correlation is the true one over 32, rounded down, to within what the scaling loses. */
  lemma LMaxClose(d: seq<Word>, hist: seq<Word>, nc: int)
    requires |d| == 40 && |hist| == 120 && 40 <= nc <= 120
    ensures var e := (Factor(d) - 1) * PastSize(hist, nc, 40);
            && Cross(d, hist, nc, 40) <= 32 * LMax(d, hist, nc) + 32 + e
            && (LMax(d, hist, nc) > 0 ==> 32 * LMax(d, hist, nc) - e <= Cross(d, hist, nc, 40))
  {
    hide ScaledResidual, Corr, Cross, PastSize, Scal, MaxAbs, Pow2;
    CorrClose(d, hist, nc, 40);
    var c, s := Corr(ScaledResidual(d), hist, nc, 40), Scal(MaxAbs(d));
    if c > 0 {
      Pow2Sum(s, 6 - s);
      assert Pow2(6) == 64 by { SmallPowers(); }
      Halved(c, Pow2(s), Pow2(6 - s));
    } else {
      MulMono(c, 0, Pow2(s));
    }
  }

  lemma Halved(c: nat, p: nat, q: nat)
    requires p * q == 64 && q >= 1 && p >= 1
    ensures 32 * (c * 2 / q) <= p * c < 32 * (c * 2 / q) + 32
  {
    var l, r := c * 2 / q, c * 2 % q;
    assert c * 2 == l * q + r;
    assert p * (c * 2) == p * (l * q) + p * r;
    assert p * (l * q) == l * (p * q);
    MulMono(r + 1, q, p);
    assert (r + 1) * p == p * r + p && q * p == 64;
  }

  /** What scaling both sums may move the ratio by, over the common denominator. */
  ghost function Slack(d: seq<Word>, hist: seq<Word>, nc: int): nat
    requires |d| == 40 && |hist| == 120 && 40 <= nc <= 120
  {
    SlackOf(Factor(d), PastSize(hist, nc, 40))
  }

  ghost function SlackOf(p: nat, size: nat): nat { 32769 * ((p + 13) * size + 1992) }

  lemma SlackParts(p: nat, size: nat, x: nat)
    requires p >= 1 && x <= 32769
    ensures SlackOf(p, size) > (14 * size + 1960) * x + (32 + (p - 1) * size) * 32768
  {
    var a, b: nat := 14 * size + 1960, 32 + (p - 1) * size;
    assert (p + 13) * size == (p - 1) * size + 14 * size;
    assert SlackOf(p, size) == a * 32769 + b * 32769;
    NatProduct(a, x, a, 32769);
  }

  lemma Over(n: int, l: int, e: int, w: nat, x: nat, size: nat, p: nat)
    requires p >= 1 && x <= 32769
    requires n <= 32 * l + 32 + (p - 1) * size && 32 * w - e <= 14 * size + 1960 && l * 32768 <= w * x
    ensures n * 32768 < e * x + SlackOf(p, size)
  {
    SlackParts(p, size, x);
    MulMono(32 * w, e + (14 * size + 1960), x);
    assert (e + (14 * size + 1960)) * x == e * x + (14 * size + 1960) * x;
    assert 32 * w * x == 32 * (w * x);
  }

  lemma Under(n: int, l: int, e: int, w: nat, x: nat, size: nat, p: nat)
    requires p >= 1 && x <= 32769
    requires 32 * l - (p - 1) * size <= n && e - 32 * w <= 14 * size + 1960 && l * 32768 > w * x
    ensures n * 32768 > e * x - SlackOf(p, size)
  {
    SlackParts(p, size, x);
    MulMono(e, 32 * w + (14 * size + 1960), x);
    assert (32 * w + (14 * size + 1960)) * x == 32 * w * x + (14 * size + 1960) * x;
    assert 32 * w * x == 32 * (w * x);
  }

  /** GainBracket, without power too. */
  lemma CodeBracket(l: int, w: Longword)
    requires w >= 0
    ensures GainCode(l, w) < 3 ==> l * 32768 <= w * (Dlb(GainCode(l, w)) + 2)
    ensures GainCode(l, w) > 0 ==> l > 0 && l * 32768 > w * (Dlb(GainCode(l, w) - 1) - 2)
  {
    hide Shifted;
    if w > 0 {
      GainBracket(l, w);
    }
  }

  /** The gain found is the true one: the correlation of the residual with the history, over the energy of
      the history, lies between the two decision levels of the code, up to 2/32768 and the slack. */
  lemma GainIsTrue(d: seq<Word>, hist: seq<Word>)
    requires |d| == 40 && |hist| == 120
    ensures var nc, bc := LagOf(d, hist), GainOf(d, hist);
            var num, den, slack := Cross(d, hist, nc, 40), PastEnergy(hist, nc, 40), Slack(d, hist, nc);
            && (bc < 3 ==> num * 32768 < den * (Dlb(bc) + 2) + slack)
            && (bc > 0 ==> num * 32768 > den * (Dlb(bc - 1) - 2) - slack)
  {
    hide LagOf, Cross, PastEnergy, LMax, Power, Factor, SlackOf, GainCode, PastSize;
    var nc, bc := LagOf(d, hist), GainOf(d, hist);
    var num, den := Cross(d, hist, nc, 40), PastEnergy(hist, nc, 40);
    var l, w, size, p := LMax(d, hist, nc), 2 * Power(hist, nc, 40), PastSize(hist, nc, 40), Factor(d);
    LMaxClose(d, hist, nc);
    PowerClose(hist, nc, 40);
    CodeBracket(l, w);
    assert PastEnergy(hist, nc, 40) - 64 * Power(hist, nc, 40) == den - 32 * w;
    if bc < 3 { Over(num, l, den, w, Dlb(bc) + 2, size, p); }
    if bc > 0 { Under(num, l, den, w, Dlb(bc - 1) - 2, size, p); }
  }

  /** So the decoded gain, the middle of its two decision levels, is within 0.15 of the true one for the two
      middle codes; the lowest and the highest code are open on one side. */
  lemma DecodedGain(d: seq<Word>, hist: seq<Word>)
    requires |d| == 40 && |hist| == 120
    ensures var nc, bc := LagOf(d, hist), GainOf(d, hist);
            var num, den, slack := Cross(d, hist, nc, 40), PastEnergy(hist, nc, 40), Slack(d, hist, nc);
            && (bc < 3 ==> num * 32768 <= den * Qlb(bc) + den * 4917 + slack)
            && (0 < bc < 3 ==> num * 32768 >= den * Qlb(bc) - den * 4917 - slack)
            && (bc == 3 ==> num * 32768 >= den * 26212 - slack)
            && (bc < 3 ==> 2 * Qlb(bc) == Dlb(bc) as int + if bc > 0 then Dlb(bc - 1) as int else 0)
  {
    hide LagOf, GainOf, Cross, PastEnergy, Slack, Dlb, Qlb;
    var nc := LagOf(d, hist);
    GainIsTrue(d, hist);
    EnergyPositive(hist, nc, 40);
    AroundMiddle(GainOf(d, hist), Cross(d, hist, nc, 40), PastEnergy(hist, nc, 40), Slack(d, hist, nc));
  }

  lemma AroundMiddle(bc: int, num: int, den: int, slack: int)
    requires 0 <= bc <= 3 && den >= 0
    requires bc < 3 ==> num * 32768 < den * (Dlb(bc) + 2) + slack
    requires bc > 0 ==> num * 32768 > den * (Dlb(bc - 1) - 2) - slack
    ensures bc < 3 ==> num * 32768 <= den * Qlb(bc) + den * 4917 + slack
    ensures 0 < bc < 3 ==> num * 32768 >= den * Qlb(bc) - den * 4917 - slack
    ensures bc == 3 ==> num * 32768 >= den * 26212 - slack
    ensures bc < 3 ==> 2 * Qlb(bc) == Dlb(bc) as int + if bc > 0 then Dlb(bc - 1) as int else 0
  {
    if bc == 0 {
    } else if bc == 1 {
    } else if bc == 2 {
    } else {
    }
  }

  lemma {:induction false} EnergyPositive(hist: seq<Word>, nc: int, n: nat)
    requires |hist| == 120 && 40 <= nc <= 120 && n <= 40
    ensures PastEnergy(hist, nc, n) >= 0
  {
    if n > 0 {
      EnergyPositive(hist, nc, n - 1);
    }
  }

  // ---------------------------------------------------------------- what prediction gains

  /** The estimate is the sample the correlation was taken with, times the decoded gain, rounded. */
  lemma EstimateIsPast(hist: seq<Word>, bc: int, nc: int, k: nat)
    requires |hist| == 120 && 0 <= bc <= 3 && 40 <= nc <= 120 && k < 40
    ensures -16384 <= 32768 * Estimates(hist, bc, nc)[k] - Qlb(bc) * Past(hist, nc, k) <= 16384
  {
    var q: int, x: int := Qlb(bc), MultR(Qlb(bc), hist[120 + k - nc]);
    assert -16384 <= q * Past(hist, nc, k) - x * 32768 <= 16384;
  }

  ghost function SumOfSquares(d: seq<Word>, n: nat): int
    requires n <= |d|
  {
    if n == 0 then 0 else SumOfSquares(d, n - 1) + d[n - 1] as int * d[n - 1] as int
  }

  /** The energy, times 2^30, of what is left when the history times q/32768 is taken from the residual. */
  ghost function LeftOver(d: seq<Word>, hist: seq<Word>, nc: int, q: int, n: nat): int
    requires |d| == 40 && |hist| == 120 && 40 <= nc <= 120 && n <= 40
  {
    if n == 0 then 0
    else
      var x := 32768 * d[n - 1] as int - q * Past(hist, nc, n - 1);
      LeftOver(d, hist, nc, q, n - 1) + x * x
  }

  lemma SquareOfDifference(d: int, q: int, h: int)
    ensures (32768 * d - q * h) * (32768 * d - q * h) == 0x4000_0000 * (d * d) - 65536 * q * (d * h) + q * q * (h * h)
  {
    var a, b := 32768 * d, q * h;
    assert (a - b) * (a - b) == a * a - 2 * (a * b) + b * b;
    assert a * b == 32768 * q * (d * h);
    assert b * b == q * q * (h * h);
  }

  lemma {:induction false} LeftOverExpands(d: seq<Word>, hist: seq<Word>, nc: int, q: int, n: nat)
    requires |d| == 40 && |hist| == 120 && 40 <= nc <= 120 && n <= 40
    ensures LeftOver(d, hist, nc, q, n)
         == 0x4000_0000 * SumOfSquares(d, n) - 65536 * q * Cross(d, hist, nc, n) + q * q * PastEnergy(hist, nc, n)
  {
    hide Past;
    if n > 0 {
      LeftOverExpands(d, hist, nc, q, n - 1);
      var x: int, h := d[n - 1], Past(hist, nc, n - 1);
      SquareOfDifference(x, q, h);
      Gather(65536 * q, Cross(d, hist, nc, n - 1), x * h);
      Gather(q * q, PastEnergy(hist, nc, n - 1), h * h);
    }
  }

  lemma Gather(c: int, a: int, b: int)
    ensures c * (a + b) == c * a + c * b
  {
  }

  /** A gain above the lowest never leaves more energy than there was, up to the slack. */
  lemma PredictionHelps(d: seq<Word>, hist: seq<Word>)
    requires |d| == 40 && |hist| == 120 && GainOf(d, hist) > 0
    ensures var nc, q := LagOf(d, hist), Qlb(GainOf(d, hist));
            LeftOver(d, hist, nc, q, 40) <= 0x4000_0000 * SumOfSquares(d, 40) + 2 * q * Slack(d, hist, nc)
  {
    hide LagOf, GainOf, Cross, PastEnergy, Slack, SumOfSquares, LeftOver;
    var nc, bc := LagOf(d, hist), GainOf(d, hist);
    var q, x: int := Qlb(bc), Dlb(bc - 1) - 2;
    LeftOverExpands(d, hist, nc, q, 40);
    GainIsTrue(d, hist);
    EnergyPositive(hist, nc, 40);
    Saves(Cross(d, hist, nc, 40), PastEnergy(hist, nc, 40), q, x, Slack(d, hist, nc));
  }

  lemma Saves(num: int, den: int, q: int, x: int, slack: int)
    requires den >= 0 && 0 <= q <= 2 * x && num * 32768 > den * x - slack
    ensures -65536 * q * num + q * q * den <= 2 * q * slack
  {
    MulMono(den * x - slack, num * 32768, 2 * q);
    assert num * 32768 * (2 * q) == 65536 * q * num;
    assert (den * x - slack) * (2 * q) == q * den * (2 * x) - 2 * q * slack;
    NatProduct(q, den, q, den);
    MulMono(q, 2 * x, q * den);
    assert q * (q * den) == q * q * den;
  }
}
