/**
 The long-term history across frames.  The encoder codes every frame against silence, a decoder of the
 recommendation keeps its last 120 samples: when the two agree, and that they do not always.
 */
module History {
  import opened Arithmetic
  import opened FixedPoint
  import opened Apcm
  import opened Rpe
  import opened Ltp
  import opened Coder
  import opened Frame
  import opened Encoder

  /** A decoder that carries `prev` over rebuilds the same samples as one that starts from silence. */
  ghost predicate CarriedAgrees(prev: seq<Word>, ps: seq<Subframe>)
    requires |prev| == 120 && AllInWidth(ps)
  {
    DecodeAll(prev, ps)[120..] == DecodeAll(Silence(), ps)[120..]
  }

  /** Sample `k` of subframe `j` is not predicted from a previous sample that the gain makes audible. */
  ghost predicate InaudibleAt(prev: seq<Word>, p: Subframe, j: nat, k: nat)
    requires |prev| == 120 && InWidth(p)
  {
    40 * j + k < p.nc ==> MultR(Qlb(p.bc), prev[120 + 40 * j + k - p.nc]) == 0
  }

  ghost predicate Inaudible(prev: seq<Word>, p: Subframe, j: nat)
    requires |prev| == 120 && InWidth(p)
  {
    forall k: nat {:trigger InaudibleAt(prev, p, j, k)} :: k < 40 ==> InaudibleAt(prev, p, j, k)
  }

  /** No sample of the frame is. */
  ghost predicate AllInaudible(prev: seq<Word>, ps: seq<Subframe>)
    requires |prev| == 120 && AllInWidth(ps)
  {
    forall j: nat {:trigger Inaudible(prev, ps[j], j)} :: j < |ps| ==> Inaudible(prev, ps[j], j)
  }

  // ---------------------------------------------------------------- one subframe

  /** Decoded samples stay clear of the ends of the range. */
  lemma DecodedRange(p: Subframe, k: nat)
    requires InWidth(p) && k < 40
    ensures -28701 <= PositionedBlock(p.mc, DecodedGrid(p))[k] <= 28701
  {
    var g := DecodedGrid(p);
    forall i | 0 <= i < 13 ensures -28701 <= g[i] <= 28701 {
      ReconstructRange(ScaleOf(p.xmaxc), p.xmc[i]);
    }
  }

  lemma ReconstructRange(s: Scale, c: int)
    requires InBounds(s) && 0 <= c <= 7
    ensures -28701 <= Reconstruct(s, c) <= 28701
  {
    hide Reconstruct, Midpoint, Pow2;
    ReconstructExact(s, c);
    MidpointBound(s.mant, c);
    RoundedRange(Midpoint(s.mant, c), Pow2(6 - s.exp));
  }

  lemma RoundedRange(y: int, p: nat)
    requires p >= 1 && -28700 <= y <= 28700
    ensures -28701 <= (y + p / 2) / p <= 28701
  {
    NatProduct(1, 28701, p, 28701);
    assert -28701 * p == -(p * 28701);
    assert 28702 * p == p * 28701 + p;
    DivBetween(y + p / 2, p, -28701, 28702);
  }

  /** Away from saturation a sum tells its second term from zero. */
  lemma AddTells(g: Word, x: Word)
    requires -28701 <= g <= 28701
    ensures Add(g, x) == Add(g, 0) <==> x == 0
  {
  }

  /** Two histories give one block exactly when the samples predicted from are told apart nowhere; `b` is zero
      where it differs from `a`. */
  lemma BlockAgrees(p: Subframe, a: seq<Word>, b: seq<Word>)
    requires InWidth(p) && |a| == |b| == 120
    requires forall i :: 0 <= i < 120 ==> a[i] == b[i] || b[i] == 0
    ensures DecodeSubframe(p, a) == DecodeSubframe(p, b)
            <==> forall k: nat :: k < 40 ==> Estimate(a, p.bc, p.nc, k) == Estimate(b, p.bc, p.nc, k)
  {
    var x, y := DecodeSubframe(p, a), DecodeSubframe(p, b);
    forall k: nat | k < 40
      ensures x[k] == y[k] <==> Estimate(a, p.bc, p.nc, k) == Estimate(b, p.bc, p.nc, k)
    {
      SampleAgrees(p, a, b, k);
    }
  }

  lemma SampleAgrees(p: Subframe, a: seq<Word>, b: seq<Word>, k: nat)
    requires InWidth(p) && |a| == |b| == 120 && k < 40
    requires a[120 + k - p.nc] == b[120 + k - p.nc] || b[120 + k - p.nc] == 0
    ensures DecodeSubframe(p, a)[k] == DecodeSubframe(p, b)[k]
            <==> Estimate(a, p.bc, p.nc, k) == Estimate(b, p.bc, p.nc, k)
  {
    hide MultR, DecodedGrid, PositionedBlock, Add, Qlb;
    var g := PositionedBlock(p.mc, DecodedGrid(p))[k];
    DecodedRange(p, k);
    NothingScaled(Qlb(p.bc));
    AddTells(g, Estimate(a, p.bc, p.nc, k));
  }

  lemma NothingScaled(q: Word)
    ensures MultR(q, 0) == 0
  {
  }

  // ---------------------------------------------------------------- a frame

  lemma {:induction false} DecodeKeeps(hist: seq<Word>, ps: seq<Subframe>)
    requires |hist| == 120 && AllInWidth(ps)
    ensures DecodeAll(hist, ps)[..120] == hist
    decreases |ps|
  {
    hide DecodeSubframe, InWidth;
    if |ps| > 0 {
      DecodeKeeps(hist, ps[..|ps| - 1]);
    }
  }

  lemma ConcatEqual<T>(a: seq<T>, b: seq<T>, c: seq<T>, d: seq<T>)
    requires |a| == |b| && |c| == |d|
    ensures a + c == b + d <==> a == b && c == d
  {
    if a + c == b + d {
      assert a == (a + c)[..|a|] && b == (b + d)[..|b|];
      assert c == (a + c)[|a|..] && d == (b + d)[|b|..];
    }
  }

  /** What the last 120 samples hold after `j` subframes: what was decoded, or what was there before. */
  lemma RecentAt(hist: seq<Word>, buf: seq<Word>, j: nat, i: nat)
    requires |hist| == 120 && |buf| == 120 + 40 * j && buf[..120] == hist && i < 120
    ensures Recent(buf)[i] == if 40 * j + i < 120 then hist[40 * j + i] else buf[120..][40 * j + i - 120]
  {
    assert Recent(buf)[i] == buf[40 * j + i];
  }

  /** The next subframe after samples that agree. */
  lemma NextAgrees(prev: seq<Word>, a: seq<Word>, b: seq<Word>, p: Subframe, j: nat)
    requires |prev| == 120 && InWidth(p) && |a| == |b| == 120 + 40 * j
    requires a[..120] == prev && b[..120] == Silence() && a[120..] == b[120..]
    ensures DecodeSubframe(p, Recent(a)) == DecodeSubframe(p, Recent(b)) <==> Inaudible(prev, p, j)
  {
    hide DecodeSubframe, MultR, Qlb, Recent;
    var x, y := Recent(a), Recent(b);
    forall i: nat | i < 120 ensures x[i] == y[i] || y[i] == 0 {
      RecentAt(prev, a, j, i);
      RecentAt(Silence(), b, j, i);
    }
    BlockAgrees(p, x, y);
    forall k: nat | k < 40
      ensures Estimate(x, p.bc, p.nc, k) == Estimate(y, p.bc, p.nc, k) <==> InaudibleAt(prev, p, j, k)
    {
      RecentAt(prev, a, j, 120 + k - p.nc);
      RecentAt(Silence(), b, j, 120 + k - p.nc);
      NothingScaled(Qlb(p.bc));
    }
  }

  /** A decoder that carries its history over agrees with the encoder on a frame if and only if every sample
      predicted from before the frame is scaled to nothing. */
  lemma {:induction false} CarriedHistory(prev: seq<Word>, ps: seq<Subframe>)
    requires |prev| == 120 && AllInWidth(ps)
    ensures CarriedAgrees(prev, ps) <==> AllInaudible(prev, ps)
    decreases |ps|
  {
    hide DecodeSubframe, InWidth, Inaudible, Recent;
    var n := |ps|;
    if n == 0 {
      assert DecodeAll(prev, ps)[120..] == [] == DecodeAll(Silence(), ps)[120..];
    } else {
      var init, p := ps[..n - 1], ps[n - 1];
      var a, b := DecodeAll(prev, init), DecodeAll(Silence(), init);
      var x, y := DecodeSubframe(p, Recent(a)), DecodeSubframe(p, Recent(b));
      CarriedHistory(prev, init);
      DecodeKeeps(prev, init);
      DecodeKeeps(Silence(), init);
      assert DecodeAll(prev, ps)[120..] == a[120..] + x;
      assert DecodeAll(Silence(), ps)[120..] == b[120..] + y;
      ConcatEqual(a[120..], b[120..], x, y);
      if a[120..] == b[120..] {
        NextAgrees(prev, a, b, p, n - 1);
      }
      InaudibleSplit(prev, ps);
    }
  }

  lemma InaudibleSplit(prev: seq<Word>, ps: seq<Subframe>)
    requires |prev| == 120 && AllInWidth(ps) && |ps| > 0
    ensures var last := |ps| - 1;
            AllInaudible(prev, ps) <==> AllInaudible(prev, ps[..last]) && Inaudible(prev, ps[last], last)
  {
    hide Inaudible, InWidth;
    var last := |ps| - 1;
    var init := ps[..last];
    if AllInaudible(prev, ps) {
      forall j: nat | j < last ensures Inaudible(prev, init[j], j) {
        assert Inaudible(prev, ps[j], j);
      }
    }
    if AllInaudible(prev, init) && Inaudible(prev, ps[last], last) {
      forall j: nat | j < |ps| ensures Inaudible(prev, ps[j], j) {
        if j < last { assert Inaudible(prev, init[j], j); }
      }
    }
  }

  // ---------------------------------------------------------------- runs of frames

  /** The frames of a run, four subframes each. */
  ghost predicate FramesOk(run: seq<seq<Subframe>>) {
    forall k :: 0 <= k < |run| ==> |run[k]| == 4 && AllInWidth(run[k])
  }

  /** The buffer of a decoder that carries its history over, after frame `k`. */
  ghost function Carried(run: seq<seq<Subframe>>, k: nat): (r: seq<Word>)
    requires k < |run| && FramesOk(run)
    ensures |r| == 280
  {
    DecodeAll(if k == 0 then Silence() else Recent(Carried(run, k - 1)), run[k])
  }

  /** The encoder's buffer after frame `k`. */
  ghost function Coded(run: seq<seq<Subframe>>, k: nat): (r: seq<Word>)
    requires k < |run| && FramesOk(run)
    ensures |r| == 280
  {
    DecodeAll(Silence(), run[k])
  }

  ghost predicate SameFrame(run: seq<seq<Subframe>>, k: nat)
    requires k < |run| && FramesOk(run)
  {
    Carried(run, k)[120..] == Coded(run, k)[120..]
  }

  /** Nothing of frame k - 1, as the encoder rebuilt it, is heard in frame `k`. */
  ghost predicate NotHeard(run: seq<seq<Subframe>>, k: nat)
    requires k < |run| && FramesOk(run)
  {
    k > 0 ==> AllInaudible(Recent(Coded(run, k - 1)), run[k])
  }

  lemma SameRecent(a: seq<Word>, b: seq<Word>)
    requires |a| == |b| == 280 && a[120..] == b[120..]
    ensures Recent(a) == Recent(b)
  {
    assert Recent(a) == a[120..][40..] && Recent(b) == b[120..][40..];
  }

  lemma FrameAgrees(run: seq<seq<Subframe>>, k: nat)
    requires k < |run| && FramesOk(run) && (k > 0 ==> SameFrame(run, k - 1))
    ensures SameFrame(run, k) <==> NotHeard(run, k)
  {
    hide DecodeAll, AllInaudible, Recent, InWidth;
    if k > 0 {
      SameRecent(Carried(run, k - 1), Coded(run, k - 1));
      CarriedHistory(Recent(Coded(run, k - 1)), run[k]);
    }
  }

  /** Over every run, a decoder that carries its history over rebuilds every frame as the encoder did if and only
      if nothing of any frame is heard in the next. */
  lemma {:induction false} CarriedRun(run: seq<seq<Subframe>>, n: nat)
    requires FramesOk(run) && n <= |run|
    ensures (forall k: nat :: k < n ==> SameFrame(run, k)) <==> (forall k: nat :: k < n ==> NotHeard(run, k))
  {
    hide SameFrame, NotHeard, FramesOk;
    if n > 0 {
      CarriedRun(run, n - 1);
      if forall k: nat :: k < n - 1 ==> SameFrame(run, k) {
        FrameAgrees(run, n - 1);
      }
    }
  }

  // ---------------------------------------------------------------- the first subframe

  lemma {:induction false} CorrNotPositive(wt: seq<Word>, hist: seq<Word>, lag: int, n: nat)
    requires |wt| == 40 && |hist| == 120 && 40 <= lag <= 120 && n <= 40
    requires forall i :: 0 <= i < 120 ==> hist[i] >= 0
    requires (forall k :: 0 <= k < 40 ==> wt[k] <= 0) || (forall i :: 0 <= i < 120 ==> hist[i] == 0)
    ensures Corr(wt, hist, lag, n) <= 0
  {
    if n > 0 {
      CorrNotPositive(wt, hist, lag, n - 1);
      ProductNotPositive(wt[n - 1], hist[120 + n - 1 - lag]);
    }
  }

  lemma ProductNotPositive(w: int, h: int)
    requires h >= 0 && (w <= 0 || h == 0)
    ensures w * h <= 0
  {
    if h > 0 { MulMono(w, 0, h); }
  }

  /** Without a positive correlation: lag 40 and the smallest gain. */
  lemma NoPitch(d: seq<Word>, hist: seq<Word>)
    requires |d| == 40 && |hist| == 120 && forall i :: 0 <= i < 120 ==> hist[i] >= 0
    requires (forall k :: 0 <= k < 40 ==> d[k] <= 0) || (forall i :: 0 <= i < 120 ==> hist[i] == 0)
    ensures Encoded(d, hist).nc == 40 && Encoded(d, hist).bc == 0
  {
    hide RpeOf, LongTermResidual, Estimates, Corr, Power;
    var wt := ScaledResidual(d);
    if forall k :: 0 <= k < 40 ==> d[k] <= 0 {
      forall k | 0 <= k < 40 ensures wt[k] <= 0 {
        ScaledNotPositive(MaxAbs(d), d[k]);
      }
    }
    forall lag | 40 <= lag <= 120 ensures Corr(wt, hist, lag, 40) <= 0 {
      CorrNotPositive(wt, hist, lag, 40);
    }
  }

  lemma ScaledNotPositive(dmax: Word, x: Word)
    requires Abs(x) <= dmax && x <= 0
    ensures ScaledSample(dmax, x) <= 0
  {
    DivBounds(x, Pow2(Scal(dmax)));
    var q, p := x / Pow2(Scal(dmax)), Pow2(Scal(dmax));
    if q > 0 {
      MulMono(1, q, p);
      assert false;
    }
  }

  /** The first subframe of every frame is predicted, with the smallest gain, from the last subframe before it:
      one sample of magnitude five there and the carried history is heard. */
  lemma HeardFromFive(prev: seq<Word>, d: seq<Word>, k: nat)
    requires |prev| == 120 && |d| == 160 && k < 40 && (prev[80 + k] >= 5 || prev[80 + k] <= -5)
    ensures var ps := EncodedAll(d, Silence(), 4).0;
            AllInWidth(ps) && !CarriedAgrees(prev, ps)
  {
    hide Encoded, DecodeSubframe, DecodeAll, EncodedAll;
    var ps := EncodedAll(d, Silence(), 4).0;
    Coder.InStep(d, Silence(), 4);
    FirstOf(d, Silence(), 4);
    NoPitch(d[..40], Silence());
    CarriedHistory(prev, ps);
    assert ps[0].nc == 40 && ps[0].bc == 0;
    ScaledToSomething(prev[80 + k]);
    assert !InaudibleAt(prev, ps[0], 0, k);
    assert !Inaudible(prev, ps[0], 0);
  }

  lemma ScaledToSomething(x: Word)
    requires x >= 5 || x <= -5
    ensures MultR(Qlb(0), x) != 0
  {
  }

  /** The first subframe does not depend on how many follow. */
  lemma {:induction false} FirstOf(d: seq<Word>, hist: seq<Word>, n: nat)
    requires 1 <= n && 40 * n <= |d| && |hist| == 120
    ensures EncodedAll(d, hist, n).0[0] == Encoded(d[..40], hist)
  {
    hide Encoded, DecodeSubframe;
    if n == 1 {
      assert EncodedAll(d, hist, 0) == ([], hist);
      assert d[0..40] == d[..40] && Recent(hist) == hist;
    } else {
      FirstOf(d, hist, n - 1);
    }
  }

  // ---------------------------------------------------------------- a frame after which it is heard

  ghost predicate Faint(s: seq<Word>) {
    forall i :: 0 <= i < |s| ==> 0 <= s[i] <= 4
  }

  ghost predicate Constant(s: seq<Word>, x: Word) {
    forall i :: 0 <= i < |s| ==> s[i] == x
  }

  /** With lag 40 and the smallest gain, faint samples predict nothing. */
  lemma FaintResidual(d: seq<Word>, hist: seq<Word>, x: Word)
    requires |d| == 40 && Constant(d, x) && |hist| == 120 && Faint(hist)
    ensures Constant(Estimates(hist, 0, 40), 0) && Constant(LongTermResidual(d, Estimates(hist, 0, 40)), x)
  {
    forall k: nat | k < 40 ensures Estimate(hist, 0, 40, k) == 0 {
      FaintScaled(hist[80 + k]);
    }
  }

  lemma FaintScaled(x: Word)
    requires 0 <= x <= 4
    ensures MultR(Qlb(0), x) == 0
  {
  }

  /** A block of zeros is coded at the lowest level and decoded as fours on its grid. */
  lemma ZeroBlock(block: seq<Word>)
    requires |block| == 40 && Constant(block, 0)
    ensures var (mc, xmaxc, xmc) := RpeOf(block);
            xmaxc == 0 && forall i :: 0 <= i < 13 ==> xmc[i] == 4
  {
    hide GridOf, LevelOf, MaxAbs, Code;
    var x := WeightedBlock(Padded(block));
    assert Constant(x, 0);
    var xM := Grid(x, GridOf(x));
    assert Constant(xM, 0);
    ZeroMax(xM);
    ZeroLevel();
    ZeroCode();
  }

  lemma ZeroMax(s: seq<Word>)
    requires Constant(s, 0)
    ensures MaxAbs(s) == 0
  {
    hide MaxAbs;
    forall i | 0 <= i < |s| ensures Abs(s[i]) == 0 {}
  }

  lemma ZeroLevel()
    ensures LevelOf(0) == 0
  {
    hide LevelOf;
    forall c: Word | 0 <= c <= 63 ensures Fits(ScaleOf(c), 0) {}
  }

  lemma ZeroCode()
    ensures Code(ScaleOf(0), 0) == 4
  {
  }

  lemma FourDecoded()
    ensures Reconstruct(ScaleOf(0), 4) == 4
  {
    hide Reconstruct;
    SmallPowers();
    ReconstructExact(ScaleOf(0), 4);
    assert ScaleOf(0) == Scale(-4, 7) && Midpoint(7, 4) == 4096;
  }

  /** A silent subframe after a faint history leaves a faint one. */
  lemma FaintSubframe(d: seq<Word>, hist: seq<Word>)
    requires |d| == 40 && Constant(d, 0) && |hist| == 120 && Faint(hist)
    ensures Faint(DecodeSubframe(Encoded(d, hist), hist))
  {
    hide RpeOf, Reconstruct, ScaleOf, LagOf, GainOf, MultR, Qlb, Estimates;
    var p := Encoded(d, hist);
    NoPitch(d, hist);
    FaintResidual(d, hist, 0);
    ZeroBlock(LongTermResidual(d, Estimates(hist, 0, 40)));
    FourDecoded();
    var g := DecodedGrid(p);
    assert forall i :: 0 <= i < 13 ==> g[i] == 4;
    var est := Estimates(hist, p.bc, p.nc);
    forall k | 0 <= k < 40 ensures 0 <= Add(PositionedBlock(p.mc, g)[k], est[k]) <= 4 {
      assert est[k] == 0;
    }
  }

  /** In the middle of a constant block the weighting filter only scales. */
  lemma MiddleWeighted(block: seq<Word>, k: nat)
    requires |block| == 40 && Constant(block, -8000) && 10 <= k <= 20
    ensures WeightedBlock(Padded(block))[k] == -22232
  {
    var e := Padded(block);
    assert e[k] == e[k + 1] == e[k + 3] == e[k + 4] == e[k + 5] == -8000;
    assert e[k + 6] == e[k + 7] == e[k + 9] == e[k + 10] == -8000;
  }

  /** A loud subframe after a faint history is decoded loud. */
  lemma LoudSubframe(d: seq<Word>, hist: seq<Word>) returns (k: nat)
    requires |d| == 40 && Constant(d, -8000) && |hist| == 120 && Faint(hist)
    ensures k < 40 && DecodeSubframe(Encoded(d, hist), hist)[k] <= -5
  {
    hide RpeOf, DecodedGrid, LagOf, GainOf, MultR, Qlb, Estimates, PositionedBlock;
    var p := Encoded(d, hist);
    NoPitch(d, hist);
    FaintResidual(d, hist, -8000);
    LoudBlock(p, LongTermResidual(d, Estimates(hist, 0, 40)));
    k := p.mc as nat + 12;
    assert Estimates(hist, p.bc, p.nc)[k] == 0;
  }

  lemma LoudBlock(p: Subframe, block: seq<Word>)
    requires InWidth(p) && |block| == 40 && Constant(block, -8000) && (p.mc, p.xmaxc, p.xmc) == RpeOf(block)
    ensures PositionedBlock(p.mc, DecodedGrid(p))[p.mc + 12] <= -5
  {
    hide RpeOf, MaxAbs, LevelOf, Code, Reconstruct, ScaleOf, Pow2, Fac, DecodedGrid, PositionedBlock, Positioned;
    var xM := Grid(WeightedBlock(Padded(block)), p.mc);
    CodedAt(p, block, xM, 4);
    LoudInGrid(block, p.mc);
    var s := ScaleOf(p.xmaxc);
    BlockError(xM, 4);
    LoudAnyway(Reconstruct(s, p.xmc[4]), Fac(s.mant), Pow2(6 - s.exp));
    DecodedAt(p, 4);
  }

  lemma LoudInGrid(block: seq<Word>, mc: int)
    requires |block| == 40 && Constant(block, -8000) && 0 <= mc <= 3
    ensures Grid(WeightedBlock(Padded(block)), mc)[4] == -22232
  {
    hide WeightedBlock;
    MiddleWeighted(block, mc + 12);
  }

  lemma LoudAnyway(r: int, fac: int, p: nat)
    requires p >= 1 && fac <= 32767 && (r + 22232) * p <= (fac + 1) / 8 + p
    ensures r <= -5
  {
    MulMono(1, p, 4096);
    CancelFactor(r + 22232, 4098, p);
  }

  /** Three silent subframes and a loud one. */
  function LoudFrame(): (d: seq<Word>)
    ensures |d| == 160
  {
    seq(160, i => if i < 120 then 0 else -8000)
  }

  lemma LoudParts(n: nat)
    requires 1 <= n <= 4
    ensures Constant(LoudFrame()[40 * (n - 1)..40 * n], if n < 4 then 0 else -8000)
  {
  }

  lemma LastOf(d: seq<Word>, hist: seq<Word>, n: nat)
    requires 1 <= n && 40 * n <= |d| && |hist| == 120
    ensures var buf := EncodedAll(d, hist, n - 1).1;
            var p := Encoded(d[40 * (n - 1)..40 * n], Recent(buf));
            EncodedAll(d, hist, n).1 == buf + DecodeSubframe(p, Recent(buf))
  {
    hide Encoded, DecodeSubframe, Recent;
  }

  lemma FaintParts(a: seq<Word>, b: seq<Word>)
    requires Faint(a) && |a| >= 120
    ensures Faint(Recent(a)) && (Faint(b) ==> Faint(a + b))
  {
  }

  lemma NothingCoded(d: seq<Word>, hist: seq<Word>)
    requires |hist| == 120
    ensures EncodedAll(d, hist, 0) == ([], hist)
  {
  }

  lemma SilenceIsFaint()
    ensures Faint(Silence())
  {
  }

  lemma {:induction false} FaintStart(n: nat)
    requires n <= 3
    ensures Faint(EncodedAll(LoudFrame(), Silence(), n).1)
  {
    hide Encoded, DecodeSubframe, EncodedAll, LoudFrame, Recent, Faint, Constant, Silence;
    if n == 0 {
      NothingCoded(LoudFrame(), Silence());
      SilenceIsFaint();
    } else {
      FaintStart(n - 1);
      var d, buf := LoudFrame(), EncodedAll(LoudFrame(), Silence(), n - 1).1;
      LoudParts(n);
      LastOf(d, Silence(), n);
      FaintParts(buf, []);
      var part := d[40 * (n - 1)..40 * n];
      FaintSubframe(part, Recent(buf));
      FaintParts(buf, DecodeSubframe(Encoded(part, Recent(buf)), Recent(buf)));
    }
  }

  /** After this frame a decoder that carries its history over rebuilds no second frame as the encoder did. */
  lemma HistoryIsHeard(second: seq<Word>)
    requires |second| == 160
    ensures var ps := EncodedAll(second, Silence(), 4).0;
            AllInWidth(ps) && !CarriedAgrees(Recent(EncodedAll(LoudFrame(), Silence(), 4).1), ps)
  {
    hide Encoded, DecodeSubframe, LoudFrame, CarriedAgrees, EncodedAll, Constant, Faint;
    var d := LoudFrame();
    var buf, all := EncodedAll(d, Silence(), 3).1, EncodedAll(d, Silence(), 4).1;
    FaintStart(3);
    LoudParts(4);
    LastOf(d, Silence(), 4);
    FaintParts(buf, []);
    var k := LoudSubframe(d[120..160], Recent(buf));
    assert Recent(all)[80 + k] == all[240 + k];
    HeardFromFive(Recent(all), second, k);
  }
}
