/**
 The RPE-LTP loop of gsm_enc_Gsm_Coder: four subframes of 40 residual samples, each coded into five
 parameters, with the reconstructed residual kept in dp0 exactly as a decoder of the parameters would
 rebuild it.
 */
module Coder {
  import opened Arithmetic
  import opened FixedPoint
  import opened Apcm
  import opened Rpe
  import opened Ltp

  /** The parameters of one subframe. */
  datatype Subframe = Subframe(nc: Word, bc: Word, mc: Word, xmaxc: Word, xmc: seq<Word>)

  /** Every parameter is within its field of the frame: 7, 2, 2, 6 and 13 times 3 bits. */
  ghost predicate InWidth(p: Subframe) {
    && 40 <= p.nc <= 120 && 0 <= p.bc <= 3 && 0 <= p.mc <= 3 && 0 <= p.xmaxc <= 63
    && |p.xmc| == 13 && forall i :: 0 <= i < 13 ==> 0 <= p.xmc[i] <= 7
  }

  // ---------------------------------------------------------------- what a decoder does

  function DecodedGrid(p: Subframe): (r: seq<Word>)
    requires InWidth(p)
    ensures |r| == 13
  {
    seq(13, i requires 0 <= i < 13 => Reconstruct(ScaleOf(p.xmaxc), p.xmc[i]))
  }

  function Sums(a: seq<Word>, b: seq<Word>): (r: seq<Word>)
    requires |a| == |b| == 40
    ensures |r| == 40
  {
    seq(40, k requires 0 <= k < 40 => Add(a[k], b[k]))
  }

  /** The residual a decoder rebuilds from one subframe and the 120 samples before it. */
  function DecodeSubframe(p: Subframe, hist: seq<Word>): (r: seq<Word>)
    requires InWidth(p) && |hist| == 120
    ensures |r| == 40
  {
    Sums(PositionedBlock(p.mc, DecodedGrid(p)), Estimates(hist, p.bc, p.nc))
  }

  /** The history extended by the decoded subframes. */
  function DecodeAll(hist: seq<Word>, ps: seq<Subframe>): (r: seq<Word>)
    requires |hist| == 120 && forall i :: 0 <= i < |ps| ==> InWidth(ps[i])
    ensures |r| == 120 + 40 * |ps|
  {
    if |ps| == 0 then hist
    else
      var last := |ps| - 1;
      var r := DecodeAll(hist, ps[..last]);
      r + DecodeSubframe(ps[last], Recent(r))
  }

  // ---------------------------------------------------------------- what the encoder chooses

  /** A block between five zeros on either side, as the static array e holds it. */
  function Padded(block: seq<Word>): (r: seq<Word>)
    requires |block| == 40
    ensures |r| == 50
  {
    seq(50, i requires 0 <= i < 50 => if 5 <= i < 45 then block[i - 5] else 0)
  }

  function WeightedBlock(e: seq<Word>): (r: seq<Word>)
    requires |e| == 50
    ensures |r| == 40
  {
    seq(40, k requires 0 <= k < 40 => Weighted(e, k))
  }

  function Grid(x: seq<Word>, mc: int): (r: seq<Word>)
    requires |x| == 40 && 0 <= mc <= 3
    ensures |r| == 13
  {
    seq(13, i requires 0 <= i < 13 => x[mc + 3 * i])
  }

  function Codes(s: Scale, xM: seq<Word>): (r: seq<Word>)
    requires InBounds(s) && |xM| == 13 && Fits(s, MaxAbs(xM))
    ensures |r| == 13 && forall i :: 0 <= i < 13 ==> 0 <= r[i] <= 7
  {
    seq(13, i requires 0 <= i < 13 => BoundedCode(s, MaxAbs(xM), xM[i]))
  }

  function BoundedCode(s: Scale, xmax: Word, x: Word): (c: Word)
    requires InBounds(s) && Abs(x) <= xmax && Fits(s, xmax)
    ensures 0 <= c <= 7
  {
    QuantizationError(s, xmax, x);
    Code(s, x)
  }

  /** The RPE parameters of a block: first grid of maximal energy of the weighted block, lowest sufficient
      level, each sample's code. */
  function RpeOf(block: seq<Word>): (r: (Word, Word, seq<Word>))
    requires |block| == 40
    ensures 0 <= r.0 <= 3 && 0 <= r.1 <= 63 && |r.2| == 13 && forall i :: 0 <= i < 13 ==> 0 <= r.2[i] <= 7
  {
    var x := WeightedBlock(Padded(block));
    var xM := Grid(x, GridOf(x));
    var xmaxc := LevelOf(MaxAbs(xM));
    (GridOf(x), xmaxc, Codes(ScaleOf(xmaxc), xM))
  }

  /** The parameters of a subframe: LTP parameters that fit residual `d` to its history, and RPE parameters
      of what they leave. */
  function Encoded(d: seq<Word>, hist: seq<Word>): (p: Subframe)
    requires |d| == 40 && |hist| == 120
    ensures InWidth(p)
  {
    var nc, bc := LagOf(d, hist), GainOf(d, hist);
    var (mc, xmaxc, xmc) := RpeOf(LongTermResidual(d, Estimates(hist, bc, nc)));
    Subframe(nc, bc, mc, xmaxc, xmc)
  }

  /** The parameters of the first `n` subframes, each coded against what has been rebuilt so far, and the
      history extended by what a decoder makes of them. */
  function EncodedAll(d: seq<Word>, hist: seq<Word>, n: nat): (r: (seq<Subframe>, seq<Word>))
    requires 40 * n <= |d| && |hist| == 120
    ensures |r.0| == n && |r.1| == 120 + 40 * n
  {
    if n == 0 then ([], hist)
    else
      var (ps, buf) := EncodedAll(d, hist, n - 1);
      var p := Encoded(d[40 * (n - 1)..40 * n], Recent(buf));
      (ps + [p], buf + DecodeSubframe(p, Recent(buf)))
  }

  /** What is rebuilt is a function of the history and the parameters alone: encoder and decoder stay in
      step. */
  lemma {:induction false} InStep(d: seq<Word>, hist: seq<Word>, n: nat)
    requires 40 * n <= |d| && |hist| == 120
    ensures var (ps, buf) := EncodedAll(d, hist, n);
            (forall i :: 0 <= i < n ==> InWidth(ps[i])) && buf == DecodeAll(hist, ps)
  {
    hide Encoded, DecodeSubframe, InWidth;
    if n > 0 {
      InStep(d, hist, n - 1);
      var (ps, buf) := EncodedAll(d, hist, n - 1);
      var (qs, _) := EncodedAll(d, hist, n);
      assert qs[..n - 1] == ps;
    }
  }

  // ---------------------------------------------------------------- what a decoder gets back

  /** What the coding of a block says of sample `i` of its grid. */
  lemma CodedAt(p: Subframe, block: seq<Word>, xM: seq<Word>, i: nat)
    requires InWidth(p) && |block| == 40 && (p.mc, p.xmaxc, p.xmc) == RpeOf(block) && i < 13
    requires xM == Grid(WeightedBlock(Padded(block)), p.mc)
    ensures p.xmaxc == LevelOf(MaxAbs(xM)) && p.xmc[i] == Code(ScaleOf(p.xmaxc), xM[i])
  {
    hide GridOf, LevelOf, MaxAbs, Code, ScaleOf, WeightedBlock, Grid;
  }

  lemma DecodedAt(p: Subframe, i: nat)
    requires InWidth(p) && i < 13
    ensures PositionedBlock(p.mc, DecodedGrid(p))[p.mc + 3 * i] == Reconstruct(ScaleOf(p.xmaxc), p.xmc[i])
  {
    hide Reconstruct, ScaleOf, Positioned;
    GridAt(p.mc, DecodedGrid(p), i);
  }

  /** Saturation brings no two numbers further apart. */
  lemma ClampCloser(u: int, v: int, q: nat, b: int)
    requires -b <= (u - v) * q <= b
    ensures -b <= (Clamp(u) - Clamp(v)) * q <= b
  {
    if u <= v {
      MulMono(u - v, Clamp(u) - Clamp(v), q);
      MulMono(Clamp(u) - Clamp(v), 0, q);
    } else {
      MulMono(Clamp(u) - Clamp(v), u - v, q);
      MulMono(0, Clamp(u) - Clamp(v), q);
    }
  }

  /** The weighted long term residual of a subframe. */
  ghost function WeightedResidual(d: seq<Word>, hist: seq<Word>): (x: seq<Word>)
    requires |d| == 40 && |hist| == 120
    ensures |x| == 40
  {
    WeightedBlock(Padded(LongTermResidual(d, Estimates(hist, GainOf(d, hist), LagOf(d, hist)))))
  }

  /** At sample `i` of the chosen grid a decoder gets the estimate plus the weighted residual, saturated, to
      within the error of the block quantizer. */
  lemma OnTheGrid(d: seq<Word>, hist: seq<Word>, i: nat)
    requires |d| == 40 && |hist| == 120 && i < 13
    ensures var p := Encoded(d, hist);
            var k, s := p.mc + 3 * i, ScaleOf(p.xmaxc);
            var q := Pow2(6 - s.exp);
            var want := Clamp(Estimates(hist, p.bc, p.nc)[k] as int + WeightedResidual(d, hist)[k] as int);
            -((Fac(s.mant) + 1) / 8 + q) <= (DecodeSubframe(p, hist)[k] - want) * q <= (Fac(s.mant) + 1) / 8 + q
  {
    hide RpeOf, GridOf, LevelOf, MaxAbs, Code, ScaleOf, WeightedBlock, Padded, Reconstruct, Fac, Pow2, Clamp, Estimates,
      LagOf, GainOf, LongTermResidual, PositionedBlock, DecodedGrid;
    var p := Encoded(d, hist);
    var est := Estimates(hist, p.bc, p.nc);
    var block, x := LongTermResidual(d, est), WeightedResidual(d, hist);
    var xM, k, s := Grid(x, p.mc), p.mc + 3 * i, ScaleOf(p.xmaxc);
    CodedAt(p, block, xM, i);
    DecodedAt(p, i);
    BlockError(xM, i);
    var r := Reconstruct(s, p.xmc[i]);
    ClampCloser(r as int + est[k] as int, est[k] as int + x[k] as int, Pow2(6 - s.exp),
                (Fac(s.mant) + 1) / 8 + Pow2(6 - s.exp));
  }

  /** Off the grid it gets the estimate alone. */
  lemma OffTheGrid(p: Subframe, hist: seq<Word>, k: nat)
    requires InWidth(p) && |hist| == 120 && k < 40 && forall i :: 0 <= i < 13 ==> k != p.mc + 3 * i
    ensures DecodeSubframe(p, hist)[k] == Estimates(hist, p.bc, p.nc)[k]
  {
    hide Estimates, DecodedGrid;
    GridReadBack(p.mc, DecodedGrid(p), k);
  }

  /** The last 120 reconstructed samples. */
  function Recent(buf: seq<Word>): (r: seq<Word>)
    requires |buf| >= 120
    ensures |r| == 120
  {
    buf[|buf| - 120..]
  }

  ghost predicate ZeroMargins(e: seq<Word>)
    requires |e| == 50
  {
    forall i :: 0 <= i < 50 && !(5 <= i < 45) ==> e[i] == 0
  }

  /** The coding half of RPE encoding. */
  method RpeAnalysis(e: array<Word>) returns (mant: Word, exp: Word, xmaxc: Word, mc: Word, xMc: array<Word>)
    requires e.Length == 50 && ZeroMargins(e[..])
    ensures fresh(xMc) && xMc.Length == 13 && (mc, xmaxc, xMc[..]) == RpeOf(e[5..45])
    ensures Scale(exp, mant) == ScaleOf(xmaxc)
  {
    hide Weighted, GridOf, LevelOf, MaxAbs, ScaleOf, Code, Fits;
    var x, xM := new Word[40], new Word[13];
    xMc := new Word[13];
    assert e[..] == Padded(e[5..45]);
    WeightingFilter(e, x);
    assert x[..] == WeightedBlock(Padded(e[5..45]));
    mc := GridSelection(x, xM);
    assert xM[..] == Grid(x[..], mc);
    mant, exp, xmaxc := Quantize(xM, xMc);
    assert xMc[..] == Codes(ScaleOf(xmaxc), xM[..]);
  }

  /** gsm_enc_Gsm_RPE_Encoding: codes e and leaves the decoded samples in it. */
  method RpeEncoding(e: array<Word>) returns (xmaxc: Word, mc: Word, xmc: seq<Word>)
    requires e.Length == 50 && ZeroMargins(e[..])
    modifies e
    ensures (mc, xmaxc, xmc) == RpeOf(old(e[5..45]))
    ensures e[5..45] == PositionedBlock(mc, DecodedGrid(Subframe(40, 0, mc, xmaxc, xmc)))
    ensures ZeroMargins(e[..])
  {
    var mant, exp, xMc;
    mant, exp, xmaxc, mc, xMc := RpeAnalysis(e);
    xmc := xMc[..];
    var xMp := new Word[13];
    InverseQuantize(xMc, mant, exp, xMp);
    ghost var grid := xMp[..];
    assert grid == DecodedGrid(Subframe(40, 0, mc, xmaxc, xmc));
    GridPositioning(mc, xMp, e);
    assert xMp[..] == grid;
  }

  /** One round of the coder's loop, dp and dpp both at dp0[base..]: afterwards dp0[base..base+40] is what a
      decoder makes of the parameters. */
  method EncodeSubframe(d: seq<Word>, dp0: array<Word>, base: nat, e: array<Word>) returns (p: Subframe)
    requires |d| == 40 && 120 <= base && base + 40 <= dp0.Length
    requires e.Length == 50 && e != dp0 && ZeroMargins(e[..])
    modifies dp0, e
    ensures p == Encoded(d, old(dp0[base - 120..base]))
    ensures dp0[base..base + 40] == DecodeSubframe(p, old(dp0[base - 120..base]))
    ensures dp0[..base] == old(dp0[..base]) && dp0[base + 40..] == old(dp0[base + 40..])
    ensures ZeroMargins(e[..])
  {
    var bc, nc := Parameters(d, dp0[base - 120..base]);
    AnalysisFilter(bc, nc, dp0, base, d, e);
    assert ZeroMargins(e[..]);
    var xmaxc, mc, xmc := RpeEncoding(e);
    p := Subframe(nc, bc, mc, xmaxc, xmc);
    UpdateResidual(dp0, base, e);
    assert DecodedGrid(p) == DecodedGrid(Subframe(40, 0, mc, xmaxc, xmc));
  }

  /** The inlined update of the reconstructed residual. */
  method UpdateResidual(dp0: array<Word>, base: nat, e: array<Word>)
    requires base + 40 <= dp0.Length && e.Length == 50 && e != dp0
    modifies dp0
    ensures dp0[base..base + 40] == Sums(e[5..45], old(dp0[base..base + 40]))
    ensures dp0[..base] == old(dp0[..base]) && dp0[base + 40..] == old(dp0[base + 40..])
  {
    for i := 0 to 40
      invariant forall j :: 0 <= j < dp0.Length ==>
                  dp0[j] == if base <= j < base + i then Add(e[5 + j - base], old(dp0[j])) else old(dp0[j])
    {
      dp0[base + i] := Add(e[5 + i], dp0[base + i]);
    }
  }

  lemma PrefixGrows<T>(s: seq<T>, m: nat, n: nat)
    requires m + n <= |s|
    ensures s[..m + n] == s[..m] + s[m..m + n]
  {
  }

  /** The coder's loop over the four subframes. */
  method EncodeFrame(d: seq<Word>, dp0: array<Word>, e: array<Word>) returns (ps: seq<Subframe>)
    requires |d| == 160 && dp0.Length == 280
    requires e.Length == 50 && e != dp0 && ZeroMargins(e[..])
    modifies dp0, e
    ensures (ps, dp0[..]) == EncodedAll(d, old(dp0[..120]), |d| / 40)
    ensures ZeroMargins(e[..])
  {
    hide Encoded, DecodeSubframe;
    ghost var hist := dp0[..120];
    ps := [];
    for k := 0 to 4
      invariant (ps, dp0[..120 + 40 * k]) == EncodedAll(d, hist, k)
      invariant ZeroMargins(e[..])
    {
      ps := EncodeNext(k, ps, d, hist, dp0, e);
    }
    assert dp0[..280] == dp0[..];
  }

  /** One round of that loop. */
  method EncodeNext(k: nat, ps: seq<Subframe>, d: seq<Word>, ghost hist: seq<Word>, dp0: array<Word>, e: array<Word>)
    returns (ps': seq<Subframe>)
    requires k < 4 && |d| == 160 && dp0.Length == 280 && |hist| == 120
    requires (ps, dp0[..120 + 40 * k]) == EncodedAll(d, hist, k)
    requires e.Length == 50 && e != dp0 && ZeroMargins(e[..])
    modifies dp0, e
    ensures (ps', dp0[..120 + 40 * (k + 1)]) == EncodedAll(d, hist, k + 1)
    ensures ZeroMargins(e[..])
  {
    hide Encoded, DecodeSubframe;
    var base := 120 + 40 * k;
    ghost var buf := dp0[..base];
    assert dp0[base - 120..base] == Recent(buf);
    var p := EncodeSubframe(d[40 * k..40 * (k + 1)], dp0, base, e);
    ps' := ps + [p];
    PrefixGrows(dp0[..], base, 40);
    assert dp0[..base + 40] == buf + dp0[base..base + 40];
  }
}
