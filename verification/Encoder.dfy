/**
 gsm_enc_encode from the autocorrelations and the short-term residual of each frame to its 33 bytes, for a
 whole run of frames: what a decoder reads from the bytes is what the encoder computed, and rebuilds the
 encoder's own residual.
 */
module Encoder {
  import opened FixedPoint
  import opened Lpc
  import opened Coder
  import opened Frame

  /** The coefficients of gsm_enc_Gsm_LPC_Analysis: all zero for a silent frame. */
  function ReflectionsOf(acf: seq<Longword>): (r: seq<Word>)
    requires |acf| == 9
    ensures |r| == 8 && forall i :: 0 <= i < 8 ==> -32767 <= r[i]
  {
    if acf[0] == 0 then seq(8, _ => 0)
    else
      var p := NormalizedAll(acf);
      Reflections(p, p[0 := 0][8 := 0], 1)
  }

  /** The code of coefficient `i`. */
  function LarCode(r: Word, i: nat): int
    requires -32767 <= r && i < 8
  {
    CodeOf(Table(i), LogAreaRatio(r))
  }

  /** gsm_enc_Gsm_LPC_Analysis after the autocorrelation. */
  method LpcCodes(acf: seq<Longword>, larc: array<Word>)
    requires |acf| == 9 && larc.Length == 8
    modifies larc
    ensures LarcInWidth(larc[..]) && forall i :: 0 <= i < 8 ==> larc[i] == LarCode(ReflectionsOf(acf)[i], i)
  {
    hide LogAreaRatio, CodeOf, Reflections, CodeCount, Table;
    ReflectionCoefficients(acf, larc);
    ghost var r := ReflectionsOf(acf);
    assert larc[..] == r;
    assert forall i :: 0 <= i < 8 ==> larc[i] == r[i];
    ToLogAreaRatios(larc);
    QuantizeAndCode(larc);
  }

  /** What a frame of bytes holds when it was coded against `hist`: the codes and the subframes. */
  ghost predicate Carries(c: seq<int>, acf: seq<Longword>, d: seq<Word>, hist: seq<Word>)
    requires |acf| == 9 && |d| == 160 && |hist| == 120
  {
    && |c| == 33 && ReadBits(c, 0, 4) == 13
    && (forall i :: 0 <= i < 8 ==> UnpackLarc(c)[i] == LarCode(ReflectionsOf(acf)[i], i))
    && UnpackSubs(c, 40, 4) == EncodedAll(d, hist, 4).0
  }

  /** A decoder that holds `hist` rebuilds `buf` from a frame of bytes. */
  ghost predicate Rebuilds(c: seq<int>, hist: seq<Word>, buf: seq<Word>)
    requires |c| == 33 && |hist| == 120
  {
    AllInWidth(UnpackSubs(c, 40, 4)) && buf == DecodeAll(hist, UnpackSubs(c, 40, 4))
  }

  /** The first 120 samples of the buffer are the history, whatever is coded. */
  lemma {:induction false} HistoryKept(d: seq<Word>, hist: seq<Word>, n: nat)
    requires 40 * n <= |d| && |hist| == 120
    ensures EncodedAll(d, hist, n).1[..120] == hist
  {
    hide Encoded, DecodeSubframe;
    if n > 0 {
      HistoryKept(d, hist, n - 1);
    }
  }

  /** One frame. */
  method EncodeOne(acf: seq<Longword>, d: seq<Word>,
                   larc: array<Word>, dp0: array<Word>, e: array<Word>, c: array<int>)
    requires |acf| == 9 && |d| == 160 && larc.Length == 8 && dp0.Length == 280 && c.Length == 33
    requires e.Length == 50 && e != dp0 && larc != e && larc != dp0 && ZeroMargins(e[..])
    modifies larc, dp0, e, c
    ensures Carries(c[..], acf, d, old(dp0[..120])) && Rebuilds(c[..], old(dp0[..120]), dp0[..])
    ensures dp0[..120] == old(dp0[..120]) && ZeroMargins(e[..])
  {
    hide Encoded, DecodeSubframe, LarCode, ReflectionsOf, EncodedAll, DecodeAll;
    hide UnpackSubs, UnpackLarc, ReadBits, Packed;
    ghost var hist := dp0[..120];
    LpcCodes(acf, larc);
    ghost var l := larc[..];
    var ps := EncodeFrame(d, dp0, e);
    InStep(d, hist, |d| / 40);
    HistoryKept(d, hist, |d| / 40);
    assert dp0[..][..120] == dp0[..120];
    PackFrame(larc, ps, c);
    PackingIsLossless(l, ps);
  }

  /** The history a cleared state holds. */
  function Silence(): (r: seq<Word>)
    ensures |r| == 120
  {
    seq(120, _ => 0)
  }

  /** gsm_enc_init and gsm_enc_main for any number of frames.  The last 120 samples of a frame are never copied
      to the front of the buffer, so every frame of a run is coded against silence.  `bufs` are the contents of
      the buffer after each frame. */
  method EncodeRun(acfs: seq<seq<Longword>>, ds: seq<seq<Word>>)
    returns (frames: seq<seq<int>>, ghost bufs: seq<seq<Word>>)
    requires |acfs| == |ds|
    requires forall k :: 0 <= k < |ds| ==> |acfs[k]| == 9 && |ds[k]| == 160
    ensures |frames| == |bufs| == |ds|
    ensures forall k :: 0 <= k < |ds| ==> Carries(frames[k], acfs[k], ds[k], Silence())
    ensures forall k :: 0 <= k < |ds| ==> |frames[k]| == 33 && Rebuilds(frames[k], Silence(), bufs[k])
  {
    hide Carries, Rebuilds;
    var dp0, e := new Word[280](_ => 0), new Word[50](_ => 0);
    var larc, c := new Word[8](_ => 0), new int[33](_ => 0);
    frames, bufs := [], [];
    assert dp0[..120] == Silence();
    for k := 0 to |ds|
      invariant dp0[..120] == Silence() && ZeroMargins(e[..])
      invariant |frames| == |bufs| == k
      invariant forall j :: 0 <= j < k ==> Carries(frames[j], acfs[j], ds[j], Silence())
      invariant forall j :: 0 <= j < k ==> |frames[j]| == 33 && Rebuilds(frames[j], Silence(), bufs[j])
    {
      EncodeOne(acfs[k], ds[k], larc, dp0, e, c);
      frames, bufs := frames + [c[..]], bufs + [dp0[..]];
    }
  }
}
