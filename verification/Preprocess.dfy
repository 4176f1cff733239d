/**
 Sections 4.2.1 to 4.2.3 of GSM 06.10: downscaling, offset compensation and preemphasis, with the filter
 state carried from sample to sample and from frame to frame.
 */
module Preprocess {
  import opened FixedPoint

  /** gsm_state's z1, L_z2 and mp. */
  datatype Filter = Filter(z1: Word, z2: Longword, mp: Word)

  const ZERO: Filter := Filter(0, 0, 0)

  /** How far the recursive state may be from the last downscaled sample: 2^29. */
  ghost predicate Inv(f: Filter) {
    && -16384 <= f.z1 <= 16380
    && -0x2000_0000 <= f.z2 - f.z1 * 32768 <= 0x2000_0000
  }

  function Downscaled(sample: Word): (r: Word)
    ensures -16384 <= r <= 16380
    ensures 0 <= sample - 2 * r < 8 && r % 4 == 0
  {
    sample / 8 * 4
  }

  /** The decaying part of the recursion: z2 * 32735/32768, in two halves. */
  function Decayed(z2: int): int {
    z2 / 32768 * 32735 + (z2 % 32768 * 32735 + 16384) / 32768
  }

  /** The filter after one sample, in unbounded integers. */
  function Next(f: Filter, sample: Word): (r: Filter)
    requires Inv(f)
    ensures Inv(r)
  {
    var so := Downscaled(sample);
    DecayBound(f, so);
    var z2 := (so - f.z1) * 32768 + Decayed(f.z2);
    Filter(so, z2, (z2 + 16384) / 32768)
  }

  /** The output for one sample. */
  function Output(f: Filter, sample: Word): Word
    requires Inv(f)
  {
    Add(Next(f, sample).mp, MultR(f.mp, -28180))
  }

  /** One step of the recursion stays within 2^29 of the new sample, hence within 2^30. */
  lemma DecayBound(f: Filter, so: Word)
    requires Inv(f) && -16384 <= so <= 16380
    ensures var z2 := (so - f.z1) * 32768 + Decayed(f.z2);
            && -0x2000_0000 <= z2 - so * 32768 <= 0x2000_0000
            && -0x4000_0000 <= z2 < 0x4000_0000
            && -32768 <= (z2 + 16384) / 32768 <= 32767
  {
    DecayedExact(f.z2);
  }

  /** The two-halves product is the exact one rounded to nearest. */
  lemma DecayedExact(z2: int)
    ensures -16384 <= Decayed(z2) * 32768 - z2 * 32735 <= 16384
  {
    var hi, lo := z2 / 32768, z2 % 32768;
    assert z2 == hi * 32768 + lo;
    assert Decayed(z2) * 32768 - z2 * 32735 == (lo * 32735 + 16384) / 32768 * 32768 - lo * 32735;
  }

  function Run(f: Filter, samples: seq<Word>): (r: Filter)
    requires Inv(f)
    ensures Inv(r)
  {
    if |samples| == 0 then f
    else Next(Run(f, samples[..|samples| - 1]), samples[|samples| - 1])
  }

  /** gsm_state, as far as preprocessing goes. */
  /** Frame after frame is one stream. */
  lemma {:induction false} RunAppends(f: Filter, a: seq<Word>, b: seq<Word>)
    requires Inv(f)
    ensures Run(Run(f, a), b) == Run(f, a + b)
  {
    hide Next, Inv;
    if |b| == 0 {
      assert a + b == a;
    } else {
      var c := b[..|b| - 1];
      RunAppends(f, a, c);
      assert (a + b)[..|a + b| - 1] == a + c;
    }
  }

  class State {
    var z1: Word
    var z2: Longword
    var mp: Word

    ghost function Value(): Filter
      reads this
    {
      Filter(z1, z2, mp)
    }

    /** gsm_enc_create zeroes the state. */
    constructor ()
      ensures Value() == ZERO && Inv(Value())
    {
      z1, z2, mp := 0, 0, 0;
    }

    /** One round of the loop.  Every narrowing to a word is a proof obligation here, and the saturating
        GSM_L_ADD gives the same as the unbounded sum. */
    static method Sample(z1: Word, z2: Longword, mp: Word, s: Word)
      returns (z1': Word, z2': Longword, mp': Word, so: Word)
      requires Inv(Filter(z1, z2, mp))
      ensures Filter(z1', z2', mp') == Next(Filter(z1, z2, mp), s)
      ensures so == Output(Filter(z1, z2, mp), s)
    {
      DecayBound(Filter(z1, z2, mp), Downscaled(s));
      var x: Word := s / 8 * 4;
      var s1: Word := x - z1;
      z1' := x;
      var s2: Longword := s1 * 32768;
      var msp: Word := z2 / 32768;
      var lsp: Word := z2 - msp * 32768;
      assert 0 <= lsp == z2 % 32768;
      s2 := s2 + MultR(lsp, 32735);
      var temp: Longword := msp * 32735;
      z2' := LAdd(temp, s2);
      assert z2' == temp + s2;
      temp := LAdd(z2', 16384);
      msp := MultR(mp, -28180);
      mp' := temp / 32768;
      so := Add(mp', msp);
    }

    /** gsm_enc_Gsm_Preprocess on one frame. */
    method Frame(s: array<Word>, so: array<Word>)
      requires s.Length == so.Length == 160 && s != so && Inv(Value())
      modifies this, so
      ensures Inv(Value()) && Value() == Run(old(Value()), s[..])
      ensures forall k :: 0 <= k < 160 ==> so[k] == Output(Run(old(Value()), s[..k]), s[k])
    {
      hide Next, Output, Inv;
      ghost var f0 := Value();
      var z1: Word, z2: Longword, mp: Word := this.z1, this.z2, this.mp;
      for k := 0 to 160
        invariant Inv(Filter(z1, z2, mp)) && Filter(z1, z2, mp) == Run(f0, s[..k])
        invariant forall i :: 0 <= i < k ==> so[i] == Output(Run(f0, s[..i]), s[i])
        modifies so
      {
        assert s[..k + 1][..k] == s[..k];
        var out;
        z1, z2, mp, out := Sample(z1, z2, mp, s[k]);
        so[k] := out;
      }
      assert s[..160] == s[..];
      this.z1, this.z2, this.mp := z1, z2, mp;
    }
  }

  // ---------------------------------------------------------------- against the ideal filter

  /** The filter's recursion in real arithmetic: Z' = 2^15 (x' - x) + (32735/32768) Z. */
  ghost function Ideal(samples: seq<Word>): real {
    if |samples| == 0 then 0.0
    else
      var last := |samples| - 1;
      ((Downscaled(samples[last]) - PreviousSample(samples[..last])) * 32768) as real
      + Ideal(samples[..last]) * 32735.0 / 32768.0
  }

  ghost function PreviousSample(samples: seq<Word>): int {
    if |samples| == 0 then 0 else Downscaled(samples[|samples| - 1])
  }

  ghost predicate Within(x: real, y: real, d: real) { -d <= x - y <= d }

  /** Over every stream from the zero state, rounding never accumulates: the integer recursion stays
      within 16384/33 (less than 500 of its 2^15 units per output step) of the ideal one. */
  lemma {:induction false} TracksIdeal(samples: seq<Word>)
    ensures Run(ZERO, samples).z1 == PreviousSample(samples)
    ensures Within(Run(ZERO, samples).z2 as real, Ideal(samples), 16384.0 / 33.0)
  {
    if |samples| > 0 {
      var last := |samples| - 1;
      TracksIdeal(samples[..last]);
      DecayedExact(Run(ZERO, samples[..last]).z2);
    }
  }

  /** Hence the offset-free sample is the ideal one rounded, to within 1/66 of an output step. */
  lemma OutputTracksIdeal(samples: seq<Word>)
    requires |samples| > 0
    ensures Within((Run(ZERO, samples).mp * 32768) as real, Ideal(samples), 16384.0 + 16384.0 / 33.0)
  {
    TracksIdeal(samples);
  }

  // ---------------------------------------------------------------- the sample put out

  /** The nearest value of the 16-bit range. */
  ghost function Saturated(x: real): real {
    if x < -32768.0 then -32768.0 else if x > 32767.0 then 32767.0 else x
  }

  /** Preemphasis in real arithmetic: y[k] - (28180/32768) y[k-1] with y the ideal offset-free signal. */
  ghost function Emphasized(samples: seq<Word>): real
    requires |samples| > 0
  {
    Ideal(samples) / 32768.0 - 28180.0 / 32768.0 * (Ideal(samples[..|samples| - 1]) / 32768.0)
  }

  /** Saturation brings no two values further apart. */
  lemma SaturatedSum(a: Word, b: Word, z: real, d: real)
    requires Within((a + b) as real, z, d)
    ensures Within(Add(a, b) as real, Saturated(z), d)
  {
  }

  /** Every sample put out, over every stream from the zero state, is the ideal preemphasized one to
      within one and a half output steps, the ideal one taken at the 16-bit limit it exceeds. */
  lemma EmphasisTracksIdeal(samples: seq<Word>)
    requires |samples| > 0
    ensures var before := samples[..|samples| - 1];
            Within(Output(Run(ZERO, before), samples[|samples| - 1]) as real, Saturated(Emphasized(samples)), 1.5)
  {
    var last := |samples| - 1;
    var f := Run(ZERO, samples[..last]);
    var g := Next(f, samples[last]);
    OutputTracksIdeal(samples);
    if last > 0 {
      OutputTracksIdeal(samples[..last]);
    }
    SaturatedSum(g.mp, MultR(f.mp, -28180), Emphasized(samples), 1.5);
  }
}
