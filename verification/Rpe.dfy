/** Sections 4.2.13, 4.2.14 and 4.2.17 of GSM 06.10: weighting filter, RPE grid selection and positioning. */
module Rpe {
  import opened Arithmetic
  import opened FixedPoint

  // ---------------------------------------------------------------- weighting filter

  /** One product of the convolution, at 32 bits. */
  function Step(x: int, h: int): int { x * h }

  /** The impulse response convolved with e[k..k+11], times 2^13. */
  function Convolved(e: seq<Word>, k: nat): int
    requires k + 10 < |e|
  {
    Step(e[k], -134) + Step(e[k + 1], -374) + Step(e[k + 3], 2054) + Step(e[k + 4], 5741) + Step(e[k + 5], 8192)
    + Step(e[k + 6], 5741) + Step(e[k + 7], 2054) + Step(e[k + 9], -374) + Step(e[k + 10], -134)
  }

  function Weighted(e: seq<Word>, k: nat): Word
    requires k + 10 < |e|
  {
    Clamp((Convolved(e, k) + 4096) / 8192)
  }

  /** gsm_enc_Weighting_filter: the 32-bit accumulator does not overflow. */
  method WeightingFilter(e: array<Word>, x: array<Word>)
    requires e.Length == 50 && x.Length == 40 && e != x
    modifies x
    ensures forall k :: 0 <= k < 40 ==> x[k] == Weighted(e[..], k)
  {
    for k := 0 to 40
      invariant forall i :: 0 <= i < k ==> x[i] == Weighted(e[..], i)
    {
      var result: Longword := 4096;
      result := result + Step(e[k], -134) + Step(e[k + 1], -374) + Step(e[k + 3], 2054);
      result := result + Step(e[k + 4], 5741) + Step(e[k + 5], 8192) + Step(e[k + 6], 5741);
      result := result + Step(e[k + 7], 2054) + Step(e[k + 9], -374) + Step(e[k + 10], -134);
      result := result / 8192;
      x[k] := if result < -32768 then -32768 else if result > 32767 then 32767 else result;
    }
  }

  /** The filter has linear phase: a reversed input gives the reversed output. */
  lemma LinearPhase(e: seq<Word>, r: seq<Word>, k: nat)
    requires |e| == |r| == 50 && k < 40
    requires forall i :: 0 <= i < 50 ==> r[i] == e[49 - i]
    ensures Weighted(r, k) == Weighted(e, 39 - k)
  {
    assert Convolved(r, k) == Convolved(e, 39 - k);
  }

  /** Table 4.4 of GSM 06.10: the impulse response of the weighting filter, times 2^13. */
  const H: seq<int> := [-134, -374, 0, 2054, 5741, 8192, 5741, 2054, 0, -374, -134]

  /** The answer to a block whose only sample is `a`, at index `j` of the 40: at `k` the product of `a` with
      entry 5 + j - k of the table, rounded, and nothing further away than five samples. */
  lemma ImpulseResponse(e: seq<Word>, a: int, j: nat, k: nat)
    requires |e| == 50 && j < 40 && k < 40
    requires forall i :: 0 <= i < 50 ==> e[i] == if i == 5 + j then a else 0
    ensures Weighted(e, k) == if 0 <= 5 + j - k <= 10 then Clamp((a * H[5 + j - k] + 4096) / 8192) else 0
  {
    assert Convolved(e, k) == if 0 <= 5 + j - k <= 10 then a * H[5 + j - k] else 0;
  }

  /** The sum of two blocks is answered by the sum of the answers, before rounding. */
  lemma Superposition(a: seq<Word>, b: seq<Word>, e: seq<Word>, k: nat)
    requires |a| == |b| == |e| == 50 && k < 40
    requires forall i :: 0 <= i < 50 ==> e[i] as int == a[i] as int + b[i] as int
    ensures Convolved(e, k) == Convolved(a, k) + Convolved(b, k)
  {
  }

  // ---------------------------------------------------------------- grid selection

  function Square(x: Word): (r: nat)
    ensures r <= 0x400_0000
  {
    NatProduct(if x < 0 then -(x / 4) else x / 4, if x < 0 then -(x / 4) else x / 4, 8192, 8192);
    (x / 4) * (x / 4)
  }

  /** Half the energy of the first `n` samples of grid `m`. */
  function Energy(x: seq<Word>, m: nat, n: nat): (r: nat)
    requires |x| == 40 && (n > 0 ==> m + 3 * (n - 1) < 40)
    ensures r <= n * 0x400_0000
  {
    if n == 0 then 0 else Energy(x, m, n - 1) + Square(x[m + 3 * (n - 1)])
  }

  /** Grids 0 and 3 share all but one sample each. */
  lemma {:induction false} SharedEnergy(x: seq<Word>, n: nat)
    requires |x| == 40 && n <= 12
    ensures Energy(x, 0, n + 1) == Square(x[0]) + Energy(x, 3, n)
  {
    if n > 0 {
      SharedEnergy(x, n - 1);
      assert 3 * n == 3 + 3 * (n - 1);
    } else {
      assert Energy(x, 0, 1) == Energy(x, 0, 0) + Square(x[0]);
    }
  }

  /** Grid `mc` is the first of maximal energy. */
  ghost predicate FirstLargest(x: seq<Word>, mc: nat)
    requires |x| == 40
  {
    && mc <= 3
    && (forall m: nat :: m <= 3 ==> Energy(x, m, 13) <= Energy(x, mc, 13))
    && (forall m: nat :: m < mc ==> Energy(x, m, 13) < Energy(x, mc, 13))
  }

  function GridOf(x: seq<Word>): (mc: Word)
    requires |x| == 40
    ensures 0 <= mc && FirstLargest(x, mc)
  {
    var e0, e1, e2, e3 := Energy(x, 0, 13), Energy(x, 1, 13), Energy(x, 2, 13), Energy(x, 3, 13);
    if e0 >= e1 && e0 >= e2 && e0 >= e3 then 0
    else if e1 >= e2 && e1 >= e3 then 1
    else if e2 >= e3 then 2
    else 3
  }

  /** There is only one first-maximal grid. */
  lemma OneFirstLargest(x: seq<Word>, m: nat)
    requires |x| == 40 && FirstLargest(x, m)
    ensures m == GridOf(x)
  {
  }

  /** The sum of one grid, as the unrolled STEPs make it; it fits 32 bits even when doubled. */
  method SumSteps(x: array<Word>, m: nat, n: nat) returns (result: Longword)
    requires x.Length == 40 && n <= 13 && m <= 3 && m + 3 * n <= 42
    ensures result == Energy(x[..], m, n)
  {
    result := 0;
    for i := 0 to n
      invariant result == Energy(x[..], m, i)
    {
      var temp: Longword := x[m + 3 * i] / 4;
      assert temp * temp == Square(x[..][m + 3 * i]);
      result := result + temp * temp;
    }
  }

  /** gsm_enc_RPE_grid_selection, with the sum shared by grids 0 and 3. */
  method GridSelection(x: array<Word>, xM: array<Word>) returns (mc: Word)
    requires x.Length == 40 && xM.Length == 13 && x != xM
    modifies xM
    ensures mc == GridOf(x[..])
    ensures forall i :: 0 <= i < 13 ==> xM[i] == x[mc + 3 * i]
  {
    mc := SelectGrid(x);
    for i := 0 to 13
      invariant forall k :: 0 <= k < i ==> xM[k] == x[mc + 3 * k]
    {
      xM[i] := x[mc + 3 * i];
    }
  }

  /** The comparison of the four energies. */
  method SelectGrid(x: array<Word>) returns (mc: Word)
    requires x.Length == 40
    ensures mc == GridOf(x[..])
  {
    mc := 0;
    var common := SumSteps(x, 3, 12);
    SharedEnergy(x[..], 12);
    var result: Longword := common;
    var temp: Longword := x[0] / 4;
    assert temp * temp == Square(x[..][0]);
    result := result + temp * temp;
    result := result * 2;
    var em: Longword := result;

    result := SumSteps(x, 1, 13);
    result := result * 2;
    if result > em {
      mc, em := 1, result;
    }

    result := SumSteps(x, 2, 13);
    result := result * 2;
    if result > em {
      mc, em := 2, result;
    }

    result := common;
    temp := x[39] / 4;
    assert temp * temp == Square(x[..][39]);
    result := result + temp * temp;
    assert result == Energy(x[..], 3, 13);
    result := result * 2;
    if result > em {
      mc := 3;
    }
    OneFirstLargest(x[..], mc);
  }

  /** The energy of the first `n` samples of grid `m`, without the scaling by 1/4. */
  ghost function FullEnergy(x: seq<Word>, m: nat, n: nat): int
    requires |x| == 40 && (n > 0 ==> m + 3 * (n - 1) < 40)
  {
    if n == 0 then 0
    else
      FullEnergy(x, m, n - 1) + SquareOf(x[m + 3 * (n - 1)])
  }

  /** The sum of the magnitudes of those samples. */
  ghost function Magnitudes(x: seq<Word>, m: nat, n: nat): nat
    requires |x| == 40 && (n > 0 ==> m + 3 * (n - 1) < 40)
  {
    if n == 0 then 0
    else
      Magnitudes(x, m, n - 1) + Magnitude(x[m + 3 * (n - 1)])
  }

  ghost function SquareOf(x: int): int { x * x }

  ghost function Magnitude(x: int): nat { if x < 0 then -x else x }

  /** What scaling one sample loses. */
  lemma SquareClose(x: Word)
    ensures -(6 * Magnitude(x) + 9) <= SquareOf(x) - 16 * Square(x) <= 6 * Magnitude(x) + 9
  {
    var q, r := x / 4, x % 4;
    SquareParts(q, r);
    assert x == 4 * q + r;
    assert Square(x) == q * q;
  }

  lemma SquareParts(q: int, r: int)
    requires 0 <= r <= 3
    ensures (4 * q + r) * (4 * q + r) == 16 * (q * q) + r * (8 * q) + r * r
    ensures r * (8 * q) == 8 * q * r && r * r <= 9 && 0 <= r * r
  {
    assert (4 * q + r) * (4 * q + r) == 4 * q * (4 * q) + 8 * q * r + r * r;
  }

  lemma {:induction false} EnergyClose(x: seq<Word>, m: nat, n: nat)
    requires |x| == 40 && (n > 0 ==> m + 3 * (n - 1) < 40)
    ensures var d := 6 * Magnitudes(x, m, n) + 9 * n;
            -d <= FullEnergy(x, m, n) - 16 * Energy(x, m, n) <= d
  {
    hide Square, SquareOf, Magnitude;
    if n > 0 {
      EnergyClose(x, m, n - 1);
      SquareClose(x[m + 3 * (n - 1)]);
    }
  }

  /** No grid has more energy than the selected one, up to what the scaling by 1/4 loses. */
  lemma GridNearlyBest(x: seq<Word>, m: nat)
    requires |x| == 40 && m <= 3
    ensures var mc := GridOf(x);
            FullEnergy(x, m, 13) <= FullEnergy(x, mc, 13) + 6 * (Magnitudes(x, m, 13) + Magnitudes(x, mc, 13)) + 234
  {
    hide Energy, FullEnergy, Magnitudes, GridOf;
    EnergyClose(x, m, 13);
    EnergyClose(x, GridOf(x), 13);
    assert FirstLargest(x, GridOf(x));
  }

  // ---------------------------------------------------------------- grid positioning

  /** Sample `j` of the block made of grid `mc` and zeros in between. */
  function Positioned(mc: nat, xMp: seq<Word>, j: nat): Word
    requires |xMp| == 13 && mc <= 3 && j < 40
  {
    if j >= mc && (j - mc) % 3 == 0 && (j - mc) / 3 < 13 then xMp[(j - mc) / 3] else 0
  }

  function PositionedBlock(mc: nat, xMp: seq<Word>): (r: seq<Word>)
    requires |xMp| == 13 && mc <= 3
    ensures |r| == 40
  {
    seq(40, j requires 0 <= j < 40 => Positioned(mc, xMp, j))
  }

  /** The grid sample at index `t` and the two zeros before it. */
  lemma GridAt(mc: nat, xMp: seq<Word>, t: nat)
    requires |xMp| == 13 && mc <= 3 && t < 13
    ensures Positioned(mc, xMp, mc + 3 * t) == xMp[t]
    ensures t > 0 ==> Positioned(mc, xMp, mc + 3 * t - 1) == 0 && Positioned(mc, xMp, mc + 3 * t - 2) == 0
  {
    assert (mc + 3 * t - mc) / 3 == t && (mc + 3 * t - mc) % 3 == 0;
  }

  /** The switch that falls through: `mc` zeros. */
  method LeadingZeros(mc: Word, e: array<Word>) returns (p: nat)
    requires 0 <= mc <= 3 && e.Length == 50
    modifies e
    ensures p == 5 + mc
    ensures forall j :: 0 <= j < 50 ==> e[j] == if 5 <= j < p then 0 else old(e[j])
  {
    p := 5;
    if mc == 3 { e[p] := 0; p := p + 1; }
    if mc >= 2 { e[p] := 0; p := p + 1; }
    if mc >= 1 { e[p] := 0; p := p + 1; }
  }

  /** gsm_enc_RPE_grid_positioning into e[5..45]: exactly 40 samples are written. */
  method GridPositioning(mc: Word, xMp: array<Word>, e: array<Word>)
    requires 0 <= mc <= 3 && xMp.Length == 13 && e.Length == 50 && e != xMp
    modifies e
    ensures e[5..45] == PositionedBlock(mc, xMp[..])
    ensures forall j :: 0 <= j < 50 && !(5 <= j < 45) ==> e[j] == old(e[j])
  {
    ghost var grid := xMp[..];
    var p := LeadingZeros(mc, e);
    GridAt(mc, grid, 0);
    e[p] := xMp[0];
    p := p + 1;
    var i := 12;
    while i > 0
      invariant 0 <= i <= 12 && p == 5 + mc + 1 + 3 * (12 - i)
      invariant forall j :: 5 <= j < p ==> e[j] == Positioned(mc, grid, j - 5)
      invariant forall j :: 0 <= j < 50 && !(5 <= j < 45) ==> e[j] == old(e[j])
    {
      GridAt(mc, grid, 13 - i);
      e[p] := 0;
      e[p + 1] := 0;
      e[p + 2] := xMp[13 - i];
      p := p + 3;
      i := i - 1;
    }
    var m := mc + 1;
    while m < 4
      invariant mc < m <= 4 && p == 5 + mc + 37 + (m - mc - 1)
      invariant forall j :: 5 <= j < p ==> e[j] == Positioned(mc, grid, j - 5)
      invariant forall j :: 0 <= j < 50 && !(5 <= j < 45) ==> e[j] == old(e[j])
    {
      e[p] := 0;
      p, m := p + 1, m + 1;
    }
  }

  /** Reading the selected grid back gives the 13 samples, and every other sample is zero. */
  lemma GridReadBack(mc: nat, xMp: seq<Word>, j: nat)
    requires |xMp| == 13 && mc <= 3 && j < 40
    ensures forall i :: 0 <= i < 13 ==> Positioned(mc, xMp, mc + 3 * i) == xMp[i]
    ensures (forall i :: 0 <= i < 13 ==> j != mc + 3 * i) ==> Positioned(mc, xMp, j) == 0
  {
    if j >= mc && (j - mc) % 3 == 0 {
      assert j == mc + 3 * ((j - mc) / 3);
    }
  }
}
