/** The 16/32-bit fixed-point operators of the GSM 06.10 encoder. */
module FixedPoint {
  import opened Arithmetic

  type Word = x: int | -32768 <= x <= 32767

  type Longword = x: int | -0x8000_0000 <= x <= 0x7FFF_FFFF

  function Clamp(x: int): Word {
    if x < -32768 then -32768 else if x > 32767 then 32767 else x
  }

  function Clamp32(x: int): Longword {
    if x < -0x8000_0000 then -0x8000_0000 else if x > 0x7FFF_FFFF then 0x7FFF_FFFF else x
  }

  /** Conversion to an unsigned 32-bit word. */
  function Unsigned(x: int): nat { x % 0x1_0000_0000 }

  /** Conversion to a 16-bit word, as a narrowing assignment does it. */
  function Wrap(x: int): Word { (x + 32768) % 65536 - 32768 }

  lemma WrapFits(x: int)
    requires -32768 <= x <= 32767
    ensures Wrap(x) == x
  {
  }

  /** GSM_ADD, whose range test is one unsigned comparison: the saturated sum. */
  function Add(a: Word, b: Word): (r: Word)
    ensures r == Clamp(a + b)
  {
    var sum := a + b;
    if Unsigned(sum + 32768) > 65535 then (if sum > 0 then 32767 else -32768) else sum
  }

  /** GSM_SUB and gsm_enc_sub: the saturated difference. */
  function Sub(a: Word, b: Word): (r: Word)
    ensures r == Clamp(a - b)
  {
    var diff := a - b;
    if diff >= 32767 then 32767 else if diff <= -32768 then -32768 else diff
  }

  /** GSM_ABS: the magnitude, except that -32768 becomes 32767. */
  function Abs(a: Word): (r: Word)
    ensures 0 <= r && (r == a || r + a == 0 || (a == -32768 && r == 32767))
    ensures -r - 1 <= a <= r && (a == -r - 1 ==> a == -32768)
  {
    if a < 0 then (if a == -32768 then 32767 else -a) else a
  }

  /** GSM_MULT: the fractional product, rounded down. */
  function Mult(a: Word, b: Word): (r: Word)
    requires !(a == b == -32768)
    ensures r * 32768 <= a * b < (r + 1) * 32768
  {
    ProductBound(a, b);
    a * b / 32768
  }

  /** GSM_MULT_R: the fractional product, rounded to nearest. */
  function MultR(a: Word, b: Word): (r: Word)
    requires !(a == b == -32768)
    ensures -16384 <= a * b - r * 32768 <= 16384
  {
    ProductBound(a, b);
    (a * b + 16384) / 32768
  }

  /** The only product of two words that leaves the fractional range is (-1) * (-1). */
  lemma ProductBound(a: Word, b: Word)
    requires !(a == b == -32768)
    ensures -32768 * 32767 <= a * b <= 32768 * 32767
  {
    var x: nat := if a < 0 then 0 - a else a;
    var y: nat := if b < 0 then 0 - b else b;
    assert a * b == x * y || a * b == -(x * y);
    if x <= 32767 {
      NatProduct(x, y, 32767, 32768);
    } else {
      NatProduct(x, y, 32768, 32767);
    }
  }

  /** GSM_L_ADD, with its unsigned intermediate: the saturated 32-bit sum. */
  function LAdd(a: Longword, b: Longword): (r: Longword)
    ensures r == Clamp32(a + b)
  {
    if a < 0 then
      if b >= 0 then a + b
      else
        var utmp := -(a + 1) + -(b + 1);
        if utmp >= 0x7FFF_FFFF then -0x8000_0000 else -utmp - 2
    else if b <= 0 then a + b
    else
      var utmp := a + b;
      if utmp >= 0x7FFF_FFFF then 0x7FFF_FFFF else a + b
  }

  /** The largest magnitude in a block. */
  function MaxAbs(s: seq<Word>): (r: Word)
    ensures 0 <= r
    ensures forall i :: 0 <= i < |s| ==> Abs(s[i]) <= r
    ensures r == 0 || exists i :: 0 <= i < |s| && Abs(s[i]) == r
  {
    if |s| == 0 then 0
    else
      var last := |s| - 1;
      var r, a := MaxAbs(s[..last]), Abs(s[last]);
      assert r != 0 ==> exists i :: 0 <= i < last && Abs(s[..last][i]) == r;
      assert forall i :: 0 <= i < last ==> s[..last][i] == s[i];
      if a > r then a else r
  }

  method FindMax(s: seq<Word>) returns (xmax: Word)
    ensures xmax == MaxAbs(s)
  {
    xmax := 0;
    for i := 0 to |s|
      invariant xmax == MaxAbs(s[..i])
    {
      var temp := Abs(s[i]);
      assert s[..i + 1][..i] == s[..i];
      if temp > xmax {
        xmax := temp;
      }
    }
    assert s[..|s|] == s;
  }
}
