/**
 The 33-byte GSM frame of gsm_enc_encode: its fields packed, and a bit reader that recovers them.  Masks and
 shifts are written as remainders and quotients of powers of two, and the union of disjoint bit ranges as a
 sum.
 */
module Frame {
  import opened Arithmetic
  import opened FixedPoint
  import opened Normalize
  import opened Lpc
  import opened Coder

  // ---------------------------------------------------------------- reading bits

  /** Bit `i` of a byte string, the most significant bit of each byte first. */
  function Bit(bytes: seq<int>, i: nat): int
    requires i / 8 < |bytes|
  {
    bytes[i / 8] / Pow2(7 - i % 8) % 2
  }

  /** The `w` bits from bit `o` on, as a number. */
  function ReadBits(bytes: seq<int>, o: nat, w: nat): (r: int)
    requires o + w <= 8 * |bytes|
    ensures 0 <= r < Pow2(w)
  {
    if w == 0 then 0 else 2 * ReadBits(bytes, o, w - 1) + Bit(bytes, o + w - 1)
  }

  /** What precedes a byte string does not change what is read from it. */
  lemma {:induction false} ReadBehind(a: seq<int>, b: seq<int>, o: nat, w: nat)
    requires o + w <= 8 * |b|
    ensures ReadBits(a + b, 8 * |a| + o, w) == ReadBits(b, o, w)
  {
    hide Bit;
    if w > 0 {
      ReadBehind(a, b, o, w - 1);
      BitBehind(a, b, o + w - 1);
      assert 8 * |a| + (o + w - 1) == 8 * |a| + o + w - 1;
    }
  }

  lemma BitBehind(a: seq<int>, b: seq<int>, i: nat)
    requires i / 8 < |b|
    ensures Bit(a + b, 8 * |a| + i) == Bit(b, i)
  {
    hide Pow2;
    assert (8 * |a| + i) / 8 == |a| + i / 8 && (8 * |a| + i) % 8 == i % 8;
  }

  /** What follows does not either. */
  lemma {:induction false} ReadBefore(a: seq<int>, b: seq<int>, o: nat, w: nat)
    requires o + w <= 8 * |a|
    ensures ReadBits(a + b, o, w) == ReadBits(a, o, w)
  {
    if w > 0 {
      ReadBefore(a, b, o, w - 1);
    }
  }

  lemma HalveTwice(b: nat, p: nat)
    requires p >= 1
    ensures b / (2 * p) == b / p / 2
  {
    var q, r := b / p, b % p;
    var h, l := q / 2, q % 2;
    assert b == q * p + r;
    SplitTwice(q, h, l, p);
    assert 0 <= l * p <= p by { if l == 0 {} else {} }
    DivIs(b, 2 * p, h, l * p + r);
  }

  lemma SplitTwice(q: int, h: int, l: int, p: int)
    requires q == 2 * h + l
    ensures q * p == h * (2 * p) + l * p
  {
  }

  /** The low w bits, from the low w - 1 bits of the half. */
  lemma LowBits(x: nat, p: nat)
    requires p >= 1
    ensures x % (2 * p) == 2 * (x / 2 % p) + x % 2
  {
    var h := x / 2;
    var q, r := h / p, h % p;
    assert h == q * p + r;
    SplitTwice(2 * q, q, 0, p);
    DivIs(x, 2 * p, q, 2 * r + x % 2);
  }

  /** Bits within one byte: shift down and mask. */
  lemma {:induction false} ReadInByte(bytes: seq<int>, i: nat, s: nat, w: nat)
    requires i < |bytes| && s + w <= 8 && bytes[i] >= 0
    ensures ReadBits(bytes, 8 * i + s, w) == bytes[i] / Pow2(8 - s - w) % Pow2(w)
  {
    if w > 0 {
      ReadInByte(bytes, i, s, w - 1);
      var p := Pow2(8 - s - w);
      var k := s + w - 1;
      assert (8 * i + k) / 8 == i && (8 * i + k) % 8 == k;
      assert 8 * i + s + w - 1 == 8 * i + k;
      HalveTwice(bytes[i], p);
      QuotientNat(bytes[i], p);
      LowBits(bytes[i] / p, Pow2(w - 1));
    }
  }

  lemma QuotientNat(x: nat, p: nat)
    requires p >= 1
    ensures x / p >= 0
  {
  }

  /** A field over two bytes, `a` bits in the first and `b` in the second. */
  lemma {:induction false} ReadSplit(bytes: seq<int>, o: nat, a: nat, b: nat)
    requires o + a + b <= 8 * |bytes|
    ensures ReadBits(bytes, o, a + b) == ReadBits(bytes, o, a) * Pow2(b) + ReadBits(bytes, o + a, b)
  {
    hide Bit;
    if b > 0 {
      ReadSplit(bytes, o, a, b - 1);
      assert ReadBits(bytes, o, a + b) == 2 * ReadBits(bytes, o, a + b - 1) + Bit(bytes, o + a + b - 1);
      SplitStep(ReadBits(bytes, o, a), Pow2(b - 1), ReadBits(bytes, o + a, b - 1), Bit(bytes, o + a + b - 1));
    }
  }

  lemma SplitStep(x: int, p: int, y: int, bit: int)
    ensures 2 * (x * p + y) + bit == x * (2 * p) + (2 * y + bit)
  {
    Doubled(x, p);
  }

  /** The same with literal powers: a field inside byte `i`. */
  lemma Inside(bytes: seq<int>, o: nat, i: nat, w: nat, p: nat, m: nat)
    requires 8 * i <= o && o + w <= 8 * i + 8 && i < |bytes| && bytes[i] >= 0
    requires p == Pow2(8 * i + 8 - o - w) && m == Pow2(w)
    ensures ReadBits(bytes, o, w) == bytes[i] / p % m
  {
    hide ReadBits, Pow2;
    ReadInByte(bytes, i, o - 8 * i, w);
  }

  /** A field over bytes `i` and i + 1. */
  lemma Across(bytes: seq<int>, i: nat, a: nat, b: nat, ma: nat, pb: nat, mb: nat)
    requires i + 1 < |bytes| && a <= 8 && b <= 8 && bytes[i] >= 0 && bytes[i + 1] >= 0
    requires ma == Pow2(a) && mb == Pow2(b) && pb == Pow2(8 - b)
    ensures ReadBits(bytes, 8 * i + 8 - a, a + b) == bytes[i] % ma * mb + bytes[i + 1] / pb % mb
  {
    hide ReadBits, Pow2;
    SmallPowers();
    ReadInByte(bytes, i, 8 - a, a);
    ReadInByte(bytes, i + 1, 0, b);
    ReadSplit(bytes, 8 * i + 8 - a, a, b);
  }

  // ---------------------------------------------------------------- the kinds of bytes

  /** Seven bits of one field and the top bit of a two-bit one. */
  function Byte71(nc: int, bc: int): int { nc % 128 * 2 + bc / 2 % 2 }

  /** The low bit of a two-bit field, a two-bit field, and the top five bits of a six-bit one. */
  function Byte125(bc: int, mc: int, xmaxc: int): int { bc % 2 * 128 + mc % 4 * 32 + xmaxc / 2 % 32 }

  /** A low bit, two three-bit fields, and the top bit of a third. */
  function Byte1331(u: int, a: int, b: int, c: int): int { u % 2 * 128 + a % 8 * 16 + b % 8 * 2 + c / 4 % 2 }

  /** The two low bits of a three-bit field, and two more such fields. */
  function Byte233(c: int, d: int, e: int): int { c % 4 * 64 + d % 8 * 8 + e % 8 }

  /** Two three-bit fields and the top two bits of a third. */
  function Byte332(f: int, g: int, h: int): int { f % 8 * 32 + g % 8 * 4 + h / 2 % 4 }

  lemma Parts71(nc: int, bc: int)
    requires 0 <= nc < 128 && 0 <= bc < 4
    ensures var v := Byte71(nc, bc); 0 <= v <= 255 && v / 2 % 128 == nc && v % 2 == bc / 2
  {
    SmallMod(nc, 128);
    Fields(0, 128, nc, 2, bc / 2, 256, Byte71(nc, bc));
  }

  lemma Parts125(bc: int, mc: int, xmaxc: int)
    requires 0 <= bc < 4 && 0 <= mc < 4 && 0 <= xmaxc < 64
    ensures var v := Byte125(bc, mc, xmaxc);
            0 <= v <= 255 && v / 128 % 2 == bc % 2 && v / 32 % 4 == mc && v % 32 == xmaxc / 2
  {
    var h, t := bc % 2, xmaxc / 2;
    SmallMod(mc, 4);
    SmallMod(t, 32);
    SmallMod(h, 2);
    Fields(h, 4, mc, 32, t, 128, h * 128 + mc * 32 + t);
  }

  lemma Parts1331(u: int, a: int, b: int, c: int)
    requires 0 <= u && 0 <= a < 8 && 0 <= b < 8 && 0 <= c < 8
    ensures var v := Byte1331(u, a, b, c);
            0 <= v <= 255 && v / 128 % 2 == u % 2 && v / 16 % 8 == a && v / 2 % 8 == b && v % 2 == c / 4
  {
    var h, t := u % 2, c / 4;
    var v := h * 128 + a * 16 + b * 2 + t;
    SmallMod(a, 8);
    SmallMod(b, 8);
    SmallMod(t, 2);
    SmallMod(h, 2);
    Fields(h, 8, a, 16, b * 2 + t, 128, v);
    Fields(h * 8 + a, 8, b, 2, t, 16, v);
  }

  lemma Parts233(c: int, d: int, e: int)
    requires 0 <= c && 0 <= d < 8 && 0 <= e < 8
    ensures var v := Byte233(c, d, e); 0 <= v <= 255 && v / 64 % 4 == c % 4 && v / 8 % 8 == d && v / 1 % 8 == e
  {
    var h := c % 4;
    SmallMod(d, 8);
    SmallMod(e, 8);
    SmallMod(h, 4);
    Fields(h, 8, d, 8, e, 64, h * 64 + d * 8 + e);
  }

  lemma Parts332(f: int, g: int, h: int)
    requires 0 <= f < 8 && 0 <= g < 8 && 0 <= h < 8
    ensures var v := Byte332(f, g, h); 0 <= v <= 255 && v / 32 % 8 == f && v / 4 % 8 == g && v % 4 == h / 2
  {
    var t := h / 2;
    SmallMod(f, 8);
    SmallMod(g, 8);
    SmallMod(t, 4);
    Fields(f, 8, g, 4, t, 32, f * 32 + g * 4 + t);
  }

  // ---------------------------------------------------------------- subframes

  /** The seven bytes of a subframe, as gsm_enc_encode writes them. */
  function SubBytes(p: Subframe): (r: seq<int>)
    requires |p.xmc| == 13
    ensures |r| == 7
  {
    var x := p.xmc;
    [Byte71(p.nc, p.bc), Byte125(p.bc, p.mc, p.xmaxc), Byte1331(p.xmaxc, x[0], x[1], x[2]), Byte233(x[2], x[3], x[4]),
     Byte332(x[5], x[6], x[7]), Byte1331(x[7], x[8], x[9], x[10]), Byte233(x[10], x[11], x[12])]
  }

  lemma SubByteRange(p: Subframe, b: seq<int>)
    requires InWidth(p) && b == SubBytes(p)
    ensures forall i :: 0 <= i < 7 ==> 0 <= b[i] <= 255
  {
    var x := p.xmc;
    Parts71(p.nc, p.bc);
    Parts125(p.bc, p.mc, p.xmaxc);
    Parts1331(p.xmaxc, x[0], x[1], x[2]);
    Parts233(x[2], x[3], x[4]);
    Parts332(x[5], x[6], x[7]);
    Parts1331(x[7], x[8], x[9], x[10]);
    Parts233(x[10], x[11], x[12]);
  }

  /** Reading the fields of a subframe off its bytes: lag, gain, grid and level. */
  lemma ReadGains(p: Subframe, bs: seq<int>)
    requires InWidth(p) && bs == SubBytes(p)
    ensures ReadBits(bs, 0, 7) == p.nc && ReadBits(bs, 7, 2) == p.bc
    ensures ReadBits(bs, 9, 2) == p.mc && ReadBits(bs, 11, 6) == p.xmaxc
  {
    hide Byte71, Byte125, Byte1331, ReadBits;
    var x := p.xmc;
    SubByteRange(p, bs);
    SmallPowers();
    Parts71(p.nc, p.bc);
    Parts125(p.bc, p.mc, p.xmaxc);
    Parts1331(p.xmaxc, x[0], x[1], x[2]);
    Inside(bs, 0, 0, 7, 2, 128);
    Across(bs, 0, 1, 1, 2, 128, 2);
    Inside(bs, 9, 1, 2, 32, 4);
    Across(bs, 1, 5, 1, 32, 128, 2);
  }

  /** Its thirteen samples, the ones inside a byte first. */
  lemma ReadCodes(p: Subframe, bs: seq<int>, i: nat)
    requires InWidth(p) && bs == SubBytes(p) && i < 13
    ensures ReadBits(bs, 17 + 3 * i, 3) == p.xmc[i]
  {
    hide Byte71, Byte125, Byte1331, Byte233, Byte332, ReadBits;
    var x := p.xmc;
    SubByteRange(p, bs);
    SmallPowers();
    if i < 3 {
      Parts1331(p.xmaxc, x[0], x[1], x[2]);
      Parts233(x[2], x[3], x[4]);
      if i == 0 { Inside(bs, 17, 2, 3, 16, 8); }
      else if i == 1 { Inside(bs, 20, 2, 3, 2, 8); }
      else { Across(bs, 2, 1, 2, 2, 64, 4); }
    } else if i < 5 {
      Parts233(x[2], x[3], x[4]);
      if i == 3 { Inside(bs, 26, 3, 3, 8, 8); } else { Inside(bs, 29, 3, 3, 1, 8); }
    } else if i < 8 {
      Parts332(x[5], x[6], x[7]);
      Parts1331(x[7], x[8], x[9], x[10]);
      if i == 5 { Inside(bs, 32, 4, 3, 32, 8); }
      else if i == 6 { Inside(bs, 35, 4, 3, 4, 8); }
      else { Across(bs, 4, 2, 1, 4, 128, 2); }
    } else {
      Parts1331(x[7], x[8], x[9], x[10]);
      Parts233(x[10], x[11], x[12]);
      if i == 8 { Inside(bs, 41, 5, 3, 16, 8); }
      else if i == 9 { Inside(bs, 44, 5, 3, 2, 8); }
      else if i == 10 { Across(bs, 5, 1, 2, 2, 64, 4); }
      else if i == 11 { Inside(bs, 50, 6, 3, 8, 8); }
      else { Inside(bs, 53, 6, 3, 1, 8); }
    }
  }

  /** The subframe whose bits start at `o`, read field by field in the order of the frame format. */
  function UnpackSub(bytes: seq<int>, o: nat): (p: Subframe)
    requires o + 56 <= 8 * |bytes|
    ensures |p.xmc| == 13
  {
    SmallPowers();
    Subframe(ReadBits(bytes, o, 7), ReadBits(bytes, o + 7, 2), ReadBits(bytes, o + 9, 2), ReadBits(bytes, o + 11, 6),
             seq(13, i requires 0 <= i < 13 => ReadBits(bytes, o + 17 + 3 * i, 3)))
  }

  /** A subframe is recovered from anywhere in a byte string. */
  lemma SubRoundTrip(p: Subframe, a: seq<int>, b: seq<int>)
    requires InWidth(p)
    ensures UnpackSub(a + SubBytes(p) + b, 8 * |a|) == p
  {
    hide SubBytes, ReadBits;
    var bs := SubBytes(p);
    var q := UnpackSub(a + bs + b, 8 * |a|);
    FieldIn(a, bs, b, 0, 7);
    FieldIn(a, bs, b, 7, 2);
    FieldIn(a, bs, b, 9, 2);
    FieldIn(a, bs, b, 11, 6);
    ReadGains(p, bs);
    forall i: nat | i < 13
      ensures q.xmc[i] == p.xmc[i]
    {
      FieldIn(a, bs, b, 17 + 3 * i, 3);
      ReadCodes(p, bs, i);
    }
    assert q.xmc == p.xmc;
  }

  lemma FieldIn(a: seq<int>, m: seq<int>, b: seq<int>, o: nat, w: nat)
    requires o + w <= 8 * |m|
    ensures ReadBits(a + m + b, 8 * |a| + o, w) == ReadBits(m, o, w)
  {
    hide ReadBits;
    ReadBefore(a + m, b, 8 * |a| + o, w);
    ReadBehind(a, m, o, w);
  }

  // ---------------------------------------------------------------- the header

  /** Four bits of one field and the top four of a six-bit one. */
  function Byte44(m: int, l0: int): int { m % 16 * 16 + l0 / 4 % 16 }

  /** The low two bits of one field and a six-bit one. */
  function Byte26(l0: int, l1: int): int { l0 % 4 * 64 + l1 % 64 }

  /** A five-bit field and the top three bits of another. */
  function Byte53(l2: int, l3: int): int { l2 % 32 * 8 + l3 / 4 % 8 }

  /** The low two bits of a field, a four-bit one, and the top two bits of a third. */
  function Byte242(l3: int, l4: int, l5: int): int { l3 % 4 * 64 + l4 % 16 * 4 + l5 / 4 % 4 }

  /** The five bytes ahead of the subframes: the magic number 13 and the eight codes. */
  function HeaderBytes(l: seq<Word>): (r: seq<int>)
    requires |l| == 8
    ensures |r| == 5
  {
    [Byte44(13, l[0]), Byte26(l[0], l[1]), Byte53(l[2], l[3]), Byte242(l[3], l[4], l[5]), Byte233(l[5], l[6], l[7])]
  }

  /** Where the code of coefficient `i` starts, and how many bits it has. */
  function LarField(i: nat): (nat, nat)
    requires i < 8
  {
    [(4, 6), (10, 6), (16, 5), (21, 5), (26, 4), (30, 4), (34, 3), (37, 3)][i]
  }

  function UnpackLarc(bytes: seq<int>): (l: seq<int>)
    requires |bytes| >= 5
    ensures |l| == 8
  {
    seq(8, i requires 0 <= i < 8 => ReadBits(bytes, LarField(i).0, LarField(i).1))
  }

  ghost predicate LarcInWidth(l: seq<Word>) {
    |l| == 8 && forall i :: 0 <= i < 8 ==> 0 <= l[i] < CodeCount(i)
  }

  lemma Parts44(m: int, l0: int)
    requires 0 <= m < 16 && 0 <= l0 < 64
    ensures var v := Byte44(m, l0); 0 <= v <= 255 && v / 16 % 16 == m && v % 16 == l0 / 4
  {
    SmallMod(m, 16);
    SmallMod(l0 / 4, 16);
    Fields(0, 16, m, 16, l0 / 4, 256, Byte44(m, l0));
  }

  lemma Parts26(l0: int, l1: int)
    requires 0 <= l0 < 64 && 0 <= l1 < 64
    ensures var v := Byte26(l0, l1); 0 <= v <= 255 && v / 64 % 4 == l0 % 4 && v / 1 % 64 == l1
  {
    SmallMod(l1, 64);
    Fields(0, 4, l0 % 4, 64, l1, 256, Byte26(l0, l1));
  }

  lemma Parts53(l2: int, l3: int)
    requires 0 <= l2 < 32 && 0 <= l3 < 32
    ensures var v := Byte53(l2, l3); 0 <= v <= 255 && v / 8 % 32 == l2 && v % 8 == l3 / 4
  {
    SmallMod(l2, 32);
    SmallMod(l3 / 4, 8);
    Fields(0, 32, l2, 8, l3 / 4, 256, Byte53(l2, l3));
  }

  lemma Parts242(l3: int, l4: int, l5: int)
    requires 0 <= l3 < 32 && 0 <= l4 < 16 && 0 <= l5 < 16
    ensures var v := Byte242(l3, l4, l5);
            0 <= v <= 255 && v / 64 % 4 == l3 % 4 && v / 4 % 16 == l4 && v % 4 == l5 / 4
  {
    var h, t := l3 % 4, l5 / 4;
    SmallMod(l4, 16);
    SmallMod(t, 4);
    SmallMod(h, 4);
    Fields(h, 16, l4, 4, t, 64, h * 64 + l4 * 4 + t);
  }

  /** Every code is recovered from the header, and its first four bits are the magic number. */
  lemma HeaderRoundTrip(l: seq<Word>, rest: seq<int>)
    requires LarcInWidth(l)
    ensures UnpackLarc(HeaderBytes(l) + rest) == l && ReadBits(HeaderBytes(l) + rest, 0, 4) == 13
    ensures forall i :: 0 <= i < 5 ==> 0 <= HeaderBytes(l)[i] <= 255
  {
    hide ReadBits;
    var bs := HeaderBytes(l);
    HeaderRange(l, bs);
    HeaderFields(l, bs);
    forall i: nat | i < 8
      ensures UnpackLarc(bs + rest)[i] == l[i]
    {
      ReadBefore(bs, rest, LarField(i).0, LarField(i).1);
    }
    ReadBefore(bs, rest, 0, 4);
  }

  lemma HeaderRange(l: seq<Word>, bs: seq<int>)
    requires |l| == 8 && bs == HeaderBytes(l)
    ensures forall i :: 0 <= i < 5 ==> 0 <= bs[i] <= 255
  {
  }

  lemma HeaderFields(l: seq<Word>, bs: seq<int>)
    requires LarcInWidth(l) && bs == HeaderBytes(l)
    ensures ReadBits(bs, 0, 4) == 13 && ReadBits(bs, 4, 6) == l[0] && ReadBits(bs, 10, 6) == l[1]
    ensures ReadBits(bs, 16, 5) == l[2] && ReadBits(bs, 21, 5) == l[3] && ReadBits(bs, 26, 4) == l[4]
    ensures ReadBits(bs, 30, 4) == l[5] && ReadBits(bs, 34, 3) == l[6] && ReadBits(bs, 37, 3) == l[7]
  {
    hide Byte44, Byte26, Byte53, Byte242, Byte233, ReadBits;
    HeaderRange(l, bs);
    SmallPowers();
    Parts44(13, l[0]);
    Parts26(l[0], l[1]);
    Parts53(l[2], l[3]);
    Parts242(l[3], l[4], l[5]);
    Parts233(l[5], l[6], l[7]);
    Inside(bs, 0, 0, 4, 16, 16);
    Across(bs, 0, 4, 2, 16, 64, 4);
    Inside(bs, 10, 1, 6, 1, 64);
    Inside(bs, 16, 2, 5, 8, 32);
    Across(bs, 2, 3, 2, 8, 64, 4);
    Inside(bs, 26, 3, 4, 4, 16);
    Across(bs, 3, 2, 2, 4, 64, 4);
    Inside(bs, 34, 4, 3, 8, 8);
    Inside(bs, 37, 4, 3, 1, 8);
  }

  // ---------------------------------------------------------------- frames

  ghost predicate AllInWidth(ps: seq<Subframe>) {
    forall i :: 0 <= i < |ps| ==> InWidth(ps[i])
  }

  function SubsBytes(ps: seq<Subframe>): (r: seq<int>)
    requires forall i :: 0 <= i < |ps| ==> |ps[i].xmc| == 13
    ensures |r| == 7 * |ps|
  {
    if ps == [] then [] else SubBytes(ps[0]) + SubsBytes(ps[1..])
  }

  /** The bytes of a frame. */
  function Packed(l: seq<Word>, ps: seq<Subframe>): (r: seq<int>)
    requires |l| == 8 && forall i :: 0 <= i < |ps| ==> |ps[i].xmc| == 13
    ensures |r| == 5 + 7 * |ps|
  {
    HeaderBytes(l) + SubsBytes(ps)
  }

  /** The subframes read from bit `o` on. */
  function UnpackSubs(bytes: seq<int>, o: nat, n: nat): (ps: seq<Subframe>)
    requires o + 56 * n <= 8 * |bytes|
    ensures |ps| == n
    decreases n
  {
    if n == 0 then [] else [UnpackSub(bytes, o)] + UnpackSubs(bytes, o + 56, n - 1)
  }

  lemma {:induction false} SubsRoundTrip(a: seq<int>, ps: seq<Subframe>)
    requires AllInWidth(ps)
    ensures UnpackSubs(a + SubsBytes(ps), 8 * |a|, |ps|) == ps
    decreases |ps|
  {
    hide SubBytes, UnpackSub;
    if ps != [] {
      var b := SubBytes(ps[0]);
      var rest := SubsBytes(ps[1..]);
      SubRoundTrip(ps[0], a, rest);
      SubsRoundTrip(a + b, ps[1..]);
      assert a + SubsBytes(ps) == a + b + rest;
      assert ps == [ps[0]] + ps[1..];
    }
  }

  /** Packing loses nothing: every code of every frame whose fields are in range is read back. */
  lemma PackingIsLossless(l: seq<Word>, ps: seq<Subframe>)
    requires LarcInWidth(l) && AllInWidth(ps)
    ensures var c := Packed(l, ps);
            ReadBits(c, 0, 4) == 13 && UnpackLarc(c) == l && UnpackSubs(c, 40, |ps|) == ps
  {
    hide HeaderBytes, SubsBytes, UnpackLarc, ReadBits, UnpackSubs;
    HeaderRoundTrip(l, SubsBytes(ps));
    SubsRoundTrip(HeaderBytes(l), ps);
  }

  /** The first five bytes. */
  method PackHeader(l: array<Word>, c: array<int>)
    requires l.Length == 8 && c.Length >= 5
    modifies c
    ensures c[..5] == HeaderBytes(l[..]) && c[5..] == old(c[5..])
  {
    c[0] := 13 * 16 + l[0] / 4 % 16;
    c[1] := l[0] % 4 * 64 + l[1] % 64;
    c[2] := l[2] % 32 * 8 + l[3] / 4 % 8;
    c[3] := l[3] % 4 * 64 + l[4] % 16 * 4 + l[5] / 4 % 4;
    c[4] := l[5] % 4 * 64 + l[6] % 8 * 8 + l[7] % 8;
  }

  /** The seven bytes of one subframe, at `o`. */
  method PackSub(p: Subframe, c: array<int>, o: nat)
    requires |p.xmc| == 13 && o + 7 <= c.Length
    modifies c
    ensures c[..o + 7] == old(c[..o]) + SubBytes(p) && c[o + 7..] == old(c[o + 7..])
  {
    var x := p.xmc;
    c[o] := p.nc % 128 * 2 + p.bc / 2 % 2;
    c[o + 1] := p.bc % 2 * 128 + p.mc % 4 * 32 + p.xmaxc / 2 % 32;
    c[o + 2] := p.xmaxc % 2 * 128 + x[0] % 8 * 16 + x[1] % 8 * 2 + x[2] / 4 % 2;
    c[o + 3] := x[2] % 4 * 64 + x[3] % 8 * 8 + x[4] % 8;
    c[o + 4] := x[5] % 8 * 32 + x[6] % 8 * 4 + x[7] / 2 % 4;
    c[o + 5] := x[7] % 2 * 128 + x[8] % 8 * 16 + x[9] % 8 * 2 + x[10] / 4 % 2;
    c[o + 6] := x[10] % 4 * 64 + x[11] % 8 * 8 + x[12] % 8;
  }

  /** The packing part of gsm_enc_encode: a frame of 33 bytes. */
  method PackFrame(l: array<Word>, ps: seq<Subframe>, c: array<int>)
    requires l.Length == 8 && c.Length == 33
    requires |ps| == 4 && forall i :: 0 <= i < 4 ==> |ps[i].xmc| == 13
    modifies c
    ensures c[..] == Packed(l[..], ps)
  {
    hide HeaderBytes, SubBytes;
    PackHeader(l, c);
    PackSub(ps[0], c, 5);
    PackSub(ps[1], c, 12);
    PackSub(ps[2], c, 19);
    PackSub(ps[3], c, 26);
    FourSubs(ps);
    assert c[..33] == c[..];
  }

  lemma FourSubs(ps: seq<Subframe>)
    requires |ps| == 4 && forall i :: 0 <= i < 4 ==> |ps[i].xmc| == 13
    ensures SubsBytes(ps) == SubBytes(ps[0]) + SubBytes(ps[1]) + SubBytes(ps[2]) + SubBytes(ps[3])
  {
    hide SubBytes;
    var p1, p2, p3 := ps[1..], ps[2..], ps[3..];
    assert p1[1..] == p2 && p2[1..] == p3 && p3[1..] == [];
    assert p1[0] == ps[1] && p2[0] == ps[2] && p3[0] == ps[3];
    assert SubsBytes(p3) == SubBytes(ps[3]) + SubsBytes([]);
    assert SubsBytes(p2) == SubBytes(ps[2]) + SubsBytes(p3);
    assert SubsBytes(p1) == SubBytes(ps[1]) + SubsBytes(p2);
  }
}
