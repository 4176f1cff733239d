/** base64_encode and base64_decode, section 4 of RFC 4648.  Characters and bytes are numbers below 256. */
module Base64 {
  import opened Arithmetic

  // ---------------------------------------------------------------- the alphabet

  /** The character of a six-bit value. */
  function Letter(v: nat): (c: Byte)
    requires v < 64
  {
    if v < 26 then 65 + v else if v < 52 then 97 + v - 26 else if v < 62 then 48 + v - 52
    else if v == 62 then 43 else 47
  }

  /** base64_chars.find, cut to a byte: 255 for a character that is not there. */
  function Find(c: Byte): (v: Byte)
    ensures v < 64 || v == 255
  {
    if 65 <= c <= 90 then c - 65 else if 97 <= c <= 122 then c - 97 + 26 else if 48 <= c <= 57 then c - 48 + 52
    else if c == 43 then 62 else if c == 47 then 63 else 255
  }

  predicate IsBase64(c: Byte) {
    48 <= c <= 57 || 65 <= c <= 90 || 97 <= c <= 122 || c == 43 || c == 47
  }

  lemma Letters(v: nat)
    requires v < 64
    ensures IsBase64(Letter(v)) && Find(Letter(v)) == v && Letter(v) != 61
  {
  }

  // ---------------------------------------------------------------- groups

  /** Three bytes as four six-bit values. */
  function Four(x: Byte, y: Byte, z: Byte): (r: seq<Byte>)
    ensures |r| == 4 && forall i :: 0 <= i < 4 ==> r[i] < 64
  {
    [x / 4, x % 4 * 16 + y / 16, y % 16 * 4 + z / 64, z % 64]
  }

  /** Four values, meant to have six bits, as three bytes; what does not fit a byte is cut off. */
  function Three(a: Byte, b: Byte, c: Byte, d: Byte): (r: seq<Byte>)
    ensures |r| == 3
  {
    [(a * 4 + b / 16 % 4) % 256, (b % 16 * 16 + c / 4 % 16) % 256, (c % 4 * 64 + d) % 256]
  }

  /** The values are the digits of the 24-bit group in base 64. */
  lemma FourIsGroup(x: Byte, y: Byte, z: Byte)
    ensures var f := Four(x, y, z);
            (((f[0] as int) * 64 + f[1]) * 64 + f[2]) * 64 + f[3] == ((x as int) * 256 + y) * 256 + z
  {
  }

  lemma ThreeOfFour(x: Byte, y: Byte, z: Byte)
    ensures var f := Four(x, y, z); Three(f[0], f[1], f[2], f[3]) == [x, y, z]
  {
    var b, c := x % 4 * 16 + y / 16, y % 16 * 4 + z / 64;
    Rejoin(x, y, z, b, c);
    assert Four(x, y, z) == [x / 4, b, c, z % 64];
  }

  lemma Rejoin(x: Byte, y: Byte, z: Byte, b: Byte, c: Byte)
    requires b == x % 4 * 16 + y / 16 && c == y % 16 * 4 + z / 64
    ensures Three(x / 4, b, c, z % 64) == [x, y, z]
  {
    Fields(0, 4, x % 4, 16, y / 16, 64, b);
    Fields(0, 16, y % 16, 4, z / 64, 64, c);
    assert Three(x / 4, b, c, z % 64)
        == [(x / 4 * 4 + x % 4) % 256, (y / 16 * 16 + y % 16) % 256, (z / 64 * 64 + z % 64) % 256];
    SmallMod(x, 256);
    SmallMod(y, 256);
    SmallMod(z, 256);
  }

  /** What is not read from the input does not matter: the first n - 1 bytes depend on the first n values. */
  lemma TailIgnored(a: Byte, b: Byte, c: Byte, d: Byte, c': Byte, d': Byte)
    ensures Three(a, b, c, d)[..1] == Three(a, b, c', d')[..1]
    ensures Three(a, b, c, d)[..2] == Three(a, b, c, d')[..2]
  {
  }

  function Letters4(f: seq<Byte>): (r: seq<Byte>)
    requires forall i :: 0 <= i < |f| ==> f[i] < 64
    ensures |r| == |f|
  {
    seq(|f|, i requires 0 <= i < |f| => Letter(f[i]))
  }

  // ---------------------------------------------------------------- what is written

  /** The text of a byte string: groups of three, and a last group of one or two filled up with '='. */
  function Encoded(b: seq<Byte>): (s: seq<Byte>) {
    if |b| == 0 then []
    else if |b| == 1 then Letters4(Four(b[0], 0, 0)[..2]) + [61, 61]
    else if |b| == 2 then Letters4(Four(b[0], b[1], 0)[..3]) + [61]
    else Letters4(Four(b[0], b[1], b[2])) + Encoded(b[3..])
  }

  lemma {:induction false} EncodedLength(b: seq<Byte>)
    ensures |Encoded(b)| == (|b| + 2) / 3 * 4
  {
    if |b| >= 3 {
      EncodedLength(b[3..]);
    }
  }

  lemma {:induction false} EncodedAppend(a: seq<Byte>, b: seq<Byte>)
    requires |a| % 3 == 0
    ensures Encoded(a + b) == Encoded(a) + Encoded(b)
  {
    if a == [] {
      assert a + b == b;
    } else {
      assert (a + b)[3..] == a[3..] + b;
      EncodedAppend(a[3..], b);
    }
  }

  // ---------------------------------------------------------------- what is read

  /** How many characters the decoder takes: up to the first that is not in the alphabet. */
  function Taken(s: seq<Byte>): (n: nat)
    ensures n <= |s| && (n < |s| ==> !IsBase64(s[n]))
    ensures forall i :: 0 <= i < n ==> IsBase64(s[i])
  {
    if s == [] || !IsBase64(s[0]) then 0 else 1 + Taken(s[1..])
  }

  /** The bytes of a string of characters of the alphabet, taken by fours; n left over give n - 1 bytes. */
  function Bytes(s: seq<Byte>): (r: seq<Byte>) {
    if |s| <= 1 then []
    else if |s| == 2 then Three(Find(s[0]), Find(s[1]), 255, 255)[..1]
    else if |s| == 3 then Three(Find(s[0]), Find(s[1]), Find(s[2]), 255)[..2]
    else Three(Find(s[0]), Find(s[1]), Find(s[2]), Find(s[3])) + Bytes(s[4..])
  }

  function Decoded(s: seq<Byte>): seq<Byte> {
    Bytes(s[..Taken(s)])
  }

  lemma {:induction false} BytesAppend(a: seq<Byte>, b: seq<Byte>)
    requires |a| % 4 == 0
    ensures Bytes(a + b) == Bytes(a) + Bytes(b)
  {
    if a == [] {
      assert a + b == b;
    } else {
      assert (a + b)[4..] == a[4..] + b;
      BytesAppend(a[4..], b);
    }
  }

  lemma {:induction false} TakenIs(s: seq<Byte>, n: nat)
    requires n <= |s| && (n < |s| ==> !IsBase64(s[n])) && forall i :: 0 <= i < n ==> IsBase64(s[i])
    ensures Taken(s) == n
  {
    if n > 0 {
      TakenIs(s[1..], n - 1);
    }
  }

  lemma {:induction false} TakenAppend(a: seq<Byte>, b: seq<Byte>)
    requires forall i :: 0 <= i < |a| ==> IsBase64(a[i])
    ensures Taken(a + b) == |a| + Taken(b)
  {
    TakenIs(a + b, |a| + Taken(b));
  }

  lemma Group(f: seq<Byte>)
    requires forall i :: 0 <= i < |f| ==> f[i] < 64
    ensures forall i :: 0 <= i < |f| ==> IsBase64(Letters4(f)[i]) && Find(Letters4(f)[i]) == f[i]
  {
    forall i: nat | i < |f|
      ensures IsBase64(Letters4(f)[i]) && Find(Letters4(f)[i]) == f[i]
    {
      Letters(f[i]);
    }
  }

  /** Decoding the text gives the bytes back, for every byte string. */
  lemma {:induction false} RoundTrip(b: seq<Byte>)
    ensures Decoded(Encoded(b)) == b
  {
    if |b| == 1 || |b| == 2 {
      ShortRoundTrip(b);
    } else if |b| >= 3 {
      var f := Four(b[0], b[1], b[2]);
      var l, rest := Letters4(f), Encoded(b[3..]);
      Group(f);
      ThreeOfFour(b[0], b[1], b[2]);
      TakenAppend(l, rest);
      var n := Taken(rest);
      assert (l + rest)[..4 + n] == l + rest[..n];
      BytesAppend(l, rest[..n]);
      assert Bytes(l) == [b[0], b[1], b[2]] + Bytes(l[4..]);
      RoundTrip(b[3..]);
      assert b == [b[0], b[1], b[2]] + b[3..];
    }
  }

  lemma ShortRoundTrip(b: seq<Byte>)
    requires |b| == 1 || |b| == 2
    ensures Decoded(Encoded(b)) == b
  {
    hide Three, Four, Letters4, Letter, Find, IsBase64, Taken, Bytes;
    var y := if |b| == 1 then 0 else b[1];
    var f := Four(b[0], y, 0)[..|b| + 1];
    var s := Encoded(b);
    Group(f);
    assert s[..|b| + 1] == Letters4(f);
    PadEnds();
    TakenIs(s, |b| + 1);
    ShortBytes(b, y, Letters4(f));
  }

  lemma ShortBytes(b: seq<Byte>, y: Byte, t: seq<Byte>)
    requires (|b| == 1 && y == 0) || (|b| == 2 && y == b[1])
    requires t == Letters4(Four(b[0], y, 0)[..|b| + 1])
    ensures Bytes(t) == b
  {
    hide Three, Four, Letters4, Letter, Find, IsBase64;
    var full := Four(b[0], y, 0);
    Group(full[..|b| + 1]);
    ThreeOfFour(b[0], y, 0);
    TailIgnored(full[0], full[1], full[2], full[3], 255, 255);
  }

  lemma PadEnds()
    ensures !IsBase64(61)
  {
  }

  // ---------------------------------------------------------------- the encoder

  /** char_array_4 from char_array_3. */
  method Split(c3: array<Byte>, c4: array<Byte>)
    requires c3.Length == 3 && c4.Length == 4 && c3 != c4
    modifies c4
    ensures c4[..] == Four(c3[0], c3[1], c3[2])
  {
    c4[0] := c3[0] / 4;
    c4[1] := c3[0] % 4 * 16 + c3[1] / 16;
    c4[2] := c3[1] % 16 * 4 + c3[2] / 64;
    c4[3] := c3[2] % 64;
  }

  /** Appends the characters of the first `n` values. */
  method AppendLetters(ret0: seq<Byte>, c4: array<Byte>, n: nat) returns (ret: seq<Byte>)
    requires n <= c4.Length && forall i :: 0 <= i < n ==> c4[i] < 64
    ensures ret == ret0 + Letters4(c4[..n])
  {
    ret := ret0;
    for i := 0 to n
      invariant ret == ret0 + Letters4(c4[..i])
    {
      ret := ret + [Letter(c4[i])];
      assert c4[..i + 1] == c4[..i] + [c4[i]];
    }
  }

  lemma OneGroup(t: seq<Byte>)
    requires |t| == 3
    ensures Encoded(t) == Letters4(Four(t[0], t[1], t[2]))
  {
    assert Encoded(t[3..]) == [];
  }

  lemma EncodedSlices(b: seq<Byte>, start: nat, p: nat)
    requires start <= p <= |b| && start % 3 == 0
    ensures Encoded(b[..p]) == Encoded(b[..start]) + Encoded(b[start..p])
  {
    EncodedAppend(b[..start], b[start..p]);
    assert b[..start] + b[start..p] == b[..p];
  }

  /** Puts the next byte into a group. */
  method Push(c: array<Byte>, i: nat, x: Byte)
    requires i < c.Length
    modifies c
    ensures c[..i + 1] == old(c[..i]) + [x]
  {
    c[i] := x;
  }

  lemma SliceGrows(s: seq<Byte>, start: nat, p: nat)
    requires start <= p < |s|
    ensures s[start..p + 1] == s[start..p] + [s[p]]
  {
  }

  /** A full group: four characters. */
  method EncodeGroup(ret0: seq<Byte>, c3: array<Byte>, c4: array<Byte>) returns (ret: seq<Byte>)
    requires c3.Length == 3 && c4.Length == 4 && c3 != c4
    modifies c4
    ensures ret == ret0 + Encoded(c3[..])
  {
    Split(c3, c4);
    ret := AppendLetters(ret0, c4, 4);
    assert c4[..4] == c4[..];
    OneGroup(c3[..]);
  }

  /** One or two bytes left over: padded with zeros, and the text with '='. */
  method EncodeRest(ret0: seq<Byte>, i0: nat, c3: array<Byte>, c4: array<Byte>) returns (ret: seq<Byte>)
    requires c3.Length == 3 && c4.Length == 4 && c3 != c4 && 1 <= i0 <= 2
    modifies c3, c4
    ensures ret == ret0 + Encoded(old(c3[..i0]))
  {
    hide Four, Letters4, Encoded;
    ghost var t := c3[..i0];
    assert forall k :: 0 <= k < i0 ==> c3[k] == t[k];
    for j := i0 to 3
      invariant forall k :: 0 <= k < i0 ==> c3[k] == t[k]
      invariant forall k :: i0 <= k < j ==> c3[k] == 0
    {
      c3[j] := 0;
    }
    Split(c3, c4);
    ret := AppendLetters(ret0, c4, i0 + 1);
    LastGroup(t, c3[0], c3[1], c4[..i0 + 1]);
    ghost var whole := ret;
    var i := i0;
    while i < 3
      invariant i0 <= i <= 3
      invariant ret == whole + seq(i - i0, _ => 61)
    {
      ret := ret + [61];
      i := i + 1;
    }
  }

  /** base64_encode. */
  method Encode(b: seq<Byte>) returns (ret: seq<Byte>)
    ensures ret == Encoded(b)
  {
    hide Encoded;
    ret := [];
    EncodedNothing();
    var i: nat := 0;
    var c3, c4 := new Byte[3](_ => 0), new Byte[4](_ => 0);
    for p := 0 to |b|
      invariant 0 <= i < 3 && i <= p && (p - i) % 3 == 0
      invariant ret == Encoded(b[..p - i]) && c3[..i] == b[p - i..p]
    {
      ghost var start := p - i;
      SliceGrows(b, start, p);
      Push(c3, i, b[p]);
      i := i + 1;
      if i == 3 {
        assert c3[..] == c3[..i];
        EncodedSlices(b, start, p + 1);
        ret := EncodeGroup(ret, c3, c4);
        i := 0;
      }
    }
    EncodedSlices(b, |b| - i, |b|);
    assert b[..|b|] == b;
    if i != 0 {
      ret := EncodeRest(ret, i, c3, c4);
    } else {
      assert b[|b| - i..|b|] == [];
    }
  }

  lemma EncodedNothing()
    ensures Encoded([]) == []
  {
  }

  lemma LastGroup(t: seq<Byte>, x: Byte, y: Byte, f: seq<Byte>)
    requires 1 <= |t| <= 2 && x == t[0] && y == (if |t| == 2 then t[1] else 0)
    requires f == Four(x, y, 0)[..|t| + 1]
    ensures Encoded(t) == Letters4(f) + seq(3 - |t|, _ => 61)
  {
  }

  // ---------------------------------------------------------------- the decoder

  /** char_array_4 looked up, then char_array_3 from it. */
  method Join(c4: array<Byte>, c3: array<Byte>)
    requires c3.Length == 3 && c4.Length == 4 && c3 != c4
    modifies c3, c4
    ensures c3[..] == Three(Find(old(c4[0])), Find(old(c4[1])), Find(old(c4[2])), Find(old(c4[3])))
  {
    for i := 0 to 4
      invariant forall j :: 0 <= j < 4 ==> c4[j] == if j < i then Find(old(c4[j])) else old(c4[j])
    {
      c4[i] := Find(c4[i]);
    }
    c3[0] := ((c4[0] as int) * 4 + c4[1] / 16 % 4) % 256;
    c3[1] := (c4[1] % 16 * 16 + c4[2] / 4 % 16) % 256;
    c3[2] := ((c4[2] as int) % 4 * 64 + c4[3]) % 256;
  }

  lemma BytesGroup(t: seq<Byte>)
    requires |t| == 4
    ensures Bytes(t) == Three(Find(t[0]), Find(t[1]), Find(t[2]), Find(t[3]))
  {
    assert Bytes(t[4..]) == [];
  }

  lemma BytesNothing()
    ensures Bytes([]) == []
  {
  }

  lemma LastBytes(t: seq<Byte>, v: seq<Byte>, three: seq<Byte>)
    requires 1 <= |t| <= 3 && |v| == 4 && v[..|t|] == t && forall k :: |t| <= k < 4 ==> v[k] == 0
    requires three == Three(Find(v[0]), Find(v[1]), Find(v[2]), Find(v[3]))
    ensures Bytes(t) == three[..|t| - 1]
  {
    assert forall k :: 0 <= k < |t| ==> v[k] == v[..|t|][k];
    assert Find(0) == 255;
  }

  lemma BytesSlices(s: seq<Byte>, start: nat, p: nat)
    requires start <= p <= |s| && start % 4 == 0
    ensures Bytes(s[..p]) == Bytes(s[..start]) + Bytes(s[start..p])
  {
    BytesAppend(s[..start], s[start..p]);
    assert s[..start] + s[start..p] == s[..p];
  }

  /** A full group: three bytes. */
  method DecodeGroup(ret0: seq<Byte>, c4: array<Byte>, c3: array<Byte>) returns (ret: seq<Byte>)
    requires c3.Length == 3 && c4.Length == 4 && c3 != c4
    modifies c3, c4
    ensures ret == ret0 + Bytes(old(c4[..]))
  {
    hide Bytes, Three, Find;
    BytesGroup(c4[..]);
    Join(c4, c3);
    ret := ret0 + c3[..];
  }

  /** Fewer than four characters left over. */
  method DecodeRest(ret0: seq<Byte>, i: nat, c4: array<Byte>, c3: array<Byte>) returns (ret: seq<Byte>)
    requires c3.Length == 3 && c4.Length == 4 && c3 != c4 && 1 <= i <= 3
    modifies c3, c4
    ensures ret == ret0 + Bytes(old(c4[..i]))
  {
    hide Three, Find, Bytes;
    ghost var t := c4[..i];
    assert forall k :: 0 <= k < i ==> c4[k] == t[k];
    for j := i to 4
      invariant forall k :: 0 <= k < i ==> c4[k] == t[k]
      invariant forall k :: i <= k < j ==> c4[k] == 0
    {
      c4[j] := 0;
    }
    ghost var v := c4[..];
    Join(c4, c3);
    LastBytes(t, v, c3[..]);
    ret := ret0 + c3[..i - 1];
  }

  /** base64_decode, for a string whose size an int can hold. */
  method Decode(s: seq<Byte>) returns (ret: seq<Byte>)
    requires |s| <= 0x7fff_ffff
    ensures ret == Decoded(s)
  {
    hide Three, Find, Bytes, IsBase64, Taken;
    ret := [];
    BytesNothing();
    var i: nat, p: nat := 0, 0;
    var c3, c4 := new Byte[3](_ => 0), new Byte[4](_ => 0);
    while p < |s| && s[p] != 61 && IsBase64(s[p])
      invariant p <= |s| && 0 <= i < 4 && i <= p && (p - i) % 4 == 0
      invariant ret == Bytes(s[..p - i]) && c4[..i] == s[p - i..p]
      invariant forall k :: 0 <= k < p ==> IsBase64(s[k])
      decreases |s| - p
    {
      ghost var start := p - i;
      SliceGrows(s, start, p);
      Push(c4, i, s[p]);
      i, p := i + 1, p + 1;
      if i == 4 {
        assert c4[..] == c4[..i];
        BytesSlices(s, start, p);
        ret := DecodeGroup(ret, c4, c3);
        i := 0;
      }
    }
    PadEnds();
    TakenIs(s, p);
    BytesSlices(s, p - i, p);
    if i != 0 {
      ret := DecodeRest(ret, i, c4, c3);
    } else {
      assert s[p - i..p] == [];
    }
  }

  /** Encoding and then decoding, for every byte string whose text an int can measure. */
  method EncodeDecode(b: seq<Byte>) returns (text: seq<Byte>, back: seq<Byte>)
    requires (|b| + 2) / 3 * 4 <= 0x7fff_ffff
    ensures |text| == (|b| + 2) / 3 * 4 && back == b
  {
    EncodedLength(b);
    RoundTrip(b);
    text := Encode(b);
    back := Decode(text);
  }
}
