/**
 The two text forms of a uuid and the parser of sole.h.  Characters are signed byte codes, 64-bit arithmetic
 wraps, and a string is read one past its end as zero, as std::string gives it.
 */
module Uuid {
  import opened Arithmetic

  type Char = c: int | -128 <= c < 128

  datatype Uuid = Uuid(ab: U64, cd: U64)

  // ---------------------------------------------------------------- searching for the separator

  predicate NoDash(s: seq<Char>) {
    forall i :: 0 <= i < |s| ==> s[i] != 45
  }

  /** The index of the first dash from `from` on, or -1. */
  function FirstDash(s: seq<Char>, from: nat): (r: int)
    requires from <= |s|
    ensures r == -1 || (from <= r < |s| && s[r] == 45)
    ensures NoDash(s[from..if r == -1 then |s| else r])
    decreases |s| - from
  {
    if from == |s| then -1
    else if s[from] == 45 then from
    else FirstDash(s, from + 1)
  }

  lemma {:induction false} FirstDashIs(s: seq<Char>, from: nat, at: nat)
    requires from <= at < |s| && s[at] == 45 && NoDash(s[from..at])
    ensures FirstDash(s, from) == at
    decreases at - from
  {
    if from < at {
      assert s[from] == s[from..at][0];
      assert s[from + 1..at] == s[from..at][1..];
      FirstDashIs(s, from + 1, at);
    }
  }

  lemma {:induction false} FirstDashNone(s: seq<Char>, from: nat)
    requires from <= |s| && NoDash(s[from..])
    ensures FirstDash(s, from) == -1
    decreases |s| - from
  {
    if from < |s| {
      assert s[from] == s[from..][0];
      assert s[from + 1..] == s[from..][1..];
      FirstDashNone(s, from + 1);
    }
  }

  // ---------------------------------------------------------------- base 62

  function Char62(d: nat): (c: Char)
    requires d < 62
    ensures c != 45 && c != 0
  {
    if d < 10 then 48 + d else if d < 36 then 65 + d - 10 else 97 + d - 36
  }

  /** strpos of the parser, before it is taken to 64 bits: negative below '0'. */
  function Strpos(c: Char): int {
    if c >= 97 then c - 97 + 36 else if c >= 65 then c - 65 + 10 else c - 48
  }

  /** The digits of `n` in base 62, the most significant first. */
  function Text62(n: nat): (s: seq<Char>)
    ensures |s| >= 1
  {
    if n < 62 then [Char62(n)] else Text62(n / 62) + [Char62(n % 62)]
  }

  /** The number a string of digits stands for, whatever its characters. */
  function Value62(s: seq<Char>): int
    requires |s| >= 1
  {
    var last := |s| - 1;
    if last == 0 then Strpos(s[0]) else 62 * Value62(s[..last]) + Strpos(s[last])
  }

  lemma {:induction false} TextValue(n: nat)
    ensures Value62(Text62(n)) == n && NoDash(Text62(n)) && 0 !in Text62(n)
  {
    if n >= 62 {
      TextValue(n / 62);
      var s := Text62(n);
      assert s[..|s| - 1] == Text62(n / 62);
    }
  }

  /** While the digits of a 64-bit number are read, the number so far is the number itself shifted down: the
      parser never overflows on them. */
  lemma {:induction false} PrefixFits(n: nat, k: nat)
    requires 1 <= k <= |Text62(n)|
    ensures 0 <= Value62(Text62(n)[..k]) <= n
  {
    var s := Text62(n);
    if k == |s| {
      assert s[..k] == s;
      TextValue(n);
    } else {
      assert n >= 62;
      PrefixFits(n / 62, k);
      assert s[..k] == Text62(n / 62)[..k];
    }
  }

  function Pow62(k: nat): nat {
    if k == 0 then 1 else 62 * Pow62(k - 1)
  }

  lemma {:induction false} TextLength(n: nat, k: nat)
    requires k >= 1 && n < Pow62(k)
    ensures |Text62(n)| <= k
  {
    assert Pow62(1) == 62;
    if n >= 62 {
      TextLength(n / 62, k - 1);
    }
  }

  /** Eleven digits are enough for 64 bits. */
  lemma ElevenDigits(n: U64)
    ensures |Text62(n)| <= 11
  {
    assert Pow62(3) == 238328;
    assert Pow62(6) == 56800235584;
    assert Pow62(9) == 13537086546263552;
    assert Pow62(11) == 52036560683837093888;
    TextLength(n, 11);
  }

  function Base62Text(u: Uuid): seq<Char> {
    Text62(u.ab) + [45] + Text62(u.cd)
  }

  /** One of the two loops of uuid::base62: the digits of `n` before position `end`. */
  method WriteDigits(n: U64, res: array<Char>, end: nat) returns (start: nat)
    requires 11 <= end <= res.Length
    modifies res
    ensures start <= end && res[start..end] == Text62(n)
    ensures res[end..] == old(res[end..])
  {
    ElevenDigits(n);
    start := end;
    var rest: nat, more := n, true;
    assert res[start..end] == [];
    while more
      invariant start <= end
      invariant res[end..] == old(res[end..])
      invariant more ==> Text62(n) == Text62(rest) + res[start..end]
      invariant !more ==> Text62(n) == res[start..end]
      decreases if more then rest + 1 else 0
    {
      ghost var tail := res[start..end];
      ghost var was := rest;
      assert |Text62(was)| + |tail| <= 11;
      start := start - 1;
      res[start] := Char62(rest % 62);
      rest := rest / 62;
      more := rest > 0;
      assert res[start..end] == [Char62(was % 62)] + tail;
      assert more ==> Text62(was) == Text62(rest) + [Char62(was % 62)];
    }
  }

  /** uuid::base62: within its 24-byte buffer for every uuid. */
  method Base62(u: Uuid) returns (text: seq<Char>)
    ensures text == Base62Text(u)
    ensures 3 <= |text| <= 23 && 0 !in text
  {
    hide Text62, Value62;
    var res := new Char[24](_ => 0);
    res[23] := 0;
    var end := WriteDigits(u.cd, res, 23);
    ghost var low := res[end..23];
    ElevenDigits(u.ab);
    ElevenDigits(u.cd);
    end := end - 1;
    res[end] := 45;
    assert res[end..23] == [45] + low;
    ghost var mid := end;
    ghost var after := res[mid..];
    end := WriteDigits(u.ab, res, end);
    assert res[mid..] == after;
    text := res[end..23];
    assert text == res[end..mid] + res[mid..23];
    assert res[mid..23] == after[..23 - mid] == [45] + low;
    assert text == Text62(u.ab) + ([45] + low);
    TextValue(u.ab);
    TextValue(u.cd);
  }

  // ---------------------------------------------------------------- hexadecimal

  /** `n` shifted down by `k` hexadecimal digits. */
  function Nibbles(n: nat, k: nat): nat {
    if k == 0 then n else Nibbles(n, k - 1) / 16
  }

  function Pow16(k: nat): nat {
    if k == 0 then 1 else 16 * Pow16(k - 1)
  }

  lemma SixteenDigits()
    ensures Pow16(16) == 0x1_0000_0000_0000_0000
  {
    assert Pow16(4) == 0x1_0000;
    assert Pow16(8) == 0x1_0000_0000;
    assert Pow16(12) == 0x1_0000_0000_0000;
  }

  lemma {:induction false} NibblesBound(n: U64, k: nat)
    requires k <= 16
    ensures Nibbles(n, k) < Pow16(16 - k)
  {
    if k == 0 {
      SixteenDigits();
    } else {
      NibblesBound(n, k - 1);
    }
  }

  function HexChar(d: nat): (c: Char)
    requires d < 16
    ensures c != 45
  {
    if d < 10 then 48 + d else 97 + d - 10
  }

  /** The sixteen digits in order, lower case. */
  lemma HexDigits(d: nat)
    requires d < 16
    ensures HexChar(d) as char == "0123456789abcdef"[d]
  {
  }

  /** decode of the parser: zero for anything that is not a hexadecimal digit. */
  function Decode(c: Char): (d: nat)
    ensures d < 16
  {
    if 97 <= c <= 102 then c - 97 + 10 else if 65 <= c <= 70 then c - 65 + 10 else if 48 <= c <= 57 then c - 48 else 0
  }

  predicate Separator(i: nat) {
    i == 8 || i == 13 || i == 18 || i == 23
  }

  /** How many digits precede position `i` in its half of the text. */
  function Rank(i: nat): (r: nat)
    requires i <= 36
    ensures r <= 16
  {
    if i <= 8 then i else if i <= 13 then i - 1 else if i <= 18 then i - 2 else if i <= 23 then i - 19 else i - 20
  }

  /** The digit at position `i`. */
  function HexDigit(u: Uuid, i: nat): (c: Char)
    requires i < 36 && !Separator(i)
    ensures c != 45
  {
    HexChar(Nibbles(if i < 18 then u.ab else u.cd, 15 - Rank(i)) % 16)
  }

  /** The 36 characters in groups of 8, 4, 4, 4 and 12. */
  function HexText(u: Uuid): (s: seq<Char>)
    ensures |s| == 36
  {
    seq(36, i requires 0 <= i < 36 => if Separator(i) then 45 else HexDigit(u, i))
  }

  /** uuid::str. */
  method Str(u: Uuid) returns (text: seq<Char>)
    ensures text == HexText(u)
  {
    var uustr := new Char[36](i requires 0 <= i => if Separator(i) then 45 else 48);
    var bit := 15;
    for i := 0 to 18
      invariant bit == 15 - Rank(i)
      invariant forall j :: 0 <= j < 36 && Separator(j) ==> uustr[j] == 45
      invariant forall j :: 0 <= j < i && !Separator(j) ==> uustr[j] == HexDigit(u, j)
    {
      if i == 8 || i == 13 { continue; }
      uustr[i] := HexChar(Nibbles(u.ab, bit) % 16);
      bit := bit - 1;
    }
    bit := 15;
    for i := 18 to 36
      invariant bit == if i == 18 then 15 else 15 - Rank(i)
      invariant forall j :: 0 <= j < 36 && Separator(j) ==> uustr[j] == 45
      invariant forall j :: 0 <= j < i && !Separator(j) ==> uustr[j] == HexDigit(u, j)
    {
      if i == 18 || i == 23 { continue; }
      uustr[i] := HexChar(Nibbles(u.cd, bit) % 16);
      bit := bit - 1;
    }
    text := uustr[..];
  }

  // ---------------------------------------------------------------- parsing

  /** operator[] of a std::string, defined up to and including the terminator. */
  function CharAt(s: seq<Char>, i: nat): Char
    requires i <= |s|
  {
    if i < |s| then s[i] else 0
  }

  /** The digits at positions `from` up to `end`, separators skipped. */
  function HexValue(s: seq<Char>, from: nat, end: nat): nat
    requires from <= end <= |s| + 1
    decreases end - from
  {
    if end == from then 0
    else if Separator(end - 1) then HexValue(s, from, end - 1)
    else 16 * HexValue(s, from, end - 1) + Decode(CharAt(s, end - 1))
  }

  predicate Grouped(s: seq<Char>)
    requires |s| >= 23
  {
    CharAt(s, 8) == 45 || CharAt(s, 13) == 45 || CharAt(s, 18) == 45 || CharAt(s, 23) == 45
  }

  predicate TwoDashes(s: seq<Char>) {
    var idx := FirstDash(s, 0);
    idx != -1 && FirstDash(s, idx + 1) != -1
  }

  /** A string of two or more dashes is indexed without a look at its length, so it has to be long enough. */
  predicate Indexable(s: seq<Char>) {
    TwoDashes(s) ==> |s| >= 23 && (Grouped(s) ==> |s| >= 35)
  }

  /** The characters the base 62 parser reads: at least one, even for an empty part. */
  function Part(s: seq<Char>, from: nat, limit: nat): (r: seq<Char>)
    requires from + limit <= |s|
    ensures |r| >= 1
  {
    if limit == 0 then [CharAt(s, from)] else s[from..from + limit]
  }

  /** What a string stands for: one dash means base 62, more mean hexadecimal, none the zero uuid. */
  function Rebuilt(s: seq<Char>): Uuid
    requires Indexable(s)
  {
    var idx := FirstDash(s, 0);
    if idx == -1 then Uuid(0, 0)
    else if FirstDash(s, idx + 1) == -1 then
      Uuid(Wrap64(Value62(Part(s, 0, idx))), Wrap64(Value62(Part(s, idx + 1, |s| - (idx + 1)))))
    else if Grouped(s) then Uuid(Wrap64(HexValue(s, 0, 18)), Wrap64(HexValue(s, 19, 36)))
    else Uuid(0, 0)
  }

  lemma WrapStep(x: int, p: int)
    ensures Wrap64(62 * Wrap64(x) + p) == Wrap64(62 * x + p)
  {
    var q := x / 0x1_0000_0000_0000_0000;
    assert x == q * 0x1_0000_0000_0000_0000 + Wrap64(x);
    WrapMultiple(62 * Wrap64(x) + p, 62 * q);
  }

  lemma WrapMultiple(a: int, k: int)
    ensures Wrap64(a + k * 0x1_0000_0000_0000_0000) == Wrap64(a)
  {
  }

  /** rebase62, with every step taken to 64 bits. */
  method Rebase62(s: seq<Char>, from: nat, limit: nat) returns (res: U64)
    requires from + limit <= |s|
    ensures res == Wrap64(Value62(Part(s, from, limit)))
  {
    ghost var part := Part(s, from, limit);
    res := Wrap64(Strpos(CharAt(s, from)));
    assert part[..1] == [CharAt(s, from)];
    for i := 1 to if limit == 0 then 1 else limit
      invariant res == Wrap64(Value62(part[..i]))
    {
      ghost var next := part[..i + 1];
      assert next[..i] == part[..i];
      WrapStep(Value62(part[..i]), Strpos(s[from + i]));
      res := Wrap64(62 * res + Strpos(s[from + i]));
    }
    assert part[..|part|] == part;
  }

  lemma {:induction false} HexBound(s: seq<Char>, from: nat, end: nat)
    requires HalfOfText(from, end) && end <= |s| + 1
    ensures HexValue(s, from, end) < Pow16(Rank(end))
    decreases end - from
  {
    hide Rank, HexValue, Pow16, Separator, Decode;
    HexStep(s, from, end);
    if end == from {
      RankStart();
      Pow16Step(0);
    } else {
      HexBound(s, from, end - 1);
      RankStep(from, end);
      Pow16Step(Rank(end - 1));
    }
  }

  lemma HexStep(s: seq<Char>, from: nat, end: nat)
    requires from <= end <= |s| + 1
    ensures HexValue(s, from, end)
            == if end == from then 0
               else if Separator(end - 1) then HexValue(s, from, end - 1)
               else 16 * HexValue(s, from, end - 1) + Decode(CharAt(s, end - 1))
  {
  }

  lemma Pow16Step(k: nat)
    ensures Pow16(0) == 1 && Pow16(k + 1) == 16 * Pow16(k)
  {
  }

  lemma {:induction false} Pow16Mono(k: nat)
    requires k <= 16
    ensures Pow16(k) <= Pow16(16)
    decreases 16 - k
  {
    if k < 16 { Pow16Mono(k + 1); }
  }

  lemma HexFits(s: seq<Char>, from: nat, end: nat)
    requires HalfOfText(from, end) && end <= |s| + 1
    ensures HexValue(s, from, end) < 0x1_0000_0000_0000_0000
  {
    hide Pow16, HexValue;
    HexBound(s, from, end);
    SixteenDigits();
    Pow16Mono(Rank(end));
  }

  ghost predicate HalfOfText(from: nat, end: nat) {
    (from == 0 && end <= 18) || (from == 19 && from <= end <= 36)
  }

  /** One of the two loops over the hexadecimal digits: no shift loses a bit. */
  method ReadHex(s: seq<Char>, from: nat, end: nat) returns (n: U64)
    requires HalfOfText(from, end) && end <= |s| + 1
    ensures n == HexValue(s, from, end)
  {
    hide Decode;
    n := 0;
    for i := from to end
      invariant n == HexValue(s, from, i)
    {
      if i == 8 || i == 13 || i == 23 { continue; }
      HexFits(s, from, i + 1);
      assert HexValue(s, from, i + 1) == 16 * n + Decode(CharAt(s, i));
      n := Wrap64(16 * n) + Decode(CharAt(s, i));
    }
  }

  /** rebuild: never reads outside a string that is long enough for its dashes. */
  method Rebuild(s: seq<Char>) returns (u: Uuid)
    requires Indexable(s)
    ensures u == Rebuilt(s)
  {
    hide HexValue, Value62;
    u := Uuid(0, 0);
    var idx := FirstDash(s, 0);
    if idx != -1 {
      if FirstDash(s, idx + 1) == -1 {
        var ab := Rebase62(s, 0, idx);
        var cd := Rebase62(s, idx + 1, |s| - (idx + 1));
        u := Uuid(ab, cd);
      } else if CharAt(s, 8) == 45 || CharAt(s, 13) == 45 || CharAt(s, 18) == 45 || CharAt(s, 23) == 45 {
        var ab := ReadHex(s, 0, 18);
        var cd := ReadHex(s, 19, 36);
        u := Uuid(ab, cd);
      }
    }
  }

  // ---------------------------------------------------------------- round trips

  /** Base 62 text is read back as the same uuid, and no step of the parser overflows on it. */
  lemma Base62RoundTrip(u: Uuid)
    ensures Indexable(Base62Text(u)) && Rebuilt(Base62Text(u)) == u
  {
    hide Text62, FirstDash, Value62;
    var a, c := Text62(u.ab), Text62(u.cd);
    var s := Base62Text(u);
    TextValue(u.ab);
    TextValue(u.cd);
    assert s[0..|a|] == a && s[|a| + 1..] == c && s[|a| + 1..|a| + 1 + |c|] == c;
    FirstDashIs(s, 0, |a|);
    FirstDashNone(s, |a| + 1);
  }

  lemma {:induction false} HexReadBack(u: Uuid, s: seq<Char>, n: U64, from: nat, end: nat)
    requires s == HexText(u) && HalfOfText(from, end) && n == if from == 0 then u.ab else u.cd
    ensures HexValue(s, from, end) == Nibbles(n, 16 - Rank(end))
    decreases end - from
  {
    hide Nibbles, HexText, Rank, Decode;
    if end == from {
      RankStart();
      NibblesZero(n);
    } else {
      HexReadBack(u, s, n, from, end - 1);
      RankStep(from, end);
      if !Separator(end - 1) {
        HexTextAt(u, n, end - 1);
        NextNibble(n, 15 - Rank(end - 1));
      }
    }
  }

  lemma RankStart()
    ensures Rank(0) == 0 && Rank(19) == 0
  {
  }

  lemma RankStep(from: nat, end: nat)
    requires HalfOfText(from, end) && from < end
    ensures Rank(end) == if Separator(end - 1) then Rank(end - 1) else Rank(end - 1) + 1
  {
  }

  lemma HexTextAt(u: Uuid, n: U64, i: nat)
    requires i < 36 && !Separator(i) && n == if i < 18 then u.ab else u.cd
    ensures Decode(HexText(u)[i]) == Nibbles(n, 15 - Rank(i)) % 16
  {
  }

  lemma NibblesZero(n: U64)
    ensures Nibbles(n, 16) == 0
  {
    NibblesBound(n, 16);
  }

  lemma NextNibble(n: nat, k: nat)
    ensures Nibbles(n, k) == 16 * Nibbles(n, k + 1) + Nibbles(n, k) % 16
  {
  }

  lemma HexDashes(u: Uuid, s: seq<Char>)
    requires s == HexText(u)
    ensures FirstDash(s, 0) == 8 && FirstDash(s, 9) == 13 && s[8] == 45
  {
    hide FirstDash, HexDigit;
    FirstDashIs(s, 0, 8);
    FirstDashIs(s, 9, 13);
  }

  lemma HexHalves(u: Uuid, s: seq<Char>, mid: nat, end: nat)
    requires s == HexText(u) && mid == 18 && end == 36
    ensures HexValue(s, 0, mid) == u.ab && HexValue(s, 19, end) == u.cd
  {
    HexReadBack(u, s, u.ab, 0, mid);
    HexReadBack(u, s, u.cd, 19, end);
  }

  /** Hexadecimal text is read back as the same uuid. */
  lemma HexRoundTrip(u: Uuid)
    ensures Indexable(HexText(u)) && Rebuilt(HexText(u)) == u
  {
    hide HexText, FirstDash, HexValue;
    var s := HexText(u);
    HexDashes(u, s);
    HexHalves(u, s, 18, 36);
  }
}
