/**
 consteval_wyhash over signed and unsigned characters: its readers, the unrolled loop over 256 bytes, and what it reads.
 */
module ConstevalHash {
  import opened Arithmetic
  import opened WyHash

  // The first four secrets are those of the other routine.
  const P4: U64 := 0x1d8e_4e27_c47d_124f

  // ---------------------------------------------------------------- words from bytes

  /** Bitwise or of the low `n` bits. */
  function OrBits(a: nat, b: nat, n: nat): (r: nat)
    ensures r < Pow2(n)
  {
    if n == 0 then 0 else 2 * OrBits(a / 2, b / 2, n - 1) + if a % 2 == 1 || b % 2 == 1 then 1 else 0
  }

  function Or(a: Byte, b: Byte): Byte {
    SmallPowers();
    OrBits(a, b, 8)
  }

  lemma {:induction false} OrNothing(b: nat, n: nat)
    requires b < Pow2(n)
    ensures OrBits(b, 0, n) == b && OrBits(0, b, n) == b
  {
    if n > 0 { OrNothing(b / 2, n - 1); }
  }

  lemma {:induction false} OrOnes(ones: nat, b: nat, n: nat)
    requires ones == Pow2(n) - 1
    ensures OrBits(ones, b, n) == ones && OrBits(b, ones, n) == ones
  {
    if n > 0 {
      var h := Pow2(n - 1);
      Halved(ones, h);
      hide Pow2;
      OrOnes(h - 1, b / 2, n - 1);
    }
  }

  lemma Halved(ones: nat, h: nat)
    requires ones == 2 * h - 1
    ensures ones / 2 == h - 1 && ones % 2 == 1
  {
  }

  lemma OrByte(b: Byte)
    ensures Or(b, 0) == b && Or(0, b) == b && Or(255, b) == 255 && Or(b, 255) == 255
  {
    SmallPowers();
    OrNothing(b, 8);
    OrOnes(255, b, 8);
  }

  /** Byte `b` shifted to position `i` of a word, the most significant byte first.  A negative number brings ones
      to every byte above it. */
  function Term(n: nat, i: nat, b: Byte, negative: bool): (r: seq<Byte>)
    ensures |r| == n
  {
    seq(n, j => if j == i then b else if j < i && negative then 255 else 0)
  }

  /** The union of the first `m` terms, each converted to the width of the word on its own. */
  function Union(bs: seq<Byte>, negative: seq<bool>, m: nat): (r: seq<Byte>)
    requires |bs| == |negative| && m <= |bs|
    ensures |r| == |bs|
  {
    if m == 0 then seq(|bs|, _ => 0)
    else
      var u, t := Union(bs, negative, m - 1), Term(|bs|, m - 1, bs[m - 1], negative[m - 1]);
      seq(|bs|, j requires 0 <= j < |bs| => Or(u[j], t[j]))
  }

  ghost predicate Covered(negative: seq<bool>, j: int, m: int) {
    exists i :: j < i < m && 0 <= i < |negative| && negative[i]
  }

  /** A byte of the union is the byte itself, or ones if a term after it is negative. */
  lemma {:induction false} UnionAt(bs: seq<Byte>, negative: seq<bool>, m: nat, j: nat)
    requires |bs| == |negative| && m <= |bs| && j < |bs|
    ensures Union(bs, negative, m)[j] == if Covered(negative, j, m) then 255 else if j < m then bs[j] else 0
  {
    hide Or;
    if m > 0 {
      UnionAt(bs, negative, m - 1, j);
      OrByte(Union(bs, negative, m - 1)[j]);
      OrByte(bs[m - 1]);
      if Covered(negative, j, m - 1) {
        var i :| j < i < m - 1 && 0 <= i < |negative| && negative[i];
        assert Covered(negative, j, m);
      } else if j < m - 1 && negative[m - 1] {
        assert Covered(negative, j, m);
      }
    }
  }

  /** The number a byte string spells, the most significant byte first. */
  function Number(bs: seq<Byte>): (r: nat)
    ensures r < Pow2(8 * |bs|)
  {
    if bs == [] then 0
    else
      var last := |bs| - 1;
      Sixteen(8 * last);
      Sixteen(8 * last + 4);
      256 * Number(bs[..last]) + bs[last]
  }

  lemma {:induction false} NumberTells(a: seq<Byte>, b: seq<Byte>)
    requires |a| == |b| && Number(a) == Number(b)
    ensures a == b
  {
    if |a| > 0 {
      var last := |a| - 1;
      NumberTells(a[..last], b[..last]);
      assert a == a[..last] + [a[last]] && b == b[..last] + [b[last]];
    }
  }

  // ---------------------------------------------------------------- the readers

  /** The terms of consteval_wyr8 that are negative numbers: all but the first for signed characters; for unsigned
      ones the fifth, which is shifted as an int up to its sign bit. */
  function Negative8(signed: bool, bs: seq<Byte>): (r: seq<bool>)
    requires |bs| == 8
    ensures |r| == 8
  {
    seq(8, i requires 0 <= i < 8 => i > 0 && bs[i] >= 128 && (signed || i == 4))
  }

  /** consteval_wyr8. */
  function Word8(signed: bool, key: seq<Byte>, at: nat): U64
    requires at + 8 <= |key|
  {
    var bs := key[at..at + 8];
    LargePowers();
    Number(Union(bs, Negative8(signed, bs), 8))
  }

  /** consteval_wyr4, at 32 bits. */
  function Word4(signed: bool, key: seq<Byte>, at: nat): U64
    requires at + 4 <= |key|
  {
    var bs := key[at..at + 4];
    LargePowers();
    Number(Union(bs, seq(4, i requires 0 <= i < 4 => signed && bs[i] >= 128), 4))
  }

  /** consteval_wyr3 on the one, two or three last bytes. */
  function Word3(signed: bool, key: seq<Byte>, at: nat): U64
    requires at < |key| && |key| - at < 4
  {
    var bs: seq<Byte> := [0, 0, 0, 0, 0, key[at], key[at + (|key| - at) / 2], key[|key| - 1]];
    LargePowers();
    Number(Union(bs, seq(8, i requires 0 <= i < 8 => signed && bs[i] >= 128), 8))
  }

  ghost predicate OnesBefore(bs: seq<Byte>, i: int)
    requires i <= |bs|
  {
    forall j :: 0 <= j < i ==> bs[j] == 255
  }

  /** The union spells what the bytes spell if and only if every negative term has only ones above it. */
  lemma ReadExactly(bs: seq<Byte>, negative: seq<bool>)
    requires |bs| == |negative|
    ensures Number(Union(bs, negative, |bs|)) == Number(bs)
            <==> forall i :: 0 <= i < |bs| && negative[i] ==> OnesBefore(bs, i)
  {
    hide Union, Number;
    var u := Union(bs, negative, |bs|);
    forall j: nat | j < |bs| ensures u[j] == if Covered(negative, j, |bs|) then 255 else bs[j] {
      UnionAt(bs, negative, |bs|, j);
    }
    if Number(u) == Number(bs) {
      NumberTells(u, bs);
      forall i, j | 0 <= j < i < |bs| && negative[i] ensures bs[j] == 255 {
        assert Covered(negative, j, |bs|);
      }
    }
    if forall i :: 0 <= i < |bs| && negative[i] ==> OnesBefore(bs, i) {
      forall j: nat | j < |bs| ensures u[j] == bs[j] {
        if Covered(negative, j, |bs|) {
          var i :| j < i < |bs| && negative[i];
          assert OnesBefore(bs, i);
        }
      }
      assert u == bs;
    }
  }

  /** consteval_wyr8 over signed characters, the form the repository uses: exact if and only if every byte from 128
      on is preceded by bytes 255 only. */
  lemma Word8Signed(key: seq<Byte>, at: nat)
    requires at + 8 <= |key|
    ensures var bs := key[at..at + 8];
            Word8(true, key, at) == Number(bs) <==> forall i :: 0 <= i < 8 && bs[i] >= 128 ==> OnesBefore(bs, i)
  {
    hide Number, Union;
    var bs := key[at..at + 8];
    var negative := Negative8(true, bs);
    ReadExactly(bs, negative);
    assert OnesBefore(bs, 0);
    assert forall i :: 0 <= i < 8 ==> (negative[i] <==> i > 0 && bs[i] >= 128);
  }

  /** Over unsigned characters: if and only if the fifth byte is below 128 or the first four are all ones. */
  lemma Word8Unsigned(key: seq<Byte>, at: nat)
    requires at + 8 <= |key|
    ensures var bs := key[at..at + 8];
            Word8(false, key, at) == Number(bs) <==> bs[4] < 128 || bs[..4] == [255, 255, 255, 255]
  {
    hide Number, Union;
    var bs := key[at..at + 8];
    var negative := Negative8(false, bs);
    ReadExactly(bs, negative);
    assert forall i :: 0 <= i < 8 ==> (negative[i] <==> i == 4 && bs[4] >= 128);
    assert bs[..4] == [bs[0], bs[1], bs[2], bs[3]];
    assert OnesBefore(bs, 4) <==> bs[0] == bs[1] == bs[2] == bs[3] == 255;
  }

  /** Two different blocks that the reader does not tell apart, for either kind of character. */
  lemma Word8Loses(signed: bool)
    ensures Word8(signed, [1, 2, 3, 4, 128, 0, 0, 0], 0) == Word8(signed, [5, 6, 7, 8, 128, 0, 0, 0], 0)
  {
    hide Number, Union;
    var a: seq<Byte>, b: seq<Byte> := [1, 2, 3, 4, 128, 0, 0, 0], [5, 6, 7, 8, 128, 0, 0, 0];
    assert a[0..8] == a && b[0..8] == b;
    var na, nb := Negative8(signed, a), Negative8(signed, b);
    assert na == nb && na[4];
    forall j: nat | j < 8 ensures Union(a, na, 8)[j] == Union(b, nb, 8)[j] {
      UnionAt(a, na, 8, j);
      UnionAt(b, nb, 8, j);
      if j < 4 { assert Covered(na, j, 8); }
    }
    assert Union(a, na, 8) == Union(b, nb, 8);
  }

  // ---------------------------------------------------------------- one step

  function Keyed(w: U64, s: U64, p: U64): U64 {
    Xor(Xor(w, s), p)
  }

  /** Two words into a lane. */
  function Pair(signed: bool, key: seq<Byte>, a: nat, b: nat, s: U64, p: U64, q: U64): U64
    requires a + 8 <= |key| && b + 8 <= |key|
  {
    Mix(Keyed(Word8(signed, key, a), s, p), Keyed(Word8(signed, key, b), s, q))
  }

  /** Four words into a lane. */
  function Quad(signed: bool, key: seq<Byte>, at: nat, s: U64, p: U64, q: U64, p': U64, q': U64): U64
    requires at + 32 <= |key|
  {
    Xor(Pair(signed, key, at, at + 8, s, p, q), Pair(signed, key, at + 16, at + 24, s, p', q'))
  }

  /** 64 bytes into the two lanes. */
  function Step64(signed: bool, key: seq<Byte>, at: nat, s: (U64, U64)): (U64, U64)
    requires at + 64 <= |key|
  {
    (Quad(signed, key, at, s.0, S0, S1, S2, S3), Quad(signed, key, at + 32, s.1, S1, S2, S3, S0))
  }

  /** The simple form of the loop over 256 bytes: 64 at a time, up to the last multiple of 256. */
  function Fold64(signed: bool, key: seq<Byte>, at: nat, end: nat, s: (U64, U64)): (U64, U64)
    requires at <= end <= |key|
    decreases end - at
  {
    if at + 64 <= end then Fold64(signed, key, at + 64, end, Step64(signed, key, at, s)) else s
  }

  function Step32(signed: bool, key: seq<Byte>, at: nat, s: (U64, U64)): (U64, U64)
    requires at + 32 <= |key|
  {
    (Pair(signed, key, at, at + 8, s.0, S0, S1), Pair(signed, key, at + 16, at + 24, s.1, S2, S3))
  }

  function Fold32(signed: bool, key: seq<Byte>, at: nat, s: (U64, U64)): (U64, U64)
    requires at <= |key|
    decreases |key| - at
  {
    if |key| - at >= 32 then Fold32(signed, key, at + 32, Step32(signed, key, at, s)) else s
  }

  /** The fewer than 32 bytes left over. */
  function Rest(signed: bool, key: seq<Byte>, at: nat, s: (U64, U64)): (U64, U64)
    requires at <= |key| && |key| - at < 32
  {
    var i, n := |key| - at, |key|;
    if i == 0 then s
    else if i < 4 then (Mix(Keyed(Word3(signed, key, at), s.0, S0), Xor(s.0, S1)), s.1)
    else if i <= 8 then (Mix(Keyed(Word4(signed, key, at), s.0, S0), Keyed(Word4(signed, key, n - 4), s.0, S1)), s.1)
    else if i <= 16 then (Pair(signed, key, at, n - 8, s.0, S0, S1), s.1)
    else if i <= 24 then
      (Pair(signed, key, at, at + 8, s.0, S0, S1), Mix(Keyed(Word8(signed, key, n - 8), s.1, S2), Xor(s.1, S3)))
    else (Pair(signed, key, at, at + 8, s.0, S0, S1), Pair(signed, key, at + 16, n - 8, s.1, S2, S3))
  }

  /** A key of at most 32 bytes, before the last mix. */
  function Short(signed: bool, key: seq<Byte>, seed: U64): U64
    requires 0 < |key| <= 32
  {
    var n := |key|;
    if n < 4 then Mix(Keyed(Word3(signed, key, 0), seed, S0), Xor(seed, S1))
    else if n <= 8 then Mix(Keyed(Word4(signed, key, 0), seed, S0), Keyed(Word4(signed, key, n - 4), seed, S1))
    else if n <= 16 then Pair(signed, key, 0, n - 8, seed, S0, S1)
    else if n <= 24 then
      Xor(Pair(signed, key, 0, 8, seed, S0, S1), Mix(Keyed(Word8(signed, key, n - 8), seed, S2), Xor(seed, S3)))
    else Xor(Pair(signed, key, 0, 8, seed, S0, S1), Pair(signed, key, 16, n - 8, seed, S2, S3))
  }

  function HashOf(signed: bool, key: seq<Byte>, seed: U64): U64
    requires |key| < 0x1_0000_0000_0000_0000
  {
    var n := |key|;
    if n == 0 then 0
    else if n <= 32 then Mix(Short(signed, key, seed), Xor(n, P4))
    else
      var whole := n - n % 256;
      var tail := n - n % 32;
      var s := Rest(signed, key, tail, Fold32(signed, key, whole, Fold64(signed, key, 0, whole, (seed, seed))));
      Mix(Xor(s.0, s.1), Xor(n, P4))
  }

  // ---------------------------------------------------------------- reading

  method R8(signed: bool, key: seq<Byte>, at: nat, ghost seen: set<int>) returns (v: U64, ghost seen': set<int>)
    requires at + 8 <= |key|
    ensures v == Word8(signed, key, at) && seen' == seen + Span(at, at + 8)
  {
    v := Word8(signed, key, at);
    seen' := seen + Span(at, at + 8);
  }

  method R4(signed: bool, key: seq<Byte>, at: nat, ghost seen: set<int>) returns (v: U64, ghost seen': set<int>)
    requires at + 4 <= |key|
    ensures v == Word4(signed, key, at) && seen' == seen + Span(at, at + 4)
  {
    v := Word4(signed, key, at);
    seen' := seen + Span(at, at + 4);
  }

  method R3(signed: bool, key: seq<Byte>, at: nat, ghost seen: set<int>) returns (v: U64, ghost seen': set<int>)
    requires at < |key| && |key| - at < 4
    ensures v == Word3(signed, key, at) && seen' == seen + {at, at + (|key| - at) / 2, |key| - 1}
  {
    v := Word3(signed, key, at);
    seen' := seen + {at, at + (|key| - at) / 2, |key| - 1};
  }

  method ReadPair(signed: bool, key: seq<Byte>, a: nat, b: nat, s: U64, p: U64, q: U64, ghost seen: set<int>)
    returns (v: U64, ghost seen': set<int>)
    requires a + 8 <= |key| && b + 8 <= |key|
    ensures v == Pair(signed, key, a, b, s, p, q) && seen' == seen + Span(a, a + 8) + Span(b, b + 8)
  {
    hide Word8, Mix, Keyed;
    var x, y;
    x, seen' := R8(signed, key, a, seen);
    y, seen' := R8(signed, key, b, seen');
    v := MixLimbs(Keyed(x, s, p), Keyed(y, s, q));
  }

  method ReadQuad(signed: bool, key: seq<Byte>, at: nat, s: U64, p: U64, q: U64, p': U64, q': U64, ghost seen: set<int>)
    returns (v: U64, ghost seen': set<int>)
    requires at + 32 <= |key|
    ensures v == Quad(signed, key, at, s, p, q, p', q') && seen' == seen + Span(at, at + 32)
  {
    hide Pair, Xor;
    var x, y;
    x, seen' := ReadPair(signed, key, at, at + 8, s, p, q, seen);
    y, seen' := ReadPair(signed, key, at + 16, at + 24, s, p', q', seen');
    v := Xor(x, y);
    assert Span(at, at + 32)
        == Span(at, at + 8) + Span(at + 8, at + 16) + Span(at + 16, at + 24) + Span(at + 24, at + 32);
  }

  method ReadStep64(signed: bool, key: seq<Byte>, at: nat, s: (U64, U64), ghost seen: set<int>)
    returns (t: (U64, U64), ghost seen': set<int>)
    requires at + 64 <= |key|
    ensures t == Step64(signed, key, at, s) && seen' == seen + Span(at, at + 64)
  {
    hide Quad;
    var x, y;
    x, seen' := ReadQuad(signed, key, at, s.0, S0, S1, S2, S3, seen);
    y, seen' := ReadQuad(signed, key, at + 32, s.1, S1, S2, S3, S0, seen');
    t := (x, y);
    assert Span(at, at + 64) == Span(at, at + 32) + Span(at + 32, at + 64);
  }

  /** The body of the loop over 256 bytes. */
  method Read256(signed: bool, key: seq<Byte>, at: nat, s: (U64, U64), ghost seen: set<int>, ghost end: nat)
    returns (t: (U64, U64), ghost seen': set<int>)
    requires at + 256 <= end <= |key|
    ensures Fold64(signed, key, at + 256, end, t) == Fold64(signed, key, at, end, s)
    ensures seen' == seen + Span(at, at + 256)
  {
    hide Step64;
    t, seen' := ReadStep64(signed, key, at, s, seen);
    assert Fold64(signed, key, at + 64, end, t) == Fold64(signed, key, at, end, s);
    t, seen' := ReadStep64(signed, key, at + 64, t, seen');
    assert Fold64(signed, key, at + 128, end, t) == Fold64(signed, key, at, end, s);
    t, seen' := ReadStep64(signed, key, at + 128, t, seen');
    assert Fold64(signed, key, at + 192, end, t) == Fold64(signed, key, at, end, s);
    t, seen' := ReadStep64(signed, key, at + 192, t, seen');
    assert Span(at, at + 256)
        == Span(at, at + 64) + Span(at + 64, at + 128) + Span(at + 128, at + 192) + Span(at + 192, at + 256);
  }

  /** The loop over 256 bytes, four steps of the simple form at a time. */
  method Read256s(signed: bool, key: seq<Byte>, seed: U64) returns (p: nat, s: (U64, U64), ghost seen: set<int>)
    ensures p == |key| - |key| % 256 && seen == Span(0, p)
    ensures s == Fold64(signed, key, 0, p, (seed, seed))
  {
    hide Fold64;
    ghost var whole := |key| - |key| % 256;
    p, s, seen := 0, (seed, seed), {};
    while |key| - p >= 256
      invariant p <= whole && p % 256 == 0
      invariant Fold64(signed, key, p, whole, s) == Fold64(signed, key, 0, whole, (seed, seed))
      invariant seen == Span(0, p)
      decreases |key| - p
    {
      s, seen := Read256(signed, key, p, s, seen, whole);
      assert Span(0, p + 256) == Span(0, p) + Span(p, p + 256);
      p := p + 256;
    }
    FoldDone(signed, key, p, s);
  }

  lemma FoldDone(signed: bool, key: seq<Byte>, end: nat, s: (U64, U64))
    requires end <= |key|
    ensures Fold64(signed, key, end, end, s) == s
  {
  }

  method Read32(signed: bool, key: seq<Byte>, p: nat, s: (U64, U64), ghost seen: set<int>)
    returns (t: (U64, U64), ghost seen': set<int>)
    requires p + 32 <= |key| && seen == Span(0, p)
    ensures t == Step32(signed, key, p, s) && seen' == Span(0, p + 32)
  {
    hide Pair;
    var x, y;
    x, seen' := ReadPair(signed, key, p, p + 8, s.0, S0, S1, seen);
    y, seen' := ReadPair(signed, key, p + 16, p + 24, s.1, S2, S3, seen');
    t := (x, y);
    assert seen' == Span(0, p) + Span(p, p + 8) + Span(p + 8, p + 16) + Span(p + 16, p + 24) + Span(p + 24, p + 32);
  }

  /** The loop over 32 bytes. */
  method Read32s(signed: bool, key: seq<Byte>, p0: nat, s0: (U64, U64), ghost seen0: set<int>)
    returns (p: nat, s: (U64, U64), ghost seen: set<int>)
    requires p0 <= |key| && p0 % 32 == 0 && seen0 == Span(0, p0)
    ensures p == |key| - |key| % 32 && seen == Span(0, p)
    ensures s == Fold32(signed, key, p0, s0)
  {
    hide Step32;
    p, s, seen := p0, s0, seen0;
    while |key| - p >= 32
      invariant p <= |key| && p % 32 == 0
      invariant Fold32(signed, key, p, s) == Fold32(signed, key, p0, s0)
      invariant seen == Span(0, p)
      decreases |key| - p
    {
      s, seen := Read32(signed, key, p, s, seen);
      p := p + 32;
    }
  }

  lemma WholeBlocks(n: nat)
    ensures (n - n % 256) % 32 == 0
  {
    var q := n / 256 * 8;
    assert n - n % 256 == q * 32;
    Multiple32(q);
  }

  lemma Multiple32(q: nat)
    ensures q * 32 % 32 == 0
  {
  }

  method ReadRest(signed: bool, key: seq<Byte>, p: nat, s: (U64, U64), ghost seen0: set<int>)
    returns (t: (U64, U64), ghost seen: set<int>)
    requires p <= |key| && |key| - p < 32 && seen0 == Span(0, p)
    ensures t == Rest(signed, key, p, s) && seen == Span(0, |key|)
  {
    hide Pair, Xor, Mix, Keyed, Word8, Word3, Word4;
    var i, n := |key| - p, |key|;
    var x, y;
    t, seen := s, seen0;
    if i == 0 {
    } else if i < 4 {
      x, seen := R3(signed, key, p, seen);
      x := MixLimbs(Keyed(x, s.0, S0), Xor(s.0, S1));
      t := (x, s.1);
    } else if i <= 8 {
      x, seen := R4(signed, key, p, seen);
      y, seen := R4(signed, key, p + i - 4, seen);
      x := MixLimbs(Keyed(x, s.0, S0), Keyed(y, s.0, S1));
      t := (x, s.1);
    } else if i <= 16 {
      x, seen := ReadPair(signed, key, p, p + i - 8, s.0, S0, S1, seen);
      t := (x, s.1);
    } else if i <= 24 {
      x, seen := ReadPair(signed, key, p, p + 8, s.0, S0, S1, seen);
      y, seen := R8(signed, key, p + i - 8, seen);
      y := MixLimbs(Keyed(y, s.1, S2), Xor(s.1, S3));
      t := (x, y);
    } else {
      x, seen := ReadPair(signed, key, p, p + 8, s.0, S0, S1, seen);
      y, seen := ReadPair(signed, key, p + 16, p + i - 8, s.1, S2, S3, seen);
      t := (x, y);
    }
    assert forall k :: 0 <= k < n ==> k in seen;
  }

  method ReadShort(signed: bool, key: seq<Byte>, seed: U64) returns (t: U64, ghost seen: set<int>)
    requires 0 < |key| <= 32
    ensures t == Short(signed, key, seed) && seen == Span(0, |key|)
  {
    hide Pair, Xor, Mix, Keyed, Word8, Word3, Word4;
    var n := |key|;
    var x, y;
    seen := {};
    if n < 4 {
      x, seen := R3(signed, key, 0, seen);
      t := MixLimbs(Keyed(x, seed, S0), Xor(seed, S1));
    } else if n <= 8 {
      x, seen := R4(signed, key, 0, seen);
      y, seen := R4(signed, key, n - 4, seen);
      t := MixLimbs(Keyed(x, seed, S0), Keyed(y, seed, S1));
    } else if n <= 16 {
      t, seen := ReadPair(signed, key, 0, n - 8, seed, S0, S1, seen);
    } else if n <= 24 {
      x, seen := ReadPair(signed, key, 0, 8, seed, S0, S1, seen);
      y, seen := R8(signed, key, n - 8, seen);
      y := MixLimbs(Keyed(y, seed, S2), Xor(seed, S3));
      t := Xor(x, y);
    } else {
      x, seen := ReadPair(signed, key, 0, 8, seed, S0, S1, seen);
      y, seen := ReadPair(signed, key, 16, n - 8, seed, S2, S3, seen);
      t := Xor(x, y);
    }
    assert forall k :: 0 <= k < n ==> k in seen;
  }

  /** consteval_wyhash: for every length, every byte is read and nothing else. */
  method Hash(signed: bool, key: seq<Byte>, seed: U64) returns (h: U64, ghost seen: set<int>)
    requires |key| < 0x1_0000_0000_0000_0000
    ensures h == HashOf(signed, key, seed)
    ensures seen == Span(0, |key|)
  {
    hide Short, Rest, Fold32, Fold64, Xor, Mix;
    h, seen := 0, {};
    assert |key| == 0 ==> Span(0, |key|) == {};
    if |key| == 0 {
    } else if |key| <= 32 {
      h, seen := ReadShort(signed, key, seed);
      h := MixLimbs(h, Xor(|key|, P4));
    } else {
      var p, s;
      p, s, seen := Read256s(signed, key, seed);
      WholeBlocks(|key|);
      p, s, seen := Read32s(signed, key, p, s, seen);
      s, seen := ReadRest(signed, key, p, s, seen);
      h := MixLimbs(Xor(s.0, s.1), Xor(|key|, P4));
    }
  }
}
