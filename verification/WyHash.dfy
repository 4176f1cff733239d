/**
 The 64 by 64 bit multiplication from 32-bit limbs, and the read schedule of the two wyhash routines.  Words are
 read little-endian, as on the machines the first routine supports.
 */
module WyHash {
  import opened Arithmetic

  // ---------------------------------------------------------------- the product

  lemma LimbProduct(ha: int, la: int, hb: int, lb: int)
    ensures (ha * 0x1_0000_0000 + la) * (hb * 0x1_0000_0000 + lb)
            == ha * hb * 0x1_0000_0000_0000_0000 + (ha * lb + hb * la) * 0x1_0000_0000 + la * lb
  {
  }

  lemma LimbBounds(ha: nat, hb: nat, la: nat, lb: nat)
    requires ha < 0x1_0000_0000 && hb < 0x1_0000_0000 && la < 0x1_0000_0000 && lb < 0x1_0000_0000
    ensures 0 <= ha * hb <= 0xffff_fffe_0000_0001 && 0 <= ha * lb <= 0xffff_fffe_0000_0001
    ensures 0 <= hb * la <= 0xffff_fffe_0000_0001 && 0 <= la * lb <= 0xffff_fffe_0000_0001
  {
    NatProduct(ha, hb, 0xffff_ffff, 0xffff_ffff);
    NatProduct(ha, lb, 0xffff_ffff, 0xffff_ffff);
    NatProduct(hb, la, 0xffff_ffff, 0xffff_ffff);
    NatProduct(la, lb, 0xffff_ffff, 0xffff_ffff);
  }

  lemma ShiftUp(x: U64)
    ensures Wrap64(x * 0x1_0000_0000) == x % 0x1_0000_0000 * 0x1_0000_0000
  {
    var h, l := x / 0x1_0000_0000, x % 0x1_0000_0000;
    assert x * 0x1_0000_0000 == h * 0x1_0000_0000_0000_0000 + l * 0x1_0000_0000;
  }

  /** A sum of words that wraps is below either of them. */
  lemma CarryOut(x: U64, y: U64)
    ensures var t := Wrap64(x + y); t + (if t < x then 0x1_0000_0000_0000_0000 else 0) == x + y
  {
  }

  /** The partial products put together. */
  method Carry(rh: U64, rm0: U64, rm1: U64, rl: U64) returns (lo: U64, hi: U64)
    requires rh <= 0xffff_fffe_0000_0001 && rm0 <= 0xffff_fffe_0000_0001 && rm1 <= 0xffff_fffe_0000_0001
    ensures lo + hi * 0x1_0000_0000_0000_0000
            == rh * 0x1_0000_0000_0000_0000 + (rm0 + rm1) * 0x1_0000_0000 + rl
  {
    hide Wrap64;
    var up0, up1 := Wrap64(rm0 * 0x1_0000_0000), Wrap64(rm1 * 0x1_0000_0000);
    var t := Wrap64(rl + up0);
    var c := if t < rl then 1 else 0;
    lo := Wrap64(t + up1);
    c := c + if lo < t then 1 else 0;
    ShiftUp(rm0);
    ShiftUp(rm1);
    CarryOut(rl, up0);
    CarryOut(t, up1);
    hi := rh + rm0 / 0x1_0000_0000 + rm1 / 0x1_0000_0000 + c;
  }

  /** The limb path of mum: exactly the low and the high word of the product, without overflow in the high
      word. */
  method Mum(a: U64, b: U64) returns (lo: U64, hi: U64)
    ensures lo + hi * 0x1_0000_0000_0000_0000 == a * b
  {
    var ha, hb, la, lb := a / 0x1_0000_0000, b / 0x1_0000_0000, a % 0x1_0000_0000, b % 0x1_0000_0000;
    LimbBounds(ha, hb, la, lb);
    var rh, rm0, rm1, rl := ha * hb, ha * lb, hb * la, la * lb;
    lo, hi := Carry(rh, rm0, rm1, rl);
    LimbProduct(ha, la, hb, lb);
  }

  // ---------------------------------------------------------------- words

  /** Exclusive or of the low `n` bits. */
  function XorBits(a: nat, b: nat, n: nat): (r: nat)
    ensures r < Pow2(n)
  {
    if n == 0 then 0 else 2 * XorBits(a / 2, b / 2, n - 1) + (a + b) % 2
  }

  function Xor(a: U64, b: U64): U64 {
    LargePowers();
    XorBits(a, b, 64)
  }

  lemma HighWord(a: U64, b: U64)
    ensures 0 <= a * b / 0x1_0000_0000_0000_0000 < 0x1_0000_0000_0000_0000
  {
    NatProduct(a, b, 0xffff_ffff_ffff_ffff, 0xffff_ffff_ffff_ffff);
  }

  /** The two halves of the product, combined. */
  function Mix(a: U64, b: U64): U64 {
    HighWord(a, b);
    Xor(a * b % 0x1_0000_0000_0000_0000, a * b / 0x1_0000_0000_0000_0000)
  }

  method MixLimbs(a: U64, b: U64) returns (r: U64)
    ensures r == Mix(a, b)
  {
    var lo, hi := Mum(a, b);
    ProductHalves(a * b, lo, hi);
    r := Xor(lo, hi);
  }

  lemma ProductHalves(p: nat, lo: U64, hi: U64)
    requires lo + hi * 0x1_0000_0000_0000_0000 == p
    ensures p % 0x1_0000_0000_0000_0000 == lo && p / 0x1_0000_0000_0000_0000 == hi
  {
  }

  /** `w` bytes from position `at`, the least significant first. */
  function Little(key: seq<Byte>, at: nat, w: nat): (r: nat)
    requires at + w <= |key| && w <= 8
    ensures r < Pow2(8 * w)
    decreases w
  {
    if w == 0 then 0
    else
      Sixteen(8 * w - 8);
      Sixteen(8 * w - 4);
      key[at] + 256 * Little(key, at + 1, w - 1)
  }

  function Word8(key: seq<Byte>, at: nat): U64
    requires at + 8 <= |key|
  {
    LargePowers();
    Little(key, at, 8)
  }

  /** Two four-byte words in one. */
  function Word44(key: seq<Byte>, at: nat, at': nat): U64
    requires at + 4 <= |key| && at' + 4 <= |key|
  {
    LargePowers();
    Little(key, at, 4) * 0x1_0000_0000 + Little(key, at', 4)
  }

  /** One, two or three bytes. */
  function Word3(key: seq<Byte>): U64
    requires 1 <= |key| <= 3
  {
    key[0] as int * 0x1_0000 + key[|key| / 2] as int * 0x100 + key[|key| - 1]
  }

  // ---------------------------------------------------------------- the hash

  const S0: U64 := 0xa076_1d64_78bd_642f
  const S1: U64 := 0xe703_7ed1_a0b4_28db
  const S2: U64 := 0x8ebc_6af0_9c88_c6e3
  const S3: U64 := 0x5899_65cc_7537_4cc3

  /** Sixteen bytes into one lane. */
  function Round(key: seq<Byte>, p: nat, secret: U64, lane: U64): U64
    requires p + 16 <= |key|
  {
    Mix(Xor(Word8(key, p), secret), Xor(Word8(key, p + 8), lane))
  }

  /** Three lanes over blocks of 48 bytes while more than 48 are left, and where they end. */
  function Lanes(key: seq<Byte>, p: nat, a: U64, b: U64, c: U64): (r: (U64, U64, U64, nat))
    requires p <= |key|
    ensures p <= r.3 <= |key| && |key| - r.3 <= 48 && (|key| > p ==> |key| > r.3)
    decreases |key| - p
  {
    if |key| - p > 48 then
      Lanes(key, p + 48, Round(key, p, S1, a), Round(key, p + 16, S2, b), Round(key, p + 32, S3, c))
    else (a, b, c, p)
  }

  /** One lane over blocks of 16 bytes while more than 16 are left. */
  function Blocks(key: seq<Byte>, p: nat, seed: U64): U64
    requires p <= |key|
    decreases |key| - p
  {
    if |key| - p > 16 then Blocks(key, p + 16, Round(key, p, S1, seed)) else seed
  }

  /** The two words that end the hash of a key of at most 16 bytes. */
  function Short(key: seq<Byte>): (U64, U64)
    requires |key| <= 16
  {
    var n := |key|;
    if n >= 4 then (Word44(key, 0, n / 8 * 4), Word44(key, n - 4, n - 4 - n / 8 * 4))
    else if n > 0 then (Word3(key), 0)
    else (0, 0)
  }

  /** The seed of a longer one. */
  function Long(key: seq<Byte>): U64
    requires |key| > 16
  {
    if |key| > 48 then
      var r := Lanes(key, 0, S0, S0, S0);
      Blocks(key, r.3, Xor(r.0, Xor(r.1, r.2)))
    else Blocks(key, 0, S0)
  }

  function Finish(n: U64, a: U64, b: U64, seed: U64): U64 {
    Mix(Xor(S1, n), Mix(Xor(a, S1), Xor(b, seed)))
  }

  function HashOf(key: seq<Byte>): U64
    requires |key| < 0x1_0000_0000_0000_0000
  {
    if |key| <= 16 then Finish(|key|, Short(key).0, Short(key).1, S0)
    else Finish(|key|, Word8(key, |key| - 16), Word8(key, |key| - 8), Long(key))
  }

  /** A little-endian word tells the bytes it was read from. */
  lemma {:induction false} LittleTells(a: seq<Byte>, b: seq<Byte>, at: nat, w: nat)
    requires at + w <= |a| && |a| == |b| && w <= 8 && Little(a, at, w) == Little(b, at, w)
    ensures forall i :: at <= i < at + w ==> a[i] == b[i]
    decreases w
  {
    if w > 0 {
      LittleTells(a, b, at + 1, w - 1);
    }
  }

  lemma Word44Tells(a: seq<Byte>, b: seq<Byte>, at: nat, at': nat)
    requires at + 4 <= |a| && at' + 4 <= |a| && |a| == |b| && Word44(a, at, at') == Word44(b, at, at')
    ensures forall i :: at <= i < at + 4 || at' <= i < at' + 4 ==> a[i] == b[i]
  {
    hide Little;
    LargePowers();
    LittleTells(a, b, at, 4);
    LittleTells(a, b, at', 4);
  }

  /** Two keys of one length up to 16 give the same two words exactly when they are equal: nothing is lost
      before the words are mixed. */
  lemma ShortTells(a: seq<Byte>, b: seq<Byte>)
    requires |a| == |b| <= 16
    ensures Short(a) == Short(b) <==> a == b
  {
    hide Word44;
    var n := |a|;
    if Short(a) == Short(b) {
      if n >= 4 {
        Word44Tells(a, b, 0, n / 8 * 4);
        Word44Tells(a, b, n - 4, n - 4 - n / 8 * 4);
      } else if n > 0 {
        assert a[0] == b[0] && a[n / 2] == b[n / 2] && a[n - 1] == b[n - 1];
      }
    }
  }

  // ---------------------------------------------------------------- reading

  /** The positions from `a` up to but not including `b`. */
  ghost function Span(a: int, b: int): set<int> {
    set i | a <= i < b && Within(a, i, b)
  }

  ghost predicate Within(a: int, i: int, b: int) {
    a <= i < b
  }

  /** r8: reads eight bytes; `seen` collects what has been read. */
  method R8(key: seq<Byte>, at: nat, ghost seen: set<int>) returns (v: U64, ghost seen': set<int>)
    requires at + 8 <= |key|
    ensures v == Word8(key, at) && seen' == seen + Span(at, at + 8)
  {
    v := Word8(key, at);
    seen' := seen + Span(at, at + 8);
  }

  method R44(key: seq<Byte>, at: nat, at': nat, ghost seen: set<int>) returns (v: U64, ghost seen': set<int>)
    requires at + 4 <= |key| && at' + 4 <= |key|
    ensures v == Word44(key, at, at') && seen' == seen + Span(at, at + 4) + Span(at', at' + 4)
  {
    v := Word44(key, at, at');
    seen' := seen + Span(at, at + 4) + Span(at', at' + 4);
  }

  method R3(key: seq<Byte>, ghost seen: set<int>) returns (v: U64, ghost seen': set<int>)
    requires 1 <= |key| <= 3
    ensures v == Word3(key) && seen' == seen + {0, |key| / 2, |key| - 1}
  {
    v := Word3(key);
    seen' := seen + {0, |key| / 2, |key| - 1};
  }

  method MixRead(key: seq<Byte>, p: nat, secret: U64, lane: U64, ghost seen: set<int>)
    returns (v: U64, ghost seen': set<int>)
    requires p + 16 <= |key|
    ensures v == Round(key, p, secret, lane) && seen' == seen + Span(p, p + 16)
  {
    hide Xor, Word8, Mix;
    var x, y;
    x, seen' := R8(key, p, seen);
    y, seen' := R8(key, p + 8, seen');
    v := MixLimbs(Xor(x, secret), Xor(y, lane));
    assert Span(p, p + 16) == Span(p, p + 8) + Span(p + 8, p + 16);
  }

  /** The loop over three lanes. */
  method ReadLanes(key: seq<Byte>) returns (seed: U64, p: nat, ghost seen: set<int>)
    requires |key| > 48
    ensures var r := Lanes(key, 0, S0, S0, S0); seed == Xor(r.0, Xor(r.1, r.2)) && p == r.3
    ensures seen == Span(0, p)
  {
    hide Xor, Round;
    p, seen := 0, {};
    seed := S0;
    var see1, see2, more := seed, seed, true;
    while more
      invariant p < |key| && more == (|key| - p > 48)
      invariant Lanes(key, p, seed, see1, see2) == Lanes(key, 0, S0, S0, S0)
      invariant seen == Span(0, p)
      decreases |key| - p
    {
      seed, seen := MixRead(key, p, S1, seed, seen);
      see1, seen := MixRead(key, p + 16, S2, see1, seen);
      see2, seen := MixRead(key, p + 32, S3, see2, seen);
      assert Span(0, p + 48) == Span(0, p) + Span(p, p + 16) + Span(p + 16, p + 32) + Span(p + 32, p + 48);
      p := p + 48;
      more := |key| - p > 48;
    }
    seed := Xor(seed, Xor(see1, see2));
  }

  /** The loop over sixteen bytes. */
  method ReadBlocks(key: seq<Byte>, p0: nat, seed0: U64, ghost seen0: set<int>)
    returns (p: nat, seed: U64, ghost seen: set<int>)
    requires p0 < |key| && seen0 == Span(0, p0)
    ensures seed == Blocks(key, p0, seed0) && p < |key| && |key| - p <= 16 && seen == Span(0, p)
  {
    hide Xor, Round;
    p, seed, seen := p0, seed0, seen0;
    while |key| - p > 16
      invariant p < |key|
      invariant Blocks(key, p, seed) == Blocks(key, p0, seed0)
      invariant seen == Span(0, p)
      decreases |key| - p
    {
      seed, seen := MixRead(key, p, S1, seed, seen);
      assert Span(0, p + 16) == Span(0, p) + Span(p, p + 16);
      p := p + 16;
    }
  }

  /** wyhash::hash: for every length, every byte is read and nothing else. */
  method Hash(key: seq<Byte>) returns (h: U64, ghost seen: set<int>)
    requires |key| < 0x1_0000_0000_0000_0000
    ensures h == HashOf(key)
    ensures seen == Span(0, |key|)
  {
    hide Xor, Mix, Round, Word8, Word44, Word3, Lanes, Blocks;
    var n := |key|;
    var seed, a, b := S0, 0, 0;
    seen := {};
    if n <= 16 {
      if n >= 4 {
        a, seen := R44(key, 0, n / 8 * 4, seen);
        b, seen := R44(key, n - 4, n - 4 - n / 8 * 4, seen);
      } else if n > 0 {
        a, seen := R3(key, seen);
      }
    } else {
      var p := 0;
      assert Span(0, p) == {};
      if n > 48 {
        seed, p, seen := ReadLanes(key);
      }
      p, seed, seen := ReadBlocks(key, p, seed, seen);
      a, seen := R8(key, n - 16, seen);
      b, seen := R8(key, n - 8, seen);
    }
    assert forall i :: 0 <= i < n ==> i in seen;
    var inner := MixLimbs(Xor(a, S1), Xor(b, seed));
    h := MixLimbs(Xor(S1, n), inner);
  }
}
