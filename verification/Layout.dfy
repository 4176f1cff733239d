/** Positions on a circular array of `n` buckets. */
module Ring {

  /** The bucket after `b`, wrapping at the end. */
  function Next(b: nat, n: nat): (r: nat)
    requires b < n
    ensures r < n
  {
    if b + 1 == n then 0 else b + 1
  }

  /** How many steps forward lead from `h` to `b`. */
  function Dist(h: nat, b: nat, n: nat): (r: nat)
    requires h < n && b < n
    ensures r < n
  {
    if h <= b then b - h else b + n - h
  }

  /** The bucket `j` steps after `h`. */
  function Walk(h: nat, j: nat, n: nat): (r: nat)
    requires h < n && j <= n
    ensures r < n
  {
    if h + j < n then h + j else h + j - n
  }
}

/**
 The bucket array of `ankerl::unordered_dense::detail::table`, as a value.

 A bucket packs (circular distance to the home bucket + 1) * 256 + fingerprint into one word, zero
 meaning empty, next to an index into the dense value vector.  `org` lists, per value index, the home
 bucket and fingerprint its key hashes to.  `pos` is the inverse of the index: it maps each placed
 value index to its bucket.
 */
module Layout {
  import opened Ring

  datatype Bucket = Bucket(df: nat, idx: nat)

  datatype Origin = Origin(home: nat, fp: nat)

  const EMPTY: Bucket := Bucket(0, 0)

  /** The word a key of origin `o` carries `j` steps after its home. */
  function Packed(o: Origin, j: nat): nat {
    (j + 1) * 256 + o.fp
  }

  ghost predicate OriginOk(o: Origin, n: nat) {
    o.home < n && o.fp < 256
  }

  /** Placed index `i` sits in its bucket with its exact distance and fingerprint. */
  ghost predicate InPlace(bs: seq<Bucket>, org: seq<Origin>, pos: map<nat, nat>, i: nat) {
    && i in pos && i < |org| && OriginOk(org[i], |bs|) && pos[i] < |bs|
    && bs[pos[i]] == Bucket(Packed(org[i], Dist(org[i].home, pos[i], |bs|)), i)
  }

  /** Bucket `b` is empty or belongs to the index it carries. */
  ghost predicate Owned(bs: seq<Bucket>, pos: map<nat, nat>, b: nat) {
    b < |bs| && (bs[b].df != 0 ==> bs[b].idx in pos && pos[bs[b].idx] == b)
  }

  ghost predicate InRange(pos: map<nat, nat>, m: nat, n: nat) {
    forall i :: i in pos ==> i < m && pos[i] < n
  }

  /** Non-empty buckets and placed indices are in bijection. */
  ghost predicate Placed(bs: seq<Bucket>, org: seq<Origin>, pos: map<nat, nat>) {
    && InRange(pos, |org|, |bs|)
    && (forall i {:trigger InPlace(bs, org, pos, i)} :: i in pos ==> InPlace(bs, org, pos, i))
    && (forall b {:trigger Owned(bs, pos, b)} :: 0 <= b < |bs| ==> Owned(bs, pos, b))
  }

  /** If the bucket after `b` is displaced from home, `b` is at most one distance unit behind it,
      fingerprints included. */
  ghost predicate InOrder(bs: seq<Bucket>, b: nat) {
    b < |bs| && (bs[Next(b, |bs|)].df >= 512 ==> bs[b].df + 256 >= bs[Next(b, |bs|)].df)
  }

  /** The neighbour ordering, around the wrap. */
  ghost predicate Ordered(bs: seq<Bucket>) {
    forall b {:trigger InOrder(bs, b)} :: 0 <= b < |bs| ==> InOrder(bs, b)
  }

  ghost predicate Good(bs: seq<Bucket>, org: seq<Origin>, pos: map<nat, nat>) {
    Placed(bs, org, pos) && Ordered(bs)
  }

  /** A probe for origin `o` has walked over `j` buckets, none of them smaller than the probe. */
  ghost predicate Passed(bs: seq<Bucket>, o: Origin, j: nat) {
    && OriginOk(o, |bs|) && j <= |bs|
    && forall t {:trigger Walk(o.home, t, |bs|)} :: 0 <= t < j ==> bs[Walk(o.home, t, |bs|)].df >= Packed(o, t)
  }

  /** Where a new key of origin `o` may be put: after `j` passed buckets, in front of a bucket that is
      not larger than the probe. */
  ghost predicate InsertSpot(bs: seq<Bucket>, o: Origin, j: nat) {
    Passed(bs, o, j) && j < |bs| && Packed(o, j) >= bs[Walk(o.home, j, |bs|)].df
  }

  // ---------------------------------------------------------------- consequences of the invariant

  /** A bucket at least as large as the probe is preceded, back to the probe's home, only by buckets at
      least as large as the probe was there. */
  lemma {:induction false} Behind(bs: seq<Bucket>, o: Origin, d: nat, j: nat)
    requires Ordered(bs) && OriginOk(o, |bs|) && j <= d < |bs|
    requires bs[Walk(o.home, d, |bs|)].df >= Packed(o, d)
    ensures bs[Walk(o.home, j, |bs|)].df >= Packed(o, j)
    decreases d - j
  {
    if j < d {
      Behind(bs, o, d, j + 1);
      assert Next(Walk(o.home, j, |bs|), |bs|) == Walk(o.home, j + 1, |bs|);
      assert InOrder(bs, Walk(o.home, j, |bs|));
    }
  }

  lemma PassedBehind(bs: seq<Bucket>, o: Origin, d: nat)
    requires Ordered(bs) && OriginOk(o, |bs|) && d < |bs|
    requires bs[Walk(o.home, d, |bs|)].df >= Packed(o, d)
    ensures Passed(bs, o, d + 1)
  {
    forall t | 0 <= t < d + 1 ensures bs[Walk(o.home, t, |bs|)].df >= Packed(o, t) {
      Behind(bs, o, d, t);
    }
  }

  /** No probe for a placed index stops before its bucket. */
  lemma PassedToPosition(bs: seq<Bucket>, org: seq<Origin>, pos: map<nat, nat>, i: nat)
    requires Good(bs, org, pos) && i in pos
    ensures InPlace(bs, org, pos, i)
    ensures Passed(bs, org[i], Dist(org[i].home, pos[i], |bs|))
    ensures Walk(org[i].home, Dist(org[i].home, pos[i], |bs|), |bs|) == pos[i]
  {
    assert InPlace(bs, org, pos, i);
    var d := Dist(org[i].home, pos[i], |bs|);
    assert Walk(org[i].home, d, |bs|) == pos[i];
    PassedBehind(bs, org[i], d);
  }

  /** A run of `j` non-empty buckets holds `j` different indices. */
  lemma {:induction false} RunIndices(bs: seq<Bucket>, org: seq<Origin>, pos: map<nat, nat>, h: nat, j: nat)
    returns (s: set<nat>)
    requires Placed(bs, org, pos) && h < |bs| && j <= |bs|
    requires forall t {:trigger Walk(h, t, |bs|)} :: 0 <= t < j ==> bs[Walk(h, t, |bs|)].df != 0
    ensures |s| == j && s <= pos.Keys
    ensures forall i :: i in s ==> Dist(h, pos[i], |bs|) < j
  {
    s := {};
    if j > 0 {
      var s0 := RunIndices(bs, org, pos, h, j - 1);
      var last := bs[Walk(h, j - 1, |bs|)].idx;
      assert Owned(bs, pos, Walk(h, j - 1, |bs|));
      assert Dist(h, pos[last], |bs|) == j - 1;
      s := s0 + {last};
    }
  }

  lemma Subset<T>(a: set<T>, b: set<T>)
    requires a <= b
    ensures |a| <= |b|
  {
    assert b == a + (b - a);
  }

  /** A run of non-empty buckets is no longer than the number of placed indices. */
  lemma RunBound(bs: seq<Bucket>, org: seq<Origin>, pos: map<nat, nat>, h: nat, j: nat)
    requires Placed(bs, org, pos) && h < |bs| && j <= |bs|
    requires forall t {:trigger Walk(h, t, |bs|)} :: 0 <= t < j ==> bs[Walk(h, t, |bs|)].df != 0
    ensures j <= |pos|
  {
    var s := RunIndices(bs, org, pos, h, j);
    Subset(s, pos.Keys);
  }

  /** A probe that has passed `j` buckets has passed at most as many as there are placed indices. */
  lemma PassedBound(bs: seq<Bucket>, org: seq<Origin>, pos: map<nat, nat>, o: Origin, j: nat)
    requires Placed(bs, org, pos) && Passed(bs, o, j)
    ensures j <= |pos|
  {
    RunBound(bs, org, pos, o.home, j);
  }

  /** A probe that meets a bucket at least as large as itself has passed every bucket up to that one, and
      so stays within the array and within the number of keys. */
  lemma PassedStep(bs: seq<Bucket>, org: seq<Origin>, pos: map<nat, nat>, o: Origin, j: nat)
    requires Good(bs, org, pos) && |pos| < |bs|
    requires OriginOk(o, |bs|) && j < |bs| && Packed(o, j) <= bs[Walk(o.home, j, |bs|)].df
    ensures Passed(bs, o, j + 1) && j + 1 <= |pos|
    ensures Next(Walk(o.home, j, |bs|), |bs|) == Walk(o.home, j + 1, |bs|)
    ensures Packed(o, j + 1) == Packed(o, j) + 256 < (|pos| + 2) * 256
  {
    PassedBehind(bs, o, j);
    PassedBound(bs, org, pos, o, j + 1);
  }

  /** No key is further from home than there are other keys; the distance field of a table with
      `|pos|` keys never exceeds `|pos|`. */
  lemma DistanceBound(bs: seq<Bucket>, org: seq<Origin>, pos: map<nat, nat>, i: nat)
    requires Good(bs, org, pos) && i in pos
    ensures InPlace(bs, org, pos, i) && Dist(org[i].home, pos[i], |bs|) + 1 <= |pos|
  {
    PassedToPosition(bs, org, pos, i);
    var d := Dist(org[i].home, pos[i], |bs|);
    RunBound(bs, org, pos, org[i].home, d + 1);
  }

  /** The same bound read off a bucket. */
  lemma BucketBound(bs: seq<Bucket>, org: seq<Origin>, pos: map<nat, nat>, b: nat)
    requires Good(bs, org, pos) && b < |bs| && bs[b].df != 0
    ensures 256 <= bs[b].df < (|pos| + 1) * 256
  {
    assert Owned(bs, pos, b);
    DistanceBound(bs, org, pos, bs[b].idx);
  }

  /** A key that was not among the passed buckets and is smaller than the next one is not placed at all:
      the early exit of every probe loop. */
  lemma NotPlacedBeyond(bs: seq<Bucket>, org: seq<Origin>, pos: map<nat, nat>, i: nat, j: nat)
    requires Good(bs, org, pos) && i in pos && InPlace(bs, org, pos, i)
    requires j < |bs| && Packed(org[i], j) > bs[Walk(org[i].home, j, |bs|)].df
    ensures Dist(org[i].home, pos[i], |bs|) < j
  {
    if j <= Dist(org[i].home, pos[i], |bs|) {
      PassedToPosition(bs, org, pos, i);
    }
  }

  // ---------------------------------------------------------------- shifting up (insertion)

  function Bump(b: Bucket): Bucket { Bucket(b.df + 256, b.idx) }

  function Prev(b: nat, n: nat): (r: nat)
    requires b < n
    ensures r < n && Next(r, n) == b
  {
    if b == 0 then n - 1 else b - 1
  }

  /** The first `k` buckets from `p` on rewritten: `c` at `p`, each next one its predecessor moved one
      place further from home. */
  function Lifted(bs: seq<Bucket>, p: nat, k: nat, c: Bucket): (r: seq<Bucket>)
    requires p < |bs| && k <= |bs|
    ensures |r| == |bs|
  {
    seq(|bs|, x requires 0 <= x < |bs| =>
      if Dist(p, x, |bs|) >= k then bs[x]
      else if x == p then c
      else Bump(bs[Prev(x, |bs|)]))
  }

  /** Every distance can be increased once more. */
  ghost predicate RoomToInc(bs: seq<Bucket>) {
    forall b :: 0 <= b < |bs| ==> bs[b].df < 0xFFFF_FF00
  }

  /** What is displaced out of the first `k` buckets. */
  function Carry(bs: seq<Bucket>, p: nat, k: nat, c: Bucket): Bucket
    requires p < |bs| && k <= |bs|
  {
    if k == 0 then c else Bump(bs[Walk(p, k - 1, |bs|)])
  }

  /** Bucket `c` put at `p`, and the `s` buckets from `p` on moved one place further from home. */
  function ShiftedUp(bs: seq<Bucket>, p: nat, s: nat, c: Bucket): (r: seq<Bucket>)
    requires p < |bs| && s < |bs|
    ensures |r| == |bs|
  {
    Lifted(bs, p, s + 1, c)
  }

  /** The shift, one bucket at a time. */
  lemma LiftedNext(bs: seq<Bucket>, p: nat, k: nat, c: Bucket)
    requires p < |bs| && k < |bs|
    ensures Lifted(bs, p, 0, c) == bs
    ensures Lifted(bs, p, k, c)[Walk(p, k, |bs|)] == bs[Walk(p, k, |bs|)]
    ensures Lifted(bs, p, k + 1, c) == Lifted(bs, p, k, c)[Walk(p, k, |bs|) := Carry(bs, p, k, c)]
    ensures Next(Walk(p, k, |bs|), |bs|) == Walk(p, k + 1, |bs|)
    ensures Carry(bs, p, k + 1, c) == Bump(bs[Walk(p, k, |bs|)])
  {
    assert Dist(p, Walk(p, k, |bs|), |bs|) == k;
    if k > 0 {
      assert Prev(Walk(p, k, |bs|), |bs|) == Walk(p, k - 1, |bs|);
    }
  }

  /** Bucket `p` starts a run of exactly `s` non-empty buckets. */
  ghost predicate FullRun(bs: seq<Bucket>, p: nat, s: nat) {
    && p < |bs| && s < |bs|
    && (forall t {:trigger Walk(p, t, |bs|)} :: 0 <= t < s ==> bs[Walk(p, t, |bs|)].df != 0)
    && bs[Walk(p, s, |bs|)].df == 0
  }

  function PositionsUp(pos: map<nat, nat>, n: nat, p: nat, s: nat): (r: map<nat, nat>)
    requires p < n && forall i :: i in pos ==> pos[i] < n
    ensures r.Keys == pos.Keys
  {
    map i | i in pos :: if Dist(p, pos[i], n) < s then Next(pos[i], n) else pos[i]
  }

  lemma ShiftUpPair(bs: seq<Bucket>, o: Origin, j: nat, s: nat, idx: nat, b: nat)
    requires Ordered(bs) && InsertSpot(bs, o, j)
    requires forall b :: 0 <= b < |bs| && bs[b].df != 0 ==> bs[b].df >= 256
    requires FullRun(bs, Walk(o.home, j, |bs|), s)
    requires b < |bs|
    ensures InOrder(ShiftedUp(bs, Walk(o.home, j, |bs|), s, Bucket(Packed(o, j), idx)), b)
  {
    var n := |bs|;
    var p := Walk(o.home, j, n);
    var t := Dist(p, b, n);
    assert InOrder(bs, b);
    assert Walk(p, t, n) == b;
    if Next(b, n) == p {
      if j > 0 {
        assert Walk(o.home, j - 1, n) == b;
        assert bs[b].df != 0;
        assert t == n - 1 && s != n - 1;
      }
    } else {
      assert Dist(p, Next(b, n), n) == t + 1;
      assert Prev(Next(b, n), n) == b;
      if 0 < t < s {
        assert Walk(p, t - 1, n) == Prev(b, n);
        assert InOrder(bs, Prev(b, n));
      }
    }
  }

  /** Where a placed index is after the shift, in terms of the shifted array. */
  lemma ShiftUpAt(bs: seq<Bucket>, org: seq<Origin>, pos: map<nat, nat>, p: nat, s: nat, c: Bucket, i: nat)
    requires Good(bs, org, pos) && FullRun(bs, p, s) && i in pos
    ensures InPlace(ShiftedUp(bs, p, s, c), org, PositionsUp(pos, |bs|, p, s), i)
    ensures PositionsUp(pos, |bs|, p, s)[i] != p
  {
    var n := |bs|;
    var x := pos[i];
    assert InPlace(bs, org, pos, i);
    var t := Dist(p, x, n);
    assert Walk(p, t, n) == x;
    assert t != s;
    if t < s {
      EmptyMeansRoom(bs, org, pos, Walk(p, s, n));
      DistanceBound(bs, org, pos, i);
      assert Prev(Next(x, n), n) == x;
      assert Dist(p, Next(x, n), n) == t + 1;
      assert Dist(org[i].home, Next(x, n), n) == Dist(org[i].home, x, n) + 1;
    }
  }

  /** Every other non-empty bucket of the shifted array belongs to a placed index. */
  lemma ShiftUpBack(bs: seq<Bucket>, org: seq<Origin>, pos: map<nat, nat>, p: nat, s: nat, c: Bucket, b: nat)
    requires Placed(bs, org, pos) && FullRun(bs, p, s) && b < |bs| && b != p
    ensures Owned(ShiftedUp(bs, p, s, c), PositionsUp(pos, |bs|, p, s), b)
  {
    var n := |bs|;
    var t := Dist(p, b, n);
    assert Owned(bs, pos, b);
    if t <= s {
      var a := Prev(b, n);
      assert Owned(bs, pos, a);
      assert Walk(p, t - 1, n) == a;
      assert Dist(p, a, n) == t - 1;
    }
  }

  lemma ShiftUpPlaced(bs: seq<Bucket>, org: seq<Origin>, pos: map<nat, nat>, j: nat, s: nat, idx: nat)
    requires Good(bs, org, pos)
    requires idx < |org| && idx !in pos && InsertSpot(bs, org[idx], j)
    requires FullRun(bs, Walk(org[idx].home, j, |bs|), s)
    ensures Placed(ShiftedUp(bs, Walk(org[idx].home, j, |bs|), s, Bucket(Packed(org[idx], j), idx)), org,
                   PositionsUp(pos, |bs|, Walk(org[idx].home, j, |bs|), s)[idx := Walk(org[idx].home, j, |bs|)])
  {
    var n := |bs|;
    var p := Walk(org[idx].home, j, n);
    var c := Bucket(Packed(org[idx], j), idx);
    var r := ShiftedUp(bs, p, s, c);
    var q := PositionsUp(pos, n, p, s)[idx := p];
    assert Dist(org[idx].home, p, n) == j;
    forall i | i in q ensures InPlace(r, org, q, i) {
      if i != idx { ShiftUpAt(bs, org, pos, p, s, c, i); }
    }
    forall b | 0 <= b < n ensures Owned(r, q, b) {
      if b != p { ShiftUpBack(bs, org, pos, p, s, c, b); }
    }
    assert InRange(q, |org|, n) by {
      forall i | i in q ensures i < |org| && q[i] < n { assert InPlace(r, org, q, i); }
    }
  }

  /** An empty bucket leaves room: fewer indices are placed than there are buckets. */
  lemma EmptyMeansRoom(bs: seq<Bucket>, org: seq<Origin>, pos: map<nat, nat>, e: nat)
    requires Placed(bs, org, pos) && e < |bs| && bs[e].df == 0
    ensures |pos| < |bs|
  {
    var used := set i | i in pos :: pos[i];
    forall i | i in pos ensures bs[pos[i]].df != 0 && bs[pos[i]].idx == i { assert InPlace(bs, org, pos, i); }
    InverseCount(pos, used);
    assert used <= Below(|bs|) - {e};
    Subset(used, Below(|bs|) - {e});
  }

  lemma {:induction false} InverseCount(pos: map<nat, nat>, used: set<nat>)
    requires used == set i | i in pos :: pos[i]
    requires forall i, k :: i in pos && k in pos && pos[i] == pos[k] ==> i == k
    ensures |used| == |pos|
    decreases pos.Keys
  {
    if pos.Keys != {} {
      var i :| i in pos;
      var rest := pos - {i};
      var usedRest := set k | k in rest :: rest[k];
      InverseCount(rest, usedRest);
      assert pos.Keys == rest.Keys + {i};
      forall b | b in used ensures b in usedRest + {pos[i]} {
        var k :| k in pos && pos[k] == b;
        assert k != i ==> k in rest && rest[k] == b;
      }
      forall b | b in usedRest ensures b in used && b != pos[i] {
        var k :| k in rest && rest[k] == b;
        assert k in pos && pos[k] == b;
      }
      assert used == usedRest + {pos[i]};
    } else {
      assert used == {};
    }
  }

  /** The indices below `n`. */
  ghost function Below(n: nat): (s: set<nat>)
    ensures |s| == n
    ensures forall i: nat :: i in s <==> i < n
  {
    if n == 0 then {} else Below(n - 1) + {n - 1}
  }

  /** Insertion by place-and-shift-up keeps the whole invariant. */
  lemma ShiftUpGood(bs: seq<Bucket>, org: seq<Origin>, pos: map<nat, nat>, j: nat, s: nat, idx: nat)
    requires Good(bs, org, pos)
    requires idx < |org| && idx !in pos && InsertSpot(bs, org[idx], j)
    requires FullRun(bs, Walk(org[idx].home, j, |bs|), s)
    ensures Good(ShiftedUp(bs, Walk(org[idx].home, j, |bs|), s, Bucket(Packed(org[idx], j), idx)), org,
                 PositionsUp(pos, |bs|, Walk(org[idx].home, j, |bs|), s)[idx := Walk(org[idx].home, j, |bs|)])
  {
    forall b | 0 <= b < |bs| && bs[b].df != 0 ensures bs[b].df >= 256 {
      BucketBound(bs, org, pos, b);
    }
    forall b | 0 <= b < |bs|
      ensures InOrder(ShiftedUp(bs, Walk(org[idx].home, j, |bs|), s, Bucket(Packed(org[idx], j), idx)), b)
    {
      ShiftUpPair(bs, org[idx], j, s, idx, b);
    }
    ShiftUpPlaced(bs, org, pos, j, s, idx);
  }

  // ---------------------------------------------------------------- shifting down (erasure)

  function Unbump(b: Bucket): Bucket {
    if b.df >= 256 then Bucket(b.df - 256, b.idx) else b
  }

  /** The `s` buckets after `p` are all displaced from home, the one after them is not. */
  ghost predicate DisplacedRun(bs: seq<Bucket>, p: nat, s: nat) {
    && p < |bs| && s + 1 < |bs|
    && (forall t {:trigger Walk(p, t, |bs|)} :: 1 <= t <= s ==> bs[Walk(p, t, |bs|)].df >= 512)
    && bs[Walk(p, s + 1, |bs|)].df < 512
  }

  /** The `s` buckets after `p` copied one place nearer home. */
  function PulledDown(bs: seq<Bucket>, p: nat, s: nat): (r: seq<Bucket>)
    requires p < |bs| && s < |bs|
    ensures |r| == |bs|
  {
    seq(|bs|, x requires 0 <= x < |bs| => if Dist(p, x, |bs|) < s then Unbump(bs[Next(x, |bs|)]) else bs[x])
  }

  /** Bucket `p` dropped, the `s` displaced buckets after it moved one place nearer home. */
  function ShiftedDown(bs: seq<Bucket>, p: nat, s: nat): (r: seq<Bucket>)
    requires p < |bs| && s < |bs|
    ensures |r| == |bs|
  {
    PulledDown(bs, p, s)[Walk(p, s, |bs|) := EMPTY]
  }

  /** The shift, one bucket at a time. */
  lemma PulledDownNext(bs: seq<Bucket>, p: nat, s: nat)
    requires p < |bs| && s + 1 < |bs|
    ensures PulledDown(bs, p, 0) == bs
    ensures PulledDown(bs, p, s + 1)
         == PulledDown(bs, p, s)[Walk(p, s, |bs|) := Unbump(bs[Walk(p, s + 1, |bs|)])]
    ensures PulledDown(bs, p, s)[Walk(p, s + 1, |bs|)] == bs[Walk(p, s + 1, |bs|)]
  {
  }

  function PositionsDown(pos: map<nat, nat>, n: nat, p: nat, s: nat, gone: nat): (r: map<nat, nat>)
    requires p < n && forall i :: i in pos ==> pos[i] < n
    ensures r.Keys == pos.Keys - {gone}
  {
    map i | i in pos && i != gone ::
      if 1 <= Dist(p, pos[i], n) <= s then Prev(pos[i], n) else pos[i]
  }

  lemma ShiftDownPair(bs: seq<Bucket>, p: nat, s: nat, b: nat)
    requires Ordered(bs) && DisplacedRun(bs, p, s) && b < |bs|
    ensures InOrder(ShiftedDown(bs, p, s), b)
  {
    var n := |bs|;
    var c := Next(b, n);
    var t := Dist(p, b, n);
    assert Walk(p, t, n) == b;
    assert InOrder(bs, b) && InOrder(bs, c);
    if c == p {
      assert t == n - 1;
      assert Walk(p, 1, n) == Next(c, n);
    } else {
      assert Dist(p, c, n) == t + 1;
      assert Walk(p, t + 1, n) == c;
      if t + 1 < s {
        assert Walk(p, t + 2, n) == Next(c, n);
      }
    }
  }

  lemma ShiftDownAt(bs: seq<Bucket>, org: seq<Origin>, pos: map<nat, nat>, p: nat, s: nat, gone: nat, i: nat)
    requires Placed(bs, org, pos) && DisplacedRun(bs, p, s) && i in pos && pos[i] != p && i != gone
    ensures InPlace(ShiftedDown(bs, p, s), org, PositionsDown(pos, |bs|, p, s, gone), i)
  {
    var n := |bs|;
    var x := pos[i];
    var t := Dist(p, x, n);
    assert InPlace(bs, org, pos, i);
    assert Walk(p, t, n) == x;
    if 1 <= t <= s {
      assert bs[x].df >= 512;
      assert Dist(p, Prev(x, n), n) == t - 1;
      assert Dist(org[i].home, Prev(x, n), n) == Dist(org[i].home, x, n) - 1;
    }
  }

  lemma ShiftDownBack(bs: seq<Bucket>, org: seq<Origin>, pos: map<nat, nat>, p: nat, s: nat, b: nat)
    requires Placed(bs, org, pos) && DisplacedRun(bs, p, s) && b < |bs| && bs[p].df != 0
    ensures Owned(ShiftedDown(bs, p, s), PositionsDown(pos, |bs|, p, s, bs[p].idx), b)
  {
    var n := |bs|;
    var t := Dist(p, b, n);
    assert Owned(bs, pos, p) && Owned(bs, pos, b) && Owned(bs, pos, Next(b, n));
    assert Walk(p, t, n) == b;
    if t < s {
      assert Walk(p, t + 1, n) == Next(b, n);
      assert Prev(Next(b, n), n) == b;
      assert Dist(p, Next(b, n), n) == t + 1;
    }
  }

  /** Erasure by backward shift keeps the whole invariant for the remaining indices. */
  lemma ShiftDownGood(bs: seq<Bucket>, org: seq<Origin>, pos: map<nat, nat>, p: nat, s: nat)
    requires Good(bs, org, pos) && DisplacedRun(bs, p, s) && bs[p].df != 0
    ensures Good(ShiftedDown(bs, p, s), org, PositionsDown(pos, |bs|, p, s, bs[p].idx))
  {
    var r := ShiftedDown(bs, p, s);
    var gone := bs[p].idx;
    var q := PositionsDown(pos, |bs|, p, s, gone);
    assert Owned(bs, pos, p);
    forall b | 0 <= b < |bs| ensures InOrder(r, b) && Owned(r, q, b) {
      ShiftDownPair(bs, p, s, b);
      ShiftDownBack(bs, org, pos, p, s, b);
    }
    forall i | i in q ensures InPlace(r, org, q, i) && i < |org| && q[i] < |bs| {
      assert InPlace(bs, org, pos, i);
      ShiftDownAt(bs, org, pos, p, s, gone, i);
    }
  }

  // ---------------------------------------------------------------- renaming an index

  /** Only the origins of placed indices matter. */
  lemma GoodSameOrigins(bs: seq<Bucket>, org: seq<Origin>, org': seq<Origin>, pos: map<nat, nat>)
    requires Good(bs, org, pos)
    requires forall i :: i in pos ==> i < |org'| && org'[i] == org[i]
    ensures Good(bs, org', pos)
  {
    forall i | i in pos ensures InPlace(bs, org', pos, i) {
      assert InPlace(bs, org, pos, i);
    }
  }

  /** Pointing the bucket of index `from` at index `to` keeps the invariant when the value moved. */
  lemma RenameGood(bs: seq<Bucket>, org: seq<Origin>, pos: map<nat, nat>, org': seq<Origin>, from: nat, to: nat)
    requires Good(bs, org, pos)
    requires from in pos && to !in pos && to < |org'|
    requires org'[to] == org[from]
    requires forall i :: i in pos && i != from ==> i < |org'| && org'[i] == org[i]
    ensures Good(bs[pos[from] := Bucket(bs[pos[from]].df, to)], org', (pos - {from})[to := pos[from]])
  {
    var r := bs[pos[from] := Bucket(bs[pos[from]].df, to)];
    var q := (pos - {from})[to := pos[from]];
    assert InPlace(bs, org, pos, from);
    forall i | i in q ensures InPlace(r, org', q, i) {
      var k := if i == to then from else i;
      assert InPlace(bs, org, pos, k);
    }
    forall b | 0 <= b < |bs| ensures InOrder(r, b) && Owned(r, q, b) {
      assert InOrder(bs, b) && Owned(bs, pos, b);
    }
  }

  /** `pos` places exactly the indices below `n`. */
  ghost predicate Covers(pos: map<nat, nat>, n: nat) {
    forall i: nat :: i in pos <==> i < n
  }

  lemma CoverCount(pos: map<nat, nat>, n: nat)
    requires Covers(pos, n)
    ensures |pos| == n
  {
    assert pos.Keys == Below(n);
  }

  /** Filling the hole `gone` with the last value: the bucket of the last index is renamed. */
  lemma MovedLast(bs: seq<Bucket>, org: seq<Origin>, pos: map<nat, nat>, org': seq<Origin>, gone: nat)
    requires Good(bs, org, pos) && gone < |org| == |org'| + 1
    requires forall i: nat :: i in pos <==> i < |org| && i != gone
    requires forall i :: 0 <= i < |org'| ==> org'[i] == org[if i == gone then |org'| else i]
    ensures gone == |org'| ==> Good(bs, org', pos) && Covers(pos, |org'|)
    ensures gone < |org'| ==>
              var from := |org'|;
              && Good(bs[pos[from] := Bucket(bs[pos[from]].df, gone)], org', (pos - {from})[gone := pos[from]])
              && Covers((pos - {from})[gone := pos[from]], |org'|)
  {
    if gone < |org'| {
      RenameGood(bs, org, pos, org', |org'|, gone);
    } else {
      GoodSameOrigins(bs, org, org', pos);
    }
  }

  lemma PositiveCount(s: set<nat>, m: nat)
    requires m > 0 && forall x :: x in s ==> 0 < x < m
    ensures |s| < m
  {
    Subset(s, Below(m) - {0});
  }

  /** Keys of one home bucket are at different distances. */
  lemma SameHomeApart(bs: seq<Bucket>, org: seq<Origin>, pos: map<nat, nat>, i: nat, k: nat)
    requires Placed(bs, org, pos) && i in pos && k in pos && org[i].home == org[k].home
    requires bs[pos[i]].df / 256 == bs[pos[k]].df / 256
    ensures i == k
  {
    assert InPlace(bs, org, pos, i) && InPlace(bs, org, pos, k);
    var h := org[i].home;
    assert Dist(h, pos[i], |bs|) == Dist(h, pos[k], |bs|);
  }

  /** 2^24 keys of one home bucket need a distance of 2^24, which does not fit the word, however they are laid
      out. */
  lemma DistanceFieldTooNarrow(bs: seq<Bucket>, org: seq<Origin>, pos: map<nat, nat>, home: nat)
    requires Placed(bs, org, pos) && Covers(pos, |org|) && |org| >= 0x100_0000
    requires forall i :: 0 <= i < |org| ==> org[i].home == home
    ensures exists b :: 0 <= b < |bs| && bs[b].df >= 0x1_0000_0000
  {
    var dist: map<nat, nat> := map i | i in pos :: bs[pos[i]].df / 256;
    forall i, k | i in dist && k in dist && dist[i] == dist[k] ensures i == k {
      SameHomeApart(bs, org, pos, i, k);
    }
    var used := set i | i in dist :: dist[i];
    InverseCount(dist, used);
    CoverCount(dist, |org|);
    if forall i :: i in pos ==> bs[pos[i]].df < 0x1_0000_0000 {
      forall i | i in dist ensures 0 < dist[i] < 0x100_0000 {
        assert InPlace(bs, org, pos, i);
      }
      PositiveCount(used, 0x100_0000);
      assert false;
    }
  }

  ghost predicate WordsFit(bs: seq<Bucket>) {
    forall b :: 0 <= b < |bs| ==> bs[b].df < 0x1_0000_0000
  }

  /** Every layout of `n` keys fits 32-bit words. */
  ghost predicate FieldSuffices(n: nat) {
    forall bs, org, pos {:trigger Good(bs, org, pos)} :: Good(bs, org, pos) && |pos| == n ==> WordsFit(bs)
  }

  /** `n` keys of home 0 and fingerprint 0 in a row, and an empty bucket. */
  function Crowded(n: nat): seq<Bucket> {
    seq(n + 1, b requires 0 <= b <= n => if b < n then Bucket((b + 1) * 256, b) else EMPTY)
  }

  lemma CrowdedGood(n: nat) returns (org: seq<Origin>, pos: map<nat, nat>)
    ensures Good(Crowded(n), org, pos) && |pos| == |org| == n && Covers(pos, n)
    ensures forall i :: 0 <= i < n ==> org[i].home == 0
  {
    org := seq(n, _ => Origin(0, 0));
    pos := map i | i in Below(n) :: i;
    CoverCount(pos, n);
    var bs := Crowded(n);
    forall i | i in pos ensures InPlace(bs, org, pos, i) {}
    forall b | 0 <= b < |bs| ensures Owned(bs, pos, b) {}
    CrowdedOrdered(n);
  }

  lemma CrowdedOrdered(n: nat)
    ensures Ordered(Crowded(n))
  {
    var bs := Crowded(n);
    forall b | 0 <= b < |bs| ensures InOrder(bs, b) {}
  }

  /** Whatever the hash, the 24-bit distance field is wide enough for `n` keys if and only if n < 2^24. */
  lemma DistanceField(n: nat)
    ensures FieldSuffices(n) <==> n < 0x100_0000
  {
    if n < 0x100_0000 {
      forall bs: seq<Bucket>, org: seq<Origin>, pos: map<nat, nat> | Good(bs, org, pos) && |pos| == n
        ensures WordsFit(bs)
      {
        forall b | 0 <= b < |bs| ensures bs[b].df < 0x1_0000_0000 {
          if bs[b].df != 0 { BucketBound(bs, org, pos, b); }
        }
      }
    } else {
      var org, pos := CrowdedGood(n);
      DistanceFieldTooNarrow(Crowded(n), org, pos, 0);
    }
  }

  /** The word of a probe that has passed `j` buckets fits 32 bits, in every layout of `n` keys. */
  ghost predicate ProbesFit(n: nat) {
    forall bs, org, pos, o, j {:trigger Good(bs, org, pos), Passed(bs, o, j)} ::
      Good(bs, org, pos) && |pos| == n && Passed(bs, o, j) ==> Packed(o, j) < 0x1_0000_0000
  }

  /** Whatever the hash, probes among `n` keys stay within the field if and only if n < 2^24 - 1: one key fewer than
      the buckets themselves allow for. */
  lemma ProbeField(n: nat)
    ensures ProbesFit(n) <==> n < 0xFF_FFFF
  {
    if n < 0xFF_FFFF {
      forall bs: seq<Bucket>, org: seq<Origin>, pos: map<nat, nat>, o: Origin, j: nat
        | Good(bs, org, pos) && |pos| == n && Passed(bs, o, j)
        ensures Packed(o, j) < 0x1_0000_0000
      {
        PassedBound(bs, org, pos, o, j);
      }
    } else {
      var org, pos := CrowdedGood(n);
      CrowdedPassed(n);
      assert Packed(Origin(0, 0), n) >= 0x1_0000_0000;
    }
  }

  /** A probe for one more key of that home passes them all. */
  lemma CrowdedPassed(n: nat)
    ensures Passed(Crowded(n), Origin(0, 0), n)
  {
  }
}
