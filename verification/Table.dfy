/**
 `ankerl::unordered_dense::detail::table`: a dense vector of entries indexed by a circular Robin Hood
 bucket array.
 */
module Table {
  import opened Arithmetic
  import opened Ring
  import opened Layout
  import opened Entries
  import opened Sizing

  /** Adding one to the distance, on a 32-bit word. */
  function DistInc(df: nat): nat {
    if df < 0xFFFF_FF00 then df + 256 else df - 0xFFFF_FF00
  }

  /** Taking one from the distance, on a 32-bit word. */
  function DistDec(df: nat): nat {
    if df >= 256 then df - 256 else df + 0xFFFF_FF00
  }

  function OriginOf<K>(hash: K -> U64, shifts: nat, key: K): Origin {
    Origin(BucketIdx(hash(key), shifts), hash(key) % 256)
  }

  function Origins<K, V>(hash: K -> U64, shifts: nat, vals: seq<(K, V)>): (r: seq<Origin>)
    ensures |r| == |vals|
    ensures forall i :: 0 <= i < |vals| ==> r[i] == OriginOf(hash, shifts, vals[i].0)
  {
    seq(|vals|, i requires 0 <= i < |vals| => OriginOf(hash, shifts, vals[i].0))
  }

  lemma SameKeysSameOrigins<K, V>(hash: K -> U64, shifts: nat, a: seq<(K, V)>, b: seq<(K, V)>)
    requires |a| == |b| && forall i :: 0 <= i < |a| ==> a[i].0 == b[i].0
    ensures Origins(hash, shifts, a) == Origins(hash, shifts, b)
  {
  }

  /** How far place_and_shift_up has got: `k` buckets from `place` on are rewritten, `c` is to go to `p`. */
  ghost predicate Shifting(bs: seq<Bucket>, was: seq<Bucket>, bucket: Bucket, place: nat, run: nat,
                           k: nat, p: nat, c: Bucket) {
    && FullRun(was, place, run) && RoomToInc(was) && k <= run
    && p == Walk(place, k, |was|) && c == Carry(was, place, k, bucket)
    && bs == Lifted(was, place, k, bucket) && bs[p] == was[p]
  }

  lemma ShiftingStarts(was: seq<Bucket>, bucket: Bucket, place: nat, run: nat)
    requires FullRun(was, place, run) && RoomToInc(was)
    ensures Shifting(was, was, bucket, place, run, 0, place, bucket)
  {
    LiftedNext(was, place, 0, bucket);
  }

  lemma ShiftingGoesOn(bs: seq<Bucket>, was: seq<Bucket>, bucket: Bucket, place: nat, run: nat,
                       k: nat, p: nat, c: Bucket)
    requires Shifting(bs, was, bucket, place, run, k, p, c)
    ensures |bs| == |was| && place < |was| && p < |bs| && k <= run < |was| && bs[p].df < 0xFFFF_FF00
    ensures bs[p].df != 0 ==>
              k < run && Shifting(bs[p := c], was, bucket, place, run, k + 1, Next(p, |bs|), Bump(bs[p]))
    ensures bs[p].df == 0 ==> bs[p := c] == ShiftedUp(was, place, run, bucket)
  {
    hide Lifted, Carry, Dist;
    LiftedNext(was, place, k, bucket);
    if k < run { LiftedNext(was, place, k + 1, bucket); }
  }

  /** place_and_shift_up: puts `bucket` at `place`, and moves the non-empty buckets from there on one
      place up, up to the first empty one. */
  method PlaceAndShiftUp(buckets: array<Bucket>, bucket: Bucket, place: nat, ghost run: nat)
    requires FullRun(buckets[..], place, run) && RoomToInc(buckets[..])
    modifies buckets
    ensures buckets[..] == ShiftedUp(old(buckets[..]), place, run, bucket)
  {
    ShiftingStarts(buckets[..], bucket, place, run);
    ShiftUp(buckets, bucket, place, buckets[..], run);
  }

  /** Its loop. */
  method ShiftUp(buckets: array<Bucket>, bucket: Bucket, place: nat, ghost was: seq<Bucket>, ghost run: nat)
    requires place < buckets.Length && Shifting(buckets[..], was, bucket, place, run, 0, place, bucket)
    modifies buckets
    ensures place < |was| && run < |was| && buckets[..] == ShiftedUp(was, place, run, bucket)
  {
    hide Shifting, ShiftedUp, Lifted, Carry, Dist, FullRun, RoomToInc, Walk;
    var c, p: nat := bucket, place;
    ghost var k: nat := 0;
    ShiftingGoesOn(buckets[..], was, bucket, place, run, k, p, c);
    while buckets[p].df != 0
      invariant p < buckets.Length && k <= run
      invariant Shifting(buckets[..], was, bucket, place, run, k, p, c)
      decreases run - k
    {
      ghost var bs := buckets[..];
      ShiftingGoesOn(bs, was, bucket, place, run, k, p, c);
      var displaced := buckets[p];
      buckets[p] := c;
      assert buckets[..] == bs[p := c];
      c := Bucket(DistInc(displaced.df), displaced.idx);
      p, k := Next(p, buckets.Length), k + 1;
    }
    ShiftingGoesOn(buckets[..], was, bucket, place, run, k, p, c);
    buckets[p] := c;
  }

  /** The first half of do_erase: drops bucket `b` and shifts the displaced buckets after it down. */
  method EraseAndShiftDown(buckets: array<Bucket>, b: nat, ghost s: nat)
    requires DisplacedRun(buckets[..], b, s)
    modifies buckets
    ensures buckets[..] == ShiftedDown(old(buckets[..]), b, s)
  {
    var n := buckets.Length;
    ghost var was := buckets[..];
    var hole, next := b, Next(b, n);
    ghost var t := 0;
    PulledDownNext(was, b, 0);
    while buckets[next].df >= 512
      invariant 0 <= t <= s && hole == Walk(b, t, n) && next == Walk(b, t + 1, n)
      invariant buckets[..] == PulledDown(was, b, t)
      invariant buckets[next] == was[next]
      decreases s - t
    {
      assert t < s;
      buckets[hole] := Bucket(DistDec(buckets[next].df), buckets[next].idx);
      PulledDownNext(was, b, t);
      hole, next, t := next, Next(next, n), t + 1;
      PulledDownNext(was, b, t);
    }
    assert t == s;
    buckets[hole] := EMPTY;
  }

  datatype Result<V> = Found(value: V) | KeyNotFound

  class Table<K(==), V> {
    const hash: K -> U64
    var values: seq<(K, V)>
    var buckets: array<Bucket>
    var shifts: nat
    var maxBucketCapacity: nat
    ghost var pos: map<nat, nat>

    // -------------------------------------------------------------- invariant and abstraction

    ghost predicate Sized()
      reads this
    {
      && MIN_SHIFTS <= shifts <= INITIAL_SHIFTS
      && buckets.Length == NumBuckets(shifts)
      && maxBucketCapacity == LimitOf(buckets.Length)
    }

    /** The bucket array indexes the entries in `pos`. */
    ghost predicate Core()
      reads this, buckets
    {
      && Sized()
      && |pos| <= maxBucketCapacity && |pos| <= MAX_KEYS
      && Good(buckets[..], Origins(hash, shifts, values), pos)
    }

    ghost predicate Valid()
      reads this, buckets
    {
      && Core()
      && Covers(pos, |values|)
      && DistinctKeys(values)
    }

    ghost function Contents(): map<K, V>
      reads this, buckets
      requires Valid()
    {
      AsMap(values)
    }

    /** A non-empty bucket's index is an index into the entries. */
    lemma IndexInRange(b: nat)
      requires Core() && b < buckets.Length && buckets[b].df != 0
      ensures buckets[b].idx in pos && pos[buckets[b].idx] == b && buckets[b].idx < |values|
    {
      assert Owned(buckets[..], pos, b);
    }

    /** The test every probe makes: same distance and fingerprint, then the same key. */
    predicate Matches(df: nat, b: nat, key: K)
      reads this, buckets
      requires Core() && b < buckets.Length && df >= 256
    {
      df == buckets[b].df && (IndexInRange(b); key == values[buckets[b].idx].0)
    }

    /** No placed entry with this key sits within the first `j` buckets of its probe. */
    ghost predicate NotWithin(key: K, j: nat)
      reads this, buckets
      requires Core()
    {
      var o := OriginOf(hash, shifts, key);
      o.home < buckets.Length
      && forall i :: i in pos && values[i].0 == key ==> Dist(o.home, pos[i], buckets.Length) >= j
    }

    /** What every probe knows after `j` steps: the word it carries, where it is, and that the key is not
        in a bucket it has been to. */
    ghost predicate Probing(key: K, df: nat, b: nat, j: nat)
      reads this, buckets
    {
      && Core()
      && var o := OriginOf(hash, shifts, key);
      && OriginOk(o, buckets.Length) && j < buckets.Length
      && b == Walk(o.home, j, buckets.Length) && df == Packed(o, j)
      && NotWithin(key, j)
    }

    lemma ProbeStart(key: K)
      requires Core()
      ensures var o := OriginOf(hash, shifts, key);
              OriginOk(o, buckets.Length) && Probing(key, DistAndFingerprint(hash(key)), o.home, 0)
    {
      HomeInRange(hash(key), shifts);
      BucketCounts(shifts);
    }

    /** Stepping over a bucket that is not the key's. */
    lemma ProbeNotHere(key: K, df: nat, b: nat, j: nat)
      requires Probing(key, df, b, j) && j + 1 < buckets.Length && (j < |pos| || j <= 1)
      requires !Matches(df, b, key)
      ensures DistInc(df) == df + 256
      ensures Probing(key, DistInc(df), Next(b, buckets.Length), j + 1)
    {
      var o := OriginOf(hash, shifts, key);
      forall i | i in pos && values[i].0 == key
        ensures Dist(o.home, pos[i], buckets.Length) >= j + 1
      {
        assert InPlace(buckets[..], Origins(hash, shifts, values), pos, i);
      }
    }

    /** Stepping over a bucket that is at least the probe: the distance field does not wrap, and fewer
        steps have been made than there are keys. */
    lemma ProbeStep(key: K, df: nat, b: nat, j: nat)
      requires Probing(key, df, b, j) && df <= buckets[b].df
      requires !Matches(df, b, key)
      ensures j + 1 <= |pos| && Passed(buckets[..], OriginOf(hash, shifts, key), j + 1)
      ensures DistInc(df) == df + 256
      ensures Probing(key, DistInc(df), Next(b, buckets.Length), j + 1)
    {
      BucketToSpare(shifts, |pos|);
      PassedStep(buckets[..], Origins(hash, shifts, values), pos, OriginOf(hash, shifts, key), j);
      ProbeNotHere(key, df, b, j);
    }

    /** A probe larger than the bucket it meets: the key is absent. */
    lemma ProbeStop(key: K, df: nat, b: nat, j: nat)
      requires Probing(key, df, b, j) && df > buckets[b].df
      ensures forall i :: i in pos ==> values[i].0 != key
      ensures Valid() ==> !HasKey(values, key) && key !in Contents()
    {
      MapHas(values, key);
      forall i | i in pos ensures values[i].0 != key {
        if values[i].0 == key {
          assert InPlace(buckets[..], Origins(hash, shifts, values), pos, i);
          NotPlacedBeyond(buckets[..], Origins(hash, shifts, values), pos, i, j);
        }
      }
    }

    /** A probe that meets its own word with the key under it has found the key. */
    lemma ProbeHit(key: K, df: nat, b: nat, j: nat)
      requires Valid() && Probing(key, df, b, j) && Matches(df, b, key)
      ensures buckets[b].idx < |values| && values[buckets[b].idx].0 == key
      ensures key in Contents() && Contents()[key] == values[buckets[b].idx].1
    {
      IndexInRange(b);
      MapAt(values, buckets[b].idx);
    }

    // -------------------------------------------------------------- private operations

    /** next_while_less: skips the buckets strictly larger than the probe. */
    method NextWhileLess(key: K) returns (df: nat, b: nat, ghost j: nat)
      requires Core()
      ensures Probing(key, df, b, j) && df >= buckets[b].df
      ensures Passed(buckets[..], OriginOf(hash, shifts, key), j)
    {
      ProbeStart(key);
      df, b, j := DistAndFingerprint(hash(key)), BucketIdx(hash(key), shifts), 0;
      while df < buckets[b].df
        invariant Probing(key, df, b, j)
        invariant Passed(buckets[..], OriginOf(hash, shifts, key), j)
        invariant j <= |pos|
        decreases |pos| - j
      {
        ProbeStep(key, df, b, j);
        df, b, j := DistInc(df), Next(b, buckets.Length), j + 1;
      }
    }

    /** A table below its load limit has an empty bucket within reach of every bucket. */
    lemma RunEnds(p: nat)
      requires Core() && p < buckets.Length
      ensures exists s: nat :: FullRun(buckets[..], p, s)
    {
      BucketToSpare(shifts, |pos|);
      var s := 0;
      while buckets[Walk(p, s, buckets.Length)].df != 0
        invariant s < buckets.Length
        invariant forall t {:trigger Walk(p, t, buckets.Length)} ::
            0 <= t < s ==> buckets[Walk(p, t, buckets.Length)].df != 0
        decreases buckets.Length - s
      {
        RunBound(buckets[..], Origins(hash, shifts, values), pos, p, s + 1);
        s := s + 1;
      }
      assert FullRun(buckets[..], p, s);
    }

    /** The distance field never overflows its 24 bits. */
    lemma NoWrap()
      requires Core()
      ensures RoomToInc(buckets[..])
    {
      forall b | 0 <= b < buckets.Length ensures buckets[b].df < 0xFFFF_FF00 {
        if buckets[b].df != 0 {
          BucketBound(buckets[..], Origins(hash, shifts, values), pos, b);
        }
      }
    }

    /** Adds value index `idx` to the bucket array, at a spot a probe has found. */
    method Index(df: nat, idx: nat, place: nat, ghost j: nat)
      requires Core() && |pos| < maxBucketCapacity && |pos| < MAX_KEYS
      requires idx < |values| && idx !in pos
      requires Probing(values[idx].0, df, place, j) && df >= buckets[place].df
      requires Passed(buckets[..], OriginOf(hash, shifts, values[idx].0), j)
      modifies buckets, `pos
      ensures Core() && forall i: nat :: i in pos <==> i in old(pos) || i == idx
    {
      RunEnds(place);
      ghost var was, org := buckets[..], Origins(hash, shifts, values);
      ghost var run: nat :| FullRun(was, place, run);
      NoWrap();
      PlaceAndShiftUp(buckets, Bucket(df, idx), place, run);
      ShiftUpGood(was, org, pos, j, run, idx);
      pos := PositionsUp(pos, buckets.Length, place, run)[idx := place];
      CountAdded(old(pos), pos, idx);
    }

    static lemma CountAdded(a: map<nat, nat>, b: map<nat, nat>, i: nat)
      requires i !in a && b.Keys == a.Keys + {i}
      ensures |b| == |a| + 1
    {
      assert |b| == |b.Keys| && |a| == |a.Keys|;
    }

    /** deallocate_buckets and allocate_buckets_from_shift. */
    method AllocateBuckets()
      requires MIN_SHIFTS <= shifts <= INITIAL_SHIFTS
      modifies this
      ensures Sized() && fresh(buckets) && values == old(values) && shifts == old(shifts)
    {
      buckets := new Bucket[NumBuckets(shifts)];
      maxBucketCapacity := LimitOf(buckets.Length);
    }

    /** clear_buckets. */
    method ClearBuckets()
      requires Sized()
      modifies buckets, `pos
      ensures Core() && pos == map[]
      ensures forall b :: 0 <= b < buckets.Length ==> buckets[b] == EMPTY
    {
      forall b | 0 <= b < buckets.Length { buckets[b] := EMPTY; }
      pos := map[];
    }

    /** clear_and_fill_buckets_from_values: the rebuilt index covers exactly the entries. */
    method FillBuckets()
      requires Sized() && |values| <= maxBucketCapacity && |values| <= MAX_KEYS && DistinctKeys(values)
      modifies buckets, `pos
      ensures Valid()
    {
      ClearBuckets();
      for idx := 0 to |values|
        invariant Core() && Covers(pos, idx)
      {
        CoverCount(pos, idx);
        var df, b, j := NextWhileLess(values[idx].0);
        Index(df, idx, b, j);
      }
    }

    /** increase_size: rehashes everything into twice the buckets.  So few keys never need the largest bucket
        array, and its error is not reached. */
    method IncreaseSize()
      requires Sized() && DistinctKeys(values)
      requires |values| == maxBucketCapacity + 1 && |values| <= MAX_KEYS
      modifies this, buckets
      ensures Valid() && fresh(buckets) && values == old(values)
    {
      Doubling(shifts, |values|);
      shifts := shifts - 1;
      AllocateBuckets();
      FillBuckets();
    }

    /** calc_shifts_for_size: the smallest table that takes `size` entries.  Above MAX_RESERVE the loop runs down
        to zero, a shift no bucket array goes with. */
    static method CalcShiftsForSize(size: nat) returns (r: nat)
      ensures size > MAX_RESERVE ==> r == 0
      ensures size <= MAX_RESERVE ==> MIN_SHIFTS <= r <= INITIAL_SHIFTS && size <= CapacityOf(NumBuckets(r))
      ensures 0 < r < INITIAL_SHIFTS ==> CapacityOf(NumBuckets(r + 1)) < size
    {
      BucketCounts(MIN_SHIFTS);
      r := INITIAL_SHIFTS;
      while r > 0 && CapacityOf(NumBuckets(r)) < size
        invariant r <= INITIAL_SHIFTS && (size <= MAX_RESERVE ==> MIN_SHIFTS <= r)
        invariant r < INITIAL_SHIFTS ==> CapacityOf(NumBuckets(r + 1)) < size
      {
        r := r - 1;
      }
      if size > MAX_RESERVE && r > 0 {
        SizeBound(r);
      }
    }

    static lemma SizeBound(r: nat)
      requires r <= INITIAL_SHIFTS
      ensures CapacityOf(NumBuckets(r)) <= MAX_RESERVE
    {
      if r > MIN_SHIFTS {
        BucketCounts(MIN_SHIFTS);
        LargerIsEnough(r, MIN_SHIFTS);
      }
    }

    /** The unguarded searches of do_erase and erase(iterator): walking on from the key's home until a
        bucket carries index `i` ends at `i`'s own bucket, never at an empty bucket carrying index 0. */
    method FindIndexBucket(i: nat) returns (b: nat)
      requires Core() && i in pos
      ensures b == pos[i]
    {
      ProbeStart(values[i].0);
      ghost var org := Origins(hash, shifts, values);
      ghost var n := buckets.Length;
      PassedToPosition(buckets[..], org, pos, i);
      b := BucketIdx(hash(values[i].0), shifts);
      ghost var j := 0;
      assert InPlace(buckets[..], org, pos, i);
      while buckets[b].idx != i
        invariant 0 <= j <= Dist(org[i].home, pos[i], n)
        invariant b == Walk(org[i].home, j, n)
        decreases n - j
      {
        b, j := Next(b, buckets.Length), j + 1;
      }
      assert buckets[b].df != 0 && Owned(buckets[..], pos, b);
    }

    /** do_erase: returns what handle_erased_value is given. */
    method DoErase(b: nat) returns (erased: (K, V))
      requires Valid() && b < buckets.Length && buckets[b].df != 0
      modifies buckets, `values, `pos
      ensures Valid()
      ensures old(buckets[b].idx) < |old(values)| && erased == old(values)[old(buckets[b].idx)]
      ensures values == SwapRemoved(old(values), old(buckets[b].idx))
    {
      IndexInRange(b);
      var gone := buckets[b].idx;
      ghost var org := Origins(hash, shifts, values);
      CoverCount(pos, |values|);
      ghost var s := DisplacedEnds(b);
      ghost var was := buckets[..];
      EraseAndShiftDown(buckets, b, s);
      ShiftDownGood(was, org, pos, b, s);
      pos := PositionsDown(pos, buckets.Length, b, s, gone);
      CountAdded(pos, old(pos), gone);
      erased := values[gone];
      MoveLastInto(gone);
    }

    /** The second half of do_erase: the last entry fills the hole and its bucket is told so. */
    method MoveLastInto(gone: nat)
      requires Core() && gone < |values| <= maxBucketCapacity && DistinctKeys(values)
      requires forall i: nat :: i in pos <==> i < |values| && i != gone
      requires |values| <= MAX_KEYS
      modifies buckets, `values, `pos
      ensures Valid() && values == SwapRemoved(old(values), gone)
    {
      hide AsMap, NumBuckets, LimitOf, Good, DistinctKeys;
      var back := |values| - 1;
      ghost var was := values;
      SwapRemovedMap(was, gone);
      MovedLast(buckets[..], Origins(hash, shifts, was), pos, Origins(hash, shifts, SwapRemoved(was, gone)), gone);
      if gone != back {
        PointLastAt(gone);
      }
      CoverCount(pos, back);
      FillFromBack(gone);
    }

    /** The last entry overwrites the one at `at` and is dropped. */
    method FillFromBack(at: nat)
      requires at < |values|
      modifies `values
      ensures values == SwapRemoved(old(values), at)
    {
      var back := |values| - 1;
      if at != back {
        values := values[at := values[back]];
      }
      values := values[..back];
    }

    /** Makes the bucket of the last entry point at `gone`. */
    method PointLastAt(gone: nat)
      requires Core() && gone < |values| - 1
      requires forall i: nat :: i in pos <==> i < |values| && i != gone
      modifies buckets, `pos
      ensures var back := |values| - 1;
              var at := old(pos)[back];
              && at < buckets.Length && buckets[..] == old(buckets[..])[at := Bucket(old(buckets[at].df), gone)]
              && pos == (old(pos) - {back})[gone := at]
    {
      var back := |values| - 1;
      var at := FindIndexBucket(back);
      buckets[at] := Bucket(buckets[at].df, gone);
      pos := (pos - {back})[gone := at];
    }

    /** The displaced run behind a bucket ends before the run gets back to it. */
    lemma DisplacedEnds(b: nat) returns (s: nat)
      requires Core() && b < buckets.Length && buckets[b].df != 0
      ensures DisplacedRun(buckets[..], b, s)
    {
      BucketToSpare(shifts, |pos|);
      var n := buckets.Length;
      s := 0;
      while buckets[Walk(b, s + 1, n)].df >= 512
        invariant s + 1 < n
        invariant forall t {:trigger Walk(b, t, n)} :: 1 <= t <= s ==> buckets[Walk(b, t, n)].df >= 512
        decreases n - s
      {
        RunBound(buckets[..], Origins(hash, shifts, values), pos, b, s + 2);
        s := s + 1;
      }
    }

    // -------------------------------------------------------------- public operations

    /** table(): four empty buckets. */
    constructor (hash: K -> U64)
      ensures Valid() && fresh(buckets) && this.hash == hash && values == [] && Contents() == map[]
    {
      this.hash := hash;
      this.values := [];
      this.shifts := INITIAL_SHIFTS;
      this.buckets := new Bucket[0];
      new;
      AllocateBuckets();
      ClearBuckets();
    }

    /** table(bucket_count): reserves room for that many entries. */
    constructor WithCapacity(hash: K -> U64, capa: nat)
      requires capa <= MAX_RESERVE
      ensures Valid() && fresh(buckets) && this.hash == hash && values == [] && Contents() == map[]
      ensures capa <= maxBucketCapacity
    {
      this.hash := hash;
      this.values := [];
      this.shifts := INITIAL_SHIFTS;
      this.buckets := new Bucket[0];
      new;
      if capa != 0 {
        var s := CalcShiftsForSize(capa);
        LargerIsEnough(s, s);
        shifts := s;
      }
      AllocateBuckets();
      ClearBuckets();
    }

    /** do_find: the index of the key's entry, or the number of entries (end()).  The first two probes
        are made without the early exit. */
    method Find(key: K) returns (it: nat)
      requires Valid()
      ensures it <= |values|
      ensures it < |values| <==> key in Contents()
      ensures it < |values| ==> values[it].0 == key && values[it].1 == Contents()[key]
    {
      if |values| == 0 {
        return 0;
      }
      BucketCounts(shifts);
      CoverCount(pos, |values|);
      ProbeStart(key);
      var n := buckets.Length;
      var df: nat, b: nat := DistAndFingerprint(hash(key)), BucketIdx(hash(key), shifts);
      if Matches(df, b, key) {
        ProbeHit(key, df, b, 0);
        return buckets[b].idx;
      }
      ProbeNotHere(key, df, b, 0);
      df, b := DistInc(df), Next(b, n);
      if Matches(df, b, key) {
        ProbeHit(key, df, b, 1);
        return buckets[b].idx;
      }
      ProbeNotHere(key, df, b, 1);
      df, b := DistInc(df), Next(b, n);
      ghost var j := 2;
      while true
        invariant Probing(key, df, b, j)
        decreases n - j
      {
        if Matches(df, b, key) {
          ProbeHit(key, df, b, j);
          return buckets[b].idx;
        } else if df > buckets[b].df {
          ProbeStop(key, df, b, j);
          return |values|;
        }
        ProbeStep(key, df, b, j);
        df, b, j := DistInc(df), Next(b, n), j + 1;
      }
    }

    /** do_place_element and the tail of emplace: indexes the entry just appended, growing if need be. */
    method IndexLast(df: nat, b: nat, ghost j: nat)
      requires 0 < |values| <= MAX_KEYS && Core() && Covers(pos, |values| - 1) && DistinctKeys(values)
      requires var key := values[|values| - 1].0;
               && Probing(key, df, b, j) && df >= buckets[b].df
               && Passed(buckets[..], OriginOf(hash, shifts, key), j)
      modifies this, buckets
      ensures Valid() && values == old(values) && (buckets == old(buckets) || fresh(buckets))
    {
      CoverCount(pos, |values| - 1);
      if |values| > maxBucketCapacity {
        IncreaseSize();
      } else {
        Index(df, |values| - 1, b, j);
      }
    }

    /** The probe loop of emplace and replace. */
    method ProbeFor(key: K) returns (found: bool, df: nat, b: nat, ghost j: nat)
      requires Core()
      ensures Probing(key, df, b, j)
      ensures found ==> Matches(df, b, key)
      ensures !found ==> df > buckets[b].df && Passed(buckets[..], OriginOf(hash, shifts, key), j)
    {
      ProbeStart(key);
      df, b, j := DistAndFingerprint(hash(key)), BucketIdx(hash(key), shifts), 0;
      while df <= buckets[b].df
        invariant Probing(key, df, b, j) && j <= |pos|
        invariant Passed(buckets[..], OriginOf(hash, shifts, key), j)
        decreases |pos| - j
      {
        if Matches(df, b, key) {
          return true, df, b, j;
        }
        ProbeStep(key, df, b, j);
        df, b, j := DistInc(df), Next(b, buckets.Length), j + 1;
      }
      found := false;
    }

    /** emplace: the entry is appended first, and dropped again if its key is already there. */
    method Emplace(key: K, value: V) returns (it: nat, inserted: bool)
      requires Valid() && (|values| < MAX_KEYS || key in Contents())
      modifies this, buckets
      ensures Valid() && (buckets == old(buckets) || fresh(buckets))
      ensures inserted <==> key !in old(Contents())
      ensures values == if inserted then old(values) + [(key, value)] else old(values)
      ensures Contents() == if inserted then old(Contents())[key := value] else old(Contents())
      ensures it < |values| && values[it].0 == key && (inserted ==> it == |old(values)|)
    {
      ghost var was := values;
      values := values + [(key, value)];
      GoodSameOrigins(buckets[..], Origins(hash, shifts, was), Origins(hash, shifts, values), pos);
      var found, df, b, j := ProbeFor(key);
      if found {
        IndexInRange(b);
        it := buckets[b].idx;
        values := values[..|values| - 1];
        assert values == was;
        MapAt(was, it);
        return it, false;
      }
      ProbeStop(key, df, b, j);
      assert !HasKey(was, key);
      MapHas(was, key);
      AppendedMap(was, key, value);
      it, inserted := |values| - 1, true;
      IndexLast(df, b, j);
    }

    /** do_try_emplace: probes first, appends only if the key is new. */
    method TryEmplace(key: K, value: V) returns (it: nat, inserted: bool)
      requires Valid() && (|values| < MAX_KEYS || key in Contents())
      modifies this, buckets
      ensures Valid() && (buckets == old(buckets) || fresh(buckets))
      ensures inserted <==> key !in old(Contents())
      ensures values == if inserted then old(values) + [(key, value)] else old(values)
      ensures Contents() == if inserted then old(Contents())[key := value] else old(Contents())
      ensures it < |values| && values[it].0 == key && (inserted ==> it == |old(values)|)
    {
      ProbeStart(key);
      var df: nat, b: nat := DistAndFingerprint(hash(key)), BucketIdx(hash(key), shifts);
      ghost var j := 0;
      while true
        invariant Probing(key, df, b, j)
        invariant Passed(buckets[..], OriginOf(hash, shifts, key), j)
        modifies {}
        decreases buckets.Length - j
      {
        if Matches(df, b, key) {
          ProbeHit(key, df, b, j);
          return buckets[b].idx, false;
        } else if df > buckets[b].df {
          ProbeStop(key, df, b, j);
          break;
        }
        ProbeStep(key, df, b, j);
        df, b, j := DistInc(df), Next(b, buckets.Length), j + 1;
      }
      it := DoPlaceElement(df, b, key, value, j);
      inserted := true;
    }

    /** do_place_element: appends the entry and indexes it where the probe stopped. */
    method DoPlaceElement(df: nat, b: nat, key: K, value: V, ghost j: nat) returns (it: nat)
      requires Valid() && |values| < MAX_KEYS && !HasKey(values, key)
      requires Probing(key, df, b, j) && df >= buckets[b].df
      requires Passed(buckets[..], OriginOf(hash, shifts, key), j)
      modifies this, buckets
      ensures Valid() && (buckets == old(buckets) || fresh(buckets))
      ensures values == old(values) + [(key, value)] && it == |old(values)|
      ensures Contents() == old(Contents())[key := value]
    {
      AppendedMap(values, key, value);
      ghost var was := values;
      values := values + [(key, value)];
      GoodSameOrigins(buckets[..], Origins(hash, shifts, was), Origins(hash, shifts, values), pos);
      it := |values| - 1;
      IndexLast(df, b, j);
    }

    /** do_insert_or_assign. */
    method InsertOrAssign(key: K, value: V) returns (it: nat, inserted: bool)
      requires Valid() && (|values| < MAX_KEYS || key in Contents())
      modifies this, buckets
      ensures Valid() && (buckets == old(buckets) || fresh(buckets))
      ensures inserted <==> key !in old(Contents())
      ensures Contents() == old(Contents())[key := value]
      ensures it < |values| && values[it] == (key, value) && |values| <= |old(values)| + 1
      ensures values == Assigned(old(values), key, value)
    {
      it, inserted := TryEmplace(key, value);
      if !inserted {
        OneIndex(values, it);
        AssignAt(it, value);
      } else {
        MapHas(old(values), key);
      }
    }

    /** Assignment through an iterator: `it->second = value`. */
    method AssignAt(it: nat, value: V)
      requires Valid() && it < |values|
      modifies `values
      ensures Valid() && values == old(values)[it := (old(values[it].0), value)]
      ensures Contents() == old(Contents())[values[it].0 := value]
    {
      AssignedMap(values, it, value);
      ghost var was := values;
      values := values[it := (values[it].0, value)];
      SameKeysSameOrigins(hash, shifts, was, values);
    }

    /** The probe of do_erase_key: among the buckets with the probe's own word, up to the key's. */
    method ProbeEqual(key: K) returns (df: nat, b: nat, ghost j: nat)
      requires Core()
      ensures Probing(key, df, b, j) && df >= buckets[b].df && (df == buckets[b].df ==> Matches(df, b, key))
    {
      df, b, j := NextWhileLess(key);
      while df == buckets[b].df && !Matches(df, b, key)
        invariant Probing(key, df, b, j) && df >= buckets[b].df
        decreases buckets.Length - j
      {
        ProbeStep(key, df, b, j);
        assert InOrder(buckets[..], b);
        df, b, j := DistInc(df), Next(b, buckets.Length), j + 1;
      }
    }

    /** do_erase_key. */
    method EraseKey(key: K) returns (count: nat)
      requires Valid()
      modifies buckets, `values, `pos
      ensures Valid()
      ensures count == if key in old(Contents()) then 1 else 0
      ensures |values| == |old(values)| - count && values == Without(old(values), key)
      ensures Contents() == old(Contents()) - {key}
    {
      if |values| == 0 {
        return 0;
      }
      var df, b, j := ProbeEqual(key);
      if df != buckets[b].df {
        ProbeStop(key, df, b, j);
        return 0;
      }
      ProbeHit(key, df, b, j);
      OneIndex(values, buckets[b].idx);
      SwapRemovedMap(values, buckets[b].idx);
      var _ := DoErase(b);
      count := 1;
    }

    /** erase(iterator) and extract(iterator): removes the entry at `it` and returns it. */
    method EraseAt(it: nat) returns (erased: (K, V))
      requires Valid() && it < |values|
      modifies buckets, `values, `pos
      ensures Valid()
      ensures erased == old(values[it]) && values == SwapRemoved(old(values), it)
      ensures Contents() == old(Contents()) - {erased.0}
    {
      var b := FindIndexBucket(it);
      assert InPlace(buckets[..], Origins(hash, shifts, values), pos, it);
      SwapRemovedMap(values, it);
      erased := DoErase(b);
    }

    /** clear. */
    method Clear()
      requires Valid()
      modifies buckets, `values, `pos
      ensures Valid() && values == [] && Contents() == map[]
    {
      values := [];
      ClearBuckets();
    }

    /** do_at: the key's value, or the key-not-found error. */
    method At(key: K) returns (r: Result<V>)
      requires Valid()
      ensures r == if key in Contents() then Found(Contents()[key]) else KeyNotFound
    {
      var it := Find(key);
      r := if it != |values| then Found(values[it].1) else KeyNotFound;
    }

    /** The rebuild shared by rehash and reserve. */
    method Rebuild(shifts: nat)
      requires Valid() && MIN_SHIFTS <= shifts <= INITIAL_SHIFTS && |values| <= LimitOf(NumBuckets(shifts))
      modifies this, buckets
      ensures Valid() && fresh(buckets) && this.shifts == shifts
      ensures values == old(values) && Contents() == old(Contents())
    {
      CoverCount(pos, |values|);
      this.shifts := shifts;
      AllocateBuckets();
      FillBuckets();
    }

    /** rehash: the table becomes the smallest one for `max(count, size())` entries. */
    method Rehash(count: nat)
      requires Valid() && count <= MAX_RESERVE
      modifies this, buckets
      ensures Valid() && (buckets == old(buckets) || fresh(buckets))
      ensures values == old(values) && Contents() == old(Contents())
      ensures count <= maxBucketCapacity
      ensures shifts < INITIAL_SHIFTS ==>
                CapacityOf(NumBuckets(shifts + 1)) < if count > |values| then count else |values|
    {
      CoverCount(pos, |values|);
      var s := CalcShiftsForSize(if count > |values| then count else |values|);
      LargerIsEnough(s, s);
      if s != shifts {
        Rebuild(s);
      }
    }

    /** reserve: never shrinks the bucket array. */
    method Reserve(capa: nat)
      requires Valid() && capa <= MAX_RESERVE
      modifies this, buckets
      ensures Valid() && (buckets == old(buckets) || fresh(buckets))
      ensures values == old(values) && Contents() == old(Contents())
      ensures capa <= maxBucketCapacity && shifts <= old(shifts)
    {
      CoverCount(pos, |values|);
      var s := CalcShiftsForSize(if capa > |values| then capa else |values|);
      LargerIsEnough(s, if s < shifts then s else shifts);
      if s < shifts {
        Rebuild(s);
      }
    }

    /** replace: each key of the container is kept once, with a value the container gave it.  Slots up to
        `idx` are indexed; a duplicate at `idx` is overwritten by the last entry. */
    method Replace(container: seq<(K, V)>)
      requires Valid() && |container| <= MAX_RESERVE && |KeySet(container)| <= MAX_KEYS
      modifies this, buckets
      ensures Valid() && (buckets == old(buckets) || fresh(buckets))
      ensures values == Deduped(container, 0)
      ensures multiset(values) <= multiset(container)
      ensures Contents().Keys == KeySet(container)
    {
      CoverCount(pos, |values|);
      var s := CalcShiftsForSize(|container|);
      LargerIsEnough(s, if s < shifts then s else shifts);
      if s < shifts {
        shifts := s;
        AllocateBuckets();
      }
      ClearBuckets();
      values := container;
      IndexDistinct();
    }

    /** The entries below `idx` are indexed and have distinct keys; the rest are still to be looked at. */
    ghost predicate Partial(idx: nat)
      reads this, buckets
    {
      && Core() && idx <= |values| <= maxBucketCapacity && |KeySet(values)| <= MAX_KEYS
      && Covers(pos, idx) && DistinctKeys(values[..idx])
    }

    /** The loop of replace: a duplicate is overwritten by the last entry, which is then looked at in its
        place. */
    method IndexDistinct()
      requires Partial(0)
      modifies buckets, `values, `pos
      ensures Valid() && values == Deduped(old(values), 0)
      ensures multiset(values) <= multiset(old(values))
      ensures Contents().Keys == KeySet(old(values))
    {
      var idx: nat := 0;
      while idx != |values|
        invariant Partial(idx) && Deduped(values, idx) == Deduped(old(values), 0)
        invariant multiset(values) <= multiset(old(values))
        invariant KeySet(values) == KeySet(old(values))
        decreases |values| - idx
      {
        idx := IndexOrDrop(idx);
      }
      assert values[..idx] == values;
      MapKeys(values);
    }

    /** One round of that loop. */
    method IndexOrDrop(idx: nat) returns (idx': nat)
      requires Partial(idx) && idx < |values|
      modifies buckets, `values, `pos
      ensures Partial(idx') && |values| - idx' < |old(values)| - idx
      ensures Deduped(values, idx') == Deduped(old(values), idx)
      ensures multiset(values) <= multiset(old(values))
      ensures KeySet(values) == KeySet(old(values))
    {
      var found, df, b, j := ProbeFor(values[idx].0);
      if found {
        DropDuplicate(idx, b, df, j);
        idx' := idx;
      } else {
        IndexDistinctAt(idx, df, b, j);
        idx' := idx + 1;
      }
    }

    /** The key is new. */
    method IndexDistinctAt(idx: nat, df: nat, b: nat, ghost j: nat)
      requires Partial(idx) && idx < |values| && Probing(values[idx].0, df, b, j) && df > buckets[b].df
      requires Passed(buckets[..], OriginOf(hash, shifts, values[idx].0), j)
      modifies buckets, `pos
      ensures Partial(idx + 1) && Deduped(values, idx + 1) == Deduped(values, idx)
    {
      CoverCount(pos, idx);
      ProbeStop(values[idx].0, df, b, j);
      ExtendDistinct(values, idx);
      DistinctCount(values, idx + 1);
      assert !HasKey(values[..idx], values[idx].0);
      hide KeySet, DistinctKeys, HasKey, Deduped;
      Index(df, idx, b, j);
    }

    /** The key-found branch of replace. */
    method DropDuplicate(idx: nat, b: nat, ghost df: nat, ghost j: nat)
      requires Partial(idx) && idx < |values| && Probing(values[idx].0, df, b, j) && Matches(df, b, values[idx].0)
      modifies `values
      ensures Partial(idx) && values == SwapRemoved(old(values), idx)
      ensures Deduped(values, idx) == Deduped(old(values), idx)
      ensures KeySet(values) == KeySet(old(values))
      ensures multiset(values) <= multiset(old(values))
    {
      ghost var was := values;
      IndexInRange(b);
      DuplicateDropped(was, idx, buckets[b].idx);
      hide KeySet, Deduped, DistinctKeys, HasKey;
      FillFromBack(idx);
      GoodSameOrigins(buckets[..], Origins(hash, shifts, was), Origins(hash, shifts, values), pos);
    }

    /** erase(first, last): drops exactly the range; the survivors end up as RangeErased says. */
    method EraseRange(first: nat, last: nat) returns (it: nat)
      requires Valid() && first <= last <= |values|
      modifies buckets, `values, `pos
      ensures Valid() && it == first
      ensures values == RangeErased(old(values), first, last)
      ensures Contents() == old(Contents()) - KeySet(old(values[first..last]))
    {
      ghost var was := values;
      var mid := first + if last - first <= |values| - last then last - first else |values| - last;
      EraseForwards(first, mid);
      FilledAndCut(was, first, mid, last, values);
      assert values[mid..last] == was[mid..last];
      EraseBackwards(mid, last);
      RangeGrows(was, first, mid, last);
      it := first;
    }

    /** Removing from left to right moves entries from the end into the range. */
    method EraseForwards(first: nat, mid: nat)
      requires Valid() && first <= mid && mid - first <= |values| - mid
      modifies buckets, `values, `pos
      ensures Valid() && HoleFilled(old(values), first, mid, values)
      ensures Contents() == old(Contents()) - KeySet(old(values[first..mid]))
    {
      ghost var was := values;
      NoHole(was, first);
      assert Contents() == AsMap(was) && KeySet(was[first..first]) == {};
      hide AsMap, KeySet, Valid, Contents, Core, Covers, DistinctKeys, HoleFilled;
      var idx: nat := first;
      while idx != mid
        invariant first <= idx <= mid
        invariant Valid() && HoleFilled(was, first, idx, values)
        invariant Contents() == AsMap(was) - KeySet(was[first..idx])
        decreases mid - idx
      {
        HoleRoom(was, first, idx, values);
        EraseOneForwards(was, first, idx);
        idx := idx + 1;
      }
    }

    /** One round of that loop. */
    method EraseOneForwards(ghost was: seq<(K, V)>, ghost first: nat, idx: nat)
      requires Valid() && HoleFilled(was, first, idx, values) && idx < |values|
      requires Contents() == AsMap(was) - KeySet(was[first..idx])
      modifies buckets, `values, `pos
      ensures Valid() && HoleFilled(was, first, idx + 1, values)
      ensures Contents() == AsMap(was) - KeySet(was[first..idx + 1])
    {
      hide AsMap, KeySet;
      RangeGrowsBy(was, first, idx);
      MinusOne(AsMap(was), KeySet(was[first..idx]), was[idx].0);
      HoleGrows(was, first, idx, values);
      var _ := EraseAt(idx);
    }

    /** Once nothing is left behind the range, its remaining entries are dropped from the back. */
    method EraseBackwards(mid: nat, last: nat)
      requires Valid() && mid <= last <= |values| && (mid == last || last == |values|)
      modifies buckets, `values, `pos
      ensures Valid() && values == old(values)[..|old(values)| - (last - mid)]
      ensures Contents() == old(Contents()) - KeySet(old(values[mid..last]))
    {
      ghost var was := values;
      assert Contents() == AsMap(was) && KeySet(was[last..last]) == {};
      hide AsMap, KeySet, Valid, Contents, Core, Covers, DistinctKeys;
      var idx: nat := last;
      while idx != mid
        invariant mid <= idx <= last
        invariant Valid() && values == was[..|was| - (last - idx)]
        invariant Contents() == AsMap(was) - KeySet(was[idx..last])
        decreases idx
      {
        idx := idx - 1;
        EraseBack(was, idx, last);
      }
    }

    /** One round of that loop: the last entry goes. */
    method EraseBack(ghost was: seq<(K, V)>, idx: nat, ghost last: nat)
      requires Valid() && idx < last == |was| && values == was[..idx + 1]
      requires Contents() == AsMap(was) - KeySet(was[idx + 1..last])
      modifies buckets, `values, `pos
      ensures Valid() && values == was[..idx]
      ensures Contents() == AsMap(was) - KeySet(was[idx..last])
    {
      hide AsMap, KeySet;
      RangeGrowsLeftBy(was, idx, last);
      MinusOne(AsMap(was), KeySet(was[idx + 1..last]), was[idx].0);
      var _ := EraseAt(idx);
    }

    /** std::erase_if: keeps exactly the entries failing the predicate, having visited each original entry
        once, from the back; returns how many were erased. */
    method EraseIf(pred: (K, V) -> bool) returns (count: nat, ghost visited: seq<(K, V)>)
      requires Valid()
      modifies buckets, `values, `pos
      ensures Valid() && values == ErasedIf(old(values), |old(values)|, pred)
      ensures Contents() == Kept(old(Contents()), pred)
      ensures count == |old(values)| - |values|
      ensures visited == Reversed(old(values))
    {
      ghost var was := values;
      assert Contents() == AsMap(was) && DistinctKeys(was);
      hide AsMap, Meeting, Kept, Valid, Contents, Core, Covers, DistinctKeys, ErasedIf, Reversed;
      NoneMeeting(was, pred);
      ReversedNothing(was);
      var oldSize := |values|;
      var idx: nat := oldSize;
      visited := [];
      while idx > 0
        invariant idx <= |values| <= |was| && Valid()
        invariant values[..idx] == was[..idx]
        invariant ErasedIf(values, idx, pred) == ErasedIf(was, |was|, pred)
        invariant Contents() == AsMap(was) - Meeting(was, idx, pred)
        invariant visited == Reversed(was[idx..])
      {
        idx := idx - 1;
        SamePrefix(values, was, idx);
        ReversedGrows(was, idx);
        visited := visited + [values[idx]];
        EraseIfMeeting(was, idx, pred);
      }
      MeetingKept(was, pred);
      NoneLeft(values, pred);
      assert was[0..] == was;
      count := oldSize - |values|;
    }

    /** One round of that loop. */
    method EraseIfMeeting(ghost was: seq<(K, V)>, idx: nat, pred: (K, V) -> bool)
      requires Valid() && idx < |values| <= |was| && values[..idx + 1] == was[..idx + 1]
      requires Contents() == AsMap(was) - Meeting(was, idx + 1, pred)
      modifies buckets, `values, `pos
      ensures Valid() && idx <= |values| <= |was| && values[..idx] == was[..idx]
      ensures ErasedIf(values, idx, pred) == ErasedIf(old(values), idx + 1, pred)
      ensures Contents() == AsMap(was) - Meeting(was, idx, pred)
    {
      hide AsMap, Meeting;
      assert values[idx] == was[idx];
      MeetingGrows(was, idx, pred);
      MinusOne(AsMap(was), Meeting(was, idx + 1, pred), was[idx].0);
      if pred(values[idx].0, values[idx].1) {
        var _ := EraseAt(idx);
      }
    }
  }
}
