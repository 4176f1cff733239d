/** Bucket counts and the load limit. */
module Sizing {
  import opened Arithmetic

  /** A right shift, one bit at a time. */
  function Shr(x: nat, n: nat): nat {
    if n == 0 then x else Shr(x / 2, n - 1)
  }

  lemma {:induction false} ShrBound(x: nat, n: nat, m: nat)
    requires x < Pow2(m + n)
    ensures Shr(x, n) < Pow2(m)
  {
    if n > 0 {
      ShrBound(x / 2, n - 1, m);
    }
  }

  const INITIAL_SHIFTS: nat := 62

  /** The shift of the largest bucket array, 2^32 buckets. */
  const MIN_SHIFTS: nat := 32

  /** The number of keys the distance field of a bucket allows for, whatever the hash: see ProbeField. */
  const MAX_KEYS: nat := 0xFF_FFFE

  /** The largest size calc_shifts_for_size finds a bucket count for. */
  const MAX_RESERVE: nat := 3435973888

  /** calc_num_buckets, with max_bucket_count 2^32. */
  function NumBuckets(shifts: nat): nat
    requires shifts <= 64
  {
    if shifts <= MIN_SHIFTS then 0x1_0000_0000 else Pow2(64 - shifts)
  }

  /** Bucket count times the default load factor, rounded down.  The single precision constant 0.8F is
      13421773 / 2^24, and its product with a power of two is exact. */
  function CapacityOf(buckets: nat): nat {
    13421773 * buckets / 0x100_0000
  }

  /** m_max_bucket_capacity: the largest bucket array may be filled up. */
  function LimitOf(buckets: nat): nat {
    if buckets == 0x1_0000_0000 then buckets else CapacityOf(buckets)
  }

  lemma BucketCounts(shifts: nat)
    requires MIN_SHIFTS <= shifts <= INITIAL_SHIFTS
    ensures NumBuckets(shifts) == Pow2(64 - shifts) && 4 <= NumBuckets(shifts) <= 0x1_0000_0000
    ensures 3 <= CapacityOf(NumBuckets(shifts)) < NumBuckets(shifts)
    ensures shifts > MIN_SHIFTS ==> CapacityOf(NumBuckets(shifts)) < CapacityOf(NumBuckets(shifts - 1))
    ensures shifts > MIN_SHIFTS ==> NumBuckets(shifts) < 0x1_0000_0000
    ensures shifts == MIN_SHIFTS ==> CapacityOf(NumBuckets(shifts)) == MAX_RESERVE
  {
    SmallPowers();
    LargePowers();
    hide Pow2;
    Pow2Mono(2, 64 - shifts);
    Pow2Mono(64 - shifts, 32);
    if shifts > MIN_SHIFTS {
      Pow2Mono(64 - shifts, 31);
      NextPower(64 - shifts);
    }
  }

  /** A table that may hold its keys has a bucket to spare. */
  lemma BucketToSpare(shifts: nat, keys: nat)
    requires MIN_SHIFTS <= shifts <= INITIAL_SHIFTS && keys <= LimitOf(NumBuckets(shifts)) && keys <= MAX_KEYS
    ensures keys < NumBuckets(shifts)
  {
    BucketCounts(shifts);
  }

  /** A bucket array too small for its keys is not the largest, and twice as many buckets are enough. */
  lemma Doubling(shifts: nat, keys: nat)
    requires MIN_SHIFTS <= shifts <= INITIAL_SHIFTS && keys == LimitOf(NumBuckets(shifts)) + 1 && keys <= MAX_KEYS
    ensures shifts > MIN_SHIFTS && keys <= LimitOf(NumBuckets(shifts - 1))
  {
    BucketCounts(shifts);
    if shifts > MIN_SHIFTS {
      BucketCounts(shifts - 1);
    }
  }

  /** A larger bucket array takes at least as many. */
  lemma {:induction false} LargerIsEnough(s: nat, t: nat)
    requires MIN_SHIFTS <= t <= s <= INITIAL_SHIFTS
    ensures CapacityOf(NumBuckets(s)) <= CapacityOf(NumBuckets(t)) <= LimitOf(NumBuckets(t))
  {
    BucketCounts(t);
    if t < s {
      BucketCounts(s);
      LargerIsEnough(s - 1, t);
    }
  }

  /** bucket_idx_from_hash: the top bits of the hash. */
  function BucketIdx(hash: U64, shifts: nat): nat {
    Shr(hash, shifts)
  }

  /** dist_and_fingerprint_from_hash: distance one, and the lowest byte of the hash. */
  function DistAndFingerprint(hash: U64): nat {
    256 + hash % 256
  }

  /** The home bucket of a hash lies within the bucket array. */
  lemma HomeInRange(hash: U64, shifts: nat)
    requires MIN_SHIFTS <= shifts <= INITIAL_SHIFTS
    ensures BucketIdx(hash, shifts) < NumBuckets(shifts)
  {
    BucketCounts(shifts);
    LargePowers();
    ShrBound(hash, shifts, 64 - shifts);
  }
}
