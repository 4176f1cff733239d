/** The clock of sole.h and the time-based uuids made from it.  The system clock and the MAC address are
    parameters. */
module UuidTime {
  import opened Arithmetic
  import opened Uuid

  /** The time recorded by one call of get_time, given the one recorded before and the clock. */
  function Tick(last: U64, now: U64): U64 {
    if last >= now then Wrap64(last + 1) else now
  }

  /** The static variable of get_time. */
  class Clock {
    var last: U64

    constructor ()
      ensures last == 0
    {
      last := 0;
    }

    method GetTime(now: U64, offset: U64) returns (t: U64)
      modifies this
      ensures last == Tick(old(last), now) && t == Wrap64(last + offset)
    {
      t := now;
      if last >= t {
        last := Wrap64(last + 1);
        t := last;
      } else {
        last := t;
      }
      t := Wrap64(t + offset);
    }
  }

  /** The largest 64-bit number. */
  const LAST: nat := 0xffff_ffff_ffff_ffff

  /** The recorded time goes up exactly when it is not already the largest 64-bit number. */
  lemma TickIncreases(last: U64, now: U64)
    ensures last < Tick(last, now) <==> last != LAST
  {
  }

  // ---------------------------------------------------------------- runs

  /** The times recorded by a run of calls. */
  function Ticks(last: U64, nows: seq<U64>): (r: seq<U64>)
    ensures |r| == |nows|
    decreases |nows|
  {
    if nows == [] then [] else [Tick(last, nows[0])] + Ticks(Tick(last, nows[0]), nows[1..])
  }

  /** Each time is above the one before it, the first above `last`. */
  ghost predicate Rising(last: int, times: seq<U64>)
    decreases |times|
  {
    times == [] || (last < times[0] && Rising(times[0], times[1..]))
  }

  ghost predicate AtMost(s: seq<U64>, top: int) {
    forall i :: 0 <= i < |s| ==> s[i] <= top
  }

  /** What can be told from the clock's readings: neither the time before nor any reading is so near `top` that
      the calls from there on would take the time beyond it. */
  predicate Within(last: int, nows: seq<U64>, top: int) {
    && last + |nows| <= top
    && forall j :: 0 <= j < |nows| ==> nows[j] + (|nows| - 1 - j) <= top
  }

  lemma WithinStep(last: U64, nows: seq<U64>, top: int)
    requires |nows| > 0 && top <= LAST
    ensures Within(last, nows, top) <==> last < top && Within(Tick(last, nows[0]), nows[1..], top)
  {
    var t, rest := Tick(last, nows[0]), nows[1..];
    if Within(last, nows, top) {
      forall j | 0 <= j < |rest| ensures rest[j] + (|rest| - 1 - j) <= top {
        assert rest[j] == nows[j + 1];
      }
      assert nows[0] + (|nows| - 1 - 0) <= top;
    }
    if last < top && Within(t, rest, top) {
      forall j | 0 <= j < |nows| ensures nows[j] + (|nows| - 1 - j) <= top {
        if j > 0 { assert nows[j] == rest[j - 1]; }
      }
    }
  }

  /** Whatever the clock does - stand still, run backwards, jump - the recorded times of a run rise and stay
      within `top` if and only if the readings leave room for it. */
  lemma {:induction false} RecordedRise(last: U64, nows: seq<U64>, top: int)
    requires last <= top <= LAST
    ensures Rising(last, Ticks(last, nows)) && AtMost(Ticks(last, nows), top) <==> Within(last, nows, top)
    decreases |nows|
  {
    if nows != [] {
      var t, r := Tick(last, nows[0]), Ticks(last, nows);
      var rest := Ticks(t, nows[1..]);
      assert r[1..] == rest;
      WithinStep(last, nows, top);
      if t <= top {
        RecordedRise(t, nows[1..], top);
        if AtMost(rest, top) {
          forall i | 0 <= i < |r| ensures r[i] <= top {
            if i > 0 { assert r[i] == rest[i - 1]; }
          }
        } else {
          var i :| 0 <= i < |rest| && rest[i] > top;
          assert r[i + 1] == rest[i];
        }
      } else {
        assert r[0] == t;
      }
    }
  }

  /** Over every run the recorded times strictly increase if and only if there is room below 2^64. */
  lemma Monotonic(last: U64, nows: seq<U64>)
    ensures Rising(last, Ticks(last, nows)) <==> Within(last, nows, LAST)
  {
    RecordedRise(last, nows, LAST);
  }

  /** Below the largest number there is nothing to wrap: the times stay within `top` if and only if the readings
      do. */
  lemma {:induction false} RecordedFit(last: U64, nows: seq<U64>, top: int)
    requires last <= top < LAST
    ensures AtMost(Ticks(last, nows), top) <==> Within(last, nows, top)
    decreases |nows|
  {
    RecordedRise(last, nows, top);
    if AtMost(Ticks(last, nows), top) {
      BoundedRise(last, nows, top);
    }
  }

  lemma {:induction false} BoundedRise(last: U64, nows: seq<U64>, top: int)
    requires last <= top < LAST && AtMost(Ticks(last, nows), top)
    ensures Rising(last, Ticks(last, nows))
    decreases |nows|
  {
    if nows != [] {
      var t, r := Tick(last, nows[0]), Ticks(last, nows);
      var rest := Ticks(t, nows[1..]);
      assert r[0] == t && r[1..] == rest;
      forall i | 0 <= i < |rest| ensures rest[i] <= top {
        assert rest[i] == r[i + 1];
      }
      BoundedRise(t, nows[1..], top);
    }
  }

  lemma {:induction false} RisingPair(last: int, times: seq<U64>, i: nat, j: nat)
    requires Rising(last, times) && i < j < |times|
    ensures last < times[i] < times[j]
    decreases |times|
  {
    var rest := times[1..];
    if i > 0 {
      RisingPair(times[0], rest, i - 1, j - 1);
      assert rest[i - 1] == times[i] && rest[j - 1] == times[j];
    } else if j > 1 {
      RisingPair(times[0], rest, 0, j - 1);
      assert rest[j - 1] == times[j];
    }
  }

  // ---------------------------------------------------------------- returned times

  /** What get_time returns over a run of calls with one offset. */
  function Returned(last: U64, nows: seq<U64>, offset: U64): (r: seq<U64>)
    ensures |r| == |nows|
    decreases |nows|
  {
    if nows == [] then []
    else
      var t := Tick(last, nows[0]);
      [Wrap64(t + offset)] + Returned(t, nows[1..], offset)
  }

  /** The recorded time is the largest number after `k` calls, the next call records zero, and from there on the
      sums with the offset have room. */
  predicate WrapsAt(last: int, nows: seq<U64>, offset: U64, k: nat) {
    && k < |nows| && Within(last, nows[..k], LAST) && !Within(last, nows[..k + 1], LAST)
    && Within(0, nows[k + 1..], LAST - offset)
  }

  /** Room for the returned times: if adding the offset has not wrapped yet, it must not wrap during the run; if
      it has, the recorded time may still wrap once, which the offset makes up for. */
  ghost predicate Room(last: U64, nows: seq<U64>, offset: U64) {
    if last + offset <= LAST then Within(last, nows, LAST - offset)
    else Within(last, nows, LAST) || exists k: nat :: WrapsAt(last, nows, offset, k)
  }

  /** The returned times of a run strictly increase, starting from the last one returned, if and only if there is
      room for them. */
  lemma {:induction false} ReturnedRise(last: U64, nows: seq<U64>, offset: U64)
    ensures Rising(Wrap64(last + offset), Returned(last, nows, offset)) <==> Room(last, nows, offset)
    decreases |nows|
  {
    if nows != [] {
      var t, rest := Tick(last, nows[0]), nows[1..];
      var r := Returned(last, nows, offset);
      assert r[0] == Wrap64(t + offset) && r[1..] == Returned(t, rest, offset);
      FirstReturned(last, nows[0], offset);
      hide Wrap64, Tick, Returned, Within, WrapsAt;
      ReturnedRise(t, rest, offset);
      if last + offset <= LAST {
        WithinStep(last, nows, LAST - offset);
        if Within(t, rest, LAST - offset) { WithinAtMost(t, rest, LAST - offset); }
      } else if last == LAST {
        WrapAtOnce(nows, offset);
      } else {
        RoomStep(last, nows, offset);
      }
    }
  }

  /** The same for the returned times alone, when nothing has been returned before them, as from a cleared clock:
      the first call is compared with nothing. */
  lemma ReturnedRun(last: U64, nows: seq<U64>, offset: U64)
    ensures Rising(-1, Returned(last, nows, offset)) <==> nows == [] || Room(Tick(last, nows[0]), nows[1..], offset)
  {
    if nows != [] {
      var t, r := Tick(last, nows[0]), Returned(last, nows, offset);
      assert r[0] == Wrap64(t + offset) && r[1..] == Returned(t, nows[1..], offset);
      hide Tick, Wrap64, Room;
      ReturnedRise(t, nows[1..], offset);
    }
  }

  lemma FirstReturned(last: U64, now: U64, offset: U64)
    ensures var t, was := Tick(last, now), Wrap64(last + offset);
            && (last + offset <= LAST ==> (was < Wrap64(t + offset) <==> last < t && t + offset <= LAST))
            && (last + offset > LAST ==> was < Wrap64(t + offset))
            && (if last == LAST then t == 0 else last < t)
  {
  }

  lemma WithinAtMost(last: int, nows: seq<U64>, top: int)
    requires Within(last, nows, top)
    ensures last <= top
  {
  }

  lemma WrapAtOnce(nows: seq<U64>, offset: U64)
    requires nows != [] && offset > 0
    ensures Room(LAST, nows, offset) <==> Within(0, nows[1..], LAST - offset)
  {
    if Within(0, nows[1..], LAST - offset) {
      assert WrapsAt(LAST, nows, offset, 0);
    }
  }

  lemma RoomStep(last: U64, nows: seq<U64>, offset: U64)
    requires nows != [] && last + offset > LAST && last < LAST
    ensures Room(last, nows, offset) <==> Room(Tick(last, nows[0]), nows[1..], offset)
  {
    hide Tick, Within, WrapsAt;
    var t, rest := Tick(last, nows[0]), nows[1..];
    WithinStep(last, nows, LAST);
    TickIncreases(last, nows[0]);
    if k: nat :| WrapsAt(last, nows, offset, k) {
      WrapsAfter(last, nows, offset, k);
    }
    if k: nat :| WrapsAt(t, rest, offset, k) {
      WrapsBefore(last, nows, offset, k);
    }
  }

  lemma WrapsAfter(last: U64, nows: seq<U64>, offset: U64, k: nat)
    requires nows != [] && last < LAST && WrapsAt(last, nows, offset, k)
    ensures k > 0 && WrapsAt(Tick(last, nows[0]), nows[1..], offset, k - 1)
  {
    assert Within(last, nows[..1], LAST);
    hide Tick, Within;
    PrefixStep(last, nows, k);
    PrefixStep(last, nows, k + 1);
    assert nows[k + 1..] == nows[1..][k..];
  }

  lemma WrapsBefore(last: U64, nows: seq<U64>, offset: U64, k: nat)
    requires nows != [] && last < LAST && WrapsAt(Tick(last, nows[0]), nows[1..], offset, k)
    ensures WrapsAt(last, nows, offset, k + 1)
  {
    hide Tick, Within;
    PrefixStep(last, nows, k + 1);
    PrefixStep(last, nows, k + 2);
    assert nows[k + 2..] == nows[1..][k + 1..];
  }

  lemma PrefixStep(last: U64, nows: seq<U64>, k: nat)
    requires k <= |nows| && last < LAST
    ensures k > 0 ==> (Within(last, nows[..k], LAST) <==> Within(Tick(last, nows[0]), nows[1..][..k - 1], LAST))
  {
    if k > 0 {
      var p := nows[..k];
      assert p[1..] == nows[1..][..k - 1] && p[0] == nows[0];
      WithinStep(last, p, LAST);
    }
  }

  /** A call that records a later time and returns an earlier one: the offset takes the sum over the edge although
      the recorded time is nowhere near it. */
  lemma ReturnedFalls()
    ensures var last: U64 := LAST - OFFSET;
            last != LAST && last < Tick(last, last + 1)
            && Wrap64(last + OFFSET) == LAST && Wrap64(Tick(last, last + 1) + OFFSET) == 0
  {
  }

  // ---------------------------------------------------------------- version 1

  /** Intervals of 100 ns between 15 October 1582 and the start of the Unix epoch. */
  const OFFSET: U64 := 0x01b2_1dd2_1381_4000

  /** The uuid of time `t` and a 48-bit node. */
  function Uuid1Of(t: U64, mac: nat): (u: Uuid)
    requires mac < 0x1_0000_0000_0000
  {
    Uuid(t % 0x1_0000_0000 * 0x1_0000_0000 + t / 0x1_0000_0000 % 0x1_0000 * 0x1_0000
         + t / 0x1_0000_0000_0000 % 0x1000 + 0x1000,
         0x8000_0000_0000_0000 + t % 0x4000 * 0x1_0000_0000_0000 + mac)
  }

  /** The 60-bit timestamp in the fields of a uuid, section 4.1.4 of RFC 4122. */
  function TimestampOf(u: Uuid): nat {
    u.ab / 0x1_0000_0000 + u.ab / 0x1_0000 % 0x1_0000 * 0x1_0000_0000 + u.ab % 0x1000 * 0x1_0000_0000_0000
  }

  lemma FieldsOfUpper(low: nat, mid: nat, hi: nat)
    requires low < 0x1_0000_0000 && mid < 0x1_0000 && hi < 0x1000
    ensures var v := low * 0x1_0000_0000 + mid * 0x1_0000 + hi + 0x1000;
            && v / 0x1_0000_0000 == low && v / 0x1_0000 % 0x1_0000 == mid
            && v % 0x1000 == hi && v / 0x1000 % 16 == 1
  {
    var v := low * 0x1_0000_0000 + mid * 0x1_0000 + hi + 0x1000;
    UpperHalves(low, mid, hi + 0x1000, v);
    LowerHalves(low, mid, hi, v);
  }

  lemma UpperHalves(low: nat, mid: nat, rest: nat, v: nat)
    requires mid < 0x1_0000 && rest < 0x1_0000 && v == low * 0x1_0000_0000 + mid * 0x1_0000 + rest
    ensures v / 0x1_0000_0000 == low && v / 0x1_0000 % 0x1_0000 == mid
  {
    assert v / 0x1_0000 == low * 0x1_0000 + mid;
  }

  lemma LowerHalves(low: nat, mid: nat, hi: nat, v: nat)
    requires hi < 0x1000 && v == low * 0x1_0000_0000 + mid * 0x1_0000 + hi + 0x1000
    ensures v % 0x1000 == hi && v / 0x1000 % 16 == 1
  {
    assert v / 0x1000 == low * 0x10_0000 + mid * 16 + 1;
  }

  lemma FieldsOfTime(t: U64)
    ensures t % 0x1000_0000_0000_0000
            == t % 0x1_0000_0000 + t / 0x1_0000_0000 % 0x1_0000 * 0x1_0000_0000
               + t / 0x1_0000_0000_0000 % 0x1000 * 0x1_0000_0000_0000
  {
    var up := t / 0x1_0000_0000;
    assert up / 0x1_0000 == t / 0x1_0000_0000_0000;
    assert up == up / 0x1_0000 * 0x1_0000 + up % 0x1_0000;
  }

  /** The timestamp is recovered modulo 2^60; version and variant are those of RFC 4122. */
  lemma Uuid1Fields(t: U64, mac: nat)
    requires mac < 0x1_0000_0000_0000
    ensures TimestampOf(Uuid1Of(t, mac)) == t % 0x1000_0000_0000_0000
    ensures var u := Uuid1Of(t, mac); u.ab / 0x1000 % 16 == 1 && u.cd / 0x4000_0000_0000_0000 == 2
    ensures Uuid1Of(t, mac).cd % 0x1_0000_0000_0000 == mac
    ensures Uuid1Of(t, mac).cd / 0x1_0000_0000_0000 % 0x4000 == t % 0x4000
  {
    FieldsOfUpper(t % 0x1_0000_0000, t / 0x1_0000_0000 % 0x1_0000, t / 0x1_0000_0000_0000 % 0x1000);
    FieldsOfTime(t);
    FieldsOfLower(t % 0x4000, mac);
  }

  lemma FieldsOfLower(seq14: nat, mac: nat)
    requires seq14 < 0x4000 && mac < 0x1_0000_0000_0000
    ensures var v := 0x8000_0000_0000_0000 + seq14 * 0x1_0000_0000_0000 + mac;
            && v < 0x1_0000_0000_0000_0000 && v / 0x4000_0000_0000_0000 == 2 && v % 0x1_0000_0000_0000 == mac
            && v / 0x1_0000_0000_0000 % 0x4000 == seq14
  {
    AddMultiple(0x8000 + seq14, 0x1_0000_0000_0000, mac);
  }

  lemma SixtyParts(h: nat, r: nat, t: nat)
    requires t == h * 0x1000_0000_0000_0000 + r
    ensures t / 0x1_0000_0000 % 0x1_0000 == r / 0x1_0000_0000 % 0x1_0000
    ensures t / 0x1_0000_0000_0000 % 0x1000 == r / 0x1_0000_0000_0000 % 0x1000
  {
    AddMultiple(h * 0x1000_0000, 0x1_0000_0000, r);
    AddMultiple(h * 0x1000, 0x1_0000, r / 0x1_0000_0000);
    AddMultiple(h * 0x1000, 0x1_0000_0000_0000, r);
    AddMultiple(h, 0x1000, r / 0x1_0000_0000_0000);
  }

  lemma LowSixty(t: U64, mac: nat)
    requires mac < 0x1_0000_0000_0000
    ensures Uuid1Of(t, mac) == Uuid1Of(t % 0x1000_0000_0000_0000, mac)
  {
    var h, r := t / 0x1000_0000_0000_0000, t % 0x1000_0000_0000_0000;
    SixtyParts(h, r, t);
    LowParts(h, r, t);
  }

  lemma LowParts(h: nat, r: nat, t: nat)
    requires t == h * 0x1000_0000_0000_0000 + r
    ensures t % 0x1_0000_0000 == r % 0x1_0000_0000 && t % 0x4000 == r % 0x4000
  {
    AddMultiple(h * 0x1000_0000, 0x1_0000_0000, r);
    AddMultiple(h * 0x4000_0000_0000, 0x4000, r);
  }

  /** Two uuids of one node are equal exactly when their times agree modulo 2^60. */
  lemma Uuid1Equal(t: U64, t': U64, mac: nat)
    requires mac < 0x1_0000_0000_0000
    ensures Uuid1Of(t, mac) == Uuid1Of(t', mac) <==> t % 0x1000_0000_0000_0000 == t' % 0x1000_0000_0000_0000
  {
    hide Uuid1Of, TimestampOf;
    Uuid1Fields(t, mac);
    Uuid1Fields(t', mac);
    LowSixty(t, mac);
    LowSixty(t', mac);
  }

  /** uuid1. */
  method Uuid1(clock: Clock, now: U64, mac: nat) returns (u: Uuid)
    requires mac < 0x1_0000_0000_0000
    modifies clock
    ensures clock.last == Tick(old(clock.last), now) && u == Uuid1Of(Wrap64(clock.last + OFFSET), mac)
  {
    var t := clock.GetTime(now, OFFSET);
    u := Assemble(t, mac);
  }

  /** Its fields: unions of disjoint bit ranges are sums, and masks are remainders. */
  method Assemble(t: U64, mac: nat) returns (u: Uuid)
    requires mac < 0x1_0000_0000_0000
    ensures u == Uuid1Of(t, mac)
  {
    var clockSeq := t % 0x4000;
    var timeLow, timeMid, timeHi := t % 0x1_0000_0000, t / 0x1_0000_0000 % 0x1_0000, t / 0x1_0000_0000_0000 % 0x1000;
    var seqLow, seqHi := clockSeq % 256, clockSeq / 256 % 64;
    assert seqHi * 256 + seqLow == clockSeq;
    var upper := timeLow * 0x1_0000_0000;
    upper := upper + timeMid * 0x1_0000;
    upper := upper + timeHi;
    var lower := (seqHi * 256 + seqLow) * 0x1_0000_0000_0000;
    lower := lower + mac;
    lower := lower % 0x4000_0000_0000_0000;
    lower := lower + 0x8000_0000_0000_0000;
    VersionClear(timeLow, timeMid, timeHi, upper);
    upper := upper - upper / 0x1000 % 16 * 0x1000;
    upper := upper + 0x1000;
    FieldsOfUpper(timeLow, timeMid, timeHi);
    FieldsOfLower(clockSeq, mac);
    u := Uuid(upper, lower);
  }

  lemma VersionClear(low: nat, mid: nat, hi: nat, v: nat)
    requires hi < 0x1000 && v == low * 0x1_0000_0000 + mid * 0x1_0000 + hi
    ensures v / 0x1000 % 16 == 0
  {
    assert v / 0x1000 == low * 0x10_0000 + mid * 16;
  }

  /** Every run of uuid1 calls: the uuids carry the recorded times in order. */
  method Uuid1Run(nows: seq<U64>, mac: nat) returns (us: seq<Uuid>)
    requires mac < 0x1_0000_0000_0000
    ensures |us| == |nows|
    ensures forall i :: 0 <= i < |us| ==> us[i] == Uuid1Of(Wrap64(Ticks(0, nows)[i] + OFFSET), mac)
  {
    hide Uuid1Of, Tick;
    var clock := new Clock();
    us := [];
    ghost var done: seq<U64> := [];
    for k := 0 to |nows|
      invariant |us| == |done| == k
      invariant Ticks(0, nows) == done + Ticks(clock.last, nows[k..])
      invariant forall i :: 0 <= i < k ==> us[i] == Uuid1Of(Wrap64(done[i] + OFFSET), mac)
    {
      assert nows[k..][1..] == nows[k + 1..];
      var u := Uuid1(clock, nows[k], mac);
      us := us + [u];
      done := done + [clock.last];
    }
  }

  lemma SixtyBits(x: nat)
    requires x < 0x1000_0000_0000_0000
    ensures Wrap64(x) == x && x % 0x1000_0000_0000_0000 == x
  {
  }

  /** The times of a run from the cleared clock fit in 60 bits if and only if the readings leave room for it. */
  lemma TimesFit(nows: seq<U64>)
    ensures AtMost(Ticks(0, nows), 0xfff_ffff_ffff_ffff - OFFSET) <==> Within(0, nows, 0xfff_ffff_ffff_ffff - OFFSET)
  {
    RecordedFit(0, nows, 0xfff_ffff_ffff_ffff - OFFSET);
  }

  /** Successive uuids are pairwise distinct while the times fit in 60 bits, whatever the clock does. */
  lemma Uuid1Distinct(nows: seq<U64>, mac: nat, i: nat, j: nat)
    requires mac < 0x1_0000_0000_0000 && i < j < |nows|
    requires AtMost(Ticks(0, nows), 0xfff_ffff_ffff_ffff - OFFSET)
    ensures var ts := Ticks(0, nows);
            Uuid1Of(Wrap64(ts[i] + OFFSET), mac) != Uuid1Of(Wrap64(ts[j] + OFFSET), mac)
  {
    hide Uuid1Of, Ticks, Wrap64;
    var ts := Ticks(0, nows);
    BoundedRise(0, nows, 0xfff_ffff_ffff_ffff - OFFSET);
    RisingPair(0, ts, i, j);
    SixtyBits(ts[i] + OFFSET);
    SixtyBits(ts[j] + OFFSET);
    Uuid1Equal(Wrap64(ts[i] + OFFSET), Wrap64(ts[j] + OFFSET), mac);
  }
}
