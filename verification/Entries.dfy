/** Dense key-value vectors with distinct keys, and the plain maps they stand for. */
module Entries {

  ghost predicate SameKey<K, V>(vals: seq<(K, V)>, i: nat, j: nat) {
    i < |vals| && j < |vals| && vals[i].0 == vals[j].0
  }

  ghost predicate DistinctKeys<K, V>(vals: seq<(K, V)>) {
    forall i: nat, j: nat {:trigger SameKey(vals, i, j)} :: i < j < |vals| ==> !SameKey(vals, i, j)
  }

  ghost predicate HasKey<K, V>(vals: seq<(K, V)>, key: K) {
    exists i :: 0 <= i < |vals| && vals[i].0 == key
  }

  ghost function KeySet<K, V>(vals: seq<(K, V)>): set<K> {
    set i | 0 <= i < |vals| :: vals[i].0
  }

  /** The plain map a vector of entries stands for. */
  ghost function AsMap<K, V>(vals: seq<(K, V)>): (m: map<K, V>) {
    if |vals| == 0 then map[]
    else var last := |vals| - 1; AsMap(vals[..last])[vals[last].0 := vals[last].1]
  }

  /** Its keys are the vector's keys. */
  lemma {:induction false} MapKeys<K, V>(vals: seq<(K, V)>)
    ensures AsMap(vals).Keys == KeySet(vals)
  {
    if |vals| > 0 {
      var last := |vals| - 1;
      MapKeys(vals[..last]);
      forall i | 0 <= i < |vals| ensures vals[i].0 in AsMap(vals) {
        if i < last { assert vals[..last][i].0 in KeySet(vals[..last]); }
      }
    }
  }

  lemma MapHas<K, V>(vals: seq<(K, V)>, key: K)
    ensures key in AsMap(vals) <==> HasKey(vals, key)
  {
    MapKeys(vals);
  }

  /** Each entry is bound to its own value. */
  lemma {:induction false} MapAt<K, V>(vals: seq<(K, V)>, i: nat)
    requires DistinctKeys(vals) && i < |vals|
    ensures vals[i].0 in AsMap(vals) && AsMap(vals)[vals[i].0] == vals[i].1
  {
    var last := |vals| - 1;
    if i < last {
      PrefixDistinct(vals, last);
      MapAt(vals[..last], i);
      assert !SameKey(vals, i, last);
    }
  }

  lemma PrefixDistinct<K, V>(vals: seq<(K, V)>, n: nat)
    requires DistinctKeys(vals) && n <= |vals|
    ensures DistinctKeys(vals[..n])
  {
    forall i: nat, j: nat | i < j < n ensures !SameKey(vals[..n], i, j) {
      assert !SameKey(vals, i, j);
    }
  }

  lemma ExtendDistinct<K, V>(vals: seq<(K, V)>, n: nat)
    requires n < |vals| && DistinctKeys(vals[..n])
    requires forall i :: 0 <= i < n ==> vals[i].0 != vals[n].0
    ensures DistinctKeys(vals[..n + 1])
  {
    var r := vals[..n + 1];
    forall i: nat, j: nat | i < j < |r| ensures !SameKey(r, i, j) {
      if j < n { assert !SameKey(vals[..n], i, j); }
    }
  }

  /** AsMap is the only map with exactly the vector's bindings. */
  lemma MapIs<K, V>(vals: seq<(K, V)>, m: map<K, V>)
    requires DistinctKeys(vals)
    requires forall i :: 0 <= i < |vals| ==> vals[i].0 in m && m[vals[i].0] == vals[i].1
    requires forall k :: k in m ==> HasKey(vals, k)
    ensures AsMap(vals) == m
  {
    var m' := AsMap(vals);
    forall k | k in m' ensures k in m && m'[k] == m[k] {
      MapHas(vals, k);
      var i :| 0 <= i < |vals| && vals[i].0 == k;
      MapAt(vals, i);
    }
    forall k | k in m ensures k in m' {
      MapHas(vals, k);
    }
  }

  /** Where a key is. */
  ghost function IndexOf<K, V>(vals: seq<(K, V)>, key: K): (i: nat)
    requires HasKey(vals, key)
    ensures i < |vals| && vals[i].0 == key
  {
    if vals[0].0 == key then 0
    else
      assert HasKey(vals[1..], key) by {
        var j :| 0 <= j < |vals| && vals[j].0 == key;
        assert vals[1..][j - 1].0 == key;
      }
      1 + IndexOf(vals[1..], key)
  }

  lemma OneIndex<K, V>(vals: seq<(K, V)>, i: nat)
    requires DistinctKeys(vals) && i < |vals|
    ensures HasKey(vals, vals[i].0) && IndexOf(vals, vals[i].0) == i
  {
    var j := IndexOf(vals, vals[i].0);
    if i < j {
      assert SameKey(vals, i, j);
    } else if j < i {
      assert SameKey(vals, j, i);
    }
  }

  /** The vector after the entry at `at` is overwritten by the last one, which is then dropped. */
  function SwapRemoved<T>(vals: seq<T>, at: nat): (r: seq<T>)
    requires at < |vals|
    ensures |r| == |vals| - 1
    ensures forall i :: 0 <= i < |r| ==> r[i] == vals[if i == at then |r| else i]
  {
    var last := |vals| - 1;
    if at == last then vals[..last] else vals[..last][at := vals[last]]
  }

  lemma AppendedMap<K, V>(vals: seq<(K, V)>, key: K, value: V)
    requires DistinctKeys(vals) && !HasKey(vals, key)
    ensures DistinctKeys(vals + [(key, value)])
    ensures AsMap(vals + [(key, value)]) == AsMap(vals)[key := value]
  {
    var r := vals + [(key, value)];
    assert r[..|vals|] == vals;
    forall i: nat, j: nat | i < j < |r| ensures !SameKey(r, i, j) {
      if j < |vals| { assert !SameKey(vals, i, j); }
    }
  }

  lemma AssignedMap<K, V>(vals: seq<(K, V)>, at: nat, value: V)
    requires DistinctKeys(vals) && at < |vals|
    ensures DistinctKeys(vals[at := (vals[at].0, value)])
    ensures AsMap(vals[at := (vals[at].0, value)]) == AsMap(vals)[vals[at].0 := value]
  {
    var r := vals[at := (vals[at].0, value)];
    var m := AsMap(vals)[vals[at].0 := value];
    forall i: nat, j: nat | i < j < |r| ensures !SameKey(r, i, j) {
      assert !SameKey(vals, i, j);
    }
    forall i | 0 <= i < |r| ensures r[i].0 in m && m[r[i].0] == r[i].1 {
      MapAt(vals, i);
      assert i != at ==> !SameKey(vals, if i < at then i else at, if i < at then at else i);
    }
    forall k | k in m ensures HasKey(r, k) {
      MapHas(vals, k);
      MapAt(vals, at);
      var i :| 0 <= i < |vals| && vals[i].0 == k;
      assert r[i].0 == k;
    }
    MapIs(r, m);
  }

  lemma SwapRemovedDistinct<K, V>(vals: seq<(K, V)>, at: nat)
    requires DistinctKeys(vals) && at < |vals|
    ensures DistinctKeys(SwapRemoved(vals, at))
    ensures forall i :: 0 <= i < |vals| - 1 ==> SwapRemoved(vals, at)[i].0 != vals[at].0
  {
    var r := SwapRemoved(vals, at);
    forall i: nat, j: nat | i < j < |r| ensures !SameKey(r, i, j) {
      assert !SameKey(vals, i, j) && !SameKey(vals, i, |r|) && !SameKey(vals, j, |r|);
    }
    forall i | 0 <= i < |r| ensures r[i].0 != vals[at].0 {
      var k := if i == at then |r| else i;
      assert !SameKey(vals, if k < at then k else at, if k < at then at else k);
    }
  }

  lemma SwapRemovedMap<K, V>(vals: seq<(K, V)>, at: nat)
    requires DistinctKeys(vals) && at < |vals|
    ensures DistinctKeys(SwapRemoved(vals, at))
    ensures AsMap(SwapRemoved(vals, at)) == AsMap(vals) - {vals[at].0}
  {
    var r := SwapRemoved(vals, at);
    var m := AsMap(vals) - {vals[at].0};
    SwapRemovedDistinct(vals, at);
    forall i | 0 <= i < |r| ensures r[i].0 in m && m[r[i].0] == r[i].1 {
      MapAt(vals, if i == at then |r| else i);
    }
    forall k | k in m ensures HasKey(r, k) {
      MapHas(vals, k);
      var i :| 0 <= i < |vals| && vals[i].0 == k;
      assert r[if i == |r| then at else i].0 == k;
    }
    MapIs(r, m);
  }

  /** Dropping an entry whose key occurs earlier loses no key. */
  lemma DuplicateRemoved<K, V>(vals: seq<(K, V)>, at: nat, first: nat)
    requires first < at < |vals| && vals[first].0 == vals[at].0
    ensures KeySet(SwapRemoved(vals, at)) == KeySet(vals)
  {
    var r := SwapRemoved(vals, at);
    forall i | 0 <= i < |vals| ensures vals[i].0 in KeySet(r) {
      assert r[if i == at then first else if i == |r| then at else i].0 == vals[i].0;
    }
  }

  /** Entry `i` after slots first..idx have been refilled from the back. */
  function FilledAt<T>(vals: seq<T>, first: nat, idx: nat, i: nat): T
    requires first <= idx <= |vals| && i < |vals|
  {
    if first <= i < idx then vals[|vals| - 1 - (i - first)] else vals[i]
  }

  ghost predicate HoleFilled<T>(vals: seq<T>, first: nat, idx: nat, r: seq<T>) {
    && first <= idx <= |vals| && |r| == |vals| - (idx - first)
    && forall i :: 0 <= i < |r| ==> r[i] == FilledAt(vals, first, idx, i)
  }

  lemma NoHole<T>(vals: seq<T>, first: nat)
    requires first <= |vals|
    ensures HoleFilled(vals, first, first, vals)
  {
  }

  lemma HoleRoom<T>(vals: seq<T>, first: nat, idx: nat, r: seq<T>)
    requires HoleFilled(vals, first, idx, r)
    ensures first <= idx <= |vals| && |r| == |vals| - (idx - first)
  {
  }

  /** Erasing at the hole's edge fills it one further. */
  lemma HoleGrows<T>(vals: seq<T>, first: nat, idx: nat, r: seq<T>)
    requires HoleFilled(vals, first, idx, r) && idx < |r|
    ensures r[idx] == vals[idx] && HoleFilled(vals, first, idx + 1, SwapRemoved(r, idx))
  {
  }

  function Reversed<T>(s: seq<T>): (r: seq<T>)
    ensures |r| == |s|
  {
    seq(|s|, i requires 0 <= i < |s| => s[|s| - 1 - i])
  }

  lemma ReversedNothing<T>(s: seq<T>)
    ensures Reversed(s[|s|..]) == []
  {
  }

  lemma ReversedGrows<T>(s: seq<T>, at: nat)
    requires at < |s|
    ensures Reversed(s[at..]) == Reversed(s[at + 1..]) + [s[at]]
  {
    assert s[at..][1..] == s[at + 1..];
  }

  lemma SamePrefix<T>(a: seq<T>, b: seq<T>, at: nat)
    requires at < |a| && at < |b| && a[..at + 1] == b[..at + 1]
    ensures a[at] == b[at]
  {
    assert a[..at + 1][at] == b[..at + 1][at];
  }

  lemma {:induction false} ReversedMultiset<T>(s: seq<T>)
    ensures multiset(Reversed(s)) == multiset(s)
  {
    if |s| > 0 {
      var last := |s| - 1;
      ReversedMultiset(s[..last]);
      assert s == s[..last] + [s[last]];
      assert Reversed(s) == [s[last]] + Reversed(s[..last]);
    } else {
      assert Reversed(s) == s;
    }
  }

  /** What erasing first..last leaves: what precedes the range, the back entries in reverse as far as
      they are needed to fill the gap, and the rest of what follows the range. */
  function RangeErased<T>(vals: seq<T>, first: nat, last: nat): (r: seq<T>)
    requires first <= last <= |vals|
    ensures |r| == |vals| - (last - first)
  {
    var n := |vals|;
    var k := if last - first <= n - last then last - first else n - last;
    vals[..first] + (Reversed(vals[n - k..]) + vals[last..n - k])
  }

  lemma PiecesMultiset<T>(a: seq<T>, b: seq<T>, c: seq<T>, d: seq<T>)
    requires d == c + b
    ensures multiset(a + (Reversed(b) + c)) == multiset(a + d)
  {
    ReversedMultiset(b);
  }

  /** Nothing but the range is lost and nothing is duplicated. */
  lemma RangeErasedExact<T>(vals: seq<T>, first: nat, last: nat)
    requires first <= last <= |vals|
    ensures multiset(RangeErased(vals, first, last)) == multiset(vals[..first] + vals[last..])
  {
    var n := |vals|;
    var k := if last - first <= n - last then last - first else n - last;
    var a, b, c := vals[..first], vals[n - k..], vals[last..n - k];
    assert RangeErased(vals, first, last) == a + (Reversed(b) + c);
    assert vals[last..] == c + b;
    PiecesMultiset(a, b, c, vals[last..]);
  }

  /** Refilling the hole and dropping what is left of the range gives RangeErased. */
  lemma FilledAndCut<T>(vals: seq<T>, first: nat, mid: nat, last: nat, r: seq<T>)
    requires first <= mid <= last <= |vals| && HoleFilled(vals, first, mid, r)
    requires mid - first == if last - first <= |vals| - last then last - first else |vals| - last
    ensures r[..|r| - (last - mid)] == RangeErased(vals, first, last)
  {
    var e := RangeErased(vals, first, last);
    assert forall i :: 0 <= i < |e| ==> e[i] == FilledAt(vals, first, mid, i);
  }

  /** A range of keys split in two. */
  lemma RangeGrows<K, V>(vals: seq<(K, V)>, a: nat, b: nat, c: nat)
    requires a <= b <= c <= |vals|
    ensures KeySet(vals[a..c]) == KeySet(vals[a..b]) + KeySet(vals[b..c])
  {
    assert vals[a..c] == vals[a..b] + vals[b..c];
    KeySetConcat(vals[a..b], vals[b..c]);
  }

  lemma KeySetConcat<K, V>(a: seq<(K, V)>, b: seq<(K, V)>)
    ensures KeySet(a + b) == KeySet(a) + KeySet(b)
  {
    forall i | 0 <= i < |a| ensures a[i].0 in KeySet(a + b) { assert (a + b)[i] == a[i]; }
    forall i | 0 <= i < |b| ensures b[i].0 in KeySet(a + b) { assert (a + b)[|a| + i] == b[i]; }
  }

  /** Taking one more key out of a map. */
  lemma MinusOne<K, V>(m: map<K, V>, keys: set<K>, key: K)
    ensures m - keys - {key} == m - (keys + {key})
  {
  }

  lemma RangeGrowsBy<K, V>(vals: seq<(K, V)>, a: nat, b: nat)
    requires a <= b < |vals|
    ensures KeySet(vals[a..b + 1]) == KeySet(vals[a..b]) + {vals[b].0}
  {
    assert vals[a..b + 1] == vals[a..b] + [vals[b]];
    KeySetConcat(vals[a..b], [vals[b]]);
  }

  lemma RangeGrowsLeftBy<K, V>(vals: seq<(K, V)>, a: nat, b: nat)
    requires a < b <= |vals|
    ensures KeySet(vals[a..b]) == KeySet(vals[a + 1..b]) + {vals[a].0}
  {
    assert vals[a..b] == [vals[a]] + vals[a + 1..b];
    KeySetConcat([vals[a]], vals[a + 1..b]);
  }

  /** The entries of a map that fail a predicate. */
  ghost function Kept<K, V>(m: map<K, V>, pred: (K, V) -> bool): map<K, V> {
    map k | k in m && !pred(k, m[k]) :: m[k]
  }

  /** The keys from index `idx` on that meet a predicate. */
  ghost function Meeting<K, V>(vals: seq<(K, V)>, idx: nat, pred: (K, V) -> bool): set<K> {
    set i | idx <= i < |vals| && pred(vals[i].0, vals[i].1) :: vals[i].0
  }

  lemma MeetingGrows<K, V>(vals: seq<(K, V)>, idx: nat, pred: (K, V) -> bool)
    requires idx < |vals|
    ensures Meeting(vals, idx, pred) == Meeting(vals, idx + 1, pred)
                                        + (if pred(vals[idx].0, vals[idx].1) then {vals[idx].0} else {})
  {
  }

  lemma NoneMeeting<K, V>(vals: seq<(K, V)>, pred: (K, V) -> bool)
    ensures AsMap(vals) - Meeting(vals, |vals|, pred) == AsMap(vals)
  {
    assert Meeting(vals, |vals|, pred) == {};
  }

  lemma MeetingKept<K, V>(vals: seq<(K, V)>, pred: (K, V) -> bool)
    requires DistinctKeys(vals)
    ensures AsMap(vals) - Meeting(vals, 0, pred) == Kept(AsMap(vals), pred)
  {
    var m := AsMap(vals);
    forall k | k in m ensures k in Meeting(vals, 0, pred) <==> pred(k, m[k]) {
      MapHas(vals, k);
      var i :| 0 <= i < |vals| && vals[i].0 == k;
      MapAt(vals, i);
      if k in Meeting(vals, 0, pred) {
        var j :| 0 <= j < |vals| && pred(vals[j].0, vals[j].1) && vals[j].0 == k;
        MapAt(vals, j);
      }
    }
  }

  /** The vector after a key is erased. */
  ghost function Without<K, V>(vals: seq<(K, V)>, key: K): seq<(K, V)> {
    if HasKey(vals, key) then SwapRemoved(vals, IndexOf(vals, key)) else vals
  }

  /** The vector after a key is assigned. */
  ghost function Assigned<K, V>(vals: seq<(K, V)>, key: K, value: V): seq<(K, V)> {
    if HasKey(vals, key) then vals[IndexOf(vals, key) := (key, value)] else vals + [(key, value)]
  }

  /** What erasing from the back the entries below `idx` that meet a predicate leaves. */
  ghost function ErasedIf<K, V>(vals: seq<(K, V)>, idx: nat, pred: (K, V) -> bool): seq<(K, V)>
    requires idx <= |vals|
    decreases idx
  {
    if idx == 0 then vals
    else
      var at := idx - 1;
      ErasedIf(if pred(vals[at].0, vals[at].1) then SwapRemoved(vals, at) else vals, at, pred)
  }

  lemma NoneLeft<K, V>(vals: seq<(K, V)>, pred: (K, V) -> bool)
    ensures ErasedIf(vals, 0, pred) == vals
  {
  }

  /** What replace leaves of a container whose entries below `idx` have distinct keys. */
  ghost function Deduped<K, V>(vals: seq<(K, V)>, idx: nat): (r: seq<(K, V)>)
    requires idx <= |vals|
    decreases |vals| - idx
  {
    if idx == |vals| then vals
    else if HasKey(vals[..idx], vals[idx].0) then Deduped(SwapRemoved(vals, idx), idx)
    else Deduped(vals, idx + 1)
  }

  lemma SwapRemovedMultiset<T>(vals: seq<T>, at: nat)
    requires at < |vals|
    ensures multiset(SwapRemoved(vals, at)) == multiset(vals) - multiset{vals[at]}
  {
    var last := |vals| - 1;
    assert vals == vals[..last] + [vals[last]];
  }

  /** Dropping a duplicate is one step of Deduped, and loses neither a key nor an entry before it. */
  lemma DuplicateDropped<K, V>(vals: seq<(K, V)>, at: nat, first: nat)
    requires first < at < |vals| && vals[first].0 == vals[at].0
    ensures var r := SwapRemoved(vals, at);
            && Deduped(r, at) == Deduped(vals, at) && r[..at] == vals[..at]
            && KeySet(r) == KeySet(vals) && multiset(r) <= multiset(vals)
  {
    assert vals[..at][first].0 == vals[at].0;
    DuplicateRemoved(vals, at, first);
    SwapRemovedMultiset(vals, at);
  }

  /** Distinct keys: as many bindings as entries. */
  lemma {:induction false} MapSize<K, V>(vals: seq<(K, V)>)
    requires DistinctKeys(vals)
    ensures |AsMap(vals)| == |vals|
  {
    if |vals| > 0 {
      var last := |vals| - 1;
      PrefixDistinct(vals, last);
      MapSize(vals[..last]);
      MapHas(vals[..last], vals[last].0);
      if HasKey(vals[..last], vals[last].0) {
        var i :| 0 <= i < last && vals[..last][i].0 == vals[last].0;
        assert SameKey(vals, i, last);
      }
      var m := AsMap(vals[..last]);
      assert AsMap(vals).Keys == m.Keys + {vals[last].0};
      assert |AsMap(vals)| == |AsMap(vals).Keys| && |m| == |m.Keys|;
    }
  }

  /** Distinct entries are no more than there are keys. */
  lemma DistinctCount<K, V>(vals: seq<(K, V)>, n: nat)
    requires n <= |vals| && DistinctKeys(vals[..n])
    ensures n <= |KeySet(vals)|
  {
    var m := AsMap(vals[..n]);
    MapSize(vals[..n]);
    MapKeys(vals[..n]);
    KeySetConcat(vals[..n], vals[n..]);
    assert vals[..n] + vals[n..] == vals;
    var more := KeySet(vals) - KeySet(vals[..n]);
    assert KeySet(vals) == KeySet(vals[..n]) + more;
    assert |m| == |m.Keys|;
  }

  /** A map that has all of a vector's bindings and no more of them is the vector's map. */
  lemma SameSizeSubmap<K, V>(vals: seq<(K, V)>, m: map<K, V>)
    requires DistinctKeys(vals) && |m| == |vals|
    requires forall i :: 0 <= i < |vals| ==> vals[i].0 in m && m[vals[i].0] == vals[i].1
    ensures AsMap(vals) == m
  {
    MapSize(vals);
    MapKeys(vals);
    var n := AsMap(vals);
    assert n.Keys <= m.Keys;
    assert m.Keys == n.Keys + (m.Keys - n.Keys);
    assert |m| == |m.Keys| && |n| == |n.Keys|;
    assert m.Keys == n.Keys;
    forall k | k in m ensures HasKey(vals, k) {
      MapHas(vals, k);
    }
    MapIs(vals, m);
  }
}
