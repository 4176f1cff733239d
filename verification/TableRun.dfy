/** Whole runs of table operations, against a plain map and against a plain vector, and table equality. */
module TableRun {
  import opened Arithmetic
  import opened Entries
  import opened Sizing
  import opened Table

  datatype Op<!K, !V> =
    | Emplace(key: K, value: V)
    | TryEmplace(key: K, value: V)
    | InsertOrAssign(key: K, value: V)
    | Erase(key: K)
    | FindAndErase(key: K)
    | EraseIf(pred: (K, V) -> bool)
    | Lookup(key: K)
    | Clear
    | Rehash(count: nat)
    | Reserve(count: nat)
    | EraseRange(first: nat, last: nat)
    | Replace(container: seq<(K, V)>)

  datatype Outcome<V> =
    | Inserted(yes: bool)
    | Erased(count: int)
    | Value(result: Result<V>)
    | Done

  predicate Insertion<K, V>(op: Op<K, V>) {
    op.Emplace? || op.TryEmplace? || op.InsertOrAssign?
  }

  predicate Erasure<K, V>(op: Op<K, V>) {
    op.Erase? || op.FindAndErase? || op.EraseIf?
  }

  /** Operations whose effect on the map does not depend on the order of the entries. */
  predicate Plain<K, V>(op: Op<K, V>) {
    !op.EraseRange? && !op.Replace?
  }

  // ---------------------------------------------------------------- a plain map

  /** What a plain map does. */
  ghost function Apply<K, V>(m: map<K, V>, op: Op<K, V>): (map<K, V>, Outcome<V>)
    requires Plain(op)
  {
    match op
    case Emplace(k, v) => (if k in m then m else m[k := v], Inserted(k !in m))
    case TryEmplace(k, v) => (if k in m then m else m[k := v], Inserted(k !in m))
    case InsertOrAssign(k, v) => (m[k := v], Inserted(k !in m))
    case Erase(k) => (m - {k}, Erased(if k in m then 1 else 0))
    case FindAndErase(k) => (m - {k}, Erased(if k in m then 1 else 0))
    case EraseIf(pred) => (Kept(m, pred), Erased(|m| - |Kept(m, pred)|))
    case Lookup(k) => (m, Value(if k in m then Found(m[k]) else KeyNotFound))
    case Clear => (map[], Done)
    case Rehash(_) => (m, Done)
    case Reserve(_) => (m, Done)
  }

  /** The final map and all outcomes of a run. */
  ghost function ApplyAll<K, V>(m: map<K, V>, ops: seq<Op<K, V>>): (r: (map<K, V>, seq<Outcome<V>>))
    requires forall i :: 0 <= i < |ops| ==> Plain(ops[i])
    ensures |r.1| == |ops|
  {
    if |ops| == 0 then (m, [])
    else
      var last := |ops| - 1;
      var (m1, outs) := ApplyAll(m, ops[..last]);
      var (m2, out) := Apply(m1, ops[last]);
      (m2, outs + [out])
  }

  /** New keys only while there is room for them, and no bucket array beyond the largest. */
  ghost predicate Allowed<K, V>(m: map<K, V>, op: Op<K, V>) {
    && (Insertion(op) ==> op.key in m || |m| < MAX_KEYS)
    && (op.Rehash? || op.Reserve? ==> op.count <= MAX_RESERVE)
  }

  /** The same at every step of a run. */
  ghost predicate AllAllowed<K, V>(m: map<K, V>, ops: seq<Op<K, V>>) {
    && (forall i :: 0 <= i < |ops| ==> Plain(ops[i]))
    && forall i :: 0 <= i < |ops| ==> Allowed(ApplyAll(m, ops[..i]).0, ops[i])
  }

  // ---------------------------------------------------------------- a plain vector

  /** What happens to the entries, in their order. */
  ghost function Step<K, V>(vals: seq<(K, V)>, op: Op<K, V>): (seq<(K, V)>, Outcome<V>) {
    match op
    case Emplace(k, v) => (if HasKey(vals, k) then vals else vals + [(k, v)], Inserted(!HasKey(vals, k)))
    case TryEmplace(k, v) => (if HasKey(vals, k) then vals else vals + [(k, v)], Inserted(!HasKey(vals, k)))
    case InsertOrAssign(k, v) => (Assigned(vals, k, v), Inserted(!HasKey(vals, k)))
    case Erase(k) => (Without(vals, k), Erased(|vals| - |Without(vals, k)|))
    case FindAndErase(k) => (Without(vals, k), Erased(|vals| - |Without(vals, k)|))
    case EraseIf(pred) => (ErasedIf(vals, |vals|, pred), Erased(|vals| - |ErasedIf(vals, |vals|, pred)|))
    case Lookup(k) => (vals, Value(if HasKey(vals, k) then Found(vals[IndexOf(vals, k)].1) else KeyNotFound))
    case Clear => ([], Done)
    case Rehash(_) => (vals, Done)
    case Reserve(_) => (vals, Done)
    case EraseRange(first, last) => (if first <= last <= |vals| then RangeErased(vals, first, last) else vals, Done)
    case Replace(container) => (Deduped(container, 0), Done)
  }

  ghost function StepAll<K, V>(vals: seq<(K, V)>, ops: seq<Op<K, V>>): (r: (seq<(K, V)>, seq<Outcome<V>>))
    ensures |r.1| == |ops|
  {
    if |ops| == 0 then (vals, [])
    else
      var last := |ops| - 1;
      var (v1, outs) := StepAll(vals, ops[..last]);
      var (v2, out) := Step(v1, ops[last]);
      (v2, outs + [out])
  }

  ghost predicate AllowedOn<K, V>(vals: seq<(K, V)>, op: Op<K, V>) {
    && (Insertion(op) ==> HasKey(vals, op.key) || |vals| < MAX_KEYS)
    && (op.Rehash? || op.Reserve? ==> op.count <= MAX_RESERVE)
    && (op.EraseRange? ==> op.first <= op.last <= |vals|)
    && (op.Replace? ==> |op.container| <= MAX_RESERVE && |KeySet(op.container)| <= MAX_KEYS)
  }

  ghost predicate AllAllowedOn<K, V>(vals: seq<(K, V)>, ops: seq<Op<K, V>>) {
    forall i :: 0 <= i < |ops| ==> AllowedOn(StepAll(vals, ops[..i]).0, ops[i])
  }

  /** The two notions of room are one. */
  lemma SameRoom<K, V>(vals: seq<(K, V)>, op: Op<K, V>)
    requires DistinctKeys(vals) && Plain(op)
    ensures AllowedOn(vals, op) <==> Allowed(AsMap(vals), op)
  {
    MapSize(vals);
    if Insertion(op) { MapHas(vals, op.key); }
  }

  // ---------------------------------------------------------------- one operation

  /** Erasing through the iterator that find returns. */
  method FindThenErase<K(==), V>(t: Table<K, V>, key: K) returns (count: nat)
    requires t.Valid()
    modifies t, t.buckets
    ensures t.Valid() && t.buckets == old(t.buckets) && t.values == Without(old(t.values), key)
    ensures t.Contents() == old(t.Contents()) - {key}
    ensures count == if key in old(t.Contents()) then 1 else 0
  {
    var it := t.Find(key);
    MapHas(t.values, key);
    if it == |t.values| { return 0; }
    OneIndex(t.values, it);
    var _ := t.EraseAt(it);
    return 1;
  }

  method PerformInsertion<K(==), V>(t: Table<K, V>, op: Op<K, V>) returns (out: Outcome<V>)
    requires t.Valid() && Insertion(op) && AllowedOn(t.values, op)
    modifies t, t.buckets
    ensures t.Valid() && (t.buckets == old(t.buckets) || fresh(t.buckets))
    ensures (t.values, out) == Step(old(t.values), op)
    ensures (t.Contents(), out) == Apply(old(t.Contents()), op)
  {
    MapHas(t.values, op.key);
    hide Assigned, AsMap, HasKey, DistinctKeys;
    var inserted;
    match op {
      case Emplace(k, v) => { var it; it, inserted := t.Emplace(k, v); }
      case TryEmplace(k, v) => { var it; it, inserted := t.TryEmplace(k, v); }
      case InsertOrAssign(k, v) => { var it; it, inserted := t.InsertOrAssign(k, v); }
    }
    out := Inserted(inserted);
  }

  lemma WithoutCount<K, V>(vals: seq<(K, V)>, key: K)
    ensures |vals| - |Without(vals, key)| == if key in AsMap(vals) then 1 else 0
  {
    MapHas(vals, key);
  }

  method PerformErase<K(==), V>(t: Table<K, V>, key: K, find: bool) returns (out: Outcome<V>)
    requires t.Valid()
    modifies t, t.buckets
    ensures t.Valid() && t.buckets == old(t.buckets)
    ensures t.values == Without(old(t.values), key) && out == Erased(|old(t.values)| - |t.values|)
    ensures t.Contents() == old(t.Contents()) - {key} && out == Erased(if key in old(t.Contents()) then 1 else 0)
  {
    WithoutCount(t.values, key);
    assert t.Contents() == AsMap(t.values);
    hide AsMap, Without, Table.Valid, Table.Contents;
    var count;
    if find {
      count := FindThenErase(t, key);
    } else {
      count := t.EraseKey(key);
    }
    out := Erased(count);
  }

  method PerformEraseIf<K(==), V>(t: Table<K, V>, pred: (K, V) -> bool) returns (out: Outcome<V>)
    requires t.Valid()
    modifies t, t.buckets
    ensures t.Valid() && t.buckets == old(t.buckets)
    ensures (t.values, out) == Step(old(t.values), EraseIf(pred))
    ensures (t.Contents(), out) == Apply(old(t.Contents()), EraseIf(pred))
  {
    hide AsMap, Kept, ErasedIf;
    MapSize(t.values);
    var count, _ := t.EraseIf(pred);
    MapSize(t.values);
    out := Erased(count);
  }

  method PerformErasure<K(==), V>(t: Table<K, V>, op: Op<K, V>) returns (out: Outcome<V>)
    requires t.Valid() && Erasure(op)
    modifies t, t.buckets
    ensures t.Valid() && t.buckets == old(t.buckets)
    ensures (t.values, out) == Step(old(t.values), op)
    ensures (t.Contents(), out) == Apply(old(t.Contents()), op)
  {
    hide Kept, Without, ErasedIf, Table.Valid, Table.Contents;
    if op.EraseIf? {
      out := PerformEraseIf(t, op.pred);
    } else {
      out := PerformErase(t, op.key, op.FindAndErase?);
    }
  }

  method PerformLookup<K(==), V>(t: Table<K, V>, key: K) returns (out: Outcome<V>)
    requires t.Valid()
    ensures (t.values, out) == Step(t.values, Lookup(key))
    ensures (t.Contents(), out) == Apply(t.Contents(), Lookup(key))
  {
    var r := t.At(key);
    MapHas(t.values, key);
    if HasKey(t.values, key) {
      MapAt(t.values, IndexOf(t.values, key));
    }
    out := Value(r);
  }

  method PerformSizing<K(==), V>(t: Table<K, V>, op: Op<K, V>)
    requires t.Valid() && (op.Clear? || op.Rehash? || op.Reserve?) && AllowedOn(t.values, op)
    modifies t, t.buckets
    ensures t.Valid() && (t.buckets == old(t.buckets) || fresh(t.buckets))
    ensures (t.values, Done) == Step(old(t.values), op)
    ensures (t.Contents(), Done) == Apply(old(t.Contents()), op)
  {
    hide AsMap, DistinctKeys;
    match op {
      case Clear => { t.Clear(); }
      case Rehash(n) => { t.Rehash(n); }
      case Reserve(n) => { t.Reserve(n); }
    }
  }

  /** One operation, performed on the table. */
  method Perform<K(==), V>(t: Table<K, V>, op: Op<K, V>) returns (out: Outcome<V>)
    requires t.Valid() && AllowedOn(t.values, op)
    modifies t, t.buckets
    ensures t.Valid() && (t.buckets == old(t.buckets) || fresh(t.buckets))
    ensures (t.values, out) == Step(old(t.values), op)
    ensures Plain(op) ==> (t.Contents(), out) == Apply(old(t.Contents()), op)
  {
    hide Step, Apply, Table.Contents;
    if Insertion(op) {
      out := PerformInsertion(t, op);
    } else if Erasure(op) {
      out := PerformErasure(t, op);
    } else if op.Lookup? {
      out := PerformLookup(t, op.key);
    } else if Plain(op) {
      PerformSizing(t, op);
      out := Done;
    } else {
      PerformBulk(t, op);
      out := Done;
    }
  }

  method PerformBulk<K(==), V>(t: Table<K, V>, op: Op<K, V>)
    requires t.Valid() && !Plain(op) && AllowedOn(t.values, op)
    modifies t, t.buckets
    ensures t.Valid() && (t.buckets == old(t.buckets) || fresh(t.buckets))
    ensures (t.values, Done) == Step(old(t.values), op)
  {
    hide AsMap, DistinctKeys, RangeErased, Deduped;
    match op {
      case EraseRange(first, last) => { var _ := t.EraseRange(first, last); }
      case Replace(container) => { t.Replace(container); }
    }
  }

  // ---------------------------------------------------------------- whole runs

  /** Every run on a table answers as the same run on a plain map, and ends in the same bindings. */
  method PerformAll<K(==), V>(t: Table<K, V>, ops: seq<Op<K, V>>) returns (outs: seq<Outcome<V>>)
    requires t.Valid() && AllAllowed(t.Contents(), ops)
    modifies t, t.buckets
    ensures t.Valid() && (t.buckets == old(t.buckets) || fresh(t.buckets))
    ensures (t.Contents(), outs) == ApplyAll(old(t.Contents()), ops)
  {
    hide Apply, Step, AllowedOn, Allowed;
    outs := [];
    for n := 0 to |ops|
      invariant t.Valid() && (t.buckets == old(t.buckets) || fresh(t.buckets))
      invariant (t.Contents(), outs) == ApplyAll(old(t.Contents()), ops[..n])
    {
      assert ops[..n + 1][..n] == ops[..n];
      SameRoom(t.values, ops[n]);
      var out := Perform(t, ops[n]);
      outs := outs + [out];
    }
    assert ops[..|ops|] == ops;
  }

  /** Every run, range erasure and replacement included, does to the entries what the same run does to a plain
      vector. */
  method PerformOnEntries<K(==), V>(t: Table<K, V>, ops: seq<Op<K, V>>) returns (outs: seq<Outcome<V>>)
    requires t.Valid() && AllAllowedOn(t.values, ops)
    modifies t, t.buckets
    ensures t.Valid() && (t.buckets == old(t.buckets) || fresh(t.buckets))
    ensures (t.values, outs) == StepAll(old(t.values), ops)
  {
    hide Step, AllowedOn;
    outs := [];
    for n := 0 to |ops|
      invariant t.Valid() && (t.buckets == old(t.buckets) || fresh(t.buckets))
      invariant (t.values, outs) == StepAll(old(t.values), ops[..n])
    {
      assert ops[..n + 1][..n] == ops[..n];
      var out := Perform(t, ops[n]);
      outs := outs + [out];
    }
    assert ops[..|ops|] == ops;
  }

  /** A fresh table behaves, over every run, as an empty plain map. */
  method RunFromEmpty<K(==), V>(hash: K -> U64, ops: seq<Op<K, V>>) returns (t: Table<K, V>, outs: seq<Outcome<V>>)
    requires AllAllowed(map[], ops)
    ensures fresh(t) && fresh(t.buckets) && t.Valid()
    ensures (t.Contents(), outs) == ApplyAll(map[], ops)
  {
    t := new Table(hash);
    outs := PerformAll(t, ops);
  }

  /** operator==: sizes first, then every entry of `b` looked up in `a`; true exactly for equal maps. */
  method Equal<K(==), V(==)>(a: Table<K, V>, b: Table<K, V>) returns (r: bool)
    requires a.Valid() && b.Valid()
    ensures r <==> a.Contents() == b.Contents()
  {
    if a == b {
      return true;
    }
    MapSize(a.values);
    MapSize(b.values);
    if |a.values| != |b.values| {
      return false;
    }
    for i := 0 to |b.values|
      invariant forall n :: 0 <= n < i ==>
                  b.values[n].0 in a.Contents() && a.Contents()[b.values[n].0] == b.values[n].1
    {
      MapAt(b.values, i);
      var it := a.Find(b.values[i].0);
      if it == |a.values| || b.values[i].1 != a.values[it].1 {
        return false;
      }
    }
    SameSizeSubmap(b.values, a.Contents());
    r := true;
  }
}
