/** The memory backend: an insertion-ordered dict with a running size and optional limits. */
module MemoryStore {
  import opened Basics
  import opened Rows
  import opened Operations

  datatype Limits = Limits(maxObjects: Option<int>, maxSize: Option<int>) {
    predicate NonNegative() {
      (maxObjects.Some? ==> maxObjects.value >= 0) && (maxSize.Some? ==> maxSize.value >= 0)
    }

    /** The store is within the limits. */
    predicate Hold(rows: seq<Row>) {
      (maxObjects.Some? ==> |rows| <= maxObjects.value) && (maxSize.Some? ==> Total(rows) <= maxSize.value)
    }
  }

  const UNLIMITED := Limits(None, None)

  /** The bytes of all values. */
  function Total(rows: seq<Row>): nat {
    if rows == [] then 0 else |rows[0].data| + Total(rows[1..])
  }

  function StoredSize(rows: seq<Row>, key: string): nat {
    if Find(rows, key).Some? then |Find(rows, key).value| else 0
  }

  /** What _check_limits lets through, `size` being the running total. */
  predicate Admits(limits: Limits, rows: seq<Row>, size: int, key: string, newSize: nat) {
    (limits.maxObjects.Some? && Find(rows, key).None? ==> |rows| + 1 <= limits.maxObjects.value) &&
    (limits.maxSize.Some? ==> size - (if key != "" then StoredSize(rows, key) else 0) + newSize <= limits.maxSize.value)
  }

  /** One operation under the lock, on the items alone. */
  function Apply(limits: Limits, rows: seq<Row>, op: Op): (seq<Row>, Answer) {
    match op
    case Put(key, data) =>
      if Admits(limits, rows, Total(rows), key, |data|) then (Assign(rows, key, data), Stored) else (rows, Refused)
    case Get(key) =>
      (rows, if Find(rows, key).Some? then Value(Find(rows, key).value) else Missing)
    case Delete(key) =>
      if Find(rows, key).Some? then (Remove(rows, key), Deleted) else (rows, Missing)
    case Exists(key) => (rows, Present(Find(rows, key).Some?))
    case Scan(prefix) => (rows, Keys(KeysWithPrefix(rows, prefix)))
  }

  class MemoryBlob {
    const limits: Limits
    var data: seq<Row>
    var size: int

    ghost predicate Valid()
      reads this
    {
      Unique(data) && size == Total(data)
    }

    constructor (limits: Limits)
      ensures Valid() && this.limits == limits && data == []
    {
      this.limits := limits;
      data, size := [], 0;
    }

    /** False stands for the BlobError of _check_limits; None for a check without a key. */
    method CheckLimits(newKey: Option<string>, newSize: nat) returns (ok: bool)
      ensures newKey.Some? ==> ok == Admits(limits, data, size, newKey.value, newSize)
      ensures newKey.None? ==>
        ok == ((limits.maxObjects.Some? ==> |data| + 1 <= limits.maxObjects.value) &&
               (limits.maxSize.Some? ==> size + newSize <= limits.maxSize.value))
    {
      if limits.maxObjects.Some? {
        var isNew := newKey.None? || Find(data, newKey.value).None?;
        if isNew && |data| + 1 > limits.maxObjects.value { return false; }
      }
      if limits.maxSize.Some? {
        var oldSize := if newKey.Some? && newKey.value != "" then StoredSize(data, newKey.value) else 0;
        if size - oldSize + newSize > limits.maxSize.value { return false; }
      }
      return true;
    }

    method Put(key: string, value: bytes) returns (a: Answer)
      requires Valid()
      modifies this
      ensures Valid() && (data, a) == Apply(limits, old(data), Op.Put(key, value))
    {
      var previous := Find(data, key);
      var ok := CheckLimits(Some(key), |value|);
      if !ok { return Refused; }
      AssignTotal(data, key, value);
      AssignIsUpdate(data, key, value);
      size := size + (if previous.None? then |value| else |value| - |previous.value|);
      data := Assign(data, key, value);
      return Stored;
    }

    method Get(key: string) returns (a: Answer)
      requires Valid()
      ensures (data, a) == Apply(limits, data, Op.Get(key))
    {
      var found := Find(data, key);
      a := if found.Some? then Value(found.value) else Missing;
    }

    method Delete(key: string) returns (a: Answer)
      requires Valid()
      modifies this
      ensures Valid() && (data, a) == Apply(limits, old(data), Op.Delete(key))
    {
      var found := Find(data, key);
      if found.None? { return Missing; }
      RemoveTotal(data, key);
      RemoveIsRemoval(data, key);
      data := Remove(data, key);
      size := size - |found.value|;
      return Deleted;
    }

    method Exists(key: string) returns (a: Answer)
      requires Valid()
      ensures (data, a) == Apply(limits, data, Op.Exists(key))
    {
      a := Present(Find(data, key).Some?);
    }

    /** The list that the generator of scan makes under the lock before it yields. */
    method Scan(prefix: string) returns (a: Answer)
      requires Valid()
      ensures (data, a) == Apply(limits, data, Op.Scan(prefix))
    {
      var keys := [];
      for i := 0 to |data|
        invariant keys + KeysWithPrefix(data[i..], prefix) == KeysWithPrefix(data, prefix)
      {
        assert data[i..][0] == data[i] && data[i..][1..] == data[i + 1..];
        if StartsWith(data[i].key, prefix) { keys := keys + [data[i].key]; }
      }
      assert keys + KeysWithPrefix(data[|data|..], prefix) == keys;
      a := Keys(keys);
    }
  }

  // ---- size accounting

  lemma {:induction false} AssignTotal(rows: seq<Row>, key: string, data: bytes)
    ensures Total(Assign(rows, key, data)) == Total(rows) - StoredSize(rows, key) + |data|
    ensures |Assign(rows, key, data)| == |rows| + if Find(rows, key).Some? then 0 else 1
  {
    if rows != [] {
      AssignTotal(rows[1..], key, data);
      var r := Assign(rows, key, data);
      assert r[1..] == if rows[0].key == key then rows[1..] else Assign(rows[1..], key, data);
    }
  }

  lemma {:induction false} RemoveTotal(rows: seq<Row>, key: string)
    ensures Total(Remove(rows, key)) == Total(rows) - StoredSize(rows, key)
    ensures |Remove(rows, key)| == |rows| - if Find(rows, key).Some? then 1 else 0
  {
    if rows != [] {
      RemoveTotal(rows[1..], key);
      var r := Remove(rows, key);
      if rows[0].key != key { assert r[1..] == Remove(rows[1..], key); }
    }
  }

  /** A store keeps its keys in the order they first came in. */
  lemma {:induction false} InsertionOrder(rows: seq<Row>, key: string, data: bytes, prefix: string)
    ensures KeysWithPrefix(Assign(rows, key, data), prefix)
         == KeysWithPrefix(rows, prefix) + if Find(rows, key).None? && StartsWith(key, prefix) then [key] else []
  {
    if rows != [] {
      InsertionOrder(rows[1..], key, data, prefix);
      var r := Assign(rows, key, data);
      assert r[1..] == if rows[0].key == key then rows[1..] else Assign(rows[1..], key, data);
    }
  }

  // ---- the store as a flat map

  /** Every answer of the memory store is the flat map's, unless a put is refused and changes nothing. */
  lemma {:induction false} RefinesFlatMap(limits: Limits, rows: seq<Row>, op: Op)
    requires Unique(rows)
    ensures var (after, a) := Apply(limits, rows, op);
      Unique(after) &&
      (a == Refused ==> op.Put? && after == rows) &&
      (a != Refused ==> AsMap(after) == FlatNext(AsMap(rows), op) && FlatAnswers(AsMap(rows), op, a))
  {
    match op
    case Put(key, data) => AssignIsUpdate(rows, key, data);
    case Get(key) => FindIsLookup(rows, key);
    case Exists(key) => FindIsLookup(rows, key);
    case Delete(key) =>
      FindIsLookup(rows, key);
      RemoveIsRemoval(rows, key);
    case Scan(prefix) => ScanListsMatching(rows, prefix);
  }

  // ---- limits

  /** On a store within its limits, a put on a non-empty key succeeds exactly when the resulting store is within
      them. On the empty key the check is safe but conservative: it also wants room for the value beside the old one. */
  lemma AdmitsExactlyWhatFits(limits: Limits, rows: seq<Row>, key: string, data: bytes)
    requires limits.Hold(rows)
    ensures Apply(limits, rows, Op.Put(key, data)).1 == Stored <==>
      limits.Hold(Assign(rows, key, data)) &&
      (key == "" && limits.maxSize.Some? ==> Total(rows) + |data| <= limits.maxSize.value)
  {
    AssignTotal(rows, key, data);
  }

  /** An overwrite of a non-empty key that does not grow the value is never refused. */
  lemma ShrinkingOverwriteAdmitted(limits: Limits, rows: seq<Row>, key: string, data: bytes)
    requires limits.Hold(rows) && key != "" && Find(rows, key).Some? && |data| <= |Find(rows, key).value|
    ensures Apply(limits, rows, Op.Put(key, data)) == (Assign(rows, key, data), Stored)
  {
    AssignTotal(rows, key, data);
  }

  /** The same overwrite of the empty key can be refused. */
  lemma EmptyKeyOverwriteRefused()
    ensures var limits := Limits(None, Some(1)); var rows := [Row("", [0])];
      limits.Hold(rows) && limits.Hold(Assign(rows, "", [1])) && Apply(limits, rows, Op.Put("", [1])) == (rows, Refused)
  {
    var rows := [Row("", [0])];
    assert rows[1..] == [] && Total(rows) == 1;
    AssignTotal(rows, "", [1]);
  }

  function Replay(limits: Limits, rows: seq<Row>, ops: seq<Op>): seq<Row>
    decreases ops
  {
    if ops == [] then rows else Replay(limits, Apply(limits, rows, ops[0]).0, ops[1..])
  }

  /** With non-negative limits every reachable store is within both of them. */
  lemma ReachableWithinLimits(limits: Limits, ops: seq<Op>)
    requires limits.NonNegative()
    ensures limits.Hold(Replay(limits, [], ops))
  {
    ReplayWithinLimits(limits, [], ops);
  }

  lemma {:induction false} ReplayUnique(limits: Limits, rows: seq<Row>, ops: seq<Op>)
    requires Unique(rows)
    ensures Unique(Replay(limits, rows, ops))
    decreases ops
  {
    if ops != [] {
      RefinesFlatMap(limits, rows, ops[0]);
      ReplayUnique(limits, Apply(limits, rows, ops[0]).0, ops[1..]);
    }
  }

  lemma {:induction false} ReplayWithinLimits(limits: Limits, rows: seq<Row>, ops: seq<Op>)
    requires limits.Hold(rows)
    ensures limits.Hold(Replay(limits, rows, ops))
    decreases ops
  {
    if ops != [] {
      match ops[0] {
        case Put(key, data) => AdmitsExactlyWhatFits(limits, rows, key, data);
        case Delete(key) => RemoveTotal(rows, key);
        case _ =>
      }
      ReplayWithinLimits(limits, Apply(limits, rows, ops[0]).0, ops[1..]);
    }
  }
}
