/** Whole runs: every backend answers as one flat key-to-bytes map does, so all of them agree. */
module Agreement {
  import opened Basics
  import opened Rows
  import opened Operations
  import MemoryStore
  import SqliteStore
  import S3Store

  // ---- runs of the flat map

  function FlatRun(m: FlatMap, ops: seq<Op>): FlatMap {
    if ops == [] then m else FlatNext(FlatRun(m, ops[..|ops| - 1]), ops[|ops| - 1])
  }

  /** Each answer is one that the flat map allows after the operations before it. */
  ghost predicate Allowed(m: FlatMap, ops: seq<Op>, answers: seq<Answer>) {
    |answers| <= |ops| && forall i :: 0 <= i < |answers| ==> FlatAnswers(FlatRun(m, ops[..i]), ops[i], answers[i])
  }

  /** The same answer, but for the order in which a scan lists its keys. */
  ghost predicate Same(a: Answer, b: Answer) {
    a == b || (a.Keys? && b.Keys? && Distinct(a.keys) && Distinct(b.keys) && forall k :: k in a.keys <==> k in b.keys)
  }

  /** The flat map leaves nothing open but the order of a scan. */
  lemma AllowedAgree(m: FlatMap, ops: seq<Op>, a: seq<Answer>, b: seq<Answer>)
    requires Allowed(m, ops, a) && Allowed(m, ops, b) && |a| == |b| == |ops|
    ensures forall i :: 0 <= i < |ops| ==> Same(a[i], b[i])
  {
    forall i | 0 <= i < |ops| ensures Same(a[i], b[i]) {
      var now := FlatRun(m, ops[..i]);
      assert FlatAnswers(now, ops[i], a[i]) && FlatAnswers(now, ops[i], b[i]);
    }
  }

  lemma RunSnoc(m: FlatMap, ops: seq<Op>, i: nat)
    requires i < |ops|
    ensures FlatRun(m, ops[..i + 1]) == FlatNext(FlatRun(m, ops[..i]), ops[i])
  {
    assert ops[..i + 1][..i] == ops[..i];
  }

  lemma AllowedSnoc(m: FlatMap, ops: seq<Op>, answers: seq<Answer>, a: Answer)
    requires Allowed(m, ops, answers) && |answers| < |ops|
    requires FlatAnswers(FlatRun(m, ops[..|answers|]), ops[|answers|], a)
    ensures Allowed(m, ops, answers + [a])
  {
  }

  // ---- the operations on which the backends agree

  function KeyIn(op: Op): string {
    if op.Scan? then op.prefix else op.key
  }

  /** A key that is not empty and holds no U+10FFFF; a scan prefix may be empty. */
  predicate Plain(op: Op) {
    SqliteStore.LAST_POINT !in KeyIn(op) && (!op.Scan? ==> op.key != "")
  }

  predicate PlainKeys(m: FlatMap) {
    forall k :: k in m ==> SqliteStore.LAST_POINT !in k
  }

  /** Without U+10FFFF the range query reaches every key with the prefix. */
  lemma PlainReached(key: string, prefix: string)
    requires SqliteStore.LAST_POINT !in key
    ensures SqliteStore.Reached(key, prefix) <==> StartsWith(key, prefix)
  {
    if |key| > |prefix| { assert key[|prefix|] in key; }
  }

  lemma {:induction false} AscendingDistinct(keys: seq<string>)
    requires AscendingKeys(keys)
    ensures Distinct(keys)
  {
    if keys != [] {
      KeyOrder(keys[0], keys[0], keys[0]);
      AscendingDistinct(keys[1..]);
    }
  }

  // ---- one step of each backend

  /** The answer that an outcome stands for. */
  function Told<T>(r: Outcome<T>, answer: T -> Answer): Answer {
    match r
    case Ok(value) => answer(value)
    case KeyError => Missing
    case BlobError => Refused
  }

  method MemoryStep(memory: MemoryStore.MemoryBlob, op: Op) returns (a: Answer)
    requires memory.Valid() && memory.limits == MemoryStore.UNLIMITED
    modifies memory
    ensures memory.Valid()
    ensures AsMap(memory.data) == FlatNext(old(AsMap(memory.data)), op) && FlatAnswers(old(AsMap(memory.data)), op, a)
  {
    MemoryStore.RefinesFlatMap(memory.limits, memory.data, op);
    match op
    case Put(key, data) => a := memory.Put(key, data);
    case Get(key) => a := memory.Get(key);
    case Delete(key) => a := memory.Delete(key);
    case Exists(key) => a := memory.Exists(key);
    case Scan(prefix) => a := memory.Scan(prefix);
  }

  method TableStep(table: SqliteStore.SQLiteBlob, op: Op) returns (a: Answer)
    requires table.Valid() && PlainKeys(table.Table())
    modifies table
    ensures table.Valid() && table.Table() == FlatNext(old(table.Table()), op)
    ensures FlatAnswers(old(table.Table()), op, a)
  {
    match op
    case Put(key, data) => var r := table.Put(key, data); a := Told(r, _ => Stored);
    case Get(key) => var r := table.Get(key); a := Told(r, data => Value(data));
    case Delete(key) => var r := table.Delete(key); a := Told(r, _ => Deleted);
    case Exists(key) => var r := table.Exists(key); a := Present(r);
    case Scan(prefix) =>
      var keys := table.Scan(prefix);
      AscendingDistinct(keys);
      forall k | k in table.Table() ensures SqliteStore.Reached(k, prefix) <==> StartsWith(k, prefix) {
        PlainReached(k, prefix);
      }
      a := Keys(keys);
  }

  /** The map that an application sees in the bucket: the objects under the configured prefix. */
  ghost function View(store: S3Store.S3Store): FlatMap
    reads store
  {
    S3Store.Relative(store.Bucket(), store.blob.RawPrefix())
  }

  lemma ViewUpdated(m: FlatMap, raw: string, key: string, data: bytes)
    ensures S3Store.Relative(m[raw + key := data], raw) == S3Store.Relative(m, raw)[key := data]
  {
    S3Store.RelativeKeys(m, raw);
    S3Store.RelativeKeys(m[raw + key := data], raw);
    forall k | k != key ensures raw + k != raw + key { S3Store.SameSuffix(raw, k, key); }
  }

  lemma ViewReduced(m: FlatMap, raw: string, key: string)
    ensures S3Store.Relative(m - {raw + key}, raw) == S3Store.Relative(m, raw) - {key}
  {
    S3Store.RelativeKeys(m, raw);
    S3Store.RelativeKeys(m - {raw + key}, raw);
    forall k | k != key ensures raw + k != raw + key { S3Store.SameSuffix(raw, k, key); }
  }

  lemma ViewAt(store: S3Store.S3Store, key: string)
    requires key != ""
    ensures var full := store.blob.FullKey(key);
      full != "" && full == store.blob.RawPrefix() + key && (key in View(store) <==> full in store.Bucket()) &&
      (key in View(store) ==> View(store)[key] == store.Bucket()[full])
  {
    store.blob.UnderRawPrefix(key);
    S3Store.RelativeKeys(store.Bucket(), store.blob.RawPrefix());
  }

  method BucketScan(store: S3Store.S3Store, prefix: string) returns (a: Answer)
    requires store.Valid() && store.service.healthy
    ensures FlatAnswers(View(store), Op.Scan(prefix), a)
  {
    S3Store.ListingIsFilter(store.objects, store.blob.RawPrefix(), prefix);
    var keys, r := store.Scan(prefix);
    a := Told(r, _ => Keys(keys));
  }

  method BucketStep(store: S3Store.S3Store, op: Op) returns (a: Answer)
    requires store.Valid() && store.service.healthy && (!op.Scan? ==> op.key != "")
    modifies store
    ensures store.Valid() && View(store) == FlatNext(old(View(store)), op) && FlatAnswers(old(View(store)), op, a)
  {
    if op.Scan? {
      a := BucketScan(store, op.prefix);
      return;
    }
    ViewAt(store, op.key);
    match op
    case Put(key, data) =>
      ViewUpdated(store.Bucket(), store.blob.RawPrefix(), key, data);
      var r := store.Put(key, data);
      a := Told(r, _ => Stored);
    case Get(key) => var r := store.Get(key); a := Told(r, data => Value(data));
    case Delete(key) =>
      ViewReduced(store.Bucket(), store.blob.RawPrefix(), key);
      var r := store.Delete(key);
      a := Told(r, _ => Deleted);
    case Exists(key) => var r := store.Exists(key); a := Told(r, present => Present(present));
  }

  // ---- whole runs

  method RunMemory(memory: MemoryStore.MemoryBlob, ops: seq<Op>) returns (a: seq<Answer>)
    requires memory.Valid() && memory.limits == MemoryStore.UNLIMITED
    modifies memory
    ensures AsMap(memory.data) == FlatRun(old(AsMap(memory.data)), ops)
    ensures |a| == |ops| && Allowed(old(AsMap(memory.data)), ops, a)
  {
    ghost var m := AsMap(memory.data);
    a := [];
    for i := 0 to |ops|
      invariant memory.Valid() && AsMap(memory.data) == FlatRun(m, ops[..i]) && |a| == i && Allowed(m, ops, a)
    {
      RunSnoc(m, ops, i);
      var x := MemoryStep(memory, ops[i]);
      AllowedSnoc(m, ops, a, x);
      a := a + [x];
    }
    assert ops[..|ops|] == ops;
  }

  method RunTable(table: SqliteStore.SQLiteBlob, ops: seq<Op>) returns (a: seq<Answer>)
    requires table.Valid() && PlainKeys(table.Table()) && forall op :: op in ops ==> Plain(op)
    modifies table
    ensures table.Table() == FlatRun(old(table.Table()), ops)
    ensures |a| == |ops| && Allowed(old(table.Table()), ops, a)
  {
    ghost var m := table.Table();
    a := [];
    for i := 0 to |ops|
      invariant table.Valid() && PlainKeys(table.Table())
      invariant table.Table() == FlatRun(m, ops[..i]) && |a| == i && Allowed(m, ops, a)
    {
      RunSnoc(m, ops, i);
      assert ops[i] in ops;
      var x := TableStep(table, ops[i]);
      AllowedSnoc(m, ops, a, x);
      a := a + [x];
    }
    assert ops[..|ops|] == ops;
  }

  method RunBucket(store: S3Store.S3Store, ops: seq<Op>) returns (a: seq<Answer>)
    requires store.Valid() && store.service.healthy && forall op :: op in ops ==> Plain(op)
    modifies store
    ensures View(store) == FlatRun(old(View(store)), ops)
    ensures |a| == |ops| && Allowed(old(View(store)), ops, a)
  {
    ghost var m := View(store);
    a := [];
    for i := 0 to |ops|
      invariant store.Valid() && View(store) == FlatRun(m, ops[..i]) && |a| == i && Allowed(m, ops, a)
    {
      RunSnoc(m, ops, i);
      assert ops[i] in ops;
      var x := BucketStep(store, ops[i]);
      AllowedSnoc(m, ops, a, x);
      a := a + [x];
    }
    assert ops[..|ops|] == ops;
  }

  /** The capstone: over every run with non-empty keys and no U+10FFFF, the unlimited memory store, SQLite and S3 stay
      equal to one flat map and give its values, KeyErrors, booleans and scan sets, hence each other's. */
  method RunAll(memory: MemoryStore.MemoryBlob, table: SqliteStore.SQLiteBlob, store: S3Store.S3Store, ops: seq<Op>)
    returns (a: seq<Answer>, b: seq<Answer>, c: seq<Answer>)
    requires memory.Valid() && memory.limits == MemoryStore.UNLIMITED && table.Valid()
    requires store.Valid() && store.service.healthy
    requires AsMap(memory.data) == table.Table() == View(store) && PlainKeys(table.Table())
    requires forall op :: op in ops ==> Plain(op)
    modifies memory, table, store
    ensures AsMap(memory.data) == table.Table() == View(store) == FlatRun(old(table.Table()), ops)
    ensures |a| == |b| == |c| == |ops| && Allowed(old(table.Table()), ops, a)
    ensures forall i :: 0 <= i < |ops| ==> Same(a[i], b[i]) && Same(a[i], c[i])
  {
    ghost var m := table.Table();
    a := RunMemory(memory, ops);
    b := RunTable(table, ops);
    c := RunBucket(store, ops);
    AllowedAgree(m, ops, a, b);
    AllowedAgree(m, ops, a, c);
  }
}
