/** Association lists: the rows of a table, the objects of a bucket, the items of a Python dict. */
module Rows {
  import opened Basics
  import Lexicographic
  import Utf8

  datatype Row = Row(key: string, data: bytes)

  predicate Unique(rows: seq<Row>) {
    rows == [] || (rows[0].key !in AsMap(rows[1..]) && Unique(rows[1..]))
  }

  function Find(rows: seq<Row>, key: string): Option<bytes> {
    if rows == [] then None
    else if rows[0].key == key then Some(rows[0].data)
    else Find(rows[1..], key)
  }

  function Remove(rows: seq<Row>, key: string): seq<Row> {
    if rows == [] then []
    else if rows[0].key == key then rows[1..]
    else [rows[0]] + Remove(rows[1..], key)
  }

  /** Dict assignment: an existing key keeps its place, a new one goes last. */
  function Assign(rows: seq<Row>, key: string, data: bytes): seq<Row> {
    if rows == [] then [Row(key, data)]
    else if rows[0].key == key then [Row(key, data)] + rows[1..]
    else [rows[0]] + Assign(rows[1..], key, data)
  }

  /** The flat map that the rows stand for. */
  function AsMap(rows: seq<Row>): FlatMap {
    if rows == [] then map[] else AsMap(rows[1..])[rows[0].key := rows[0].data]
  }

  /** The keys of the rows with a given prefix, in row order. */
  function KeysWithPrefix(rows: seq<Row>, prefix: string): seq<string> {
    if rows == [] then []
    else (if StartsWith(rows[0].key, prefix) then [rows[0].key] else []) + KeysWithPrefix(rows[1..], prefix)
  }

  function Matching(m: FlatMap, prefix: string): set<string> {
    set k | k in m.Keys && StartsWith(k, prefix)
  }

  lemma {:induction false} FindIsLookup(rows: seq<Row>, key: string)
    ensures Find(rows, key) == if key in AsMap(rows) then Some(AsMap(rows)[key]) else None
  {
    if rows != [] { FindIsLookup(rows[1..], key); }
  }

  lemma {:induction false} AssignIsUpdate(rows: seq<Row>, key: string, data: bytes)
    requires Unique(rows)
    ensures AsMap(Assign(rows, key, data)) == AsMap(rows)[key := data]
    ensures Unique(Assign(rows, key, data))
  {
    if rows != [] {
      AssignIsUpdate(rows[1..], key, data);
      var r := Assign(rows, key, data);
      if rows[0].key == key {
        assert r[1..] == rows[1..];
      } else {
        assert r[0] == rows[0] && r[1..] == Assign(rows[1..], key, data);
      }
    }
  }

  lemma {:induction false} RemoveIsRemoval(rows: seq<Row>, key: string)
    requires Unique(rows)
    ensures AsMap(Remove(rows, key)) == AsMap(rows) - {key}
    ensures Unique(Remove(rows, key))
    ensures key !in AsMap(rows) ==> Remove(rows, key) == rows
  {
    if rows != [] {
      RemoveIsRemoval(rows[1..], key);
      var r := Remove(rows, key);
      if rows[0].key != key { assert r[1..] == Remove(rows[1..], key); }
    }
  }

  /** A prefix scan of the rows lists the matching keys of the map, each once. */
  lemma {:induction false} ScanListsMatching(rows: seq<Row>, prefix: string)
    requires Unique(rows)
    ensures forall k :: k in KeysWithPrefix(rows, prefix) <==> k in Matching(AsMap(rows), prefix)
    ensures Distinct(KeysWithPrefix(rows, prefix))
  {
    if rows != [] {
      ScanListsMatching(rows[1..], prefix);
      var r := KeysWithPrefix(rows, prefix);
      if StartsWith(rows[0].key, prefix) {
        assert r[1..] == KeysWithPrefix(rows[1..], prefix);
      } else {
        assert r == KeysWithPrefix(rows[1..], prefix);
      }
    }
  }

  // ---- rows in key order, as a table clustered on its key and a bucket listing keep them

  /** Keys compare by their UTF-8 bytes (SQLite's BINARY collation, S3's listing order). */
  predicate KeyLess(a: string, b: string) {
    Lexicographic.Less(Utf8.Encode(a), Utf8.Encode(b))
  }

  predicate Ascending(rows: seq<Row>) {
    rows == [] || (Below(rows[0].key, AsMap(rows[1..])) && Ascending(rows[1..]))
  }

  predicate AscendingKeys(keys: seq<string>) {
    keys == [] || ((forall k :: k in keys[1..] ==> KeyLess(keys[0], k)) && AscendingKeys(keys[1..]))
  }

  predicate Below(key: string, m: FlatMap) {
    forall k :: k in m ==> KeyLess(key, k)
  }

  /** The upsert of an ordered table. */
  function Upsert(rows: seq<Row>, key: string, data: bytes): seq<Row> {
    if rows == [] || KeyLess(key, rows[0].key) then [Row(key, data)] + rows
    else if rows[0].key == key then [Row(key, data)] + rows[1..]
    else [rows[0]] + Upsert(rows[1..], key, data)
  }

  lemma KeyOrder(a: string, b: string, c: string)
    ensures KeyLess(a, b) && KeyLess(b, c) ==> KeyLess(a, c)
    ensures a == b || KeyLess(a, b) || KeyLess(b, a)
    ensures !KeyLess(a, a)
  {
    var x, y, z := Utf8.Encode(a), Utf8.Encode(b), Utf8.Encode(c);
    Lexicographic.Irreflexive(x);
    Lexicographic.Total(x, y);
    if x == y {
      Utf8.DecodeEncode(a);
      Utf8.DecodeEncode(b);
    }
    if KeyLess(a, b) && KeyLess(b, c) { Lexicographic.Transitive(x, y, z); }
  }

  lemma {:induction false} AscendingUnique(rows: seq<Row>)
    requires Ascending(rows)
    ensures Unique(rows)
  {
    if rows != [] {
      KeyOrder(rows[0].key, rows[0].key, rows[0].key);
      AscendingUnique(rows[1..]);
    }
  }

  lemma {:induction false} UpsertIsUpdate(rows: seq<Row>, key: string, data: bytes)
    ensures AsMap(Upsert(rows, key, data)) == AsMap(rows)[key := data]
  {
    if rows != [] {
      UpsertIsUpdate(rows[1..], key, data);
      var u := Upsert(rows, key, data);
      if KeyLess(key, rows[0].key) {
        assert u[1..] == rows;
      } else if rows[0].key == key {
        assert u[1..] == rows[1..];
      } else {
        assert u[1..] == Upsert(rows[1..], key, data);
      }
    }
  }

  lemma {:induction false} UpsertAscending(rows: seq<Row>, key: string, data: bytes)
    requires Ascending(rows)
    ensures Ascending(Upsert(rows, key, data))
  {
    if rows != [] {
      var u := Upsert(rows, key, data);
      if KeyLess(key, rows[0].key) {
        assert u[1..] == rows;
        assert Below(key, AsMap(rows)) by {
          forall k | k in AsMap(rows) ensures KeyLess(key, k) {
            if k != rows[0].key { KeyOrder(key, rows[0].key, k); }
          }
        }
      } else if rows[0].key == key {
        assert u[1..] == rows[1..];
      } else {
        UpsertAscending(rows[1..], key, data);
        UpsertIsUpdate(rows[1..], key, data);
        assert KeyLess(rows[0].key, key) by { KeyOrder(key, rows[0].key, key); }
        assert u[1..] == Upsert(rows[1..], key, data);
      }
    }
  }

  lemma {:induction false} RemoveAscending(rows: seq<Row>, key: string)
    requires Ascending(rows)
    ensures Ascending(Remove(rows, key))
    ensures AsMap(Remove(rows, key)) == AsMap(rows) - {key}
  {
    AscendingUnique(rows);
    RemoveIsRemoval(rows, key);
    if rows != [] && rows[0].key != key {
      RemoveAscending(rows[1..], key);
      assert Remove(rows, key)[1..] == Remove(rows[1..], key);
    }
  }
}
