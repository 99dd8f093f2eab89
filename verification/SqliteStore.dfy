/** The SQLite backend's table operations; its scan asks for a key range instead of a prefix. */
module SqliteStore {
  import opened Basics
  import opened Rows
  import Lexicographic
  import Utf8

  const LAST_POINT: char := '\U{10FFFF}'

  function UpperBound(prefix: string): string {
    prefix + [LAST_POINT]
  }

  /** The WHERE clause of scan. */
  predicate InRange(key: string, prefix: string) {
    !KeyLess(key, prefix) && KeyLess(key, UpperBound(prefix))
  }

  /** The key starts with the prefix and, if it goes on, goes on with less than the last code point. */
  predicate Reached(key: string, prefix: string) {
    StartsWith(key, prefix) && (|key| > |prefix| ==> key[|prefix|] < LAST_POINT)
  }

  function RangeKeys(rows: seq<Row>, prefix: string): seq<string> {
    if rows == [] then []
    else (if InRange(rows[0].key, prefix) then [rows[0].key] else []) + RangeKeys(rows[1..], prefix)
  }

  class SQLiteBlob {
    var rows: seq<Row>

    ghost predicate Valid()
      reads this
    {
      Ascending(rows)
    }

    ghost function Table(): FlatMap
      reads this
    {
      AsMap(rows)
    }

    constructor ()
      ensures Valid() && Table() == map[]
    {
      rows := [];
    }

    method Put(key: string, data: bytes) returns (r: Outcome<Unit>)
      requires Valid()
      modifies this
      ensures Valid() && r == Ok(Unit.Unit) && Table() == old(Table())[key := data]
    {
      UpsertIsUpdate(rows, key, data);
      UpsertAscending(rows, key, data);
      rows := Upsert(rows, key, data);
      r := Ok(Unit.Unit);
    }

    method Get(key: string) returns (r: Outcome<bytes>)
      requires Valid()
      ensures r == if key in Table() then Ok(Table()[key]) else KeyError
    {
      FindIsLookup(rows, key);
      var row := Find(rows, key);
      r := if row.None? then KeyError else Ok(row.value);
    }

    method Delete(key: string) returns (r: Outcome<Unit>)
      requires Valid()
      modifies this
      ensures Valid() && Table() == old(Table()) - {key}
      ensures r == if key in old(Table()) then Ok(Unit.Unit) else KeyError
    {
      AscendingUnique(rows);
      RemoveAscending(rows, key);
      RemoveIsRemoval(rows, key);
      FindIsLookup(rows, key);
      var present := Find(rows, key).Some?;
      rows := Remove(rows, key);
      r := if present then Ok(Unit.Unit) else KeyError;
    }

    method Exists(key: string) returns (r: bool)
      requires Valid()
      ensures r <==> key in Table()
    {
      FindIsLookup(rows, key);
      r := Find(rows, key).Some?;
    }

    /** Exactly the keys that start with the prefix and do not go on with U+10FFFF, in strictly ascending order. */
    method Scan(prefix: string) returns (keys: seq<string>)
      requires Valid()
      ensures AscendingKeys(keys)
      ensures forall k :: k in keys <==> k in Table() && Reached(k, prefix)
      ensures keys == RangeKeys(rows, prefix)
    {
      var cursor := RangeKeys(rows, prefix);
      keys := [];
      for i := 0 to |cursor|
        invariant keys == cursor[..i]
      {
        keys := keys + [cursor[i]];
      }
      assert keys == cursor;
      RangeKeysAscending(rows, prefix);
      RangeKeysReached(rows, prefix);
    }
  }

  // ---- the range query against the prefix test

  lemma {:induction false} PointsAppend(s: string, t: string)
    ensures Utf8.Points(s + t) == Utf8.Points(s) + Utf8.Points(t)
  {
    if s == "" {
      assert s + t == t;
    } else {
      assert (s + t)[1..] == s[1..] + t;
      PointsAppend(s[1..], t);
    }
  }

  /** A key without the prefix is below the prefix, or above everything that has it. */
  lemma {:induction false} OutsidePrefix(key: string, prefix: string, more: seq<int>)
    requires !StartsWith(key, prefix)
    ensures Lexicographic.Less(Utf8.Points(key), Utf8.Points(prefix))
         || Lexicographic.Less(Utf8.Points(prefix) + more, Utf8.Points(key))
  {
    var k, p := Utf8.Points(key), Utf8.Points(prefix);
    StartsWithNothing(key);
    if key == "" {
      assert k == [] && p != [];
    } else if key[0] == prefix[0] {
      TailStarts(key, prefix);
      OutsidePrefix(key[1..], prefix[1..], more);
      assert k[1..] == Utf8.Points(key[1..]) && p[1..] == Utf8.Points(prefix[1..]);
      assert (p + more)[0] == p[0] == k[0] && (p + more)[1..] == p[1..] + more;
    } else {
      assert k[0] != p[0] && (p + more)[0] == p[0];
    }
  }

  lemma StartsWithNothing(key: string)
    ensures StartsWith(key, "")
  {
    assert key[..0] == "";
  }

  lemma TailStarts(key: string, prefix: string)
    requires key != "" && prefix != "" && key[0] == prefix[0]
    ensures StartsWith(key[1..], prefix[1..]) ==> StartsWith(key, prefix)
  {
    if |prefix| <= |key| {
      assert key[..|prefix|] == [key[0]] + key[1..][..|prefix| - 1];
      assert prefix == [prefix[0]] + prefix[1..];
    }
  }

  /** The range of the query, over code points, is the prefix test less the keys that go on with U+10FFFF. */
  lemma PointRange(key: string, prefix: string)
    ensures (!Lexicographic.Less(Utf8.Points(key), Utf8.Points(prefix)) &&
             Lexicographic.Less(Utf8.Points(key), Utf8.Points(UpperBound(prefix)))) <==> Reached(key, prefix)
  {
    var k, p, last := Utf8.Points(key), Utf8.Points(prefix), Utf8.Points([LAST_POINT]);
    PointsAppend(prefix, [LAST_POINT]);
    if StartsWith(key, prefix) {
      var rest := key[|prefix|..];
      assert key == prefix + rest;
      PointsAppend(prefix, rest);
      Lexicographic.CommonPrefix(p, Utf8.Points(rest), []);
      assert p + [] == p;
      Lexicographic.CommonPrefix(p, Utf8.Points(rest), last);
      assert last == [LAST_POINT as int] && last[1..] == [];
    } else {
      OutsidePrefix(key, prefix, last);
      if Lexicographic.Less(p + last, k) { Lexicographic.Asymmetric(p + last, k); }
    }
  }

  /** The same range in the byte order that SQLite compares by. */
  lemma RangeIsPrefixTest(key: string, prefix: string)
    ensures InRange(key, prefix) <==> Reached(key, prefix)
  {
    Utf8.OrderPreserved(key, prefix);
    Utf8.OrderPreserved(key, UpperBound(prefix));
    PointRange(key, prefix);
  }

  lemma {:induction false} RangeKeysReached(rows: seq<Row>, prefix: string)
    ensures forall k :: k in RangeKeys(rows, prefix) <==> k in AsMap(rows) && Reached(k, prefix)
  {
    if rows != [] {
      RangeKeysReached(rows[1..], prefix);
      RangeIsPrefixTest(rows[0].key, prefix);
    }
  }

  lemma {:induction false} RangeKeysAscending(rows: seq<Row>, prefix: string)
    requires Ascending(rows)
    ensures AscendingKeys(RangeKeys(rows, prefix))
  {
    if rows != [] {
      RangeKeysAscending(rows[1..], prefix);
      RangeKeysReached(rows[1..], prefix);
      var r, rest := RangeKeys(rows, prefix), RangeKeys(rows[1..], prefix);
      if InRange(rows[0].key, prefix) { assert r[1..] == rest; } else { assert r == rest; }
    }
  }

  /** A stored key that the prefix test finds and the range query misses. */
  predicate Missed(rows: seq<Row>, prefix: string) {
    exists k :: k in AsMap(rows) && StartsWith(k, UpperBound(prefix))
  }

  /** The scan is the plain prefix filter exactly when no stored key goes on with U+10FFFF after the prefix. */
  lemma {:induction false} ScanIsFilterExactlyWhen(rows: seq<Row>, prefix: string)
    ensures RangeKeys(rows, prefix) == KeysWithPrefix(rows, prefix) <==> !Missed(rows, prefix)
  {
    if rows != [] {
      var key := rows[0].key;
      ScanIsFilterExactlyWhen(rows[1..], prefix);
      RangeIsPrefixTest(key, prefix);
      PrefixNotReached(key, prefix);
      RangeNotLonger(rows[1..], prefix);
      var r, f := RangeKeys(rows, prefix), KeysWithPrefix(rows, prefix);
      if StartsWith(key, UpperBound(prefix)) {
        assert key in AsMap(rows);
        assert |r| < |f|;
      } else if StartsWith(key, prefix) {
        assert r[1..] == RangeKeys(rows[1..], prefix) && f[1..] == KeysWithPrefix(rows[1..], prefix);
      } else {
        assert r == RangeKeys(rows[1..], prefix) && f == KeysWithPrefix(rows[1..], prefix);
      }
      MissedCons(rows, prefix);
    }
  }

  lemma PrefixNotReached(key: string, prefix: string)
    ensures StartsWith(key, UpperBound(prefix)) <==> StartsWith(key, prefix) && !Reached(key, prefix)
  {
    if |key| > |prefix| { assert key[..|prefix| + 1] == key[..|prefix|] + [key[|prefix|]]; }
  }

  lemma MissedCons(rows: seq<Row>, prefix: string)
    requires rows != []
    ensures Missed(rows, prefix) <==> StartsWith(rows[0].key, UpperBound(prefix)) || Missed(rows[1..], prefix)
  {
    if StartsWith(rows[0].key, UpperBound(prefix)) { assert rows[0].key in AsMap(rows); }
  }

  lemma {:induction false} RangeNotLonger(rows: seq<Row>, prefix: string)
    ensures |RangeKeys(rows, prefix)| <= |KeysWithPrefix(rows, prefix)|
  {
    if rows != [] {
      RangeIsPrefixTest(rows[0].key, prefix);
      RangeNotLonger(rows[1..], prefix);
    }
  }

  /** A key stored by put and found by get, yet not listed by a scan of its own prefix. */
  lemma ScanMissesLastPoint()
    ensures var rows := Upsert([], "a\U{10FFFF}", []);
      Find(rows, "a\U{10FFFF}").Some? && StartsWith("a\U{10FFFF}", "a") && RangeKeys(rows, "a") == []
  {
    RangeIsPrefixTest("a\U{10FFFF}", "a");
    assert "a\U{10FFFF}"[..1] == "a";
  }
}
