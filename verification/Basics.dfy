/** Types shared by every backend, and the few sequence operations of Python that the sources lean on. */
module Basics {

  type byte = b: int | 0 <= b < 256
  type bytes = seq<byte>

  datatype Option<+T> = None | Some(value: T)

  /** What a store operation answers: a value, Python's KeyError, or the library's BlobError. */
  datatype Outcome<+T> = Ok(value: T) | KeyError | BlobError

  datatype Unit = Unit

  /** A key-to-bytes map: the store that every backend presents. */
  type FlatMap = map<string, bytes>

  predicate StartsWith<T(==)>(s: seq<T>, prefix: seq<T>) {
    |prefix| <= |s| && s[..|prefix|] == prefix
  }

  lemma StartsWithMeans<T>(s: seq<T>, prefix: seq<T>)
    ensures StartsWith(s, prefix) <==> exists rest :: s == prefix + rest
  {
    if StartsWith(s, prefix) { assert s == prefix + s[|prefix|..]; }
  }

  /** The parts of `s` between separators, empty parts included (Python's `s.split(sep)`). */
  function Split<T(==)>(s: seq<T>, sep: T): (parts: seq<seq<T>>)
    ensures |parts| >= 1
  {
    if s == [] then [[]]
    else
      var rest := Split(s[1..], sep);
      if s[0] == sep then [[]] + rest else [[s[0]] + rest[0]] + rest[1..]
  }

  function Join<T>(parts: seq<seq<T>>, sep: T): seq<T> {
    if |parts| == 0 then []
    else if |parts| == 1 then parts[0]
    else parts[0] + [sep] + Join(parts[1..], sep)
  }

  lemma {:induction false} JoinSplit<T>(s: seq<T>, sep: T)
    ensures Join(Split(s, sep), sep) == s
    ensures forall p :: p in Split(s, sep) ==> sep !in p
  {
    if s != [] {
      JoinSplit(s[1..], sep);
      var rest := Split(s[1..], sep);
      assert s == [s[0]] + s[1..];
      if s[0] == sep {
        assert Split(s, sep)[1..] == rest;
      } else {
        var parts := [[s[0]] + rest[0]] + rest[1..];
        assert parts[1..] == rest[1..];
        forall p | p in parts ensures sep !in p {
          if p == parts[0] { assert rest[0] in rest; } else { assert p in rest[1..]; }
        }
      }
    }
  }

  /** A separator-free part in front of a separator is split off unchanged. */
  lemma {:induction false} SplitFirst<T>(part: seq<T>, sep: T, rest: seq<T>)
    requires sep !in part
    ensures Split(part + [sep] + rest, sep) == [part] + Split(rest, sep)
  {
    var s := part + [sep] + rest;
    if part == [] {
      assert s[1..] == rest;
    } else {
      assert s[1..] == part[1..] + [sep] + rest;
      SplitFirst(part[1..], sep, rest);
      assert part == [part[0]] + part[1..];
    }
  }

  /** The first part of a text that goes on. */
  lemma {:induction false} SplitHead<T>(s: seq<T>, more: seq<T>, sep: T)
    ensures sep in s ==> Split(s + more, sep)[0] == Split(s, sep)[0] && |Split(s + more, sep)| > 1 && |Split(s, sep)| > 1
    ensures sep !in s ==> Split(s + more, sep)[0] == s + Split(more, sep)[0]
  {
    if s == [] {
      assert s + more == more;
    } else {
      assert (s + more)[1..] == s[1..] + more;
      SplitHead(s[1..], more, sep);
      assert s == [s[0]] + s[1..];
    }
  }

  lemma {:induction false} SplitOne<T>(part: seq<T>, sep: T)
    requires sep !in part
    ensures Split(part, sep) == [part]
  {
    if part != [] {
      SplitOne(part[1..], sep);
      assert part == [part[0]] + part[1..];
    }
  }

  /** What stands behind the last separator. */
  lemma {:induction false} SplitLast<T>(before: seq<T>, sep: T, part: seq<T>)
    requires sep !in part
    ensures var parts := Split(before + [sep] + part, sep); parts[|parts| - 1] == part
  {
    var s := before + [sep] + part;
    SplitOne(part, sep);
    if before == [] {
      assert s[1..] == part;
    } else {
      assert s[1..] == before[1..] + [sep] + part;
      SplitLast(before[1..], sep, part);
      assert s[1..][|before| - 1] == sep;
      SplitsTwice(s[1..], sep);
    }
  }

  /** A text with a separator has two parts at least. */
  lemma {:induction false} SplitsTwice<T>(s: seq<T>, sep: T)
    requires sep in s
    ensures |Split(s, sep)| > 1
  {
    if s[0] != sep { SplitsTwice(s[1..], sep); }
  }

  lemma {:induction false} SplitJoin<T>(parts: seq<seq<T>>, sep: T)
    requires |parts| >= 1 && forall p :: p in parts ==> sep !in p
    ensures Split(Join(parts, sep), sep) == parts
  {
    assert parts[0] in parts;
    if |parts| == 1 {
      SplitOne(parts[0], sep);
    } else {
      SplitFirst(parts[0], sep, Join(parts[1..], sep));
      SplitJoin(parts[1..], sep);
    }
  }

  /** Joining with a separator only adds separators to the elements of the parts. */
  lemma {:induction false} JoinElements<T>(parts: seq<seq<T>>, sep: T, x: T)
    requires x != sep && forall p :: p in parts ==> x !in p
    ensures x !in Join(parts, sep)
  {
    if |parts| > 0 {
      assert parts[0] in parts;
      JoinElements(parts[1..], sep, x);
    }
  }

  /** An element that is not in the text is in none of its parts. */
  lemma {:induction false} SplitElements<T>(s: seq<T>, sep: T, x: T)
    requires x !in s
    ensures forall p :: p in Split(s, sep) ==> x !in p
  {
    if s != [] {
      SplitElements(s[1..], sep, x);
      var rest := Split(s[1..], sep);
      assert s[0] in s && rest[0] in rest;
      forall p | p in Split(s, sep) ensures x !in p {
        if p != [] && p == [s[0]] + rest[0] {} else { assert p == [] || p in rest; }
      }
    }
  }

  /** A text that fits on a command line. */
  predicate OneLine(s: string) {
    '\r' !in s && '\n' !in s
  }

  lemma OneLineMeans(s: string)
    ensures OneLine(s) <==> forall i :: 0 <= i < |s| ==> s[i] as int != 10 && s[i] as int != 13
  {
    if OneLine(s) {
      forall i | 0 <= i < |s| ensures s[i] as int != 10 && s[i] as int != 13 { assert s[i] in s; }
    }
  }

  function Flatten<T>(chunks: seq<seq<T>>): seq<T> {
    if chunks == [] then [] else chunks[0] + Flatten(chunks[1..])
  }

  lemma {:induction false} FlattenAppend<T>(a: seq<seq<T>>, b: seq<seq<T>>)
    ensures Flatten(a + b) == Flatten(a) + Flatten(b)
  {
    if a == [] {
      assert a + b == b;
    } else {
      assert (a + b)[1..] == a[1..] + b;
      FlattenAppend(a[1..], b);
    }
  }

  /** Trailing slashes removed (`s.rstrip("/")`). */
  function TrimSlashes(s: string): string {
    if s != "" && s[|s| - 1] == '/' then TrimSlashes(s[..|s| - 1]) else s
  }

  /** Slashes at the end are taken off, and nothing else. */
  lemma {:induction false} TrimmedAtEnd(s: string)
    ensures var n := |TrimSlashes(s)|;
      n <= |s| && TrimSlashes(s) == s[..n] && (forall i :: n <= i < |s| ==> s[i] == '/') && (n > 0 ==> s[n - 1] != '/')
    decreases |s|
  {
    if s != "" && s[|s| - 1] == '/' { TrimmedAtEnd(s[..|s| - 1]); }
  }

  /** The non-empty texts of a list (`[p for p in parts if p]`). */
  function NonEmpty(parts: seq<string>): seq<string> {
    if parts == [] then []
    else (if parts[0] == "" then [] else [parts[0]]) + NonEmpty(parts[1..])
  }

  /** A number as Python prints it. */
  function Decimal(n: nat): (s: string)
    ensures |s| > 0 && forall c :: c in s ==> '0' <= c <= '9'
  {
    (if n < 10 then "" else Decimal(n / 10)) + [('0' as int + n % 10) as char]
  }

  lemma NonEmptyCons(first: string, rest: seq<string>)
    ensures NonEmpty([first] + rest) == (if first == "" then [] else [first]) + NonEmpty(rest)
  {
    assert ([first] + rest)[1..] == rest;
  }

  lemma {:induction false} NonEmptyJoined(a: seq<string>, b: seq<string>)
    ensures NonEmpty(a + b) == NonEmpty(a) + NonEmpty(b)
  {
    if a == [] {
      assert a + b == b;
    } else {
      assert (a + b)[1..] == a[1..] + b;
      NonEmptyJoined(a[1..], b);
    }
  }

  /** Exactly the empty texts are left out, and the others stay in order. */
  lemma NonEmptyKeeps(a: seq<string>, text: string, b: seq<string>)
    ensures NonEmpty(a + [text] + b) == NonEmpty(a) + (if text == "" then [] else [text]) + NonEmpty(b)
  {
    NonEmptyJoined(a + [text], b);
    NonEmptyJoined(a, [text]);
    NonEmptyOne(text);
  }

  lemma NonEmptyOne(text: string)
    ensures NonEmpty([text]) == if text == "" then [] else [text]
  {
    assert [text][1..] == [];
  }

  /** The value of a text of decimal digits. */
  function Number(s: string): int {
    if s == "" then 0 else Number(s[..|s| - 1]) * 10 + (s[|s| - 1] as int - '0' as int)
  }

  lemma NumberSnoc(a: string, d: nat)
    requires d < 10
    ensures Number(a + [('0' as int + d) as char]) == Number(a) * 10 + d
  {
    assert (a + [('0' as int + d) as char])[..|a|] == a;
  }

  /** A printed number has its value, and no zero in front. */
  lemma {:induction false} DecimalRead(n: nat)
    ensures Number(Decimal(n)) == n && (|Decimal(n)| > 1 ==> Decimal(n)[0] != '0')
  {
    if n < 10 {
      NumberSnoc("", n);
    } else {
      DecimalRead(n / 10);
      NumberSnoc(Decimal(n / 10), n % 10);
      assert Decimal(n)[0] == Decimal(n / 10)[0];
      if |Decimal(n / 10)| == 1 { OneDigit(n / 10); }
    }
  }

  lemma OneDigit(n: nat)
    requires |Decimal(n)| == 1
    ensures n < 10 && Decimal(n)[0] as int == '0' as int + n
  {
  }

  predicate Distinct<T(==)>(s: seq<T>) {
    s == [] || (s[0] !in s[1..] && Distinct(s[1..]))
  }

  lemma {:induction false} DistinctMeans<T>(s: seq<T>)
    ensures Distinct(s) <==> forall i, j :: 0 <= i < j < |s| ==> s[i] != s[j]
  {
    if s != [] {
      DistinctMeans(s[1..]);
      if forall i, j :: 0 <= i < j < |s| ==> s[i] != s[j] {
        forall i, j | 0 <= i < j < |s[1..]| ensures s[1..][i] != s[1..][j] { assert s[i + 1] != s[j + 1]; }
      }
      if Distinct(s) {
        forall i, j | 0 <= i < j < |s| ensures s[i] != s[j] {
          assert s[j] == s[1..][j - 1];
          if i > 0 { assert s[i] == s[1..][i - 1]; }
        }
      }
    }
  }
}
