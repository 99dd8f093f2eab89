/** Keys as path names: what a server resolves them to, and the directories that the client makes for them. */
module FtpPaths {
  import opened Basics
  import opened FtpCommon
  import opened FtpTree

  /** A text without names that a server would take for steps within the tree. */
  predicate Dotless(text: string) {
    forall n :: n in Resolve(text) ==> !DotName(n)
  }

  /** A path name that starts at the top of the server and not at the working directory. */
  predicate Absolute(text: string) {
    text != "" && text[0] == '/'
  }

  lemma DotlessPath(text: string)
    ensures PlainPath(Resolve(text)) <==> Dotless(text)
  {
    ResolveGood(text);
  }

  lemma CanonicalDotless(key: string)
    requires Canonical(key)
    ensures OneLine(key) && Dotless(key) && Resolve(key) == PathOf(key) && KeyOf(Resolve(key)) == key && !Absolute(key)
  {
    CanonicalPath(key);
    assert PathOf(key)[0] in PathOf(key);
  }

  /** The name of a place in the tree is its own normal form. */
  lemma PlaceName(p: Path)
    requires PlainPath(p)
    ensures Resolve(KeyOf(p)) == p && Dotless(KeyOf(p)) && TrimSlashes(KeyOf(p)) == KeyOf(p) && !Absolute(KeyOf(p))
    ensures KeyOf(p) == "" <==> p == []
  {
    KeyRoundTrip(p);
    if p != [] { KeyEnds(p); }
  }

  lemma {:induction false} KeyEnds(p: Path)
    requires GoodPath(p) && p != []
    ensures var k := KeyOf(p); k != "" && k[0] != '/' && k[|k| - 1] != '/'
  {
    GoodTail(p);
    if |p| > 1 { KeyEnds(p[1..]); }
  }

  /** The key of an entry is the key of its directory, a slash and its name. */
  lemma {:induction false} KeySnoc(p: Path, name: string)
    ensures KeyOf(p + [name]) == if p == [] then name else KeyOf(p) + "/" + name
  {
    if |p| == 0 {
      assert p + [name] == [name];
    } else {
      assert (p + [name])[1..] == p[1..] + [name];
      KeySnoc(p[1..], name);
    }
  }

  // ---- the parts of a key, empty ones included

  lemma {:induction false} SplitSnoc(s: string)
    ensures Split(s + ['/'], '/') == Split(s, '/') + [""]
  {
    if s == "" {
      assert (s + ['/'])[1..] == "";
    } else {
      assert (s + ['/'])[1..] == s[1..] + ['/'];
      SplitSnoc(s[1..]);
    }
  }

  lemma {:induction false} StrippedParts(s: string)
    ensures Resolve(StripSlashes(s)) == Resolve(s)
    ensures var t := StripSlashes(s); t != "" ==> t[0] != '/' && t[|t| - 1] != '/'
    decreases |s|
  {
    if s != "" && s[0] == '/' {
      StrippedParts(s[1..]);
      NonEmptyCons("", Split(s[1..], '/'));
    } else if s != "" && s[|s| - 1] == '/' {
      StrippedParts(s[..|s| - 1]);
      LastSlash(s);
    }
  }

  lemma LastSlash(s: string)
    requires s != "" && s[|s| - 1] == '/'
    ensures Resolve(s[..|s| - 1]) == Resolve(s)
  {
    var t := s[..|s| - 1];
    assert s == t + ['/'];
    SplitSnoc(t);
    NonEmptyJoined(Split(t, '/'), [""]);
    NonEmptyOne("");
  }

  lemma {:induction false} EndParts(s: string)
    requires s != ""
    ensures s[0] != '/' ==> Split(s, '/')[0] != ""
    ensures s[|s| - 1] != '/' ==> var parts := Split(s, '/'); parts[|parts| - 1] != ""
  {
    if |s| > 1 {
      EndParts(s[1..]);
    } else {
      assert s[1..] == "";
    }
  }

  /** The directories that iter_parent_dirs yields, as places: each is the one before it or one level deeper, the first is
      one deep, and the key lies directly in the last. */
  lemma ParentPlaces(key: string, i: nat)
    requires i < |Split(StripSlashes(key), '/')| - 1
    ensures var parts := Split(StripSlashes(key), '/');
      var before, d := NonEmpty(parts[..i]), NonEmpty(parts[..i + 1]);
      Resolve(Join(parts[..i + 1], '/')) == d && IsAncestor(d, Resolve(key)) && (d == before || Parent(d) == before)
  {
    var s := StripSlashes(key);
    var parts := Split(s, '/');
    StrippedParts(key);
    EndParts(s);
    PartsUpTo(s, i);
    FirstParts(parts, i);
    PartsApart(parts, i + 1);
    var d, below := NonEmpty(parts[..i + 1]), NonEmpty(parts[i + 1..]);
    NonEmptyHas(parts[..i + 1], 0);
    NonEmptyHas(parts[i + 1..], |parts| - i - 2);
    assert Resolve(key) == d + below && (d + below)[..|d|] == d;
  }

  /** Some of the parts, joined, name what they name. */
  lemma PartsUpTo(s: string, i: nat)
    requires i < |Split(s, '/')|
    ensures Resolve(Join(Split(s, '/')[..i + 1], '/')) == NonEmpty(Split(s, '/')[..i + 1])
  {
    var parts := Split(s, '/');
    JoinSplit(s, '/');
    forall p | p in parts[..i + 1] ensures '/' !in p { assert p in parts; }
    SplitJoin(parts[..i + 1], '/');
  }

  lemma PartsApart(parts: seq<string>, i: nat)
    requires i <= |parts|
    ensures NonEmpty(parts) == NonEmpty(parts[..i]) + NonEmpty(parts[i..])
  {
    assert parts == parts[..i] + parts[i..];
    NonEmptyJoined(parts[..i], parts[i..]);
  }

  lemma NonEmptySnoc(parts: seq<string>, last: string)
    ensures NonEmpty(parts + [last]) == NonEmpty(parts) + if last == "" then [] else [last]
  {
    NonEmptyJoined(parts, [last]);
    assert [last][1..] == [];
  }

  lemma ParentOfSnoc(p: Path, last: string)
    ensures p + [last] != [] && Parent(p + [last]) == p
  {
  }

  /** One more part goes one level deeper, or nowhere if it is empty. */
  lemma FirstParts(parts: seq<string>, i: nat)
    requires i < |parts|
    ensures var before, d := NonEmpty(parts[..i]), NonEmpty(parts[..i + 1]);
      if parts[i] == "" then d == before else d != [] && Parent(d) == before
  {
    assert parts[..i + 1] == parts[..i] + [parts[i]];
    NonEmptySnoc(parts[..i], parts[i]);
    ParentOfSnoc(NonEmpty(parts[..i]), parts[i]);
    assert NonEmpty(parts[..i]) + [] == NonEmpty(parts[..i]);
  }

  lemma {:induction false} NonEmptyHas(parts: seq<string>, i: nat)
    requires i < |parts| && parts[i] != ""
    ensures NonEmpty(parts) != []
  {
    if i > 0 { NonEmptyHas(parts[1..], i - 1); }
  }

  /** After the last directory only the name itself is left. */
  lemma LastPlace(key: string)
    ensures var parts := Split(StripSlashes(key), '/'); var p := Resolve(key);
      if p == [] then |parts| == 1 else NonEmpty(parts[..|parts| - 1]) == Parent(p)
  {
    var s := StripSlashes(key);
    StrippedParts(key);
    if s != "" {
      EndParts(s);
      LastPart(Split(s, '/'));
    }
  }

  lemma LastPart(parts: seq<string>)
    requires parts != [] && parts[|parts| - 1] != ""
    ensures NonEmpty(parts) != [] && NonEmpty(parts[..|parts| - 1]) == Parent(NonEmpty(parts))
  {
    var before, last := parts[..|parts| - 1], parts[|parts| - 1];
    PartSnoc(before, last);
    MostAndLast(parts);
  }

  lemma MostAndLast(parts: seq<string>)
    requires parts != []
    ensures parts[..|parts| - 1] + [parts[|parts| - 1]] == parts
  {
  }

  lemma PartSnoc(before: seq<string>, last: string)
    requires last != ""
    ensures NonEmpty(before + [last]) != [] && Parent(NonEmpty(before + [last])) == NonEmpty(before)
  {
    NonEmptySnoc(before, last);
    ParentOfSnoc(NonEmpty(before), last);
  }

  /** The directories are named from the working directory on. */
  lemma RelativeParent(key: string, i: nat)
    requires i < |Split(StripSlashes(key), '/')| - 1
    ensures !Absolute(Join(Split(StripSlashes(key), '/')[..i + 1], '/'))
  {
    var s := StripSlashes(key);
    var parts := Split(s, '/');
    StrippedParts(key);
    if s != "" { EndParts(s); }
    JoinSplit(s, '/');
    var first := parts[0];
    assert first in parts && first != "" && first[0] in first && first[0] != '/';
    FirstOfJoin(parts[..i + 1], '/');
  }

  lemma FirstOfJoin(parts: seq<string>, sep: char)
    requires parts != [] && parts[0] != ""
    ensures Join(parts, sep) != "" && Join(parts, sep)[0] == parts[0][0]
  {
  }

  lemma DotlessParent(key: string, i: nat)
    requires Dotless(key) && i < |Split(StripSlashes(key), '/')| - 1
    ensures Dotless(Join(Split(StripSlashes(key), '/')[..i + 1], '/'))
  {
    ParentPlaces(key, i);
    var d := Resolve(Join(Split(StripSlashes(key), '/')[..i + 1], '/'));
    forall n | n in d ensures !DotName(n) { assert n in Resolve(key)[..|d|]; }
  }
}
