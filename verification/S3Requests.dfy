/** The requests of the S3 backend: object and listing URLs, and the canonical text that gets signed. */
module S3Requests {
  import opened Basics
  import opened Percent
  import opened S3Url
  import Lexicographic
  import Utf8

  /** The configuration that names requests; `endpoint` is the one given or the default service. */
  datatype S3Blob = S3Blob(bucket: string, prefix: string, endpoint: string) {

    /** The configured prefix with the slash that separates it from keys. */
    function RawPrefix(): string {
      if prefix == "" || prefix[|prefix| - 1] == '/' then prefix else prefix + "/"
    }

    function FullKey(key: string): string {
      if prefix != "" && prefix[|prefix| - 1] != '/' then
        if key != "" then prefix + "/" + key else prefix
      else if prefix != "" then
        if key != "" then prefix + key else prefix
      else key
    }

    function ObjectUrl(key: string): string {
      TrimSlashes(endpoint) + "/" + bucket + "/" + Quote(FullKey(key), OBJECT_SAFE)
    }

    function ListPrefix(scanned: string): string {
      if prefix != "" then
        if prefix[|prefix| - 1] != '/' then prefix + "/" + scanned else prefix + scanned
      else scanned
    }

    function ListUrl(scanned: string): string {
      TrimSlashes(endpoint) + "/" + bucket + "?list-type=2&prefix=" + Quote(ListPrefix(scanned), "")
    }

    function NextPageUrl(scanned: string, token: string): string {
      ListUrl(scanned) + "&continuation-token=" + Quote(token, "")
    }

    function StripPrefix(key: string): string {
      if prefix == "" then key
      else
        var raw := if prefix[|prefix| - 1] != '/' then prefix + "/" else prefix;
        if StartsWith(key, raw) then key[|raw|..] else key
    }

    /** The endpoint names a scheme and a host and nothing else. */
    predicate HostOnly(scheme: string, host: string) {
      TrimSlashes(endpoint) == scheme + ("://" + host) &&
      Lower(scheme) == scheme && ':' !in scheme &&
      '/' !in host && '?' !in host && '#' !in host && ValidBucket(bucket)
    }

    /** Keys and scan prefixes live under the same raw prefix, and stripping takes it off again. */
    lemma UnderRawPrefix(key: string)
      ensures ListPrefix(key) == RawPrefix() + key
      ensures key != "" ==> FullKey(key) == RawPrefix() + key
      ensures StripPrefix(RawPrefix() + key) == key
    {
      assert (RawPrefix() + key)[|RawPrefix()|..] == key;
    }

    function ObjectPath(key: string): string {
      "/" + bucket + "/" + Quote(FullKey(key), OBJECT_SAFE)
    }

    lemma PathPlain(key: string)
      requires ValidBucket(bucket)
      ensures '?' !in ObjectPath(key) && '#' !in ObjectPath(key)
      ensures '?' !in "/" + bucket && '#' !in "/" + bucket
    {
      BucketIsHostname(bucket);
      QuoteHides(FullKey(key), OBJECT_SAFE, '?');
      QuoteHides(FullKey(key), OBJECT_SAFE, '#');
      NowhereIn('?', "/" + bucket, Quote(FullKey(key), OBJECT_SAFE));
      NowhereIn('#', "/" + bucket, Quote(FullKey(key), OBJECT_SAFE));
    }

    static lemma NowhereIn(c: char, a: string, b: string)
      requires c !in a && c != '/' && c !in b
      ensures c !in a + "/" + b
    {
    }

    lemma UrlAt(scheme: string, host: string, tail: string)
      requires HostOnly(scheme, host) && tail != "" && tail[0] == '/'
      ensures UrlSplit(TrimSlashes(endpoint) + tail)
           == SplitUrl(scheme, host, PathAndQuery(tail).0, PathAndQuery(tail).1)
    {
      Regrouped(scheme, host, tail);
      assert UrlSplit(scheme + ("://" + (host + tail)))
          == SplitUrl(scheme, host, PathAndQuery(tail).0, PathAndQuery(tail).1) by {
        UrlSplitPrinted(scheme, host, tail);
      }
    }

    lemma ObjectUrlSplit(scheme: string, host: string, key: string)
      requires HostOnly(scheme, host)
      ensures UrlSplit(ObjectUrl(key)) == SplitUrl(scheme, host, ObjectPath(key), "")
    {
      var path := ObjectPath(key);
      assert ObjectUrl(key) == TrimSlashes(endpoint) + path;
      assert PathAndQuery(path) == (path, "") by {
        PathPlain(key);
        PathAndQueryPrinted(path, "");
      }
      UrlAt(scheme, host, path);
    }

    /** The parameters of a listing request: names, and the values meant. */
    function ListTexts(scanned: string, token: Option<string>): seq<Pair> {
      [("list-type", "2"), ("prefix", ListPrefix(scanned))]
      + (if token.Some? then [("continuation-token", token.value)] else [])
    }

    function PageUrl(scanned: string, token: Option<string>): string {
      if token.Some? then NextPageUrl(scanned, token.value) else ListUrl(scanned)
    }

    lemma {:induction false} PageUrlPrinted(scanned: string, token: Option<string>)
      ensures PageUrl(scanned, token)
           == TrimSlashes(endpoint) + ("/" + bucket) + ("?" + EscapedQuery(ListTexts(scanned, token)))
    {
      var p, q := ("list-type", "2"), ("prefix", ListPrefix(scanned));
      ListUrlPrinted(scanned);
      if token.Some? {
        QueryGrows(TrimSlashes(endpoint) + ("/" + bucket), p, q, ("continuation-token", token.value));
        TokenText(Quote(token.value, ""));
        assert ListTexts(scanned, token) == [p, q, ("continuation-token", token.value)];
        assert PageUrl(scanned, token) == ListUrl(scanned) + ("&continuation-token=" + Quote(token.value, ""));
      } else {
        assert ListTexts(scanned, token) == [p, q];
      }
    }

    lemma ListUrlPrinted(scanned: string)
      ensures ListUrl(scanned) == TrimSlashes(endpoint) + ("/" + bucket)
           + ("?" + EscapedQuery([("list-type", "2"), ("prefix", ListPrefix(scanned))]))
    {
      PrintTwo(("list-type", "2"), ("prefix", ListPrefix(scanned)));
      DigitKept();
      ListQueryText();
      Spliced(TrimSlashes(endpoint) + ("/" + bucket), Parameter("list-type", "2"), "prefix", Quote(ListPrefix(scanned), ""));
      LeftToRight(TrimSlashes(endpoint), bucket, ListPrefix(scanned));
    }

    lemma LeftToRight(start: string, bucket: string, scanned: string)
      ensures start + "/" + bucket + "?list-type=2&prefix=" + Quote(scanned, "")
           == start + ("/" + bucket) + "?list-type=2&prefix=" + Quote(scanned, "")
    {
      assert start + "/" + bucket == start + ("/" + bucket);
    }

    lemma PageUrlSplit(scheme: string, host: string, scanned: string, token: Option<string>)
      requires HostOnly(scheme, host)
      ensures UrlSplit(PageUrl(scanned, token))
           == SplitUrl(scheme, host, "/" + bucket, EscapedQuery(ListTexts(scanned, token)))
    {
      var texts := ListTexts(scanned, token);
      var query := EscapedQuery(texts);
      var tail := "/" + bucket + ("?" + query);
      assert PageUrl(scanned, token) == TrimSlashes(endpoint) + tail by {
        PageUrlPrinted(scanned, token);
        ConcatAssociates(TrimSlashes(endpoint), "/" + bucket, "?" + query);
      }
      assert PathAndQuery(tail) == ("/" + bucket, query) by {
        ListNames(scanned, token);
        EscapedPrintable(texts);
        PathPlain("");
        PathAndQueryPrinted("/" + bucket, query);
      }
      UrlAt(scheme, host, tail);
    }

    lemma ListNames(scanned: string, token: Option<string>)
      ensures ListTexts(scanned, token) != [] && NamesUnreserved(ListTexts(scanned, token))
    {
      forall p | p in ListTexts(scanned, token) ensures forall c :: c in p.0 ==> Unreserved(c) {
        if p.0 == "list-type" { ListTypeName(); }
        else if p.0 == "prefix" { PrefixName(); }
        else { TokenName(); }
      }
    }

    /** The service reads from the URL the very object name that the client meant. */
    lemma ObjectNameReceived(scheme: string, host: string, key: string)
      requires HostOnly(scheme, host)
      ensures Unquote(UrlSplit(ObjectUrl(key)).path) == "/" + bucket + "/" + FullKey(key)
    {
      assert UrlSplit(ObjectUrl(key)).path == ObjectPath(key) by { ObjectUrlSplit(scheme, host, key); }
      PathReceived(key);
    }

    lemma PathReceived(key: string)
      requires ValidBucket(bucket)
      ensures Unquote(ObjectPath(key)) == "/" + bucket + "/" + FullKey(key)
    {
      PathIsQuoted(key);
      UnquoteQuote("/" + bucket + "/" + FullKey(key), OBJECT_SAFE);
    }

    lemma PathIsQuoted(key: string)
      requires ValidBucket(bucket)
      ensures ObjectPath(key) == Quote("/" + bucket + "/" + FullKey(key), OBJECT_SAFE)
      ensures "/" + bucket == Quote("/" + bucket, OBJECT_SAFE)
    {
      QuoteIdentity("/" + bucket, OBJECT_SAFE);
      QuoteIdentity("/" + bucket + "/", OBJECT_SAFE);
      QuoteAppend("/" + bucket + "/", FullKey(key), OBJECT_SAFE);
    }

    /** The service reads from the URL the prefix and the token that the client meant. */
    lemma {:induction false} ListingReceived(scheme: string, host: string, scanned: string, token: Option<string>)
      requires HostOnly(scheme, host)
      ensures ParseQuery(UrlSplit(PageUrl(scanned, token)).query) == ListTexts(scanned, token)
    {
      PageUrlSplit(scheme, host, scanned, token);
      ListNames(scanned, token);
      EscapedReadBack(ListTexts(scanned, token));
    }
  }

  lemma Regrouped(scheme: string, host: string, tail: string)
    ensures scheme + ("://" + host) + tail == scheme + ("://" + (host + tail))
  {}

  lemma ListQueryText()
    ensures "?list-type=2&prefix=" == "?" + (Parameter("list-type", "2") + ['&'] + ("prefix" + "="))
  {}

  lemma Spliced(start: string, first: string, name: string, value: string)
    ensures start + ("?" + (first + ['&'] + (name + "="))) + value
         == start + ("?" + (first + ['&'] + Parameter(name, value)))
  {
    assert first + ['&'] + (name + "=") + value == first + ['&'] + Parameter(name, value);
  }

  lemma ConcatAssociates(a: string, b: string, c: string)
    ensures a + b + c == a + (b + c)
  {}

  lemma ListTypeName()
    ensures forall c :: c in "list-type" ==> Unreserved(c)
  {}

  lemma PrefixName()
    ensures forall c :: c in "prefix" ==> Unreserved(c)
  {}

  lemma TokenName()
    ensures forall c :: c in "continuation-token" ==> Unreserved(c)
  {}

  lemma TokenText(value: string)
    ensures "&continuation-token=" + value == ['&'] + Parameter("continuation-token", value)
  {}

  lemma QueryGrows(start: string, p: Pair, q: Pair, r: Pair)
    ensures start + ("?" + EscapedQuery([p, q])) + (['&'] + Parameter(r.0, Quote(r.1, "")))
         == start + ("?" + EscapedQuery([p, q, r]))
  {
    PrintTwo(p, q);
    PrintThree(p, q, r);
  }

  lemma DigitKept()
    ensures Quote("2", "") == "2"
  {
    QuoteIdentity("2", "");
  }

  // ---- queries with escaped values

  predicate NamesUnreserved(texts: seq<Pair>) {
    forall p :: p in texts ==> forall c :: c in p.0 ==> Unreserved(c)
  }

  function Escaped(texts: seq<Pair>): seq<Pair> {
    if texts == [] then [] else [(texts[0].0, Quote(texts[0].1, ""))] + Escaped(texts[1..])
  }

  function EscapedQuery(texts: seq<Pair>): string {
    Join(Printed(Escaped(texts)), '&')
  }

  lemma QueryOne(p: Pair)
    ensures EscapedQuery([p]) == Parameter(p.0, Quote(p.1, ""))
  {
    assert Escaped([p]) == [(p.0, Quote(p.1, ""))];
    assert Printed(Escaped([p])) == [Parameter(p.0, Quote(p.1, ""))];
  }

  lemma QueryCons(p: Pair, rest: seq<Pair>)
    requires rest != []
    ensures EscapedQuery([p] + rest) == Parameter(p.0, Quote(p.1, "")) + ['&'] + EscapedQuery(rest)
  {
    assert ([p] + rest)[1..] == rest;
    assert Escaped([p] + rest)[1..] == Escaped(rest);
    assert Printed(Escaped([p] + rest))[1..] == Printed(Escaped(rest));
    assert Escaped(rest) != [] && Printed(Escaped(rest)) != [];
  }

  lemma PrintTwo(p: Pair, q: Pair)
    ensures EscapedQuery([p, q]) == Parameter(p.0, Quote(p.1, "")) + ['&'] + Parameter(q.0, Quote(q.1, ""))
  {
    QueryOne(q);
    QueryCons(p, [q]);
    assert [p] + [q] == [p, q];
  }

  lemma PrintThree(p: Pair, q: Pair, r: Pair)
    ensures EscapedQuery([p, q, r])
         == Parameter(p.0, Quote(p.1, "")) + ['&'] + Parameter(q.0, Quote(q.1, "")) + ['&'] + Parameter(r.0, Quote(r.1, ""))
  {
    PrintTwo(q, r);
    QueryCons(p, [q, r]);
    assert [p] + [q, r] == [p, q, r];
  }

  lemma {:induction false} EscapedParameters(texts: seq<Pair>)
    requires NamesUnreserved(texts)
    ensures |Escaped(texts)| == |texts|
    ensures Hidden(Escaped(texts)) && DecodedValues(Escaped(texts)) == texts
  {
    if texts != [] {
      assert texts[0] in texts;
      EscapedParameter(texts[0].0, texts[0].1);
      EscapedParameters(texts[1..]);
      var first, rest := [(texts[0].0, Quote(texts[0].1, ""))], Escaped(texts[1..]);
      DecodedValuesAppend(first, rest);
      assert Escaped(texts) == first + rest && texts == [texts[0]] + texts[1..];
    }
  }

  lemma EscapedParameter(name: string, value: string)
    requires forall c :: c in name ==> Unreserved(c)
    ensures Hidden([(name, Quote(value, ""))]) && DecodedValues([(name, Quote(value, ""))]) == [(name, value)]
  {
    QuoteHides(value, "", '&');
    QuoteHides(value, "", '#');
    DecodeQuoted(value, "");
    assert [(name, Quote(value, ""))][1..] == [];
  }

  lemma EscapedPrintable(texts: seq<Pair>)
    requires NamesUnreserved(texts)
    ensures '#' !in EscapedQuery(texts)
  {
    EscapedParameters(texts);
    PrintedPieces(Escaped(texts), '#');
    JoinElements(Printed(Escaped(texts)), '&', '#');
  }

  /** A query of escaped values is read back as the values meant. */
  lemma EscapedReadBack(texts: seq<Pair>)
    requires texts != [] && NamesUnreserved(texts)
    ensures ParseQuery(EscapedQuery(texts)) == texts
  {
    EscapedParameters(texts);
    ParsePrinted(Escaped(texts));
  }

  // ---- what gets signed

  const SIGNED_SAFE := "-_.~"

  predicate PairLess(p: Pair, q: Pair) {
    Lexicographic.Less(Utf8.Points(p.0), Utf8.Points(q.0)) ||
    (p.0 == q.0 && Lexicographic.Less(Utf8.Points(p.1), Utf8.Points(q.1)))
  }

  predicate NoneLess(s: seq<Pair>) {
    forall i, j :: 0 <= i < j < |s| ==> !PairLess(s[j], s[i])
  }

  /** A text comes before another by the code points where they first differ, or as its beginning. */
  ghost predicate Precedes(a: string, b: string) {
    exists n :: 0 <= n <= |a| && n < |b| && a[..n] == b[..n] && (n == |a| || a[n] as int < b[n] as int)
  }

  /** Ascending by name, and by value under one name. */
  ghost predicate SortedPairs(s: seq<Pair>) {
    forall i, j :: 0 <= i < j < |s| ==>
      s[i] == s[j] || Precedes(s[i].0, s[j].0) || (s[i].0 == s[j].0 && Precedes(s[i].1, s[j].1))
  }

  function Insert(p: Pair, s: seq<Pair>): seq<Pair> {
    if s == [] || PairLess(p, s[0]) then [p] + s else [s[0]] + Insert(p, s[1..])
  }

  /** Python's `sorted` on pairs of texts. */
  function Sorted(s: seq<Pair>): seq<Pair> {
    if s == [] then [] else Insert(s[0], Sorted(s[1..]))
  }

  function QuotedPairs(pairs: seq<Pair>): seq<Pair> {
    if pairs == [] then []
    else [(Quote(pairs[0].0, SIGNED_SAFE), Quote(pairs[0].1, SIGNED_SAFE))] + QuotedPairs(pairs[1..])
  }

  function CanonicalUri(url: string): string {
    var path := UrlSplit(url).path;
    Quote(Unquote(if path == "" then "/" else path), OBJECT_SAFE)
  }

  function CanonicalQuery(url: string): string {
    Join(Printed(Sorted(QuotedPairs(ParseQuery(UrlSplit(url).query)))), '&')
  }

  lemma PairTransitive(p: Pair, q: Pair, r: Pair)
    ensures PairLess(p, q) && PairLess(q, r) ==> PairLess(p, r)
    ensures PairLess(p, q) ==> !PairLess(q, p)
    ensures !PairLess(q, p) && !PairLess(r, q) ==> !PairLess(r, p)
  {
    TextOrder(p.0, q.0, r.0);
    TextOrder(p.1, q.1, r.1);
  }

  /** Comparison of texts by code points is a strict total order. */
  lemma TextOrder(a: string, b: string, c: string)
    ensures var x, y, z := Utf8.Points(a), Utf8.Points(b), Utf8.Points(c);
      (Lexicographic.Less(x, y) && Lexicographic.Less(y, z) ==> Lexicographic.Less(x, z)) &&
      (a == b || Lexicographic.Less(x, y) || Lexicographic.Less(y, x)) &&
      (b == c || Lexicographic.Less(y, z) || Lexicographic.Less(z, y)) &&
      (a == c || Lexicographic.Less(x, z) || Lexicographic.Less(z, x)) &&
      !Lexicographic.Less(x, x) && !Lexicographic.Less(y, y) && !Lexicographic.Less(z, z) &&
      !(Lexicographic.Less(x, y) && Lexicographic.Less(y, x)) && !(Lexicographic.Less(y, z) && Lexicographic.Less(z, y)) &&
      !(Lexicographic.Less(x, z) && Lexicographic.Less(z, x)) &&
      (Lexicographic.Less(z, y) && Lexicographic.Less(y, x) ==> Lexicographic.Less(z, x))
  {
    var x, y, z := Utf8.Points(a), Utf8.Points(b), Utf8.Points(c);
    Lexicographic.Irreflexive(x);
    Lexicographic.Irreflexive(y);
    Lexicographic.Irreflexive(z);
    Lexicographic.Total(x, y);
    Lexicographic.Total(y, z);
    Lexicographic.Total(x, z);
    if x == y { Utf8.PointsInjective(a, b); }
    if y == z { Utf8.PointsInjective(b, c); }
    if x == z { Utf8.PointsInjective(a, c); }
    if Lexicographic.Less(x, y) && Lexicographic.Less(y, z) { Lexicographic.Transitive(x, y, z); }
    if Lexicographic.Less(z, y) && Lexicographic.Less(y, x) { Lexicographic.Transitive(z, y, x); }
    if Lexicographic.Less(x, y) { Lexicographic.Asymmetric(x, y); }
    if Lexicographic.Less(y, z) { Lexicographic.Asymmetric(y, z); }
    if Lexicographic.Less(x, z) { Lexicographic.Asymmetric(x, z); }
  }

  lemma {:induction false} InsertOrdered(p: Pair, s: seq<Pair>)
    requires NoneLess(s)
    ensures NoneLess(Insert(p, s))
  {
    if s != [] {
      if PairLess(p, s[0]) {
        forall j | 0 <= j < |s| ensures !PairLess(s[j], p) { PairTransitive(p, s[0], s[j]); }
      } else {
        InsertOrdered(p, s[1..]);
        InsertPermutes(p, s[1..]);
        var r := Insert(p, s[1..]);
        forall j | 0 <= j < |r| ensures !PairLess(r[j], s[0]) {
          assert r[j] in multiset(r);
          if r[j] != p { assert r[j] in s[1..]; }
        }
      }
    }
  }

  lemma {:induction false} InsertPermutes(p: Pair, s: seq<Pair>)
    ensures multiset(Insert(p, s)) == multiset(s) + multiset{p}
  {
    if s != [] {
      assert s == [s[0]] + s[1..];
      InsertPermutes(p, s[1..]);
    }
  }

  lemma {:induction false} SortingOrders(s: seq<Pair>)
    ensures NoneLess(Sorted(s)) && multiset(Sorted(s)) == multiset(s)
  {
    if s != [] {
      InsertPermutes(s[0], Sorted(s[1..]));
      SortingOrders(s[1..]);
      InsertOrdered(s[0], Sorted(s[1..]));
      assert s == [s[0]] + s[1..];
    }
  }

  lemma PointsPrecede(a: string, b: string)
    ensures Lexicographic.Less(Utf8.Points(a), Utf8.Points(b)) <==> Precedes(a, b)
  {
    Utf8.PointsAre(a);
    Utf8.PointsAre(b);
    Lexicographic.LessMeans(Utf8.Points(a), Utf8.Points(b));
    forall n | 0 <= n <= |a| && n <= |b| ensures Utf8.Points(a)[..n] == Utf8.Points(b)[..n] <==> a[..n] == b[..n] {
      PointsUpTo(Utf8.Points(a), Utf8.Points(b), a, b, n);
    }
  }

  lemma PointsUpTo(x: seq<int>, y: seq<int>, a: string, b: string, n: nat)
    requires |x| == |a| && (forall i :: 0 <= i < |a| ==> x[i] == a[i] as int) && n <= |a|
    requires |y| == |b| && (forall i :: 0 <= i < |b| ==> y[i] == b[i] as int) && n <= |b|
    ensures x[..n] == y[..n] <==> a[..n] == b[..n]
  {
    if x[..n] == y[..n] {
      forall i | 0 <= i < n ensures a[..n][i] == b[..n][i] { assert x[..n][i] == y[..n][i]; }
    }
    if a[..n] == b[..n] {
      forall i | 0 <= i < n ensures x[..n][i] == y[..n][i] { assert a[..n][i] == b[..n][i]; }
    }
  }

  /** Sorting permutes and sorts. */
  lemma {:induction false} SortedIsSortedPermutation(s: seq<Pair>)
    ensures SortedPairs(Sorted(s)) && multiset(Sorted(s)) == multiset(s)
  {
    SortingOrders(s);
    var r := Sorted(s);
    forall i, j | 0 <= i < j < |r|
      ensures r[i] == r[j] || Precedes(r[i].0, r[j].0) || (r[i].0 == r[j].0 && Precedes(r[i].1, r[j].1))
    {
      TextOrder(r[i].0, r[j].0, r[j].0);
      TextOrder(r[i].1, r[j].1, r[j].1);
      PointsPrecede(r[i].0, r[j].0);
      PointsPrecede(r[i].1, r[j].1);
    }
  }

  /** The canonical path of an object request is its path, byte for byte; so is that of a listing. */
  lemma {:induction false} SignedPathIsSentPath(b: S3Blob, scheme: string, host: string, key: string, scanned: string,
                                               token: Option<string>)
    requires b.HostOnly(scheme, host)
    ensures CanonicalUri(b.ObjectUrl(key)) == UrlSplit(b.ObjectUrl(key)).path
    ensures CanonicalUri(b.PageUrl(scanned, token)) == UrlSplit(b.PageUrl(scanned, token)).path
  {
    assert UrlSplit(b.ObjectUrl(key)).path == b.ObjectPath(key) by { b.ObjectUrlSplit(scheme, host, key); }
    assert UrlSplit(b.PageUrl(scanned, token)).path == "/" + b.bucket by { b.PageUrlSplit(scheme, host, scanned, token); }
    b.PathIsQuoted(key);
    RequotedPath(b.ObjectPath(key), "/" + b.bucket + "/" + b.FullKey(key));
    RequotedPath("/" + b.bucket, "/" + b.bucket);
    assert |b.ObjectPath(key)| > 0 && |"/" + b.bucket| > 0;
  }

  /** A URL without a path is signed as the path of a single slash. */
  lemma NoPathIsSlash(url: string)
    requires UrlSplit(url).path == ""
    ensures CanonicalUri(url) == "/"
  {
    QuoteIdentity("/", OBJECT_SAFE);
    UnquoteQuote("/", OBJECT_SAFE);
  }

  lemma RequotedPath(path: string, text: string)
    requires path == Quote(text, OBJECT_SAFE)
    ensures Quote(Unquote(path), OBJECT_SAFE) == path
  {
    UnquoteQuote(text, OBJECT_SAFE);
  }

  /** Signing escapes the values exactly as sending does. */
  lemma {:induction false} SignedAsEscaped(texts: seq<Pair>)
    requires NamesUnreserved(texts)
    ensures QuotedPairs(texts) == Escaped(texts)
  {
    if texts != [] {
      assert texts[0] in texts;
      SignedAsEscaped(texts[1..]);
      QuoteIdentity(texts[0].0, SIGNED_SAFE);
      SafeUnreserved(texts[0].1, SIGNED_SAFE);
    }
  }

  /** The canonical query is the sorted permutation of the parameters sent, each with the very text that was sent. */
  lemma {:induction false} SignedQueryIsSentQuery(b: S3Blob, scheme: string, host: string, scanned: string, token: Option<string>)
    requires b.HostOnly(scheme, host)
    ensures var sent := Escaped(b.ListTexts(scanned, token));
      UrlSplit(b.PageUrl(scanned, token)).query == Join(Printed(sent), '&') &&
      exists signed :: CanonicalQuery(b.PageUrl(scanned, token)) == Join(Printed(signed), '&') &&
                       SortedPairs(signed) && multiset(signed) == multiset(sent)
  {
    var texts := b.ListTexts(scanned, token);
    var sent := Escaped(texts);
    var query := UrlSplit(b.PageUrl(scanned, token)).query;
    assert query == EscapedQuery(texts) by { b.PageUrlSplit(scheme, host, scanned, token); }
    assert ParseQuery(query) == texts by { b.ListingReceived(scheme, host, scanned, token); }
    assert QuotedPairs(texts) == sent by {
      b.ListNames(scanned, token);
      SignedAsEscaped(texts);
    }
    SortedIsSortedPermutation(sent);
    var signed := Sorted(sent);
    assert CanonicalQuery(b.PageUrl(scanned, token)) == Join(Printed(signed), '&');
  }

  lemma FirstDiffers(p: Pair, q: Pair)
    requires p.0 != "" && q.0 != "" && p.0[0] < q.0[0]
    ensures PairLess(p, q) && !PairLess(q, p)
  {
    assert Utf8.Points(p.0)[0] < Utf8.Points(q.0)[0];
  }

  lemma SortedTwo(p: Pair, q: Pair)
    requires PairLess(p, q) && !PairLess(q, p)
    ensures Sorted([p, q]) == [p, q]
  {
    assert [p, q][1..] == [q] && [q][1..] == [] && Insert(q, []) == [q];
    assert Sorted([q]) == [q] && [q] + [] == [q];
  }

  lemma SortedThree(p: Pair, q: Pair, r: Pair)
    requires PairLess(r, p) && PairLess(p, q) && PairLess(r, q) && !PairLess(p, r) && !PairLess(q, p) && !PairLess(q, r)
    ensures Sorted([p, q, r]) == [r, p, q]
  {
    assert [p, q, r][1..] == [q, r] && [q, r][1..] == [r] && [r][1..] == [];
    assert Sorted([r]) == [r] && Insert(q, []) == [q];
    assert Sorted([q, r]) == Insert(q, [r]) == [r, q];
    assert [r, q][1..] == [q] && Insert(p, [q]) == [p, q];
  }

  /** The canonical query of a listing request, letter by letter. */
  lemma {:induction false} SignedListing(b: S3Blob, scheme: string, host: string, scanned: string, token: Option<string>)
    requires b.HostOnly(scheme, host)
    ensures CanonicalQuery(b.PageUrl(scanned, token)) ==
      (if token.Some? then "continuation-token=" + Quote(token.value, "") + "&" else "") +
      ("list-type=2&prefix=" + Quote(b.ListPrefix(scanned), ""))
  {
    SignedTexts(b, scheme, host, scanned, token);
    if token.Some? {
      ThreeSigned(b.ListPrefix(scanned), token.value);
    } else {
      TwoSigned(b.ListPrefix(scanned));
    }
  }

  lemma {:induction false} SignedTexts(b: S3Blob, scheme: string, host: string, scanned: string, token: Option<string>)
    requires b.HostOnly(scheme, host)
    ensures CanonicalQuery(b.PageUrl(scanned, token)) == Join(Printed(Sorted(Escaped(b.ListTexts(scanned, token)))), '&')
  {
    assert ParseQuery(UrlSplit(b.PageUrl(scanned, token)).query) == b.ListTexts(scanned, token) by {
      b.ListingReceived(scheme, host, scanned, token);
    }
    b.ListNames(scanned, token);
    SignedAsEscaped(b.ListTexts(scanned, token));
  }

  lemma TwoSigned(text: string)
    ensures Join(Printed(Sorted(Escaped([("list-type", "2"), ("prefix", text)] + []))), '&')
         == "" + ("list-type=2&prefix=" + Quote(text, ""))
  {
    var prefix := Quote(text, "");
    var p, q := ("list-type", "2"), ("prefix", prefix);
    assert [("list-type", "2"), ("prefix", text)] + [] == [("list-type", "2"), ("prefix", text)];
    DigitKept();
    EscapedTwo("2", text);
    InitialsDiffer();
    FirstDiffers(p, q);
    SortedTwo(p, q);
    PairPrinted(p, q);
    ListingText("", prefix);
  }

  lemma ThreeSigned(text: string, token: string)
    ensures Join(Printed(Sorted(Escaped([("list-type", "2"), ("prefix", text)] + [("continuation-token", token)]))), '&')
         == "continuation-token=" + Quote(token, "") + "&" + ("list-type=2&prefix=" + Quote(text, ""))
  {
    DigitKept();
    EscapedThree("2", text, token);
    ThreeSorted(("list-type", "2"), ("prefix", Quote(text, "")), ("continuation-token", Quote(token, "")));
    ThreePrinted(("continuation-token", Quote(token, "")), ("list-type", "2"), ("prefix", Quote(text, "")));
    ListingText(Quote(token, ""), Quote(text, ""));
  }

  lemma ThreeSorted(p: Pair, q: Pair, r: Pair)
    requires p.0 == "list-type" && q.0 == "prefix" && r.0 == "continuation-token"
    ensures Sorted([p, q, r]) == [r, p, q]
  {
    InitialsDiffer();
    FirstDiffers(p, q);
    FirstDiffers(r, p);
    FirstDiffers(r, q);
    SortedThree(p, q, r);
  }

  lemma InitialsDiffer()
    ensures "continuation-token"[0] < "list-type"[0] < "prefix"[0]
  {
  }

  lemma EscapedTwo(u: string, v: string)
    ensures Escaped([("list-type", u), ("prefix", v)]) == [("list-type", Quote(u, "")), ("prefix", Quote(v, ""))]
  {
    EscapedPair("list-type", u, [("prefix", v)]);
    EscapedPair("prefix", v, []);
  }

  lemma EscapedThree(u: string, v: string, w: string)
    ensures Escaped([("list-type", u), ("prefix", v)] + [("continuation-token", w)])
         == [("list-type", Quote(u, "")), ("prefix", Quote(v, "")), ("continuation-token", Quote(w, ""))]
  {
    var r := [("continuation-token", w)];
    EscapedPair("list-type", u, [("prefix", v)] + r);
    EscapedPair("prefix", v, r);
    EscapedPair("continuation-token", w, []);
    assert [("list-type", u), ("prefix", v)] + r == [("list-type", u)] + ([("prefix", v)] + r);
  }

  lemma EscapedPair(name: string, value: string, rest: seq<Pair>)
    ensures Escaped([(name, value)] + rest) == [(name, Quote(value, ""))] + Escaped(rest)
  {
    assert ([(name, value)] + rest)[1..] == rest;
  }

  lemma PairPrinted(p: Pair, q: Pair)
    ensures Join(Printed([p, q]), '&') == Parameter(p.0, p.1) + ['&'] + Parameter(q.0, q.1)
  {
    PrintedCons(p, [q]);
    PrintedCons(q, []);
    assert [p] + [q] == [p, q] && [q] + [] == [q];
    assert Join(Printed([q]), '&') == Parameter(q.0, q.1);
  }

  lemma ListingText(token: string, prefix: string)
    ensures Parameter("list-type", "2") + ['&'] + Parameter("prefix", prefix) == "list-type=2&prefix=" + prefix
    ensures Parameter("continuation-token", token) + ['&'] + ("list-type=2&prefix=" + prefix)
         == "continuation-token=" + token + "&" + ("list-type=2&prefix=" + prefix)
  {
  }
}
