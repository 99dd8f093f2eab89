/** Connection URLs of the S3 backend: printing by S3Info.url, parsing by parse_url. */
module S3Url {
  import opened Basics
  import opened Percent
  import Utf8

  const DEFAULT_REGION := "us-east-1"
  const S3_SAFE_CHARS := "-_.~!*()*'/"

  // ---- urlsplit, for URLs of the form scheme://authority/path?query#fragment

  datatype SplitUrl = SplitUrl(scheme: string, netloc: string, path: string, query: string)

  /** The text up to the first character of `stops`. */
  function UpTo(s: string, stops: string): (r: string)
    ensures |r| <= |s| && r == s[..|r|]
    ensures forall c :: c in r ==> c !in stops
    ensures |r| < |s| ==> s[|r|] in stops
  {
    if s == "" || s[0] in stops then "" else [s[0]] + UpTo(s[1..], stops)
  }

  lemma {:induction false} UpToAt(a: string, stops: string, b: string)
    requires forall c :: c in a ==> c !in stops
    requires b == "" || b[0] in stops
    ensures UpTo(a + b, stops) == a && (a + b)[|a|..] == b
  {
    if a == "" {
      assert a + b == b;
    } else {
      assert a[0] in a && (a + b)[1..] == a[1..] + b;
      UpToAt(a[1..], stops, b);
      assert a == [a[0]] + a[1..];
    }
  }

  function LowerChar(c: char): char {
    if 'A' <= c <= 'Z' then (c as int + 32) as char else c
  }

  function Lower(s: string): string {
    seq(|s|, i requires 0 <= i < |s| => LowerChar(s[i]))
  }

  /** What follows the authority: the path, and the query without its question mark; a fragment is dropped. */
  function PathAndQuery(tail: string): (string, string) {
    var kept := UpTo(tail, "#");
    var path := UpTo(kept, "?");
    (path, if |path| < |kept| then kept[|path| + 1..] else "")
  }

  function UrlSplit(url: string): SplitUrl {
    var scheme := UpTo(url, ":");
    var rest := url[|scheme|..];
    if !StartsWith(rest, "://") then SplitUrl("", "", url, "")
    else
      var netloc := UpTo(rest[3..], "/?#");
      var (path, query) := PathAndQuery(rest[3..][|netloc|..]);
      SplitUrl(Lower(scheme), netloc, path, query)
  }

  lemma PathAndQueryPrinted(path: string, query: string)
    requires '?' !in path && '#' !in path && '#' !in query
    ensures PathAndQuery(path + ("?" + query)) == (path, query)
    ensures PathAndQuery(path) == (path, "")
  {
    var tail := path + ("?" + query);
    UpToAt(tail, "#", "");
    assert tail + "" == tail;
    UpToAt(path, "?", "?" + query);
    assert tail[|path| + 1..] == tail[|path|..][1..] == query;
    UpToAt(path, "#", "");
    UpToAt(path, "?", "");
    assert path + "" == path;
  }

  lemma UrlSplitPrinted(scheme: string, netloc: string, tail: string)
    requires ':' !in scheme
    requires '/' !in netloc && '?' !in netloc && '#' !in netloc
    requires tail == "" || tail[0] in "/?"
    ensures UrlSplit(scheme + ("://" + (netloc + tail)))
         == SplitUrl(Lower(scheme), netloc, PathAndQuery(tail).0, PathAndQuery(tail).1)
  {
    UpToAt(scheme, ":", "://" + (netloc + tail));
    var rest := "://" + (netloc + tail);
    assert rest[..3] == "://" && rest[3..] == netloc + tail;
    UpToAt(netloc, "/?#", tail);
  }

  // ---- slash normalisation

  /** Leading slashes removed (`s.lstrip("/")`). */
  function DropSlashes(s: string): string {
    if s != "" && s[0] == '/' then DropSlashes(s[1..]) else s
  }

  /** One left-to-right pass of `s.replace("//", "/")`. */
  function HalveSlashes(s: string): string {
    if |s| < 2 then s
    else if s[..2] == "//" then "/" + HalveSlashes(s[2..])
    else [s[0]] + HalveSlashes(s[1..])
  }

  /** Every run of slashes shortened to one slash. */
  function Collapse(s: string): string {
    if |s| < 2 then s
    else if s[..2] == "//" then Collapse(s[1..])
    else [s[0]] + Collapse(s[1..])
  }

  predicate HasDoubleSlash(s: string) {
    exists i :: 0 <= i < |s| - 1 && s[i] == '/' && s[i + 1] == '/'
  }

  lemma {:induction false} CollapseAfterSlash(s: string)
    ensures Collapse("/" + HalveSlashes(s)) == Collapse("/" + s)
    ensures Collapse(HalveSlashes(s)) == Collapse(s)
    decreases |s|
  {
    if |s| >= 2 {
      var h := HalveSlashes(s);
      if s[..2] == "//" {
        CollapseAfterSlash(s[2..]);
        assert s == "/" + ("/" + s[2..]) && s[1..] == "/" + s[2..];
        assert ("/" + h)[1..] == h && ("/" + s)[1..] == s;
        assert ("/" + h)[..2] == "//" && ("/" + s)[..2] == "//";
      } else {
        CollapseAfterSlash(s[1..]);
        CollapseCons(s[0], s[1..], HalveSlashes(s[1..]));
        assert s == [s[0]] + s[1..];
        assert ("/" + h)[1..] == h && ("/" + s)[1..] == s;
      }
    }
  }

  /** Halving the slashes of the tail does not change what a non-slash pair collapses to. */
  lemma CollapseCons(c: char, t: string, h: string)
    requires Collapse(h) == Collapse(t) && Collapse("/" + h) == Collapse("/" + t)
    requires |t| > 0 && |h| > 0 && h[0] == t[0]
    ensures Collapse([c] + h) == Collapse([c] + t)
  {
    assert ([c] + h)[1..] == h && ([c] + t)[1..] == t;
    assert ([c] + h)[..2] == [c, h[0]] && ([c] + t)[..2] == [c, t[0]];
  }

  lemma {:induction false} CollapseIdentity(s: string)
    requires !HasDoubleSlash(s)
    ensures Collapse(s) == s
  {
    if |s| >= 2 {
      assert s[0] != '/' || s[1] != '/';
      assert forall i :: 0 <= i < |s[1..]| ==> s[1..][i] == s[i + 1];
      CollapseIdentity(s[1..]);
    }
  }

  lemma {:induction false} HalvingShortens(s: string)
    requires HasDoubleSlash(s)
    ensures |HalveSlashes(s)| < |s|
  {
    HalvingBound(s);
    var i :| 0 <= i < |s| - 1 && s[i] == '/' && s[i + 1] == '/';
    if s[..2] == "//" {
      HalvingBound(s[2..]);
    } else {
      assert s[1..][i - 1] == '/' && s[1..][i - 1 + 1] == '/';
      HalvingShortens(s[1..]);
    }
  }

  lemma {:induction false} HalvingBound(s: string)
    ensures |HalveSlashes(s)| <= |s|
    decreases |s|
  {
    if |s| >= 2 {
      if s[..2] == "//" { HalvingBound(s[2..]); } else { HalvingBound(s[1..]); }
    }
  }

  /** A collapsed text has no two slashes in a row and the same parts between slashes. */
  lemma {:induction false} CollapseNormal(s: string)
    ensures !HasDoubleSlash(Collapse(s))
    ensures Parts(Collapse(s)) == Parts(s)
    ensures s != "" ==> Collapse(s) != "" && Collapse(s)[0] == s[0]
  {
    if |s| >= 2 {
      CollapseNormal(s[1..]);
      var c := Collapse(s[1..]);
      if s[..2] == "//" {
        assert s == [s[0]] + s[1..] && Split(s, '/') == [[]] + Split(s[1..], '/');
      } else {
        var r := [s[0]] + c;
        assert r[1..] == c;
        forall i | 0 <= i < |r| - 1 ensures !(r[i] == '/' && r[i + 1] == '/') {
          if i > 0 { assert r[i] == c[i - 1] && r[i + 1] == c[i]; }
        }
        PartsCons(s[0], s[1..], c);
        assert s == [s[0]] + s[1..];
      }
    }
  }

  /** The non-empty parts of a path. */
  function Parts(s: string): seq<string> {
    NonEmpty(Split(s, '/'))
  }

  lemma PartsCons(c: char, s: string, t: string)
    requires Parts(s) == Parts(t) && |s| > 0 && |t| > 0 && s[0] == t[0]
    requires c == '/' ==> s[0] != '/'
    ensures Parts([c] + s) == Parts([c] + t)
  {
    assert ([c] + s)[1..] == s && ([c] + t)[1..] == t;
    var u, v := Split(s, '/'), Split(t, '/');
    assert u == [u[0]] + u[1..] && v == [v[0]] + v[1..];
    NonEmptyCons(u[0], u[1..]);
    NonEmptyCons(v[0], v[1..]);
    FirstPart(s);
    FirstPart(t);
    if c == '/' {
      assert Split([c] + s, '/') == [""] + u && Split([c] + t, '/') == [""] + v;
      NonEmptyCons("", u);
      NonEmptyCons("", v);
    } else {
      assert Split([c] + s, '/') == [[c] + u[0]] + u[1..];
      assert Split([c] + t, '/') == [[c] + v[0]] + v[1..];
      NonEmptyCons([c] + u[0], u[1..]);
      NonEmptyCons([c] + v[0], v[1..]);
      if s[0] != '/' {
        assert NonEmpty(u)[1..] == NonEmpty(u[1..]) && NonEmpty(v)[1..] == NonEmpty(v[1..]);
        assert NonEmpty(u)[0] == u[0] && NonEmpty(v)[0] == v[0];
      } else {
        assert NonEmpty(u) == NonEmpty(u[1..]) && NonEmpty(v) == NonEmpty(v[1..]);
      }
      assert u[0] == v[0] && |[c] + u[0]| > 0;
    }
  }

  lemma FirstPart(s: string)
    requires s != ""
    ensures Split(s, '/')[0] == "" <==> s[0] == '/'
  {}

  /** The loop of parse_url: halve the slashes until no two are adjacent. */
  method CollapseSlashes(text: string) returns (prefix: string)
    ensures prefix == Collapse(text)
    ensures !HasDoubleSlash(prefix) && Parts(prefix) == Parts(text)
  {
    prefix := text;
    while HasDoubleSlash(prefix)
      invariant Collapse(prefix) == Collapse(text)
      decreases |prefix|
    {
      HalvingShortens(prefix);
      CollapseAfterSlash(prefix);
      prefix := HalveSlashes(prefix);
    }
    CollapseIdentity(prefix);
    CollapseNormal(text);
  }

  // ---- the connection description and its URL

  datatype S3Info = S3Info(host: string, port: nat, bucket: string, prefix: string,
                           accessKey: Option<string>, secretKey: Option<string>)

  datatype S3Config = S3Config(bucket: string, prefix: string, endpoint: string, region: string,
                               accessKey: Option<string>, secretKey: Option<string>)

  function Endpoint(info: S3Info): string {
    "http://" + info.host + ":" + Decimal(info.port)
  }

  /** An absent credential and an empty one are the same to the printer and to the parser. */
  function Given(credential: Option<string>): Option<string> {
    if credential == Some("") then None else credential
  }

  function CredentialParameter(name: string, credential: Option<string>): seq<Pair> {
    if Given(credential).Some? then [(name, Quote(credential.value, S3_SAFE_CHARS))] else []
  }

  function UrlParameters(info: S3Info): seq<Pair> {
    [("endpoint", Endpoint(info))]
    + CredentialParameter("access_key", info.accessKey)
    + CredentialParameter("secret_key", info.secretKey)
  }

  function UrlQuery(info: S3Info): string {
    Join(Printed(UrlParameters(info)), '&')
  }

  function UrlPath(prefix: string): string {
    if prefix == "" then "" else "/" + Quote(DropSlashes(prefix), S3_SAFE_CHARS)
  }

  /** S3Info.url: the prefix given overrides the configured one. */
  function Url(info: S3Info, prefix: Option<string>): string {
    var p := if prefix.Some? then prefix.value else info.prefix;
    "s3" + ("://" + (info.bucket + (UrlPath(p) + ("?" + UrlQuery(info)))))
  }

  predicate BucketChar(c: char) {
    'a' <= c <= 'z' || '0' <= c <= '9' || c == '.' || c == '-'
  }

  predicate LetterOrDigit(c: char) {
    'a' <= c <= 'z' || '0' <= c <= '9'
  }

  predicate ValidBucket(bucket: string) {
    3 <= |bucket| <= 63 && LetterOrDigit(bucket[0]) && LetterOrDigit(bucket[|bucket| - 1]) &&
    forall c :: c in bucket ==> BucketChar(c)
  }

  function AfterLast(s: string, c: char): string {
    var parts := Split(s, c);
    parts[|parts| - 1]
  }

  function Hostname(netloc: string): string {
    Lower(UpTo(AfterLast(netloc, '@'), ":"))
  }

  function NonEmptyValue(value: string): Option<string> {
    if value == "" then None else Some(value)
  }

  /** What parse_url makes of a URL. */
  function ParsedUrl(url: string): Outcome<S3Config> {
    var u := UrlSplit(url);
    var bucket := Unquote(Hostname(u.netloc));
    if u.scheme != "s3" || !ValidBucket(bucket) then BlobError
    else
      var pairs := ParseQuery(u.query);
      Ok(S3Config(bucket, Collapse(Unquote(DropSlashes(u.path))),
                  FirstValue(pairs, "endpoint", ""), FirstValue(pairs, "region", DEFAULT_REGION),
                  NonEmptyValue(FirstValue(pairs, "access_key", "")),
                  NonEmptyValue(FirstValue(pairs, "secret_key", ""))))
  }

  method ParseUrl(url: string) returns (r: Outcome<S3Config>)
    ensures r == ParsedUrl(url)
    ensures r.Ok? ==> ValidBucket(r.value.bucket) && !HasDoubleSlash(r.value.prefix)
  {
    var u := UrlSplit(url);
    if u.scheme != "s3" { return BlobError; }
    var bucket := Unquote(Hostname(u.netloc));
    if bucket == "" { return BlobError; }
    var pairs := ParseQuery(u.query);
    var endpoint := FirstValue(pairs, "endpoint", "");
    var region := FirstValue(pairs, "region", DEFAULT_REGION);
    var accessKey := FirstValue(pairs, "access_key", "");
    var secretKey := FirstValue(pairs, "secret_key", "");
    if !ValidBucket(bucket) { return BlobError; }
    var prefix := CollapseSlashes(Unquote(DropSlashes(u.path)));
    return Ok(S3Config(bucket, prefix, endpoint, region, NonEmptyValue(accessKey), NonEmptyValue(secretKey)));
  }

  // ---- printing and parsing undo each other

  /** A host name or address that a query string can carry as it is. */
  predicate PlainHost(host: string) {
    Plain(host) && '#' !in host
  }

  function Recovered(info: S3Info, prefix: Option<string>): S3Config {
    var p := if prefix.Some? then prefix.value else info.prefix;
    S3Config(info.bucket, Collapse(DropSlashes(p)), Endpoint(info), DEFAULT_REGION,
             Given(info.accessKey), Given(info.secretKey))
  }

  lemma BucketIsHostname(bucket: string)
    requires forall c :: c in bucket ==> BucketChar(c)
    ensures Hostname(bucket) == bucket && Unquote(bucket) == bucket
    ensures '/' !in bucket && '?' !in bucket && '#' !in bucket
  {
    SplitOne(bucket, '@');
    UpToAt(bucket, ":", "");
    assert bucket + "" == bucket;
    BucketLower(bucket);
    assert Unquote(bucket) == bucket by {
      DecodePlain(bucket);
      assert PlusToSpace(bucket) == bucket;
    }
  }

  lemma BucketLower(bucket: string)
    requires forall c :: c in bucket ==> BucketChar(c)
    ensures Lower(bucket) == bucket
  {
    forall i | 0 <= i < |bucket| ensures LowerChar(bucket[i]) == bucket[i] { assert bucket[i] in bucket; }
  }

  /** Slashes in front are taken off, and nothing else. */
  lemma {:induction false} DropSlashesLeading(s: string)
    ensures var n := |s| - |DropSlashes(s)|;
      0 <= n && DropSlashes(s) == s[n..] && (forall i :: 0 <= i < n ==> s[i] == '/') && (n < |s| ==> s[n] != '/')
  {
    if s != "" { DropSlashesLeading(s[1..]); }
  }

  /** A path printed with escapes gives the prefix back, without its leading slashes. */
  lemma PathRecovered(prefix: string)
    ensures Unquote(DropSlashes(UrlPath(prefix))) == DropSlashes(prefix)
    ensures '?' !in UrlPath(prefix) && '#' !in UrlPath(prefix)
  {
    if prefix != "" {
      var p := DropSlashes(prefix);
      var q := Quote(p, S3_SAFE_CHARS);
      QuoteHides(p, S3_SAFE_CHARS, '?');
      QuoteHides(p, S3_SAFE_CHARS, '#');
      DropSlashesLeading(prefix);
      QuoteLeading(p, S3_SAFE_CHARS);
      assert ("/" + q)[1..] == q;
      assert DropSlashes("/" + q) == DropSlashes(q) == q;
      UnquoteQuote(p, S3_SAFE_CHARS);
    }
  }

  lemma QuoteLeading(s: string, safe: string)
    requires s == "" || s[0] != '/'
    ensures Quote(s, safe) == "" || Quote(s, safe)[0] != '/'
  {
    if s != "" {
      var b := Utf8.Encode(s);
      assert b[0] == Utf8.EncodeChar(s[0])[0];
      assert Quote(s, safe)[0] == QuoteByte(b[0], safe)[0];
    }
  }

  lemma CredentialHidden(name: string, credential: Option<string>)
    requires PlainName(name)
    ensures Hidden(CredentialParameter(name, credential))
    ensures DecodedValues(CredentialParameter(name, credential))
         == if Given(credential).Some? then [(name, credential.value)] else []
  {
    if Given(credential).Some? {
      QuoteHides(credential.value, S3_SAFE_CHARS, '&');
      QuoteHides(credential.value, S3_SAFE_CHARS, '#');
      DecodeQuoted(credential.value, S3_SAFE_CHARS);
    }
  }

  lemma {:induction false} DecodedValuesAppend(a: seq<Pair>, b: seq<Pair>)
    ensures DecodedValues(a + b) == DecodedValues(a) + DecodedValues(b)
  {
    if a == [] {
      assert a + b == b;
    } else {
      assert (a + b)[1..] == a[1..] + b;
      DecodedValuesAppend(a[1..], b);
    }
  }

  lemma QueryRecovered(info: S3Info)
    requires PlainHost(info.host)
    ensures '#' !in UrlQuery(info)
    ensures ParseQuery(UrlQuery(info)) == [("endpoint", Endpoint(info))]
         + (if Given(info.accessKey).Some? then [("access_key", info.accessKey.value)] else [])
         + (if Given(info.secretKey).Some? then [("secret_key", info.secretKey.value)] else [])
  {
    var e := [("endpoint", Endpoint(info))];
    var a, s := CredentialParameter("access_key", info.accessKey), CredentialParameter("secret_key", info.secretKey);
    EndpointHidden(info);
    AccessKeyPlain();
    SecretKeyPlain();
    CredentialHidden("access_key", info.accessKey);
    CredentialHidden("secret_key", info.secretKey);
    ParametersRecovered(e, a, s);
  }

  predicate Hidden(params: seq<Pair>) {
    forall p :: p in params ==> Printable(p) && '#' !in p.0 && '#' !in p.1
  }

  lemma EndpointHidden(info: S3Info)
    requires PlainHost(info.host)
    ensures var e := [("endpoint", Endpoint(info))]; Hidden(e) && DecodedValues(e) == e
  {
    EndpointNamePlain();
    EndpointPlain(info);
    var e := [("endpoint", Endpoint(info))];
    assert e[1..] == [] && DecodedValues([]) == [];
  }

  predicate PlainName(name: string) {
    Plain(name) && '=' !in name && '#' !in name
  }

  lemma AccessKeyPlain()
    ensures PlainName("access_key")
  {}

  lemma SecretKeyPlain()
    ensures PlainName("secret_key")
  {}

  lemma EndpointNamePlain()
    ensures PlainName("endpoint")
  {}

  /** Three groups of parameters that the printer hides are read back one after the other. */
  lemma ParametersRecovered(e: seq<Pair>, a: seq<Pair>, s: seq<Pair>)
    requires e != [] && Hidden(e) && Hidden(a) && Hidden(s)
    ensures '#' !in Join(Printed(e + a + s), '&')
    ensures ParseQuery(Join(Printed(e + a + s), '&')) == DecodedValues(e) + DecodedValues(a) + DecodedValues(s)
  {
    ParsePrinted(e + a + s);
    DecodedValuesAppend(e + a, s);
    DecodedValuesAppend(e, a);
    PrintedPieces(e + a + s, '#');
    JoinElements(Printed(e + a + s), '&', '#');
  }

  lemma ValuesRecovered(endpoint: string, accessKey: Option<string>, secretKey: Option<string>)
    ensures var pairs := [("endpoint", endpoint)]
         + (if Given(accessKey).Some? then [("access_key", accessKey.value)] else [])
         + (if Given(secretKey).Some? then [("secret_key", secretKey.value)] else []);
      FirstValue(pairs, "endpoint", "") == endpoint &&
      FirstValue(pairs, "region", DEFAULT_REGION) == DEFAULT_REGION &&
      NonEmptyValue(FirstValue(pairs, "access_key", "")) == Given(accessKey) &&
      NonEmptyValue(FirstValue(pairs, "secret_key", "")) == Given(secretKey)
  {
    var a := if Given(accessKey).Some? then [("access_key", accessKey.value)] else [];
    var s := if Given(secretKey).Some? then [("secret_key", secretKey.value)] else [];
    var e := [("endpoint", endpoint)];
    NamesDiffer();
    FirstValueSkips(e + a + s, [], "region", DEFAULT_REGION);
    assert e + a + s + [] == e + a + s;
    FirstValueSkips(e, a + s, "access_key", "");
    assert e + (a + s) == e + a + s;
    if a == [] { FirstValueSkips(a + s, [], "access_key", ""); assert a + s + [] == a + s; }
    FirstValueSkips(e + a, s, "secret_key", "");
  }

  lemma {:induction false} FirstValueSkips(a: seq<Pair>, b: seq<Pair>, name: string, default: string)
    requires forall p :: p in a ==> p.0 != name
    ensures FirstValue(a + b, name, default) == FirstValue(b, name, default)
  {
    if a == [] {
      assert a + b == b;
    } else {
      assert a[0] in a && (a + b)[1..] == a[1..] + b;
      FirstValueSkips(a[1..], b, name, default);
    }
  }

  lemma NamesDiffer()
    ensures "endpoint" != "region" && "endpoint" != "access_key" && "endpoint" != "secret_key"
    ensures "access_key" != "region" && "access_key" != "secret_key" && "secret_key" != "region"
  {
    assert "endpoint"[0] == 'e' && "region"[0] == 'r' && "access_key"[0] == 'a' && "secret_key"[0] == 's';
  }

  lemma EndpointPlain(info: S3Info)
    requires PlainHost(info.host)
    ensures Plain(Endpoint(info)) && '#' !in Endpoint(info) && DecodeField(Endpoint(info)) == Endpoint(info)
  {
    DecodePlain(Endpoint(info));
  }

  /** Parsing a printed URL gives back the connection, with the slashes of its prefix normalised,
      exactly when the bucket name is a valid one. */
  lemma {:induction false} ParsePrintedUrl(info: S3Info, prefix: Option<string>)
    requires PlainHost(info.host)
    ensures ValidBucket(info.bucket) <==> ParsedUrl(Url(info, prefix)) == Ok(Recovered(info, prefix))
  {
    if ValidBucket(info.bucket) {
      var p := if prefix.Some? then prefix.value else info.prefix;
      assert UrlSplit(Url(info, prefix)) == SplitUrl("s3", info.bucket, UrlPath(p), UrlQuery(info)) by {
        SplitPrintedUrl(info, prefix);
      }
      assert Unquote(Hostname(info.bucket)) == info.bucket by { BucketIsHostname(info.bucket); }
      assert Unquote(DropSlashes(UrlPath(p))) == DropSlashes(p) by { PathRecovered(p); }
      ParametersRead(info);
    }
  }

  /** The same in plain words: a prefix that does not start with a slash and has no two slashes together comes back as
      it is, and so do the endpoint and the credentials; an empty credential is none. */
  lemma PlainUrlRecovered(info: S3Info, prefix: Option<string>)
    requires PlainHost(info.host) && ValidBucket(info.bucket)
    ensures var p := if prefix.Some? then prefix.value else info.prefix;
      (p == "" || p[0] != '/') && !HasDoubleSlash(p) ==>
        ParsedUrl(Url(info, prefix)) == Ok(S3Config(info.bucket, p, "http://" + info.host + ":" + Decimal(info.port),
          "us-east-1", if info.accessKey == Some("") then None else info.accessKey,
          if info.secretKey == Some("") then None else info.secretKey))
  {
    var p := if prefix.Some? then prefix.value else info.prefix;
    ParsePrintedUrl(info, prefix);
    if !HasDoubleSlash(p) { CollapseIdentity(p); }
  }

  /** Letters, digits and the marks that stand as they are in the texts of a URL. */
  predicate AsItIs(s: string) {
    forall c :: c in s ==>
      'a' <= c <= 'z' || 'A' <= c <= 'Z' || '0' <= c <= '9' || c in "-_.~!*()'/"
  }

  /** The printed URL itself, for texts that need no escapes. */
  lemma PlainUrl(info: S3Info, p: string, access: string, secret: string)
    requires p != "" && p[0] != '/' && access != "" && secret != "" && AsItIs(p) && AsItIs(access) && AsItIs(secret)
    requires info.accessKey == Some(access) && info.secretKey == Some(secret)
    ensures Url(info, Some(p)) == "s3" + ("://" + (info.bucket + ("/" + p + ("?" +
      ("endpoint" + "=" + ("http://" + info.host + ":" + Decimal(info.port)) + ['&'] +
      ("access_key" + "=" + access + ['&'] + ("secret_key" + "=" + secret)))))))
  {
    QuoteIdentity(p, S3_SAFE_CHARS);
    QuoteIdentity(access, S3_SAFE_CHARS);
    QuoteIdentity(secret, S3_SAFE_CHARS);
    PlainQuery(info, access, secret);
  }

  lemma PlainQuery(info: S3Info, access: string, secret: string)
    requires access != "" && secret != ""
    requires info.accessKey == Some(access) && info.secretKey == Some(secret)
    requires Quote(access, S3_SAFE_CHARS) == access && Quote(secret, S3_SAFE_CHARS) == secret
    ensures UrlQuery(info) == Parameter("endpoint", Endpoint(info)) + ['&']
      + (Parameter("access_key", access) + ['&'] + Parameter("secret_key", secret))
  {
    var e, a, k := ("endpoint", Endpoint(info)), ("access_key", access), ("secret_key", secret);
    ThreeParameters(e, a, k);
    ThreePrinted(e, a, k);
  }

  lemma ThreeParameters(e: Pair, a: Pair, k: Pair)
    ensures [e] + [a] + [k] == [e, a, k]
  {
  }

  lemma ThreePrinted(e: Pair, a: Pair, k: Pair)
    ensures Join(Printed([e, a, k]), '&') == Parameter(e.0, e.1) + ['&'] + (Parameter(a.0, a.1) + ['&'] + Parameter(k.0, k.1))
  {
    PrintedCons(e, [a, k]);
    PrintedCons(a, [k]);
    PrintedCons(k, []);
    assert [e] + [a, k] == [e, a, k] && [a] + [k] == [a, k] && [k] + [] == [k];
    assert Join(Printed([k]), '&') == Parameter(k.0, k.1);
    assert Join(Printed([a, k]), '&') == Parameter(a.0, a.1) + ['&'] + Join(Printed([k]), '&');
  }

  lemma PrintedCons(p: Pair, rest: seq<Pair>)
    ensures Printed([p] + rest) == [Parameter(p.0, p.1)] + Printed(rest) && Printed([p] + rest)[1..] == Printed(rest)
  {
    assert ([p] + rest)[1..] == rest;
  }

  /** Which bucket names are valid, by code points: 3 to 63 lower-case letters, digits, dots and hyphens, the first and the
      last a letter or a digit. */
  lemma BucketNames(bucket: string)
    ensures ValidBucket(bucket) <==> 3 <= |bucket| <= 63 && forall i :: 0 <= i < |bucket| ==>
      var n := bucket[i] as int;
      97 <= n <= 122 || 48 <= n <= 57 || (0 < i < |bucket| - 1 && (n == 45 || n == 46))
  {
    if ValidBucket(bucket) {
      forall i | 0 <= i < |bucket| ensures BucketChar(bucket[i]) { assert bucket[i] in bucket; }
    }
  }

  /** A URL of another scheme is refused; a region in the URL is taken; the scheme may be in capitals. */
  lemma OtherUrls(scheme: string, bucket: string, region: string)
    requires ':' !in scheme && ValidBucket(bucket) && Plain(region) && '#' !in region
    ensures var url := scheme + ("://" + (bucket + ("" + ("?" + Parameter("region", region)))));
      ParsedUrl(url) == if Lower(scheme) != "s3" then BlobError
                        else Ok(S3Config(bucket, "", "", region, None, None))
  {
    BucketIsHostname(bucket);
    var query := Parameter("region", region);
    RegionNames();
    assert '#' !in query;
    PathAndQueryPrinted("", query);
    assert UrlSplit(scheme + ("://" + (bucket + ("" + ("?" + query))))) == SplitUrl(Lower(scheme), bucket, "", query) by {
      UrlSplitPrinted(scheme, bucket, "" + ("?" + query));
    }
    if Lower(scheme) == "s3" { RegionRead(region); }
  }

  lemma RegionNames()
    ensures PlainName("region") && "region" != "endpoint" && "region" != "access_key" && "region" != "secret_key"
  {
    NamesDiffer();
  }

  lemma RegionRead(region: string)
    requires Plain(region)
    ensures ParseQuery(Parameter("region", region)) == [("region", region)]
    ensures var pairs := [("region", region)];
      FirstValue(pairs, "endpoint", "") == "" && FirstValue(pairs, "region", DEFAULT_REGION) == region &&
      FirstValue(pairs, "access_key", "") == "" && FirstValue(pairs, "secret_key", "") == ""
  {
    RegionNames();
    var params := [("region", region)];
    assert params[1..] == [] && Printed(params) == [Parameter("region", region)];
    ParsePrinted(params);
    DecodePlain(region);
  }

  /** Which letters are made small. */
  lemma Lowered(s: string)
    ensures |Lower(s)| == |s| && forall i :: 0 <= i < |s| ==>
      Lower(s)[i] as int == s[i] as int + if 65 <= s[i] as int <= 90 then 32 else 0
  {
  }

  lemma ParametersRead(info: S3Info)
    requires PlainHost(info.host)
    ensures var pairs := ParseQuery(UrlQuery(info));
      FirstValue(pairs, "endpoint", "") == Endpoint(info) &&
      FirstValue(pairs, "region", DEFAULT_REGION) == DEFAULT_REGION &&
      NonEmptyValue(FirstValue(pairs, "access_key", "")) == Given(info.accessKey) &&
      NonEmptyValue(FirstValue(pairs, "secret_key", "")) == Given(info.secretKey)
  {
    QueryRecovered(info);
    ValuesRecovered(Endpoint(info), info.accessKey, info.secretKey);
  }

  lemma {:induction false} SplitPrintedUrl(info: S3Info, prefix: Option<string>)
    requires PlainHost(info.host) && ValidBucket(info.bucket)
    ensures var p := if prefix.Some? then prefix.value else info.prefix;
      UrlSplit(Url(info, prefix)) == SplitUrl("s3", info.bucket, UrlPath(p), UrlQuery(info))
  {
    var p := if prefix.Some? then prefix.value else info.prefix;
    assert '/' !in info.bucket && '?' !in info.bucket && '#' !in info.bucket by { BucketIsHostname(info.bucket); }
    assert '?' !in UrlPath(p) && '#' !in UrlPath(p) by { PathRecovered(p); }
    assert '#' !in UrlQuery(info) by { QueryRecovered(info); }
    SplitPrinted(info.bucket, UrlPath(p), UrlQuery(info));
  }

  lemma SplitPrinted(netloc: string, path: string, query: string)
    requires '/' !in netloc && '?' !in netloc && '#' !in netloc
    requires '?' !in path && '#' !in path && '#' !in query && (path == "" || path[0] == '/')
    ensures UrlSplit("s3" + ("://" + (netloc + (path + ("?" + query))))) == SplitUrl("s3", netloc, path, query)
  {
    PathAndQueryPrinted(path, query);
    assert Lower("s3") == "s3";
    UrlSplitPrinted("s3", netloc, path + ("?" + query));
  }
}
