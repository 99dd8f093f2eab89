/** The S3 backend against a bucket behind a paginating service. */
module S3Store {
  import opened Basics
  import opened Rows
  import opened S3Requests
  import opened S3Listing
  import Percent
  import S3Url
  import S3Xml
  import Lexicographic
  import Utf8

  const S3_OK := 200
  const S3_CREATED := 200
  const S3_DELETED := 204
  const S3_NOT_FOUND := 404

  lemma StatusCodes()
    ensures S3_OK == S3_CREATED == 200 && S3_DELETED == 204 && S3_NOT_FOUND == 404
  {
  }

  datatype Verb = Put | Get | Head | Delete

  /** How the service behaves: a page that starts at position i of a listing has `length(i)` keys,
      and `token(i)` is the opaque text that resumes there. An unhealthy service may refuse any request. */
  datatype Service = Service(healthy: bool, namespace: string,
                             length: nat -> nat, token: nat -> string, position: string -> nat) {
    ghost predicate Valid() {
      forall i: nat :: length(i) >= 1 && token(i) != "" && position(token(i)) == i
    }
  }

  function Min(a: nat, b: nat): nat {
    if a < b then a else b
  }

  /** Keys with a raw prefix, as the keys relative to it. */
  function Relative(m: FlatMap, raw: string): FlatMap {
    map k | k in (set f | f in m.Keys && StartsWith(f, raw) :: f[|raw|..]) && raw + k in m :: m[raw + k]
  }

  function Stripped(keys: seq<string>, n: nat): seq<string> {
    if keys == [] then []
    else [if n <= |keys[0]| then keys[0][n..] else ""] + Stripped(keys[1..], n)
  }

  predicate Served(verb: Verb, name: string, body: bytes, before: FlatMap, after: FlatMap, status: int, content: bytes) {
    match verb
    case Put => status == S3_CREATED && after == before[name := body]
    case Get => after == before && status == (if name in before then S3_OK else S3_NOT_FOUND) &&
                (name in before ==> content == before[name])
    case Head => after == before && status == (if name in before then S3_OK else S3_NOT_FOUND)
    case Delete => after == before - {name} && status == S3_DELETED
  }

  predicate Refused(before: FlatMap, after: FlatMap, status: int) {
    after == before && status != S3_OK && status != S3_DELETED && status != S3_NOT_FOUND
  }

  class S3Store {
    const blob: S3Blob
    const scheme: string
    const host: string
    const service: Service
    const fields: seq<S3Xml.Field>
    var objects: seq<Row>

    ghost predicate Valid()
      reads this
    {
      blob.HostOnly(scheme, host) && service.Valid() && S3_NAMES.Fields(fields) &&
      Ascending(objects) && "" !in AsMap(objects)
    }

    ghost function Bucket(): FlatMap
      reads this
    {
      AsMap(objects)
    }

    constructor (blob: S3Blob, scheme: string, host: string, service: Service, fields: seq<S3Xml.Field>)
      requires blob.HostOnly(scheme, host) && service.Valid() && S3_NAMES.Fields(fields)
      ensures Valid() && Bucket() == map[] && this.blob == blob && this.service == service
    {
      this.blob, this.scheme, this.host, this.service, this.fields := blob, scheme, host, service, fields;
      objects := [];
    }

    /** The service: one object request, named by its URL. */
    method Request(verb: Verb, url: string, body: bytes) returns (status: int, content: bytes)
      requires Valid() && StartsWith(Percent.Unquote(S3Url.UrlSplit(url).path), "/" + blob.bucket + "/")
      requires Percent.Unquote(S3Url.UrlSplit(url).path) != "/" + blob.bucket + "/"
      modifies this
      ensures Valid()
      ensures var name := Percent.Unquote(S3Url.UrlSplit(url).path)[|blob.bucket| + 2..];
        Served(verb, name, body, old(Bucket()), Bucket(), status, content) ||
        (!service.healthy && Refused(old(Bucket()), Bucket(), status))
    {
      var name := Percent.Unquote(S3Url.UrlSplit(url).path)[|blob.bucket| + 2..];
      var busy: bool := *;
      content := [];
      if busy && !service.healthy {
        status := 503;
        return;
      }
      FindIsLookup(objects, name);
      var found := Find(objects, name);
      match verb
      case Put =>
        UpsertIsUpdate(objects, name, body);
        UpsertAscending(objects, name, body);
        objects := Upsert(objects, name, body);
        status := S3_CREATED;
      case Get =>
        status := if found.Some? then S3_OK else S3_NOT_FOUND;
        content := if found.Some? then found.value else [];
      case Head =>
        status := if found.Some? then S3_OK else S3_NOT_FOUND;
      case Delete =>
        RemoveAscending(objects, name);
        objects := Remove(objects, name);
        status := S3_DELETED;
    }

    /** The URL of a key names the object that holds it. */
    lemma NamedObject(key: string)
      requires Valid() && blob.FullKey(key) != ""
      ensures var path := Percent.Unquote(S3Url.UrlSplit(blob.ObjectUrl(key)).path);
        StartsWith(path, "/" + blob.bucket + "/") && path != "/" + blob.bucket + "/" &&
        path[|blob.bucket| + 2..] == blob.FullKey(key)
    {
      blob.ObjectNameReceived(scheme, host, key);
      var start := "/" + blob.bucket + "/";
      assert (start + blob.FullKey(key))[..|start|] == start;
    }

    /** A request for the object of a key, by its URL. */
    method ObjectRequest(verb: Verb, key: string, body: bytes) returns (status: int, content: bytes)
      requires Valid() && blob.FullKey(key) != ""
      modifies this
      ensures Valid()
      ensures Served(verb, blob.FullKey(key), body, old(Bucket()), Bucket(), status, content) ||
              (!service.healthy && Refused(old(Bucket()), Bucket(), status))
    {
      NamedObject(key);
      status, content := Request(verb, blob.ObjectUrl(key), body);
    }

    method Put(key: string, data: bytes) returns (r: Outcome<Unit>)
      requires Valid() && blob.FullKey(key) != ""
      modifies this
      ensures Valid() && (r == Ok(Unit.Unit) || r == BlobError) && (service.healthy ==> r.Ok?)
      ensures Bucket() == if r.Ok? then old(Bucket())[blob.FullKey(key) := data] else old(Bucket())
    {
      var status, _ := ObjectRequest(Verb.Put, key, data);
      r := if status == S3_CREATED then Ok(Unit.Unit) else BlobError;
    }

    method Get(key: string) returns (r: Outcome<bytes>)
      requires Valid() && blob.FullKey(key) != ""
      modifies this
      ensures Valid() && Bucket() == old(Bucket()) && (service.healthy ==> r != BlobError)
      ensures r == BlobError || r == if blob.FullKey(key) in Bucket() then Ok(Bucket()[blob.FullKey(key)]) else KeyError
    {
      var status, content := ObjectRequest(Verb.Get, key, []);
      r := if status == S3_OK then Ok(content) else if status == S3_NOT_FOUND then KeyError else BlobError;
    }

    /** A HEAD decides whether the object is there; only then a DELETE removes it. */
    method Delete(key: string) returns (r: Outcome<Unit>)
      requires Valid() && blob.FullKey(key) != ""
      modifies this
      ensures Valid() && (service.healthy ==> r != BlobError)
      ensures r == BlobError || r == if blob.FullKey(key) in old(Bucket()) then Ok(Unit.Unit) else KeyError
      ensures Bucket() == if r.Ok? then old(Bucket()) - {blob.FullKey(key)} else old(Bucket())
    {
      var check, _ := ObjectRequest(Head, key, []);
      if check == S3_NOT_FOUND { return KeyError; }
      if check != S3_OK { return BlobError; }
      var status, _ := ObjectRequest(Verb.Delete, key, []);
      r := if status == S3_DELETED then Ok(Unit.Unit) else BlobError;
    }

    method Exists(key: string) returns (r: Outcome<bool>)
      requires Valid() && blob.FullKey(key) != ""
      modifies this
      ensures Valid() && Bucket() == old(Bucket()) && (service.healthy ==> r.Ok?)
      ensures r == BlobError || r == Ok(blob.FullKey(key) in Bucket())
    {
      var status, _ := ObjectRequest(Head, key, []);
      r := if status == S3_OK then Ok(true) else if status == S3_NOT_FOUND then Ok(false) else BlobError;
    }

    /** The listing that a prefix stands for, and the page of it that starts at a position. */
    function Listing(prefix: string): seq<string>
      reads this
    {
      KeysWithPrefix(objects, prefix)
    }

    /** The service: one page of a listing, named by the prefix and the token in the URL,
        with its character data reported in any pieces. */
    method ListPage(url: string) returns (status: int, document: S3Xml.Xml)
      requires Valid()
      ensures var query := Percent.ParseQuery(S3Url.UrlSplit(url).query);
        var listing := Listing(Percent.FirstValue(query, "prefix", ""));
        var token := Percent.FirstValue(query, "continuation-token", "");
        var start := if token == "" then 0 else service.position(token);
        start <= |listing| ==>
          (status == S3_OK && S3Xml.Joined(document) == S3Xml.Joined(Page(listing, start))) ||
          (!service.healthy && status != S3_OK)
    {
      var busy: bool := *;
      if busy && !service.healthy { return 503, S3Xml.Empty; }
      var query := Percent.ParseQuery(S3Url.UrlSplit(url).query);
      var listing := Listing(Percent.FirstValue(query, "prefix", ""));
      var token := Percent.FirstValue(query, "continuation-token", "");
      var start := if token == "" then 0 else service.position(token);
      status := S3_OK;
      document := if start <= |listing| then Page(listing, start) else S3Xml.Empty;
    }

    function PageEnd(listing: seq<string>, start: nat): nat {
      Min(start + service.length(start), |listing|)
    }

    function NextToken(listing: seq<string>, start: nat): Option<string> {
      if PageEnd(listing, start) < |listing| then Some(service.token(PageEnd(listing, start))) else None
    }

    function Page(listing: seq<string>, start: nat): S3Xml.Xml
      requires start <= |listing|
    {
      PageXml(S3_NAMES, service.namespace, blob.bucket, listing[start..PageEnd(listing, start)], NextToken(listing, start))
    }

    /** The position that the URL of a page asks for. */
    lemma {:induction false} PageAsked(scanned: string, token: Option<string>)
      requires Valid() && token != Some("")
      ensures var query := Percent.ParseQuery(S3Url.UrlSplit(blob.PageUrl(scanned, token)).query);
        Percent.FirstValue(query, "prefix", "") == blob.RawPrefix() + scanned &&
        Percent.FirstValue(query, "continuation-token", "") == if token.Some? then token.value else ""
    {
      blob.ListingReceived(scheme, host, scanned, token);
      blob.UnderRawPrefix(scanned);
      ListValues(blob.ListPrefix(scanned), token);
    }

    lemma {:induction false} PageRead(listing: seq<string>, start: nat, document: S3Xml.Xml)
      requires Valid() && start <= |listing| && "" !in listing
      requires S3Xml.Joined(document) == S3Xml.Joined(Page(listing, start))
      ensures S3_NAMES.keyField in fields && S3_NAMES.tokenField in fields
      ensures ListObjects(S3Xml.Found(document, fields), S3_NAMES)
           == (listing[start..PageEnd(listing, start)], NextToken(listing, start))
    {
      ServiceNamesUsable();
      PageReadBack(S3_NAMES, service.namespace, blob.bucket, listing[start..PageEnd(listing, start)],
                   NextToken(listing, start), fields, document);
      NonEmptyIdentity(listing[start..PageEnd(listing, start)]);
      assert fields[0] in fields && fields[1] in fields;
    }

    /** The keys of one page, without the configured prefix. */
    method YieldPage(page: seq<string>, prefix: string) returns (keys: seq<string>)
      requires forall k :: k in page ==> StartsWith(k, blob.RawPrefix() + prefix)
      ensures keys == Stripped(page, |blob.RawPrefix()|)
    {
      keys := [];
      for i := 0 to |page|
        invariant keys == Stripped(page[..i], |blob.RawPrefix()|)
      {
        StripListed(page[i], prefix);
        StrippedAppend(page[..i], [page[i]], |blob.RawPrefix()|);
        assert page[..i] + [page[i]] == page[..i + 1];
        keys := keys + [blob.StripPrefix(page[i])];
      }
      assert page[..|page|] == page;
    }

    /** A listing request answers with the page at the position that its token stands for. */
    method RequestPage(url: string, prefix: string, ghost token: Option<string>) returns (status: int, document: S3Xml.Xml)
      requires Valid() && url == blob.PageUrl(prefix, token) && token != Some("")
      requires Position(token) <= |Listing(blob.RawPrefix() + prefix)|
      ensures status == S3_OK ==>
        S3Xml.Joined(document) == S3Xml.Joined(Page(Listing(blob.RawPrefix() + prefix), Position(token)))
      ensures service.healthy ==> status == S3_OK
    {
      PageAsked(prefix, token);
      assert token.Some? ==> token.value != "";
      status, document := ListPage(url);
    }

    /** One trip around the loop: the page at a position is yielded and the token leads behind it. */
    method ScanPage(url: string, prefix: string, ghost token: Option<string>)
      returns (keys: seq<string>, next: Option<string>, r: Outcome<Unit>)
      requires Valid() && url == blob.PageUrl(prefix, token) && token != Some("")
      requires Position(token) <= |Listing(blob.RawPrefix() + prefix)|
      ensures r == Ok(Unit.Unit) || r == BlobError
      ensures service.healthy ==> r.Ok?
      ensures r == BlobError ==> keys == []
      ensures var listing := Listing(blob.RawPrefix() + prefix); var start := Position(token);
        r.Ok? ==> keys == Stripped(listing[start..PageEnd(listing, start)], |blob.RawPrefix()|) &&
                  next == NextToken(listing, start)
    {
      ghost var listing := Listing(blob.RawPrefix() + prefix);
      var status, document := RequestPage(url, prefix, token);
      if status != S3_OK { return [], None, BlobError; }
      ListingHasNames(objects, blob.RawPrefix() + prefix);
      PageRead(listing, Position(token), document);
      var values := S3Xml.ParseFields(document, fields);
      var (page, token') := ListObjects(values, S3_NAMES);
      keys := YieldPage(page, prefix);
      return keys, token', Ok(Unit.Unit);
    }

    function Position(token: Option<string>): nat {
      if token.None? then 0 else service.position(token.value)
    }

    /** The token loop ends, and yields the keys of the listing, once each and in order, without the configured
        prefix; a failing service can only cut it short. */
    method Scan(prefix: string) returns (keys: seq<string>, r: Outcome<Unit>)
      requires Valid()
      ensures r == Ok(Unit.Unit) || r == BlobError
      ensures service.healthy ==> r.Ok?
      ensures var all := Stripped(Listing(blob.RawPrefix() + prefix), |blob.RawPrefix()|);
        keys <= all && (r.Ok? ==> keys == all)
    {
      ghost var listing := Listing(blob.RawPrefix() + prefix);
      ghost var n := |blob.RawPrefix()|;
      ghost var start: nat := 0;
      ghost var token: Option<string> := None;
      var url := blob.ListUrl(prefix);
      keys := [];
      while true
        invariant start <= |listing| && url == blob.PageUrl(prefix, token) && token != Some("")
        invariant start == Position(token) && (start > 0 ==> start < |listing|)
        invariant keys == Stripped(listing[..start], n)
        decreases |listing| - start
      {
        var page, next;
        page, next, r := ScanPage(url, prefix, token);
        ghost var end := PageEnd(listing, start);
        StrippedParts(listing, start, end, n);
        if r == BlobError { return; }
        keys := keys + page;
        if next.None? { return; }
        token, start := next, end;
        url := blob.NextPageUrl(prefix, next.value);
      }
    }

    lemma StripListed(key: string, prefix: string)
      requires StartsWith(key, blob.RawPrefix() + prefix)
      ensures Stripped([key], |blob.RawPrefix()|) == [blob.StripPrefix(key)]
    {
      var raw := blob.RawPrefix();
      assert key == raw + key[|raw|..] by { assert key[..|raw|] == (raw + prefix)[..|raw|]; }
      blob.UnderRawPrefix(key[|raw|..]);
    }
  }

  lemma ListValues(prefix: string, token: Option<string>)
    requires token != Some("")
    ensures var texts := [("list-type", "2"), ("prefix", prefix)]
                         + (if token.Some? then [("continuation-token", token.value)] else []);
      Percent.FirstValue(texts, "prefix", "") == prefix &&
      Percent.FirstValue(texts, "continuation-token", "") == if token.Some? then token.value else ""
  {
    var more := if token.Some? then [("continuation-token", token.value)] else [];
    assert |"list-type"| == 9 && |"prefix"| == 6 && |"continuation-token"| == 18;
    assert [("list-type", "2"), ("prefix", prefix)] + more == [("list-type", "2")] + ([("prefix", prefix)] + more);
    S3Url.FirstValueSkips([("list-type", "2")], [("prefix", prefix)] + more, "prefix", "");
    S3Url.FirstValueSkips([("list-type", "2"), ("prefix", prefix)], more, "continuation-token", "");
  }

  lemma {:induction false} StrippedAppend(a: seq<string>, b: seq<string>, n: nat)
    ensures Stripped(a + b, n) == Stripped(a, n) + Stripped(b, n)
  {
    if a == [] {
      assert a + b == b;
    } else {
      assert (a + b)[1..] == a[1..] + b;
      StrippedAppend(a[1..], b, n);
    }
  }

  lemma StrippedParts(listing: seq<string>, start: nat, end: nat, n: nat)
    requires start <= end <= |listing|
    ensures Stripped(listing[..start], n) <= Stripped(listing, n)
    ensures Stripped(listing[..start], n) + Stripped(listing[start..end], n) == Stripped(listing[..end], n)
    ensures end == |listing| ==> Stripped(listing[..end], n) == Stripped(listing, n)
  {
    StrippedAppend(listing[..start], listing[start..], n);
    assert listing[..start] + listing[start..] == listing;
    StrippedAppend(listing[..start], listing[start..end], n);
    assert listing[..start] + listing[start..end] == listing[..end];
    if end == |listing| { assert listing[..end] == listing; }
  }

  lemma {:induction false} ListingHasNames(rows: seq<Row>, prefix: string)
    ensures forall k :: k in KeysWithPrefix(rows, prefix) ==> k in AsMap(rows) && StartsWith(k, prefix)
  {
    if rows != [] { ListingHasNames(rows[1..], prefix); }
  }

  // ---- the listing, relative to the configured prefix

  lemma PrefixMoves(raw: string, key: string, prefix: string)
    ensures StartsWith(raw + key, raw + prefix) <==> StartsWith(key, prefix)
    ensures StartsWith(raw + key, raw) && (raw + key)[|raw|..] == key
  {
    if |prefix| <= |key| {
      assert (raw + key)[..|raw + prefix|] == raw + key[..|prefix|];
      if raw + key[..|prefix|] == raw + prefix {
        assert (raw + key[..|prefix|])[|raw|..] == (raw + prefix)[|raw|..];
      }
    }
  }

  lemma RelativeKeys(m: FlatMap, raw: string)
    ensures forall k :: k in Relative(m, raw) <==> raw + k in m
    ensures forall k :: k in Relative(m, raw) ==> Relative(m, raw)[k] == m[raw + k]
  {
    forall k | raw + k in m ensures k in Relative(m, raw) { PrefixMoves(raw, k, ""); }
  }

  function Listed(rows: seq<Row>, raw: string, prefix: string): seq<string> {
    Stripped(KeysWithPrefix(rows, raw + prefix), |raw|)
  }

  lemma ListedCons(rows: seq<Row>, raw: string, prefix: string)
    requires rows != []
    ensures Listed(rows, raw, prefix)
         == (if StartsWith(rows[0].key, raw + prefix) then [rows[0].key[|raw|..]] else []) + Listed(rows[1..], raw, prefix)
  {
    var rest := KeysWithPrefix(rows[1..], raw + prefix);
    if StartsWith(rows[0].key, raw + prefix) {
      assert KeysWithPrefix(rows, raw + prefix)[1..] == rest;
    } else {
      assert KeysWithPrefix(rows, raw + prefix) == rest;
    }
  }

  lemma HasRaw(key: string, raw: string, prefix: string)
    requires StartsWith(key, raw + prefix)
    ensures key == raw + key[|raw|..] && StartsWith(key[|raw|..], prefix)
  {
    assert key[..|raw|] == (raw + prefix)[..|raw|];
    PrefixMoves(raw, key[|raw|..], prefix);
  }

  lemma {:induction false} ListedMembers(rows: seq<Row>, raw: string, prefix: string)
    ensures forall j :: j in Listed(rows, raw, prefix) <==> raw + j in AsMap(rows) && StartsWith(j, prefix)
  {
    if rows != [] {
      var key := rows[0].key;
      ListedMembers(rows[1..], raw, prefix);
      ListedCons(rows, raw, prefix);
      if StartsWith(key, raw + prefix) {
        HasRaw(key, raw, prefix);
        forall j | raw + j == key ensures j == key[|raw|..] { if j != key[|raw|..] { SameSuffix(raw, j, key[|raw|..]); } }
      } else {
        forall j | raw + j == key ensures !StartsWith(j, prefix) { PrefixMoves(raw, j, prefix); }
      }
    }
  }

  lemma {:induction false} ListedAscends(rows: seq<Row>, raw: string, prefix: string)
    requires Ascending(rows)
    ensures Distinct(Listed(rows, raw, prefix)) && AscendingKeys(Listed(rows, raw, prefix))
  {
    if rows != [] {
      ListedAscends(rows[1..], raw, prefix);
      ListedCons(rows, raw, prefix);
      var key, rest := rows[0].key, Listed(rows[1..], raw, prefix);
      if StartsWith(key, raw + prefix) {
        HasRaw(key, raw, prefix);
        ListedMembers(rows[1..], raw, prefix);
        forall j | j in rest ensures KeyLess(key[|raw|..], j) && j != key[|raw|..] {
          KeyLessUnder(raw, key[|raw|..], j);
          KeyOrder(j, j, j);
        }
        assert Listed(rows, raw, prefix)[1..] == rest;
      } else {
        assert Listed(rows, raw, prefix) == rest;
      }
    }
  }

  /** A paginated scan equals a filter: it lists, once each and in ascending order, exactly the keys of the store
      (the objects under the configured prefix, taken off) that start with the scan prefix. */
  lemma {:induction false} ListingIsFilter(rows: seq<Row>, raw: string, prefix: string)
    requires Ascending(rows)
    ensures var keys := Stripped(KeysWithPrefix(rows, raw + prefix), |raw|);
      Distinct(keys) && AscendingKeys(keys) &&
      forall k :: k in keys <==> k in Matching(Relative(AsMap(rows), raw), prefix)
  {
    ListedMembers(rows, raw, prefix);
    ListedAscends(rows, raw, prefix);
    RelativeKeys(AsMap(rows), raw);
  }

  lemma SameSuffix(raw: string, j: string, k: string)
    requires j != k
    ensures raw + j != raw + k
  {
    assert (raw + j)[|raw|..] == j && (raw + k)[|raw|..] == k;
  }

  lemma KeyLessUnder(raw: string, a: string, b: string)
    ensures KeyLess(raw + a, raw + b) <==> KeyLess(a, b)
  {
    Utf8.EncodeAppend(raw, a);
    Utf8.EncodeAppend(raw, b);
    Lexicographic.CommonPrefix(Utf8.Encode(raw), Utf8.Encode(a), Utf8.Encode(b));
  }
}
