/** Listing responses: what the service writes and what `list_objects` reads. */
module S3Listing {
  import opened Basics
  import opened S3Xml

  /** The element names of a listing response. */
  datatype Names = Names(list: string, name: string, contents: string, key: string, size: string, token: string) {
    predicate Usable() {
      '}' !in list && '}' !in name && '}' !in contents && '}' !in key && '}' !in size && '}' !in token &&
      name != contents && key != contents && size != contents &&
      key != token && size != key && name != key && list != key && contents != key &&
      name != token && contents != token && size != token && list != token
    }

    const keyField: Field := [contents, key]
    const tokenField: Field := [list, token]

    /** The two fields come out of a Python set, so in either order. */
    predicate Fields(fields: seq<Field>) {
      fields == [keyField, tokenField] || fields == [tokenField, keyField]
    }
  }

  const S3_NAMES := Names("ListBucketResult", "Name", "Contents", "Key", "Size", "NextContinuationToken")

  lemma ServiceNamesUsable()
    ensures S3_NAMES.Usable()
  {
    assert |S3_NAMES.list| == 16 && |S3_NAMES.name| == 4 && |S3_NAMES.contents| == 8;
    assert |S3_NAMES.key| == 3 && |S3_NAMES.size| == 4 && |S3_NAMES.token| == 21;
  }

  lemma ListingFields()
    ensures S3_NAMES.keyField == ["Contents", "Key"] && S3_NAMES.tokenField == ["ListBucketResult", "NextContinuationToken"]
  {
  }

  /** `list_objects` on the values collected: non-empty keys, and the first token unless it is empty. */
  function ListObjects(values: Values, names: Names): (seq<string>, Option<string>)
    requires names.keyField in values && names.tokenField in values
  {
    var tokens := values[names.tokenField];
    (NonEmpty(values[names.keyField]), if tokens != [] && tokens[0] != "" then Some(tokens[0]) else None)
  }

  // ---- the response document

  /** A tag in the service's namespace, as Expat reports it. */
  function Tag(namespace: string, local: string): string {
    if namespace == "" then local else namespace + "}" + local
  }

  function Leaf(namespace: string, name: string, text: string, next: Xml): Xml {
    Element(Tag(namespace, name), Chars(text, Empty), next)
  }

  function ContentsXml(n: Names, namespace: string, keys: seq<string>, tail: Xml): Xml {
    if keys == [] then tail
    else Element(Tag(namespace, n.contents),
                 Entry(n, namespace, keys[0]),
                 ContentsXml(n, namespace, keys[1..], tail))
  }

  function TokenXml(n: Names, namespace: string, token: Option<string>): Xml {
    if token.None? then Empty else Leaf(namespace, n.token, token.value, Empty)
  }

  function PageXml(n: Names, namespace: string, bucket: string, keys: seq<string>, token: Option<string>): Xml {
    Element(Tag(namespace, n.list),
            Leaf(namespace, n.name, bucket, ContentsXml(n, namespace, keys, TokenXml(n, namespace, token))),
            Empty)
  }

  lemma LocalNameOfTag(namespace: string, local: string)
    requires '}' !in local
    ensures LocalName(Tag(namespace, local)) == local
  {
    SplitOne(local, '}');
    if namespace != "" {
      SplitLast(namespace, '}', local);
      assert namespace + "}" + local == namespace + ['}'] + local;
    }
  }

  /** Where the fields match in a listing: at a key inside contents, and at a token inside the list. */
  lemma PathMatches(n: Names, fields: seq<Field>)
    requires n.Usable() && n.Fields(fields)
    ensures FirstMatch([n.list], fields) == None
    ensures FirstMatch([n.list, n.name], fields) == None
    ensures FirstMatch([n.list, n.contents], fields) == None
    ensures FirstMatch([n.list, n.contents, n.key], fields) == Some(n.keyField)
    ensures FirstMatch([n.list, n.contents, n.size], fields) == None
    ensures FirstMatch([n.list, n.token], fields) == Some(n.tokenField)
  {
    LastTwo([n.list, n.contents, n.key], n.list, n.contents, n.key, fields, n);
    LastTwo([n.list, n.contents, n.size], n.list, n.contents, n.size, fields, n);
    TwoOnly(n.list, n.name, fields, n);
    TwoOnly(n.list, n.contents, fields, n);
    TwoOnly(n.list, n.token, fields, n);
    assert |[n.list]| < |n.keyField| && |[n.list]| < |n.tokenField|;
    FirstOfTwo([n.list], fields);
  }

  /** No element ends in both fields of a listing, so streaming and query differ on it only if elements are nested. */
  lemma ListingFieldsNeverClash(n: Names, fields: seq<Field>, document: Xml, path: Path)
    requires n.Usable() && n.Fields(fields)
    ensures !Clashing(document, path, fields)
  {
    match document
    case Empty =>
    case Chars(_, next) => ListingFieldsNeverClash(n, fields, next, path);
    case Element(tag, body, next) =>
      assert n.keyField[1] != n.tokenField[1];
      ListingFieldsNeverClash(n, fields, body, path + [LocalName(tag)]);
      ListingFieldsNeverClash(n, fields, next, path);
  }

  lemma FirstOfTwo(path: Path, fields: seq<Field>)
    requires |fields| == 2
    ensures FirstMatch(path, fields) == if Matches(path, fields[0]) then Some(fields[0])
                                        else if Matches(path, fields[1]) then Some(fields[1]) else None
  {
    assert fields[1..][0] == fields[1] && fields[1..][1..] == [];
    assert FirstMatch(path, fields[1..][1..]) == None;
    assert FirstMatch(path, fields[1..]) == if Matches(path, fields[1]) then Some(fields[1]) else None;
  }

  /** Whichever of two fields comes first, the one that the path ends in is found, if it ends in one at most. */
  lemma FirstOfEither(path: Path, fields: seq<Field>, f: Field, g: Field)
    requires fields == [f, g] || fields == [g, f]
    requires !(Matches(path, f) && Matches(path, g))
    ensures FirstMatch(path, fields) == if Matches(path, f) then Some(f) else if Matches(path, g) then Some(g) else None
  {
    FirstOfTwo(path, fields);
  }

  lemma MatchesWhole(path: Path, field: Field)
    requires |path| == |field|
    ensures Matches(path, field) <==> path == field
  {
    assert path[0..] == path;
  }

  lemma MatchesEnd(path: Path, end: Path, field: Field)
    requires |path| > |end| == |field| > 0 && path[|path| - |end|..] == end
    ensures Matches(path, field) <==> end == field
  {
  }

  lemma FieldsDiffer(n: Names)
    requires n.Usable()
    ensures n.keyField != n.tokenField
  {
    assert n.keyField[1] != n.tokenField[1];
  }

  lemma TwoOnly(a: string, b: string, fields: seq<Field>, n: Names)
    requires n.Usable() && n.Fields(fields)
    ensures FirstMatch([a, b], fields) == if [a, b] == n.keyField then Some(n.keyField)
                                          else if [a, b] == n.tokenField then Some(n.tokenField) else None
  {
    MatchesWhole([a, b], n.keyField);
    MatchesWhole([a, b], n.tokenField);
    FieldsDiffer(n);
    FirstOfEither([a, b], fields, n.keyField, n.tokenField);
  }

  lemma LastTwo(path: Path, a: string, b: string, c: string, fields: seq<Field>, n: Names)
    requires n.Usable() && n.Fields(fields) && path == [a, b, c]
    ensures FirstMatch(path, fields) == if [b, c] == n.keyField then Some(n.keyField)
                                        else if [b, c] == n.tokenField then Some(n.tokenField) else None
  {
    assert path[1..] == [b, c];
    MatchesEnd(path, [b, c], n.keyField);
    MatchesEnd(path, [b, c], n.tokenField);
    FieldsDiffer(n);
    FirstOfEither(path, fields, n.keyField, n.tokenField);
  }

  lemma LeafFound(namespace: string, name: string, text: string, next: Xml, path: Path, fields: seq<Field>, f: Field)
    requires '}' !in name
    ensures Innermost(Leaf(namespace, name, text, next), path, fields, f)
         == (if FirstMatch(path + [name], fields) == Some(f) then [text] else []) + Innermost(next, path, fields, f)
  {
    LocalNameOfTag(namespace, name);
    var leaf := Chars(text, Empty);
    assert FullText(leaf) == text + FullText(Empty) && text + "" == text;
    assert !HasMatch(leaf, path + [name], fields);
  }

  /** An element that matches no field is looked through. */
  lemma LookedThrough(tag: string, name: string, body: Xml, next: Xml, path: Path, fields: seq<Field>, f: Field)
    requires LocalName(tag) == name && FirstMatch(path + [name], fields).None?
    ensures Innermost(Element(tag, body, next), path, fields, f)
         == Innermost(body, path + [name], fields, f) + Innermost(next, path, fields, f)
  {
    if !HasMatch(body, path + [name], fields) { NoMatchNothing(body, path + [name], fields, f); }
  }

  function Entry(n: Names, namespace: string, key: string): Xml {
    Leaf(namespace, n.key, key, Leaf(namespace, n.size, "0", Empty))
  }

  lemma EntryFound(n: Names, namespace: string, key: string, fields: seq<Field>, f: Field)
    requires n.Usable() && n.Fields(fields)
    ensures Innermost(Entry(n, namespace, key), [n.list, n.contents], fields, f) == if f == n.keyField then [key] else []
  {
    var path := [n.list, n.contents];
    assert path + [n.key] == [n.list, n.contents, n.key] && path + [n.size] == [n.list, n.contents, n.size];
    PathMatches(n, fields);
    LeafFound(namespace, n.size, "0", Empty, path, fields, f);
    LeafFound(namespace, n.key, key, Leaf(namespace, n.size, "0", Empty), path, fields, f);
  }

  lemma ContentsStep(n: Names, namespace: string, key: string, rest: Xml, fields: seq<Field>, f: Field)
    requires n.Usable() && n.Fields(fields)
    ensures Innermost(Element(Tag(namespace, n.contents), Entry(n, namespace, key), rest), [n.list], fields, f)
         == (if f == n.keyField then [key] else []) + Innermost(rest, [n.list], fields, f)
  {
    assert [n.list] + [n.contents] == [n.list, n.contents];
    assert FirstMatch([n.list, n.contents], fields).None? by { PathMatches(n, fields); }
    assert LocalName(Tag(namespace, n.contents)) == n.contents by { LocalNameOfTag(namespace, n.contents); }
    EntryFound(n, namespace, key, fields, f);
    LookedThrough(Tag(namespace, n.contents), n.contents, Entry(n, namespace, key), rest, [n.list], fields, f);
  }

  lemma {:induction false} ContentsFound(n: Names, namespace: string, keys: seq<string>, tail: Xml, fields: seq<Field>, f: Field)
    requires n.Usable() && n.Fields(fields)
    ensures Innermost(ContentsXml(n, namespace, keys, tail), [n.list], fields, f)
         == (if f == n.keyField then keys else []) + Innermost(tail, [n.list], fields, f)
  {
    if keys == [] {
      assert [] + Innermost(tail, [n.list], fields, f) == Innermost(tail, [n.list], fields, f);
    } else {
      ContentsFound(n, namespace, keys[1..], tail, fields, f);
      ContentsStep(n, namespace, keys[0], ContentsXml(n, namespace, keys[1..], tail), fields, f);
      KeysThen(keys, Innermost(tail, [n.list], fields, f));
    }
  }

  lemma KeysThen(keys: seq<string>, rest: seq<string>)
    requires keys != []
    ensures [keys[0]] + (keys[1..] + rest) == keys + rest
  {}

  lemma PageFound(n: Names, namespace: string, bucket: string, keys: seq<string>, token: Option<string>,
                  fields: seq<Field>, f: Field)
    requires n.Usable() && n.Fields(fields) && f in fields
    ensures Innermost(PageXml(n, namespace, bucket, keys, token), [], fields, f)
         == if f == n.keyField then keys else if token.Some? then [token.value] else []
  {
    var tail := TokenXml(n, namespace, token);
    var contents := ContentsXml(n, namespace, keys, tail);
    RootFound(n, namespace, Leaf(namespace, n.name, bucket, contents), fields, f);
    BodyFound(n, namespace, bucket, contents, fields, f);
    ContentsFound(n, namespace, keys, tail, fields, f);
    TokenFound(n, namespace, token, fields, f);
    KeysOrToken(n, fields, f, keys, token, Innermost(tail, [n.list], fields, f));
  }

  lemma KeysOrToken(n: Names, fields: seq<Field>, f: Field, keys: seq<string>, token: Option<string>, last: seq<string>)
    requires n.Usable() && n.Fields(fields) && f in fields
    requires last == if f == n.tokenField && token.Some? then [token.value] else []
    ensures (if f == n.keyField then keys else []) + last
         == if f == n.keyField then keys else if token.Some? then [token.value] else []
  {
    FieldsDiffer(n);
    assert keys + [] == keys && [] + last == last;
  }

  lemma RootFound(n: Names, namespace: string, body: Xml, fields: seq<Field>, f: Field)
    requires n.Usable() && n.Fields(fields)
    ensures Innermost(Element(Tag(namespace, n.list), body, Empty), [], fields, f) == Innermost(body, [n.list], fields, f)
  {
    LocalNameOfTag(namespace, n.list);
    assert [] + [n.list] == [n.list];
    PathMatches(n, fields);
    LookedThrough(Tag(namespace, n.list), n.list, body, Empty, [], fields, f);
    assert Innermost(body, [n.list], fields, f) + [] == Innermost(body, [n.list], fields, f);
  }

  lemma BodyFound(n: Names, namespace: string, bucket: string, contents: Xml, fields: seq<Field>, f: Field)
    requires n.Usable() && n.Fields(fields)
    ensures Innermost(Leaf(namespace, n.name, bucket, contents), [n.list], fields, f)
         == Innermost(contents, [n.list], fields, f)
  {
    assert [n.list] + [n.name] == [n.list, n.name];
    assert FirstMatch([n.list, n.name], fields).None? by { PathMatches(n, fields); }
    LeafFound(namespace, n.name, bucket, contents, [n.list], fields, f);
  }

  lemma TokenFound(n: Names, namespace: string, token: Option<string>, fields: seq<Field>, f: Field)
    requires n.Usable() && n.Fields(fields)
    ensures Innermost(TokenXml(n, namespace, token), [n.list], fields, f)
         == if f == n.tokenField && token.Some? then [token.value] else []
  {
    if token.Some? {
      assert [n.list] + [n.token] == [n.list, n.token];
      assert FirstMatch([n.list, n.token], fields) == Some(n.tokenField) by { PathMatches(n, fields); }
      LeafFound(namespace, n.token, token.value, Empty, [n.list], fields, f);
    }
  }

  lemma {:induction false} NonEmptyIdentity(parts: seq<string>)
    requires "" !in parts
    ensures NonEmpty(parts) == parts
  {
    if parts != [] {
      assert parts[0] in parts;
      NonEmptyIdentity(parts[1..]);
    }
  }

  /** A page is read back as it was written: its keys in order, but for empty ones, and its token if it has one that is not
      empty. */
  lemma {:induction false} PageReadBack(n: Names, namespace: string, bucket: string, keys: seq<string>, token: Option<string>,
                     fields: seq<Field>, document: Xml)
    requires n.Usable() && n.Fields(fields)
    requires Joined(document) == Joined(PageXml(n, namespace, bucket, keys, token))
    ensures ListObjects(Found(document, fields), n) == (NonEmpty(keys), if token == Some("") then None else token)
  {
    var page := PageXml(n, namespace, bucket, keys, token);
    SameFound(document, page, fields);
    assert fields[0] in fields && fields[1] in fields && n.keyField in fields && n.tokenField in fields;
    FieldsRead(n, namespace, bucket, keys, token, fields);
  }

  lemma FieldsRead(n: Names, namespace: string, bucket: string, keys: seq<string>, token: Option<string>, fields: seq<Field>)
    requires n.Usable() && n.Fields(fields) && n.keyField in fields && n.tokenField in fields
    ensures var found := Found(PageXml(n, namespace, bucket, keys, token), fields);
      found[n.keyField] == keys && found[n.tokenField] == if token.Some? then [token.value] else []
  {
    PageFound(n, namespace, bucket, keys, token, fields, n.keyField);
    PageFound(n, namespace, bucket, keys, token, fields, n.tokenField);
    assert n.keyField[1] != n.tokenField[1];
  }
}
