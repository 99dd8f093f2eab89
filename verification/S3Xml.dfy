/** The streaming XML reader of the S3 backend against a query of the element tree. */
module S3Xml {
  import opened Basics

  /** A run of sibling nodes. Adjacent character nodes are the pieces in which a parser reports one text. */
  datatype Xml =
    | Empty
    | Chars(text: string, next: Xml)
    | Element(tag: string, body: Xml, next: Xml)

  /** What Expat reports to its handlers. */
  datatype Event = Start(tag: string) | Data(text: string) | Finish

  function Events(x: Xml): seq<Event> {
    match x
    case Empty => []
    case Chars(text, next) => [Data(text)] + Events(next)
    case Element(tag, body, next) => [Start(tag)] + Events(body) + [Finish] + Events(next)
  }

  type Path = seq<string>
  type Field = seq<string>

  /** A tag is reported as namespace}name, or as a bare name. */
  function LocalName(tag: string): string {
    var parts := Split(tag, '}');
    parts[|parts| - 1]
  }

  /** Python's `path[-n:]`. */
  function LastItems(path: Path, n: nat): Path {
    if n == 0 || n > |path| then path else path[|path| - n..]
  }

  predicate Matches(path: Path, field: Field) {
    |path| >= |field| && LastItems(path, |field|) == field
  }

  /** The first field that the path ends in. */
  function FirstMatch(path: Path, fields: seq<Field>): Option<Field> {
    if fields == [] then None
    else if Matches(path, fields[0]) then Some(fields[0])
    else FirstMatch(path, fields[1..])
  }

  // ---- the handlers

  type Values = map<Field, seq<string>>

  datatype Reader = Reader(path: Path, active: Option<Field>, text: seq<string>, values: Values)

  function OnStart(r: Reader, fields: seq<Field>, tag: string): Reader {
    var path := r.path + [LocalName(tag)];
    var found := FirstMatch(path, fields);
    if found.Some? then r.(path := path, active := found, text := []) else r.(path := path)
  }

  function OnData(r: Reader, text: string): Reader {
    if r.active.Some? then r.(text := r.text + [text]) else r
  }

  function Listed(values: Values, field: Field): seq<string> {
    if field in values then values[field] else []
  }

  function OnFinish(r: Reader): Reader
    requires r.path != []
  {
    var path := r.path[..|r.path| - 1];
    if r.active.Some? && LastItems(r.path, |r.active.value|) == r.active.value then
      var field := r.active.value;
      Reader(path, None, [], r.values[field := Listed(r.values, field) + [Flatten(r.text)]])
    else r.(path := path)
  }

  /** The closures of `_parse_xml_fields` and the variables they share. */
  class FieldReader {
    const fields: seq<Field>
    var path: Path
    var active: Option<Field>
    var text: seq<string>
    var values: Values

    ghost predicate Valid()
      reads this
    {
      (forall f :: f in fields ==> f in values) && (active.Some? ==> active.value in fields)
    }

    ghost function State(): Reader
      reads this
    {
      Reader(path, active, text, values)
    }

    constructor (fields: seq<Field>)
      ensures Valid() && this.fields == fields
      ensures State() == Reader([], None, [], map f | f in fields :: [])
    {
      this.fields := fields;
      path, active, text := [], None, [];
      values := map f | f in fields :: [];
    }

    method StartElement(tag: string)
      requires Valid()
      modifies this
      ensures Valid() && State() == OnStart(old(State()), fields, tag)
    {
      path := path + [LocalName(tag)];
      label pushed:
      var i := 0;
      while i < |fields|
        invariant 0 <= i <= |fields| && Valid()
        invariant State() == old@pushed(State())
        invariant FirstMatch(path, fields) == FirstMatch(path, fields[i..])
      {
        assert fields[i..][0] == fields[i] && fields[i..][1..] == fields[i + 1..];
        if Matches(path, fields[i]) {
          active := Some(fields[i]);
          text := [];
          break;
        }
        i := i + 1;
      }
    }

    method CharacterData(value: string)
      requires Valid()
      modifies this
      ensures Valid() && State() == OnData(old(State()), value)
    {
      if active.Some? { text := text + [value]; }
    }

    method EndElement()
      requires Valid() && path != []
      modifies this
      ensures Valid() && State() == OnFinish(old(State()))
    {
      if active.Some? && LastItems(path, |active.value|) == active.value {
        var field := active.value;
        values := values[field := values[field] + [Flatten(text)]];
        active := None;
        text := [];
      }
      path := path[..|path| - 1];
    }
  }

  /** The reader after a run of events; None if an element ends that never started. */
  function Run(events: seq<Event>, r: Reader, fields: seq<Field>): Option<Reader> {
    if events == [] then Some(r)
    else match events[0]
      case Start(tag) => Run(events[1..], OnStart(r, fields, tag), fields)
      case Data(text) => Run(events[1..], OnData(r, text), fields)
      case Finish =>
        if r.path == [] then None
        else Run(events[1..], OnFinish(r), fields)
  }

  function Fresh(fields: seq<Field>): Reader {
    Reader([], None, [], map f | f in fields :: [])
  }

  /** `_parse_xml_fields` on the events of a document. */
  method ParseFields(document: Xml, fields: seq<Field>) returns (values: Values)
    ensures values == Found(document, fields)
  {
    var reader := new FieldReader(fields);
    var events := Events(document);
    DocumentRead(document, fields);
    for i := 0 to |events|
      invariant reader.Valid() && reader.fields == fields
      invariant Run(events, Fresh(fields), fields) == Run(events[i..], reader.State(), fields)
    {
      assert events[i..][0] == events[i] && events[i..][1..] == events[i + 1..];
      match events[i]
      case Start(tag) => reader.StartElement(tag);
      case Data(text) => reader.CharacterData(text);
      case Finish => reader.EndElement();
    }
    values := reader.values;
  }

  // ---- the tree queries

  function FullText(x: Xml): string {
    match x
    case Empty => ""
    case Chars(text, next) => text + FullText(next)
    case Element(_, body, next) => FullText(body) + FullText(next)
  }

  /** Some element among the nodes, which stand under `path`, ends in a field. */
  predicate HasMatch(x: Xml, path: Path, fields: seq<Field>) {
    match x
    case Empty => false
    case Chars(_, next) => HasMatch(next, path, fields)
    case Element(tag, body, next) =>
      var inner := path + [LocalName(tag)];
      FirstMatch(inner, fields).Some? || HasMatch(body, inner, fields) || HasMatch(next, path, fields)
  }

  predicate EndsIn(path: Path, field: Field) {
    |field| <= |path| && path[|path| - |field|..] == field
  }

  /** The full text of every element whose path ends in `field`, in document order. */
  function Query(x: Xml, path: Path, field: Field): seq<string> {
    match x
    case Empty => []
    case Chars(_, next) => Query(next, path, field)
    case Element(tag, body, next) =>
      var inner := path + [LocalName(tag)];
      (if EndsIn(inner, field) then [FullText(body)] else []) + Query(body, inner, field) + Query(next, path, field)
  }

  /** The same for the matching elements that hold no other matching element. */
  function Innermost(x: Xml, path: Path, fields: seq<Field>, field: Field): seq<string> {
    match x
    case Empty => []
    case Chars(_, next) => Innermost(next, path, fields, field)
    case Element(tag, body, next) =>
      var inner := path + [LocalName(tag)];
      (if HasMatch(body, inner, fields) then Innermost(body, inner, fields, field)
       else if FirstMatch(inner, fields) == Some(field) then [FullText(body)]
       else [])
      + Innermost(next, path, fields, field)
  }

  /** A matching element stands inside another matching element. */
  predicate Nested(x: Xml, path: Path, fields: seq<Field>) {
    match x
    case Empty => false
    case Chars(_, next) => Nested(next, path, fields)
    case Element(tag, body, next) =>
      var inner := path + [LocalName(tag)];
      (FirstMatch(inner, fields).Some? && HasMatch(body, inner, fields))
      || Nested(body, inner, fields) || Nested(next, path, fields)
  }

  /** The path ends in two of the fields, or in the empty field, which every path ends in. */
  predicate Clash(path: Path, fields: seq<Field>) {
    [] in fields || exists f, g :: f in fields && g in fields && f != g && EndsIn(path, f) && EndsIn(path, g)
  }

  /** Some element ends in two fields. */
  predicate Clashing(x: Xml, path: Path, fields: seq<Field>) {
    match x
    case Empty => false
    case Chars(_, next) => Clashing(next, path, fields)
    case Element(tag, body, next) =>
      var inner := path + [LocalName(tag)];
      Clash(inner, fields) || Clashing(body, inner, fields) || Clashing(next, path, fields)
  }

  // ---- the reader computes the query

  lemma {:induction false} RunAppend(a: seq<Event>, b: seq<Event>, r: Reader, fields: seq<Field>)
    ensures Run(a + b, r, fields)
         == if Run(a, r, fields).None? then None else Run(b, Run(a, r, fields).value, fields)
  {
    if a == [] {
      assert a + b == b;
    } else {
      assert (a + b)[1..] == a[1..] + b && (a + b)[0] == a[0];
      match a[0]
      case Start(tag) => RunAppend(a[1..], b, OnStart(r, fields, tag), fields);
      case Data(text) => RunAppend(a[1..], b, OnData(r, text), fields);
      case Finish =>
        if r.path != [] { RunAppend(a[1..], b, OnFinish(r), fields); }
    }
  }

  function TextPieces(x: Xml): seq<string> {
    match x
    case Empty => []
    case Chars(text, next) => [text] + TextPieces(next)
    case Element(_, body, next) => TextPieces(body) + TextPieces(next)
  }

  lemma {:induction false} PiecesMakeText(x: Xml)
    ensures Flatten(TextPieces(x)) == FullText(x)
  {
    match x
    case Empty =>
    case Chars(_, next) => PiecesMakeText(next);
    case Element(_, body, next) =>
      PiecesMakeText(body);
      PiecesMakeText(next);
      FlattenAppend(TextPieces(body), TextPieces(next));
  }

  ghost predicate Good(r: Reader, fields: seq<Field>) {
    (forall f :: f in fields ==> f in r.values) &&
    (r.active.Some? ==> r.active.value in fields) && (r.active.None? ==> r.text == [])
  }

  function Collected(values: Values, x: Xml, path: Path, fields: seq<Field>): Values {
    map f | f in values :: values[f] + Innermost(x, path, fields, f)
  }

  /** What reading the nodes does to the reader, whatever it was doing. */
  function After(x: Xml, r: Reader, fields: seq<Field>): Reader {
    if HasMatch(x, r.path, fields) then Reader(r.path, None, [], Collected(r.values, x, r.path, fields))
    else if r.active.Some? then r.(text := r.text + TextPieces(x))
    else r
  }

  lemma {:induction false} FirstMatchIsMatch(path: Path, fields: seq<Field>)
    ensures FirstMatch(path, fields).Some? ==>
      FirstMatch(path, fields).value in fields && Matches(path, FirstMatch(path, fields).value)
    ensures FirstMatch(path, fields).None? ==> forall f :: f in fields ==> !Matches(path, f)
  {
    if fields != [] { FirstMatchIsMatch(path, fields[1..]); }
  }

  lemma {:induction false} NoMatchNothing(x: Xml, path: Path, fields: seq<Field>, field: Field)
    requires !HasMatch(x, path, fields)
    ensures Innermost(x, path, fields, field) == []
  {
    match x
    case Empty =>
    case Chars(_, next) => NoMatchNothing(next, path, fields, field);
    case Element(tag, body, next) => NoMatchNothing(next, path, fields, field);
  }

  /** For every tree, chunked in any way: one pass over the nodes collects the innermost matching elements,
      and leaves the path stack as it was. */
  lemma {:induction false} RunReads(x: Xml, r: Reader, fields: seq<Field>)
    requires Good(r, fields)
    ensures Run(Events(x), r, fields) == Some(After(x, r, fields)) && Good(After(x, r, fields), fields)
    decreases x
  {
    match x
    case Empty =>
      assert r.text + [] == r.text;
    case Chars(text, next) =>
      RunReads(next, OnData(r, text), fields);
      CharsRead(text, next, r, fields);
    case Element(tag, body, next) =>
      var begun := OnStart(r, fields, tag);
      FirstMatchIsMatch(begun.path, fields);
      RunReads(body, begun, fields);
      var read := After(body, begun, fields);
      ElementRead(tag, body, next, r, fields);
      RunReads(next, OnFinish(read), fields);
      RunElement(tag, body, next, r, read, fields);
  }

  /** Character data between other nodes. */
  lemma CharsRead(text: string, next: Xml, r: Reader, fields: seq<Field>)
    requires Good(r, fields) && Good(After(next, OnData(r, text), fields), fields)
    requires Run(Events(next), OnData(r, text), fields) == Some(After(next, OnData(r, text), fields))
    ensures var x := Chars(text, next);
      Run(Events(x), r, fields) == Some(After(x, r, fields)) && Good(After(x, r, fields), fields)
  {
    assert Events(Chars(text, next))[1..] == Events(next);
    AfterChars(text, next, r, fields);
  }

  lemma AfterChars(text: string, next: Xml, r: Reader, fields: seq<Field>)
    ensures After(Chars(text, next), r, fields) == After(next, OnData(r, text), fields)
  {
    var x := Chars(text, next);
    assert HasMatch(x, r.path, fields) == HasMatch(next, r.path, fields);
    assert r.text + [text] + TextPieces(next) == r.text + TextPieces(x);
    CollectedIs(r.values, next, r.path, fields, Collected(r.values, x, r.path, fields));
  }

  lemma RunElement(tag: string, body: Xml, next: Xml, r: Reader, read: Reader, fields: seq<Field>)
    requires Run(Events(body), OnStart(r, fields, tag), fields) == Some(read) && read.path != []
    ensures Run(Events(Element(tag, body, next)), r, fields) == Run(Events(next), OnFinish(read), fields)
  {
    var tail := [Finish] + Events(next);
    var rest := Events(body) + tail;
    assert Events(Element(tag, body, next)) == [Start(tag)] + rest;
    assert ([Start(tag)] + rest)[1..] == rest && tail[1..] == Events(next);
    RunAppend(Events(body), tail, OnStart(r, fields, tag), fields);
  }

  /** The step of the induction: an element read between two runs of nodes. */
  lemma ElementRead(tag: string, body: Xml, next: Xml, r: Reader, fields: seq<Field>)
    requires Good(r, fields)
    requires Good(After(body, OnStart(r, fields, tag), fields), fields)
    ensures var read := After(body, OnStart(r, fields, tag), fields);
      Good(OnFinish(read), fields) &&
      After(next, OnFinish(read), fields) == After(Element(tag, body, next), r, fields)
  {
    var inner := r.path + [LocalName(tag)];
    FirstMatchIsMatch(inner, fields);
    if HasMatch(body, inner, fields) {
      OuterRead(tag, body, next, r, fields);
    } else if FirstMatch(inner, fields).Some? {
      MatchRead(tag, body, next, r, fields);
    } else {
      PlainRead(tag, body, next, r, fields);
    }
  }

  lemma ConcatAssociates(a: seq<string>, b: seq<string>, c: seq<string>)
    ensures a + (b + c) == (a + b) + c && [] + c == c && a + [] == a
  {}

  /** What an element adds to what follows it. */
  function Own(tag: string, body: Xml, path: Path, fields: seq<Field>, f: Field): seq<string> {
    var inner := path + [LocalName(tag)];
    if HasMatch(body, inner, fields) then Innermost(body, inner, fields, f)
    else if FirstMatch(inner, fields) == Some(f) then [FullText(body)]
    else []
  }

  lemma CollectedElement(values: Values, tag: string, body: Xml, next: Xml, path: Path, fields: seq<Field>, first: Values)
    requires first.Keys == values.Keys
    requires forall f :: f in values ==> first[f] == values[f] + Own(tag, body, path, fields, f)
    ensures Collected(first, next, path, fields) == Collected(values, Element(tag, body, next), path, fields)
  {
    var whole := Collected(values, Element(tag, body, next), path, fields);
    forall f | f in values ensures whole[f] == first[f] + Innermost(next, path, fields, f) {
      InnermostElement(tag, body, next, path, fields, f);
      ConcatAssociates(values[f], Own(tag, body, path, fields, f), Innermost(next, path, fields, f));
    }
    CollectedIs(first, next, path, fields, whole);
  }

  lemma InnermostElement(tag: string, body: Xml, next: Xml, path: Path, fields: seq<Field>, f: Field)
    ensures Innermost(Element(tag, body, next), path, fields, f)
         == Own(tag, body, path, fields, f) + Innermost(next, path, fields, f)
  {}

  lemma CollectedIs(values: Values, x: Xml, path: Path, fields: seq<Field>, other: Values)
    requires other.Keys == values.Keys
    requires forall f :: f in values ==> other[f] == values[f] + Innermost(x, path, fields, f)
    ensures Collected(values, x, path, fields) == other
  {}

  lemma {:induction false} CollectedOuter(values: Values, tag: string, body: Xml, next: Xml, path: Path, fields: seq<Field>)
    requires HasMatch(body, path + [LocalName(tag)], fields)
    ensures Collected(Collected(values, body, path + [LocalName(tag)], fields), next, path, fields)
         == Collected(values, Element(tag, body, next), path, fields)
  {
    CollectedElement(values, tag, body, next, path, fields, Collected(values, body, path + [LocalName(tag)], fields));
  }

  lemma CollectedMatch(values: Values, tag: string, body: Xml, next: Xml, path: Path, fields: seq<Field>)
    requires !HasMatch(body, path + [LocalName(tag)], fields)
    requires var found := FirstMatch(path + [LocalName(tag)], fields); found.Some? && found.value in values
    ensures var field := FirstMatch(path + [LocalName(tag)], fields).value;
      Collected(values[field := values[field] + [FullText(body)]], next, path, fields)
      == Collected(values, Element(tag, body, next), path, fields)
  {
    var field := FirstMatch(path + [LocalName(tag)], fields).value;
    var first := values[field := values[field] + [FullText(body)]];
    forall f | f in values ensures first[f] == values[f] + Own(tag, body, path, fields, f) {
      ConcatAssociates(values[f], [], []);
    }
    CollectedElement(values, tag, body, next, path, fields, first);
  }

  lemma CollectedPlain(values: Values, tag: string, body: Xml, next: Xml, path: Path, fields: seq<Field>)
    requires !HasMatch(body, path + [LocalName(tag)], fields) && FirstMatch(path + [LocalName(tag)], fields).None?
    ensures Collected(values, next, path, fields) == Collected(values, Element(tag, body, next), path, fields)
  {
    forall f | f in values ensures values[f] == values[f] + Own(tag, body, path, fields, f) {
      ConcatAssociates(values[f], [], []);
    }
    CollectedElement(values, tag, body, next, path, fields, values);
  }

  /** After an element that holds a match: nothing is active, whatever was. */
  lemma {:induction false} OuterRead(tag: string, body: Xml, next: Xml, r: Reader, fields: seq<Field>)
    requires Good(r, fields) && HasMatch(body, r.path + [LocalName(tag)], fields)
    ensures var closed := OnFinish(After(body, OnStart(r, fields, tag), fields));
      Good(closed, fields) && After(next, closed, fields) == After(Element(tag, body, next), r, fields)
  {
    var inner := r.path + [LocalName(tag)];
    var closed := OnFinish(After(body, OnStart(r, fields, tag), fields));
    assert closed == Reader(r.path, None, [], Collected(r.values, body, inner, fields));
    CollectedOuter(r.values, tag, body, next, r.path, fields);
    CollectedRest(closed, next, fields);
  }

  /** After a match that holds none: its text has been collected. */
  lemma MatchRead(tag: string, body: Xml, next: Xml, r: Reader, fields: seq<Field>)
    requires Good(r, fields) && !HasMatch(body, r.path + [LocalName(tag)], fields)
    requires FirstMatch(r.path + [LocalName(tag)], fields).Some?
    ensures var closed := OnFinish(After(body, OnStart(r, fields, tag), fields));
      Good(closed, fields) && After(next, closed, fields) == After(Element(tag, body, next), r, fields)
  {
    var inner := r.path + [LocalName(tag)];
    var field := FirstMatch(inner, fields).value;
    FirstMatchIsMatch(inner, fields);
    PiecesMakeText(body);
    assert [] + TextPieces(body) == TextPieces(body);
    var closed := OnFinish(After(body, OnStart(r, fields, tag), fields));
    assert closed == Reader(r.path, None, [], r.values[field := r.values[field] + [FullText(body)]]);
    CollectedMatch(r.values, tag, body, next, r.path, fields);
    CollectedRest(closed, next, fields);
  }

  /** An element with no match at or below it only adds its text. */
  lemma {:induction false} PlainRead(tag: string, body: Xml, next: Xml, r: Reader, fields: seq<Field>)
    requires Good(r, fields) && !HasMatch(body, r.path + [LocalName(tag)], fields)
    requires FirstMatch(r.path + [LocalName(tag)], fields).None?
    ensures var closed := OnFinish(After(body, OnStart(r, fields, tag), fields));
      Good(closed, fields) && After(next, closed, fields) == After(Element(tag, body, next), r, fields)
  {
    var inner := r.path + [LocalName(tag)];
    FirstMatchIsMatch(inner, fields);
    var closed := OnFinish(After(body, OnStart(r, fields, tag), fields));
    assert closed == if r.active.Some? then r.(text := r.text + TextPieces(body)) else r;
    PlainThenNext(tag, body, next, r, closed, fields);
  }

  lemma PlainThenNext(tag: string, body: Xml, next: Xml, r: Reader, closed: Reader, fields: seq<Field>)
    requires !HasMatch(body, r.path + [LocalName(tag)], fields) && FirstMatch(r.path + [LocalName(tag)], fields).None?
    requires closed == if r.active.Some? then r.(text := r.text + TextPieces(body)) else r
    ensures After(next, closed, fields) == After(Element(tag, body, next), r, fields)
  {
    assert HasMatch(Element(tag, body, next), r.path, fields) <==> HasMatch(next, r.path, fields);
    if HasMatch(next, r.path, fields) {
      CollectedPlain(r.values, tag, body, next, r.path, fields);
    } else {
      ConcatAssociates(r.text, TextPieces(body), TextPieces(next));
    }
  }

  /** With nothing active, reading on collects what is left and nothing else. */
  lemma CollectedRest(r: Reader, next: Xml, fields: seq<Field>)
    requires r.active.None? && r.text == []
    ensures After(next, r, fields) == Reader(r.path, None, [], Collected(r.values, next, r.path, fields))
  {
    if !HasMatch(next, r.path, fields) {
      forall f | f in r.values ensures r.values[f] == r.values[f] + Innermost(next, r.path, fields, f) {
        NoMatchNothing(next, r.path, fields, f);
      }
      assert r.values == Collected(r.values, next, r.path, fields);
    }
  }

  /** Reading a whole document, chunked in any way, gives the innermost matches and an empty path stack. */
  lemma DocumentRead(document: Xml, fields: seq<Field>)
    ensures Run(Events(document), Fresh(fields), fields)
         == Some(Reader([], None, [], Found(document, fields)))
  {
    RunReads(document, Fresh(fields), fields);
    CollectedRest(Fresh(fields), document, fields);
    var start := Fresh(fields).values;
    forall f | f in start ensures Found(document, fields)[f] == start[f] + Innermost(document, [], fields, f) {
      assert [] + Innermost(document, [], fields, f) == Innermost(document, [], fields, f);
    }
    CollectedIs(start, document, [], fields, Found(document, fields));
  }

  function Found(document: Xml, fields: seq<Field>): Values {
    map f | f in fields :: Innermost(document, [], fields, f)
  }

  function Queried(document: Xml, fields: seq<Field>): Values {
    map f | f in fields :: Query(document, [], f)
  }

  // ---- when the reader computes the plain query

  /** The code's test on a path that is not empty: it ends in the field, and the field is not empty. */
  lemma MatchesIsEnding(path: Path, field: Field)
    requires path != []
    ensures Matches(path, field) <==> field != [] && EndsIn(path, field)
  {
  }

  /** A field that the path ends in and that is not the first match makes a clash. */
  lemma SecondMatchClashes(path: Path, fields: seq<Field>, field: Field)
    requires path != [] && field in fields
    ensures FirstMatch(path, fields) == Some(field) ==> EndsIn(path, field)
    ensures EndsIn(path, field) && FirstMatch(path, fields) != Some(field) ==> Clash(path, fields)
  {
    FirstMatchIsMatch(path, fields);
    MatchesIsEnding(path, field);
    if FirstMatch(path, fields).Some? { MatchesIsEnding(path, FirstMatch(path, fields).value); }
  }

  /** In a clash there is a field that the path ends in and that is not the first match. */
  lemma ClashHasSecond(path: Path, fields: seq<Field>) returns (field: Field)
    requires path != [] && Clash(path, fields)
    ensures field in fields && EndsIn(path, field) && FirstMatch(path, fields) != Some(field)
  {
    FirstMatchIsMatch(path, fields);
    if [] in fields {
      field := [];
      MatchesIsEnding(path, []);
    } else {
      var f, g :| f in fields && g in fields && f != g && EndsIn(path, f) && EndsIn(path, g);
      field := if FirstMatch(path, fields) == Some(f) then g else f;
    }
  }

  lemma {:induction false} InnermostNotMore(x: Xml, path: Path, fields: seq<Field>, field: Field)
    requires field in fields
    ensures |Innermost(x, path, fields, field)| <= |Query(x, path, field)|
  {
    match x
    case Empty =>
    case Chars(_, next) => InnermostNotMore(next, path, fields, field);
    case Element(tag, body, next) =>
      SecondMatchClashes(path + [LocalName(tag)], fields, field);
      InnermostNotMore(body, path + [LocalName(tag)], fields, field);
      InnermostNotMore(next, path, fields, field);
  }

  lemma {:induction false} NoMatchNoQuery(x: Xml, path: Path, fields: seq<Field>, field: Field)
    requires !HasMatch(x, path, fields) && !Clashing(x, path, fields) && field in fields
    ensures Query(x, path, field) == []
  {
    match x
    case Empty =>
    case Chars(_, next) => NoMatchNoQuery(next, path, fields, field);
    case Element(tag, body, next) =>
      SecondMatchClashes(path + [LocalName(tag)], fields, field);
      NoMatchNoQuery(body, path + [LocalName(tag)], fields, field);
      NoMatchNoQuery(next, path, fields, field);
  }

  lemma {:induction false} FlatTreeFullyCollected(x: Xml, path: Path, fields: seq<Field>, field: Field)
    requires !Nested(x, path, fields) && !Clashing(x, path, fields) && field in fields
    ensures Innermost(x, path, fields, field) == Query(x, path, field)
  {
    match x
    case Empty =>
    case Chars(_, next) => FlatTreeFullyCollected(next, path, fields, field);
    case Element(tag, body, next) =>
      var inner := path + [LocalName(tag)];
      FlatTreeFullyCollected(body, inner, fields, field);
      FlatTreeFullyCollected(next, path, fields, field);
      InnermostElement(tag, body, next, path, fields, field);
      SecondMatchClashes(inner, fields, field);
      var own := if EndsIn(inner, field) then [FullText(body)] else [];
      assert Own(tag, body, path, fields, field) == own + Query(body, inner, field) by {
        if !HasMatch(body, inner, fields) { NoMatchNoQuery(body, inner, fields, field); }
        ConcatAssociates(own, [], Query(body, inner, field));
      }
  }

  /** The field that loses an element of its own, at the first nesting or clash. */
  lemma {:induction false} TreeMissesOne(x: Xml, path: Path, fields: seq<Field>) returns (field: Field)
    requires Nested(x, path, fields) || Clashing(x, path, fields)
    ensures field in fields && |Innermost(x, path, fields, field)| < |Query(x, path, field)|
  {
    match x
    case Chars(_, next) => field := TreeMissesOne(next, path, fields);
    case Element(tag, body, next) =>
      var inner := path + [LocalName(tag)];
      if Clash(inner, fields) {
        field := ClashHasSecond(inner, fields);
      } else if FirstMatch(inner, fields).Some? && HasMatch(body, inner, fields) {
        FirstMatchIsMatch(inner, fields);
        field := FirstMatch(inner, fields).value;
      } else if Nested(body, inner, fields) || Clashing(body, inner, fields) {
        field := TreeMissesOne(body, inner, fields);
      } else {
        field := TreeMissesOne(next, path, fields);
      }
      SecondMatchClashes(inner, fields, field);
      InnermostNotMore(body, inner, fields, field);
      InnermostNotMore(next, path, fields, field);
  }

  /** The streaming reader agrees with the query of the tree, for every field, if and only if no matching element holds
      another and no element ends in two of the fields. */
  lemma StreamingIsQueryExactlyWhen(document: Xml, fields: seq<Field>)
    ensures Run(Events(document), Fresh(fields), fields).Some?
    ensures Run(Events(document), Fresh(fields), fields).value.path == []
    ensures (Run(Events(document), Fresh(fields), fields).value.values == Queried(document, fields))
            <==> !Nested(document, [], fields) && !Clashing(document, [], fields)
  {
    DocumentRead(document, fields);
    var got := Run(Events(document), Fresh(fields), fields).value.values;
    if Nested(document, [], fields) || Clashing(document, [], fields) {
      var f := TreeMissesOne(document, [], fields);
      assert got[f] != Query(document, [], f);
    } else {
      forall f | f in fields ensures got[f] == Query(document, [], f) {
        FlatTreeFullyCollected(document, [], fields, f);
      }
    }
  }

  // ---- independence of chunking

  /** The document with adjacent character nodes joined: what the file says, however it is reported. */
  function Joined(x: Xml): Xml {
    match x
    case Empty => Empty
    case Chars(text, next) =>
      var rest := Joined(next);
      if rest.Chars? then Chars(text + rest.text, rest.next)
      else if text == "" then rest
      else Chars(text, rest)
    case Element(tag, body, next) => Element(tag, Joined(body), Joined(next))
  }

  lemma {:induction false} JoiningKeepsQuery(x: Xml, path: Path, fields: seq<Field>, field: Field)
    ensures FullText(Joined(x)) == FullText(x)
    ensures HasMatch(Joined(x), path, fields) == HasMatch(x, path, fields)
    ensures Innermost(Joined(x), path, fields, field) == Innermost(x, path, fields, field)
  {
    match x
    case Empty =>
    case Chars(text, next) =>
      JoiningKeepsQuery(next, path, fields, field);
      var rest := Joined(next);
      if rest.Chars? { assert text + rest.text + FullText(rest.next) == text + (rest.text + FullText(rest.next)); }
    case Element(tag, body, next) =>
      JoiningKeepsQuery(body, path + [LocalName(tag)], fields, field);
      JoiningKeepsQuery(next, path, fields, field);
  }

  /** Two reports of the same document that cut its texts differently are read to the same values. */
  lemma ChunkingDoesNotMatter(x: Xml, y: Xml, fields: seq<Field>)
    requires Joined(x) == Joined(y)
    ensures Run(Events(x), Fresh(fields), fields).Some? && Run(Events(y), Fresh(fields), fields).Some?
    ensures Run(Events(x), Fresh(fields), fields).value.values == Run(Events(y), Fresh(fields), fields).value.values
  {
    DocumentRead(x, fields);
    DocumentRead(y, fields);
    SameFound(x, y, fields);
  }

  lemma SameFound(x: Xml, y: Xml, fields: seq<Field>)
    requires Joined(x) == Joined(y)
    ensures Found(x, fields) == Found(y, fields)
  {
    forall f | f in fields ensures Innermost(x, [], fields, f) == Innermost(y, [], fields, f) {
      JoiningKeepsQuery(x, [], fields, f);
      JoiningKeepsQuery(y, [], fields, f);
    }
  }
}
