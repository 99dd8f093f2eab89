/** The server that an FTP client talks to: a tree, what its commands do, the texts that it shows, and what it sends. */
module FtpServer {
  import opened Basics
  import opened Rows
  import opened FtpReplies
  import opened FtpCommon
  import opened FtpTree
  import opened FtpPaths
  import Utf8

  const FTP_UNSUPPORTED := 502

  /** The texts that a server shows of the things in its tree: facts for MLST and MLSD, attributes for LIST. */
  datatype Looks = Looks(facts: (Path, Node) -> seq<bytes>, attributes: (Path, Node) -> bytes)

  predicate MentionsFile(facts: seq<bytes>) {
    exists f :: f in facts && Contains(f, TYPE_FILE)
  }

  predicate FactsRight(facts: seq<bytes>, node: Node) {
    (forall f :: f in facts ==> SEMICOLON !in f && PlainText(f)) &&
    (TYPE_DIR in facts <==> node.Dir?) && (MentionsFile(facts) <==> node.File?)
  }

  predicate AttributesRight(b: bytes, node: Node) {
    Permissions(b) && PlainText(b) && (b[0] == 100 <==> node.Dir?)
  }

  ghost predicate LooksRight(l: Looks) {
    (forall p, n :: FactsRight(l.facts(p, n), n)) && forall p, n :: AttributesRight(l.attributes(p, n), n)
  }

  /** The listing formats give these names back. */
  predicate ReadableName(name: string, mlsd: bool) {
    OneLine(name) &&
    if mlsd then name != "" && ';' !in name && name[0] != ' ' else NoSpace(Utf8.Encode(name))
  }

  /** A definition that starts with a quantifier over `on` stays closed until a proof names this predicate; what only
      passes the definition on is then not burdened with what it says. */
  predicate ReadableOpen(on: bool) {
    true
  }

  /** Every name in the tree is given back by the listing format. */
  ghost predicate Readable(t: Tree, mlsd: bool) {
    forall on {:trigger ReadableOpen(on)} :: ReadableOpen(on) ==>
      forall p :: p in t && p != [] ==> ReadableName(p[|p| - 1], mlsd)
  }

  function EntryLine(looks: Looks, mlsd: bool, p: Path, node: Node): bytes
    requires p != []
  {
    if mlsd then MlsdLine(looks.facts(p, node), p[|p| - 1]) else ListLine(looks.attributes(p, node), p[|p| - 1])
  }

  lemma {:induction false} PlainJoin(parts: seq<bytes>, sep: byte)
    requires sep != CR && sep != LF && forall p :: p in parts ==> PlainText(p)
    ensures PlainText(Join(parts, sep))
  {
    JoinElements(parts, sep, CR);
    JoinElements(parts, sep, LF);
  }

  /** One entry of a listing, on one line, is read back as its name and kind. */
  lemma EntryRead(looks: Looks, mlsd: bool, p: Path, node: Node)
    requires LooksRight(looks) && p != [] && GoodName(p[|p| - 1]) && ReadableName(p[|p| - 1], mlsd)
    ensures PlainText(EntryLine(looks, mlsd, p, node))
    ensures ParseLine(mlsd, EntryLine(looks, mlsd, p, node)) == Some((p[|p| - 1], node.Dir?))
  {
    var name := p[|p| - 1];
    Utf8.EncodeContains(name, CR);
    Utf8.EncodeContains(name, LF);
    if mlsd {
      var facts := looks.facts(p, node);
      assert FactsRight(facts, node);
      MlsdLineRead(facts, name);
      var parts := facts + [[SPACE] + Utf8.Encode(name)];
      forall q | q in parts ensures PlainText(q) {
        if q !in facts { assert q == [SPACE] + Utf8.Encode(name); }
      }
      PlainJoin(parts, SEMICOLON);
    } else {
      assert AttributesRight(looks.attributes(p, node), node);
      ListLineRead(looks.attributes(p, node), name);
    }
  }

  // ---- the text test of MLST

  lemma StartsWithBefore(a: bytes, x: byte, b: bytes, text: bytes)
    requires x !in text
    ensures StartsWith(a + [x] + b, text) <==> StartsWith(a, text)
  {
    var s := a + [x] + b;
    if |text| <= |a| {
      assert s[..|text|] == a[..|text|];
    } else if |text| <= |s| {
      assert s[..|text|][|a|] == x && text[|a|] in text;
    }
  }

  /** A text that does not contain the separator is found on one of its sides. */
  lemma {:induction false} ContainsAround(a: bytes, x: byte, b: bytes, text: bytes)
    requires x !in text && text != []
    ensures Contains(a + [x] + b, text) <==> Contains(a, text) || Contains(b, text)
  {
    var s := a + [x] + b;
    StartsWithBefore(a, x, b, text);
    if a == [] {
      assert s[1..] == b;
    } else {
      assert s[1..] == a[1..] + [x] + b;
      ContainsAround(a[1..], x, b, text);
    }
  }

  lemma {:induction false} ContainsInJoin(parts: seq<bytes>, last: bytes, sep: byte, text: bytes)
    requires sep !in text && text != []
    ensures Contains(Join(parts + [last], sep), text) <==>
      ((exists p :: p in parts && Contains(p, text)) || Contains(last, text))
  {
    if parts == [] {
      assert parts + [last] == [last];
    } else {
      var all := parts + [last];
      assert all[1..] == parts[1..] + [last];
      ContainsAround(parts[0], sep, Join(all[1..], sep), text);
      ContainsInJoin(parts[1..], last, sep, text);
      assert Contains(Join(all[1..], sep), text) <==>
        ((exists p :: p in parts[1..] && Contains(p, text)) || Contains(last, text));
      assert forall p :: p in parts <==> p == parts[0] || p in parts[1..];
    }
  }

  lemma ContainsShort(b: bytes, text: bytes)
    requires |b| < |text|
    ensures !Contains(b, text)
  {
    if b != [] { ContainsShort(b[1..], text); }
  }

  const MLST_HEAD: bytes := [50, 53, 48, 45]
  const MLST_FOOT: bytes := [50, 53, 48, 32]

  /** A positive reply to MLST: the facts and the path name on the line in the middle. */
  function MlstLines(looks: Looks, key: string, node: Node): seq<bytes> {
    [MLST_HEAD, [SPACE] + MlsdLine(looks.facts(Resolve(key), node), key), MLST_FOOT]
  }

  /** Where the text test on an MLST reply goes wrong: on a directory whose path name has the text in it. */
  predicate LooksLikeFile(key: string) {
    Contains(Utf8.Encode(key), TYPE_FILE)
  }

  lemma MlstTest(looks: Looks, key: string, node: Node)
    requires LooksRight(looks)
    ensures AnyMentionsFile(MlstLines(looks, key, node)) <==> node.File? || LooksLikeFile(key)
  {
    var lines := MlstLines(looks, key, node);
    assert FactsRight(looks.facts(Resolve(key), node), node);
    ContainsShort(MLST_HEAD, TYPE_FILE);
    ContainsShort(MLST_FOOT, TYPE_FILE);
    EntryMentions(looks.facts(Resolve(key), node), key);
    AnyOfThree(lines[0], lines[1], lines[2]);
  }

  lemma AnyOfThree(a: bytes, b: bytes, c: bytes)
    ensures AnyMentionsFile([a, b, c]) <==>
      (Contains(a, TYPE_FILE) || Contains(b, TYPE_FILE) || Contains(c, TYPE_FILE))
  {
    assert [a, b, c][0] == a && [a, b, c][1] == b && [a, b, c][2] == c;
  }

  lemma ContainsAfterSpace(b: bytes)
    ensures Contains([SPACE] + b, TYPE_FILE) <==> Contains(b, TYPE_FILE)
  {
    ContainsShort([], TYPE_FILE);
    ContainsAround([], SPACE, b, TYPE_FILE);
    assert [] + [SPACE] + b == [SPACE] + b;
  }

  lemma EntryMentions(facts: seq<bytes>, key: string)
    ensures Contains([SPACE] + MlsdLine(facts, key), TYPE_FILE) <==> MentionsFile(facts) || LooksLikeFile(key)
  {
    var name := [SPACE] + Utf8.Encode(key);
    ContainsAfterSpace(Utf8.Encode(key));
    ContainsAfterSpace(MlsdLine(facts, key));
    ContainsInJoin(facts, name, SEMICOLON, TYPE_FILE);
  }

  /** A valid name for a directory that MLST would report as a file. */
  lemma {:induction false} DirectoryThatLooksLikeFile()
    ensures Canonical("type=file") && LooksLikeFile("type=file")
  {
    OnePartCanonical("type=file");
    SpellsTypeFile("type=file");
  }

  lemma OnePartCanonical(key: string)
    requires OneLine(key) && '/' !in key && |key| > 2
    ensures Canonical(key)
  {
    SplitOne(key, '/');
  }

  lemma SpellsTypeFile(key: string)
    requires |key| == |TYPE_FILE| && forall i :: 0 <= i < |key| ==> key[i] as int == TYPE_FILE[i] < 0x80
    ensures LooksLikeFile(key)
  {
    AsciiEncoded(key);
    assert Utf8.Encode(key) == TYPE_FILE;
    assert TYPE_FILE[..|TYPE_FILE|] == TYPE_FILE;
  }

  lemma {:induction false} AsciiEncoded(s: string)
    requires forall c :: c in s ==> c as int < 0x80
    ensures |Utf8.Encode(s)| == |s| && forall i :: 0 <= i < |s| ==> Utf8.Encode(s)[i] == s[i] as int
  {
    if s != "" {
      assert s[0] in s && forall c :: c in s[1..] ==> c in s;
      AsciiEncoded(s[1..]);
    }
  }

  /** The names are those of the entries of a directory, each once. */
  ghost predicate Entries(t: Tree, d: Path, names: seq<string>) {
    Distinct(names) && forall n :: n in names <==> d + [n] in t
  }

  /** The keys are some of those that a walk finds, each once, or all of them. */
  ghost predicate Walked(t: Tree, at: Path, rest: Path, keys: seq<string>, full: bool) {
    Distinct(keys) && (forall k :: k in keys ==> k in Found(t, at, rest)) &&
    (full ==> forall k :: k in Found(t, at, rest) ==> k in keys)
  }

  /** What the walk has collected after some of the entries. */
  ghost predicate Collected(t: Tree, at: Path, rest: Path, names: seq<string>, keys: seq<string>, full: bool) {
    Distinct(keys) &&
    if rest == [] then forall k :: k in keys <==> exists n :: n in names && IsFile(t, at + [n]) && k == KeyOf(at + [n])
    else if rest[0] in names then Walked(t, at, rest, keys, full)
    else keys == []
  }

  lemma {:induction false} DistinctSnoc<T>(s: seq<T>, x: T)
    ensures Distinct(s + [x]) <==> Distinct(s) && x !in s
  {
    if s == [] {
      assert s + [x] == [x];
    } else {
      assert (s + [x])[1..] == s[1..] + [x];
      DistinctSnoc(s[1..], x);
    }
  }

  lemma {:induction false} DistinctPrefix<T>(s: seq<T>, i: nat)
    requires Distinct(s) && i < |s|
    ensures Distinct(s[..i + 1]) && s[i] !in s[..i] && s[..i + 1] == s[..i] + [s[i]]
    decreases |s| - i
  {
    if i + 1 == |s| {
      assert s[..i + 1] == s;
    } else {
      DistinctPrefix(s, i + 1);
      assert s[..i + 2] == s[..i + 1] + [s[i + 1]];
      DistinctSnoc(s[..i + 1], s[i + 1]);
    }
    assert s[..i + 1] == s[..i] + [s[i]];
    DistinctSnoc(s[..i], s[i]);
  }

  lemma EntryKeys(t: Tree, at: Path, m: string, n: string)
    requires Closed(t) && at + [m] in t && at + [n] in t
    ensures KeyOf(at + [m]) == KeyOf(at + [n]) ==> m == n
  {
    ClosedGoodPath(t, at + [m]);
    ClosedGoodPath(t, at + [n]);
    KeyRoundTrip(at + [m]);
    KeyRoundTrip(at + [n]);
    assert (at + [m])[|at|] == m && (at + [n])[|at|] == n;
  }

  /** What the walk yields for an entry. */
  ghost predicate Yields(t: Tree, at: Path, rest: Path, name: string, keys: seq<string>, full: bool) {
    if rest == [] then keys == if IsFile(t, at + [name]) then [KeyOf(at + [name])] else []
    else if name == rest[0] then Walked(t, at, rest, keys, full)
    else keys == []
  }

  lemma CollectedStep(t: Tree, at: Path, rest: Path, names: seq<string>, name: string,
                      keys: seq<string>, more: seq<string>, full: bool)
    requires Closed(t) && at + [name] in t && name !in names
    requires Collected(t, at, rest, names, keys, true) || (Collected(t, at, rest, names, keys, false) && !full)
    requires Yields(t, at, rest, name, more, full)
    ensures Collected(t, at, rest, names + [name], keys + more, full)
  {
    assert keys + [] == keys && [] + more == more;
    if rest == [] {
      CollectedFile(t, at, names, name, keys, full);
    } else {
      assert rest[0] in names + [name] <==> rest[0] in names || rest[0] == name;
    }
  }

  lemma CollectedFile(t: Tree, at: Path, names: seq<string>, name: string, keys: seq<string>, full: bool)
    requires Closed(t) && Collected(t, at, [], names, keys, full) && name !in names && at + [name] in t
    ensures IsFile(t, at + [name]) ==> Collected(t, at, [], names + [name], keys + [KeyOf(at + [name])], full)
    ensures !IsFile(t, at + [name]) ==> Collected(t, at, [], names + [name], keys, full)
  {
    var key := KeyOf(at + [name]);
    forall n | n in names && IsFile(t, at + [n]) ensures KeyOf(at + [n]) != key { EntryKeys(t, at, n, name); }
    DistinctSnoc(keys, key);
    assert forall n :: n in names + [name] <==> n in names || n == name;
  }

  /** Some of the entries give some of the keys. */
  lemma CollectedSome(t: Tree, at: Path, rest: Path, names: seq<string>, keys: seq<string>, full: bool)
    requires Collected(t, at, rest, names, keys, full)
    ensures Walked(t, at, rest, keys, false)
  {
    if rest == [] {
      forall k | k in keys ensures k in FilesIn(t, at) {
        var n :| n in names && IsFile(t, at + [n]) && k == KeyOf(at + [n]);
        assert Parent(at + [n]) == at;
      }
    }
  }

  /** All entries give all keys. */
  lemma CollectedAll(t: Tree, at: Path, rest: Path, names: seq<string>, keys: seq<string>, full: bool)
    requires Closed(t) && IsDir(t, at) && Entries(t, at, names) && Collected(t, at, rest, names, keys, full)
    ensures Walked(t, at, rest, keys, full)
  {
    CollectedSome(t, at, rest, names, keys, full);
    if rest == [] {
      forall k | k in FilesIn(t, at) ensures k in keys {
        var p :| p in t.Keys && t[p].File? && p != [] && Parent(p) == at && KeyOf(p) == k;
        assert p == at + [p[|p| - 1]];
      }
    }
  }

  function LinesFor(looks: Looks, mlsd: bool, t: Tree, d: Path, names: seq<string>): seq<bytes>
    requires forall n :: n in names ==> d + [n] in t
  {
    if names == [] then []
    else
      assert names[0] in names;
      var p := d + [names[0]];
      [EntryLine(looks, mlsd, p, t[p])] + LinesFor(looks, mlsd, t, d, names[1..])
  }

  /** The lines tell the names and kinds of the entries. */
  predicate Tells(t: Tree, mlsd: bool, d: Path, names: seq<string>, lines: seq<bytes>) {
    |lines| == |names| &&
    forall i :: 0 <= i < |names| ==> ParseLine(mlsd, lines[i]) == Some((names[i], IsDir(t, d + [names[i]])))
  }

  /** A listing is read back line by line. */
  lemma {:induction false} ListingRead(looks: Looks, mlsd: bool, t: Tree, d: Path, names: seq<string>)
    requires Closed(t) && LooksRight(looks) && Readable(t, mlsd) && forall n :: n in names ==> d + [n] in t
    ensures Tells(t, mlsd, d, names, SplitLines(EncodeLines(LinesFor(looks, mlsd, t, d, names))))
  {
    LinesTell(looks, mlsd, t, d, names);
    LinesRead(LinesFor(looks, mlsd, t, d, names));
  }

  lemma TellsCons(t: Tree, mlsd: bool, d: Path, names: seq<string>, line: bytes, rest: seq<bytes>)
    requires names != [] && Tells(t, mlsd, d, names[1..], rest)
    requires ParseLine(mlsd, line) == Some((names[0], IsDir(t, d + [names[0]])))
    ensures Tells(t, mlsd, d, names, [line] + rest)
  {
    var lines := [line] + rest;
    forall i | 0 <= i < |names| ensures ParseLine(mlsd, lines[i]) == Some((names[i], IsDir(t, d + [names[i]]))) {
      if i > 0 { assert lines[i] == rest[i - 1] && names[i] == names[1..][i - 1]; }
    }
  }

  lemma {:induction false} LinesTell(looks: Looks, mlsd: bool, t: Tree, d: Path, names: seq<string>)
    requires Closed(t) && LooksRight(looks) && Readable(t, mlsd) && forall n :: n in names ==> d + [n] in t
    ensures Tells(t, mlsd, d, names, LinesFor(looks, mlsd, t, d, names))
    ensures forall l :: l in LinesFor(looks, mlsd, t, d, names) ==> PlainText(l)
  {
    assert ReadableOpen(true);
    if names != [] {
      assert names[0] in names;
      var p := d + [names[0]];
      assert p[|p| - 1] == names[0] && Parent(p) == d;
      EntryRead(looks, mlsd, p, t[p]);
      LinesTell(looks, mlsd, t, d, names[1..]);
      TellsCons(t, mlsd, d, names, EntryLine(looks, mlsd, p, t[p]), LinesFor(looks, mlsd, t, d, names[1..]));
    }
  }

  // ---- what the server does with a command

  /** Where on the server the tree stands, and which of the things a client hopes for hold of it: it keeps a tree, it refuses
      nothing that it could do, and it says 550 only of things that are not there. */
  datatype Service =
    Service(looks: Looks, supports: FTPFeatures, place: Path, faithful: bool, willing: bool, honest: bool)

  predicate Refused(s: Service, replies: seq<Reply>) {
    !s.willing && replies != [] && 400 <= replies[0].code < 600 && (s.honest ==> replies[0].code != FTP_NOT_FOUND)
  }

  /** The server says nothing, or refuses. */
  predicate Declined(s: Service, replies: seq<Reply>) {
    replies == [] || Refused(s, replies)
  }

  /** A reply with this code and no other. */
  predicate Answers(replies: seq<Reply>, code: int) {
    replies != [] && replies[0].code == code
  }

  predicate Only(replies: seq<Reply>, code: int) {
    replies != [] ==> replies[0].code == code
  }

  /** A transfer that the server has opened and then confirmed. */
  predicate Confirmed(replies: seq<Reply>) {
    |replies| == 2 && Opens(replies[0].code) && replies[1].code == FTP_TRANSFER_DONE
  }

  predicate OnlyOpens(s: Service, replies: seq<Reply>) {
    (replies != [] ==> Opens(replies[0].code)) && (s.willing && |replies| == 2 ==> Confirmed(replies))
  }

  /** The data connection ends with a proper close. */
  predicate EndsCleanly(events: seq<Recv>) {
    events == [] || (events[0].Data? && (events[0].data == [] || EndsCleanly(events[1..])))
  }

  predicate Makes(s: Service, t: Tree, d: Path, replies: seq<Reply>, u: Tree) {
    (Declined(s, replies) && u == t) ||
    (u == MkdTree(t, d) && Only(replies, if u == t then FTP_NOT_FOUND else FTP_CREATED))
  }

  predicate Removes(s: Service, t: Tree, p: Path, replies: seq<Reply>, u: Tree) {
    (Declined(s, replies) && u == t) ||
    (if IsFile(t, p) then u == t - {p} && Only(replies, FTP_ACTION_OK) else u == t && Only(replies, FTP_NOT_FOUND))
  }

  /** A confirmed transfer has stored what arrived; one that is not confirmed may have stored anything or nothing. */
  predicate Stores(s: Service, t: Tree, p: Path, upload: bytes, replies: seq<Reply>, u: Tree) {
    (Declined(s, replies) && u == t) ||
    (if Storable(t, p) then
       OnlyOpens(s, replies) && (u == t || (IsFile(u, p) && u == t[p := u[p]])) &&
       (Confirmed(replies) ==> u == t[p := File(upload)])
     else u == t && (replies != [] ==> 400 <= replies[0].code < 600))
  }

  predicate Retrieves(s: Service, t: Tree, p: Path, replies: seq<Reply>, events: seq<Recv>) {
    Declined(s, replies) ||
    (if IsFile(t, p) then
       OnlyOpens(s, replies) && (Confirmed(replies) && EndsCleanly(events) ==> Bytes(events) == t[p].data)
     else Only(replies, FTP_NOT_FOUND))
  }

  predicate Sizes(s: Service, t: Tree, p: Path, replies: seq<Reply>) {
    Declined(s, replies) ||
    Only(replies, if !s.supports.supportsSize then FTP_UNSUPPORTED else if IsFile(t, p) then FTP_SIZE_OK else FTP_NOT_FOUND)
  }

  predicate Describes(s: Service, t: Tree, key: string, replies: seq<Reply>) {
    Declined(s, replies) ||
    (if !s.supports.supportsMlst then Only(replies, FTP_UNSUPPORTED)
     else if Resolve(key) in t then
       Only(replies, FTP_ACTION_OK) && (replies != [] ==> replies[0].lines == MlstLines(s.looks, key, t[Resolve(key)]))
     else Only(replies, FTP_NOT_FOUND))
  }

  /** A listing of a directory, in any order. */
  ghost predicate IsListing(looks: Looks, mlsd: bool, t: Tree, d: Path, data: bytes) {
    exists names :: Entries(t, d, names) && data == EncodeLines(LinesFor(looks, mlsd, t, d, names))
  }

  ghost predicate Lists(s: Service, t: Tree, mlsd: bool, d: Path, replies: seq<Reply>, events: seq<Recv>) {
    Declined(s, replies) ||
    (if mlsd && !s.supports.supportsMlsd then Only(replies, FTP_UNSUPPORTED)
     else if IsDir(t, d) then
       OnlyOpens(s, replies) &&
       (Confirmed(replies) && EndsCleanly(events) ==> IsListing(s.looks, mlsd, t, d, Bytes(events)))
     else Only(replies, FTP_NOT_FOUND))
  }

  // As ReadableOpen does.
  predicate ServesOpen(on: bool) {
    true
  }

  /** Named from the working directory, a path name leads into the tree if that is where the tree stands; named from the
      top of the server, if the tree stands there. */
  predicate Here(s: Service, home: bool, text: string) {
    if Absolute(text) then s.place == [] else home
  }

  /** A key that fits on a command line, has no dots for names, and does not lead out of the place of the tree. */
  predicate Usable(s: Service, key: string) {
    OneLine(key) && Dotless(key) && (Absolute(key) ==> s.place == [])
  }

  /** From another directory, too, a command may reach an entry of the tree, by the last name of its argument. */
  ghost predicate Reaches(t: Tree, p: Path, u: Tree) {
    u == t ||
    exists q :: q != [] && p != [] && q[|q| - 1] == p[|p| - 1] && (u == t - {q} || (q in u && u == t[q := u[q]]))
  }

  /** What a server that keeps a tree answers to a command, what goes over the data connection, and the tree afterwards;
      `home` says whether the working directory is the place of the tree. A command text with a line end in it is several
      commands; a path name with dots in it may lead anywhere. */
  ghost predicate Serves(s: Service, t: Tree, home: bool, c: Command, upload: bytes,
                         replies: seq<Reply>, events: seq<Recv>, u: Tree) {
    forall on {:trigger ServesOpen(on)} :: ServesOpen(on) ==> ServesInFull(s, t, home, c, upload, replies, events, u)
  }

  predicate Changes(c: Command) {
    c.Mkd? || c.Dele? || c.Stor?
  }

  ghost predicate ServesInFull(s: Service, t: Tree, home: bool, c: Command, upload: bytes,
                               replies: seq<Reply>, events: seq<Recv>, u: Tree) {
    var p := Resolve(c.Argument());
    if !OneLine(c.Argument()) then Closed(u)
    else if !Dotless(c.Argument()) then Closed(u) && (Changes(c) || u == t)
    else if !Here(s, home, c.Argument()) then Closed(u) && if Changes(c) then Reaches(t, p, u) else u == t
    else match c
      case Mkd(_) => Makes(s, t, p, replies, u)
      case Dele(_) => Removes(s, t, p, replies, u)
      case Stor(_) => Stores(s, t, p, upload, replies, u)
      case Retr(_) => u == t && Retrieves(s, t, p, replies, events)
      case Size(_) => u == t && Sizes(s, t, p, replies)
      case Mlst(key) => u == t && Describes(s, t, key, replies)
      case Listing(mlsd, _) => u == t && Lists(s, t, mlsd, p, replies, events)
      case _ => u == t
  }

  /** Only MKD, DELE and STOR change the tree. */
  lemma OnlyReads(s: Service, t: Tree, home: bool, c: Command, upload: bytes, replies: seq<Reply>, events: seq<Recv>, u: Tree)
    requires Serves(s, t, home, c, upload, replies, events, u)
    ensures OneLine(c.Argument()) && !Changes(c) ==> u == t
  {
    assert ServesOpen(true);
  }

  /** Only a transfer has data. */
  lemma WithoutData(s: Service, t: Tree, home: bool, c: Command, replies: seq<Reply>, events: seq<Recv>, u: Tree)
    requires !c.Transfer() && Serves(s, t, home, c, [], replies, events, u)
    ensures Serves(s, t, home, c, [], replies, [], u)
  {
    assert ServesOpen(true);
  }

  lemma SilentServes(s: Service, t: Tree, home: bool, c: Command, upload: bytes)
    requires Closed(t)
    ensures Serves(s, t, home, c, upload, [], [], t)
  {
  }

  /** Whatever is asked of it, the server's tree stays closed under parents. */
  lemma ServesClosed(s: Service, t: Tree, home: bool, c: Command, upload: bytes, replies: seq<Reply>, events: seq<Recv>, u: Tree)
    requires Closed(t) && Serves(s, t, home, c, upload, replies, events, u)
    ensures Closed(u)
  {
    assert ServesOpen(true);
    if OneLine(c.Argument()) && Dotless(c.Argument()) && Here(s, home, c.Argument()) {
      var p := Resolve(c.Argument());
      DotlessPath(c.Argument());
      if p != [] { GoodParent(p); }
      match c
      case Mkd(_) => MkdClosed(t, p);
      case Dele(_) => if IsFile(t, p) { DeleteRefinesRemoval(t, p); }
      case Stor(_) => if u != t { StoredClosed(t, p, u[p]); }
      case _ =>
    }
  }

  lemma StoredClosed(t: Tree, p: Path, node: Node)
    requires Closed(t) && PlainPath(p) && Storable(t, p) && node.File?
    ensures Closed(t[p := node])
  {
    GoodParent(p);
    var u := t[p := node];
    forall q | q in u && q != [] ensures IsDir(u, Parent(q)) && GoodName(q[|q| - 1]) && !DotName(q[|q| - 1]) {
      if q != p { assert q in t && IsDir(t, Parent(q)); }
    }
  }

  // ---- what that means for the files

  /** The key that a path name stands for, in its normal form. */
  function NameOf(key: string): string {
    KeyOf(Resolve(key))
  }

  lemma NameStored(t: Tree, key: string)
    requires Closed(t)
    ensures NameOf(key) in Files(t) <==> IsFile(t, Resolve(key))
    ensures NameOf(key) in Files(t) ==> Files(t)[NameOf(key)] == t[Resolve(key)].data
  {
    var p := Resolve(key);
    ResolveGood(key);
    FileAt(t, NameOf(key));
    if p != [] {
      KeyRoundTrip(p);
    } else {
      NoEmptyName(t);
    }
  }

  lemma NoEmptyName(t: Tree)
    requires Closed(t)
    ensures [""] !in t
  {
    assert "" in [""] && !GoodName("");
    if [""] in t { ClosedGoodPath(t, [""]); }
  }

  lemma RetrievedData(s: Service, t: Tree, key: string, replies: seq<Reply>, events: seq<Recv>, u: Tree)
    requires Closed(t) && Usable(s, key) && Serves(s, t, true, Retr(key), [], replies, events, u)
    ensures Confirmed(replies) && EndsCleanly(events) ==> NameOf(key) in Files(t) && Bytes(events) == Files(t)[NameOf(key)]
    ensures s.honest && Answers(replies, FTP_NOT_FOUND) ==> NameOf(key) !in Files(t)
    ensures s.willing && replies != [] ==> Opens(replies[0].code) || Answers(replies, FTP_NOT_FOUND)
  {
    assert ServesOpen(true);
    NameStored(t, key);
  }

  /** The two maps differ in this key at most. */
  ghost predicate SameBut(m: FlatMap, n: FlatMap, key: string) {
    forall k :: k != key ==> SameAt(m, n, k)
  }

  lemma RemovedFile(s: Service, t: Tree, key: string, replies: seq<Reply>, events: seq<Recv>, u: Tree)
    requires Closed(t) && Usable(s, key) && Serves(s, t, true, Dele(key), [], replies, events, u)
    ensures u == t || (NameOf(key) in Files(t) && u == t - {Resolve(key)} && Files(u) == Files(t) - {NameOf(key)})
    ensures Answers(replies, FTP_ACTION_OK) ==>
      NameOf(key) in Files(t) && u == t - {Resolve(key)} && Files(u) == Files(t) - {NameOf(key)}
    ensures replies != [] && replies[0].code != FTP_ACTION_OK ==> u == t
    ensures s.honest && Answers(replies, FTP_NOT_FOUND) ==> NameOf(key) !in Files(t)
    ensures s.willing && replies != [] ==> Answers(replies, FTP_ACTION_OK) || Answers(replies, FTP_NOT_FOUND)
  {
    assert ServesOpen(true);
    NameStored(t, key);
    RemovedTree(s, t, Resolve(key), replies, u);
    if IsFile(t, Resolve(key)) {
      ClosedGoodPath(t, Resolve(key));
      DeleteRefinesRemoval(t, Resolve(key));
    }
  }

  lemma RemovedTree(s: Service, t: Tree, p: Path, replies: seq<Reply>, u: Tree)
    requires Removes(s, t, p, replies, u)
    ensures u == t || (IsFile(t, p) && u == t - {p})
    ensures Answers(replies, FTP_ACTION_OK) ==> IsFile(t, p) && u == t - {p}
    ensures replies != [] && replies[0].code != FTP_ACTION_OK ==> u == t
    ensures s.honest && Answers(replies, FTP_NOT_FOUND) ==> !IsFile(t, p)
    ensures s.willing && replies != [] ==> Answers(replies, FTP_ACTION_OK) || Answers(replies, FTP_NOT_FOUND)
  {
  }

  /** What is new in a tree stands on the way to a place, or is there. */
  ghost predicate OnlyToward(t: Tree, u: Tree, p: Path) {
    forall q {:trigger IsAncestor(q, p)} :: q in u ==> q in t || IsAncestor(q, p) || q == p
  }

  /** What is new in a tree has one of the names on the way to a place. */
  ghost predicate OnlyNamed(t: Tree, u: Tree, p: Path) {
    forall q {:trigger q in u} :: q in u && q !in t ==> q != [] && q[|q| - 1] in p
  }

  lemma TowardNamed(t: Tree, u: Tree, p: Path)
    requires OnlyToward(t, u, p) && Closed(t)
    ensures OnlyNamed(t, u, p)
  {
    forall q | q in u && q !in t ensures q != [] && q[|q| - 1] in p {
      if IsAncestor(q, p) { assert q[|q| - 1] == p[|q| - 1]; }
    }
  }

  lemma ReachesNamed(t: Tree, p: Path, u: Tree)
    requires Reaches(t, p, u)
    ensures OnlyNamed(t, u, p)
  {
  }

  /** Wherever a command acts, what is new in the tree has a name from its argument. */
  lemma ServesNamed(s: Service, t: Tree, home: bool, c: Command, upload: bytes, replies: seq<Reply>, events: seq<Recv>, u: Tree)
    requires OneLine(c.Argument()) && Dotless(c.Argument())
    requires Serves(s, t, home, c, upload, replies, events, u)
    ensures OnlyNamed(t, u, Resolve(c.Argument()))
  {
    assert ServesOpen(true);
    var p := Resolve(c.Argument());
    if Changes(c) && !Here(s, home, c.Argument()) { ReachesNamed(t, p, u); }
    if u != t && Changes(c) && Here(s, home, c.Argument()) { OnePlace(t, p, u); }
  }

  lemma OnePlace(t: Tree, p: Path, u: Tree)
    requires u == t - {p} || (p != [] && p in u && u == t[p := u[p]])
    ensures OnlyNamed(t, u, p)
  {
    if p != [] { assert p[|p| - 1] in p; }
  }

  lemma NamedFurther(t: Tree, m: Tree, u: Tree, d: Path, p: Path)
    requires OnlyNamed(t, m, p) && OnlyNamed(m, u, d) && forall n :: n in d ==> n in p
    ensures OnlyNamed(t, u, p)
  {
  }

  /** The directories that are asked for can be sent, and name places on the way to the key. */
  lemma DirUsable(key: string, i: nat)
    requires Dotless(key) && OneLine(key) && i < |ParentDirs(key)|
    ensures var dir := ParentDirs(key)[i]; OneLine(dir) && Dotless(dir) && !Absolute(dir)
    ensures var parts := Split(StripSlashes(key), '/'); var before, d := NonEmpty(parts[..i]), NonEmpty(parts[..i + 1]);
      Resolve(ParentDirs(key)[i]) == d && IsAncestor(d, Resolve(key)) && (d == before || Parent(d) == before)
  {
    assert ParentDirs(key)[i] == Join(Split(StripSlashes(key), '/')[..i + 1], '/');
    ParentPlaces(key, i);
    ParentDirOneLine(key, i + 1);
    DotlessParent(key, i);
    RelativeParent(key, i);
  }

  /** One of the directories of a key is asked for, wherever that acts. */
  lemma MkdNamed(s: Service, t: Tree, m: Tree, home: bool, key: string, i: nat,
                 replies: seq<Reply>, events: seq<Recv>, u: Tree)
    requires Closed(m) && Dotless(key) && OneLine(key) && i < |ParentDirs(key)|
    requires Serves(s, m, home, Mkd(ParentDirs(key)[i]), [], replies, events, u)
    ensures OnlyNamed(t, m, Resolve(key)) ==> OnlyNamed(t, u, Resolve(key))
  {
    var dir := ParentDirs(key)[i];
    DirUsable(key, i);
    ServesNamed(s, m, home, Mkd(dir), [], replies, events, u);
    var d, p := Resolve(dir), Resolve(key);
    if OnlyNamed(t, m, p) {
      forall n | n in d ensures n in p { assert n in p[..|d|]; }
      NamedFurther(t, m, u, d, p);
    }
  }

  lemma StoreNamed(s: Service, t: Tree, m: Tree, home: bool, key: string, upload: bytes,
                   replies: seq<Reply>, events: seq<Recv>, u: Tree)
    requires Closed(m) && Dotless(key) && OneLine(key) && OnlyNamed(t, m, Resolve(key))
    requires Serves(s, m, home, Stor(key), upload, replies, events, u)
    ensures OnlyNamed(t, u, Resolve(key))
  {
    ServesNamed(s, m, home, Stor(key), upload, replies, events, u);
    NamedFurther(t, m, u, Resolve(key), Resolve(key));
  }

  /** A put from a tree `t` that has grown to `m` before its transfer left `u`. */
  lemma StoredFile(s: Service, t: Tree, m: Tree, key: string, upload: bytes,
                   replies: seq<Reply>, events: seq<Recv>, u: Tree)
    requires Closed(t) && Closed(m) && Usable(s, key) && GrewToward(t, m, Resolve(key))
    requires Serves(s, m, true, Stor(key), upload, replies, events, u)
    ensures SameBut(Files(t), Files(u), NameOf(key)) && OnlyToward(t, u, Resolve(key))
    ensures Confirmed(replies) ==>
      !Blocked(t, Resolve(key)) && u == PutTree(t, Resolve(key), upload) && Files(u) == Files(t)[NameOf(key) := upload]
    ensures Blocked(t, Resolve(key)) || (replies != [] && !Opens(replies[0].code)) ==> Files(u) == Files(t)
  {
    var p := Resolve(key);
    DotlessPath(key);
    GrewFiles(t, m, p);
    assert Stores(s, m, p, upload, replies, u) by { assert ServesOpen(true); }
    StoredTree(s, m, p, upload, replies, u);
    if u != m {
      GrewToStorable(t, m, p);
      StoredChanges(t, p, u[p].data);
    } else if Storable(m, p) {
      GrewToStorable(t, m, p);
    }
    if Confirmed(replies) {
      GrewToStorable(t, m, p);
      PutRefinesUpdate(t, p, upload);
    }
  }

  lemma StoredChanges(t: Tree, p: Path, data: bytes)
    requires Closed(t) && PlainPath(p) && p != [] && !Blocked(t, p)
    ensures SameBut(Files(t), Files(PutTree(t, p, data)), KeyOf(p))
  {
    PutRefinesUpdate(t, p, data);
  }

  lemma StoredTree(s: Service, m: Tree, p: Path, upload: bytes, replies: seq<Reply>, u: Tree)
    requires Stores(s, m, p, upload, replies, u)
    ensures u == m || (Storable(m, p) && IsFile(u, p) && u == m[p := u[p]])
    ensures Confirmed(replies) ==> Storable(m, p) && u == m[p := File(upload)]
    ensures replies != [] && !Opens(replies[0].code) ==> u == m
    ensures s.willing && replies != [] ==> (Opens(replies[0].code) <==> Storable(m, p))
  {
  }

  /** Against a willing server that answers, a put is opened exactly when nothing stands in its way. */
  lemma OpenedUnlessBlocked(s: Service, t: Tree, key: string, upload: bytes,
                            replies: seq<Reply>, events: seq<Recv>, u: Tree)
    requires Closed(t) && Usable(s, key) && s.willing && replies != []
    requires Serves(s, AddDirs(t, Resolve(key)), true, Stor(key), upload, replies, events, u)
    ensures Opens(replies[0].code) <==> !Blocked(t, Resolve(key))
  {
    assert ServesOpen(true);
    var p := Resolve(key);
    DotlessPath(key);
    StoredTree(s, AddDirs(t, p), p, upload, replies, u);
    if p != [] { PutRefinesUpdate(t, p, upload); }
  }

  /** One of the directories of a key is asked for. */
  lemma MkdServed(s: Service, t: Tree, m: Tree, key: string, i: nat, replies: seq<Reply>, events: seq<Recv>, u: Tree)
    requires Dotless(key) && OneLine(key) && i < |ParentDirs(key)|
    requires Serves(s, m, true, Mkd(ParentDirs(key)[i]), [], replies, events, u)
    ensures GrewToward(t, m, Resolve(key)) ==> GrewToward(t, u, Resolve(key))
    ensures s.willing && replies != [] ==> replies[0].code == FTP_CREATED || replies[0].code == FTP_NOT_FOUND
    ensures var parts := Split(StripSlashes(key), '/');
      s.willing && replies != [] && m == Made(t, NonEmpty(parts[..i])) ==> u == Made(t, NonEmpty(parts[..i + 1]))
  {
    var parts := Split(StripSlashes(key), '/');
    DirUsable(key, i);
    var before, d := NonEmpty(parts[..i]), NonEmpty(parts[..i + 1]);
    assert Makes(s, m, d, replies, u) by { assert ServesOpen(true); }
    if GrewToward(t, m, Resolve(key)) { GrewMore(t, m, Resolve(key), d); }
    MadeNext(t, before, d);
  }

  lemma MadeNext(t: Tree, before: Path, d: Path)
    requires d != [] && (d == before || Parent(d) == before)
    ensures MkdTree(Made(t, before), d) == Made(t, d)
  {
    if d == before {
      MadeAgain(t, d);
    } else {
      MadeParents(t, d);
    }
  }

  lemma SizeTells(s: Service, t: Tree, key: string, replies: seq<Reply>, u: Tree)
    requires Closed(t) && Usable(s, key) && Serves(s, t, true, Size(key), [], replies, [], u)
    ensures Answers(replies, FTP_SIZE_OK) ==> NameOf(key) in Files(t)
    ensures s.honest && Answers(replies, FTP_NOT_FOUND) ==> NameOf(key) !in Files(t)
    ensures s.willing && replies != [] ==>
      (s.supports.supportsSize <==> Answers(replies, FTP_SIZE_OK) || Answers(replies, FTP_NOT_FOUND))
  {
    assert ServesOpen(true);
    NameStored(t, key);
  }

  /** The text test on the reply is right for files, and wrong exactly for a directory whose path name has the text in it. */
  lemma MlstTells(s: Service, t: Tree, key: string, replies: seq<Reply>, u: Tree)
    requires LooksRight(s.looks)
    requires Closed(t) && Usable(s, key) && Serves(s, t, true, Mlst(key), [], replies, [], u)
    ensures Answers(replies, FTP_ACTION_OK) ==>
      (AnyMentionsFile(replies[0].lines) <==>
        NameOf(key) in Files(t) || (IsDir(t, Resolve(key)) && LooksLikeFile(key)))
    ensures s.honest && Answers(replies, FTP_NOT_FOUND) ==> Resolve(key) !in t && NameOf(key) !in Files(t)
    ensures s.willing && replies != [] ==>
      (s.supports.supportsMlst <==> Answers(replies, FTP_ACTION_OK) || Answers(replies, FTP_NOT_FOUND))
  {
    assert ServesOpen(true);
    NameStored(t, key);
    if Resolve(key) in t {
      MlstTest(s.looks, key, t[Resolve(key)]);
      if IsFile(t, Resolve(key)) { assert t[Resolve(key)].File?; }
    }
  }

  /** A listing that has been confirmed holds the entries of the directory; an honest server does not deny the directory. */
  lemma ListingTells(s: Service, t: Tree, mlsd: bool, at: Path, replies: seq<Reply>, events: seq<Recv>, u: Tree)
    requires Closed(t) && IsDir(t, at) && OneLine(KeyOf(at))
    requires Serves(s, t, true, Listing(mlsd, KeyOf(at)), [], replies, events, u)
    ensures Confirmed(replies) && EndsCleanly(events) ==> IsListing(s.looks, mlsd, t, at, Bytes(events))
    ensures s.honest ==> !Answers(replies, FTP_NOT_FOUND)
    ensures s.willing && replies != [] && (mlsd ==> s.supports.supportsMlsd) ==> Opens(replies[0].code)
  {
    assert ServesOpen(true);
    ClosedGoodPath(t, at);
    PlaceName(at);
  }

  /** A key that is stored is its own name. */
  lemma StoredKeyIsName(t: Tree, key: string)
    requires Closed(t) && key in Files(t)
    ensures NameOf(key) == key
  {
    FileAt(t, key);
    ClosedGoodPath(t, PathOf(key));
    NonEmptyNames(PathOf(key));
    JoinSplit(key, '/');
  }

  // ---- what it sends

  /** One reply, or for a transfer an opening reply and a final one; the last ones may be missing. A greeting may have
      more replies if the first is not 220, as 120 and then 220. */
  predicate Conforming(c: Command, replies: seq<Reply>) {
    |replies| <= 1 || (c.Transfer() && |replies| == 2 && Opens(replies[0].code)) ||
    (c.Connect? && replies[0].code != FTP_READY)
  }

  /** One occasion: the replies, the bytes of one more reply that the server breaks off, whether it closes the connection
      then, what goes over the data connection, and the tree afterwards. */
  datatype Turn = Turn(replies: seq<Reply>, broken: bytes, closes: bool, events: seq<Recv>, tree: Tree)

  /** A server: what it does on each occasion, with each tree and working directory, for each command and each upload. */
  type Server = (nat, Tree, Path, Command, bytes) -> Turn

  // As ReadableOpen does.
  predicate UnfinishedOpen(on: bool) {
    true
  }

  /** The beginning of a reply, or of nothing. */
  ghost predicate Unfinished(b: bytes) {
    forall on {:trigger UnfinishedOpen(on)} :: UnfinishedOpen(on) ==> ParseReply(b).Incomplete?
  }

  /** The replies are well-formed, and as many as the command asks for; one that is broken off is the last. */
  ghost predicate Proper(c: Command, turn: Turn) {
    (forall r :: r in turn.replies ==> WellFormed(r)) && Unfinished(turn.broken) &&
    (turn.broken != [] ==> turn.closes) && (OneLine(c.Argument()) ==> Conforming(c, turn.replies))
  }

  // As ReadableOpen does.
  predicate SmoothOpen(on: bool) {
    true
  }

  /** The answer to a command when nothing goes wrong. */
  ghost predicate Smoothly(c: Command, replies: seq<Reply>, events: seq<Recv>) {
    forall on {:trigger SmoothOpen(on)} :: SmoothOpen(on) ==> SmoothlyInFull(c, replies, events)
  }

  lemma SmoothTransfer(c: Command, replies: seq<Reply>, events: seq<Recv>)
    requires c.Transfer() && Smoothly(c, replies, events)
    ensures replies != [] && (Opens(replies[0].code) ==> Confirmed(replies) && EndsCleanly(events))
  {
    assert SmoothOpen(true);
  }

  predicate SmoothlyInFull(c: Command, replies: seq<Reply>, events: seq<Recv>) {
    replies != [] && WellFormed(replies[0]) &&
    (c.Transfer() && Opens(replies[0].code) ==> Confirmed(replies) && EndsCleanly(events)) &&
    match c
    case Connect => |replies| == 1 && replies[0].code == FTP_READY
    case User(_) => replies[0].code == FTP_USER_OK || replies[0].code == FTP_LOGIN_OK
    case Pass(_) => replies[0].code == FTP_LOGIN_OK
    case Cwd(_) => replies[0].code == FTP_ACTION_OK
    case TypeImage => replies[0].code == FTP_OK
    case Pasv => replies[0].code == FTP_PASV && ParsePasv(replies[0].lines[|replies[0].lines| - 1]).Some?
    case Feat => forall l :: l in replies[0].lines ==> !Blank(l)
    case _ => true
  }

  /** What the runs of a client suppose of its server: `calm` runs of one that conforms, `smooth` ones of one that does
      everything it can; and of one that keeps a tree, that it does so. */
  ghost predicate ServerRight(server: Server, s: Service, calm: bool, smooth: bool) {
    (smooth ==> calm && s.faithful && s.willing) && (s.faithful ==> LooksRight(s.looks)) &&
    forall i, t, cwd, c, up ::
      var turn := server(i, t, cwd, c, up);
      (calm ==> Proper(c, turn)) &&
      (s.faithful && Closed(t) ==> Serves(s, t, cwd == s.place, c, up, turn.replies, turn.events, turn.tree)) &&
      (smooth && OneLine(c.Argument()) ==> !turn.closes && Smoothly(c, turn.replies, turn.events))
  }

  lemma ServerAt(server: Server, s: Service, calm: bool, smooth: bool, i: nat, t: Tree, cwd: Path, c: Command, up: bytes)
    requires ServerRight(server, s, calm, smooth)
    ensures var turn := server(i, t, cwd, c, up);
      (calm ==> Proper(c, turn)) &&
      (s.faithful && Closed(t) ==>
        Serves(s, t, cwd == s.place, c, up, turn.replies, turn.events, turn.tree) && Closed(turn.tree)) &&
      (smooth && OneLine(c.Argument()) ==> !turn.closes && Smoothly(c, turn.replies, turn.events))
  {
    var turn := server(i, t, cwd, c, up);
    if s.faithful && Closed(t) { ServesClosed(s, t, cwd == s.place, c, up, turn.replies, turn.events, turn.tree); }
  }
}
