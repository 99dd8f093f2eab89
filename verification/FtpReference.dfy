/** A server that does everything that FtpServer supposes of one, so that what is proved of its runs is proved of some. */
module FtpReference {
  import opened Basics
  import opened FtpReplies
  import opened FtpCommon
  import opened FtpTree
  import opened FtpPaths
  import opened FtpServer
  import FtpClient
  import Utf8

  function Plainly(code: nat): Reply
    requires code < 1000
  {
    Reply(code, [CodeDigits(code) + [SPACE]])
  }

  /** A greeting of 120 and then 220. If both come in one piece, the client that refuses the first leaves the second in the
      buffer, and takes it for the greeting of its next connection, whose own is left for USER, so that commands and replies
      are out of step; if they come in two pieces, nothing is left. */
  lemma StaleGreeting(next: Reply)
    requires WellFormed(next)
    ensures var wait, ready := Plainly(120), Plainly(FTP_READY);
      Taken([], [Data(Encode(wait) + Encode(ready))], |Encode(wait)|).0 == Encode(ready) &&
      Taken([], [Data(Encode(wait)), Data(Encode(ready))], |Encode(wait)|).0 == [] &&
      ParseReply(Encode(ready) + Encode(next)) == Complete(FTP_READY, ready.lines, Encode(next)) &&
      !FtpClient.Seamless(Encode(ready), [next])
  {
    var wait, ready := Plainly(120), Plainly(FTP_READY);
    PlainlyWellFormed(FTP_READY);
    FramingRoundTrip(ready, Encode(next));
    OnePiece(Encode(wait), Encode(ready));
    TwoPieces(Encode(wait), Encode(ready));
    GreetingOf(next);
    assert !OneReply(Encode(ready) + EncodeAll([next])) && FtpClient.OpeningOpen(true);
  }

  lemma GreetingOf(r: Reply)
    ensures EncodeAll([r]) == Encode(r)
  {
    assert [r][1..] == [] && Encode(r) + [] == Encode(r);
  }

  /** A greeting that is broken off in its first line, as "220 W", stays in the buffer; together with it the greeting of the
      next connection is one reply with a longer text, and commands and replies are in step there. */
  lemma BrokenGreeting(begun: bytes, ready: Reply, next: bytes)
    requires PlainText(begun) && |begun| >= MIN_FTP_RESPONSE && begun[..3] == CodeDigits(FTP_READY)
    requires begun[3] != HYPHEN
    requires WellFormed(ready) && |ready.lines| == 1
    ensures ParseReply(begun) == Incomplete(begun)
    ensures ParseReply(begun + Encode(ready) + next) == Complete(FTP_READY, [begun + ready.lines[0]], next)
    ensures FtpClient.Seamless(begun, [ready])
  {
    PlainTextHasNoCrlf(begun);
    LongerLine(begun, ready.lines[0], next);
    LongerLine(begun, ready.lines[0], []);
    assert ready.lines == [ready.lines[0]] && EncodeLines(ready.lines[1..]) == [];
    assert Encode(ready) == ready.lines[0] + CRLF;
    assert begun + Encode(ready) + [] == begun + Encode(ready);
    GreetingOf(ready);
  }

  lemma LongerLine(begun: bytes, line: bytes, next: bytes)
    requires PlainText(begun) && |begun| >= MIN_FTP_RESPONSE && begun[..3] == CodeDigits(FTP_READY)
    requires begun[3] != HYPHEN
    requires !HasCrlf(line)
    ensures ParseReply(begun + (line + CRLF) + next) == Complete(FTP_READY, [begun + line], next)
  {
    NoCrlfBehind(begun, line);
    var all := begun + line;
    assert begun + (line + CRLF) + next == all + CRLF + next;
    LineFound(all, next);
    assert all[..3] == begun[..3] && all[3] == begun[3];
    CodeRead(FTP_READY);
  }

  lemma {:induction false} NoCrlfBehind(begun: bytes, line: bytes)
    requires PlainText(begun) && !HasCrlf(line)
    ensures !HasCrlf(begun + line)
  {
    if begun == [] {
      assert begun + line == line;
    } else {
      assert begun[0] in begun && (begun + line)[1..] == begun[1..] + line;
      NoCrlfBehind(begun[1..], line);
    }
  }

  lemma OnePiece(a: bytes, b: bytes)
    requires a != []
    ensures Taken([], [Data(a + b)], |a|).0 == b
  {
    assert [] + (a + b) == a + b && [Data(a + b)][1..] == [];
    assert Gathered([], [Data(a + b)], |a|) == Gathered(a + b, [], |a|) == (a + b, []);
  }

  lemma TwoPieces(a: bytes, b: bytes)
    requires a != []
    ensures Taken([], [Data(a), Data(b)], |a|).0 == []
  {
    assert [] + a == a && [Data(a), Data(b)][1..] == [Data(b)];
    assert Gathered([], [Data(a), Data(b)], |a|) == Gathered(a, [Data(b)], |a|) == (a, [Data(b)]);
  }

  lemma {:induction false} PlainTextHasNoCrlf(b: bytes)
    requires PlainText(b)
    ensures !HasCrlf(b)
  {
    if |b| >= 2 {
      assert b[0] in b;
      PlainTextHasNoCrlf(b[1..]);
    }
  }

  lemma PlainlyWellFormed(code: nat)
    requires code < 1000
    ensures WellFormed(Plainly(code)) && !Blank(Plainly(code).lines[0])
  {
    var l := CodeDigits(code) + [SPACE];
    assert PlainText(l);
    PlainTextHasNoCrlf(l);
    assert !IsSpace(l[0]) && TrimLeft(l) == l;
  }

  const ADDRESS: bytes := [127, 0, 0, 1, 4, 1]

  function PassiveLine(): bytes {
    CodeDigits(FTP_PASV) + [SPACE] + ([OPEN] + (Join(PrintedOctets(ADDRESS), COMMA) + [CLOSE] + []))
  }

  lemma PassiveAddress()
    ensures WellFormed(Reply(FTP_PASV, [PassiveLine()])) && ParsePasv(PassiveLine()).Some?
  {
    PassiveLineParsed();
    PassiveLinePlain();
    PlainTextHasNoCrlf(PassiveLine());
    assert PassiveLine()[..3] == CodeDigits(FTP_PASV) && PassiveLine()[3] == SPACE;
  }

  lemma PassiveLineParsed()
    ensures ParsePasv(PassiveLine()).Some?
  {
    var before := CodeDigits(FTP_PASV) + [SPACE];
    NoNumbersWithoutParenthesis(before);
    FoundIfHeld(before);
    PasvRoundTrip(before, ADDRESS, []);
  }

  lemma PassiveLinePlain()
    ensures PlainText(PassiveLine())
  {
    PrintedRead(ADDRESS);
    forall p | p in PrintedOctets(ADDRESS) ensures CR !in p && LF !in p { assert AllDigits(p); }
    JoinElements(PrintedOctets(ADDRESS), COMMA, CR);
    JoinElements(PrintedOctets(ADDRESS), COMMA, LF);
    Bracketed(CodeDigits(FTP_PASV), Join(PrintedOctets(ADDRESS), COMMA));
  }

  lemma Bracketed(code: bytes, middle: bytes)
    requires PlainText(code) && PlainText(middle)
    ensures PlainText(code + [SPACE] + ([OPEN] + (middle + [CLOSE] + [])))
  {
  }

  lemma {:induction false} NoNumbersWithoutParenthesis(b: bytes)
    requires OPEN !in b
    ensures FindNumbers(b).None?
  {
    if b != [] {
      assert b[0] in b;
      NoNumbersWithoutParenthesis(b[1..]);
    }
  }

  lemma MlsdLinePlain(facts: seq<bytes>, node: Node, key: string)
    requires FactsRight(facts, node) && OneLine(key)
    ensures PlainText(MlsdLine(facts, key))
  {
    Utf8.EncodeContains(key, CR);
    Utf8.EncodeContains(key, LF);
    var parts := facts + [[SPACE] + Utf8.Encode(key)];
    forall q | q in parts ensures PlainText(q) {
      if q !in facts { assert q == [SPACE] + Utf8.Encode(key); }
    }
    PlainJoin(parts, SEMICOLON);
  }

  lemma ThreeLines(middle: bytes)
    requires PlainText(middle)
    ensures WellFormed(Reply(FTP_ACTION_OK, [MLST_HEAD, [SPACE] + middle, MLST_FOOT]))
  {
    var lines := [MLST_HEAD, [SPACE] + middle, MLST_FOOT];
    PlainTextHasNoCrlf(MLST_HEAD);
    PlainTextHasNoCrlf([SPACE] + middle);
    PlainTextHasNoCrlf(MLST_FOOT);
    assert lines[1..] == [lines[1], lines[2]] && lines[1..][1..] == [lines[2]];
    assert lines[1][..1] == [SPACE] && MLST_HEAD[..3] == CodeDigits(FTP_ACTION_OK);
    assert !Closes(lines[1], FTP_ACTION_OK) by {
      if |lines[1]| >= 4 { assert lines[1][..4][0] == SPACE; }
    }
    assert Closes(MLST_FOOT, FTP_ACTION_OK) && EndsReply([MLST_FOOT], FTP_ACTION_OK);
  }

  lemma MlstWellFormed(looks: Looks, key: string, node: Node)
    requires LooksRight(looks) && OneLine(key)
    ensures WellFormed(Reply(FTP_ACTION_OK, MlstLines(looks, key, node)))
  {
    var facts := looks.facts(Resolve(key), node);
    assert FactsRight(facts, node);
    MlsdLinePlain(facts, node, key);
    ThreeLines(MlsdLine(facts, key));
  }

  ghost function Ordered(s: set<string>): (r: seq<string>)
    ensures Distinct(r) && forall n :: n in r <==> n in s
    decreases |s|
  {
    if s == {} then [] else var n :| n in s; [n] + Ordered(s - {n})
  }

  ghost function NamesIn(t: Tree, d: Path): (names: seq<string>)
    ensures Entries(t, d, names)
  {
    var s := set p | p in t.Keys && |p| == |d| + 1 && p[..|d|] == d :: p[|d|];
    NamesAre(t, d, s);
    Ordered(s)
  }

  lemma NamesAre(t: Tree, d: Path, s: set<string>)
    requires s == set p | p in t.Keys && |p| == |d| + 1 && p[..|d|] == d :: p[|d|]
    ensures forall n :: n in s <==> d + [n] in t
  {
    forall n ensures n in s <==> d + [n] in t {
      if n in s {
        var p :| p in t.Keys && |p| == |d| + 1 && p[..|d|] == d && p[|d|] == n;
        assert p == d + [n];
      }
      if d + [n] in t { assert (d + [n])[..|d|] == d && (d + [n])[|d|] == n; }
    }
  }

  function InOnePiece(data: bytes): (events: seq<Recv>)
    ensures EndsCleanly(events) && Bytes(events) == data
  {
    if data == [] then [] else
    assert [Data(data)][1..] == [];
    [Data(data)]
  }

  ghost function Says(code: nat, t: Tree): Turn
    requires code < 1000
  {
    Turn([Plainly(code)], [], false, [], t)
  }

  ghost function Transfers(events: seq<Recv>, t: Tree): Turn {
    Turn([Plainly(FTP_TRANSFER_ALREADY_OPEN), Plainly(FTP_TRANSFER_DONE)], [], false, events, t)
  }

  /** Of a place where the tree is not, it says that nothing is there. */
  ghost function Serve(looks: Looks, supports: FTPFeatures, place: Path, t: Tree, cwd: Path, c: Command, upload: bytes): Turn {
    if !OneLine(c.Argument()) then Turn([], [], false, [], t)
    else if NamesPlace(c) && !Here(Ideal(looks, supports, place), cwd == place, c.Argument()) then Says(FTP_NOT_FOUND, t)
    else ServeHere(looks, supports, t, c, upload)
  }

  predicate NamesPlace(c: Command) {
    c.Transfer() || c.Mkd? || c.Dele? || c.Size? || c.Mlst?
  }

  ghost function Ideal(looks: Looks, supports: FTPFeatures, place: Path): Service {
    Service(looks, supports, place, true, true, true)
  }

  ghost function ServeHere(looks: Looks, supports: FTPFeatures, t: Tree, c: Command, upload: bytes): Turn {
    var p := Resolve(c.Argument());
    match c
    case Connect => Says(FTP_READY, t)
    case User(_) => Says(FTP_LOGIN_OK, t)
    case Pass(_) => Says(FTP_LOGIN_OK, t)
    case Cwd(_) => Says(FTP_ACTION_OK, t)
    case TypeImage => Says(FTP_OK, t)
    case Feat => Says(FTP_UNSUPPORTED, t)
    case Quit => Says(FTP_OK, t)
    case Pasv => Turn([Reply(FTP_PASV, [PassiveLine()])], [], false, [], t)
    case Mkd(_) => Says(if MkdTree(t, p) == t then FTP_NOT_FOUND else FTP_CREATED, if Dotless(c.dir) then MkdTree(t, p) else t)
    case Dele(_) => if IsFile(t, p) then Says(FTP_ACTION_OK, t - {p}) else Says(FTP_NOT_FOUND, t)
    case Size(_) =>
      Says(if !supports.supportsSize then FTP_UNSUPPORTED else if IsFile(t, p) then FTP_SIZE_OK else FTP_NOT_FOUND, t)
    case Mlst(key) =>
      if !supports.supportsMlst then Says(FTP_UNSUPPORTED, t)
      else if p in t then Turn([Reply(FTP_ACTION_OK, MlstLines(looks, key, t[p]))], [], false, [], t)
      else Says(FTP_NOT_FOUND, t)
    case Stor(_) => ServeStor(t, p, Dotless(c.key), upload)
    case Retr(_) => if IsFile(t, p) then Transfers(InOnePiece(t[p].data), t) else Says(FTP_NOT_FOUND, t)
    case Listing(mlsd, _) => ServeListing(looks, supports, t, mlsd, p)
  }

  ghost function ServeStor(t: Tree, p: Path, dotless: bool, upload: bytes): Turn {
    if Storable(t, p) && dotless then Transfers([], t[p := File(upload)]) else Says(FTP_NOT_FOUND, t)
  }

  ghost function ServeListing(looks: Looks, supports: FTPFeatures, t: Tree, mlsd: bool, p: Path): Turn {
    if mlsd && !supports.supportsMlsd then Says(FTP_UNSUPPORTED, t)
    else if IsDir(t, p) then Transfers(InOnePiece(ListingData(looks, mlsd, t, p)), t)
    else Says(FTP_NOT_FOUND, t)
  }

  ghost function ListingData(looks: Looks, mlsd: bool, t: Tree, d: Path): (data: bytes)
    ensures IsListing(looks, mlsd, t, d, data)
  {
    assert Entries(t, d, NamesIn(t, d));
    EncodeLines(LinesFor(looks, mlsd, t, d, NamesIn(t, d)))
  }

  ghost function Reference(looks: Looks, supports: FTPFeatures, place: Path): Server {
    (i, t, cwd, c, up) => Serve(looks, supports, place, t, cwd, c, up)
  }

  /** With any looks, any features and anywhere, there is a server that keeps a tree, refuses nothing and denies nothing, of
      which all runs can be smooth. */
  lemma ServerExists(looks: Looks, supports: FTPFeatures, place: Path)
    requires LooksRight(looks)
    ensures ServerRight(Reference(looks, supports, place), Ideal(looks, supports, place), true, true)
  {
    forall i: nat, t: Tree, cwd: Path, c: Command, up: bytes
      ensures var turn := Reference(looks, supports, place)(i, t, cwd, c, up);
        Proper(c, turn) &&
        (Closed(t) ==> Serves(Ideal(looks, supports, place), t, cwd == place, c, up, turn.replies, turn.events, turn.tree)) &&
        (OneLine(c.Argument()) ==> !turn.closes && Smoothly(c, turn.replies, turn.events))
    {
      ServeRight(looks, supports, place, t, cwd, c, up);
      if Closed(t) { ServeServes(looks, supports, place, t, cwd, c, up); }
    }
  }

  lemma ServeRight(looks: Looks, supports: FTPFeatures, place: Path, t: Tree, cwd: Path, c: Command, up: bytes)
    requires LooksRight(looks)
    ensures var turn := Serve(looks, supports, place, t, cwd, c, up);
      Proper(c, turn) && (OneLine(c.Argument()) ==> !turn.closes && Smoothly(c, turn.replies, turn.events))
  {
    NothingIsUnfinished();
    if OneLine(c.Argument()) {
      if NamesPlace(c) { SaysRight(c, FTP_NOT_FOUND, t); }
      ServeHereRight(looks, supports, t, c, up);
    }
  }

  lemma ServeHereRight(looks: Looks, supports: FTPFeatures, t: Tree, c: Command, up: bytes)
    requires LooksRight(looks) && OneLine(c.Argument())
    ensures var turn := ServeHere(looks, supports, t, c, up);
      Proper(c, turn) && !turn.closes && Smoothly(c, turn.replies, turn.events)
  {
    if c.Transfer() {
      TransferRight(looks, supports, t, c, up);
    } else if c.Mlst? {
      MlstRight(looks, supports, t, c, up);
    } else if c.Mkd? || c.Dele? || c.Size? {
      TreeRight(looks, supports, t, c, up);
    } else {
      LoginRight(looks, supports, t, c, up);
    }
  }

  lemma LoginRight(looks: Looks, supports: FTPFeatures, t: Tree, c: Command, up: bytes)
    requires OneLine(c.Argument()) && !c.Transfer() && !c.Mkd? && !c.Dele? && !c.Size? && !c.Mlst?
    ensures var turn := ServeHere(looks, supports, t, c, up);
      Proper(c, turn) && !turn.closes && Smoothly(c, turn.replies, turn.events)
  {
    NothingIsUnfinished();
    match c
    case Connect => SaysRight(c, FTP_READY, t);
    case User(_) => SaysRight(c, FTP_LOGIN_OK, t);
    case Pass(_) => SaysRight(c, FTP_LOGIN_OK, t);
    case Cwd(_) => SaysRight(c, FTP_ACTION_OK, t);
    case TypeImage => SaysRight(c, FTP_OK, t);
    case Feat => SaysRight(c, FTP_UNSUPPORTED, t);
    case Quit => SaysRight(c, FTP_OK, t);
    case Pasv => PassiveAddress();
  }

  lemma TreeRight(looks: Looks, supports: FTPFeatures, t: Tree, c: Command, up: bytes)
    requires OneLine(c.Argument()) && (c.Mkd? || c.Dele? || c.Size?)
    ensures var turn := ServeHere(looks, supports, t, c, up);
      Proper(c, turn) && !turn.closes && Smoothly(c, turn.replies, turn.events)
  {
    var turn := ServeHere(looks, supports, t, c, up);
    assert turn == Says(turn.replies[0].code, turn.tree);
    SaysRight(c, turn.replies[0].code, turn.tree);
  }

  lemma MlstRight(looks: Looks, supports: FTPFeatures, t: Tree, c: Command, up: bytes)
    requires OneLine(c.Argument()) && LooksRight(looks) && c.Mlst?
    ensures var turn := ServeHere(looks, supports, t, c, up);
      Proper(c, turn) && !turn.closes && Smoothly(c, turn.replies, turn.events)
  {
    NothingIsUnfinished();
    SaysRight(c, FTP_NOT_FOUND, t);
    SaysRight(c, FTP_UNSUPPORTED, t);
    if Resolve(c.key) in t {
      MlstWellFormed(looks, c.key, t[Resolve(c.key)]);
      Described(c, Reply(FTP_ACTION_OK, MlstLines(looks, c.key, t[Resolve(c.key)])), t);
    }
  }

  lemma Described(c: Command, r: Reply, t: Tree)
    requires c.Mlst? && WellFormed(r) && Unfinished([])
    ensures Proper(c, Turn([r], [], false, [], t)) && Smoothly(c, [r], [])
  {
  }

  lemma TransferRight(looks: Looks, supports: FTPFeatures, t: Tree, c: Command, up: bytes)
    requires OneLine(c.Argument()) && c.Transfer()
    ensures var turn := ServeHere(looks, supports, t, c, up);
      Proper(c, turn) && !turn.closes && Smoothly(c, turn.replies, turn.events)
  {
    SaysRight(c, FTP_NOT_FOUND, t);
    SaysRight(c, FTP_UNSUPPORTED, t);
    var turn := ServeHere(looks, supports, t, c, up);
    if |turn.replies| == 2 { TransfersRight(c, turn.events, turn.tree); }
  }

  /** A single reply is right for any command that does not open a transfer with it or need an address, if a login goes on
      with it. */
  lemma SaysRight(c: Command, code: nat, t: Tree)
    requires code < 1000 && !Opens(code) && !c.Pasv?
    requires (c.Connect? ==> code == FTP_READY) && (c.User? || c.Pass? ==> code == FTP_LOGIN_OK)
    requires (c.Cwd? ==> code == FTP_ACTION_OK) && (c.TypeImage? ==> code == FTP_OK)
    ensures Proper(c, Says(code, t)) && Smoothly(c, Says(code, t).replies, [])
  {
    NothingIsUnfinished();
    PlainlyWellFormed(code);
    SingleReply(c, Plainly(code), t);
  }

  lemma NothingIsUnfinished()
    ensures ParseReply([]) == Incomplete([]) && Unfinished([])
  {
  }

  lemma SingleReply(c: Command, r: Reply, t: Tree)
    requires WellFormed(r) && |r.lines| == 1 && !Blank(r.lines[0]) && Unfinished([]) && !Opens(r.code) && !c.Pasv?
    requires (c.Connect? ==> r.code == FTP_READY) && (c.User? || c.Pass? ==> r.code == FTP_LOGIN_OK)
    requires (c.Cwd? ==> r.code == FTP_ACTION_OK) && (c.TypeImage? ==> r.code == FTP_OK)
    ensures Proper(c, Turn([r], [], false, [], t)) && Smoothly(c, [r], [])
  {
  }

  lemma TransfersRight(c: Command, events: seq<Recv>, t: Tree)
    requires c.Transfer() && EndsCleanly(events)
    ensures Proper(c, Transfers(events, t)) && Smoothly(c, Transfers(events, t).replies, events)
  {
    NothingIsUnfinished();
    PlainlyWellFormed(FTP_TRANSFER_ALREADY_OPEN);
    PlainlyWellFormed(FTP_TRANSFER_DONE);
  }

  lemma ServeServes(looks: Looks, supports: FTPFeatures, place: Path, t: Tree, cwd: Path, c: Command, up: bytes)
    requires LooksRight(looks) && Closed(t)
    ensures var turn := Serve(looks, supports, place, t, cwd, c, up);
      Serves(Ideal(looks, supports, place), t, cwd == place, c, up, turn.replies, turn.events, turn.tree)
  {
    if OneLine(c.Argument()) && Dotless(c.Argument()) && Here(Ideal(looks, supports, place), cwd == place, c.Argument()) {
      if c.Transfer() {
        TransferServes(Ideal(looks, supports, place), t, cwd == place, c, up);
      } else {
        PlainServes(Ideal(looks, supports, place), t, cwd == place, c, up);
      }
    } else {
      ClosedStays(t, c, Resolve(c.Argument()));
    }
  }

  lemma TransferServes(s: Service, t: Tree, home: bool, c: Command, up: bytes)
    requires s == Ideal(s.looks, s.supports, s.place)
    requires c.Transfer() && OneLine(c.Argument()) && Dotless(c.Argument()) && Here(s, home, c.Argument())
    ensures var turn := ServeHere(s.looks, s.supports, t, c, up);
      Serves(s, t, home, c, up, turn.replies, turn.events, turn.tree)
  {
    match c
    case Stor(key) => StorServes(s, t, Resolve(key), up);
    case Retr(key) => RetrServes(s, t, key, up);
    case Listing(mlsd, path) => ListingServes(s, t, mlsd, Resolve(path));
  }

  lemma StorServes(s: Service, t: Tree, p: Path, up: bytes)
    ensures var turn := ServeStor(t, p, true, up); Stores(s, t, p, up, turn.replies, turn.tree)
  {
    if Storable(t, p) {
      TransfersConfirm(s, [], t[p := File(up)]);
      assert t[p := File(up)][p] == File(up);
    }
  }

  lemma TransfersConfirm(s: Service, events: seq<Recv>, t: Tree)
    ensures var turn := Transfers(events, t);
      Confirmed(turn.replies) && OnlyOpens(s, turn.replies) && turn.events == events && turn.tree == t
  {
  }

  lemma RetrServes(s: Service, t: Tree, key: string, up: bytes)
    ensures var turn := ServeHere(s.looks, s.supports, t, Retr(key), up);
      turn.tree == t && Retrieves(s, t, Resolve(key), turn.replies, turn.events)
  {
  }

  lemma ListingServes(s: Service, t: Tree, mlsd: bool, p: Path)
    ensures var turn := ServeListing(s.looks, s.supports, t, mlsd, p);
      turn.tree == t && Lists(s, t, mlsd, p, turn.replies, turn.events)
  {
    if IsDir(t, p) {
      TransfersConfirm(s, InOnePiece(ListingData(s.looks, mlsd, t, p)), t);
    }
  }

  lemma PlainServes(s: Service, t: Tree, home: bool, c: Command, up: bytes)
    requires s == Ideal(s.looks, s.supports, s.place)
    requires !c.Transfer() && OneLine(c.Argument()) && Dotless(c.Argument()) && Here(s, home, c.Argument())
    ensures var turn := ServeHere(s.looks, s.supports, t, c, up);
      Serves(s, t, home, c, up, turn.replies, turn.events, turn.tree)
  {
  }

  lemma ClosedStays(t: Tree, c: Command, p: Path)
    requires Closed(t)
    ensures IsFile(t, p) ==> Closed(t - {p})
  {
    if IsFile(t, p) {
      ClosedGoodPath(t, p);
      DeleteRefinesRemoval(t, p);
    }
  }
}
