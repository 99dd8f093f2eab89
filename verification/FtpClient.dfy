/** The sync FTP client: its sockets, commands and replies in step (section 5.4 of RFC 959), and what its operations do
    to the files of a server. */
module FtpClient {
  import opened Basics
  import opened Rows
  import opened FtpReplies
  import opened FtpCommon
  import opened FtpTree
  import opened FtpPaths
  import opened FtpServer

  /** KeyError, BlobError, and the IndexError of a FEAT reply with a line of nothing but white space. */
  datatype Exception = NoKey | Blob | Index

  datatype Verdict<+T> = Done(value: T) | Raised(exception: Exception)

  datatype Exchange = Exchange(command: Command, replies: seq<Reply>)

  /** The host and port of a data connection. */
  type Address = (seq<int>, int)

  /** A data connection is opened or shut, or a final reply is awaited. */
  datatype Step = Opened(address: Address) | Shut | Awaited(code: int)

  function Text(r: Reply): ReplyText {
    (r.code, r.lines)
  }

  function Rest(replies: seq<Reply>): seq<Reply> {
    if replies == [] then [] else replies[1..]
  }

  /** The bytes that some replies take on the wire. */
  function Printed(read: seq<ReplyText>): bytes {
    if read == [] then [] else Printed(read[..|read| - 1]) + EncodeLines(read[|read| - 1].1)
  }

  lemma PrintedSnoc(read: seq<ReplyText>, r: ReplyText)
    ensures Printed(read + [r]) == Printed(read) + EncodeLines(r.1)
  {
    assert (read + [r])[..|read + [r]| - 1] == read;
  }

  lemma {:induction false} EncodeAllAppend(a: seq<Reply>, b: seq<Reply>)
    ensures EncodeAll(a + b) == EncodeAll(a) + EncodeAll(b) && Texts(a + b) == Texts(a) + Texts(b)
  {
    if a == [] {
      assert a + b == b;
    } else {
      assert (a + b)[1..] == a[1..] + b;
      EncodeAllAppend(a[1..], b);
      ConcatAssociates(Encode(a[0]), EncodeAll(a[1..]), EncodeAll(b));
    }
  }

  lemma {:induction false} PrintedSame(sent: seq<Reply>)
    ensures Printed(Texts(sent)) == EncodeAll(sent)
    decreases |sent|
  {
    if sent != [] {
      var most, last := sent[..|sent| - 1], sent[|sent| - 1];
      assert sent == most + [last];
      PrintedSame(most);
      EncodeAllAppend(most, [last]);
      assert [last][1..] == [] && Texts([last]) == [Text(last)] && EncodeAll([last]) == Encode(last) + [];
      PrintedSnoc(Texts(most), Text(last));
    }
  }

  lemma SteadyNothing(events: seq<Recv>)
    requires Steady(events) && Bytes(events) == []
    ensures events == []
  {
  }

  lemma NoTexts(read: seq<ReplyText>)
    ensures read + Texts([]) == read
  {
  }

  lemma NoReplies(b: bytes)
    ensures EncodeAll([]) + b == b
  {
  }

  lemma HeadAndTail(head: bytes, b: bytes)
    requires |head| <= |b| && head == b[..|head|]
    ensures head + b[|head|..] == b
  {
  }

  lemma NothingBefore(buffer: bytes, arriving: bytes, more: bytes)
    requires buffer + arriving == buffer + [] + more
    ensures arriving == more
  {
    assert (buffer + arriving)[|buffer|..] == arriving && (buffer + [] + more)[|buffer|..] == more;
  }

  lemma NoLineUnfinished(left: bytes)
    requires !HasCrlf(left)
    ensures ParseReply(left).Incomplete?
  {
  }

  lemma EndOfCut(cut: bytes, n: nat, left: bytes)
    requires n <= |cut| && IsEnd(left, cut[n..])
    ensures cut[..n] + cut[n..][..|cut| - n - |left|] == cut[..|cut| - |left|] && left == cut[|cut| - |left|..]
  {
  }

  // These keep definitions closed, as FtpServer.ReadableOpen does.

  predicate OpeningOpen(on: bool) {
    true
  }

  predicate RightOpen(on: bool) {
    true
  }

  predicate SoFarOpen(on: bool) {
    true
  }

  predicate SupposedOpen(on: bool) {
    true
  }

  predicate BooksOpen(on: bool) {
    true
  }

  predicate LoginOpen(on: bool) {
    true
  }

  predicate DirsOpen(on: bool) {
    true
  }

  /** What the buffer held and the greeting are one reply and nothing else. */
  ghost predicate Seamless(stale: bytes, greeting: seq<Reply>) {
    forall on {:trigger OpeningOpen(on)} :: OpeningOpen(on) ==> OneReply(stale + EncodeAll(greeting))
  }

  /** The account of one control connection. */
  datatype Wire = Wire(
    stale: bytes,                  // what the buffer held when it was opened
    torn: bool,                    // a command text with a line end has been sent
    greeting: seq<Reply>,          // the replies that the server has greeted with
    welcome: Option<ReplyText>,    // the first reply that has been read
    sent: seq<Reply>,              // the replies that the server has sent after the greeting
    cut: bytes,                    // the bytes of a reply that it has broken off
    read: seq<ReplyText>,          // the replies that have been read after the first
    lost: bytes,                   // the bytes taken by reading that gave no reply
    due: seq<Reply>,               // the replies sent after the greeting and not read
    home: bool)                    // the working directory is where the store stands
  {
    /** What the first reply is read from, together with what has been broken off. */
    function Opening(): bytes {
      stale + EncodeAll(greeting)
    }

    function Welcoming(): bytes {
      if welcome.None? then [] else EncodeLines(welcome.value.1)
    }

    /** What stood in the buffer and what was sent is what was taken and what is left. */
    predicate Conserved(stream: bytes) {
      |Opening()| + |EncodeAll(sent)| + |cut| == |Welcoming()| + |Printed(read)| + |lost| + |stream|
    }

    /** No reply has been read. */
    predicate Unread(stream: bytes) {
      sent == [] && read == [] && due == [] && lost + stream == Opening() + cut
    }

    /** The first reply was read from the opening. */
    predicate Welcomed() {
      var p := ParseReply(Opening() + cut);
      p.Complete? && welcome == Some((p.code, p.lines))
    }

    /** The replies read after the first are those sent after the greeting but for those due, and these are what stands in
        the stream. */
    predicate InLine(stream: bytes) {
      Texts(sent) == read + Texts(due) && (forall r :: r in due ==> WellFormed(r)) &&
      |lost| <= |cut| && lost == cut[..|lost|] && stream == EncodeAll(due) + cut[|lost|..] &&
      ParseReply(cut[|lost|..]).Incomplete?
    }

    /** Nothing stands in the way of reading: what was in the buffer and the greeting are one reply, which has been read. */
    ghost predicate Clean() {
      welcome.Some? && !torn && Seamless(stale, greeting)
    }

    /** The account is right, with `stream` still to be read. */
    ghost predicate Right(stream: bytes) {
      forall on {:trigger RightOpen(on)} :: RightOpen(on) ==> RightInFull(stream)
    }

    ghost predicate RightInFull(stream: bytes) {
      Conserved(stream) && ParseReply(cut).Incomplete? && (if welcome.None? then Unread(stream) else Welcomed()) &&
      (Clean() ==> InLine(stream))
    }

    /** Commands and replies are in step: the replies read after the first are those sent after the greeting, each in its
        place, and the only other bytes taken or left are those of a reply that the server has broken off. */
    predicate InStep(stream: bytes) {
      welcome.Some? && read == Texts(sent) && lost + stream == cut
    }

    /** The server has greeted. */
    function Greet(more: seq<Reply>, broken: bytes): Wire {
      this.(greeting := more, cut := broken)
    }

    /** After a command, and the server's answer to it. */
    function Send(oneLine: bool, more: seq<Reply>, broken: bytes): Wire {
      this.(torn := torn || !oneLine, sent := sent + more, cut := cut + broken, due := more)
    }

    /** After reading a reply from a stream. */
    function Take(stream: bytes): Wire {
      match ParseReply(stream)
      case Complete(code, lines, rest) =>
        if welcome.None? then this.(welcome := Some((code, lines)))
        else this.(read := read + [(code, lines)], due := Rest(due))
      case Malformed(rest) => this.(lost := lost + Taken(stream, rest))
      case Incomplete(rest) => this.(lost := lost + Taken(stream, rest))
    }

    static function Taken(stream: bytes, rest: bytes): bytes {
      if |rest| <= |stream| then stream[..|stream| - |rest|] else []
    }

    /** What is left of a stream after reading a reply. */
    static function Left(stream: bytes): bytes {
      ParseReply(stream).rest
    }

    /** Nothing has been sent or read. */
    predicate New() {
      this == Wire(stale, false, [], None, [], [], [], [], [], home)
    }

    /** The account of a new connection is right, with the buffer still to be read. */
    lemma NewRight()
      requires New()
      ensures Right(stale + Bytes([])) && Bytes([]) == []
    {
      NoReplies(stale);
      NoLineUnfinished([]);
      assert stale + [] == stale && [] + stale == stale;
      assert Opening() + cut == stale;
    }

    lemma GreetRight(stream: bytes, more: seq<Reply>, broken: bytes)
      requires New() && Right(stream) && Unfinished(broken)
      ensures Greet(more, broken).Right(stream + (EncodeAll(more) + broken))
    {
      assert UnfinishedOpen(true);
      assert RightOpen(true);
      ConcatAssociates(stale, EncodeAll(more), broken);
      assert [] + stream == stream && Opening() + cut == stale + [] + [] == stale;
      var all := stream + (EncodeAll(more) + broken);
      assert [] + all == all;
    }

    /** A greeting that arrives in some pieces. */
    lemma Greets(b: bytes, events: seq<Recv>, more: seq<Reply>, broken: bytes)
      requires New() && Right(b + []) && Unfinished(broken)
      requires b + Bytes(events) == b + [] + (EncodeAll(more) + broken)
      ensures Greet(more, broken).Right(b + Bytes(events)) && EncodeAll(more) <= Bytes(events)
    {
      assert RightOpen(true);
      GreetRight(b + [], more, broken);
      NothingBefore(b, Bytes(events), EncodeAll(more) + broken);
    }

    lemma SendRight(stream: bytes, oneLine: bool, more: seq<Reply>, broken: bytes)
      requires Right(stream) && welcome.Some? && (Clean() ==> due == []) && cut == []
      requires (forall r :: r in more ==> WellFormed(r)) && Unfinished(broken)
      ensures Send(oneLine, more, broken).Right(stream + (EncodeAll(more) + broken))
    {
      assert UnfinishedOpen(true);
      assert RightOpen(true);
      var after := Send(oneLine, more, broken);
      assert after.Opening() == Opening() && after.cut == broken by { assert [] + broken == broken; }
      EncodeAllAppend(sent, more);
      SendWelcomed(broken);
      if after.Clean() { SendInLine(stream, oneLine, more, broken); }
    }

    lemma SendWelcomed(broken: bytes)
      requires Welcomed() && cut == []
      ensures this.(cut := broken).Welcomed()
    {
      assert Opening() + [] == Opening();
      ParseStays(Opening(), broken);
    }

    lemma SendInLine(stream: bytes, oneLine: bool, more: seq<Reply>, broken: bytes)
      requires InLine(stream) && due == [] && cut == []
      requires (forall r :: r in more ==> WellFormed(r)) && Unfinished(broken)
      ensures Send(oneLine, more, broken).InLine(stream + (EncodeAll(more) + broken))
    {
      assert UnfinishedOpen(true);
      EncodeAllAppend(sent, more);
      InLineSettled(stream);
      assert [] + broken == broken && broken[0..] == broken;
    }

    /** The account says nothing of the working directory. */
    lemma Moves(stream: bytes, at: bool)
      requires Right(stream)
      ensures this.(home := at).Right(stream) && this.(home := at).Clean() == Clean()
    {
      assert RightOpen(true);
      var after := this.(home := at);
      assert after.Opening() == Opening() && after.Welcoming() == Welcoming() && after.Clean() == Clean();
    }

    lemma SendNothing(stream: bytes, oneLine: bool)
      requires Right(stream) && welcome.Some? && (Clean() ==> due == [])
      ensures Send(oneLine, [], []).Right(stream)
    {
      assert RightOpen(true);
      assert sent + [] == sent && cut + [] == cut;
    }

    /** Reading the first reply keeps the account; if the opening is one reply, that is taken and nothing else. */
    lemma TakeFirst(stream: bytes)
      requires Right(stream) && welcome.None? && lost == []
      ensures Take(stream).Right(Left(stream)) && stream == Opening() + cut && Take(stream).due == []
    {
      assert RightOpen(true);
      assert [] + stream == stream;
      if ParseReply(stream).Complete? { TakeWelcome(stream); } else { TakeNothing(stream); }
    }

    lemma TakeWelcome(stream: bytes)
      requires Right(stream) && welcome.None? && lost == [] && stream == Opening() + cut && ParseReply(stream).Complete?
      ensures Take(stream).Right(Left(stream))
    {
      assert RightOpen(true);
      ParsePrints(stream);
      ParseStays(Opening(), cut);
      var after := Take(stream);
      assert after.Opening() == Opening() && OpeningOpen(true);
      if after.Clean() { assert [] + cut == cut && cut[0..] == cut && read + Texts([]) == Texts(sent); }
    }

    lemma TakeNothing(stream: bytes)
      requires Right(stream) && welcome.None? && lost == [] && stream == Opening() + cut
      requires !ParseReply(stream).Complete?
      ensures Take(stream).Right(Left(stream))
    {
      assert RightOpen(true);
      ParsePrints(stream);
      var left := Left(stream);
      var gone := Taken(stream, left);
      TakenAway(stream, left);
      assert Take(stream) == this.(lost := gone) by { assert [] + gone == gone; }
      LosesOnly(gone, stream, left);
    }

    static lemma TakenAway(stream: bytes, left: bytes)
      requires IsEnd(left, stream)
      ensures Taken(stream, left) + left == stream
    {
    }

    lemma LosesOnly(gone: bytes, stream: bytes, left: bytes)
      requires Right(stream) && welcome.None? && lost == [] && gone + left == stream
      ensures this.(lost := gone).Right(left)
    {
      assert RightOpen(true);
      assert [] + stream == stream;
    }

    /** Reading keeps the account; in line, it gives the oldest reply due. */
    lemma TakeRight(stream: bytes)
      requires Right(stream) && welcome.Some?
      ensures Take(stream).Right(Left(stream)) && Take(stream).Clean() == Clean()
      ensures Clean() ==> Take(stream).due == Rest(due) && (ParseReply(stream).Complete? <==> due != [])
      ensures Clean() && due != [] ==> (ParseReply(stream).code, ParseReply(stream).lines) == Text(due[0])
    {
      assert RightOpen(true);
      TakeConserved(stream);
      assert Take(stream).Opening() == Opening();
      if Clean() {
        TakeInLine(stream);
        DueParsed(stream);
      }
    }

    lemma TakeConserved(stream: bytes)
      requires Conserved(stream) && welcome.Some?
      ensures Take(stream).Conserved(Left(stream))
    {
      ParsePrints(stream);
      match ParseReply(stream)
      case Complete(code, lines, rest) => PrintedSnoc(read, (code, lines));
      case _ =>
    }

    lemma DueParsed(stream: bytes)
      requires InLine(stream)
      ensures due != [] ==> ParseReply(stream) == Complete(due[0].code, due[0].lines, EncodeAll(due[1..]) + cut[|lost|..])
      ensures due == [] ==> stream == cut[|lost|..] && ParseReply(stream).Incomplete?
    {
      if due != [] {
        ConcatAssociates(Encode(due[0]), EncodeAll(due[1..]), cut[|lost|..]);
        FramingRoundTrip(due[0], EncodeAll(due[1..]) + cut[|lost|..]);
      } else {
        assert [] + cut[|lost|..] == cut[|lost|..];
      }
    }

    lemma TakeInLine(stream: bytes)
      requires InLine(stream) && welcome.Some?
      ensures Take(stream).InLine(Left(stream))
    {
      DueParsed(stream);
      if due != [] {
        assert read + Texts(due) == read + [Text(due[0])] + Texts(due[1..]);
      } else {
        ParsePrints(stream);
        CutFurther(ParseReply(stream).rest);
      }
    }

    /** An unfinished reply loses its whole lines to a reader. */
    lemma CutFurther(left: bytes)
      requires |lost| <= |cut| && lost == cut[..|lost|] && IsEnd(left, cut[|lost|..]) && !HasCrlf(left)
      ensures var now := lost + Taken(cut[|lost|..], left);
        |now| <= |cut| && now == cut[..|now|] && left == cut[|now|..] && ParseReply(left).Incomplete?
    {
      EndOfCut(cut, |lost|, left);
      NoLineUnfinished(left);
    }

    /** In step if and only if what the buffer held and the greeting are one reply and nothing else. */
    lemma InStepExactlyWhen(stream: bytes)
      requires Right(stream) && welcome.Some? && !torn && (Clean() ==> due == [])
      ensures InStep(stream) <==> OneReply(stale + EncodeAll(greeting))
    {
      assert RightOpen(true);
      assert OpeningOpen(true);
      if Clean() {
        InLineSettled(stream);
      } else if InStep(stream) {
        PrintedSame(sent);
        OpeningIsWelcome();
      }
    }

    /** With nothing due, being in line is being in step. */
    lemma InLineSettled(stream: bytes)
      requires InLine(stream) && due == []
      ensures read == Texts(sent) && stream == cut[|lost|..] && lost + stream == cut
    {
      NoTexts(read);
      NoReplies(cut[|lost|..]);
      HeadAndTail(lost, cut);
    }

    /** If the first reply is as long as the opening, it is the opening. */
    lemma OpeningIsWelcome()
      requires welcome.Some? && Welcomed() && |Opening()| == |Welcoming()|
      ensures OneReply(Opening())
    {
      var all := Opening() + cut;
      ParsePrints(all);
      ParseAlone(all);
      assert all[..|all| - |ParseReply(all).rest|] == Opening();
    }

    /** A connection that was opened with an empty buffer, and whose greeting has been accepted, is in line. */
    lemma EmptyIsClean(stream: bytes)
      requires Right(stream) && stale == [] && !torn && welcome.Some? && welcome.value.0 == FTP_READY
      requires Conforming(Connect, greeting) && forall r :: r in greeting ==> WellFormed(r)
      ensures Clean()
    {
      assert RightOpen(true);
      assert [] + EncodeAll(greeting) == EncodeAll(greeting) && [] + cut == cut;
      if greeting != [] {
        var first, others := greeting[0], EncodeAll(greeting[1..]);
        ConcatAssociates(Encode(first), others, cut);
        FramingRoundTrip(first, others + cut);
        FramingRoundTrip(first, []);
      }
    }

    /** A greeting on an empty buffer is read reply by reply. */
    lemma FirstOfGreeting()
      requires stale == [] && greeting != [] && forall r :: r in greeting ==> WellFormed(r)
      ensures var p := ParseReply(Opening() + cut);
        p.Complete? && p.code == greeting[0].code && |Opening() + cut| - |p.rest| == |Encode(greeting[0])|
    {
      var first, others := greeting[0], EncodeAll(greeting[1..]);
      ConcatAssociates(Encode(first), others, cut);
      assert [] + EncodeAll(greeting) == EncodeAll(greeting);
      FramingRoundTrip(first, others + cut);
    }
  }

  /** The bytes of the stream cut into pieces at any places. */
  method Arrivals(b: bytes) returns (events: seq<Recv>)
    ensures Steady(events) && Bytes(events) == b
    decreases |b|
  {
    if b == [] { return []; }
    var n: nat := *;
    var cut := if 1 <= n <= |b| then n else |b|;
    var rest := Arrivals(b[cut..]);
    assert b == b[..cut] + b[cut..];
    return [Data(b[..cut])] + rest;
  }

  /** The listings that a walk has asked for, and how many of them after it had yielded a key. */
  datatype Listings = Listings(all: nat, late: nat)
  {
    /** After some more, asked for when there were keys already or not. */
    function Then(keys: bool, more: Listings): Listings {
      Listings(all + more.all, late + if keys then more.all else more.late)
    }

    /** No more than these, and none after the first key. */
    predicate AtMost(n: nat) {
      all <= n && late == 0
    }
  }

  class FtpClient {
    const channel: ControlChannel       // of the current connection, but for its buffer, which outlives it
    const user: string
    const password: string
    const root: string
    const pending: Option<FTPFeatures>
    var sock: bool                      // _sock is set
    var cached: Option<FTPFeatures>     // the cached property
    var openControl: nat                // control sockets open in the operating system
    var openData: nat                   // data sockets open in the operating system

    const server: Server                // what the server does
    const service: Service              // what may be supposed of it
    const calm: bool                    // the server conforms and the control connection has no timeout or error
    const smooth: bool                  // besides, the server does all it can and no socket fails
    var clock: nat                      // tells the server's occasions apart
    var tree: Tree                      // the server's
    var hungUp: bool                    // the server has closed the current connection
    var cwd: Path                       // the working directory of the current connection

    ghost var log: seq<Exchange>        // what was sent, and what the server has sent for it
    ghost var tidy: bool                // so far every greeting was one reply at most, nothing was broken off,
                                        // and every command text was one line
    ghost var wire: Wire                // the account of the current connection
    ghost var steps: seq<Step>          // what was done with data connections, and the final replies awaited
    ghost var dials: nat                // how many data connections have been opened

    /** Nothing stands in the way of reading on this connection. */
    ghost predicate Clean()
      reads this
    {
      calm && wire.Clean()
    }

    ghost predicate Connected()
      reads this, channel
    {
      Steady(channel.incoming) && wire.Right(channel.Stream()) && (wire.cut != [] ==> hungUp) &&
      Conforming(Connect, wire.greeting) && forall r :: r in wire.greeting ==> WellFormed(r)
    }

    predicate Credentials() {
      OneLine(user) && OneLine(password) && OneLine(root)
    }

    /** The books are in order, and the server's tree is closed. */
    ghost predicate Orderly()
      reads this, channel
    {
      Accounted() && Supposed() && (service.faithful ==> Closed(tree)) &&
      service.place == Resolve(root) && (sock ==> (wire.home <==> cwd == service.place)) &&
      (smooth ==> calm && service.willing && service.faithful && Credentials())
    }

    /** The greeting of the current connection has been read, and is 220. */
    ghost predicate Welcome()
      reads this
    {
      wire.welcome.Some? && wire.welcome.value.0 == FTP_READY
    }

    /** Besides, a connection that is set has been greeted, and a tidy run is clean. */
    ghost predicate Valid()
      reads this, channel
    {
      Orderly() && (sock ==> Welcome() && (calm && tidy ==> wire.Clean()))
    }

    ghost predicate Supposed() {
      forall on {:trigger SupposedOpen(on)} :: SupposedOpen(on) ==> ServerRight(server, service, calm, smooth)
    }

    lemma Looks()
      requires Supposed() && service.faithful
      ensures LooksRight(service.looks)
    {
      assert SupposedOpen(true);
    }

    ghost predicate Accounted()
      reads this, channel
    {
      forall on {:trigger BooksOpen(on)} :: BooksOpen(on) ==> Books()
    }

    /** The account of the connection and of the sockets. */
    ghost predicate Books()
      reads this, channel
    {
      channel.Valid() && openControl == (if sock then 1 else 0) && (smooth ==> calm) &&
      (calm && sock ==> Connected()) && (calm && tidy ==> if sock then Untouched() else channel.buffer == []) &&
      (smooth && tidy && sock ==> !hungUp)
    }

    /** Of the connection of a tidy run: nothing was in the buffer before it, and nothing has gone wrong on it. */
    ghost predicate Untouched()
      reads this
    {
      wire.stale == [] && !wire.torn && |wire.greeting| <= 1 && wire.cut == []
    }

    /** No reply is due. */
    ghost predicate Quiet()
      reads this, channel
    {
      Valid() && (sock && Clean() ==> wire.due == [])
    }

    /** Besides, a connection that is set works in the configured root. */
    ghost predicate Settled()
      reads this, channel
    {
      Quiet() && (sock && Clean() ==> wire.home)
    }

    /** If there is a connection, its working directory is the configured root. */
    ghost predicate AtHome()
      reads this
    {
      sock ==> wire.home
    }

    /** Between operations: one control socket exactly when `_sock` is set, no data socket, and no reply due. */
    ghost predicate AtRest()
      reads this, channel
    {
      Settled() && openData == 0
    }

    /** In a calm run, between operations, commands and replies are in step if and only if what the buffer held when the
        connection was opened is, together with the greeting, one reply and nothing else; an empty buffer is enough. */
    lemma InStepExactlyWhen()
      requires AtRest() && calm && sock && !wire.torn
      ensures wire.InStep(channel.Stream()) <==> OneReply(wire.stale + EncodeAll(wire.greeting))
      ensures wire.stale == [] ==> wire.InStep(channel.Stream())
    {
      assert BooksOpen(true) && OpeningOpen(true);
      wire.InStepExactlyWhen(channel.Stream());
      if wire.stale == [] { EmptyIsClean(); }
    }

    /** A connection that was opened with an empty buffer is in step, as long as its command texts are one line each. */
    lemma EmptyIsClean()
      requires Valid() && calm && sock && !wire.torn && wire.stale == []
      ensures Clean()
    {
      assert BooksOpen(true);
      wire.EmptyIsClean(channel.Stream());
    }

    /** With nothing due, nothing stands in the stream of a tidy run. */
    lemma Silence()
      requires Valid() && calm && tidy && sock && wire.due == []
      ensures channel.Stream() == [] && channel.buffer == [] && channel.incoming == []
      ensures wire.InStep([])
    {
      assert BooksOpen(true) && RightOpen(true);
      wire.InLineSettled(channel.Stream());
      assert Bytes(channel.incoming) == [];
      SteadyNothing(channel.incoming);
    }

    constructor (user: string, password: string, root: string, pending: Option<FTPFeatures>,
                 server: Server, service: Service, calm: bool, smooth: bool)
      requires ServerRight(server, service, calm, smooth) && service.place == Resolve(root)
      requires smooth ==> OneLine(user) && OneLine(password) && OneLine(root)
      ensures AtRest() && fresh(channel) && !sock && tidy && tree == map[[] := Dir] && channel.buffer == []
      ensures this.user == user && this.password == password && this.root == root && this.pending == pending
      ensures this.server == server && this.service == service && this.calm == calm && this.smooth == smooth
    {
      channel := new ControlChannel();
      this.user, this.password, this.root, this.pending := user, password, root, pending;
      this.server, this.service, this.calm, this.smooth := server, service, calm, smooth;
      sock, cached, openControl, openData := false, None, 0, 0;
      clock, tree, hungUp, cwd, log, tidy, steps, dials := 0, map[[] := Dir], false, [], [], true, [], 0;
      wire := Wire([], false, [], None, [], [], [], [], [], false);
    }

    // ---- the server and the network

    /** The last command and the code of the first reply that the server sent for it. */
    ghost predicate Asked(command: Command, code: int)
      reads this
    {
      log != [] && log[|log| - 1].command == command && Answers(log[|log| - 1].replies, code)
    }

    /** What the server does on one occasion: nothing, if it has closed the connection. */
    method Occasion(command: Command, upload: bytes) returns (turn: Turn)
      requires Orderly() && sock
      modifies this`clock, this`tree
      ensures Orderly()
      ensures service.faithful ==> Serves(service, old(tree), wire.home, command, upload, turn.replies, turn.events, tree)
      ensures if hungUp then turn.replies == [] && turn.broken == [] && turn.closes else calm ==> Proper(command, turn)
      ensures smooth && !hungUp && OneLine(command.Argument()) ==>
        !turn.closes && Smoothly(command, turn.replies, turn.events)
    {
      assert BooksOpen(true) && SupposedOpen(true);
      if hungUp {
        if service.faithful { SilentServes(service, tree, wire.home, command, upload); }
        turn := Turn([], [], true, [], tree);
      } else {
        ServerAt(server, service, calm, smooth, clock, tree, cwd, command, upload);
        turn := server(clock, tree, cwd, command, upload);
      }
      clock, tree := clock + 1, turn.tree;
    }

    /** The server answers a command, and may change the working directory for it. */
    method Answer(command: Command, upload: bytes) returns (ghost answer: seq<Reply>, events: seq<Recv>)
      requires Quiet() && sock && !command.Connect?
      modifies this`clock, this`tree, this`hungUp, this`cwd, this`log, this`tidy, this`wire, channel`incoming
      ensures Valid() && Changed(old(wire), command, answer) && wire.due == answer
      ensures TidyAfter(old(tidy), OneLine(command.Argument()))
      ensures log == old(log) + [Exchange(command, answer)]
      ensures service.faithful ==> Serves(service, old(tree), old(wire).home, command, upload, answer, events, tree)
      ensures Clean() ==> Conforming(command, answer)
      ensures smooth && tidy ==> Smoothly(command, answer, events)
    {
      var replies;
      replies, events := Respond(command, upload);
      answer := replies;
      if command.Cwd? && Answers(replies, FTP_ACTION_OK) { Move(Resolve(command.root)); }
    }

    /** The server answers; its bytes arrive in any pieces, together with what is still under way. Outside calm runs anything
        may arrive. */
    method Respond(command: Command, upload: bytes) returns (answer: seq<Reply>, events: seq<Recv>)
      requires Quiet() && sock && !command.Connect?
      modifies this`clock, this`tree, this`hungUp, this`log, this`tidy, this`wire, channel`incoming
      ensures Valid() && Continues(old(wire), OneLine(command.Argument())) && wire.due == answer
      ensures TidyAfter(old(tidy), OneLine(command.Argument()))
      ensures log == old(log) + [Exchange(command, answer)]
      ensures service.faithful ==> Serves(service, old(tree), wire.home, command, upload, answer, events, tree)
      ensures Clean() ==> Conforming(command, answer)
      ensures smooth && tidy ==> Smoothly(command, answer, events)
    {
      assert BooksOpen(true);
      var turn := Occasion(command, upload);
      events, answer := turn.events, turn.replies;
      Deliver(command, turn);
    }

    /** The server changes the working directory. */
    method Move(to: Path)
      requires Valid() && sock
      modifies this`cwd, this`wire
      ensures Valid() && wire == old(wire).(home := to == service.place)
    {
      assert BooksOpen(true);
      cwd := to;
      if calm { wire.Moves(channel.Stream(), to == service.place); }
      wire := wire.(home := to == service.place);
      assert Books();
    }

    /** The bytes of an answer to a command are sent; those of a connection that is closed are none. */
    method Deliver(command: Command, turn: Turn)
      requires Accounted() && sock && Welcome() && (Clean() ==> wire.due == [])
      requires if hungUp then turn.replies == [] && turn.broken == [] && turn.closes else calm ==> Proper(command, turn)
      requires smooth && !hungUp && OneLine(command.Argument()) ==> !turn.closes
      modifies this`hungUp, this`log, this`tidy, this`wire, channel`incoming
      ensures Accounted() && wire == old(wire).Send(OneLine(command.Argument()), turn.replies, turn.broken)
      ensures log == old(log) + [Exchange(command, turn.replies)]
      ensures tidy <==> old(tidy) && OneLine(command.Argument()) && turn.broken == []
    {
      assert BooksOpen(true);
      var oneLine := OneLine(command.Argument());
      if calm { Delivered(turn, oneLine); }
      UnderWay(EncodeAll(turn.replies) + turn.broken);
      wire := wire.Send(oneLine, turn.replies, turn.broken);
      log, hungUp := log + [Exchange(command, turn.replies)], turn.closes;
      tidy := tidy && oneLine && turn.broken == [];
      assert Books();
    }

    lemma Delivered(turn: Turn, oneLine: bool)
      requires Connected() && Welcome() && (wire.Clean() ==> wire.due == [])
      requires if hungUp then turn.replies == [] && turn.broken == []
        else (forall r :: r in turn.replies ==> WellFormed(r)) && Unfinished(turn.broken)
      ensures var more := EncodeAll(turn.replies) + turn.broken;
        wire.Send(oneLine, turn.replies, turn.broken).Right(channel.Stream() + more)
    {
      if hungUp {
        wire.SendNothing(channel.Stream(), oneLine);
        assert channel.Stream() + (EncodeAll([]) + []) == channel.Stream();
      } else {
        wire.SendRight(channel.Stream(), oneLine, turn.replies, turn.broken);
      }
    }

    /** More bytes are under way; together with those that were, they arrive in any pieces. */
    method UnderWay(more: bytes)
      requires calm ==> Steady(channel.incoming)
      modifies channel`incoming
      ensures calm ==> Steady(channel.incoming) && channel.Stream() == old(channel.Stream()) + more
    {
      var pieces := Arrivals(Bytes(channel.incoming) + more);
      if !calm { pieces := *; }
      ConcatAssociates(channel.buffer, Bytes(channel.incoming), more);
      channel.incoming := pieces;
    }

    // ---- reading and sending

    /** _read_response after a command: the oldest reply due. No more is received than it takes, so the buffer is left with
        what the last piece brought beyond it. */
    method ReadResponse() returns (r: Verdict<ReplyText>)
      requires Valid() && sock
      modifies this`wire, channel
      ensures Valid() && Continues(old(wire), true) && (r.Done? || r == Raised(Blob))
      ensures Clean() ==> (r.Done? <==> old(wire).due != []) && wire.due == Rest(old(wire).due)
      ensures Clean() && r.Done? ==> r.value == Text(old(wire).due[0])
      ensures channel.LeftAfter(old(channel.buffer), old(channel.incoming), ParseReply(old(channel.Stream())))
    {
      assert BooksOpen(true);
      ghost var stream := channel.Stream();
      if calm { wire.TakeRight(stream); }
      var got := channel.ReadSteadily();
      wire := wire.Take(stream);
      assert Books();
      return if got.Ok? then Done(got.value) else Raised(Blob);
    }

    /** A run that was not tidy stays so; one that was stays so in a smooth run, if the text is one line. */
    ghost predicate TidyAfter(before: bool, oneLine: bool)
      reads this
    {
      (tidy ==> before) && (smooth && before && oneLine ==> tidy)
    }

    /** The account goes on on the same connection. */
    ghost predicate SameConnection(before: Wire, oneLine: bool)
      reads this
    {
      wire.stale == before.stale && wire.greeting == before.greeting && wire.welcome == before.welcome &&
      (before.torn ==> wire.torn) && (oneLine ==> wire.torn == before.torn)
    }

    /** It does so in the same working directory. */
    ghost predicate Continues(before: Wire, oneLine: bool)
      reads this
    {
      SameConnection(before, oneLine) && wire.home == before.home
    }

    /** A CWD that the server agrees to changes the working directory, and nothing else does. */
    ghost function HomeAfter(home: bool, command: Command, answer: seq<Reply>): bool {
      if command.Cwd? && Answers(answer, FTP_ACTION_OK) then Resolve(command.root) == service.place else home
    }

    /** The account after a command. */
    ghost predicate Changed(before: Wire, command: Command, answer: seq<Reply>)
      reads this
    {
      SameConnection(before, OneLine(command.Argument())) && wire.home == HomeAfter(before.home, command, answer)
    }

    /** A connection that was set is the same; a new one is not torn, if the texts are one line each. */
    ghost predicate GoesOn(was: bool, before: Wire, oneLine: bool)
      reads this
    {
      (was ==> sock && Continues(before, oneLine)) && (!was && sock && oneLine && Credentials() ==> !wire.torn)
    }

    /** What a command came to: in line, what has been read is the first reply that the server sent for this very command,
        and the others are due. */
    ghost predicate Replied(command: Command, answer: seq<Reply>, r: Verdict<ReplyText>)
      reads this
    {
      Logged(log, command, answer) && Answered(Clean(), answer, r) &&
      (Clean() ==> Conforming(command, answer) && wire.due == Rest(answer))
    }

    /** _cmd on an open connection. */
    method Exchanged(command: Command, upload: bytes)
      returns (r: Verdict<ReplyText>, ghost answer: seq<Reply>, events: seq<Recv>)
      requires Quiet() && sock && !command.Connect?
      modifies this`clock, this`tree, this`hungUp, this`cwd, this`log, this`tidy, this`wire, channel
      ensures Valid() && Changed(old(wire), command, answer)
      ensures TidyAfter(old(tidy), OneLine(command.Argument()))
      ensures Replied(command, answer, r) && Sent(old(log), command, answer)
      ensures service.faithful ==> Serves(service, old(tree), old(wire).home, command, upload, answer, events, tree)
      ensures smooth && tidy ==> r.Done? && Smoothly(command, answer, events)
    {
      var sends: bool := *;
      if sends || smooth {
        answer, events := Answer(command, upload);
        assert SmoothOpen(true);
        r := ReadResponse();
      } else {
        Unheard(command, upload);
        r, answer, events := Raised(Blob), [], [];
      }
    }

    /** The command has been sent, and nothing else; or it could not be. */
    ghost predicate Sent(before: seq<Exchange>, command: Command, answer: seq<Reply>)
      reads this
    {
      log == before + [Exchange(command, answer)] || (log == before && answer == [] && !smooth)
    }

    /** A command that cannot be sent changes nothing. */
    lemma Unheard(command: Command, upload: bytes)
      requires Quiet() && sock
      ensures service.faithful ==> Serves(service, tree, wire.home, command, upload, [], [], tree)
      ensures Replied(command, [], Raised(Blob)) && Changed(wire, command, [])
    {
      if service.faithful { SilentServes(service, tree, wire.home, command, upload); }
    }

    ghost method Note(step: Step)
      requires Valid()
      modifies this`steps
      ensures Valid() && steps == old(steps) + [step]
    {
      assert BooksOpen(true);
      steps := steps + [step];
      assert Books();
    }

    /** _expect */
    method Expect(code: int) returns (r: Verdict<Unit>)
      requires Valid() && sock
      modifies this`wire, this`steps, channel
      ensures Valid() && Continues(old(wire), true) && (r.Done? || r == Raised(Blob))
      ensures Clean() ==> (r.Done? <==> Answers(old(wire).due, code)) && wire.due == Rest(old(wire).due)
      ensures steps == old(steps) + [Awaited(code)]
    {
      Note(Awaited(code));
      var got := ReadResponse();
      if !got.Done? { return Raised(Blob); }
      return if got.value.0 != code then Raised(Blob) else Done(Unit.Unit);
    }

    // ---- the connection

    /** A command of the login, and the code of its answer. */
    method LoginCmd(command: Command) returns (r: Verdict<int>)
      requires Quiet() && sock && (command.User? || command.Pass? || command.Cwd? || command.TypeImage?)
      modifies this`clock, this`tree, this`hungUp, this`cwd, this`log, this`tidy, this`wire, channel
      ensures Quiet() && SameConnection(old(wire), OneLine(command.Argument()))
      ensures TidyAfter(old(tidy), OneLine(command.Argument()))
      ensures r.Done? || r == Raised(Blob)
      ensures service.faithful && OneLine(command.Argument()) ==> tree == old(tree)
      ensures Clean() && r.Done? ==> Added(old(log), command, r.value)
      ensures !command.Cwd? ==> wire.home == old(wire).home
      ensures Clean() && command == Cwd(root) && r == Done(FTP_ACTION_OK) ==> wire.home
      ensures smooth && tidy ==> r.Done? && WelcomeCode(command, r.value)
    {
      var got;
      ghost var answer;
      var events;
      got, answer, events := Exchanged(command, []);
      if smooth && tidy { WelcomeAnswer(command, answer, events); }
      if service.faithful { OnlyReads(service, old(tree), old(wire).home, command, [], answer, events, tree); }
      if answer != [] { LastAdded(old(log), command, answer); }
      return if got.Done? then Done(got.value.0) else Raised(Blob);
    }

    lemma LastAdded(before: seq<Exchange>, command: Command, answer: seq<Reply>)
      requires Sent(before, command, answer) && answer != []
      ensures Added(before, command, answer[0].code)
    {
    }

    /** One more entry in the log: this command, answered with this code. */
    ghost predicate Added(before: seq<Exchange>, command: Command, code: int)
      reads this
    {
      |log| == |before| + 1 && log[..|before|] == before && Asked(command, code)
    }

    static lemma WelcomeAnswer(command: Command, answer: seq<Reply>, events: seq<Recv>)
      requires Smoothly(command, answer, events)
      ensures answer != [] && WelcomeCode(command, answer[0].code)
    {
      assert SmoothOpen(true);
    }

    static predicate WelcomeCode(command: Command, code: int) {
      match command
      case User(_) => code == FTP_USER_OK || code == FTP_LOGIN_OK
      case Pass(_) => code == FTP_LOGIN_OK
      case Cwd(_) => code == FTP_ACTION_OK
      case TypeImage => code == FTP_OK
      case _ => true
    }

    /** What is sent to sign in: USER, and PASS exactly if the answer is 331; the last of them is answered with 230. */
    predicate SignsIn(es: seq<Exchange>) {
      |es| >= 1 && es[0].command == User(user) &&
      if Answers(es[0].replies, FTP_USER_OK) then
        |es| == 2 && es[1].command == Pass(password) && Answers(es[1].replies, FTP_LOGIN_OK)
      else |es| == 1 && Answers(es[0].replies, FTP_LOGIN_OK)
    }

    /** Then, if a root is configured, CWD, answered with 250, and TYPE, answered with 200. */
    predicate SettlesIn(es: seq<Exchange>) {
      es != [] && es[|es| - 1].command == TypeImage && Answers(es[|es| - 1].replies, FTP_OK) &&
      if root == "" then |es| == 1
      else |es| == 2 && es[0].command == Cwd(root) && Answers(es[0].replies, FTP_ACTION_OK)
    }

    /** All that is sent to log in, in order, and what it is answered with. */
    predicate LogsIn(es: seq<Exchange>) {
      es != [] &&
      var n := if Answers(es[0].replies, FTP_USER_OK) then 2 else 1;
      n <= |es| && SignsIn(es[..n]) && SettlesIn(es[n..])
    }

    /** The log has got the whole login. */
    ghost predicate LoggedIn(before: seq<Exchange>)
      reads this
    {
      forall on {:trigger LoginOpen(on)} :: LoginOpen(on) ==> before <= log && LogsIn(log[|before|..])
    }

    lemma WholeLogin(before: seq<Exchange>, middle: seq<Exchange>)
      requires before <= middle <= log && SignsIn(middle[|before|..]) && SettlesIn(log[|middle|..])
      ensures LoggedIn(before)
    {
      var es, n := log[|before|..], |middle| - |before|;
      assert es[..n] == middle[|before|..] && es[n..] == log[|middle|..] && es[0] == es[..n][0];
    }

    /** USER, and PASS if the server wants it. */
    method SignIn() returns (r: Verdict<Unit>)
      requires Quiet() && sock
      modifies this`clock, this`tree, this`hungUp, this`cwd, this`log, this`tidy, this`wire, channel
      ensures Quiet() && Continues(old(wire), Credentials()) && TidyAfter(old(tidy), true)
      ensures r.Done? || r == Raised(Blob)
      ensures service.faithful && Credentials() ==> tree == old(tree)
      ensures Clean() && r.Done? ==> old(log) <= log && SignsIn(log[|old(log)|..])
      ensures smooth && tidy ==> r.Done?
    {
      var code := LoginCmd(User(user));
      if code == Done(FTP_USER_OK) { code := LoginCmd(Pass(password)); }
      return if code == Done(FTP_LOGIN_OK) then Done(Unit.Unit) else Raised(Blob);
    }

    /** A new connection: the buffer is kept. */
    method NewConnection()
      requires Settled() && !sock
      modifies this`sock, this`openControl, this`hungUp, this`cwd, this`wire, channel`incoming
      ensures Orderly() && sock && !hungUp && wire.New() && wire.stale == channel.buffer && channel.incoming == []
      ensures root == "" ==> wire.home
    {
      assert BooksOpen(true);
      openControl := openControl + 1;
      sock := true;
      hungUp := false;
      cwd := [];
      channel.incoming := [];
      wire := Wire(channel.buffer, false, [], None, [], [], [], [], [], cwd == service.place);
      wire.NewRight();
      assert Books();
    }

    /** A new connection that the server has greeted: together with what the buffer held, the greeting is all that stands in
        the stream. */
    ghost predicate Greeted(greeting: seq<Reply>)
      reads this, channel
    {
      Orderly() && sock && !wire.torn && wire.greeting == greeting && wire.welcome.None? && wire.lost == [] &&
      (smooth && tidy ==> Answers(greeting, FTP_READY)) &&
      (calm ==> EncodeAll(greeting) <= Bytes(channel.incoming))
    }

    /** The server greets on a new connection. */
    method Greet() returns (ghost greeting: seq<Reply>)
      requires Orderly() && sock && !hungUp && wire.New() && channel.incoming == []
      modifies this`clock, this`tree, this`hungUp, this`cwd, this`log, this`tidy, this`wire, channel`incoming
      ensures Greeted(greeting) && wire.stale == old(wire).stale && wire.home == old(wire).home && TidyAfter(old(tidy), true)
      ensures service.faithful ==> tree == old(tree)
      ensures log == old(log) + [Exchange(Connect, greeting)]
    {
      var turn := Occasion(Connect, []);
      greeting := turn.replies;
      assert SmoothOpen(true);
      if service.faithful { OnlyReads(service, old(tree), wire.home, Connect, [], turn.replies, turn.events, tree); }
      DeliverGreeting(turn);
    }

    /** The bytes of a greeting are sent. */
    method DeliverGreeting(turn: Turn)
      requires Accounted() && sock && wire.New() && (calm ==> Proper(Connect, turn))
      requires smooth && tidy ==> !turn.closes
      requires channel.incoming == []
      modifies this`hungUp, this`log, this`tidy, this`wire, channel`incoming
      ensures Accounted() && wire == old(wire).Greet(turn.replies, turn.broken)
      ensures calm ==> EncodeAll(turn.replies) <= Bytes(channel.incoming)
      ensures tidy <==> old(tidy) && turn.broken == [] && |turn.replies| <= 1
      ensures log == old(log) + [Exchange(Connect, turn.replies)]
    {
      assert BooksOpen(true);
      UnderWay(EncodeAll(turn.replies) + turn.broken);
      if calm { wire.Greets(channel.buffer, channel.incoming, turn.replies, turn.broken); }
      wire := wire.Greet(turn.replies, turn.broken);
      log, hungUp := log + [Exchange(Connect, turn.replies)], turn.closes;
      tidy := tidy && turn.broken == [] && |turn.replies| <= 1;
      assert Books();
    }

    /** The first _expect of _login: whatever the buffer held, the first reply is read from it and the greeting. */
    method ReadGreeting(ghost greeting: seq<Reply>) returns (r: Verdict<Unit>)
      requires Greeted(greeting)
      modifies this`wire, channel
      ensures Orderly() && Continues(old(wire).(welcome := wire.welcome), true) && (r.Done? || r == Raised(Blob))
      ensures r.Done? ==> Quiet()
      ensures calm && tidy ==> channel.Stream() == []
      ensures smooth && tidy ==> r.Done?
      ensures var p := ParseReply(old(channel.Stream())); r.Done? <==> p.Complete? && p.code == FTP_READY
      ensures channel.LeftAfter(old(channel.buffer), old(channel.incoming), ParseReply(old(channel.Stream())))
    {
      var got := FirstReply(greeting);
      return if got.Ok? && got.value.0 == FTP_READY then Done(Unit.Unit) else Raised(Blob);
    }

    /** _read_response for the greeting. */
    method FirstReply(ghost greeting: seq<Reply>) returns (r: Outcome<ReplyText>)
      requires Greeted(greeting)
      modifies this`wire, channel
      ensures Orderly() && wire == old(wire).Take(old(channel.Stream()))
      ensures calm ==> wire.due == []
      ensures calm && tidy ==> channel.Stream() == [] && (greeting != [] ==> wire.Clean())
      ensures calm && tidy ==> if greeting != [] then r.Ok? && r.value.0 == greeting[0].code else !r.Ok?
      ensures var p := ParseReply(old(channel.Stream())); if p.Complete? then r == Ok((p.code, p.lines)) else !r.Ok?
      ensures channel.LeftAfter(old(channel.buffer), old(channel.incoming), ParseReply(old(channel.Stream())))
    {
      assert BooksOpen(true);
      ghost var stream := channel.Stream();
      if calm {
        wire.TakeFirst(stream);
        if tidy { GreetingAlone(wire, stream); }
      }
      r := channel.ReadSteadily();
      wire := wire.Take(stream);
      assert Books();
    }

    /** The greeting of a tidy run is read and leaves nothing. */
    lemma GreetingAlone(before: Wire, stream: bytes)
      requires before.Right(stream) && before.welcome.None? && before.lost == []
      requires before.stale == [] && !before.torn && |before.greeting| <= 1 && before.cut == []
      requires forall r :: r in before.greeting ==> WellFormed(r)
      ensures Wire.Left(stream) == [] && (before.greeting != [] ==> before.Take(stream).Clean())
      ensures before.greeting == [] ==> ParseReply(stream).Incomplete?
      ensures before.greeting != [] ==>
        ParseReply(stream).Complete? && ParseReply(stream).code == before.greeting[0].code && before.Take(stream).due == []
    {
      assert RightOpen(true) && [] + stream == stream;
      if before.greeting == [] {
        assert stream == [];
      } else {
        var r := before.greeting[0];
        assert before.greeting[1..] == [] && Encode(r) + [] == Encode(r);
        assert [] + EncodeAll(before.greeting) == Encode(r) && Encode(r) + [] == Encode(r) == stream;
        FramingRoundTrip(r, []);
      }
    }

    /** _login, on a connection that the server has greeted. A greeting that is not 220 ends it at once. */
    method Login(ghost greeting: seq<Reply>) returns (r: Verdict<Unit>)
      requires Greeted(greeting) && (root == "" ==> wire.home)
      modifies this`clock, this`tree, this`hungUp, this`cwd, this`log, this`tidy, this`wire, channel
      ensures Orderly() && SameConnection(old(wire).(welcome := wire.welcome), Credentials())
      ensures TidyAfter(old(tidy), true) && (r.Done? || r == Raised(Blob))
      ensures r.Done? ==> Settled()
      ensures calm && tidy ==> channel.Stream() == []
      ensures service.faithful && Credentials() ==> tree == old(tree)
      ensures Clean() && r.Done? ==> LoggedIn(old(log))
      ensures smooth && tidy ==> r.Done?
      ensures var p := ParseReply(old(channel.Stream()));
        !(p.Complete? && p.code == FTP_READY) ==> !r.Done? && channel.LeftAfter(old(channel.buffer), old(channel.incoming), p)
    {
      r := ReadGreeting(greeting);
      if r.Done? { r := Enter(); }
    }

    /** The part of _login behind the greeting. */
    method Enter() returns (r: Verdict<Unit>)
      requires Quiet() && sock && (root == "" ==> wire.home)
      modifies this`clock, this`tree, this`hungUp, this`cwd, this`log, this`tidy, this`wire, channel
      ensures Quiet() && SameConnection(old(wire), Credentials()) && TidyAfter(old(tidy), true)
      ensures r.Done? || r == Raised(Blob)
      ensures r.Done? ==> Settled()
      ensures calm && tidy ==> channel.Stream() == []
      ensures service.faithful && Credentials() ==> tree == old(tree)
      ensures Clean() && r.Done? ==> LoggedIn(old(log))
      ensures smooth && tidy ==> r.Done?
    {
      r := SignIn();
      ghost var middle := log;
      if r.Done? { r := SettleIn(); }
      if Clean() && r.Done? { WholeLogin(old(log), middle); }
      if calm && tidy { Silence(); }
    }

    /** CWD, if a root is configured, and TYPE. */
    method SettleIn() returns (r: Verdict<Unit>)
      requires Quiet() && sock && (root == "" ==> wire.home)
      modifies this`clock, this`tree, this`hungUp, this`cwd, this`log, this`tidy, this`wire, channel
      ensures Quiet() && SameConnection(old(wire), Credentials()) && TidyAfter(old(tidy), true)
      ensures r.Done? || r == Raised(Blob)
      ensures r.Done? ==> Settled()
      ensures service.faithful && Credentials() ==> tree == old(tree)
      ensures Clean() && r.Done? ==> old(log) <= log && SettlesIn(log[|old(log)|..])
      ensures smooth && tidy ==> r.Done?
    {
      if root != "" {
        var entered := LoginCmd(Cwd(root));
        if entered != Done(FTP_ACTION_OK) { return Raised(Blob); }
      }
      var binary := LoginCmd(TypeImage);
      return if binary == Done(FTP_OK) then Done(Unit.Unit) else Raised(Blob);
    }

    method CloseSocket()
      requires Orderly() && sock && (calm && tidy ==> channel.Stream() == [])
      modifies this`sock, this`openControl
      ensures Settled() && !sock && openControl == 0
    {
      assert Books() by { assert BooksOpen(true); }
      openControl := openControl - 1;
      sock := false;
      assert Books();
    }

    /** The credentials are one line each, and the server keeps a tree. */
    ghost predicate Kept() {
      service.faithful && Credentials()
    }

    /** connection: opens a control connection and logs in if there is none; a failed login leaves none. The buffer of the
        connection before is where the new one starts. */
    method EnsureConnection() returns (r: Verdict<Unit>, ghost greeting: seq<Reply>, ghost pieces: Option<seq<Recv>>)
      requires Settled()
      modifies this`sock, this`openControl,
               this`clock, this`tree, this`hungUp, this`cwd, this`log, this`tidy, this`wire, channel
      ensures Settled() && TidyAfter(old(tidy), true) && GoesOn(old(sock), old(wire), true)
      ensures (r.Done? <==> sock) && (r.Done? || r == Raised(Blob))
      ensures old(sock) ==> wire == old(wire) && log == old(log)
      ensures !old(sock) && sock ==>
        wire.stale == old(channel.buffer) && wire.greeting == greeting &&
        (Clean() ==> LoggedIn(old(log) + [Exchange(Connect, greeting)]))
      ensures Kept() ==> tree == old(tree)
      ensures smooth && tidy ==> r.Done?
      ensures pieces.Some? ==> !old(sock) && (calm ==> GreetingLeaves(r, old(channel.buffer), greeting, pieces.value))
      ensures pieces.None? ==> channel.buffer == old(channel.buffer)
    {
      greeting, pieces := [], None;
      if sock { return Done(Unit.Unit), greeting, pieces; }
      r, greeting, pieces := SetUp();
    }

    /** A new connection, and the login on it. */
    method SetUp() returns (r: Verdict<Unit>, ghost greeting: seq<Reply>, ghost pieces: Option<seq<Recv>>)
      requires Settled() && !sock
      modifies this`sock, this`openControl,
               this`clock, this`tree, this`hungUp, this`cwd, this`log, this`tidy, this`wire, channel
      ensures Settled() && TidyAfter(old(tidy), true) && (sock && Credentials() ==> !wire.torn)
      ensures (r.Done? <==> sock) && (r.Done? || r == Raised(Blob))
      ensures sock ==>
        wire.stale == old(channel.buffer) && wire.greeting == greeting &&
        (Clean() ==> LoggedIn(old(log) + [Exchange(Connect, greeting)]))
      ensures Kept() ==> tree == old(tree)
      ensures smooth && tidy ==> r.Done?
      ensures pieces.Some? && calm ==> GreetingLeaves(r, old(channel.buffer), greeting, pieces.value)
      ensures pieces.None? ==> channel.buffer == old(channel.buffer)
    {
      greeting, pieces := [], None;
      var connected: bool := *;
      if !connected && !smooth { return Raised(Blob), greeting, pieces; }
      NewConnection();
      greeting := Greet();
      pieces := Some(channel.incoming);
      if calm && channel.buffer == [] && greeting != [] { GreetingRead(greeting); }
      r := Login(greeting);
      if !r.Done? { CloseSocket(); }
    }

    lemma GreetingRead(greeting: seq<Reply>)
      requires Greeted(greeting) && calm && wire.stale == [] && greeting != []
      ensures var p := ParseReply(channel.Stream());
        p.Complete? && p.code == greeting[0].code && |channel.Stream()| - |p.rest| == |Encode(greeting[0])|
    {
      assert BooksOpen(true) && RightOpen(true);
      assert [] + channel.Stream() == channel.Stream();
      wire.FirstOfGreeting();
    }

    /** What a greeting that arrives in some pieces leaves, if the buffer held `b`: when the bytes do not start with a whole
        reply 220, it is refused, and no more has been received than the first reply takes; that is the first reply of
        the greeting, if the buffer was empty. */
    ghost predicate GreetingLeaves(r: Verdict<Unit>, b: bytes, greeting: seq<Reply>, pieces: seq<Recv>)
      reads channel
    {
      var p := ParseReply(b + Bytes(pieces));
      EncodeAll(greeting) <= Bytes(pieces) &&
      (!(p.Complete? && p.code == FTP_READY) ==> !r.Done? && channel.LeftAfter(b, pieces, p)) &&
      (b == [] && greeting != [] ==>
        p.Complete? && p.code == greeting[0].code && |b| + |Bytes(pieces)| - |p.rest| == |Encode(greeting[0])|)
    }

    /** _cmd: the login first, if there is no connection. */
    method Cmd(command: Command, upload: bytes) returns (r: Verdict<ReplyText>, ghost answer: seq<Reply>, events: seq<Recv>)
      requires Settled() && !command.Connect? && !command.Cwd?
      modifies this`sock, this`openControl,
               this`clock, this`tree, this`hungUp, this`cwd, this`log, this`tidy, this`wire, channel
      ensures Valid() && TidyAfter(old(tidy), OneLine(command.Argument()))
      ensures GoesOn(old(sock), old(wire), OneLine(command.Argument()))
      ensures if sock then Replied(command, answer, r) else Settled() && r == Raised(Blob) && answer == []
      ensures old(sock) ==> Sent(old(log), command, answer)
      ensures Clean() && sock ==> wire.home
      ensures Kept() ==> Serves(service, old(tree), wire.home, command, upload, answer, events, tree)
      ensures Kept() && !sock ==> tree == old(tree)
      ensures smooth && tidy ==> r.Done? && Smoothly(command, answer, events)
    {
      var connected;
      ghost var greeting, pieces;
      connected, greeting, pieces := EnsureConnection();
      if connected.Done? {
        r, answer, events := Exchanged(command, upload);
      } else {
        if service.faithful { SilentServes(service, tree, wire.home, command, upload); }
        r, answer, events := Raised(Blob), [], [];
      }
    }

    /** What a command that is not a transfer came to: in line, what has been read is the server's answer to it. */
    static predicate Answered(clean: bool, answer: seq<Reply>, r: Verdict<ReplyText>) {
      (r.Done? || r == Raised(Blob)) &&
      (clean ==> (r.Done? <==> answer != []) && (r.Done? ==> r.value == Text(answer[0])))
    }

    /** The last entry of the log, if the server has sent anything for the command. */
    static ghost predicate Logged(log: seq<Exchange>, command: Command, answer: seq<Reply>) {
      answer != [] ==> log != [] && log[|log| - 1] == Exchange(command, answer)
    }

    /** _cmd for a command that is not a transfer: afterwards no reply is due. */
    method Query(command: Command) returns (r: Verdict<ReplyText>, ghost answer: seq<Reply>)
      requires Settled() && !command.Connect? && !command.Cwd? && !command.Transfer()
      modifies this`sock, this`openControl,
               this`clock, this`tree, this`hungUp, this`cwd, this`log, this`tidy, this`wire, channel
      ensures Settled() && TidyAfter(old(tidy), OneLine(command.Argument()))
      ensures GoesOn(old(sock), old(wire), OneLine(command.Argument()))
      ensures Logged(log, command, answer) && Answered(Clean(), answer, r)
      ensures !sock ==> r == Raised(Blob) && answer == []
      ensures old(sock) ==> Sent(old(log), command, answer)
      ensures Kept() ==> Serves(service, old(tree), wire.home, command, [], answer, [], tree)
      ensures Kept() && !sock ==> tree == old(tree)
      ensures Kept() && OneLine(command.Argument()) && !Changes(command) ==> tree == old(tree)
      ensures smooth && tidy ==> r.Done? && Smoothly(command, answer, [])
    {
      var events;
      r, answer, events := Cmd(command, []);
      if Kept() {
        WithoutData(service, old(tree), wire.home, command, answer, events, tree);
        OnlyReads(service, old(tree), wire.home, command, [], answer, events, tree);
      }
    }

    /** close: afterwards no socket is open, whatever QUIT came to. */
    method Close()
      requires AtRest()
      modifies this`sock, this`openControl,
               this`clock, this`tree, this`hungUp, this`cwd, this`log, this`tidy, this`wire, channel
      ensures AtRest() && !sock && openControl == 0 && TidyAfter(old(tidy), true) && (Kept() ==> tree == old(tree))
      ensures if old(sock) then exists answer :: Sent(old(log), Quit, answer) else log == old(log)
    {
      if sock {
        var r;
        ghost var answer;
        r, answer := Query(Quit);
        if calm && tidy { Silence(); }
        CloseSocket();
        assert Sent(old(log), Quit, answer);
      } else {
        assert BooksOpen(true);
      }
    }

    // ---- transfers

    method OpenDataSocket(address: Address)
      requires Valid()
      modifies this`openData, this`dials, this`steps
      ensures Valid() && openData == old(openData) + 1 && dials == old(dials) + 1 && steps == old(steps) + [Opened(address)]
    {
      assert BooksOpen(true);
      openData, dials := openData + 1, dials + 1;
      steps := steps + [Opened(address)];
      assert Books();
    }

    method CloseDataSocket()
      requires Valid() && openData > 0
      modifies this`openData, this`steps
      ensures Valid() && openData == old(openData) - 1 && steps == old(steps) + [Shut]
    {
      assert BooksOpen(true);
      openData := openData - 1;
      steps := steps + [Shut];
      assert Books();
    }

    /** The address in the last line of the last reply, which has come for PASV. */
    ghost predicate Passive(address: Address)
      reads this
    {
      Asked(Pasv, FTP_PASV) &&
      var lines := log[|log| - 1].replies[0].lines;
      lines != [] && ParsePasv(lines[|lines| - 1]) == Some(address)
    }

    /** _get_passive_socket: opens a data socket, to the address that the server has named, or raises. */
    method GetPassiveSocket() returns (r: Verdict<Address>)
      requires Settled()
      modifies this`sock, this`openControl, this`openData, this`dials, this`steps,
               this`clock, this`tree, this`hungUp, this`cwd, this`log, this`tidy, this`wire, channel
      ensures Settled() && TidyAfter(old(tidy), true) && GoesOn(old(sock), old(wire), true)
      ensures r.Done? || r == Raised(Blob)
      ensures openData == old(openData) + if r.Done? then 1 else 0
      ensures dials == old(dials) + if r.Done? then 1 else 0
      ensures steps == old(steps) + if r.Done? then [Opened(r.value)] else []
      ensures r.Done? ==> sock && (Clean() ==> Passive(r.value))
      ensures Kept() ==> tree == old(tree)
      ensures smooth && tidy ==> r.Done?
    {
      r := AskAddress();
      if !r.Done? { return; }
      var connected: bool := *;
      if !connected && !smooth { return Raised(Blob); }
      OpenDataSocket(r.value);
    }

    /** PASV, and the address in its reply. */
    method AskAddress() returns (r: Verdict<Address>)
      requires Settled()
      modifies this`sock, this`openControl,
               this`clock, this`tree, this`hungUp, this`cwd, this`log, this`tidy, this`wire, channel
      ensures Settled() && TidyAfter(old(tidy), true) && GoesOn(old(sock), old(wire), true)
      ensures r.Done? || r == Raised(Blob)
      ensures r.Done? ==> sock && (Clean() ==> Passive(r.value))
      ensures Kept() ==> tree == old(tree)
      ensures smooth && tidy ==> r.Done?
    {
      var got;
      ghost var answer;
      got, answer := Query(Pasv);
      assert SmoothOpen(true);
      if !got.Done? || got.value.0 != FTP_PASV || got.value.1 == [] { return Raised(Blob); }
      var lines := got.value.1;
      var address := ParsePasv(lines[|lines| - 1]);
      return if address.None? then Raised(Blob) else Done(address.value);
    }

    /** What a transfer to the client came to: its data, exactly when the server has opened it, closed the data connection
        properly and confirmed it; KeyError exactly when the reply to this command was 550. */
    static ghost predicate Transferred(clean: bool, answer: seq<Reply>, events: seq<Recv>, r: Verdict<bytes>) {
      (r.Done? ==> r.value == Bytes(events)) && r != Raised(Index) &&
      (clean ==>
        (r.Done? <==> Confirmed(answer) && EndsCleanly(events)) && (r == Raised(NoKey) <==> Answers(answer, FTP_NOT_FOUND)))
    }

    /** One data connection has been opened, and then this has happened. */
    ghost predicate Over(before: seq<Step>, more: seq<Step>)
      reads this
    {
      |before| < |steps| && steps[|before|].Opened? && steps == before + [steps[|before|]] + more
    }

    static lemma DownloadSteps(before: seq<Step>, address: Address)
      ensures before + [Opened(address)] + [] + [Shut] == before + [Opened(address)] + [Shut]
      ensures before + [Opened(address)] + [Awaited(FTP_TRANSFER_DONE)] + [Shut]
           == before + [Opened(address)] + [Awaited(FTP_TRANSFER_DONE), Shut]
    {
    }

    /** _pasv_cmd: the data socket is closed on every path, after the final reply. */
    method PasvCmd(command: Command) returns (r: Verdict<bytes>, ghost answer: seq<Reply>, ghost events: seq<Recv>)
      requires AtRest() && command.Transfer()
      modifies this`sock, this`openControl, this`openData, this`dials, this`steps,
               this`clock, this`tree, this`hungUp, this`cwd, this`log, this`tidy, this`wire, channel
      ensures AtRest() && TidyAfter(old(tidy), OneLine(command.Argument()))
      ensures GoesOn(old(sock), old(wire), OneLine(command.Argument()))
      ensures Logged(log, command, answer) && dials <= old(dials) + 1
      ensures if sock then Transferred(Clean(), answer, events, r) else r == Raised(Blob) && answer == []
      ensures Kept() ==> Serves(service, old(tree), wire.home, command, [], answer, events, tree)
      ensures Kept() && !sock ==> tree == old(tree)
      ensures Clean() && answer != [] ==>
        Over(old(steps), if Opens(answer[0].code) then [Awaited(FTP_TRANSFER_DONE), Shut] else [Shut])
      ensures smooth && tidy ==> answer != [] && (Opens(answer[0].code) ==> r.Done?)
    {
      ghost var before := steps;
      var passive := GetPassiveSocket();
      if passive.Done? {
        DownloadSteps(before, passive.value);
        r, answer, events := ReceiveFile(command);
        CloseDataSocket();
      } else {
        if service.faithful { SilentServes(service, tree, wire.home, command, []); }
        r, answer, events := Raised(Blob), [], [];
      }
    }

    /** The part of _pasv_cmd between opening and closing the data socket. */
    method ReceiveFile(command: Command) returns (r: Verdict<bytes>, ghost answer: seq<Reply>, ghost events: seq<Recv>)
      requires Settled() && sock && command.Transfer()
      modifies this`steps, this`clock, this`tree, this`hungUp, this`cwd, this`log, this`tidy, this`wire, channel
      ensures Settled() && TidyAfter(old(tidy), OneLine(command.Argument()))
      ensures Continues(old(wire), OneLine(command.Argument()))
      ensures Logged(log, command, answer) && Transferred(Clean(), answer, events, r)
      ensures service.faithful ==> Serves(service, old(tree), wire.home, command, [], answer, events, tree)
      ensures Clean() ==>
        steps == old(steps) + if answer != [] && Opens(answer[0].code) then [Awaited(FTP_TRANSFER_DONE)] else []
      ensures smooth && tidy ==> answer != [] && (Opens(answer[0].code) ==> r.Done?)
    {
      var got, arriving;
      got, answer, arriving := Exchanged(command, []);
      events := arriving;
      if smooth && tidy { SmoothTransfer(command, answer, events); }
      if !got.Done? { return Raised(Blob), answer, events; }
      if got.value.0 == FTP_NOT_FOUND { return Raised(NoKey), answer, events; }
      if !Opens(got.value.0) { return Raised(Blob), answer, events; }
      r := ReceiveRest(arriving);
    }

    /** The data, and the final reply; that is awaited after a failure too. */
    method ReceiveRest(events: seq<Recv>) returns (r: Verdict<bytes>)
      requires Valid() && sock
      modifies this`wire, this`steps, channel
      ensures Valid() && Continues(old(wire), true) && (if r.Done? then r.value == Bytes(events) else r == Raised(Blob))
      ensures steps == old(steps) + [Awaited(FTP_TRANSFER_DONE)]
      ensures Clean() ==> wire.due == Rest(old(wire).due)
      ensures Clean() ==> (r.Done? <==> EndsCleanly(events) && Answers(old(wire).due, FTP_TRANSFER_DONE))
    {
      var data, failed := ReceiveData(events);
      var done := Expect(FTP_TRANSFER_DONE);
      return if failed || !done.Done? then Raised(Blob) else Done(data);
    }

    /** The receive loop on a data socket, up to its close or a failure. */
    method ReceiveData(events: seq<Recv>) returns (data: bytes, failed: bool)
      ensures data == Bytes(events) && (failed <==> !EndsCleanly(events))
    {
      var arriving := events;
      data := [];
      while arriving != [] && arriving[0].Data? && arriving[0].data != []
        invariant data + Bytes(arriving) == Bytes(events)
        invariant EndsCleanly(arriving) <==> EndsCleanly(events)
        decreases |arriving|
      {
        data := data + arriving[0].data;
        arriving := arriving[1..];
      }
      assert data + [] == data;
      failed := arriving != [] && !arriving[0].Data?;
    }

    /** A key that the server can use, and a server that keeps a tree. */
    ghost predicate Sound(key: string) {
      Kept() && Usable(service, key)
    }

    /** get: over any cut of the bytes and whatever aborted, data only if it is the stored value, and KeyError from an
        honest server only if there is none. */
    method Get(key: string) returns (r: Verdict<bytes>, ghost answer: seq<Reply>, ghost events: seq<Recv>)
      requires AtRest()
      modifies this`sock, this`openControl, this`openData, this`dials, this`steps,
               this`clock, this`tree, this`hungUp, this`cwd, this`log, this`tidy, this`wire, channel
      ensures AtRest() && TidyAfter(old(tidy), OneLine(key)) && GoesOn(old(sock), old(wire), OneLine(key))
      ensures Logged(log, Retr(key), answer)
      ensures if sock then Transferred(Clean(), answer, events, r) else r == Raised(Blob) && answer == []
      ensures Kept() && OneLine(key) ==> tree == old(tree)
      ensures Sound(key) && Clean() && r.Done? ==> NameOf(key) in Files(tree) && r.value == Files(tree)[NameOf(key)]
      ensures Sound(key) && Clean() && r == Raised(NoKey) && service.honest ==> NameOf(key) !in Files(tree)
      ensures smooth && tidy && Sound(key) ==> r.Done? || r == Raised(NoKey)
    {
      r, answer, events := PasvCmd(Retr(key));
      if Kept() { OnlyReads(service, old(tree), wire.home, Retr(key), [], answer, events, tree); }
      if Sound(key) && wire.home { RetrievedData(service, old(tree), key, answer, events, tree); }
    }

    /** The replies that MKD goes on after. */
    static predicate DirThere(answer: seq<Reply>) {
      Answers(answer, FTP_CREATED) || Answers(answer, FTP_NOT_FOUND)
    }

    /** The log ends with the MKD commands for the first of some directories. */
    static ghost predicate Asks(log: seq<Exchange>, dirs: seq<string>, made: seq<Exchange>) {
      forall on {:trigger DirsOpen(on)} :: DirsOpen(on) ==>
        |made| <= |dirs| && |made| <= |log| && log[|log| - |made|..] == made &&
        forall i :: 0 <= i < |made| ==> made[i].command == Mkd(dirs[i])
    }

    /** All of the directories have been asked for, and each is there now. */
    static ghost predicate DirsThere(dirs: seq<string>, made: seq<Exchange>) {
      |made| == |dirs| && AllThere(made)
    }

    static ghost predicate AllThere(made: seq<Exchange>) {
      forall on {:trigger DirsOpen(on)} :: DirsOpen(on) ==> forall i :: 0 <= i < |made| ==> DirThere(made[i].replies)
    }

    static lemma NothingAsked(log: seq<Exchange>, dirs: seq<string>)
      ensures Asks(log, dirs, []) && AllThere([])
    {
      assert log[|log|..] == [];
    }

    static lemma EndsWithNext(log: seq<Exchange>, made: seq<Exchange>, next: Exchange)
      requires |made| <= |log| && log[|log| - |made|..] == made
      ensures var longer, more := log + [next], made + [next];
        |more| <= |longer| && longer[|longer| - |more|..] == more
    {
    }

    /** One more directory. */
    static lemma AsksNext(log: seq<Exchange>, dirs: seq<string>, made: seq<Exchange>, next: Exchange)
      requires Asks(log, dirs, made) && |made| < |dirs| && next.command == Mkd(dirs[|made|])
      ensures Asks(log + [next], dirs, made + [next])
      ensures AllThere(made + [next]) <==> AllThere(made) && DirThere(next.replies)
    {
      assert DirsOpen(true);
      EndsWithNext(log, made, next);
      var more := made + [next];
      assert more[|made|] == next && forall i :: 0 <= i < |made| ==> more[i] == made[i];
    }

    static lemma AsksFirst(log: seq<Exchange>, dirs: seq<string>)
      requires log != [] && dirs != [] && log[|log| - 1].command == Mkd(dirs[0])
      ensures Asks(log, dirs, [log[|log| - 1]])
      ensures AllThere([log[|log| - 1]]) <==> DirThere(log[|log| - 1].replies)
    {
      assert DirsOpen(true);
    }

    /** The tree has grown toward a key from `t`, if the working directory is the configured root; wherever it is, what is new
        has a name on the way to the key. */
    ghost predicate GrownFor(key: string, t: Tree)
      reads this
    {
      forall on {:trigger DirsOpen(on)} :: DirsOpen(on) ==>
        (Sound(key) ==> OnlyNamed(t, tree, Resolve(key)) && (AtHome() ==> GrewToward(t, tree, Resolve(key))))
    }

    lemma NotGrown(key: string)
      ensures GrownFor(key, tree)
    {
    }

    /** What one more MKD has made of a tree `m` that had grown toward a key from `t`. */
    lemma MkdGrows(key: string, i: nat, t: Tree, m: Tree, answer: seq<Reply>)
      requires Sound(key) && i < |ParentDirs(key)| && Closed(m) && (!sock ==> tree == m)
      requires Serves(service, m, wire.home, Mkd(ParentDirs(key)[i]), [], answer, [], tree)
      requires OnlyNamed(t, m, Resolve(key)) && (AtHome() ==> GrewToward(t, m, Resolve(key)))
      ensures OnlyNamed(t, tree, Resolve(key)) && (AtHome() ==> GrewToward(t, tree, Resolve(key)))
    {
      MkdNamed(service, t, m, wire.home, key, i, answer, [], tree);
      if sock && wire.home { MkdServed(service, t, m, key, i, answer, [], tree); }
    }

    /** A willing server makes the directory, or has it. */
    lemma MkdMakes(key: string, i: nat, t: Tree, m: Tree, answer: seq<Reply>)
      requires Sound(key) && i < |ParentDirs(key)| && service.willing && answer != []
      requires Serves(service, m, true, Mkd(ParentDirs(key)[i]), [], answer, [], tree)
      ensures DirThere(answer) && (m == Made(t, Placed(key, i)) ==> tree == Made(t, Placed(key, i + 1)))
    {
      MkdServed(service, t, m, key, i, answer, [], tree);
    }

    /** The place that the first `i` parts of a key name. */
    static function Placed(key: string, i: nat): Path
      requires i <= |Split(StripSlashes(key), '/')|
    {
      NonEmpty(Split(StripSlashes(key), '/')[..i])
    }

    /** MKD for the directory that stands at place `i` of a key; 257 and 550 both go on. */
    method MakeDir(dir: string, ghost key: string, ghost i: nat, ghost t: Tree) returns (ok: bool, ghost answer: seq<Reply>)
      requires AtRest() && i < |ParentDirs(key)| && dir == ParentDirs(key)[i] && GrownFor(key, t)
      modifies this`sock, this`openControl,
               this`clock, this`tree, this`hungUp, this`cwd, this`log, this`tidy, this`wire, channel
      ensures AtRest() && TidyAfter(old(tidy), OneLine(key)) && GoesOn(old(sock), old(wire), OneLine(key)) && (ok ==> sock)
      ensures Logged(log, Mkd(dir), answer) && (old(sock) ==> Sent(old(log), Mkd(dir), answer))
      ensures (sock ==> Clean()) ==> (ok <==> DirThere(answer))
      ensures GrownFor(key, t)
      ensures smooth && tidy && Sound(key) && old(tree) == Made(t, Placed(key, i)) ==> ok && tree == Made(t, Placed(key, i + 1))
    {
      var got;
      ghost var m := tree;
      got, answer := Query(Mkd(dir));
      if OneLine(key) { ParentDirOneLine(key, i + 1); }
      assert DirsOpen(true);
      if Sound(key) { MkdGrows(key, i, t, m, answer); }
      if smooth && tidy && Sound(key) { MkdMakes(key, i, t, m, answer); }
      ok := got.Done? && (got.value.0 == FTP_CREATED || got.value.0 == FTP_NOT_FOUND);
    }

    /** The first `i` directories of a key are there, and these are the commands that have asked for them. */
    ghost predicate DirsSoFar(key: string, t: Tree, i: nat, made: seq<Exchange>)
      reads this
    {
      forall on {:trigger DirsOpen(on)} :: DirsOpen(on) ==>
        i <= |ParentDirs(key)| && GrownFor(key, t) &&
        ((sock ==> Clean()) ==> Asks(log, ParentDirs(key), made) && |made| == i && AllThere(made)) &&
        (smooth && tidy && Sound(key) ==> tree == Made(t, Placed(key, i)))
    }

    /** The same, with the list of such commands. */
    method MkdNext(dir: string, ghost key: string, ghost i: nat, ghost t: Tree, ghost made: seq<Exchange>)
      returns (ok: bool, ghost now: seq<Exchange>)
      requires AtRest() && i < |ParentDirs(key)| && dir == ParentDirs(key)[i] && (i > 0 ==> sock)
      requires DirsSoFar(key, t, i, made)
      modifies this`sock, this`openControl,
               this`clock, this`tree, this`hungUp, this`cwd, this`log, this`tidy, this`wire, channel
      ensures AtRest() && TidyAfter(old(tidy), OneLine(key)) && GoesOn(old(sock), old(wire), OneLine(key)) && (ok ==> sock)
      ensures ok ==> DirsSoFar(key, t, i + 1, now)
      ensures !ok ==>
        GrownFor(key, t) && !(smooth && tidy && Sound(key)) &&
        ((sock ==> Clean()) ==> Asks(log, ParentDirs(key), now) && !DirsThere(ParentDirs(key), now))
    {
      ghost var answer;
      assert DirsOpen(true);
      ok, answer := MakeDir(dir, key, i, t);
      now := Tally(old(sock), old(log), log, made, Exchange(Mkd(dir), answer));
      if sock ==> Clean() { Tallied(old(sock), old(log), log, ParentDirs(key), made, Exchange(Mkd(dir), answer)); }
    }

    /** The MKD commands sent so far, after one more. */
    static ghost function Tally(was: bool, before: seq<Exchange>, log: seq<Exchange>, made: seq<Exchange>, next: Exchange)
      : seq<Exchange>
    {
      if if was then log != before else next.replies != [] then made + [next] else made
    }

    static lemma Tallied(was: bool, before: seq<Exchange>, log: seq<Exchange>, dirs: seq<string>, made: seq<Exchange>,
                         next: Exchange)
      requires |made| < |dirs| && Asks(before, dirs, made) && AllThere(made) && next.command == Mkd(dirs[|made|])
      requires was ==> log == before + [next] || (log == before && next.replies == [])
      requires !was ==> made == [] && (next.replies != [] ==> log != [] && log[|log| - 1] == next)
      ensures var now := Tally(was, before, log, made, next);
        Asks(log, dirs, now) && |now| <= |made| + 1 && (DirThere(next.replies) <==> |now| == |made| + 1 && AllThere(now))
    {
      NothingAsked(log, dirs);
      if was { AsksNext(before, dirs, made, next); }
      if !was && next.replies != [] { AsksFirst(log, dirs); }
    }

    /** _ensure_parent_dirs: ancestors of the key are made and nothing else, in every run; it ends at the first directory
        that is neither made nor there. */
    method EnsureParentDirs(key: string) returns (r: Verdict<Unit>, ghost made: seq<Exchange>)
      requires AtRest()
      modifies this`sock, this`openControl,
               this`clock, this`tree, this`hungUp, this`cwd, this`log, this`tidy, this`wire, channel
      ensures AtRest() && TidyAfter(old(tidy), OneLine(key)) && GoesOn(old(sock), old(wire), OneLine(key))
      ensures r.Done? || r == Raised(Blob)
      ensures (sock ==> Clean()) ==> Asks(log, ParentDirs(key), made) && (r.Done? <==> DirsThere(ParentDirs(key), made))
      ensures GrownFor(key, old(tree))
      ensures smooth && tidy && Sound(key) ==> r.Done? && tree == AddDirs(old(tree), Resolve(key))
    {
      var dirs := IterParentDirs(key);
      ghost var t := tree;
      made := [];
      NoDirs(key);
      for i := 0 to |dirs|
        invariant AtRest() && TidyAfter(old(tidy), OneLine(key)) && GoesOn(old(sock), old(wire), OneLine(key))
        invariant (i > 0 ==> sock) && DirsSoFar(key, t, i, made)
      {
        var ok;
        ok, made := MkdNext(dirs[i], key, i, t, made);
        if !ok { return Raised(Blob), made; }
      }
      AllDirs(key, t, made);
      return Done(Unit.Unit), made;
    }

    lemma NoDirs(key: string)
      ensures DirsSoFar(key, tree, 0, [])
    {
      NothingAsked(log, ParentDirs(key));
      NotGrown(key);
    }

    lemma AllDirs(key: string, t: Tree, made: seq<Exchange>)
      requires DirsSoFar(key, t, |ParentDirs(key)|, made)
      ensures GrownFor(key, t) && (smooth && tidy && Sound(key) ==> tree == AddDirs(t, Resolve(key)))
      ensures (sock ==> Clean()) ==> Asks(log, ParentDirs(key), made) && DirsThere(ParentDirs(key), made)
    {
      assert DirsOpen(true);
      AllPlaced(key, t);
    }

    static lemma AllPlaced(key: string, t: Tree)
      ensures Made(t, Placed(key, |ParentDirs(key)|)) == AddDirs(t, Resolve(key))
    {
      LastPlace(key);
      if Resolve(key) != [] { MadeParents(t, Resolve(key)); }
    }

    /** put: succeeds exactly when its own STOR was opened, the data was sent and the server confirmed it; then exactly this
        key has changed. Whatever goes wrong, no other key has, and none at all if the transfer was refused or something
        stands in the way. When nothing goes wrong, something standing in the way is the only obstacle. STOR is sent only
        after all directories of the key are there. */
    method Put(key: string, data: bytes)
      returns (r: Verdict<Unit>, ghost made: seq<Exchange>, ghost answer: seq<Reply>, ghost delivered: bool)
      requires AtRest()
      modifies this`sock, this`openControl, this`openData, this`dials, this`steps,
               this`clock, this`tree, this`hungUp, this`cwd, this`log, this`tidy, this`wire, channel
      ensures AtRest() && TidyAfter(old(tidy), OneLine(key)) && GoesOn(old(sock), old(wire), OneLine(key))
      ensures r.Done? || r == Raised(Blob)
      ensures Logged(log, Stor(key), answer) && (answer != [] && Clean() ==> DirsThere(ParentDirs(key), made))
      ensures if sock then Clean() ==> (r.Done? <==> Confirmed(answer) && delivered) else !r.Done?
      ensures Clean() && answer != [] ==> Over(old(steps), Uploading(Opens(answer[0].code), delivered))
      ensures Sound(key) ==> OnlyNamed(old(tree), tree, Resolve(key))
      ensures Sound(key) && AtHome() ==>
        PutLeaves(key, old(tree), answer) && (Clean() && r.Done? ==> PutDone(key, data, old(tree)))
      ensures smooth && tidy && Sound(key) ==> (r.Done? <==> !Blocked(old(tree), Resolve(key)))
    {
      ghost var t := tree;
      var dirs;
      dirs, made := EnsureParentDirs(key);
      assert DirsOpen(true);
      if dirs.Done? {
        r, answer, delivered := Upload(key, data, t);
      } else {
        if Sound(key) && AtHome() { GrewFiles(t, tree, Resolve(key)); }
        r, answer, delivered := Raised(Blob), [], false;
      }
    }

    /** The part of put behind the directories, which have grown from the tree `t`. */
    method Upload(key: string, data: bytes, ghost t: Tree)
      returns (r: Verdict<Unit>, ghost answer: seq<Reply>, ghost delivered: bool)
      requires AtRest() && (service.faithful ==> Closed(t))
      modifies this`sock, this`openControl, this`openData, this`dials, this`steps,
               this`clock, this`tree, this`hungUp, this`cwd, this`log, this`tidy, this`wire, channel
      ensures AtRest() && TidyAfter(old(tidy), OneLine(key)) && GoesOn(old(sock), old(wire), OneLine(key))
      ensures r.Done? || r == Raised(Blob)
      ensures Logged(log, Stor(key), answer) && (answer != [] ==> sock)
      ensures if sock then Clean() ==> (r.Done? <==> Confirmed(answer) && delivered) else !r.Done?
      ensures Clean() && answer != [] ==> Over(old(steps), Uploading(Opens(answer[0].code), delivered))
      ensures Sound(key) && OnlyNamed(t, old(tree), Resolve(key)) ==> OnlyNamed(t, tree, Resolve(key))
      ensures Sound(key) && AtHome() && GrewToward(t, old(tree), Resolve(key)) ==>
        PutLeaves(key, t, answer) && (Clean() && r.Done? ==> PutDone(key, data, t))
      ensures smooth && tidy && Sound(key) && old(tree) == AddDirs(t, Resolve(key)) ==>
        (r.Done? <==> !Blocked(t, Resolve(key)))
    {
      ghost var m := tree;
      var passive := GetPassiveSocket();
      if passive.Done? {
        ghost var upload, events;
        r, answer, delivered, upload, events := StoreFile(key, data);
        if Sound(key) { StoredWhere(key, t, m, upload, answer, events); }
      } else {
        if Sound(key) && GrewToward(t, m, Resolve(key)) { GrewFiles(t, m, Resolve(key)); }
        r, answer, delivered := Raised(Blob), [], false;
      }
    }

    lemma StoredWhere(key: string, t: Tree, m: Tree, upload: bytes, answer: seq<Reply>, events: seq<Recv>)
      requires Sound(key) && Closed(t) && Closed(m)
      requires Serves(service, m, wire.home, Stor(key), upload, answer, events, tree)
      ensures OnlyNamed(t, m, Resolve(key)) ==> OnlyNamed(t, tree, Resolve(key))
      ensures wire.home && GrewToward(t, m, Resolve(key)) ==>
        PutLeaves(key, t, answer) && (Confirmed(answer) ==> PutDone(key, upload, t))
      ensures wire.home && service.willing && answer != [] && m == AddDirs(t, Resolve(key)) ==>
        (Opens(answer[0].code) <==> !Blocked(t, Resolve(key)))
    {
      if OnlyNamed(t, m, Resolve(key)) {
        StoreNamed(service, t, m, wire.home, key, upload, answer, events, tree);
      }
      if wire.home { StoredTells(key, t, m, upload, answer, events); }
    }

    /** What happens on the data connection of a put: it is shut before the confirmation is awaited, but after a failure to
        send only then. */
    static function Uploading(open: bool, delivered: bool): seq<Step> {
      if !open then [Shut]
      else if delivered then [Shut, Awaited(FTP_TRANSFER_DONE)]
      else [Awaited(FTP_TRANSFER_DONE), Shut]
    }

    static lemma UploadSteps(before: seq<Step>)
      ensures before + [] + [Shut] == before + Uploading(false, false) == before + Uploading(false, true)
      ensures before + [] + [Shut] + [Awaited(FTP_TRANSFER_DONE)] == before + Uploading(true, true)
      ensures before + [Awaited(FTP_TRANSFER_DONE)] + [Shut] == before + Uploading(true, false)
    {
    }

    /** The part of put from STOR on. */
    method StoreFile(key: string, data: bytes)
      returns (r: Verdict<Unit>, ghost answer: seq<Reply>, ghost delivered: bool,
               ghost upload: bytes, ghost events: seq<Recv>)
      requires Settled() && sock && openData == 1
      modifies this`openData, this`steps, this`clock, this`tree, this`hungUp, this`cwd, this`log, this`tidy, this`wire, channel
      ensures AtRest() && TidyAfter(old(tidy), OneLine(key)) && Continues(old(wire), OneLine(key))
      ensures r.Done? || r == Raised(Blob)
      ensures Logged(log, Stor(key), answer)
      ensures Clean() ==> (r.Done? <==> Confirmed(answer) && delivered)
      ensures Clean() ==> steps == old(steps) + Uploading(answer != [] && Opens(answer[0].code), delivered)
      ensures delivered ==> upload == data
      ensures service.faithful ==> Serves(service, old(tree), wire.home, Stor(key), upload, answer, events, tree)
      ensures smooth && tidy ==> delivered && answer != [] && (Opens(answer[0].code) ==> Confirmed(answer))
    {
      UploadSteps(steps);
      r, answer, delivered, upload, events := SendFile(key, data);
      CloseDataSocket();
      if r.Done? { r := Expect(FTP_TRANSFER_DONE); }
    }

    lemma StoredTells(key: string, t: Tree, m: Tree, upload: bytes, answer: seq<Reply>, events: seq<Recv>)
      requires Sound(key) && Closed(t) && Closed(m) && Serves(service, m, true, Stor(key), upload, answer, events, tree)
      ensures GrewToward(t, m, Resolve(key)) ==>
        PutLeaves(key, t, answer) && (Confirmed(answer) ==> PutDone(key, upload, t))
      ensures service.willing && answer != [] && m == AddDirs(t, Resolve(key)) ==>
        (Opens(answer[0].code) <==> !Blocked(t, Resolve(key)))
    {
      if GrewToward(t, m, Resolve(key)) { StoredFile(service, t, m, key, upload, answer, events, tree); }
      if service.willing && answer != [] && m == AddDirs(t, Resolve(key)) {
        OpenedUnlessBlocked(service, t, key, upload, answer, events, tree);
      }
    }

    /** Whatever a put came to, no key but its own has changed, and none at all if something stood in the way or the
        transfer was refused; and nothing is in the tree that was not, but for places on the way to the key. */
    ghost predicate PutLeaves(key: string, t: Tree, answer: seq<Reply>)
      reads this
    {
      SameBut(Files(t), Files(tree), NameOf(key)) && OnlyToward(t, tree, Resolve(key)) &&
      (Blocked(t, Resolve(key)) || (answer != [] && !Opens(answer[0].code)) ==> Files(tree) == Files(t))
    }

    /** A put that is done has changed exactly its key. */
    ghost predicate PutDone(key: string, data: bytes, t: Tree)
      reads this
    {
      !Blocked(t, Resolve(key)) && tree == PutTree(t, Resolve(key), data) && Files(tree) == Files(t)[NameOf(key) := data]
    }

    /** The part of put between opening and closing the data socket. The final reply is still due if it did not fail. */
    method SendFile(key: string, data: bytes)
      returns (r: Verdict<Unit>, ghost answer: seq<Reply>, ghost delivered: bool,
               ghost upload: bytes, ghost events: seq<Recv>)
      requires Settled() && sock
      modifies this`steps, this`clock, this`tree, this`hungUp, this`cwd, this`log, this`tidy, this`wire, channel
      ensures Valid() && Continues(old(wire), OneLine(key)) && TidyAfter(old(tidy), OneLine(key))
      ensures r.Done? || r == Raised(Blob)
      ensures Logged(log, Stor(key), answer)
      ensures Clean() ==> (r.Done? <==> answer != [] && Opens(answer[0].code) && delivered)
      ensures Clean() ==> Conforming(Stor(key), answer) && wire.due == if r.Done? then Rest(answer) else []
      ensures Clean() ==>
        steps == old(steps) + if answer != [] && Opens(answer[0].code) && !delivered then [Awaited(FTP_TRANSFER_DONE)] else []
      ensures delivered ==> upload == data
      ensures service.faithful ==> Serves(service, old(tree), wire.home, Stor(key), upload, answer, events, tree)
      ensures smooth && tidy ==> delivered && answer != [] && (Opens(answer[0].code) ==> Confirmed(answer))
    {
      var sends: bool := *;
      var arrives := data;
      if !sends && !smooth { arrives := *; }
      delivered, upload := sends || smooth, arrives;
      var got, arriving;
      got, answer, arriving := Exchanged(Stor(key), arrives);
      events := arriving;
      if smooth && tidy { SmoothTransfer(Stor(key), answer, events); }
      r := AfterSending(got.Done? && Opens(got.value.0), sends || smooth);
    }

    /** The data has been sent, or it has not: then the final reply is taken at once. */
    method AfterSending(open: bool, sent: bool) returns (r: Verdict<Unit>)
      requires Valid() && sock
      modifies this`wire, this`steps, channel
      ensures Valid() && Continues(old(wire), true) && (r.Done? || r == Raised(Blob)) && (r.Done? <==> open && sent)
      ensures Clean() ==> wire.due == if open && !sent then Rest(old(wire).due) else old(wire).due
      ensures steps == old(steps) + if open && !sent then [Awaited(FTP_TRANSFER_DONE)] else []
    {
      assert steps + [] == steps;
      if open && !sent {
        var _ := Expect(FTP_TRANSFER_DONE);
      }
      return if open && sent then Done(Unit.Unit) else Raised(Blob);
    }

    /** delete: the verdict is the reply to its own DELE, and at most this key is gone; on success exactly this key. */
    method Delete(key: string) returns (r: Verdict<Unit>, ghost answer: seq<Reply>)
      requires AtRest()
      modifies this`sock, this`openControl,
               this`clock, this`tree, this`hungUp, this`cwd, this`log, this`tidy, this`wire, channel
      ensures AtRest() && TidyAfter(old(tidy), OneLine(key)) && GoesOn(old(sock), old(wire), OneLine(key))
      ensures r != Raised(Index) && Logged(log, Dele(key), answer)
      ensures if sock then
          Clean() ==>
            (r.Done? <==> Answers(answer, FTP_ACTION_OK)) && (r == Raised(NoKey) <==> Answers(answer, FTP_NOT_FOUND))
        else r == Raised(Blob)
      ensures Sound(key) ==> OnlyNamed(old(tree), tree, Resolve(key))
      ensures Sound(key) && AtHome() ==> DeleteTells(key, old(tree), r)
      ensures smooth && tidy && Sound(key) ==> r.Done? || r == Raised(NoKey)
    {
      var got;
      got, answer := Query(Dele(key));
      if Sound(key) {
        ServesNamed(service, old(tree), wire.home, Dele(key), [], answer, [], tree);
        if sock && wire.home { RemovedFile(service, old(tree), key, answer, [], tree); }
      }
      if !got.Done? { return Raised(Blob), answer; }
      if got.value.0 == FTP_NOT_FOUND { return Raised(NoKey), answer; }
      if got.value.0 != FTP_ACTION_OK { return Raised(Blob), answer; }
      return Done(Unit.Unit), answer;
    }

    /** What a delete on the tree `t` came to: the tree is as it was, or the key is gone and nothing else; when it is done,
        exactly that; with KeyError, the tree is as it was, and an honest server did not have the key. */
    ghost predicate DeleteTells(key: string, t: Tree, r: Verdict<Unit>)
      reads this
    {
      (tree == t || KeyGone(key, t)) && (Clean() && r.Done? ==> KeyGone(key, t)) &&
      (Clean() && r == Raised(NoKey) ==> tree == t && (service.honest ==> NameOf(key) !in Files(t)))
    }

    ghost predicate KeyGone(key: string, t: Tree)
      reads this
    {
      NameOf(key) in Files(t) && tree == t - {Resolve(key)} && Files(tree) == Files(t) - {NameOf(key)}
    }

    // ---- features, scan and exists

    /** The features are those that the reply to FEAT, sent last, advertises; none if it is not 211. */
    static ghost predicate FeaturesToldBy(log: seq<Exchange>, f: FTPFeatures) {
      log != [] && log[|log| - 1].command == Feat && log[|log| - 1].replies != [] &&
      var reply := log[|log| - 1].replies[0];
      (f.supportsMlsd <==> reply.code == FTP_STATUS && Advertised(reply.lines, MLSD_WORD)) &&
      (f.supportsMlst <==> f.supportsMlsd) &&
      (f.supportsSize <==> reply.code == FTP_STATUS && Advertised(reply.lines, SIZE_WORD))
    }

    /** features, asked for once. */
    method Features() returns (r: Verdict<FTPFeatures>)
      requires AtRest()
      modifies this`cached, this`sock, this`openControl,
               this`clock, this`tree, this`hungUp, this`cwd, this`log, this`tidy, this`wire, channel
      ensures AtRest() && TidyAfter(old(tidy), true) && GoesOn(old(sock), old(wire), true)
      ensures r != Raised(NoKey) && (r.Done? ==> cached == Some(r.value))
      ensures old(cached).Some? ==> r == Done(old(cached).value) && log == old(log)
      ensures old(cached).None? && pending.Some? ==> r == Done(pending.value) && log == old(log)
      ensures sock && Clean() && r.Done? && old(cached).None? && pending.None? ==> FeaturesToldBy(log, r.value)
      ensures Kept() ==> tree == old(tree)
      ensures smooth && tidy ==> r.Done?
    {
      if cached.Some? { return Done(cached.value); }
      if pending.Some? { r := Done(pending.value); } else { r := AskFeatures(); }
      if r.Done? { Remember(r.value); }
    }

    method Remember(f: FTPFeatures)
      requires AtRest()
      modifies this`cached
      ensures AtRest() && cached == Some(f)
    {
      assert BooksOpen(true);
      cached := Some(f);
      assert Books();
    }

    method AskFeatures() returns (r: Verdict<FTPFeatures>)
      requires AtRest()
      modifies this`sock, this`openControl,
               this`clock, this`tree, this`hungUp, this`cwd, this`log, this`tidy, this`wire, channel
      ensures AtRest() && TidyAfter(old(tidy), true) && GoesOn(old(sock), old(wire), true)
      ensures r != Raised(NoKey) && (r.Done? ==> sock)
      ensures Clean() && r.Done? ==> FeaturesToldBy(log, r.value)
      ensures Kept() ==> tree == old(tree)
      ensures smooth && tidy ==> r.Done?
    {
      var got;
      ghost var answer;
      got, answer := Query(Feat);
      assert SmoothOpen(true);
      if !got.Done? { return Raised(Blob); }
      if got.value.0 != FTP_STATUS { return Done(FTPFeatures(false, false, false)); }
      var parsed := FromFeat(got.value.1);
      if parsed.None? { return Raised(Index); }
      return Done(parsed.value);
    }

    /** What SIZE and MLST have told: the answer is that of the flat map, but for a directory that looks like a file. */
    ghost predicate Right(key: string, t: Tree, said: bool) {
      if said then NameOf(key) in Files(t) || (IsDir(t, Resolve(key)) && LooksLikeFile(key))
      else service.honest ==> NameOf(key) !in Files(t)
    }

    /** The SIZE step of exists; None when it does not decide. */
    method AskSize(key: string) returns (r: Option<Verdict<bool>>)
      requires AtRest()
      modifies this`sock, this`openControl,
               this`clock, this`tree, this`hungUp, this`cwd, this`log, this`tidy, this`wire, channel
      ensures AtRest() && TidyAfter(old(tidy), OneLine(key)) && GoesOn(old(sock), old(wire), OneLine(key))
      ensures r == Some(Raised(Blob)) || (r.Some? ==> r.value.Done? && sock)
      ensures Clean() && r == Some(Done(true)) ==> Asked(Size(key), FTP_SIZE_OK)
      ensures Clean() && r == Some(Done(false)) ==> Asked(Size(key), FTP_NOT_FOUND)
      ensures Kept() && OneLine(key) ==> tree == old(tree)
      ensures Sound(key) && Clean() && r == Some(Done(true)) ==> NameOf(key) in Files(tree)
      ensures Sound(key) && Clean() && r == Some(Done(false)) ==> Right(key, tree, false)
      ensures smooth && tidy && Sound(key) ==> r != Some(Raised(Blob)) && (r.Some? <==> service.supports.supportsSize)
    {
      var got;
      ghost var answer;
      got, answer := Query(Size(key));
      if Sound(key) && wire.home { SizeTells(service, old(tree), key, answer, tree); }
      if !got.Done? { return Some(Raised(Blob)); }
      if got.value.0 == FTP_SIZE_OK { return Some(Done(true)); }
      if got.value.0 == FTP_NOT_FOUND { return Some(Done(false)); }
      return None;
    }

    /** The MLST step of exists; None when it does not decide. */
    method AskMlst(key: string) returns (r: Option<Verdict<bool>>)
      requires AtRest()
      modifies this`sock, this`openControl,
               this`clock, this`tree, this`hungUp, this`cwd, this`log, this`tidy, this`wire, channel
      ensures AtRest() && TidyAfter(old(tidy), OneLine(key)) && GoesOn(old(sock), old(wire), OneLine(key))
      ensures r == Some(Raised(Blob)) || (r.Some? ==> r.value.Done? && sock)
      ensures Clean() && r == Some(Done(true)) ==> Asked(Mlst(key), FTP_ACTION_OK)
      ensures Clean() && r == Some(Done(false)) ==> Asked(Mlst(key), FTP_ACTION_OK) || Asked(Mlst(key), FTP_NOT_FOUND)
      ensures Kept() && OneLine(key) ==> tree == old(tree)
      ensures Sound(key) && Clean() && r.Some? && r.value.Done? ==> Right(key, tree, r.value.value)
      ensures Sound(key) && Clean() && r == Some(Done(false)) && service.honest ==>
        !(IsDir(tree, Resolve(key)) && LooksLikeFile(key))
      ensures smooth && tidy && Sound(key) ==> r != Some(Raised(Blob)) && (r.Some? <==> service.supports.supportsMlst)
    {
      var got;
      ghost var answer;
      got, answer := Query(Mlst(key));
      if Sound(key) && wire.home {
        Looks();
        MlstTells(service, old(tree), key, answer, tree);
      }
      if !got.Done? { return Some(Raised(Blob)); }
      if got.value.0 == FTP_ACTION_OK { return Some(Done(AnyMentionsFile(got.value.1))); }
      if got.value.0 == FTP_NOT_FOUND { return Some(Done(false)); }
      return None;
    }

    /** A walk stands at a directory of a server that keeps a tree of readable names. */
    static ghost predicate Walking(kept: bool, t: Tree, mlsd: bool, path: string, at: Path) {
      kept && Readable(t, mlsd) && IsDir(t, at) && path == KeyOf(at)
    }

    static predicate Stopped(sought: Option<string>, keys: seq<string>) {
      sought.Some? && sought.value in keys
    }

    /** What one entry of a listing makes the walk yield. */
    method YieldEntry(mlsd: bool, path: string, ghost at: Path, rest: Path, name: string, isDir: bool,
                      sought: Option<string>)
      returns (r: Verdict<seq<string>>, ghost asked: Listings)
      requires AtRest() && sock && OneLine(path) && OneLine(name)
      modifies this`sock, this`openControl, this`openData, this`dials, this`steps,
               this`clock, this`tree, this`hungUp, this`cwd, this`log, this`tidy, this`wire, channel
      ensures AtRest() && TidyAfter(old(tidy), true) && sock && Continues(old(wire), true)
      ensures (r.Done? || r == Raised(Blob)) && dials <= old(dials) + asked.all
      ensures Kept() ==> tree == old(tree)
      ensures EntryAt(mlsd, path, at, name, isDir) && Clean() && r.Done? ==>
        Yields(tree, at, rest, name, r.value, service.honest && !Stopped(sought, r.value)) &&
        asked.AtMost(if rest != [] && name == rest[0] then |rest| else 0)
      ensures EntryAt(mlsd, path, at, name, isDir) && smooth && tidy && CanList(mlsd) ==> r.Done?
      decreases |rest|, 0
    {
      if EntryAt(mlsd, path, at, name, isDir) { EntryKey(tree, at, name); }
      asked := Listings(0, 0);
      var fullPath := if path != "" then path + "/" + name else name;
      if rest != [] && name == rest[0] && isDir {
        r, asked := ListDir(mlsd, fullPath, at + [name], rest[1..], sought);
      } else if (rest != [] && name == rest[0] && !isDir) || (rest == [] && !isDir) {
        r := Done([fullPath]);
      } else {
        r := Done([]);
      }
    }

    ghost predicate EntryAt(mlsd: bool, path: string, at: Path, name: string, isDir: bool)
      reads this
    {
      Walking(Kept(), tree, mlsd, path, at) && (service.faithful ==> Closed(tree)) &&
      at + [name] in tree && (isDir <==> IsDir(tree, at + [name]))
    }

    /** The recursive walk of _scan, stopped by its consumer when it has `sought`: in any order of the listings, each key
        once and no other than those of the walk; against an honest server all of them, if it is not stopped. */
    method ListDir(mlsd: bool, path: string, ghost at: Path, rest: Path, sought: Option<string>)
      returns (r: Verdict<seq<string>>, ghost asked: Listings)
      requires AtRest() && OneLine(path)
      modifies this`sock, this`openControl, this`openData, this`dials, this`steps,
               this`clock, this`tree, this`hungUp, this`cwd, this`log, this`tidy, this`wire, channel
      ensures AtRest() && TidyAfter(old(tidy), true) && GoesOn(old(sock), old(wire), true)
      ensures (r.Done? ==> sock) && (r.Done? || r == Raised(Blob)) && (Kept() ==> tree == old(tree))
      ensures dials <= old(dials) + asked.all
      ensures Walking(Kept(), tree, mlsd, path, at) && Clean() && r.Done? ==>
        Walked(tree, at, rest, r.value, service.honest && !Stopped(sought, r.value)) && asked.AtMost(|rest| + 1)
      ensures Walking(Kept(), tree, mlsd, path, at) && smooth && tidy && CanList(mlsd) ==> r.Done?
      decreases |rest|, 4
    {
      if Walking(Kept(), tree, mlsd, path, at) {
        ClosedGoodPath(tree, at);
        PlaceName(at);
      }
      StripSlashesOneLine(path);
      var path := TrimSlashes(path);
      var data;
      ghost var names;
      data, names := ListNames(mlsd, path, at);
      asked := Listings(1, 0);
      if !data.Done? { return if data.exception.NoKey? then Done([]) else Raised(Blob), asked; }
      SplitLinesPlain(data.value);
      ghost var more;
      r, more := WalkEntries(mlsd, path, at, rest, sought, SplitLines(data.value), names);
      asked := Listings(1, 0).Then(false, more);
    }

    /** The lines of a listing tell these entries of the directory that the walk is at. */
    static ghost predicate Told(kept: bool, t: Tree, mlsd: bool, path: string, at: Path,
                                lines: seq<bytes>, names: seq<string>) {
      Walking(kept, t, mlsd, path, at) && Entries(t, at, names) && Tells(t, mlsd, at, names, lines)
    }

    /** What a walk of the tree `t` has collected after `n` lines of a listing, and which more listings it has asked for. */
    static ghost predicate SoFar(t: Tree, at: Path, rest: Path, names: seq<string>,
                                 n: nat, keys: seq<string>, asked: Listings, full: bool) {
      forall on {:trigger SoFarOpen(on)} :: SoFarOpen(on) ==>
        n <= |names| && Collected(t, at, rest, names[..n], keys, full) &&
        asked.AtMost(if rest != [] && rest[0] in names[..n] then |rest| else 0)
    }

    static lemma SoFarNothing(t: Tree, at: Path, rest: Path, names: seq<string>, full: bool)
      ensures SoFar(t, at, rest, names, 0, [], Listings(0, 0), full)
    {
    }

    static lemma SoFarNext(t: Tree, at: Path, rest: Path, names: seq<string>, i: nat, keys: seq<string>, before: Listings,
                           got: seq<string>, more: Listings, honest: bool, full: bool)
      requires Closed(t) && i < |names| && at + [names[i]] in t
      requires names[i] !in names[..i] && names[..i + 1] == names[..i] + [names[i]]
      requires SoFar(t, at, rest, names, i, keys, before, honest) && (full ==> honest)
      requires Yields(t, at, rest, names[i], got, full)
      requires more.AtMost(if rest != [] && names[i] == rest[0] then |rest| else 0)
      ensures SoFar(t, at, rest, names, i + 1, keys + got, before.Then(keys != [], more), full)
    {
      assert SoFarOpen(true);
      CollectedStep(t, at, rest, names[..i], names[i], keys, got, full);
    }

    static lemma SoFarWalked(t: Tree, at: Path, rest: Path, names: seq<string>,
                             n: nat, keys: seq<string>, asked: Listings, full: bool)
      requires Closed(t) && IsDir(t, at) && Entries(t, at, names)
      requires SoFar(t, at, rest, names, n, keys, asked, full) && (full ==> n == |names|)
      ensures Walked(t, at, rest, keys, full) && asked.AtMost(|rest|)
    {
      assert SoFarOpen(true);
      CollectedSome(t, at, rest, names[..n], keys, full);
      if full {
        assert names[..n] == names;
        CollectedAll(t, at, rest, names, keys, full);
      }
    }

    /** One line of a listing; `told` when the listing tells the entries of a directory. */
    method WalkEntry(mlsd: bool, path: string, ghost at: Path, rest: Path, sought: Option<string>,
                     lines: seq<bytes>, ghost names: seq<string>, i: nat, keys: seq<string>, ghost before: Listings,
                     ghost told: bool)
      returns (r: Verdict<seq<string>>, ghost asked: Listings)
      requires AtRest() && sock && OneLine(path) && i < |lines| && PlainText(lines[i]) && !Stopped(sought, keys)
      requires told ==> Told(Kept(), tree, mlsd, path, at, lines, names)
      requires told && Clean() ==> SoFar(tree, at, rest, names, i, keys, before, service.honest)
      modifies this`sock, this`openControl, this`openData, this`dials, this`steps,
               this`clock, this`tree, this`hungUp, this`cwd, this`log, this`tidy, this`wire, channel
      ensures AtRest() && TidyAfter(old(tidy), true) && sock && Continues(old(wire), true)
      ensures r.Done? || r == Raised(Blob)
      ensures (Kept() ==> tree == old(tree)) && (told ==> Kept()) && dials + before.all <= old(dials) + asked.all
      ensures told && Clean() && r.Done? ==>
        SoFar(tree, at, rest, names, i + 1, r.value, asked, service.honest && !Stopped(sought, r.value))
      ensures told && smooth && tidy && CanList(mlsd) ==> r.Done?
      decreases |rest|, 1
    {
      asked := before;
      var entry := ParseLine(mlsd, lines[i]);
      if told { EntryFound(tree, mlsd, at, names, lines, i); }
      if entry.None? { return Raised(Blob), asked; }
      ParsedNameOneLine(mlsd, lines[i]);
      var (name, isDir) := entry.value;
      ghost var more;
      r, more := YieldEntry(mlsd, path, at, rest, name, isDir, sought);
      asked := before.Then(keys != [], more);
      if !r.Done? { return; }
      if told && Clean() {
        SoFarNext(tree, at, rest, names, i, keys, before, r.value, more,
                  service.honest, service.honest && !Stopped(sought, keys + r.value));
      }
      r := Done(keys + r.value);
    }

    /** The loop over the lines of a listing, up to the one that gives what is sought. */
    method WalkLines(mlsd: bool, path: string, ghost at: Path, rest: Path, sought: Option<string>,
                     lines: seq<bytes>, ghost names: seq<string>, ghost told: bool)
      returns (r: Verdict<seq<string>>, ghost n: nat, ghost asked: Listings)
      requires AtRest() && sock && OneLine(path) && forall l :: l in lines ==> PlainText(l)
      requires told ==> Told(Kept(), tree, mlsd, path, at, lines, names)
      modifies this`sock, this`openControl, this`openData, this`dials, this`steps,
               this`clock, this`tree, this`hungUp, this`cwd, this`log, this`tidy, this`wire, channel
      ensures AtRest() && TidyAfter(old(tidy), true) && sock && Continues(old(wire), true)
      ensures r.Done? || r == Raised(Blob)
      ensures (Kept() ==> tree == old(tree)) && (told ==> Kept()) && dials <= old(dials) + asked.all
      ensures r.Done? ==> n == |lines| || Stopped(sought, r.value)
      ensures told && Clean() && r.Done? ==>
        SoFar(tree, at, rest, names, n, r.value, asked, service.honest && !Stopped(sought, r.value))
      ensures told && smooth && tidy && CanList(mlsd) ==> r.Done?
      decreases |rest|, 2
    {
      r := Done([]);
      n, asked := 0, Listings(0, 0);
      SoFarNothing(tree, at, rest, names, service.honest);
      for i := 0 to |lines|
        invariant AtRest() && TidyAfter(old(tidy), true) && sock && Continues(old(wire), true)
        invariant (Kept() ==> tree == old(tree)) && dials <= old(dials) + asked.all
        invariant r.Done? && !Stopped(sought, r.value) && n == i
        invariant told && Clean() ==> SoFar(tree, at, rest, names, i, r.value, asked, service.honest)
      {
        assert lines[i] in lines;
        r, asked := WalkEntry(mlsd, path, at, rest, sought, lines, names, i, r.value, asked, told);
        n := i + 1;
        if !r.Done? { return; }
        if Stopped(sought, r.value) { return; }
      }
    }

    /** The lines of a listing. */
    method WalkEntries(mlsd: bool, path: string, ghost at: Path, rest: Path, sought: Option<string>,
                       lines: seq<bytes>, ghost names: seq<string>)
      returns (r: Verdict<seq<string>>, ghost asked: Listings)
      requires AtRest() && sock && OneLine(path) && forall l :: l in lines ==> PlainText(l)
      modifies this`sock, this`openControl, this`openData, this`dials, this`steps,
               this`clock, this`tree, this`hungUp, this`cwd, this`log, this`tidy, this`wire, channel
      ensures AtRest() && TidyAfter(old(tidy), true) && sock && Continues(old(wire), true)
      ensures (r.Done? || r == Raised(Blob)) && dials <= old(dials) + asked.all
      ensures Kept() ==> tree == old(tree)
      ensures Told(Kept(), tree, mlsd, path, at, lines, names) && Clean() && r.Done? ==>
        Walked(tree, at, rest, r.value, service.honest && !Stopped(sought, r.value)) && asked.AtMost(|rest|)
      ensures Told(Kept(), tree, mlsd, path, at, lines, names) && smooth && tidy && CanList(mlsd) ==> r.Done?
      decreases |rest|, 3
    {
      ghost var n, told := 0, Told(Kept(), tree, mlsd, path, at, lines, names);
      r, n, asked := WalkLines(mlsd, path, at, rest, sought, lines, names, told);
      if r.Done? {
        WalkDone(mlsd, path, at, rest, lines, names, n, r.value, asked, service.honest && !Stopped(sought, r.value));
      }
    }

    lemma WalkDone(mlsd: bool, path: string, at: Path, rest: Path, lines: seq<bytes>, names: seq<string>,
                   n: nat, keys: seq<string>, asked: Listings, full: bool)
      requires Valid() && (full ==> n == |lines|)
      requires Told(Kept(), tree, mlsd, path, at, lines, names) && Clean() ==>
        SoFar(tree, at, rest, names, n, keys, asked, full)
      ensures Told(Kept(), tree, mlsd, path, at, lines, names) && Clean() ==>
        Walked(tree, at, rest, keys, full) && asked.AtMost(|rest|)
    {
      if Told(Kept(), tree, mlsd, path, at, lines, names) && Clean() {
        SoFarWalked(tree, at, rest, names, n, keys, asked, full);
      }
    }

    /** One listing; against a server that keeps a tree, `names` are the entries that it tells. */
    method ListNames(mlsd: bool, path: string, ghost at: Path) returns (r: Verdict<bytes>, ghost names: seq<string>)
      requires AtRest() && OneLine(path)
      modifies this`sock, this`openControl, this`openData, this`dials, this`steps,
               this`clock, this`tree, this`hungUp, this`cwd, this`log, this`tidy, this`wire, channel
      ensures AtRest() && TidyAfter(old(tidy), true) && GoesOn(old(sock), old(wire), true)
      ensures (r.Done? || r == Raised(NoKey) ==> sock) && r != Raised(Index) && (Kept() ==> tree == old(tree))
      ensures dials <= old(dials) + 1
      ensures Walking(Kept(), tree, mlsd, path, at) && Clean() && r.Done? ==>
        Entries(tree, at, names) && Tells(tree, mlsd, at, names, SplitLines(r.value))
      ensures Walking(Kept(), tree, mlsd, path, at) && Clean() && r == Raised(NoKey) ==> !service.honest
      ensures Walking(Kept(), tree, mlsd, path, at) && smooth && tidy && CanList(mlsd) ==> r.Done?
    {
      ghost var answer, events;
      r, answer, events := PasvCmd(Listing(mlsd, path));
      if Kept() { OnlyReads(service, old(tree), wire.home, Listing(mlsd, path), [], answer, events, tree); }
      names := [];
      if Walking(Kept(), tree, mlsd, path, at) && wire.home {
        ListingTells(service, tree, mlsd, at, answer, events, tree);
        if Clean() && r.Done? {
          names :| Entries(tree, at, names) && r.value == EncodeLines(LinesFor(service.looks, mlsd, tree, at, names));
          Looks();
          ListingRead(service.looks, mlsd, tree, at, names);
        }
      }
    }

    /** The server can list in this format. */
    predicate CanList(mlsd: bool) {
      mlsd ==> service.supports.supportsMlsd
    }

    /** The server can list what the client will ask it to. */
    predicate Fits(f: FTPFeatures) {
      CanList(f.supportsMlsd)
    }

    ghost predicate WalksTree(f: FTPFeatures)
      reads this
    {
      Kept() && Readable(tree, f.supportsMlsd)
    }

    /** scan, or as much of it as a consumer takes until it has `sought`; under MLSD and LIST alike the keys of the walk. */
    method Scan(prefix: string, sought: Option<string>) returns (r: Verdict<seq<string>>, ghost asked: Listings)
      requires AtRest()
      modifies this`cached, this`sock, this`openControl, this`openData, this`dials, this`steps,
               this`clock, this`tree, this`hungUp, this`cwd, this`log, this`tidy, this`wire, channel
      ensures AtRest() && TidyAfter(old(tidy), true) && GoesOn(old(sock), old(wire), true)
      ensures r != Raised(NoKey) && (r.Done? ==> cached.Some? && sock) && (Kept() ==> tree == old(tree))
      ensures r.Done? && WalksTree(cached.value) && Clean() ==>
        Walked(tree, [], Resolve(prefix), r.value, service.honest && !Stopped(sought, r.value)) &&
        asked.AtMost(|Resolve(prefix)| + 1) && dials <= old(dials) + |Resolve(prefix)| + 1
      ensures dials <= old(dials) + asked.all
      ensures old(cached).Some? ==> cached == old(cached)
      ensures smooth && tidy ==> cached.Some?
      ensures smooth && tidy && WalksTree(cached.value) && Fits(cached.value) ==> r.Done?
    {
      asked := Listings(0, 0);
      var features := Features();
      if !features.Done? { return Raised(features.exception), asked; }
      r, asked := ListDir(features.value.supportsMlsd, "", [], NonEmpty(Split(prefix, '/')), sought);
    }

    /** What exists answers when nothing goes wrong, by the strategy that decides. */
    ghost predicate ExistsBy(f: FTPFeatures, key: string)
      reads this
    {
      if f.supportsSize && service.supports.supportsSize then NameOf(key) in Files(tree)
      else if f.supportsMlst && service.supports.supportsMlst then
        NameOf(key) in Files(tree) || (IsDir(tree, Resolve(key)) && LooksLikeFile(key))
      else key in Files(tree)
    }

    /** exists: true only if the key is stored, or names a directory that looks like a file; false from an honest server
        only if it is not stored, or the key is not in its normal form. When nothing goes wrong, exactly what the
        strategy that decides can tell. */
    method Exists(key: string) returns (r: Verdict<bool>)
      requires AtRest()
      modifies this`cached, this`sock, this`openControl, this`openData, this`dials, this`steps,
               this`clock, this`tree, this`hungUp, this`cwd, this`log, this`tidy, this`wire, channel
      ensures AtRest() && TidyAfter(old(tidy), OneLine(key)) && GoesOn(old(sock), old(wire), OneLine(key))
      ensures r != Raised(NoKey) && (Kept() && OneLine(key) ==> tree == old(tree)) && (r.Done? ==> cached.Some? && sock)
      ensures Sound(key) && Clean() && r.Done? && WalksTree(cached.value) ==>
        (r.value ==> NameOf(key) in Files(tree) || (IsDir(tree, Resolve(key)) && LooksLikeFile(key))) &&
        (!r.value && service.honest ==> NameOf(key) !in Files(tree) || key != NameOf(key))
      ensures smooth && tidy ==> cached.Some?
      ensures old(cached).Some? ==> cached == old(cached)
      ensures smooth && tidy && service.honest && Sound(key) && WalksTree(cached.value) && Fits(cached.value) ==>
        r.Done? && (r.value <==> ExistsBy(cached.value, key))
    {
      var features := Features();
      if !features.Done? { return Raised(features.exception); }
      var asked := Ask(key, features.value);
      if asked.Some? { return asked.value; }
      r := ExistsByScan(key);
    }

    /** The commands that exists tries; None when none of them decides. */
    method Ask(key: string, f: FTPFeatures) returns (r: Option<Verdict<bool>>)
      requires AtRest()
      modifies this`sock, this`openControl,
               this`clock, this`tree, this`hungUp, this`cwd, this`log, this`tidy, this`wire, channel
      ensures AtRest() && TidyAfter(old(tidy), OneLine(key)) && GoesOn(old(sock), old(wire), OneLine(key))
      ensures r == Some(Raised(Blob)) || (r.Some? ==> r.value.Done? && sock)
      ensures Kept() && OneLine(key) ==> tree == old(tree)
      ensures Sound(key) && Clean() && r.Some? && r.value.Done? ==> Right(key, tree, r.value.value)
      ensures smooth && tidy && Sound(key) ==> r != Some(Raised(Blob)) && (r.None? <==> Undecided(f))
      ensures smooth && tidy && Sound(key) && service.honest && r.Some? ==> (r.value.value <==> ExistsBy(f, key))
    {
      if f.supportsSize {
        r := AskSize(key);
        if r.Some? { return; }
      }
      if f.supportsMlst {
        r := AskMlst(key);
        if r.Some? { return; }
      }
      r := None;
    }

    /** Neither SIZE nor MLST decides. */
    predicate Undecided(f: FTPFeatures) {
      !(f.supportsSize && service.supports.supportsSize) && !(f.supportsMlst && service.supports.supportsMlst)
    }

    /** The last resort of exists. */
    method ExistsByScan(key: string) returns (r: Verdict<bool>)
      requires AtRest() && cached.Some?
      modifies this`cached, this`sock, this`openControl, this`openData, this`dials, this`steps,
               this`clock, this`tree, this`hungUp, this`cwd, this`log, this`tidy, this`wire, channel
      ensures AtRest() && TidyAfter(old(tidy), true) && GoesOn(old(sock), old(wire), true)
      ensures r != Raised(NoKey) && (Kept() ==> tree == old(tree)) && cached == old(cached) && (r.Done? ==> sock)
      ensures Kept() && Clean() && r.Done? && WalksTree(cached.value) ==>
        (r.value ==> key in Files(tree) && NameOf(key) == key) && (!r.value && service.honest ==> key !in Files(tree))
      ensures smooth && tidy && WalksTree(cached.value) && Fits(cached.value) ==> r.Done?
    {
      var keys;
      ghost var asked;
      keys, asked := Scan(key, Some(key));
      if Kept() {
        WalkFindsKey(tree, key);
        if key in Files(tree) { StoredKeyIsName(tree, key); }
      }
      return if keys.Done? then Done(key in keys.value) else Raised(keys.exception);
    }

    // ---- whole runs

    method Perform(call: Call)
      requires AtRest()
      modifies this, channel
      ensures AtRest() && (tidy ==> old(tidy)) && (call.Close? ==> !sock)
    {
      match call
      case Open => var _, _, _ := EnsureConnection();
      case Close => Close();
      case Put(key, data) => var _, _, _, _ := Put(key, data);
      case Get(key) => var _, _, _ := Get(key);
      case Delete(key) => var _, _ := Delete(key);
      case Exists(key) => var _ := Exists(key);
      case Scan(prefix) => var _, _ := Scan(prefix, None);
      case List(mlsd, path) => var _, _, _ := PasvCmd(Listing(mlsd, path));
    }

    /** In every run whatsoever, no data socket is open between operations, one control socket is open exactly when `_sock`
        is set, and none after a close. In every calm run, commands and replies are in step on a connection if and only if
        what the buffer held when it was opened is one reply together with its greeting, as after an empty buffer, as long
        as its command texts are one line each; and if all greetings and texts so far were single, and no reply was broken
        off, they are in step, and nothing is left to read. */
    method Run(calls: seq<Call>)
      requires AtRest()
      modifies this, channel
      ensures openData == 0 && openControl == (if sock then 1 else 0)
      ensures calls != [] && calls[|calls| - 1].Close? ==> openControl == 0
      ensures calm && sock && !wire.torn ==>
        (wire.InStep(channel.Stream()) <==> OneReply(wire.stale + EncodeAll(wire.greeting))) &&
        (wire.stale == [] ==> wire.InStep(channel.Stream()))
      ensures calm && sock && tidy ==> wire.InStep([]) && channel.Stream() == []
    {
      for i := 0 to |calls|
        invariant AtRest() && (i > 0 && calls[i - 1].Close? ==> !sock)
      {
        Perform(calls[i]);
      }
      assert BooksOpen(true);
      if calm && sock && !wire.torn { InStepExactlyWhen(); }
      if calm && sock && tidy { Silence(); }
    }
  }

  /** The calls of an application; List stands for the next pull on a scan that it holds open. */
  datatype Call =
    | Open
    | Close
    | Put(key: string, data: bytes)
    | Get(key: string)
    | Delete(key: string)
    | Exists(key: string)
    | Scan(prefix: string)
    | List(mlsd: bool, path: string)

  lemma EntryKey(t: Tree, at: Path, name: string)
    requires Closed(t) && at in t
    ensures KeyOf(at + [name]) == if KeyOf(at) != "" then KeyOf(at) + "/" + name else name
  {
    KeySnoc(at, name);
    ClosedGoodPath(t, at);
    PlaceName(at);
  }

  /** The entry that a line tells. */
  lemma EntryFound(t: Tree, mlsd: bool, at: Path, names: seq<string>, lines: seq<bytes>, i: nat)
    requires Entries(t, at, names) && Tells(t, mlsd, at, names, lines) && i < |lines|
    ensures ParseLine(mlsd, lines[i]) == Some((names[i], IsDir(t, at + [names[i]])))
    ensures at + [names[i]] in t && names[i] !in names[..i] && names[..i + 1] == names[..i] + [names[i]]
  {
    DistinctPrefix(names, i);
    assert names[i] in names;
  }
}
