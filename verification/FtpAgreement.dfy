/** Whole runs of an FTP client: what they do to the files of a server, and when that is the flat map. */
module FtpAgreement {
  import opened Basics
  import opened Rows
  import opened Operations
  import opened FtpReplies
  import opened FtpCommon
  import opened FtpTree
  import opened FtpPaths
  import opened FtpServer
  import opened FtpClient
  import Agreement

  // ---- the flat map that can fail, and its scans

  /** What an FTP scan lists: not the keys with the prefix, but those on the way to the place it names or directly in it. */
  function NearKeys(m: FlatMap, prefix: string): set<string> {
    set k | k in m.Keys && Near(PathOf(k), Resolve(prefix))
  }

  /** What an operation may answer and leave, if it may fail: a failed put has changed its own key at most, and a failed
      delete may have removed it. */
  ghost predicate Possible(m: FlatMap, op: Op, a: Answer, n: FlatMap) {
    match op
    case Put(key, data) => (a == Stored && n == m[key := data]) || (a == Refused && SameBut(m, n, key))
    case Get(key) => n == m && (a == Refused || a == if key in m then Value(m[key]) else Missing)
    case Delete(key) =>
      if a == Refused then n == m || n == m - {key}
      else n == m - {key} && a == if key in m then Deleted else Missing
    case Exists(key) => n == m && (a == Refused || a == Present(key in m))
    case Scan(prefix) => n == m && (a == Refused || ListsNear(m, prefix, a))
  }

  ghost predicate ListsNear(m: FlatMap, prefix: string, a: Answer) {
    a.Keys? && Distinct(a.keys) && forall k :: k in a.keys <==> k in NearKeys(m, prefix)
  }

  // ---- the operations

  /** A name that both listing formats give back. */
  predicate PlainName(name: string) {
    ReadableName(name, true) && ReadableName(name, false)
  }

  ghost predicate PlainNames(t: Tree) {
    Readable(t, true) && Readable(t, false)
  }

  /** A key in its normal form with names that can be listed; exists is not asked of one that looks like a file. */
  predicate FtpOperation(op: Op) {
    op.Scan? ||
    (Canonical(op.key) && (op.Exists? ==> !LooksLikeFile(op.key)) && forall n :: n in PathOf(op.key) ==> PlainName(n))
  }

  lemma OperationKey(op: Op)
    requires FtpOperation(op) && !op.Scan?
    ensures OneLine(op.key) && Dotless(op.key) && !Absolute(op.key)
    ensures NameOf(op.key) == op.key && Resolve(op.key) == PathOf(op.key)
    ensures forall n :: n in Resolve(op.key) ==> PlainName(n)
    ensures Canonical(op.key) && (op.Exists? ==> !LooksLikeFile(op.key))
  {
    CanonicalDotless(op.key);
  }

  lemma NamesStayPlain(t: Tree, u: Tree, p: Path)
    requires PlainNames(t) && OnlyNamed(t, u, p) && forall n :: n in p ==> PlainName(n)
    ensures PlainNames(u)
  {
    assert ReadableOpen(true);
    forall q | q in u && q != [] ensures PlainName(q[|q| - 1]) {}
  }

  lemma WalkedIsNear(t: Tree, prefix: string, keys: seq<string>)
    requires Closed(t) && Walked(t, [], Resolve(prefix), keys, true)
    ensures ListsNear(Files(t), prefix, Keys(keys))
  {
    ResolveGood(prefix);
    FoundIsNear(t, Resolve(prefix));
    FilesAre(t);
  }

  // The answers that verdicts stand for; any exception but KeyError is a refusal.

  function Failure(e: Exception): Answer {
    if e.NoKey? then Missing else Refused
  }

  function PutAnswer(r: Verdict<Unit>): Answer {
    if r.Done? then Stored else Failure(r.exception)
  }

  function GetAnswer(r: Verdict<bytes>): Answer {
    if r.Done? then Value(r.value) else Failure(r.exception)
  }

  function DeleteAnswer(r: Verdict<Unit>): Answer {
    if r.Done? then Deleted else Failure(r.exception)
  }

  function ExistsAnswer(r: Verdict<bool>): Answer {
    if r.Done? then Present(r.value) else Failure(r.exception)
  }

  function ScanAnswer(r: Verdict<seq<string>>): Answer {
    if r.Done? then Keys(r.value) else Failure(r.exception)
  }

  lemma StaysPlain(t: Tree, op: Op, u: Tree)
    requires FtpOperation(op) && !op.Scan? && OnlyNamed(t, u, Resolve(op.key)) && PlainNames(t)
    ensures PlainNames(u)
  {
    OperationKey(op);
    NamesStayPlain(t, u, Resolve(op.key));
  }

  lemma GetPossible(m: FlatMap, key: string, r: Verdict<bytes>)
    requires (r.Done? ==> key in m && r.value == m[key]) && (r == Raised(NoKey) ==> key !in m)
    ensures Possible(m, Op.Get(key), GetAnswer(r), m)
  {
  }

  lemma DeleteOutcome(c: FtpClient, t: Tree, key: string, r: Verdict<Unit>)
    requires NameOf(key) == key && c.service.honest && (!c.sock ==> r == Raised(Blob))
    requires (c.AtHome() ==> c.DeleteTells(key, t, r)) && (InStep(c) ==> c.AtHome())
    requires r != Raised(Index) && (c.smooth && c.tidy ==> r != Raised(Blob))
    ensures Outcome(c, t, Op.Delete(key), DeleteAnswer(r))
  {
    DeleteAfter(c, t, key, r);
    if InStep(c) { DeletePossible(Files(t), Files(c.tree), key, r); }
  }

  lemma DeleteAfter(c: FtpClient, t: Tree, key: string, r: Verdict<Unit>)
    requires NameOf(key) == key && (c.AtHome() ==> c.DeleteTells(key, t, r))
    ensures c.AtHome() ==> TreeAfter(t, Op.Delete(key), c.tree)
  {
    if c.AtHome() { DeleteBounded(Files(t), Files(c.tree), key); }
  }

  lemma DeleteBounded(m: FlatMap, n: FlatMap, key: string)
    requires n == m || n == m - {key}
    ensures SameBut(m, n, key)
  {
  }

  lemma DeletePossible(m: FlatMap, n: FlatMap, key: string, r: Verdict<Unit>)
    requires n == m || (key in m && n == m - {key})
    requires (r.Done? ==> key in m && n == m - {key}) && (r == Raised(NoKey) ==> key !in m && n == m)
    ensures Possible(m, Op.Delete(key), DeleteAnswer(r), n)
  {
    if key !in m { assert m - {key} == m; }
  }

  lemma ExistsPossible(m: FlatMap, key: string, r: Verdict<bool>)
    requires r != Raised(NoKey) && (r.Done? ==> (r.value <==> key in m))
    ensures Possible(m, Op.Exists(key), ExistsAnswer(r), m)
  {
  }

  lemma ScanPossible(t: Tree, prefix: string, r: Verdict<seq<string>>)
    requires Closed(t) && r != Raised(NoKey) && (r.Done? ==> Walked(t, [], Resolve(prefix), r.value, true))
    ensures Possible(Files(t), Op.Scan(prefix), ScanAnswer(r), Files(t))
  {
    if r.Done? { WalkedIsNear(t, prefix, r.value); }
  }

  /** A client, between operations, of an honest server that keeps a tree of plain names, in a calm run. */
  ghost predicate Ready(c: FtpClient)
    reads c, c.channel
  {
    c.AtRest() && c.calm && c.Kept() && c.service.honest && PlainNames(c.tree)
  }

  /** What the client takes the server to support, the server does support. */
  ghost predicate FeaturesFit(c: FtpClient)
    reads c
  {
    c.cached.Some? ==> c.cached.value.supportsMlsd ==> c.service.supports.supportsMlsd
  }

  /** If there is a connection, commands and replies are in step on it. */
  ghost predicate InStep(c: FtpClient)
    reads c
  {
    c.sock ==> c.Clean()
  }

  /** What an operation on the tree `t` came to: on a connection that is in step, what the flat map that can fail allows; on
      any other that works in the configured root, at most its own key has changed; and when nothing goes wrong, a failure
      only if something stood in the way of a put. */
  ghost predicate Outcome(c: FtpClient, t: Tree, op: Op, a: Answer)
    reads c
  {
    (InStep(c) ==> Possible(Files(t), op, a, Files(c.tree))) && (c.AtHome() || !Changing(op) ==> TreeAfter(t, op, c.tree)) &&
    (c.smooth && c.tidy && FeaturesFit(c) ==> Unhindered(t, op, a)) &&
    (c.smooth && c.tidy && op.Put? && !Blocked(t, Resolve(op.key)) ==> c.tree == PutTree(t, Resolve(op.key), op.data))
  }

  predicate Changing(op: Op) {
    op.Put? || op.Delete?
  }

  /** Whatever an operation came to: a put has changed its own key at most, a delete has removed its file at most, and nothing
      else changes the tree. */
  ghost predicate TreeAfter(t: Tree, op: Op, u: Tree) {
    match op
    case Put(key, _) => SameBut(Files(t), Files(u), key)
    case Delete(key) => SameBut(Files(t), Files(u), key) && (u == t || u == t - {Resolve(key)})
    case _ => u == t
  }

  /** A failure only if something stood in the way of a put. */
  ghost predicate Unhindered(t: Tree, op: Op, a: Answer) {
    a == Refused ==> op.Put? && Blocked(t, Resolve(op.key))
  }

  lemma PutOutcome(c: FtpClient, t: Tree, key: string, data: bytes, answer: seq<Reply>, r: Verdict<Unit>)
    requires NameOf(key) == key && (r.Done? || r == Raised(Blob)) && (InStep(c) ==> c.AtHome())
    requires c.AtHome() ==> c.PutLeaves(key, t, answer) && (InStep(c) && r.Done? ==> c.PutDone(key, data, t))
    requires c.smooth && c.tidy ==> (r.Done? <==> !Blocked(t, Resolve(key))) && InStep(c)
    ensures Outcome(c, t, Op.Put(key, data), PutAnswer(r))
  {
  }

  method PutStep(c: FtpClient, key: string, data: bytes) returns (a: Answer)
    requires Ready(c) && FtpOperation(Op.Put(key, data))
    modifies c, c.channel
    ensures Ready(c) && c.TidyAfter(old(c.tidy), true) && c.GoesOn(old(c.sock), old(c.wire), true)
    ensures c.cached == old(c.cached) && Outcome(c, old(c.tree), Op.Put(key, data), a)
  {
    assert c.Sound(key) && NameOf(key) == key by { OperationKey(Op.Put(key, data)); }
    ghost var t := c.tree;
    var r;
    ghost var made, answer, delivered;
    r, made, answer, delivered := c.Put(key, data);
    StaysPlain(t, Op.Put(key, data), c.tree);
    PutOutcome(c, t, key, data, answer, r);
    a := PutAnswer(r);
  }

  method GetStep(c: FtpClient, key: string) returns (a: Answer)
    requires Ready(c) && FtpOperation(Op.Get(key))
    modifies c, c.channel
    ensures Ready(c) && c.TidyAfter(old(c.tidy), true) && c.GoesOn(old(c.sock), old(c.wire), true)
    ensures c.cached == old(c.cached) && Outcome(c, old(c.tree), Op.Get(key), a)
  {
    assert c.Sound(key) && NameOf(key) == key by { OperationKey(Op.Get(key)); }
    var r;
    ghost var answer, events;
    r, answer, events := c.Get(key);
    if InStep(c) { GetPossible(Files(c.tree), key, r); }
    a := GetAnswer(r);
  }

  method DeleteStep(c: FtpClient, key: string) returns (a: Answer)
    requires Ready(c) && FtpOperation(Op.Delete(key))
    modifies c, c.channel
    ensures Ready(c) && c.TidyAfter(old(c.tidy), true) && c.GoesOn(old(c.sock), old(c.wire), true)
    ensures c.cached == old(c.cached) && Outcome(c, old(c.tree), Op.Delete(key), a)
  {
    assert c.Sound(key) && NameOf(key) == key by { OperationKey(Op.Delete(key)); }
    ghost var t := c.tree;
    var r;
    ghost var answer;
    r, answer := c.Delete(key);
    StaysPlain(t, Op.Delete(key), c.tree);
    DeleteOutcome(c, t, key, r);
    a := DeleteAnswer(r);
  }

  method ExistsStep(c: FtpClient, key: string) returns (a: Answer)
    requires Ready(c) && FtpOperation(Op.Exists(key))
    modifies c, c.channel
    ensures Ready(c) && c.TidyAfter(old(c.tidy), true) && c.GoesOn(old(c.sock), old(c.wire), true)
    ensures old(c.cached).Some? ==> c.cached == old(c.cached)
    ensures Outcome(c, old(c.tree), Op.Exists(key), a)
  {
    assert c.Sound(key) && NameOf(key) == key && !LooksLikeFile(key) by { OperationKey(Op.Exists(key)); }
    var r := c.Exists(key);
    if InStep(c) { ExistsPossible(Files(c.tree), key, r); }
    a := ExistsAnswer(r);
  }

  method ScanStep(c: FtpClient, prefix: string) returns (a: Answer)
    requires Ready(c)
    modifies c, c.channel
    ensures Ready(c) && c.TidyAfter(old(c.tidy), true) && c.GoesOn(old(c.sock), old(c.wire), true)
    ensures old(c.cached).Some? ==> c.cached == old(c.cached)
    ensures Outcome(c, old(c.tree), Op.Scan(prefix), a)
  {
    var r;
    ghost var asked;
    r, asked := c.Scan(prefix, None);
    if InStep(c) { ScanPossible(c.tree, prefix, r); }
    a := ScanAnswer(r);
  }

  method FtpStep(c: FtpClient, op: Op) returns (a: Answer)
    requires Ready(c) && FtpOperation(op)
    modifies c, c.channel
    ensures Ready(c) && c.TidyAfter(old(c.tidy), true) && c.GoesOn(old(c.sock), old(c.wire), true)
    ensures old(c.cached).Some? ==> c.cached == old(c.cached)
    ensures Outcome(c, old(c.tree), op, a)
  {
    match op
    case Put(key, data) => a := PutStep(c, key, data);
    case Get(key) => a := GetStep(c, key);
    case Delete(key) => a := DeleteStep(c, key);
    case Exists(key) => a := ExistsStep(c, key);
    case Scan(prefix) => a := ScanStep(c, prefix);
  }

  // ---- whole runs

  /** What an application does with its client. */
  datatype Move = Do(op: Op) | Open | Close

  /** The account of the connection that is set. */
  ghost function Account(c: FtpClient): Option<Wire>
    reads c
  {
    if c.sock then Some(c.wire) else None
  }

  predicate Same(w: Wire, v: Wire) {
    v.stale == w.stale && v.greeting == w.greeting && v.torn == w.torn && v.home == w.home
  }

  /** A move keeps the connection that was set, unless it closes it; a new one has had command texts of one line each. One
      that was opened with an empty buffer is in step, and one that is in step works in the configured root. */
  ghost predicate Connects(m: Move, w: Option<Wire>, v: Option<Wire>) {
    (w.Some? && !m.Close? ==> v.Some?) && (m.Close? ==> v.None?) &&
    (v.Some? ==> if w.Some? then Same(w.value, v.value) else !v.value.torn) &&
    (v.Some? && v.value.stale == [] && !v.value.torn ==> v.value.Clean()) &&
    (v.Some? && v.value.Clean() ==> v.value.home)
  }

  /** What a move came to, from the files `m` to the files `n`, if `v` is the account of its connection: on a connection that
      is in step, what the flat map that can fail allows; on any other that works in the configured root, no key but that of
      a put or a delete has changed. */
  ghost predicate Moves(m: FlatMap, move: Move, a: Answer, n: FlatMap, v: Option<Wire>) {
    match move
    case Do(op) =>
      ((v.Some? ==> v.value.Clean()) ==> Possible(m, op, a, n)) &&
      (if Changing(op) then (v.Some? ==> v.value.home) ==> SameBut(m, n, op.key) else n == m)
    case _ => n == m
  }

  ghost predicate CalmRun(moves: seq<Move>, answers: seq<Answer>, maps: seq<FlatMap>, accounts: seq<Option<Wire>>) {
    |answers| <= |moves| && |maps| == |answers| + 1 && |accounts| == |answers| + 1 &&
    forall i :: 0 <= i < |answers| ==>
      Moves(maps[i], moves[i], answers[i], maps[i + 1], accounts[i + 1]) && Connects(moves[i], accounts[i], accounts[i + 1])
  }

  lemma CalmSnoc(moves: seq<Move>, answers: seq<Answer>, maps: seq<FlatMap>, accounts: seq<Option<Wire>>,
                 a: Answer, n: FlatMap, v: Option<Wire>)
    requires CalmRun(moves, answers, maps, accounts) && |answers| < |moves|
    requires Moves(maps[|answers|], moves[|answers|], a, n, v) && Connects(moves[|answers|], accounts[|answers|], v)
    ensures CalmRun(moves, answers + [a], maps + [n], accounts + [v])
  {
  }

  lemma OutcomeMoves(c: FtpClient, t: Tree, op: Op, a: Answer)
    requires c.calm && Outcome(c, t, op, a)
    ensures Moves(Files(t), Do(op), a, Files(c.tree), Account(c))
  {
  }

  method Step(c: FtpClient, move: Move) returns (a: Answer)
    requires Ready(c) && (move.Do? ==> FtpOperation(move.op))
    modifies c, c.channel
    ensures Ready(c) && (c.tidy ==> old(c.tidy))
    ensures Moves(Files(old(c.tree)), move, a, Files(c.tree), Account(c)) && Connects(move, old(Account(c)), Account(c))
  {
    ghost var t := c.tree;
    match move {
      case Do(op) =>
        a := FtpStep(c, op);
        OutcomeMoves(c, t, op, a);
      case Open =>
        var r, _, _ := c.EnsureConnection();
        a := if r.Done? then Stored else Refused;
      case Close =>
        c.Close();
        a := Stored;
    }
    if c.sock && c.wire.stale == [] && !c.wire.torn { c.EmptyIsClean(); }
  }

  /** In every calm run, over any cut of the bytes and with any refusals, aborted transfers, broken-off replies and closed
      connections: each operation fails or answers as the flat map does, and what it leaves is a flat map changed at its
      own key at most, if commands and replies are in step on its connection; that is so if the connection was opened
      with an empty buffer. On any other connection, too, no other key has changed, if its login has led to the configured
      root; on one that is in step it has. */
  method RunCalm(c: FtpClient, moves: seq<Move>)
    returns (a: seq<Answer>, ghost maps: seq<FlatMap>, ghost accounts: seq<Option<Wire>>)
    requires Ready(c) && forall m :: m in moves && m.Do? ==> FtpOperation(m.op)
    modifies c, c.channel
    ensures |a| == |moves| && CalmRun(moves, a, maps, accounts)
    ensures maps[0] == Files(old(c.tree)) && maps[|moves|] == Files(c.tree)
    ensures accounts[0] == old(Account(c)) && accounts[|moves|] == Account(c)
  {
    a, maps, accounts := [], [Files(c.tree)], [Account(c)];
    for i := 0 to |moves|
      invariant Ready(c) && |a| == i && CalmRun(moves, a, maps, accounts)
      invariant maps[0] == Files(old(c.tree)) && maps[i] == Files(c.tree)
      invariant accounts[0] == old(Account(c)) && accounts[i] == Account(c)
    {
      assert moves[i] in moves;
      var x := Step(c, moves[i]);
      CalmSnoc(moves, a, maps, accounts, x, Files(c.tree), Account(c));
      a, maps, accounts := a + [x], maps + [Files(c.tree)], accounts + [Account(c)];
    }
  }

  // ---- smooth runs in which no key lies below another

  function PutKeys(ops: seq<Op>): set<string> {
    set op | op in ops && op.Put? :: op.key
  }

  /** No key names an ancestor of another. */
  ghost predicate NoneNested(keys: set<string>) {
    forall j, k :: j in keys && k in keys ==> !IsAncestor(PathOf(j), PathOf(k))
  }

  /** Every file in the tree is at one of the keys, and every directory above one. */
  ghost predicate GrownFrom(t: Tree, keys: set<string>) {
    (forall q :: IsFile(t, q) ==> q != [] && KeyOf(q) in keys) &&
    (forall q :: IsDir(t, q) && q != [] ==> exists k :: k in keys && IsAncestor(q, PathOf(k)))
  }

  /** Such a tree has a place for each of the keys. */
  lemma NeverBlocked(t: Tree, keys: set<string>, key: string)
    requires Closed(t) && GrownFrom(t, keys) && NoneNested(keys) && key in keys
    ensures !Blocked(t, PathOf(key))
  {
    var p := PathOf(key);
    forall i | 0 < i < |p| ensures !IsFile(t, p[..i]) {
      if IsFile(t, p[..i]) {
        ClosedGoodPath(t, p[..i]);
        KeyRoundTrip(p[..i]);
        assert IsAncestor(PathOf(KeyOf(p[..i])), p);
      }
    }
  }

  lemma PutGrows(t: Tree, keys: set<string>, key: string, data: bytes)
    requires Closed(t) && GrownFrom(t, keys) && NoneNested(keys) && key in keys && Canonical(key)
    ensures GrownFrom(PutTree(t, PathOf(key), data), keys)
  {
    NeverBlocked(t, keys, key);
    CanonicalPath(key);
    var p := PathOf(key);
    var u := PutTree(t, p, data);
    AddDirsMakesAncestors(t, p);
    forall q | IsFile(u, q) ensures q != [] && KeyOf(q) in keys {
      if q != p { assert !IsAncestor(q, p) && IsFile(t, q); }
    }
    forall q | IsDir(u, q) && q != [] ensures exists k :: k in keys && IsAncestor(q, PathOf(k)) {
      if !IsAncestor(q, p) { assert IsDir(t, q); }
    }
  }

  lemma DeleteKeeps(t: Tree, p: Path, keys: set<string>)
    requires GrownFrom(t, keys)
    ensures GrownFrom(t - {p}, keys)
  {
    var u := t - {p};
    forall q | IsFile(u, q) ensures q != [] && KeyOf(q) in keys { assert IsFile(t, q); }
    forall q | IsDir(u, q) && q != [] ensures exists k :: k in keys && IsAncestor(q, PathOf(k)) { assert IsDir(t, q); }
  }

  /** The answers of the flat map, with the scans of FTP. */
  ghost predicate FtpAnswers(m: FlatMap, op: Op, a: Answer) {
    if op.Scan? then ListsNear(m, op.prefix, a) else FlatAnswers(m, op, a)
  }

  ghost predicate FtpAllowed(ops: seq<Op>, answers: seq<Answer>) {
    |answers| <= |ops| &&
    forall i :: 0 <= i < |answers| ==> FtpAnswers(Agreement.FlatRun(map[], ops[..i]), ops[i], answers[i])
  }

  lemma FtpAllowedSnoc(ops: seq<Op>, answers: seq<Answer>, a: Answer)
    requires FtpAllowed(ops, answers) && |answers| < |ops|
    requires FtpAnswers(Agreement.FlatRun(map[], ops[..|answers|]), ops[|answers|], a)
    ensures FtpAllowed(ops, answers + [a])
  {
  }

  /** A step that does not fail is a step of the flat map. */
  lemma PossibleIsFlat(m: FlatMap, op: Op, a: Answer, n: FlatMap)
    requires Possible(m, op, a, n) && a != Refused
    ensures n == FlatNext(m, op) && FtpAnswers(m, op, a)
  {
  }

  /** One step of the flat map, on a tree that goes on growing from the keys. */
  ghost predicate Flatly(t: Tree, op: Op, a: Answer, u: Tree, keys: set<string>) {
    GrownFrom(u, keys) && Files(u) == FlatNext(Files(t), op) && FtpAnswers(Files(t), op, a)
  }

  /** The answers so far are those of the flat map, and so are the files. */
  ghost predicate FlatSoFar(t: Tree, ops: seq<Op>, a: seq<Answer>, keys: set<string>) {
    GrownFrom(t, keys) && FtpAllowed(ops, a) && Files(t) == Agreement.FlatRun(map[], ops[..|a|])
  }

  lemma FlatStart(ops: seq<Op>, keys: set<string>)
    ensures FlatSoFar(map[[] := Dir], ops, [], keys)
  {
    FilesAre(map[[] := Dir]);
  }

  lemma FlatStep(t: Tree, ops: seq<Op>, a: seq<Answer>, x: Answer, u: Tree, keys: set<string>)
    requires |a| < |ops| && FlatSoFar(t, ops, a, keys) && Flatly(t, ops[|a|], x, u, keys)
    ensures FlatSoFar(u, ops, a + [x], keys)
  {
    Agreement.RunSnoc(map[], ops, |a|);
    FtpAllowedSnoc(ops, a, x);
  }

  lemma TreeOfReady(c: FtpClient)
    requires Ready(c)
    ensures Closed(c.tree)
  {
  }

  method SmoothStep(c: FtpClient, op: Op, ghost keys: set<string>) returns (a: Answer)
    requires Ready(c) && c.smooth && c.tidy && FtpOperation(op) && NoneNested(keys) && (op.Put? ==> op.key in keys)
    modifies c, c.channel
    ensures Ready(c) && c.tidy && (old(c.cached).Some? ==> c.cached == old(c.cached))
    ensures GrownFrom(old(c.tree), keys) && FeaturesFit(c) ==> Flatly(old(c.tree), op, a, c.tree, keys)
  {
    ghost var t := c.tree;
    TreeOfReady(c);
    a := FtpStep(c, op);
    if GrownFrom(t, keys) && FeaturesFit(c) { SmoothOutcome(c, t, op, a, keys); }
  }

  lemma SmoothOutcome(c: FtpClient, t: Tree, op: Op, a: Answer, keys: set<string>)
    requires Closed(t) && Outcome(c, t, op, a) && c.smooth && c.tidy && FeaturesFit(c) && FtpOperation(op)
    requires InStep(c) && c.AtHome()
    requires GrownFrom(t, keys) && NoneNested(keys) && (op.Put? ==> op.key in keys)
    ensures Flatly(t, op, a, c.tree, keys)
  {
    if op.Put? {
      OperationKey(op);
      NeverBlocked(t, keys, op.key);
    }
    StaysGrown(t, op, c.tree, keys);
    PossibleIsFlat(Files(t), op, a, Files(c.tree));
  }

  lemma StaysGrown(t: Tree, op: Op, u: Tree, keys: set<string>)
    requires Closed(t) && TreeAfter(t, op, u) && GrownFrom(t, keys) && FtpOperation(op)
    requires op.Put? ==> NoneNested(keys) && op.key in keys && u == PutTree(t, Resolve(op.key), op.data)
    ensures GrownFrom(u, keys)
  {
    if op.Put? {
      OperationKey(op);
      PutGrows(t, keys, op.key, op.data);
    } else if op.Delete? {
      DeleteKeeps(t, Resolve(op.key), keys);
    }
  }

  /** In every smooth run in which no stored key lies below another, the files of the server are the flat map, and put, get,
      delete and exists give its answers; scans list what FtpTree says of them. */
  method RunSmooth(c: FtpClient, ops: seq<Op>) returns (a: seq<Answer>)
    requires Ready(c) && c.smooth && c.tidy && c.tree == map[[] := Dir]
    requires NoneNested(PutKeys(ops)) && forall op :: op in ops ==> FtpOperation(op)
    modifies c, c.channel
    ensures |a| == |ops|
    ensures FeaturesFit(c) ==> FtpAllowed(ops, a) && Files(c.tree) == Agreement.FlatRun(map[], ops)
  {
    a := [];
    ghost var keys := PutKeys(ops);
    FlatStart(ops, keys);
    for i := 0 to |ops|
      invariant Ready(c) && c.tidy && |a| == i && (FeaturesFit(c) ==> FlatSoFar(c.tree, ops, a, keys))
    {
      assert ops[i] in ops;
      ghost var t := c.tree;
      var x := SmoothStep(c, ops[i], keys);
      if FeaturesFit(c) { FlatStep(t, ops, a, x, c.tree, keys); }
      a := a + [x];
    }
    assert ops[..|ops|] == ops;
  }
}
