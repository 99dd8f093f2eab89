/** The lazily opened SQLite connection: openers and closers interleaved step by step around one lock. */
module SqliteConnection {
  import opened Basics

  /** Where a thread stands in `connection` or `close`. */
  datatype Pc =
    | Idle
    | FastCheck                      // the unlocked test of _conn
    | FastReturn                     // the test passed; _conn is read again, to return it
    | OpenWait                       // waiting for the lock
    | Recheck                        // the test under the lock
    | Connect                        // sqlite3.connect
    | Assign(made: nat)              // the new connection is about to become _conn
    | Execute(n: nat)                // statement n of the pragmas and the schema list is next
    | OpenRelease(got: Option<nat>)  // leaving the lock, with a connection or with an exception
    | Returned(conn: Option<nat>)
    | CloseWait
    | CloseCheck
    | Closing
    | Clearing
    | CloseRelease

  /** `statements` counts the pragmas and the schema list; `ran` counts those the current connection has run;
      `failed` says that one of its statements has failed; `holder` is the thread inside the lock. */
  datatype Shared = Shared(conn: Option<nat>, live: set<nat>, opens: nat, closes: nat,
                           statements: nat, ran: nat, failed: bool, holder: Option<nat>)

  datatype State = State(shared: Shared, threads: seq<Pc>)

  /** What a thread does next: start a call, go on, or go on with the current statement failing. */
  datatype Action = StartOpen | StartClose | Go | Fail

  /** One atomic step of thread `t` at `pc`. A thread that waits for a held lock stays where it is. */
  function Advance(s: Shared, pc: Pc, t: nat, a: Action): (Shared, Pc) {
    match pc
    case Idle => (s, if a == StartOpen then FastCheck else if a == StartClose then CloseWait else Idle)
    case FastCheck => (s, if s.conn.Some? then FastReturn else OpenWait)
    case FastReturn => (s, Returned(s.conn))
    case OpenWait => if s.holder.None? then (s.(holder := Some(t)), Recheck) else (s, pc)
    case Recheck => (s, if s.conn.Some? then OpenRelease(s.conn) else Connect)
    case Connect =>
      if a == Fail then (s, OpenRelease(None))
      else (s.(opens := s.opens + 1, live := s.live + {s.opens}), Assign(s.opens))
    case Assign(made) => (s.(conn := Some(made), ran := 0, failed := false), Execute(0))
    case Execute(n) =>
      if n >= s.statements then (s, OpenRelease(s.conn))
      else if a == Fail then (s.(failed := true), OpenRelease(None))
      else (s.(ran := n + 1), Execute(n + 1))
    case OpenRelease(got) => (s.(holder := None), if got.Some? then Returned(got) else Idle)
    case Returned(_) => (s, Idle)
    case CloseWait => if s.holder.None? then (s.(holder := Some(t)), CloseCheck) else (s, pc)
    case CloseCheck => (s, if s.conn.Some? then Closing else CloseRelease)
    case Closing =>
      (s.(closes := s.closes + 1, live := if s.conn.Some? then s.live - {s.conn.value} else s.live), Clearing)
    case Clearing => (s.(conn := None), CloseRelease)
    case CloseRelease => (s.(holder := None), Idle)
  }

  function Step(s: State, t: nat, a: Action): State
    requires t < |s.threads|
  {
    var (shared, pc) := Advance(s.shared, s.threads[t], t, a);
    State(shared, s.threads[t := pc])
  }

  datatype Move = Move(thread: nat, action: Action)

  /** One move; a thread that does not exist does nothing. */
  function Next(s: State, m: Move): State {
    if m.thread < |s.threads| then Step(s, m.thread, m.action) else s
  }

  /** The state after a run. */
  function Run(s: State, moves: seq<Move>): State
    decreases moves
  {
    if moves == [] then s else Run(Next(s, moves[0]), moves[1..])
  }

  function Initial(threads: nat, statements: nat): State {
    State(Shared(None, {}, 0, 0, statements, 0, false, None), seq(threads, _ => Idle))
  }

  // ---- what every interleaving keeps

  predicate Inside(pc: Pc) {
    pc.Recheck? || pc.Connect? || pc.Assign? || pc.Execute? || pc.OpenRelease? ||
    pc.CloseCheck? || pc.Closing? || pc.Clearing? || pc.CloseRelease?
  }

  /** What the thread inside the lock is doing; Idle when the lock is free. */
  function Holder(s: State): Pc {
    if s.shared.holder.Some? && s.shared.holder.value < |s.threads| then s.threads[s.shared.holder.value] else Idle
  }

  predicate MutualExclusion(s: State) {
    (s.shared.holder.Some? ==> s.shared.holder.value < |s.threads|) &&
    forall i :: 0 <= i < |s.threads| ==> (Inside(s.threads[i]) <==> s.shared.holder == Some(i))
  }

  /** The live connections: the one in _conn, unless it has just been closed, or the one about to be put there. */
  function Expected(s: Shared, pc: Pc): set<nat> {
    if pc.Assign? then {pc.made}
    else if pc.Clearing? || s.conn.None? then {}
    else {s.conn.value}
  }

  /** What holds of the shared state while the lock holder is at `pc`. The last clauses: a connection in _conn that is not
      prepared right now has run everything exactly when none of its statements failed; what an opener leaves the lock with
      is the connection that is set. */
  predicate Consistent(s: Shared, pc: Pc) {
    s.live == Expected(s, pc) && s.opens == s.closes + (if Expected(s, pc) == {} then 0 else 1) &&
    (pc.Connect? || pc.Assign? ==> s.conn.None?) &&
    (pc.Execute? || pc.Closing? || pc.Clearing? ==> s.conn.Some?) &&
    (pc.Execute? ==> s.ran == pc.n <= s.statements && !s.failed) && s.ran <= s.statements &&
    (s.conn.Some? && !pc.Execute? ==> (s.ran == s.statements <==> !s.failed)) &&
    (pc.OpenRelease? && pc.got.Some? ==> s.conn == pc.got)
  }

  predicate Invariant(s: State) {
    MutualExclusion(s) && Consistent(s.shared, Holder(s))
  }

  /** A step inside the lock keeps the shared state consistent; one outside does not touch it. */
  lemma AdvanceKeepsConsistent(s: Shared, pc: Pc, t: nat, a: Action)
    requires if Inside(pc) then s.holder == Some(t) && Consistent(s, pc)
             else s.holder.None? ==> Consistent(s, Idle)
    ensures var (n, to) := Advance(s, pc, t, a);
      if Inside(to) then n.holder == Some(t) && Consistent(n, to) && (Inside(pc) || s.holder.None?)
      else if Inside(pc) then n.holder.None? && Consistent(n, Idle)
      else n == s
  {
    match pc
    case Connect => assert s.live == {} && s.live + {s.opens} == {s.opens};
    case Closing => assert s.live - {s.conn.value} == {};
    case _ =>
  }

  lemma {:induction false} StepKeepsInvariant(s: State, t: nat, a: Action)
    requires t < |s.threads| && Invariant(s)
    ensures Invariant(Step(s, t, a))
  {
    AdvanceKeepsConsistent(s.shared, s.threads[t], t, a);
    var n := Step(s, t, a);
    forall i | 0 <= i < |n.threads| ensures Inside(n.threads[i]) <==> n.shared.holder == Some(i) {
      if i != t { assert n.threads[i] == s.threads[i]; }
    }
  }

  lemma {:induction false} RunKeepsInvariant(s: State, moves: seq<Move>)
    requires Invariant(s)
    ensures Invariant(Run(s, moves)) && |Run(s, moves).threads| == |s.threads|
    decreases moves
  {
    if moves != [] {
      if moves[0].thread < |s.threads| { StepKeepsInvariant(s, moves[0].thread, moves[0].action); }
      RunKeepsInvariant(Next(s, moves[0]), moves[1..]);
    }
  }

  /** In every interleaving at most one connection is live; opens minus closes is 1 exactly when `_conn` is set, except
      while an opener is about to store the connection it made or a closer is about to clear the one it closed. */
  lemma OneConnection(threads: nat, statements: nat, moves: seq<Move>)
    ensures var s := Run(Initial(threads, statements), moves); var c := s.shared;
      |c.live| <= 1 && c.opens - c.closes == |c.live| &&
      (c.opens - c.closes == 1 <==> (c.conn.Some? && !Holder(s).Clearing?) || Holder(s).Assign?) &&
      (c.holder.None? ==> (c.opens - c.closes == 1 <==> c.conn.Some?))
  {
    RunKeepsInvariant(Initial(threads, statements), moves);
  }

  /** A connection in `_conn` has run the whole schema list if and only if none of its statements failed and no opener
      is still running them; whenever the lock is free, if and only if none failed. */
  lemma SchemaComplete(threads: nat, statements: nat, moves: seq<Move>)
    ensures var s := Run(Initial(threads, statements), moves); var c := s.shared;
      c.conn.Some? ==>
        (c.ran == c.statements <==> !c.failed && !(Holder(s).Execute? && Holder(s).n < c.statements)) &&
        (c.holder.None? ==> (c.ran == c.statements <==> !c.failed))
  {
    RunKeepsInvariant(Initial(threads, statements), moves);
  }

  /** What the unlocked fast path returns is whatever `_conn` holds at its second read: nothing if a closer has
      cleared it; else the live connection unless a closer has just closed it, and fully prepared if and only if
      none of its statements failed and no opener is inside the schema list. */
  lemma FastPathReturns(threads: nat, statements: nat, moves: seq<Move>, t: nat, a: Action)
    requires t < threads
    ensures var s := Run(Initial(threads, statements), moves); var c := s.shared;
      |s.threads| == threads &&
      (s.threads[t].FastReturn? ==> Step(s, t, a).threads[t] == Returned(c.conn)) &&
      (c.conn.Some? ==>
        (c.conn.value in c.live <==> !Holder(s).Clearing?) &&
        (c.ran == c.statements <==> !c.failed && !(Holder(s).Execute? && Holder(s).n < c.statements)))
  {
    RunKeepsInvariant(Initial(threads, statements), moves);
  }

  /** The moves of other threads leave a thread where it is. */
  lemma {:induction false} OthersLeaveAlone(s: State, moves: seq<Move>, t: nat)
    requires t < |s.threads| && forall m :: m in moves ==> m.thread != t
    ensures |Run(s, moves).threads| == |s.threads| && Run(s, moves).threads[t] == s.threads[t]
    decreases moves
  {
    if moves != [] {
      assert moves[0] in moves;
      OthersLeaveAlone(Next(s, moves[0]), moves[1..], t);
    }
  }

  /** In every run, an opener that has waited for the lock and finds a connection set returns that very connection, whatever
      the other threads do before it leaves the lock; one that finds none goes on to connect. */
  lemma WaiterGetsConnection(threads: nat, statements: nat, moves: seq<Move>, t: nat, a: Action, others: seq<Move>, b: Action)
    requires t < threads && forall m :: m in others ==> m.thread != t
    ensures var s := Run(Initial(threads, statements), moves);
      |s.threads| == threads && (s.threads[t].Recheck? ==>
        if s.shared.conn.Some? then
          var n := Next(Run(Next(s, Move(t, a)), others), Move(t, b));
          |n.threads| == threads && n.threads[t] == Returned(s.shared.conn) && n.shared.conn == s.shared.conn
        else Next(s, Move(t, a)).threads[t] == Connect)
  {
    RunKeepsInvariant(Initial(threads, statements), moves);
    var s := Run(Initial(threads, statements), moves);
    if s.threads[t].Recheck? && s.shared.conn.Some? {
      StepKeepsInvariant(s, t, a);
      LeavesWithConnection(Next(s, Move(t, a)), t, others, b);
    }
  }

  lemma LeavesWithConnection(s: State, t: nat, others: seq<Move>, b: Action)
    requires Invariant(s) && t < |s.threads| && forall m :: m in others ==> m.thread != t
    requires s.shared.conn.Some? && s.threads[t] == OpenRelease(s.shared.conn)
    ensures var n := Next(Run(s, others), Move(t, b));
      |n.threads| == |s.threads| && n.threads[t] == Returned(s.shared.conn) && n.shared.conn == s.shared.conn
  {
    OthersLeaveAlone(s, others, t);
    RunKeepsInvariant(s, others);
  }

  lemma RunOne(s: State, m: Move, rest: seq<Move>)
    ensures Run(s, [m] + rest) == Run(Next(s, m), rest)
  {
    assert ([m] + rest)[1..] == rest;
  }

  /** A closer that is alone closes the connection that is set and leaves the lock. */
  lemma CloseAlone(s: State, t: nat) returns (moves: seq<Move>)
    requires t < |s.threads| && s.threads[t] == Idle && s.shared.holder.None?
    ensures Run(s, moves) ==
      if s.shared.conn.None? then s
      else State(s.shared.(conn := None, closes := s.shared.closes + 1, live := s.shared.live - {s.shared.conn.value}),
                 s.threads)
  {
    var go := Move(t, Go);
    var s1 := Next(s, Move(t, StartClose));
    var s2 := Next(s1, go);
    var s3 := Next(s2, go);
    if s.shared.conn.None? {
      moves := [Move(t, StartClose)] + ([go] + [go, go]);
      RunOne(s, Move(t, StartClose), [go] + [go, go]);
      RunOne(s1, go, [go, go]);
      RunTwo(s2, go, go);
      assert Next(s3, go).threads == s.threads;
    } else {
      moves := [Move(t, StartClose)] + ([go] + ([go] + [go, go, go]));
      RunOne(s, Move(t, StartClose), [go] + ([go] + [go, go, go]));
      RunOne(s1, go, [go] + [go, go, go]);
      RunOne(s2, go, [go, go, go]);
      RunThree(s3, go, go, go);
      assert Next(Next(Next(s3, go), go), go).threads == s.threads;
    }
  }

  // ---- what the fast path does not promise

  lemma {:induction false} RunAppend(s: State, a: seq<Move>, b: seq<Move>)
    ensures Run(s, a + b) == Run(Run(s, a), b)
    decreases a
  {
    if a == [] {
      assert a + b == b;
    } else {
      assert (a + b)[1..] == a[1..] + b;
      RunAppend(Next(s, a[0]), a[1..], b);
    }
  }

  /** The five steps that take an idle thread, alone, from the call to a stored connection. */
  lemma OpenAlone(s: State, t: nat)
    requires t < |s.threads| && s.threads[t] == Idle && s.shared.conn.None? && s.shared.holder.None?
    ensures var go := Move(t, Go);
      Run(s, [Move(t, StartOpen), go, go, go, go, go])
      == State(s.shared.(conn := Some(s.shared.opens), live := s.shared.live + {s.shared.opens},
                         opens := s.shared.opens + 1, ran := 0, failed := false, holder := Some(t)),
               s.threads[t := Execute(0)])
  {
    var go := Move(t, Go);
    var s1 := Next(s, Move(t, StartOpen));
    var s2, s3 := Next(s1, go), Next(Next(s1, go), go);
    var s4, s5 := Next(s3, go), Next(Next(s3, go), go);
    RunAppend(s, [Move(t, StartOpen), go], [go, go, go, go]);
    assert [Move(t, StartOpen), go] + [go, go, go, go] == [Move(t, StartOpen), go, go, go, go, go];
    RunTwo(s, Move(t, StartOpen), go);
    RunAppend(s2, [go, go], [go, go]);
    assert [go, go] + [go, go] == [go, go, go, go];
    RunTwo(s2, go, go);
    RunTwo(s4, go, go);
  }

  lemma RunThree(s: State, a: Move, b: Move, c: Move)
    ensures Run(s, [a, b, c]) == Next(Next(Next(s, a), b), c)
  {
    assert [a, b, c][1..] == [b, c];
    RunTwo(Next(s, a), b, c);
  }

  lemma RunTwo(s: State, a: Move, b: Move)
    ensures Run(s, [a, b]) == Next(Next(s, a), b)
  {
    assert [a, b][1..] == [b] && [b][1..] == [];
    assert Run(Next(s, a), [b]) == Run(Next(Next(s, a), b), [b][1..]);
  }

  /** A second opener can be handed the connection before any statement of the schema has run on it. */
  lemma FastPathSeesUnpreparedConnection(statements: nat) returns (moves: seq<Move>)
    requires statements > 0
    ensures var s := Run(Initial(2, statements), moves);
      s.threads == [Execute(0), Returned(Some(0))] && s.shared.ran == 0 && !s.shared.failed && s.shared.conn == Some(0)
  {
    var go := Move(0, Go);
    var first := [Move(0, StartOpen), go, go, go, go, go];
    var second := [Move(1, StartOpen), Move(1, Go), Move(1, Go)];
    var s := Initial(2, statements);
    OpenAlone(s, 0);
    RunAppend(s, first, second);
    RunThree(Run(s, first), Move(1, StartOpen), Move(1, Go), Move(1, Go));
    moves := first + second;
  }

  /** After a failed statement the half-prepared connection stays in `_conn` with the lock free,
      and the next opener gets it. */
  lemma FailedSchemaIsKept(statements: nat) returns (moves: seq<Move>)
    requires statements > 0
    ensures var s := Run(Initial(1, statements), moves);
      s.threads == [Returned(Some(0))] && s.shared.holder.None? && s.shared.ran == 0 && s.shared.conn == Some(0)
  {
    var go := Move(0, Go);
    var first := [Move(0, StartOpen), go, go, go, go, go];
    var fail, again := [Move(0, Fail), go], [Move(0, StartOpen), go, go];
    var s := Initial(1, statements);
    OpenAlone(s, 0);
    RunAppend(s, first, fail + again);
    RunAppend(Run(s, first), fail, again);
    RunTwo(Run(s, first), Move(0, Fail), go);
    RunThree(Run(Run(s, first), fail), Move(0, StartOpen), go, go);
    moves := first + (fail + again);
  }

  /** The statements that are left run, and the opener leaves the lock with the connection. */
  lemma {:induction false} FinishOpening(s: State, t: nat, n: nat) returns (moves: seq<Move>)
    requires t < |s.threads| && s.threads[t] == Execute(n) && n == s.shared.ran <= s.shared.statements
    requires s.shared.conn.Some?
    ensures Run(s, moves) ==
      State(s.shared.(ran := s.shared.statements, holder := None), s.threads[t := Returned(s.shared.conn)])
    decreases s.shared.statements - n
  {
    var go := Move(t, Go);
    if n == s.shared.statements {
      moves := [go, go];
      RunTwo(s, go, go);
    } else {
      var more := FinishOpening(Next(s, go), t, n + 1);
      moves := [go] + more;
      assert moves[1..] == more;
    }
  }

  /** A thread passes the unlocked test on a connection that is set. */
  lemma TestPasses(s: State)
    requires |s.threads| == 2 && s.threads[0].Returned? && s.threads[1] == Idle && s.shared.conn.Some?
    ensures Run(s, [Move(0, Go), Move(1, StartOpen), Move(1, Go)]) == State(s.shared, [Idle, FastReturn])
  {
    RunThree(s, Move(0, Go), Move(1, StartOpen), Move(1, Go));
  }

  /** A closer gets in between the test and the second read. */
  lemma CloseFirst(s: State) returns (moves: seq<Move>)
    requires s.threads == [Idle, FastReturn] && s.shared.conn.Some? && s.shared.holder.None?
    ensures var n := Run(s, moves);
      |n.threads| == 2 && n.threads[1] == Returned(None) && n.shared.failed == s.shared.failed
  {
    var go := Move(0, Go);
    var start, end := [Move(0, StartClose), go, go], [go, go, Move(1, Go)];
    RunAppend(s, start, end);
    RunThree(s, Move(0, StartClose), go, go);
    var n := Run(s, start);
    assert n == State(s.shared.(holder := Some(0)), [Closing, FastReturn]);
    RunThree(n, go, go, Move(1, Go));
    moves := start + end;
  }

  /** An opener whose unlocked test has passed can return None, when a closer clears `_conn` before the second read. */
  lemma FastPathReturnsNone(statements: nat) returns (moves: seq<Move>)
    ensures var s := Run(Initial(2, statements), moves);
      |s.threads| == 2 && s.threads[1] == Returned(None) && !s.shared.failed
  {
    var go := Move(0, Go);
    var s := Initial(2, statements);
    var first, test := [Move(0, StartOpen), go, go, go, go, go], [go, Move(1, StartOpen), Move(1, Go)];
    OpenAlone(s, 0);
    var rest := FinishOpening(Run(s, first), 0, 0);
    var ready := Run(Run(s, first), rest);
    TestPasses(ready);
    var last := CloseFirst(Run(ready, test));
    moves := first + (rest + (test + last));
    RunAppend(s, first, rest + (test + last));
    RunAppend(Run(s, first), rest, test + last);
    RunAppend(ready, test, last);
  }
}
