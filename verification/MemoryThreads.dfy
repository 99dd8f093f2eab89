/** The memory backend under threads: the statements inside the lock interleaved with every other thread. */
module MemoryThreads {
  import opened Basics
  import opened Rows
  import opened Operations
  import opened MemoryStore

  /** Where a thread stands; inside the lock it holds the local variables that the next statements use. */
  datatype Pc =
    | Idle
    | Waiting(op: Op)
    | Entered(op: Op)                          // the lock has been taken
    | CheckLimits(op: Op, previous: Option<bytes>) // put: the old value has been read
    | SetSize(op: Op, previous: Option<bytes>)     // put: the limits allow it
    | StoreValue(op: Op)                       // put: _size has been changed, _data has not
    | ShrinkSize(op: Op, gone: nat)            // delete: _data has been changed, _size has not
    | Leaving(op: Op, answer: Answer)          // the result is known, the lock is still held
    | Finished(op: Op, answer: Answer, at: nat)

  /** A finished critical section, in the order in which the lock was held. */
  datatype Entry = Entry(thread: nat, op: Op, answer: Answer)

  datatype Shared = Shared(limits: Limits, data: seq<Row>, size: int, holder: Option<nat>, log: seq<Entry>)

  datatype State = State(shared: Shared, threads: seq<Pc>)

  /** One statement of thread `t` at `pc`; an idle thread starts `op`. */
  function Advance(s: Shared, pc: Pc, t: nat, start: Option<Op>): (Shared, Pc) {
    match pc
    case Idle => (s, if start.Some? then Waiting(start.value) else Idle)
    case Waiting(op) => if s.holder.None? then (s.(holder := Some(t)), Entered(op)) else (s, pc)
    case Entered(op) => (match op
      case Put(key, _) => (s, CheckLimits(op, Find(s.data, key)))
      case Get(key) => (s, Leaving(op, if Find(s.data, key).Some? then Value(Find(s.data, key).value) else Missing))
      case Delete(key) =>
        if Find(s.data, key).Some? then (s.(data := Remove(s.data, key)), ShrinkSize(op, StoredSize(s.data, key)))
        else (s, Leaving(op, Missing))
      case Exists(key) => (s, Leaving(op, Present(Find(s.data, key).Some?)))
      case Scan(prefix) => (s, Leaving(op, Keys(KeysWithPrefix(s.data, prefix)))))
    case CheckLimits(op, previous) =>
      if op.Put? && Admits(s.limits, s.data, s.size, op.key, |op.data|) then (s, SetSize(op, previous))
      else (s, Leaving(op, Refused))
    case SetSize(op, previous) =>
      var n := if op.Put? then |op.data| else 0;
      (s.(size := s.size + (if previous.None? then n else n - |previous.value|)), StoreValue(op))
    case StoreValue(op) => (if op.Put? then s.(data := Assign(s.data, op.key, op.data)) else s, Leaving(op, Stored))
    case ShrinkSize(op, gone) => (s.(size := s.size - gone), Leaving(op, Deleted))
    case Leaving(op, answer) =>
      (s.(holder := None, log := s.log + [Entry(t, op, answer)]), Finished(op, answer, |s.log|))
    case Finished(_, _, _) => (s, Idle)
  }

  datatype Move = Move(thread: nat, start: Option<Op>)

  function Next(s: State, m: Move): State {
    if m.thread < |s.threads| then
      var (shared, pc) := Advance(s.shared, s.threads[m.thread], m.thread, m.start);
      State(shared, s.threads[m.thread := pc])
    else s
  }

  function Run(s: State, moves: seq<Move>): State
    decreases moves
  {
    if moves == [] then s else Run(Next(s, moves[0]), moves[1..])
  }

  function Initial(threads: nat, limits: Limits): State {
    State(Shared(limits, [], 0, None, []), seq(threads, _ => Idle))
  }

  // ---- the sequential store in lock order

  /** The items after the logged operations, run one after the other. */
  function Sequential(limits: Limits, log: seq<Entry>): seq<Row> {
    if log == [] then [] else Apply(limits, Sequential(limits, log[..|log| - 1]), log[|log| - 1].op).0
  }

  /** Every logged answer is the one that the sequential store gives at that point. */
  predicate Faithful(limits: Limits, log: seq<Entry>) {
    log == [] ||
    (Faithful(limits, log[..|log| - 1]) &&
     log[|log| - 1].answer == Apply(limits, Sequential(limits, log[..|log| - 1]), log[|log| - 1].op).1)
  }

  predicate Inside(pc: Pc) {
    pc.Entered? || pc.CheckLimits? || pc.SetSize? || pc.StoreValue? || pc.ShrinkSize? || pc.Leaving?
  }

  function Holder(s: State): Pc {
    if s.shared.holder.Some? && s.shared.holder.value < |s.threads| then s.threads[s.shared.holder.value] else Idle
  }

  /** What the shared variables hold while the lock holder is at `pc`, against the sequential items `rows`. */
  predicate Progress(s: Shared, pc: Pc, rows: seq<Row>) {
    match pc
    case CheckLimits(op, previous) => s.data == rows && s.size == Total(rows) && op.Put? && previous == Find(rows, op.key)
    case SetSize(op, previous) =>
      s.data == rows && s.size == Total(rows) && op.Put? && previous == Find(rows, op.key) &&
      Admits(s.limits, rows, Total(rows), op.key, |op.data|)
    case StoreValue(op) =>
      op.Put? && s.data == rows && s.size == Total(Assign(rows, op.key, op.data)) &&
      Admits(s.limits, rows, Total(rows), op.key, |op.data|)
    case ShrinkSize(op, gone) =>
      op.Delete? && Find(rows, op.key).Some? && s.data == Remove(rows, op.key) &&
      s.size == Total(rows) && gone == StoredSize(rows, op.key)
    case Leaving(op, answer) => (s.data, answer) == Apply(s.limits, rows, op) && s.size == Total(s.data)
    case _ => s.data == rows && s.size == Total(rows)
  }

  predicate Consistent(s: Shared, pc: Pc) {
    Faithful(s.limits, s.log) && Progress(s, pc, Sequential(s.limits, s.log))
  }

  predicate MutualExclusion(s: State) {
    (s.shared.holder.Some? ==> s.shared.holder.value < |s.threads|) &&
    forall i :: 0 <= i < |s.threads| ==> (Inside(s.threads[i]) <==> s.shared.holder == Some(i))
  }

  /** A thread that has finished holds the answer logged for it. */
  predicate Logged(s: Shared, t: nat, pc: Pc) {
    pc.Finished? ==> pc.at < |s.log| && s.log[pc.at] == Entry(t, pc.op, pc.answer)
  }

  predicate Invariant(s: State) {
    MutualExclusion(s) && Consistent(s.shared, Holder(s)) &&
    forall i :: 0 <= i < |s.threads| ==> Logged(s.shared, i, s.threads[i])
  }

  lemma LeavingIsLogged(s: Shared, t: nat, op: Op, answer: Answer)
    requires Consistent(s, Leaving(op, answer))
    ensures Consistent(s.(holder := None, log := s.log + [Entry(t, op, answer)]), Idle)
  {
    LogSnoc(s.limits, s.log, Entry(t, op, answer));
  }

  lemma LogSnoc(limits: Limits, log: seq<Entry>, e: Entry)
    requires Faithful(limits, log) && e.answer == Apply(limits, Sequential(limits, log), e.op).1
    ensures Faithful(limits, log + [e])
    ensures Sequential(limits, log + [e]) == Apply(limits, Sequential(limits, log), e.op).0
  {
    assert (log + [e])[..|log + [e]| - 1] == log;
  }

  /** Inside the lock a statement keeps to the sequential store, and only its holder writes. */
  predicate StepAgrees(s: Shared, pc: Pc, n: Shared, to: Pc, t: nat) {
    (if Inside(to) then n.holder == Some(t) && Consistent(n, to) && (Inside(pc) || s.holder.None?)
     else if Inside(pc) then n.holder.None? && Consistent(n, Idle)
     else n == s) &&
    s.log <= n.log && n.limits == s.limits
  }

  lemma EnteredAgrees(s: Shared, op: Op, t: nat)
    requires s.holder == Some(t) && Consistent(s, Entered(op))
    ensures StepAgrees(s, Entered(op), Advance(s, Entered(op), t, None).0, Advance(s, Entered(op), t, None).1, t)
  {
    match op
    case Put(_, _) =>
    case Get(_) =>
    case Delete(_) =>
    case Exists(_) =>
    case Scan(_) =>
  }

  lemma PutAgrees(s: Shared, pc: Pc, t: nat)
    requires s.holder == Some(t) && Consistent(s, pc) && (pc.CheckLimits? || pc.SetSize? || pc.StoreValue?)
    ensures StepAgrees(s, pc, Advance(s, pc, t, None).0, Advance(s, pc, t, None).1, t)
  {
    if pc.SetSize? { AssignTotal(s.data, pc.op.key, pc.op.data); }
  }

  lemma AdvanceKeepsConsistent(s: Shared, pc: Pc, t: nat, start: Option<Op>)
    requires if Inside(pc) then s.holder == Some(t) && Consistent(s, pc)
             else s.holder.None? ==> Consistent(s, Idle)
    ensures StepAgrees(s, pc, Advance(s, pc, t, start).0, Advance(s, pc, t, start).1, t)
  {
    match pc
    case Entered(op) =>
      EnteredAgrees(s, op, t);
      assert Advance(s, pc, t, start) == Advance(s, pc, t, None);
    case CheckLimits(_, _) => PutAgrees(s, pc, t);
    case SetSize(_, _) => PutAgrees(s, pc, t);
    case StoreValue(_) => PutAgrees(s, pc, t);
    case Leaving(op, answer) => LeavingIsLogged(s, t, op, answer);
    case ShrinkSize(op, _) => RemoveTotal(Sequential(s.limits, s.log), op.key);
    case _ =>
  }

  lemma AdvanceKeepsLogged(s: Shared, pc: Pc, t: nat, start: Option<Op>)
    requires Logged(s, t, pc)
    ensures Logged(Advance(s, pc, t, start).0, t, Advance(s, pc, t, start).1)
  {
  }

  lemma {:induction false} StepKeepsInvariant(s: State, m: Move)
    requires Invariant(s)
    ensures Invariant(Next(s, m)) && Next(s, m).shared.limits == s.shared.limits
  {
    if m.thread < |s.threads| {
      var t := m.thread;
      AdvanceKeepsConsistent(s.shared, s.threads[t], t, m.start);
      AdvanceKeepsLogged(s.shared, s.threads[t], t, m.start);
      var n := Next(s, m);
      forall i | 0 <= i < |n.threads|
        ensures (Inside(n.threads[i]) <==> n.shared.holder == Some(i)) && Logged(n.shared, i, n.threads[i]) {
        if i != t {
          assert n.threads[i] == s.threads[i] && Logged(s.shared, i, s.threads[i]);
        }
      }
    }
  }

  lemma {:induction false} RunKeepsInvariant(s: State, moves: seq<Move>)
    requires Invariant(s)
    ensures Invariant(Run(s, moves)) && Run(s, moves).shared.limits == s.shared.limits
    decreases moves
  {
    if moves != [] {
      StepKeepsInvariant(s, moves[0]);
      RunKeepsInvariant(Next(s, moves[0]), moves[1..]);
    }
  }

  /** Under every interleaving: whenever the lock is free the size is the sum of the stored lengths and the items are
      those of the sequential store run in lock order; every answer ever given is that store's answer. */
  lemma EveryRunIsSequential(threads: nat, limits: Limits, moves: seq<Move>)
    ensures var s := Run(Initial(threads, limits), moves); var c := s.shared;
      c.limits == limits && Faithful(limits, c.log) &&
      (c.holder.None? ==> c.size == Total(c.data) && c.data == Sequential(limits, c.log)) &&
      forall i :: 0 <= i < |s.threads| && s.threads[i].Finished? ==>
        s.threads[i].at < |c.log| && c.log[s.threads[i].at] == Entry(i, s.threads[i].op, s.threads[i].answer)
  {
    RunKeepsInvariant(Initial(threads, limits), moves);
  }

  function Ops(log: seq<Entry>): seq<Op> {
    if log == [] then [] else Ops(log[..|log| - 1]) + [log[|log| - 1].op]
  }

  /** The sequential store in lock order is the store of a plain run, so what holds of every run holds here. */
  lemma {:induction false} SequentialIsReplay(limits: Limits, log: seq<Entry>)
    ensures Sequential(limits, log) == Replay(limits, [], Ops(log))
  {
    if log != [] {
      SequentialIsReplay(limits, log[..|log| - 1]);
      ReplayAppend(limits, [], Ops(log[..|log| - 1]), log[|log| - 1].op);
    }
  }

  lemma {:induction false} ReplayAppend(limits: Limits, rows: seq<Row>, ops: seq<Op>, op: Op)
    ensures Replay(limits, rows, ops + [op]) == Apply(limits, Replay(limits, rows, ops), op).0
    decreases ops
  {
    if ops == [] {
      assert (ops + [op])[1..] == [];
    } else {
      assert (ops + [op])[1..] == ops[1..] + [op];
      ReplayAppend(limits, Apply(limits, rows, ops[0]).0, ops[1..], op);
    }
  }

  /** With non-negative limits, no interleaving ever leaves the lock with a store beyond them. */
  lemma LimitsHoldWhenFree(threads: nat, limits: Limits, moves: seq<Move>)
    requires limits.NonNegative()
    ensures var c := Run(Initial(threads, limits), moves).shared;
      c.holder.None? ==> limits.Hold(c.data)
  {
    EveryRunIsSequential(threads, limits, moves);
    var c := Run(Initial(threads, limits), moves).shared;
    SequentialIsReplay(limits, c.log);
    ReachableWithinLimits(limits, Ops(c.log));
  }

  // ---- a thread that is alone

  lemma RunOne(s: State, m: Move, rest: seq<Move>)
    ensures Run(s, [m] + rest) == Run(Next(s, m), rest)
  {
    assert ([m] + rest)[1..] == rest;
  }

  /** The thread holds the lock; its own statements bring it to its answer, which is that of the sequential store. */
  lemma {:induction false} StatementsEnd(s: State, t: nat, fuel: nat) returns (moves: seq<Move>)
    requires Invariant(s) && t < |s.threads| && Inside(s.threads[t]) && fuel == Ahead(s.threads[t])
    ensures var pc := s.threads[t]; var n := Run(s, moves);
      var rows := Sequential(s.shared.limits, s.shared.log);
      |n.threads| == |s.threads| && n.shared.holder.None? && n.shared.data == Apply(s.shared.limits, rows, pc.op).0 &&
      n.threads[t] == Finished(pc.op, Apply(s.shared.limits, rows, pc.op).1, |s.shared.log|)
    decreases fuel
  {
    var go := Move(t, None);
    var n := Next(s, go);
    StepKeepsInvariant(s, go);
    if s.threads[t].Leaving? {
      moves := [go];
      RunOne(s, go, []);
      assert [go] + [] == [go];
    } else {
      assert n.shared.log == s.shared.log && n.threads[t].op == s.threads[t].op;
      var more := StatementsEnd(n, t, Ahead(n.threads[t]));
      moves := [go] + more;
      RunOne(s, go, more);
    }
  }

  /** How many statements lie ahead at most. */
  function Ahead(pc: Pc): nat {
    match pc
    case Entered(_) => 5
    case CheckLimits(_, _) => 4
    case SetSize(_, _) => 3
    case StoreValue(_) => 2
    case ShrinkSize(_, _) => 2
    case Leaving(_, _) => 1
    case _ => 6
  }

  /** An operation that meets nobody else ends: it frees the lock, leaves the store that the sequential one makes, and gives
      its answer. */
  lemma AloneFinishes(threads: nat, limits: Limits, before: seq<Move>, t: nat, op: Op) returns (moves: seq<Move>)
    requires t < threads
    ensures var s := Run(Initial(threads, limits), before);
      |s.threads| == threads && (s.threads[t] == Idle && s.shared.holder.None? ==>
        var n := Run(s, moves); var (rows, answer) := Apply(limits, s.shared.data, op);
        |n.threads| == threads && n.shared.holder.None? && n.shared.data == rows &&
        n.threads[t] == Finished(op, answer, |s.shared.log|))
  {
    var s := Run(Initial(threads, limits), before);
    RunKeepsInvariant(Initial(threads, limits), before);
    moves := [];
    KeepsThreads(Initial(threads, limits), before);
    if s.threads[t] == Idle && s.shared.holder.None? {
      var start, go := Move(t, Some(op)), Move(t, None);
      var s1 := Next(s, start);
      var s2 := Next(s1, go);
      StepKeepsInvariant(s, start);
      StepKeepsInvariant(s1, go);
      var more := StatementsEnd(s2, t, Ahead(s2.threads[t]));
      moves := [start] + ([go] + more);
      RunOne(s, start, [go] + more);
      RunOne(s1, go, more);
    }
  }

  lemma {:induction false} KeepsThreads(s: State, moves: seq<Move>)
    ensures |Run(s, moves).threads| == |s.threads|
    decreases moves
  {
    if moves != [] { KeepsThreads(Next(s, moves[0]), moves[1..]); }
  }
}
