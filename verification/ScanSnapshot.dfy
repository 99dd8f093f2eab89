/** Scanning the memory store: the keys are listed at the first pull, whatever happens before and after. */
module ScanSnapshot {
  import opened Basics
  import opened Rows
  import opened Operations
  import opened MemoryStore

  /** An iterator over a scan: not started, or with these keys still to give. */
  datatype Cursor = NotStarted | Left(keys: seq<string>)

  /** One pull; None stands for the end of the iteration. */
  function Pull(rows: seq<Row>, prefix: string, c: Cursor): (Option<string>, Cursor) {
    var left := if c.NotStarted? then KeysWithPrefix(rows, prefix) else c.keys;
    if left == [] then (None, Left([])) else (Some(left[0]), Left(left[1..]))
  }

  /** AsyncIterWrapper around the scan of a store; the generator of the synchronous scan behaves alike. */
  class AsyncIterWrapper {
    const store: MemoryBlob
    const prefix: string
    var snapshot: Option<seq<string>>
    var index: nat

    ghost predicate Valid()
      reads this
    {
      snapshot.Some? ==> index <= |snapshot.value|
    }

    ghost function State(): Cursor
      requires Valid()
      reads this
    {
      if snapshot.None? then NotStarted else Left(snapshot.value[index..])
    }

    constructor (store: MemoryBlob, prefix: string)
      ensures Valid() && State() == NotStarted && this.store == store && this.prefix == prefix
    {
      this.store, this.prefix := store, prefix;
      snapshot, index := None, 0;
    }

    method Next() returns (r: Option<string>)
      requires Valid() && store.Valid()
      modifies this
      ensures Valid() && (r, State()) == Pull(store.data, prefix, old(State()))
    {
      if snapshot.None? {
        var listed := store.Scan(prefix);
        snapshot, index := Some(listed.keys), 0;
        assert snapshot.value[0..] == snapshot.value;
      }
      if index == |snapshot.value| { return None; }
      r := Some(snapshot.value[index]);
      index := index + 1;
    }
  }

  /** What happens to a store with a scan under way: an operation by anyone, or a pull by the consumer. */
  datatype Event = Call(op: Op) | Next

  /** What the consumer receives, pull by pull. */
  function Received(limits: Limits, rows: seq<Row>, prefix: string, c: Cursor, events: seq<Event>): seq<Option<string>>
    decreases events
  {
    if events == [] then []
    else match events[0]
      case Call(op) => Received(limits, Apply(limits, rows, op).0, prefix, c, events[1..])
      case Next =>
        var (r, after) := Pull(rows, prefix, c);
        [r] + Received(limits, rows, prefix, after, events[1..])
  }

  /** The store when the first pull comes. */
  function AtFirstPull(limits: Limits, rows: seq<Row>, events: seq<Event>): seq<Row>
    decreases events
  {
    if events == [] || events[0].Next? then rows
    else AtFirstPull(limits, Apply(limits, rows, events[0].op).0, events[1..])
  }

  function Pulls(events: seq<Event>): nat {
    if events == [] then 0 else (if events[0].Next? then 1 else 0) + Pulls(events[1..])
  }

  /** The first `n` answers of an iteration over `keys`: the keys in turn, then its end for ever. */
  function Iteration(keys: seq<string>, n: nat): seq<Option<string>> {
    if n == 0 then []
    else if keys == [] then [None] + Iteration([], n - 1)
    else [Some(keys[0])] + Iteration(keys[1..], n - 1)
  }

  lemma {:induction false} StartedIsFixed(limits: Limits, rows: seq<Row>, prefix: string, keys: seq<string>, events: seq<Event>)
    ensures Received(limits, rows, prefix, Left(keys), events) == Iteration(keys, Pulls(events))
    decreases events
  {
    if events != [] {
      match events[0]
      case Call(op) => StartedIsFixed(limits, Apply(limits, rows, op).0, prefix, keys, events[1..]);
      case Next => StartedIsFixed(limits, rows, prefix, if keys == [] then [] else keys[1..], events[1..]);
    }
  }

  /** For any operations before the first pull and between later ones, the consumer receives exactly the matching
      keys present at the first pull, in insertion order and then the end. */
  lemma {:induction false} ScanIsSnapshot(limits: Limits, rows: seq<Row>, prefix: string, events: seq<Event>)
    ensures Received(limits, rows, prefix, NotStarted, events)
         == Iteration(KeysWithPrefix(AtFirstPull(limits, rows, events), prefix), Pulls(events))
    decreases events
  {
    if events != [] {
      match events[0]
      case Call(op) => ScanIsSnapshot(limits, Apply(limits, rows, op).0, prefix, events[1..]);
      case Next =>
        var keys := KeysWithPrefix(rows, prefix);
        StartedIsFixed(limits, rows, prefix, if keys == [] then [] else keys[1..], events[1..]);
    }
  }

  /** The keys of a snapshot are the matching keys of the map at that time, each once. */
  lemma SnapshotIsMatching(limits: Limits, ops: seq<Op>, prefix: string)
    ensures var keys := KeysWithPrefix(Replay(limits, [], ops), prefix);
      Distinct(keys) && forall k :: k in keys <==> k in Matching(AsMap(Replay(limits, [], ops)), prefix)
  {
    ReplayUnique(limits, [], ops);
    ScanListsMatching(Replay(limits, [], ops), prefix);
  }
}
