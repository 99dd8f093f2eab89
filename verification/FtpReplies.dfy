/** Reading FTP replies (section 4.2 of RFC 959) off a control connection that delivers bytes in any pieces. */
module FtpReplies {
  import opened Basics

  const CR: byte := 13
  const LF: byte := 10
  const CRLF: bytes := [CR, LF]
  const SPACE: byte := 32
  const HYPHEN: byte := 45
  const MIN_FTP_RESPONSE := 4

  // ---- bytes_to_int and its range checks

  predicate IsDigit(b: byte) {
    48 <= b <= 57
  }

  /** The bytes that Python's int() and split() take for white space. */
  predicate IsSpace(b: byte) {
    b == 32 || 9 <= b <= 13
  }

  function TrimLeft(b: bytes): bytes {
    if b != [] && IsSpace(b[0]) then TrimLeft(b[1..]) else b
  }

  function TrimRight(b: bytes): bytes {
    if b != [] && IsSpace(b[|b| - 1]) then TrimRight(b[..|b| - 1]) else b
  }

  /** Digits with single underscores between them, read after the value `acc`. */
  function DigitsValue(b: bytes, acc: nat, afterDigit: bool): Option<nat> {
    if b == [] then (if afterDigit then Some(acc) else None)
    else
      var d: int := b[0];
      if IsDigit(b[0]) then DigitsValue(b[1..], acc * 10 + (d - 48), true)
      else if d == 95 && afterDigit then DigitsValue(b[1..], acc, false)
      else None
  }

  function DigitCount(b: bytes): nat {
    if b == [] then 0 else (if IsDigit(b[0]) then 1 else 0) + DigitCount(b[1..])
  }

  const MAX_INT_DIGITS := 4300

  /** Python's `int(b)`; None stands for ValueError. */
  function BytesToInt(b: bytes): Option<int> {
    SignedValue(TrimRight(TrimLeft(b)))
  }

  function SignedValue(t: bytes): Option<int> {
    var signed := t != [] && (t[0] == 43 || t[0] == 45);
    var digits := if signed then t[1..] else t;
    var value := DigitsValue(digits, 0, false);
    if value.None? || DigitCount(digits) > MAX_INT_DIGITS then None
    else
      var n: int := value.value;
      Some(if signed && t[0] == 45 then -n else n)
  }

  function BytesToIntRange(b: bytes, low: int, high: int): Option<int> {
    var n := BytesToInt(b);
    if n.None? || n.value < low || n.value > high then None else n
  }

  /** The value of decimal digits. */
  function Positional(digits: bytes): int {
    if digits == [] then 0 else Positional(digits[..|digits| - 1]) * 10 + digits[|digits| - 1] - 48
  }

  predicate Digits(b: bytes) {
    forall i :: 0 <= i < |b| ==> 48 <= b[i] <= 57
  }

  predicate Spaces(b: bytes) {
    forall i :: 0 <= i < |b| ==> b[i] == 32 || 9 <= b[i] <= 13
  }

  lemma {:induction false} DigitsSnoc(b: bytes, x: byte, acc: nat, afterDigit: bool)
    requires Digits(b) && 48 <= x <= 57
    ensures DigitsValue(b + [x], acc, afterDigit) ==
      var v := DigitsValue(b, acc, true); if v.None? then None else Some(v.value * 10 + (x - 48))
  {
    if b == [] {
      assert ([] + [x])[1..] == [];
    } else {
      assert (b + [x])[1..] == b[1..] + [x];
      var d: int := b[0];
      DigitsSnoc(b[1..], x, acc * 10 + (d - 48), true);
    }
  }

  lemma {:induction false} DigitsRead(b: bytes)
    requires Digits(b) && b != []
    ensures DigitsValue(b, 0, false) == Some(Positional(b)) && DigitCount(b) == |b|
    decreases |b|
  {
    var most, last := b[..|b| - 1], b[|b| - 1];
    assert b == most + [last];
    DigitsSnoc(most, last, 0, false);
    if most != [] {
      DigitsRead(most);
      assert DigitsValue(most, 0, true) == DigitsValue(most, 0, false);
    }
    DigitsCounted(b);
  }

  lemma {:induction false} DigitsCounted(b: bytes)
    requires Digits(b)
    ensures DigitCount(b) == |b|
  {
    if b != [] { DigitsCounted(b[1..]); }
  }

  lemma {:induction false} SpacesBefore(before: bytes, b: bytes)
    requires Spaces(before) && b != [] && !IsSpace(b[0])
    ensures TrimLeft(before + b) == b
  {
    if before == [] {
      assert before + b == b;
    } else {
      assert (before + b)[1..] == before[1..] + b;
      SpacesBefore(before[1..], b);
    }
  }

  lemma {:induction false} SpacesBehind(b: bytes, after: bytes)
    requires Spaces(after) && b != [] && !IsSpace(b[|b| - 1])
    ensures TrimRight(b + after) == b
    decreases after
  {
    if after == [] {
      assert b + after == b;
    } else {
      assert (b + after)[..|b + after| - 1] == b + after[..|after| - 1];
      SpacesBehind(b, after[..|after| - 1]);
    }
  }

  /** A number is read with white space around it and a sign in front, up to 4300 digits. */
  lemma NumberRead(before: bytes, sign: bytes, digits: bytes, after: bytes)
    requires Spaces(before) && Spaces(after) && Digits(digits) && digits != [] && (sign == [] || sign == [43] || sign == [45])
    ensures BytesToInt(before + (sign + digits) + after) ==
      if |digits| > 4300 then None else Some(if sign == [45] then -Positional(digits) else Positional(digits))
  {
    SignedEnds(sign, digits);
    Trimmed(before, sign + digits, after);
    DigitsRead(digits);
    SignRead(sign, digits);
  }

  lemma Trimmed(before: bytes, t: bytes, after: bytes)
    requires Spaces(before) && Spaces(after) && t != [] && !IsSpace(t[0]) && !IsSpace(t[|t| - 1])
    ensures TrimRight(TrimLeft(before + t + after)) == t
  {
    assert before + t + after == before + (t + after) && (t + after)[0] == t[0];
    SpacesBefore(before, t + after);
    SpacesBehind(t, after);
  }

  lemma SignedEnds(sign: bytes, digits: bytes)
    requires Digits(digits) && digits != [] && (sign == [] || sign == [43] || sign == [45])
    ensures var t := sign + digits; t != [] && !IsSpace(t[0]) && !IsSpace(t[|t| - 1])
  {
    var t := sign + digits;
    assert t[|t| - 1] == digits[|digits| - 1];
  }

  lemma SignRead(sign: bytes, digits: bytes)
    requires digits != [] && Digits(digits) && (sign == [] || sign == [43] || sign == [45])
    requires DigitsValue(digits, 0, false) == Some(Positional(digits)) && DigitCount(digits) == |digits|
    ensures SignedValue(sign + digits) ==
      if |digits| > 4300 then None else Some(if sign == [45] then -Positional(digits) else Positional(digits))
  {
    var t := sign + digits;
    if sign == [] { assert t == digits; } else { assert t[0] == sign[0] && t[1..] == digits; }
  }

  /** Digits may have single underscores between them. */
  lemma {:induction false} UnderscoreRead(a: bytes, b: bytes, acc: nat)
    requires Digits(a) && a != [] && b != [] && 48 <= b[0] <= 57
    ensures DigitsValue(a + [95] + b, acc, false) == DigitsValue(a + b, acc, false)
  {
    var d: int := a[0];
    var s, t := a + [95] + b, a + b;
    assert s[1..] == a[1..] + [95] + b && t[1..] == a[1..] + b;
    if |a| == 1 {
      assert t[1..] == b && s[1..][1..] == b && s[1..][0] == 95;
      AfterDigit(b, acc * 10 + (d - 48));
    } else {
      UnderscoreRead(a[1..], b, acc * 10 + (d - 48));
      AfterDigit(s[1..], acc * 10 + (d - 48));
      AfterDigit(t[1..], acc * 10 + (d - 48));
    }
  }

  /** An underscore does not count as a digit. */
  lemma {:induction false} UnderscoreCounts(a: bytes, b: bytes)
    ensures DigitCount(a + [95] + b) == DigitCount(a + b)
  {
    var s, t := a + [95] + b, a + b;
    if a == [] {
      assert s[1..] == b && t == b && s[0] == 95;
    } else {
      assert s[1..] == a[1..] + [95] + b && t[1..] == a[1..] + b;
      UnderscoreCounts(a[1..], b);
    }
  }

  /** Two underscores together, or one in front or behind, make it no number. */
  lemma {:induction false} UnderscoreRefused(a: bytes, b: bytes, acc: nat, afterDigit: bool)
    requires Digits(a)
    ensures DigitsValue(a + [95, 95] + b, acc, afterDigit).None? && DigitsValue(a + [95], acc, afterDigit).None?
    ensures DigitsValue([95] + b, acc, false).None?
  {
    var s, t := a + [95, 95] + b, a + [95];
    if a == [] {
      assert s[0] == 95 && s[1..] == [95] + b && t[1..] == [];
    } else {
      assert s[1..] == a[1..] + [95, 95] + b && t[1..] == a[1..] + [95];
      var d: int := a[0];
      UnderscoreRefused(a[1..], b, acc * 10 + (d - 48), true);
    }
  }

  lemma AfterDigit(b: bytes, acc: nat)
    requires b != [] && IsDigit(b[0])
    ensures DigitsValue(b, acc, true) == DigitsValue(b, acc, false)
  {
  }

  /** White space is taken off both ends, and nothing else. */
  lemma {:induction false} TrimmedLeft(b: bytes)
    ensures var n := |b| - |TrimLeft(b)|;
      0 <= n && TrimLeft(b) == b[n..] && Spaces(b[..n]) && (n < |b| ==> b[n] != 32 && !(9 <= b[n] <= 13))
  {
    if b != [] && IsSpace(b[0]) {
      TrimmedLeft(b[1..]);
      var n := |b| - |TrimLeft(b)|;
      forall i | 0 <= i < n ensures b[i] == 32 || 9 <= b[i] <= 13 {
        if i > 0 { assert b[i] == b[1..][..n - 1][i - 1]; }
      }
    }
  }

  lemma {:induction false} TrimmedRight(b: bytes)
    ensures var n := |TrimRight(b)|;
      n <= |b| && TrimRight(b) == b[..n] && Spaces(b[n..]) && (n > 0 ==> b[n - 1] != 32 && !(9 <= b[n - 1] <= 13))
    decreases |b|
  {
    if b != [] && IsSpace(b[|b| - 1]) {
      TrimmedRight(b[..|b| - 1]);
      var n := |TrimRight(b)|;
      forall i | 0 <= i < |b| - n ensures b[n..][i] == 32 || 9 <= b[n..][i] <= 13 {
        if i < |b| - 1 - n { assert b[n..][i] == b[..|b| - 1][n..][i]; }
      }
    }
  }

  predicate Letter(x: byte) {
    48 <= x <= 57 || x == 43 || x == 45 || x == 95 || x == 32 || 9 <= x <= 13
  }

  /** What is read is digits, signs, underscores and white space, with a digit in it. */
  lemma NumberLetters(b: bytes)
    requires BytesToInt(b).Some?
    ensures (exists i :: 0 <= i < |b| && 48 <= b[i] <= 57) && forall i :: 0 <= i < |b| ==> Letter(b[i])
  {
    var u := TrimLeft(b);
    var t := TrimRight(u);
    TrimmedLeft(b);
    TrimmedRight(u);
    var m, n := |b| - |u|, |t|;
    var first := if t != [] && (t[0] == 43 || t[0] == 45) then 1 else 0;
    DigitLetters(t[first..], 0, false);
    assert t[0..] == t;
    forall i | 0 <= i < |b| ensures Letter(b[i]) {
      if i < m { assert b[i] == b[..m][i]; }
      else if i < m + n { assert b[i] == t[i - m]; if i - m >= first { assert t[i - m] == t[first..][i - m - first]; } }
      else { assert b[i] == u[n..][i - m - n]; }
    }
    var k :| 0 <= k < |t[first..]| && 48 <= t[first..][k] <= 57;
    assert b[m + first + k] == t[first..][k];
  }

  lemma {:induction false} DigitLetters(b: bytes, acc: nat, afterDigit: bool)
    requires DigitsValue(b, acc, afterDigit).Some?
    ensures forall i :: 0 <= i < |b| ==> 48 <= b[i] <= 57 || b[i] == 95
    ensures !afterDigit || b != [] ==> exists i :: 0 <= i < |b| && 48 <= b[i] <= 57
  {
    if b != [] {
      var d: int := b[0];
      if IsDigit(b[0]) {
        DigitLetters(b[1..], acc * 10 + (d - 48), true);
      } else {
        DigitLetters(b[1..], acc, false);
        var k :| 0 <= k < |b[1..]| && 48 <= b[1..][k] <= 57;
        assert b[k + 1] == b[1..][k];
      }
    }
  }

  // ---- lines and replies in a stream

  /** Where the first CRLF starts; the length if there is none. */
  function FindCrlf(s: bytes): (i: nat)
    ensures i <= |s| && (i < |s| ==> i + 2 <= |s|)
  {
    if |s| < 2 then |s|
    else if s[0] == CR && s[1] == LF then 0
    else 1 + FindCrlf(s[1..])
  }

  predicate HasCrlf(s: bytes) {
    FindCrlf(s) < |s|
  }

  function FirstLine(s: bytes): bytes {
    s[..FindCrlf(s)]
  }

  function AfterLine(s: bytes): (rest: bytes)
    requires HasCrlf(s)
    ensures |rest| < |s|
  {
    s[FindCrlf(s) + 2..]
  }

  datatype Parsed =
    | Complete(code: int, lines: seq<bytes>, rest: bytes)
    | Malformed(rest: bytes)
    | Incomplete(rest: bytes)

  predicate Terminates(line: bytes, first: bytes)
    requires |first| >= MIN_FTP_RESPONSE
  {
    |line| >= MIN_FTP_RESPONSE && line[..3] == first[..3] && line[3] == SPACE
  }

  /** The rest of a multi-line reply, after `lines`. */
  function ParseMore(code: int, first: bytes, lines: seq<bytes>, s: bytes): Parsed
    requires |first| >= MIN_FTP_RESPONSE
    decreases |s|
  {
    if !HasCrlf(s) then Incomplete(s)
    else if Terminates(FirstLine(s), first) then Complete(code, lines + [FirstLine(s)], AfterLine(s))
    else ParseMore(code, first, lines + [FirstLine(s)], AfterLine(s))
  }

  /** What a reply reader makes of a stream of bytes. */
  function ParseReply(s: bytes): Parsed {
    if !HasCrlf(s) then Incomplete(s)
    else
      var first := FirstLine(s);
      if |first| < MIN_FTP_RESPONSE then Malformed(AfterLine(s))
      else
        var code := BytesToIntRange(first[..3], 0, 999);
        if code.None? then Malformed(AfterLine(s))
        else if first[3] == HYPHEN then ParseMore(code.value, first, [first], AfterLine(s))
        else Complete(code.value, [first], AfterLine(s))
  }

  // ---- the reader

  /** What a receive call on a socket gives; an empty piece is the end of the stream. */
  datatype Recv = Data(data: bytes) | TimedOut | OsError

  /** The bytes that will arrive before the connection ends or fails. */
  function Bytes(events: seq<Recv>): bytes {
    if events == [] || !events[0].Data? || events[0].data == [] then []
    else events[0].data + Bytes(events[1..])
  }

  /** No failure and no empty piece. */
  predicate Steady(events: seq<Recv>) {
    events == [] || (events[0].Data? && events[0].data != [] && Steady(events[1..]))
  }

  /** A buffer and what is still to be received, once receive calls have filled it up to `n` bytes at least. */
  function Gathered(buffer: bytes, events: seq<Recv>, n: nat): (bytes, seq<Recv>)
    decreases |events|
  {
    if |buffer| >= n || events == [] || !events[0].Data? || events[0].data == [] then (buffer, events)
    else Gathered(buffer + events[0].data, events[1..], n)
  }

  /** What is left to receive once the connection has ended or failed. */
  function AfterEnd(events: seq<Recv>): seq<Recv> {
    if events == [] then []
    else if events[0].Data? && events[0].data != [] then AfterEnd(events[1..])
    else events[1..]
  }

  /** The same when the first `n` bytes have been taken: the buffer holds what the last piece brought beyond them. */
  function Taken(buffer: bytes, events: seq<Recv>, n: nat): (bytes, seq<Recv>) {
    var (all, left) := Gathered(buffer, events, n);
    (if n <= |all| then all[n..] else [], left)
  }

  lemma {:induction false} GatheredAfter(buffer: bytes, events: seq<Recv>, n: nat, m: nat)
    requires n <= |buffer|
    ensures var (all, left) := Gathered(buffer, events, n + m);
      n <= |all| && Gathered(buffer[n..], events, m) == (all[n..], left)
    decreases |events|
  {
    if !(|buffer| >= n + m || events == [] || !events[0].Data? || events[0].data == []) {
      assert (buffer + events[0].data)[n..] == buffer[n..] + events[0].data;
      GatheredAfter(buffer + events[0].data, events[1..], n, m);
    }
  }

  lemma TakenAll(buffer: bytes, events: seq<Recv>)
    ensures Taken(buffer, events, 0) == (buffer, events)
  {
    assert buffer[0..] == buffer;
  }

  /** Taking bytes in two steps is taking them in one. */
  lemma {:induction false} TakenTwice(buffer: bytes, events: seq<Recv>, n: nat, m: nat)
    requires n + m <= |buffer| + |Bytes(events)|
    ensures var (b, e) := Taken(buffer, events, n); Taken(b, e, m) == Taken(buffer, events, n + m)
    decreases |events|
  {
    if |buffer| >= n {
      GatheredAfter(buffer, events, n, m);
      var (all, left) := Gathered(buffer, events, n + m);
      GatheredFills(buffer, events, n + m);
      assert all[n..][m..] == all[n + m..];
    } else {
      assert buffer + Bytes(events) == buffer + events[0].data + Bytes(events[1..]);
      TakenTwice(buffer + events[0].data, events[1..], n, m);
    }
  }

  lemma {:induction false} GatheredFills(buffer: bytes, events: seq<Recv>, n: nat)
    requires n <= |buffer| + |Bytes(events)|
    ensures n <= |Gathered(buffer, events, n).0|
    ensures Gathered(buffer, events, n).0 + Bytes(Gathered(buffer, events, n).1) == buffer + Bytes(events)
    decreases |events|
  {
    if |buffer| < n {
      assert buffer + Bytes(events) == buffer + events[0].data + Bytes(events[1..]);
      GatheredFills(buffer + events[0].data, events[1..], n);
    }
  }

  /** What is left in the buffer when the first `n` of the bytes in these pieces have been read: the rest of the piece
      in which they end, and nothing exactly when some pieces together are those bytes. */
  lemma {:induction false} LeftoverOfPieces(chunks: seq<bytes>, n: nat)
    requires [] !in chunks && n <= |Flatten(chunks)|
    ensures Taken([], Pieces(chunks), n).0 == [] <==> exists i :: 0 <= i <= |chunks| && |Flatten(chunks[..i])| == n
  {
    GatheredPieces([], chunks, n);
  }

  lemma {:induction false} GatheredPieces(buffer: bytes, chunks: seq<bytes>, n: nat)
    requires [] !in chunks && |buffer| <= n <= |buffer + Flatten(chunks)|
    ensures n <= |Gathered(buffer, Pieces(chunks), n).0|
    ensures |Gathered(buffer, Pieces(chunks), n).0| == n <==>
      exists i :: 0 <= i <= |chunks| && |buffer| + |Flatten(chunks[..i])| == n
    decreases chunks
  {
    if |buffer| == n {
      assert |Flatten(chunks[..0])| == 0;
    } else {
      var next := buffer + chunks[0];
      assert chunks[0] in chunks && Pieces(chunks)[1..] == Pieces(chunks[1..]);
      assert buffer + Flatten(chunks) == next + Flatten(chunks[1..]);
      FlattenTakes(chunks);
      if |next| <= n {
        GatheredPieces(next, chunks[1..], n);
        if i :| 0 <= i <= |chunks[1..]| && |next| + |Flatten(chunks[1..][..i])| == n {
          assert chunks[1..][..i] == chunks[..i + 1][1..];
          assert |buffer| + |Flatten(chunks[..i + 1])| == n;
        }
        if i :| 0 <= i <= |chunks| && |buffer| + |Flatten(chunks[..i])| == n {
          assert i > 0 by { assert Flatten(chunks[..0]) == []; }
          assert chunks[..i][1..] == chunks[1..][..i - 1];
        }
      } else {
        assert Gathered(buffer, Pieces(chunks), n).0 == next;
      }
    }
  }

  lemma FlattenTakes(chunks: seq<bytes>)
    requires chunks != []
    ensures Flatten(chunks[..0]) == []
    ensures forall i :: 0 < i <= |chunks| ==> Flatten(chunks[..i]) == chunks[0] + Flatten(chunks[..i][1..])
  {
  }

  lemma TakenIsRest(buffer: bytes, events: seq<Recv>, n: nat)
    requires n <= |buffer| + |Bytes(events)|
    ensures var (b, e) := Taken(buffer, events, n);
      b + Bytes(e) == (buffer + Bytes(events))[n..] && AfterEnd(e) == AfterEnd(events) && (Steady(events) ==> Steady(e))
  {
    GatheredFills(buffer, events, n);
    GatheredEnds(buffer, events, n);
    var (all, left) := Gathered(buffer, events, n);
    assert (all + Bytes(left))[n..] == all[n..] + Bytes(left);
  }

  lemma NextTaken(b: bytes, e: seq<Recv>, n: nat, buffer: bytes, events: seq<Recv>, m: nat)
    requires n + |buffer| + |Bytes(events)| == |b| + |Bytes(e)| && (buffer, events) == Taken(b, e, n)
    requires m <= |buffer| + |Bytes(events)|
    ensures AfterEnd(events) == AfterEnd(e) && Taken(buffer, events, m) == Taken(b, e, n + m)
  {
    TakenIsRest(b, e, n);
    TakenTwice(b, e, n, m);
  }

  lemma LineEnds(s: bytes)
    requires HasCrlf(s)
    ensures |AfterLine(s)| + FindCrlf(s) + 2 == |s|
  {
  }

  lemma {:induction false} GatheredEnds(buffer: bytes, events: seq<Recv>, n: nat)
    ensures var left := Gathered(buffer, events, n).1;
      AfterEnd(left) == AfterEnd(events) && (Steady(events) ==> Steady(left))
    decreases |events|
  {
    if !(|buffer| >= n || events == [] || !events[0].Data? || events[0].data == []) {
      GatheredEnds(buffer + events[0].data, events[1..], n);
    }
  }

  lemma StreamLeft(b: bytes, e: seq<Recv>)
    ensures Steady(e) ==> AfterEnd(e) == [] && forall n :: 0 <= n <= |b| + |Bytes(e)| ==> Steady(Taken(b, e, n).1)
    ensures forall rest: bytes :: rest + Bytes([]) == rest
  {
    if Steady(e) {
      SteadyEnds(e);
      forall n | 0 <= n <= |b| + |Bytes(e)| ensures Steady(Taken(b, e, n).1) { TakenIsRest(b, e, n); }
    }
  }

  lemma {:induction false} SteadyEnds(events: seq<Recv>)
    requires Steady(events)
    ensures AfterEnd(events) == []
  {
    if events != [] { SteadyEnds(events[1..]); }
  }

  type ReplyText = (int, seq<bytes>)

  /** The control connection: the response buffer, and what receive calls will give next. */
  class ControlChannel {
    var buffer: bytes
    var incoming: seq<Recv>
    ghost var received: bytes
    ghost var consumed: bytes

    /** The buffer holds exactly the bytes received and not consumed. */
    ghost predicate Valid()
      reads this
    {
      received == consumed + buffer
    }

    function Stream(): bytes
      reads this
    {
      buffer + Bytes(incoming)
    }

    constructor ()
      ensures Valid() && buffer == [] && incoming == []
    {
      buffer, incoming, received, consumed := [], [], [], [];
    }

    /** A receive call. */
    method Receive() returns (event: Recv)
      requires Valid()
      modifies this
      ensures buffer == old(buffer) && consumed == old(consumed)
      ensures event == if old(incoming) == [] then Data([]) else old(incoming)[0]
      ensures incoming == if old(incoming) == [] then [] else old(incoming)[1..]
      ensures received == old(received) + if event.Data? then event.data else []
    {
      if incoming == [] { return Data([]); }
      event := incoming[0];
      incoming := incoming[1..];
      if event.Data? { received := received + event.data; }
    }

    /** The part of the buffer before its first CRLF. */
    method TakeLine() returns (line: bytes)
      requires Valid() && HasCrlf(buffer)
      modifies this
      ensures Valid() && incoming == old(incoming)
      ensures HasCrlf(old(Stream())) && line == FirstLine(old(Stream())) && Stream() == AfterLine(old(Stream()))
      ensures consumed == old(consumed) + line + CRLF
      ensures FindCrlf(old(Stream())) == FindCrlf(old(buffer)) && buffer == old(buffer)[FindCrlf(old(buffer)) + 2..]
    {
      CrlfStays(buffer, Bytes(incoming));
      CrlfAt(buffer);
      var at := FindCrlf(buffer);
      line := buffer[..at];
      consumed := consumed + line + CRLF;
      buffer := buffer[at + 2..];
    }

    /** The next line, however the bytes are cut, with no more received than it takes; an error, and everything in the
        buffer, if the connection ends or fails before its CRLF. */
    method ReadLine() returns (r: Outcome<bytes>)
      requires Valid()
      modifies this
      ensures Valid()
      ensures HasCrlf(old(Stream())) ==>
        r == Ok(FirstLine(old(Stream()))) && Stream() == AfterLine(old(Stream())) &&
        consumed == old(consumed) + r.value + CRLF &&
        (buffer, incoming) == Taken(old(buffer), old(incoming), FindCrlf(old(Stream())) + 2)
      ensures !HasCrlf(old(Stream())) ==>
        r == BlobError && consumed == old(consumed) && (buffer, incoming) == (old(Stream()), AfterEnd(old(incoming)))
    {
      ghost var b, e := buffer, incoming;
      while true
        invariant Valid() && consumed == old(consumed) && Filling(b, e, buffer, incoming)
        decreases |incoming|
      {
        if HasCrlf(buffer) {
          FilledLine(b, e, buffer, incoming);
          var line := TakeLine();
          return Ok(line);
        }
        FillingStep(b, e, buffer, incoming);
        var event := Receive();
        if !event.Data? || event.data == [] { return BlobError; }
        buffer := buffer + event.data;
      }
    }

    /** What reading a reply does to a buffer `b` and arrivals `e` whose bytes parse as `p`: a whole reply, or an error if
        it is malformed or the connection ends or fails first. No more is received than the reply takes, and the buffer
        is left with what the last piece brought beyond it. */
    ghost predicate ReadRight(b: bytes, e: seq<Recv>, p: Parsed, r: Outcome<ReplyText>)
      reads this
    {
      match p
      case Complete(code, lines, rest) =>
        r == Ok((code, lines)) && Stream() == rest && |rest| <= |b| + |Bytes(e)| &&
        (buffer, incoming) == Taken(b, e, |b| + |Bytes(e)| - |rest|)
      case Malformed(rest) =>
        r == BlobError && Stream() == rest && |rest| <= |b| + |Bytes(e)| &&
        (buffer, incoming) == Taken(b, e, |b| + |Bytes(e)| - |rest|)
      case Incomplete(rest) => r == BlobError && (buffer, incoming) == (rest, AfterEnd(e))
    }

    /** What is left when the bytes have been parsed as `p`: no more has been received than it takes, and the buffer holds
        what the last piece brought beyond it; or all has been received, and the buffer holds an unfinished line. */
    ghost predicate LeftAfter(b: bytes, e: seq<Recv>, p: Parsed)
      reads this
    {
      match p
      case Incomplete(rest) => (buffer, incoming) == (rest, AfterEnd(e))
      case _ => |p.rest| <= |b| + |Bytes(e)| && (buffer, incoming) == Taken(b, e, |b| + |Bytes(e)| - |p.rest|)
    }

    /** The next reply of the stream. */
    method ReadResponse() returns (r: Outcome<ReplyText>)
      requires Valid()
      modifies this
      ensures Valid() && ReadRight(old(buffer), old(incoming), ParseReply(old(Stream())), r)
    {
      ghost var b, e := buffer, incoming;
      TakenAll(b, e);
      var first;
      ghost var n;
      first, n := NextLine(b, e, 0);
      if !first.Ok? { return BlobError; }
      if |first.value| < MIN_FTP_RESPONSE { return BlobError; }
      var code := BytesToIntRange(first.value[..3], 0, 999);
      if code.None? { return BlobError; }
      if first.value[3] != HYPHEN { return Ok((code.value, [first.value])); }
      r := ReadMore(code.value, first.value, b, e, n);
    }

    /** The same on a connection without failures: exactly what parsing leaves is left. */
    method ReadSteadily() returns (r: Outcome<ReplyText>)
      requires Valid()
      modifies this
      ensures Valid() && ReadRight(old(buffer), old(incoming), ParseReply(old(Stream())), r)
      ensures Steady(old(incoming)) ==> Steady(incoming) && Stream() == ParseReply(old(Stream())).rest
    {
      StreamLeft(buffer, incoming);
      r := ReadResponse();
      assert Stream() == buffer + Bytes(incoming);
    }

    /** The other lines of a multi-line reply. */
    method ReadMore(code: int, first: bytes, ghost b: bytes, ghost e: seq<Recv>, ghost taken: nat)
      returns (r: Outcome<ReplyText>)
      requires |first| >= MIN_FTP_RESPONSE && Reading(b, e, taken)
      modifies this
      ensures Valid() && ReadRight(b, e, ParseMore(code, first, [first], old(Stream())), r)
    {
      var lines := [first];
      ghost var n, s := taken, Stream();
      while true
        invariant Reading(b, e, n)
        invariant ParseMore(code, first, [first], s) == ParseMore(code, first, lines, Stream())
        decreases |Stream()|
      {
        ParseMoreStep(code, first, lines, Stream());
        var line;
        line, n := NextLine(b, e, n);
        if !line.Ok? { return BlobError; }
        lines := lines + [line.value];
        if Terminates(line.value, first) {
          LastLine(b, e, n, code, lines);
          return Ok((code, lines));
        }
      }
    }

    /** A reply that has been read whole. */
    lemma LastLine(b: bytes, e: seq<Recv>, n: nat, code: int, lines: seq<bytes>)
      requires Reading(b, e, n)
      ensures ReadRight(b, e, Complete(code, lines, Stream()), Ok((code, lines)))
    {
    }

    /** Of a buffer `b` and arrivals `e`, the first `n` bytes have been taken. */
    ghost predicate Reading(b: bytes, e: seq<Recv>, n: nat)
      reads this
    {
      Valid() && n + |Stream()| == |b| + |Bytes(e)| && (buffer, incoming) == Taken(b, e, n)
    }

    /** One more line of a reply. */
    method NextLine(ghost b: bytes, ghost e: seq<Recv>, ghost n: nat) returns (r: Outcome<bytes>, ghost m: nat)
      requires Reading(b, e, n)
      modifies this
      ensures Valid()
      ensures HasCrlf(old(Stream())) ==>
        Reading(b, e, m) && r == Ok(FirstLine(old(Stream()))) && Stream() == AfterLine(old(Stream()))
      ensures !HasCrlf(old(Stream())) ==> r == BlobError && (buffer, incoming) == (old(Stream()), AfterEnd(e))
    {
      ghost var s := Stream();
      ghost var end := if HasCrlf(s) then FindCrlf(s) + 2 else 0;
      if HasCrlf(s) { LineEnds(s); }
      NextTaken(b, e, n, buffer, incoming, end);
      m := n + end;
      r := ReadLine();
      if HasCrlf(s) { assert m + |Stream()| == |b| + |Bytes(e)| && (buffer, incoming) == Taken(b, e, m); }
    }

    /** Reading a number of replies one after the other. */
    method ReadReplies(n: nat, ghost replies: seq<Reply>, ghost rest: bytes) returns (got: seq<ReplyText>)
      requires Valid() && n == |replies| && (forall r :: r in replies ==> WellFormed(r))
      requires Stream() == EncodeAll(replies) + rest
      modifies this
      ensures Valid() && Stream() == rest && n == |got|
      ensures forall i :: 0 <= i < n ==> got[i] == (replies[i].code, replies[i].lines)
    {
      got := [];
      AllAhead(replies, rest);
      for i := 0 to n
        invariant Valid() && |got| == i && Stream() == Ahead(replies, i, rest)
        invariant forall j :: 0 <= j < i ==> got[j] == (replies[j].code, replies[j].lines)
      {
        assert replies[i] in replies;
        NextReply(replies, i, rest);
        var r := ReadWhole(replies[i].code, replies[i].lines, Ahead(replies, i + 1, rest));
        got := got + [r];
      }
    }

    /** Reading a reply that stands whole in the stream. */
    method ReadWhole(ghost code: int, ghost lines: seq<bytes>, ghost rest: bytes) returns (r: ReplyText)
      requires Valid() && ParseReply(Stream()) == Complete(code, lines, rest)
      modifies this
      ensures Valid() && r == (code, lines) && Stream() == rest
    {
      var got := ReadResponse();
      return got.value;
    }
  }

  /** One more line of a multi-line reply. */
  lemma ParseMoreStep(code: int, first: bytes, lines: seq<bytes>, s: bytes)
    requires |first| >= MIN_FTP_RESPONSE
    ensures ParseMore(code, first, lines, s) ==
      if !HasCrlf(s) then Incomplete(s)
      else if Terminates(FirstLine(s), first) then Complete(code, lines + [FirstLine(s)], AfterLine(s))
      else ParseMore(code, first, lines + [FirstLine(s)], AfterLine(s))
  {
  }

  /** The stream after the first `i` replies. */
  function Ahead(replies: seq<Reply>, i: nat, rest: bytes): bytes
    requires i <= |replies|
  {
    EncodeAll(replies[i..]) + rest
  }

  lemma AllAhead(replies: seq<Reply>, rest: bytes)
    ensures Ahead(replies, 0, rest) == EncodeAll(replies) + rest && Ahead(replies, |replies|, rest) == rest
  {
    assert replies[0..] == replies && replies[|replies|..] == [];
  }

  lemma NextReply(replies: seq<Reply>, i: nat, rest: bytes)
    requires i < |replies| && WellFormed(replies[i])
    ensures ParseReply(Ahead(replies, i, rest)) ==
      Complete(replies[i].code, replies[i].lines, Ahead(replies, i + 1, rest))
  {
    assert replies[i..][1..] == replies[i + 1..];
    ConcatAssociates(Encode(replies[i]), EncodeAll(replies[i + 1..]), rest);
    FramingRoundTrip(replies[i], EncodeAll(replies[i + 1..]) + rest);
  }

  lemma {:induction false} CrlfStays(s: bytes, more: bytes)
    requires HasCrlf(s)
    ensures FindCrlf(s + more) == FindCrlf(s)
    ensures s[..FindCrlf(s)] == (s + more)[..FindCrlf(s)]
    ensures s[FindCrlf(s) + 2..] + more == (s + more)[FindCrlf(s) + 2..]
  {
    if !(s[0] == CR && s[1] == LF) {
      assert (s + more)[1..] == s[1..] + more;
      CrlfStays(s[1..], more);
    }
  }

  /** A buffer that is being filled from `e`, up to the first line end and no further. */
  ghost predicate Filling(b: bytes, e: seq<Recv>, buffer: bytes, events: seq<Recv>) {
    buffer + Bytes(events) == b + Bytes(e) && AfterEnd(events) == AfterEnd(e) &&
    (HasCrlf(b + Bytes(e)) ==>
      var end := FindCrlf(b + Bytes(e)) + 2; Gathered(buffer, events, end) == Gathered(b, e, end))
  }

  lemma FillingStep(b: bytes, e: seq<Recv>, buffer: bytes, events: seq<Recv>)
    requires Filling(b, e, buffer, events) && !HasCrlf(buffer)
    ensures events != [] && events[0].Data? && events[0].data != [] ==>
      Filling(b, e, buffer + events[0].data, events[1..])
    ensures events == [] || !events[0].Data? || events[0].data == [] ==>
      buffer == b + Bytes(e) && AfterEnd(e) == (if events == [] then [] else events[1..])
  {
    CrlfWithin(buffer, Bytes(events));
    if events != [] && events[0].Data? && events[0].data != [] {
      assert buffer + (events[0].data + Bytes(events[1..])) == buffer + events[0].data + Bytes(events[1..]);
    } else {
      assert buffer + [] == buffer;
    }
  }

  lemma FilledLine(b: bytes, e: seq<Recv>, buffer: bytes, events: seq<Recv>)
    requires Filling(b, e, buffer, events) && HasCrlf(buffer)
    ensures HasCrlf(b + Bytes(e)) && FindCrlf(b + Bytes(e)) == FindCrlf(buffer)
    ensures Taken(b, e, FindCrlf(buffer) + 2) == (buffer[FindCrlf(buffer) + 2..], events)
  {
    CrlfStays(buffer, Bytes(events));
  }

  /** A piece at the front of a stream holds a CRLF exactly when it holds the first one whole. */
  lemma {:induction false} CrlfWithin(s: bytes, more: bytes)
    ensures HasCrlf(s) ==> HasCrlf(s + more)
    ensures HasCrlf(s + more) ==> (HasCrlf(s) <==> FindCrlf(s + more) + 2 <= |s|)
  {
    if HasCrlf(s) {
      CrlfStays(s, more);
    } else if |s| >= 2 {
      assert (s + more)[1..] == s[1..] + more;
      CrlfWithin(s[1..], more);
    }
  }

  lemma {:induction false} CrlfAt(s: bytes)
    requires HasCrlf(s)
    ensures s == FirstLine(s) + CRLF + AfterLine(s)
  {
    if !(s[0] == CR && s[1] == LF) {
      CrlfAt(s[1..]);
      assert s == [s[0]] + s[1..];
    }
  }

  /** A line without a CRLF is the first line of itself, a CRLF and anything. */
  lemma {:induction false} LineFound(line: bytes, rest: bytes)
    requires !HasCrlf(line)
    ensures var s := line + CRLF + rest; HasCrlf(s) && FirstLine(s) == line && AfterLine(s) == rest
  {
    var s := line + CRLF + rest;
    if line != [] {
      assert s[1..] == line[1..] + CRLF + rest;
      assert !(s[0] == CR && s[1] == LF) by {
        if |line| == 1 { assert s[1] == CR; } else { assert s[1] == line[1]; }
      }
      LineFound(line[1..], rest);
      assert line == [line[0]] + line[1..];
    }
  }

  // ---- the framing round trip

  datatype Reply = Reply(code: nat, lines: seq<bytes>)

  function CodeDigits(code: nat): bytes
    requires code < 1000
  {
    [48 + code / 100, 48 + code / 10 % 10, 48 + code % 10]
  }

  /** The bytes of section 4.2 of RFC 959. */
  lemma ReplyBytes(a: nat, b: nat, c: nat)
    requires a < 10 && b < 10 && c < 10
    ensures CRLF == [13, 10] && SPACE == 32 && HYPHEN == 45
    ensures CodeDigits((a * 10 + b) * 10 + c) == [48 + a, 48 + b, 48 + c]
  {
    var n := (a * 10 + b) * 10 + c;
    LastDigit(a * 10 + b, c);
    LastDigit(a, b);
    assert n == a * 100 + (b * 10 + c) && n / 100 == a;
  }

  lemma LastDigit(q: nat, d: nat)
    requires d < 10
    ensures (q * 10 + d) / 10 == q && (q * 10 + d) % 10 == d
  {
  }

  /** The line starts with the code and a space. */
  predicate Closes(line: bytes, code: nat)
    requires code < 1000
  {
    StartsWith(line, CodeDigits(code) + [SPACE])
  }

  /** The last line closes the reply and none before it does; those may start with the code and a hyphen. */
  predicate EndsReply(lines: seq<bytes>, code: nat)
    requires code < 1000
  {
    lines != [] &&
    (if |lines| == 1 then Closes(lines[0], code) else !Closes(lines[0], code) && EndsReply(lines[1..], code))
  }

  /** One line that starts with the code and goes on without a hyphen; or a first line with the code and a hyphen, and others
      of which only the last one starts with the code and a space. */
  predicate WellFormed(r: Reply) {
    r.code < 1000 && |r.lines| >= 1 && (forall l :: l in r.lines ==> !HasCrlf(l)) &&
    |r.lines[0]| > 3 && StartsWith(r.lines[0], CodeDigits(r.code)) &&
    (if |r.lines| == 1 then r.lines[0][3] != HYPHEN
     else r.lines[0][3] == HYPHEN && EndsReply(r.lines[1..], r.code))
  }

  lemma ClosesTerminates(line: bytes, first: bytes, code: nat)
    requires code < 1000 && |first| >= MIN_FTP_RESPONSE && first[..3] == CodeDigits(code)
    ensures Terminates(line, first) <==> Closes(line, code)
  {
    if |line| >= 4 { assert line[..4] == line[..3] + [line[3]]; }
  }

  function EncodeLines(lines: seq<bytes>): bytes {
    if lines == [] then [] else lines[0] + CRLF + EncodeLines(lines[1..])
  }

  function Encode(r: Reply): bytes {
    EncodeLines(r.lines)
  }

  function EncodeAll(replies: seq<Reply>): bytes {
    if replies == [] then [] else Encode(replies[0]) + EncodeAll(replies[1..])
  }

  lemma CodeRead(code: nat)
    requires code < 1000
    ensures BytesToIntRange(CodeDigits(code), 0, 999) == Some(code)
  {
    var d0, d1, d2 := code / 100, code / 10 % 10, code % 10;
    ThreeDigits(d0, d1, d2);
    UnsignedRead(CodeDigits(code), (d0 * 10 + d1) * 10 + d2);
    assert code == (d0 * 10 + d1) * 10 + d2;
  }

  /** Digits alone are read as their value. */
  lemma UnsignedRead(b: bytes, n: nat)
    requires b != [] && IsDigit(b[0]) && IsDigit(b[|b| - 1])
    requires DigitsValue(b, 0, false) == Some(n) && DigitCount(b) <= MAX_INT_DIGITS
    ensures BytesToInt(b) == Some(n)
  {
    assert TrimLeft(b) == b && TrimRight(b) == b;
  }

  /** One more digit of a number. */
  lemma DigitRead(d: nat, rest: bytes, acc: nat, afterDigit: bool)
    requires d < 10
    ensures DigitsValue([48 + d] + rest, acc, afterDigit) == DigitsValue(rest, acc * 10 + d, true)
    ensures DigitCount([48 + d] + rest) == 1 + DigitCount(rest)
  {
    var b: bytes := [48 + d] + rest;
    assert b[0] == 48 + d && b[1..] == rest;
  }

  lemma ThreeDigits(d0: nat, d1: nat, d2: nat)
    requires d0 < 10 && d1 < 10 && d2 < 10
    ensures var b: bytes := [48 + d0, 48 + d1, 48 + d2];
      DigitsValue(b, 0, false) == Some((d0 * 10 + d1) * 10 + d2) && DigitCount(b) == 3
  {
    var b2: bytes := [48 + d2];
    var b1: bytes := [48 + d1, 48 + d2];
    var b0: bytes := [48 + d0, 48 + d1, 48 + d2];
    assert b2 == [48 + d2] + [] && b1 == [48 + d1] + b2 && b0 == [48 + d0] + b1;
    DigitRead(d0, b1, 0, false);
    DigitRead(d1, b2, d0, true);
    DigitRead(d2, [], d0 * 10 + d1, true);
  }

  lemma Regrouped(before: seq<bytes>, lines: seq<bytes>)
    requires lines != []
    ensures before + [lines[0]] + lines[1..] == before + lines
  {}

  lemma {:induction false} MoreRead(code: nat, first: bytes, before: seq<bytes>, lines: seq<bytes>, rest: bytes)
    requires code < 1000 && |first| >= MIN_FTP_RESPONSE && first[..3] == CodeDigits(code)
    requires EndsReply(lines, code) && forall l :: l in lines ==> !HasCrlf(l)
    ensures ParseMore(code, first, before, EncodeLines(lines) + rest) == Complete(code, before + lines, rest)
    decreases lines
  {
    var s := EncodeLines(lines) + rest;
    var tail := EncodeLines(lines[1..]) + rest;
    assert s == lines[0] + CRLF + tail;
    LineFound(lines[0], tail);
    ClosesTerminates(lines[0], first, code);
    if |lines| == 1 {
      assert tail == rest && lines == [lines[0]];
    } else {
      MoreRead(code, first, before + [lines[0]], lines[1..], rest);
      Regrouped(before, lines);
    }
  }

  lemma OneLineParsed(s: bytes, code: int)
    requires HasCrlf(s) && |FirstLine(s)| >= MIN_FTP_RESPONSE && FirstLine(s)[3] != HYPHEN
    requires BytesToIntRange(FirstLine(s)[..3], 0, 999) == Some(code)
    ensures ParseReply(s) == Complete(code, [FirstLine(s)], AfterLine(s))
  {
  }

  lemma MultiLineParsed(s: bytes, code: int)
    requires HasCrlf(s) && |FirstLine(s)| >= MIN_FTP_RESPONSE && FirstLine(s)[3] == HYPHEN
    requires BytesToIntRange(FirstLine(s)[..3], 0, 999) == Some(code)
    ensures ParseReply(s) == ParseMore(code, FirstLine(s), [FirstLine(s)], AfterLine(s))
  {
  }

  /** A well-formed reply in front of anything is read exactly, and leaves exactly what follows it. */
  lemma FramingRoundTrip(r: Reply, rest: bytes)
    requires WellFormed(r)
    ensures ParseReply(Encode(r) + rest) == Complete(r.code, r.lines, rest)
  {
    var s, first, others := Encode(r) + rest, r.lines[0], EncodeLines(r.lines[1..]);
    ConcatAssociates(first + CRLF, others, rest);
    LineFound(first, others + rest);
    CodeRead(r.code);
    if |r.lines| == 1 {
      assert r.lines == [first] && others + rest == rest;
      OneLineParsed(s, r.code);
    } else {
      MultiLineParsed(s, r.code);
      MoreRead(r.code, first, [first], r.lines[1..], rest);
      assert [first] + r.lines[1..] == r.lines;
    }
  }

  /** A first line that is too short, or does not start with a number of at most 999, is taken off and is no reply. */
  lemma MalformedLine(line: bytes, rest: bytes)
    requires !HasCrlf(line)
    requires |line| < 4 || BytesToInt(line[..3]).None? || !(0 <= BytesToInt(line[..3]).value < 1000)
    ensures ParseReply(line + CRLF + rest) == Malformed(rest)
  {
    LineFound(line, rest);
  }

  // ---- what parsing takes off a stream

  predicate IsEnd(rest: bytes, s: bytes) {
    |rest| <= |s| && rest == s[|s| - |rest|..]
  }

  lemma EndOfLine(s: bytes, rest: bytes)
    requires HasCrlf(s) && IsEnd(rest, AfterLine(s))
    ensures IsEnd(rest, s)
  {
    LineEnds(s);
  }

  lemma {:induction false} ParseMorePrints(code: int, first: bytes, before: seq<bytes>, s: bytes)
    requires |first| >= MIN_FTP_RESPONSE && ParseMore(code, first, before, s).Complete?
    ensures var p := ParseMore(code, first, before, s);
      |before| < |p.lines| && before == p.lines[..|before|] && s == EncodeLines(p.lines[|before|..]) + p.rest
    decreases |s|
  {
    var now, after := before + [FirstLine(s)], AfterLine(s);
    var p := ParseMore(code, first, before, s);
    CrlfAt(s);
    if Terminates(FirstLine(s), first) {
      assert now[|before| + 1..] == [] && EncodeLines([]) + after == after;
    } else {
      ParseMorePrints(code, first, now, after);
      assert now[..|before|] == before && p.lines[|before|] == now[|before|] && p.lines[..|before|] == now[..|before|];
    }
    LinesFrom(p.lines, |before|, after, p.rest);
  }

  lemma {:induction false} ParseMoreLeaves(code: int, first: bytes, before: seq<bytes>, s: bytes)
    requires |first| >= MIN_FTP_RESPONSE && !ParseMore(code, first, before, s).Complete?
    ensures var p := ParseMore(code, first, before, s);
      p.Incomplete? && IsEnd(p.rest, s) && !HasCrlf(p.rest)
    decreases |s|
  {
    if HasCrlf(s) {
      var after := AfterLine(s);
      ParseMoreLeaves(code, first, before + [FirstLine(s)], after);
      EndOfLine(s, ParseMore(code, first, before + [FirstLine(s)], after).rest);
    } else {
      assert s[0..] == s;
    }
  }

  lemma LinesFrom(lines: seq<bytes>, i: nat, after: bytes, rest: bytes)
    requires i < |lines| && after == EncodeLines(lines[i + 1..]) + rest
    ensures EncodeLines(lines[i..]) + rest == lines[i] + CRLF + after
  {
    assert lines[i..][1..] == lines[i + 1..];
    ConcatAssociates(lines[i] + CRLF, EncodeLines(lines[i + 1..]), rest);
  }

  lemma ConcatAssociates(a: bytes, b: bytes, c: bytes)
    ensures a + b + c == a + (b + c)
  {
  }

  lemma MultiLine(s: bytes, lines: seq<bytes>, rest: bytes)
    requires HasCrlf(s) && lines != [] && lines[0] == FirstLine(s) && AfterLine(s) == EncodeLines(lines[1..]) + rest
    ensures s == EncodeLines(lines) + rest
  {
    CrlfAt(s);
    LinesFrom(lines, 0, AfterLine(s), rest);
    assert lines[0..] == lines;
  }

  /** Parsing takes exactly the lines of the reply off the stream, or one malformed line, or the whole lines of a reply
      that is not finished. */
  lemma ParsePrints(s: bytes)
    ensures match ParseReply(s)
      case Complete(_, lines, rest) => s == EncodeLines(lines) + rest
      case Malformed(rest) => IsEnd(rest, s)
      case Incomplete(rest) => IsEnd(rest, s) && !HasCrlf(rest)
  {
    if !HasCrlf(s) {
      assert s[0..] == s;
    } else {
      CrlfAt(s);
      LineEnds(s);
      var first := FirstLine(s);
      assert EncodeLines([first]) == first + CRLF + [];
      if |first| >= MIN_FTP_RESPONSE && first[3] == HYPHEN {
        var code := BytesToIntRange(first[..3], 0, 999);
        if code.Some? {
          var p := ParseMore(code.value, first, [first], AfterLine(s));
          if p.Complete? {
            ParseMorePrints(code.value, first, [first], AfterLine(s));
            MultiLine(s, p.lines, p.rest);
          } else {
            ParseMoreLeaves(code.value, first, [first], AfterLine(s));
            EndOfLine(s, p.rest);
          }
        }
      }
    }
  }

  lemma LineStays(s: bytes, more: bytes)
    requires HasCrlf(s)
    ensures HasCrlf(s + more) && FirstLine(s + more) == FirstLine(s) && AfterLine(s + more) == AfterLine(s) + more
  {
    CrlfStays(s, more);
  }

  lemma {:induction false} ParseMoreStays(code: int, first: bytes, before: seq<bytes>, s: bytes, more: bytes)
    requires |first| >= MIN_FTP_RESPONSE
    ensures match ParseMore(code, first, before, s)
      case Complete(c, lines, rest) => ParseMore(code, first, before, s + more) == Complete(c, lines, rest + more)
      case _ => true
    decreases |s|
  {
    if HasCrlf(s) {
      LineStays(s, more);
      if !Terminates(FirstLine(s), first) {
        ParseMoreStays(code, first, before + [FirstLine(s)], AfterLine(s), more);
      }
    }
  }

  /** What has been parsed does not change when more arrives. */
  lemma ParseStays(s: bytes, more: bytes)
    ensures match ParseReply(s)
      case Complete(c, lines, rest) => ParseReply(s + more) == Complete(c, lines, rest + more)
      case Malformed(rest) => ParseReply(s + more) == Malformed(rest + more)
      case Incomplete(_) => true
  {
    if HasCrlf(s) {
      LineStays(s, more);
      var first := FirstLine(s);
      if |first| >= MIN_FTP_RESPONSE {
        var code := BytesToIntRange(first[..3], 0, 999);
        if code.Some? && first[3] == HYPHEN {
          if !ParseMore(code.value, first, [first], AfterLine(s)).Complete? {
            ParseMoreLeaves(code.value, first, [first], AfterLine(s));
          }
          ParseMoreStays(code.value, first, [first], AfterLine(s), more);
        }
      }
    }
  }

  // ---- a stream that is one reply

  /** The stream is one reply and nothing else. */
  predicate OneReply(s: bytes) {
    var p := ParseReply(s);
    p.Complete? && p.rest == []
  }

  lemma LineWithin(s: bytes, n: nat)
    requires HasCrlf(s) && FindCrlf(s) + 2 <= n <= |s|
    ensures HasCrlf(s[..n]) && FirstLine(s[..n]) == FirstLine(s)
    ensures AfterLine(s[..n]) == AfterLine(s)[..n - FindCrlf(s) - 2]
  {
    CrlfFoundWithin(s, n);
    PartOfPart(s, FindCrlf(s), n);
    PartOfPart(s, FindCrlf(s) + 2, n);
  }

  lemma CrlfFoundWithin(s: bytes, n: nat)
    requires HasCrlf(s) && FindCrlf(s) + 2 <= n <= |s|
    ensures HasCrlf(s[..n]) && FindCrlf(s[..n]) == FindCrlf(s)
  {
    assert s[..n] + s[n..] == s;
    CrlfWithin(s[..n], s[n..]);
    CrlfStays(s[..n], s[n..]);
  }

  lemma PartOfPart(s: bytes, k: nat, n: nat)
    requires k <= n <= |s|
    ensures s[..n][..k] == s[..k] && s[..n][k..] == s[k..][..n - k]
  {
  }

  lemma {:induction false} ParseMoreAlone(code: int, first: bytes, before: seq<bytes>, s: bytes)
    requires |first| >= MIN_FTP_RESPONSE && ParseMore(code, first, before, s).Complete?
    ensures var p := ParseMore(code, first, before, s);
      p.code == code && |p.rest| <= |s| &&
      ParseMore(code, first, before, s[..|s| - |p.rest|]) == Complete(code, p.lines, [])
    decreases |s|
  {
    var p, after := ParseMore(code, first, before, s), AfterLine(s);
    LineEnds(s);
    if !Terminates(FirstLine(s), first) { ParseMoreAlone(code, first, before + [FirstLine(s)], after); }
    LineWithin(s, |s| - |p.rest|);
  }

  /** The bytes that a reply was read from are that reply and nothing else, also by themselves. */
  lemma ParseAlone(s: bytes)
    requires ParseReply(s).Complete?
    ensures var p := ParseReply(s);
      |p.rest| <= |s| && ParseReply(s[..|s| - |p.rest|]) == Complete(p.code, p.lines, [])
  {
    LineEnds(s);
    if FirstLine(s)[3] == HYPHEN { MultiLineAlone(s); } else { LineWithin(s, FindCrlf(s) + 2); }
  }

  lemma MultiLineAlone(s: bytes)
    requires ParseReply(s).Complete? && FirstLine(s)[3] == HYPHEN
    ensures var p := ParseReply(s);
      |p.rest| <= |s| && ParseReply(s[..|s| - |p.rest|]) == Complete(p.code, p.lines, [])
  {
    var first, after := FirstLine(s), AfterLine(s);
    var code, n := BytesToIntRange(first[..3], 0, 999), |s| - |ParseReply(s).rest|;
    LineEnds(s);
    MultiLineParsed(s, code.value);
    ParseMoreAlone(code.value, first, [first], after);
    LineWithin(s, n);
    MultiLineParsed(s[..n], code.value);
  }

  /** A well-formed reply that is broken off anywhere is read as unfinished. */
  lemma CutReplyIsUnfinished(r: Reply, n: nat)
    requires WellFormed(r) && n < |Encode(r)|
    ensures ParseReply(Encode(r)[..n]).Incomplete?
  {
    var s, more := Encode(r)[..n], Encode(r)[n..];
    assert s + more == Encode(r) && Encode(r) + [] == Encode(r);
    FramingRoundTrip(r, []);
    ParseStays(s, more);
  }

  function ParseReplies(n: nat, s: bytes): Option<(seq<ReplyText>, bytes)> {
    if n == 0 then Some(([], s))
    else match ParseReply(s)
      case Complete(code, lines, rest) =>
        var more := ParseReplies(n - 1, rest);
        if more.None? then None else Some(([(code, lines)] + more.value.0, more.value.1))
      case _ => None
  }

  function Texts(replies: seq<Reply>): seq<ReplyText> {
    if replies == [] then [] else [(replies[0].code, replies[0].lines)] + Texts(replies[1..])
  }

  function Pieces(chunks: seq<bytes>): seq<Recv> {
    if chunks == [] then [] else [Data(chunks[0])] + Pieces(chunks[1..])
  }

  lemma {:induction false} PiecesDeliver(chunks: seq<bytes>)
    requires [] !in chunks
    ensures Bytes(Pieces(chunks)) == Flatten(chunks)
  {
    if chunks != [] {
      assert chunks[0] in chunks;
      PiecesDeliver(chunks[1..]);
    }
  }

  lemma {:induction false} RepliesRead(replies: seq<Reply>, rest: bytes)
    requires forall r :: r in replies ==> WellFormed(r)
    ensures ParseReplies(|replies|, EncodeAll(replies) + rest) == Some((Texts(replies), rest))
  {
    if replies == [] {
      assert EncodeAll(replies) + rest == rest;
    } else {
      assert EncodeAll(replies) + rest == Encode(replies[0]) + (EncodeAll(replies[1..]) + rest);
      FramingRoundTrip(replies[0], EncodeAll(replies[1..]) + rest);
      RepliesRead(replies[1..], rest);
    }
  }

  /** For every list of well-formed replies and every cut of their bytes into non-empty pieces, also between CR and
      LF, the stream that the pieces deliver is read back as exactly those replies. */
  lemma {:induction false} ChunkedRepliesRead(replies: seq<Reply>, rest: bytes, chunks: seq<bytes>)
    requires forall r :: r in replies ==> WellFormed(r)
    requires [] !in chunks && Flatten(chunks) == EncodeAll(replies) + rest
    ensures ParseReplies(|replies|, Bytes(Pieces(chunks))) == Some((Texts(replies), rest))
  {
    PiecesDeliver(chunks);
    RepliesRead(replies, rest);
  }
}
