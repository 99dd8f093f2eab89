/** Percent-encoding (section 2.1 of RFC 3986) and query strings, as Python's urllib.parse does them. */
module Percent {
  import opened Basics
  import Utf8

  const OBJECT_SAFE := "/-_.~"

  predicate Unreserved(c: char) {
    'a' <= c <= 'z' || 'A' <= c <= 'Z' || '0' <= c <= '9' || c in "_.-~"
  }

  predicate Kept(b: byte, safe: string) {
    b < 0x80 && (Unreserved(b as char) || (b as char) in safe)
  }

  function HexDigit(n: nat): (c: char)
    requires n < 16
  {
    if n < 10 then ('0' as int + n) as char else ('A' as int + n - 10) as char
  }

  function HexValue(c: char): Option<nat> {
    if '0' <= c <= '9' then Some(c as int - '0' as int)
    else if 'A' <= c <= 'F' then Some(c as int - 'A' as int + 10)
    else if 'a' <= c <= 'f' then Some(c as int - 'a' as int + 10)
    else None
  }

  function QuoteByte(b: byte, safe: string): string {
    if Kept(b, safe) then [b as char] else ['%', HexDigit(b / 16), HexDigit(b % 16)]
  }

  function QuoteBytes(b: bytes, safe: string): string {
    if b == [] then "" else QuoteByte(b[0], safe) + QuoteBytes(b[1..], safe)
  }

  /** `quote(s, safe=safe)` */
  function Quote(s: string, safe: string): string {
    QuoteBytes(Utf8.Encode(s), safe)
  }

  function UnquoteToBytes(s: string): bytes {
    if s == "" then []
    else if s[0] == '%' && |s| >= 3 && HexValue(s[1]).Some? && HexValue(s[2]).Some? then
      [(HexValue(s[1]).value * 16 + HexValue(s[2]).value) % 256] + UnquoteToBytes(s[3..])
    else Utf8.EncodeChar(s[0]) + UnquoteToBytes(s[1..])
  }

  /** `unquote(s)`: escapes become bytes, ill-formed UTF-8 becomes U+FFFD. */
  function Unquote(s: string): string {
    Utf8.DecodeReplace(UnquoteToBytes(s))
  }

  lemma HexRoundTrip(n: nat)
    requires n < 16
    ensures HexValue(HexDigit(n)) == Some(n)
  {}

  /** Section 2 of RFC 3986: letters, digits and four marks stand as they are, and what is kept besides; every other byte
      is a percent sign and two upper-case hexadecimal digits. */
  lemma QuotedByte(b: byte, safe: string)
    ensures var plain := 65 <= b <= 90 || 97 <= b <= 122 || 48 <= b <= 57 || b == 45 || b == 46 || b == 95 || b == 126;
      QuoteByte(b, safe) ==
        if plain || (b < 128 && b as char in safe) then [b as char]
        else ['%', (b / 16 + if b / 16 < 10 then 48 else 55) as char, (b % 16 + if b % 16 < 10 then 48 else 55) as char]
  {}

  /** In object names and in what is signed of them, slashes stand as they are as well, and nothing else. */
  lemma ObjectByte(b: byte)
    ensures var plain := 65 <= b <= 90 || 97 <= b <= 122 || 45 <= b <= 57 || b == 95 || b == 126;
      |QuoteByte(b, OBJECT_SAFE)| == (if plain then 1 else 3) && |QuoteByte(b, "")| == if plain && b != 47 then 1 else 3
  {}

  /** Both cases of a hexadecimal digit are read, and nothing else. */
  lemma HexRead(c: char)
    ensures var n := c as int;
      HexValue(c) == if 48 <= n <= 57 then Some(n - 48) else if 65 <= n <= 70 then Some(n - 55)
                     else if 97 <= n <= 102 then Some(n - 87) else None
  {}

  lemma UnquoteQuotedByte(b: byte, safe: string, rest: string)
    requires '%' !in safe
    ensures UnquoteToBytes(QuoteByte(b, safe) + rest) == [b] + UnquoteToBytes(rest)
  {
    var q := QuoteByte(b, safe);
    var s := q + rest;
    assert s[|q|..] == rest;
    if Kept(b, safe) {
      assert s[0] == b as char && s[0] != '%';
      assert Utf8.EncodeChar(s[0]) == [b];
    } else {
      HexRoundTrip(b / 16);
      HexRoundTrip(b % 16);
      assert s[0] == '%' && s[1] == HexDigit(b / 16) && s[2] == HexDigit(b % 16);
    }
  }

  lemma {:induction false} UnquoteQuoted(b: bytes, safe: string, rest: string)
    requires '%' !in safe
    ensures UnquoteToBytes(QuoteBytes(b, safe) + rest) == b + UnquoteToBytes(rest)
  {
    if b == [] {
      assert QuoteBytes(b, safe) + rest == rest;
    } else {
      var head, tail := QuoteByte(b[0], safe), QuoteBytes(b[1..], safe);
      assert QuoteBytes(b, safe) + rest == head + (tail + rest);
      assert UnquoteToBytes(head + (tail + rest)) == [b[0]] + UnquoteToBytes(tail + rest) by {
        UnquoteQuotedByte(b[0], safe, tail + rest);
      }
      assert UnquoteToBytes(tail + rest) == b[1..] + UnquoteToBytes(rest) by {
        UnquoteQuoted(b[1..], safe, rest);
      }
      assert b == [b[0]] + b[1..];
    }
  }

  /** Percent-encoding is invertible for every text, whatever characters are kept as they are. */
  lemma UnquoteQuote(s: string, safe: string)
    requires '%' !in safe
    ensures Unquote(Quote(s, safe)) == s
  {
    UnquoteQuoted(Utf8.Encode(s), safe, "");
    assert Quote(s, safe) + "" == Quote(s, safe);
    assert Utf8.Encode(s) + UnquoteToBytes("") == Utf8.Encode(s);
    Utf8.DecodeEncode(s);
  }

  /** Percent-encoding hides every character that is neither kept nor used by the escapes. */
  lemma {:induction false} QuoteHides(s: string, safe: string, c: char)
    requires c != '%' && !Unreserved(c) && c !in safe
    ensures c !in Quote(s, safe)
  {
    QuoteBytesHides(Utf8.Encode(s), safe, c);
  }

  lemma {:induction false} QuoteBytesHides(b: bytes, safe: string, c: char)
    requires c != '%' && !Unreserved(c) && c !in safe
    ensures c !in QuoteBytes(b, safe)
  {
    if b != [] { QuoteBytesHides(b[1..], safe, c); }
  }

  lemma {:induction false} QuoteBytesAppend(a: bytes, b: bytes, safe: string)
    ensures QuoteBytes(a + b, safe) == QuoteBytes(a, safe) + QuoteBytes(b, safe)
  {
    if a == [] {
      assert a + b == b;
    } else {
      assert (a + b)[1..] == a[1..] + b;
      QuoteBytesAppend(a[1..], b, safe);
    }
  }

  lemma QuoteAppend(s: string, t: string, safe: string)
    ensures Quote(s + t, safe) == Quote(s, safe) + Quote(t, safe)
  {
    Utf8.EncodeAppend(s, t);
    QuoteBytesAppend(Utf8.Encode(s), Utf8.Encode(t), safe);
  }

  /** Text made of kept characters is not changed. */
  lemma {:induction false} QuoteIdentity(s: string, safe: string)
    requires forall c :: c in s ==> (c as int) < 0x80 && Kept(c as int, safe)
    ensures Quote(s, safe) == s
  {
    if s != "" {
      assert s[0] in s && forall c :: c in s[1..] ==> c in s;
      QuoteIdentity(s[1..], safe);
      assert Utf8.Encode(s) == [s[0] as int] + Utf8.Encode(s[1..]);
      assert s == [s[0]] + s[1..];
    }
  }

  /** Keeping nothing extra is the same as keeping the unreserved punctuation, which is always kept. */
  lemma {:induction false} SafeUnreserved(s: string, safe: string)
    requires forall c :: c in safe ==> Unreserved(c)
    ensures Quote(s, safe) == Quote(s, "")
  {
    SafeUnreservedBytes(Utf8.Encode(s), safe);
  }

  lemma {:induction false} SafeUnreservedBytes(b: bytes, safe: string)
    requires forall c :: c in safe ==> Unreserved(c)
    ensures QuoteBytes(b, safe) == QuoteBytes(b, "")
  {
    if b != [] { SafeUnreservedBytes(b[1..], safe); }
  }

  // ---- query strings

  /** The text before and after the first separator; no separator leaves the second part empty. */
  function Partition(s: string, sep: char): (string, string) {
    var parts := Split(s, sep);
    (parts[0], Join(parts[1..], sep))
  }

  lemma PartitionAt(a: string, sep: char, b: string)
    requires sep !in a
    ensures Partition(a + [sep] + b, sep) == (a, b)
  {
    SplitFirst(a, sep, b);
    JoinSplit(b, sep);
    assert Split(a + [sep] + b, sep)[1..] == Split(b, sep);
  }

  function PlusToSpace(s: string): string {
    seq(|s|, i requires 0 <= i < |s| => if s[i] == '+' then ' ' else s[i])
  }

  function DecodeField(s: string): string {
    Unquote(PlusToSpace(s))
  }

  type Pair = (string, string)

  function DecodePair(piece: string): Pair {
    var (name, value) := Partition(piece, '=');
    (DecodeField(name), DecodeField(value))
  }

  function DecodePieces(pieces: seq<string>): seq<Pair> {
    if pieces == [] then []
    else (if pieces[0] == "" then [] else [DecodePair(pieces[0])]) + DecodePieces(pieces[1..])
  }

  /** `parse_qsl(query, keep_blank_values=True)` */
  function ParseQuery(query: string): seq<Pair> {
    DecodePieces(Split(query, '&'))
  }

  /** The first value of a parameter, or a default: `parse_qs(query).get(name, [default])[0]`. */
  function FirstValue(pairs: seq<Pair>, name: string, default: string): string {
    if pairs == [] then default
    else if pairs[0].0 == name then pairs[0].1
    else FirstValue(pairs[1..], name, default)
  }

  function Parameter(name: string, value: string): string {
    name + "=" + value
  }

  /** Parameters as they stand in a query: each pair holds a name and the text of its value. */
  function Printed(params: seq<Pair>): seq<string> {
    if params == [] then [] else [Parameter(params[0].0, params[0].1)] + Printed(params[1..])
  }

  function DecodedValues(params: seq<Pair>): seq<Pair> {
    if params == [] then [] else [(params[0].0, DecodeField(params[0].1))] + DecodedValues(params[1..])
  }

  /** Text that query decoding leaves alone. */
  predicate Plain(s: string) {
    '&' !in s && '+' !in s && '%' !in s
  }

  lemma {:induction false} UnquoteWithoutEscapes(s: string)
    requires '%' !in s
    ensures UnquoteToBytes(s) == Utf8.Encode(s)
  {
    if s != "" { UnquoteWithoutEscapes(s[1..]); }
  }

  lemma {:induction false} DecodePlain(s: string)
    requires Plain(s)
    ensures DecodeField(s) == s
  {
    assert PlusToSpace(s) == s;
    UnquoteWithoutEscapes(s);
    Utf8.DecodeEncode(s);
  }

  /** A plus sign in a query is a space. */
  lemma PlusIsSpace(a: string, b: string)
    requires Plain(a) && Plain(b)
    ensures DecodeField(a + "+" + b) == a + " " + b
  {
    var s := PlusToSpace(a + "+" + b);
    assert s == a + " " + b;
    assert '%' !in s;
    UnquoteWithoutEscapes(s);
    Utf8.DecodeEncode(s);
  }

  lemma {:induction false} PiecesJoined(a: seq<string>, b: seq<string>)
    ensures DecodePieces(a + b) == DecodePieces(a) + DecodePieces(b)
  {
    if a == [] {
      assert a + b == b;
    } else {
      assert (a + b)[1..] == a[1..] + b;
      PiecesJoined(a[1..], b);
    }
  }

  /** An empty piece of a query is no parameter, and one without an equals sign has an empty value. */
  lemma OddPieces(before: seq<string>, name: string, after: seq<string>)
    requires Plain(name) && '=' !in name
    ensures DecodePieces(before + [name] + after)
         == DecodePieces(before) + (if name == "" then [] else [(name, "")]) + DecodePieces(after)
  {
    PiecesJoined(before + [name], after);
    PiecesJoined(before, [name]);
    OddPiece(name);
  }

  lemma OddPiece(name: string)
    requires Plain(name) && '=' !in name
    ensures DecodePieces([name]) == if name == "" then [] else [(name, "")]
  {
    assert [name][1..] == [];
    SplitOne(name, '=');
    assert Split(name, '=')[1..] == [];
    DecodePlain(name);
    DecodePlain("");
  }

  lemma DecodeQuoted(s: string, safe: string)
    requires '%' !in safe && '+' !in safe
    ensures DecodeField(Quote(s, safe)) == s
  {
    QuoteHides(s, safe, '+');
    assert PlusToSpace(Quote(s, safe)) == Quote(s, safe);
    UnquoteQuote(s, safe);
  }

  /** A parameter whose printed form is read back as one parameter of the same name. */
  predicate Printable(param: Pair) {
    Plain(param.0) && '=' !in param.0 && '&' !in param.1
  }

  /** A query printed parameter by parameter is read back parameter by parameter. */
  lemma ParsePrinted(params: seq<Pair>)
    requires params != [] && forall p :: p in params ==> Printable(p)
    ensures ParseQuery(Join(Printed(params), '&')) == DecodedValues(params)
  {
    PrintedPieces(params, '&');
    SplitJoin(Printed(params), '&');
    DecodePrinted(params);
  }

  /** A character in no name and no value is in no printed parameter, unless it is the equals sign. */
  lemma {:induction false} PrintedPieces(params: seq<Pair>, c: char)
    requires c != '=' && forall p :: p in params ==> c !in p.0 && c !in p.1
    ensures |Printed(params)| == |params| && forall piece :: piece in Printed(params) ==> c !in piece
  {
    if params != [] {
      assert params[0] in params;
      PrintedPieces(params[1..], c);
    }
  }

  lemma {:induction false} DecodePrinted(params: seq<Pair>)
    requires forall p :: p in params ==> Printable(p)
    ensures DecodePieces(Printed(params)) == DecodedValues(params)
  {
    if params != [] {
      var (name, value) := params[0];
      assert params[0] in params;
      DecodePrinted(params[1..]);
      PartitionAt(name, '=', value);
      DecodePlain(name);
      assert Parameter(name, value) == name + ['='] + value;
    }
  }
}
