/** Parsers of server text that both FTP clients share, and the ancestors of a key. */
module FtpCommon {
  import opened Basics
  import opened FtpReplies
  import Utf8

  const FTP_TRANSFER_READY := 125
  const FTP_TRANSFER_ALREADY_OPEN := 150
  const FTP_OK := 200
  const FTP_STATUS := 211
  const FTP_SIZE_OK := 213
  const FTP_READY := 220
  const FTP_TRANSFER_DONE := 226
  const FTP_PASV := 227
  const FTP_LOGIN_OK := 230
  const FTP_ACTION_OK := 250
  const FTP_CREATED := 257
  const FTP_USER_OK := 331
  const FTP_NOT_FOUND := 550

  predicate Opens(code: int) {
    code == FTP_TRANSFER_READY || code == FTP_TRANSFER_ALREADY_OPEN
  }

  lemma ReplyCodes()
    ensures forall code :: Opens(code) <==> code == 125 || code == 150
    ensures FTP_OK == 200 && FTP_STATUS == 211 && FTP_SIZE_OK == 213 && FTP_READY == 220 && FTP_TRANSFER_DONE == 226
    ensures FTP_PASV == 227 && FTP_LOGIN_OK == 230 && FTP_ACTION_OK == 250 && FTP_CREATED == 257
    ensures FTP_USER_OK == 331 && FTP_NOT_FOUND == 550
  {
  }

  /** What the client sends; Connect stands for opening the control connection, which the server greets. */
  datatype Command =
    | Connect
    | User(user: string)
    | Pass(password: string)
    | Cwd(root: string)
    | TypeImage
    | Feat
    | Quit
    | Pasv
    | Mkd(dir: string)
    | Dele(key: string)
    | Size(key: string)
    | Mlst(key: string)
    | Stor(key: string)
    | Retr(key: string)
    | Listing(mlsd: bool, path: string)
  {
    function Argument(): string {
      match this
      case User(a) => a
      case Pass(a) => a
      case Cwd(a) => a
      case Mkd(a) => a
      case Dele(a) => a
      case Size(a) => a
      case Mlst(a) => a
      case Stor(a) => a
      case Retr(a) => a
      case Listing(_, a) => a
      case _ => ""
    }

    predicate Transfer() {
      Stor? || Retr? || Listing?
    }
  }

  // ---- white-space separated words

  /** The bytes up to the first white space. */
  function Word(b: bytes): (w: bytes)
    ensures |w| <= |b| && w == b[..|w|] && (b != [] && !IsSpace(b[0]) ==> |w| > 0)
  {
    if b == [] || IsSpace(b[0]) then [] else [b[0]] + Word(b[1..])
  }

  lemma {:induction false} TrimLeftShortens(b: bytes)
    ensures |TrimLeft(b)| <= |b| && (TrimLeft(b) == [] || !IsSpace(TrimLeft(b)[0]))
  {
    if b != [] { TrimLeftShortens(b[1..]); }
  }

  /** `b.split()` */
  function Words(b: bytes): seq<bytes>
    decreases |b|
  {
    TrimLeftShortens(b);
    var t := TrimLeft(b);
    if t == [] then [] else [Word(t)] + Words(t[|Word(t)|..])
  }

  predicate NoSpace(b: bytes) {
    forall x :: x in b ==> !IsSpace(x)
  }

  lemma {:induction false} WordWhole(name: bytes, rest: bytes)
    requires NoSpace(name) && (rest == [] || IsSpace(rest[0]))
    ensures Word(name + rest) == name && (name + rest)[|name|..] == rest
  {
    if name == [] {
      assert name + rest == rest;
    } else {
      assert name[0] in name && (name + rest)[1..] == name[1..] + rest;
      WordWhole(name[1..], rest);
      assert name == [name[0]] + name[1..];
    }
  }

  /** A name without white space after white space is the last word of its line. */
  lemma {:induction false} LastWord(before: bytes, gap: byte, name: bytes)
    requires name != [] && NoSpace(name) && IsSpace(gap)
    ensures var w := Words(before + [gap] + name); w != [] && w[|w| - 1] == name
    decreases |before|
  {
    var line := before + [gap] + name;
    assert name[0] in name;
    if before == [] {
      assert line[1..] == name && TrimLeft(name) == name;
      assert TrimLeft(line) == name;
      WordWhole(name, []);
      assert name + [] == name && name[|name|..] == [] && Words([]) == [];
    } else if IsSpace(before[0]) {
      assert line[1..] == before[1..] + [gap] + name;
      LastWord(before[1..], gap, name);
      assert TrimLeft(line) == TrimLeft(line[1..]);
      assert Words(line) == Words(line[1..]);
    } else {
      var w := Word(before);
      WordBefore(before, [gap] + name);
      assert line == before + ([gap] + name);
      assert line[|w|..] == before[|w|..] + [gap] + name;
      LastWord(before[|w|..], gap, name);
      assert TrimLeft(line) == line && Words(line) == [w] + Words(line[|w|..]);
    }
  }

  lemma {:induction false} WordBefore(before: bytes, rest: bytes)
    requires rest != [] && IsSpace(rest[0])
    ensures Word(before + rest) == Word(before)
  {
    if before == [] {
      assert before + rest == rest;
    } else {
      assert (before + rest)[1..] == before[1..] + rest;
      WordBefore(before[1..], rest);
    }
  }

  // ---- FEAT

  datatype FTPFeatures = FTPFeatures(supportsMlsd: bool, supportsMlst: bool, supportsSize: bool)

  const MLSD_WORD: bytes := [77, 76, 83, 68]
  const SIZE_WORD: bytes := [83, 73, 90, 69]

  function Upper(b: bytes): bytes {
    if b == [] then []
    else
      var x: int := b[0];
      [if 97 <= x <= 122 then x - 32 else x] + Upper(b[1..])
  }

  /** A line that starts, after white space, with a word, in any case. */
  predicate Names(line: bytes, word: bytes) {
    Words(line) != [] && Upper(Words(line)[0]) == word
  }

  /** A line that is not empty but has no word in it. */
  predicate Blank(line: bytes) {
    line != [] && Words(line) == []
  }

  /** The word in capitals, in small letters, or in any mixture. */
  predicate InAnyCase(word: bytes, capital: string, small: string)
    requires |capital| == |small|
  {
    |word| == |capital| && forall i :: 0 <= i < |word| ==> word[i] == capital[i] as int || word[i] == small[i] as int
  }

  lemma {:induction false} UpperAt(b: bytes)
    ensures |Upper(b)| == |b|
    ensures forall i :: 0 <= i < |b| ==> Upper(b)[i] == if 97 <= b[i] <= 122 then b[i] - 32 else b[i]
  {
    if b != [] { UpperAt(b[1..]); }
  }

  lemma {:induction false} FirstWord(before: bytes, word: bytes, rest: bytes)
    requires Spaces(before) && NoSpace(word) && word != [] && (rest == [] || IsSpace(rest[0]))
    ensures var w := Words(before + (word + rest)); w != [] && w[0] == word
  {
    assert word[0] in word && (word + rest)[0] == word[0];
    SpacesBefore(before, word + rest);
    WordWhole(word, rest);
  }

  /** Which lines advertise MLSD and SIZE. */
  lemma FeatureLine(before: bytes, word: bytes, rest: bytes)
    requires Spaces(before) && NoSpace(word) && word != [] && (rest == [] || IsSpace(rest[0]))
    ensures Names(before + (word + rest), MLSD_WORD) <==> InAnyCase(word, "MLSD", "mlsd")
    ensures Names(before + (word + rest), SIZE_WORD) <==> InAnyCase(word, "SIZE", "size")
  {
    FirstWord(before, word, rest);
    UpperAt(word);
    FourLetters(word, MLSD_WORD, "MLSD", "mlsd");
    FourLetters(word, SIZE_WORD, "SIZE", "size");
  }

  lemma FourLetters(word: bytes, upper: bytes, capital: string, small: string)
    requires |upper| == |capital| == |small| == 4
    requires forall i :: 0 <= i < 4 ==> upper[i] == capital[i] as int
    requires forall i :: 0 <= i < 4 ==> 'A' <= capital[i] <= 'Z' && small[i] as int == capital[i] as int + 32
    ensures Upper(word) == upper <==> InAnyCase(word, capital, small)
  {
    UpperAt(word);
    if InAnyCase(word, capital, small) {
      forall i | 0 <= i < 4 ensures Upper(word)[i] == upper[i] {}
    }
  }

  predicate Advertised(feat: seq<bytes>, word: bytes) {
    exists l :: l in feat && Names(l, word)
  }

  lemma AdvertisedSnoc(feat: seq<bytes>, line: bytes, word: bytes)
    ensures Advertised(feat + [line], word) <==> Advertised(feat, word) || Names(line, word)
  {
    assert line in feat + [line];
    if Advertised(feat, word) {
      var l :| l in feat && Names(l, word);
      assert l in feat + [line];
    }
  }

  /** FTPFeatures.from_feat: None stands for the IndexError on a line of nothing but white space. */
  method FromFeat(feat: seq<bytes>) returns (r: Option<FTPFeatures>)
    ensures r.None? <==> exists l :: l in feat && Blank(l)
    ensures r.Some? ==>
      (r.value.supportsMlsd <==> Advertised(feat, MLSD_WORD)) &&
      (r.value.supportsMlst <==> r.value.supportsMlsd) &&
      (r.value.supportsSize <==> Advertised(feat, SIZE_WORD))
  {
    var mlsd, mlst, size := false, false, false;
    for i := 0 to |feat|
      invariant mlst == mlsd
      invariant forall l :: l in feat[..i] ==> !Blank(l)
      invariant mlsd <==> Advertised(feat[..i], MLSD_WORD)
      invariant size <==> Advertised(feat[..i], SIZE_WORD)
    {
      var line := feat[i];
      assert feat[..i + 1] == feat[..i] + [line];
      AdvertisedSnoc(feat[..i], line, MLSD_WORD);
      AdvertisedSnoc(feat[..i], line, SIZE_WORD);
      assert line in feat;
      if line != [] {
        var parts := Words(line);
        if parts == [] { return None; }
        if Upper(parts[0]) == MLSD_WORD {
          mlst := true;
          mlsd := true;
        } else if Upper(parts[0]) == SIZE_WORD {
          size := true;
        }
      } else {
        assert Words(line) == [];
      }
    }
    assert feat[..|feat|] == feat;
    return Some(FTPFeatures(mlsd, mlst, size));
  }

  // ---- PASV

  const OPEN: byte := 40
  const CLOSE: byte := 41
  const COMMA: byte := 44

  predicate AllDigits(b: bytes) {
    b != [] && forall x :: x in b ==> IsDigit(x)
  }

  /** The six numbers between parentheses, the opening one just passed. */
  function SixNumbers(s: bytes): Option<seq<bytes>> {
    var upTo := Split(s, CLOSE);
    var parts := Split(upTo[0], COMMA);
    if |upTo| > 1 && |parts| == 6 && forall p :: p in parts ==> AllDigits(p) then Some(parts) else None
  }

  /** The leftmost match of the PASV pattern. */
  function FindNumbers(line: bytes): Option<seq<bytes>> {
    if line == [] then None
    else if line[0] == OPEN && SixNumbers(line[1..]).Some? then SixNumbers(line[1..])
    else FindNumbers(line[1..])
  }

  function BytesToOctet(b: bytes): Option<int> {
    BytesToIntRange(b, 0, 255)
  }

  function Octets(parts: seq<bytes>): Option<seq<int>> {
    if parts == [] then Some([])
    else
      var first, rest := BytesToOctet(parts[0]), Octets(parts[1..]);
      if first.None? || rest.None? then None else Some([first.value] + rest.value)
  }

  function Port(high: int, low: int): int {
    high * 256 + low
  }

  /** The data address in a PASV reply; None stands for BlobError. */
  function ParsePasv(line: bytes): Option<(seq<int>, int)> {
    var parts := FindNumbers(line);
    if parts.None? then None
    else
      var o := Octets(parts.value);
      if o.None? || |o.value| != 6 then None
      else Some((o.value[..4], Port(o.value[4], o.value[5])))
  }

  function OctetDigits(n: nat): bytes
    requires n < 256
  {
    if n < 10 then [48 + n] else if n < 100 then [48 + n / 10, 48 + n % 10] else CodeDigits(n)
  }

  lemma OctetRead(n: nat)
    requires n < 256
    ensures BytesToOctet(OctetDigits(n)) == Some(n) && AllDigits(OctetDigits(n))
  {
    var b := OctetDigits(n);
    if n >= 100 {
      CodeRead(n);
    } else {
      var last: bytes := [48 + n % 10];
      assert last == last + [] && n == n / 10 * 10 + n % 10;
      if n < 10 {
        DigitRead(n, [], 0, false);
        UnsignedRead(b, n);
      } else {
        assert b == [48 + n / 10] + last;
        DigitRead(n / 10, last, 0, false);
        DigitRead(n % 10, [], n / 10, true);
        UnsignedRead(b, n);
      }
    }
  }

  function PrintedOctets(octets: bytes): seq<bytes> {
    if octets == [] then [] else [OctetDigits(octets[0])] + PrintedOctets(octets[1..])
  }

  lemma {:induction false} PrintedRead(octets: bytes)
    ensures |PrintedOctets(octets)| == |octets| && Octets(PrintedOctets(octets)) == Some(octets)
    ensures forall p :: p in PrintedOctets(octets) ==> AllDigits(p)
  {
    if octets != [] {
      OctetRead(octets[0]);
      PrintedRead(octets[1..]);
      var printed := PrintedOctets(octets);
      assert printed[1..] == PrintedOctets(octets[1..]) && printed[0] == OctetDigits(octets[0]);
      assert octets == [octets[0]] + octets[1..];
    }
  }

  lemma SixNumbersRead(parts: seq<bytes>, after: bytes)
    requires |parts| == 6 && forall p :: p in parts ==> AllDigits(p)
    ensures SixNumbers(Join(parts, COMMA) + [CLOSE] + after) == Some(parts)
  {
    forall p | p in parts ensures COMMA !in p && CLOSE !in p { assert AllDigits(p); }
    JoinElements(parts, COMMA, CLOSE);
    SplitFirst(Join(parts, COMMA), CLOSE, after);
    SplitJoin(parts, COMMA);
  }

  /** Text that does not match by itself does not match with a parenthesis behind it either. */
  lemma NoNumbersBefore(before: bytes, more: bytes)
    requires SixNumbers(before).None?
    ensures SixNumbers(before + ([OPEN] + more)).None?
  {
    var s := before + ([OPEN] + more);
    SplitHead(before, [OPEN] + more, CLOSE);
    if CLOSE !in before {
      var first := Split(s, CLOSE)[0];
      assert Split([OPEN] + more, CLOSE)[0] == [OPEN] + Split(more, CLOSE)[0] by { SplitHead([OPEN], more, CLOSE); }
      assert first[|before|] == OPEN && OPEN in first;
      JoinSplit(first, COMMA);
      if forall p :: p in Split(first, COMMA) ==> AllDigits(p) {
        forall p | p in Split(first, COMMA) ensures OPEN !in p { assert AllDigits(p); }
        JoinElements(Split(first, COMMA), COMMA, OPEN);
      }
    }
  }

  lemma {:induction false} NumbersFound(before: bytes, parts: seq<bytes>, after: bytes)
    requires |parts| == 6 && (forall p :: p in parts ==> AllDigits(p)) && FindNumbers(before).None?
    ensures FindNumbers(before + ([OPEN] + (Join(parts, COMMA) + [CLOSE] + after))) == Some(parts)
  {
    var tail := Join(parts, COMMA) + [CLOSE] + after;
    var line := before + ([OPEN] + tail);
    if before == [] {
      SixNumbersRead(parts, after);
      assert line[0] == OPEN && line[1..] == tail;
    } else {
      assert line[0] == before[0] && line[1..] == before[1..] + ([OPEN] + tail);
      if line[0] == OPEN { NoNumbersBefore(before[1..], tail); }
      NumbersFound(before[1..], parts, after);
    }
  }

  /** Six numbers in parentheses, with commas between them. */
  ghost predicate InParentheses(line: bytes, before: bytes, parts: seq<bytes>, after: bytes) {
    |parts| == 6 && (forall i :: 0 <= i < 6 ==> parts[i] != [] && Digits(parts[i])) &&
    line == before + ([40] + (Join(parts, 44) + [41] + after))
  }

  ghost predicate HoldsNumbers(line: bytes) {
    exists before, parts, after :: InParentheses(line, before, parts, after)
  }

  /** The search succeeds exactly if there is such a text. */
  lemma FoundIfHeld(line: bytes)
    ensures FindNumbers(line).Some? <==> HoldsNumbers(line)
  {
    if FindNumbers(line).Some? { NumbersStand(line); }
    if HoldsNumbers(line) {
      var before, parts, after :| InParentheses(line, before, parts, after);
      PartsAreDigits(parts);
      FoundBehind(before, parts, after);
    }
  }

  lemma PartsAreDigits(parts: seq<bytes>)
    ensures (forall p :: p in parts ==> AllDigits(p)) <==> forall i :: 0 <= i < |parts| ==> parts[i] != [] && Digits(parts[i])
  {
    if forall i :: 0 <= i < |parts| ==> parts[i] != [] && Digits(parts[i]) {
      forall p, x | p in parts && x in p ensures IsDigit(x) {}
    }
    if forall p :: p in parts ==> AllDigits(p) {
      forall i | 0 <= i < |parts| ensures parts[i] != [] && Digits(parts[i]) {
        assert AllDigits(parts[i]);
        forall j | 0 <= j < |parts[i]| ensures 48 <= parts[i][j] <= 57 { assert parts[i][j] in parts[i]; }
      }
    }
  }

  lemma {:induction false} FoundBehind(before: bytes, parts: seq<bytes>, after: bytes)
    requires |parts| == 6 && forall p :: p in parts ==> AllDigits(p)
    ensures FindNumbers(before + ([OPEN] + (Join(parts, COMMA) + [CLOSE] + after))).Some?
  {
    var tail := Join(parts, COMMA) + [CLOSE] + after;
    var line := before + ([OPEN] + tail);
    if before == [] {
      SixNumbersRead(parts, after);
      assert line[0] == OPEN && line[1..] == tail;
    } else {
      assert line[1..] == before[1..] + ([OPEN] + tail);
      FoundBehind(before[1..], parts, after);
    }
  }

  /** A PASV reply names the address and port that the server printed first, whatever text stands around them. */
  lemma {:induction false} PasvRoundTrip(before: bytes, octets: bytes, after: bytes)
    requires |octets| == 6 && !HoldsNumbers(before)
    ensures ParsePasv(before + ([OPEN] + (Join(PrintedOctets(octets), COMMA) + [CLOSE] + after)))
         == Some((octets[..4], octets[4] as int * 256 + octets[5]))
  {
    PrintedRead(octets);
    FoundIfHeld(before);
    NumbersFound(before, PrintedOctets(octets), after);
  }

  /** An address is read only off such a text: the numbers are at most 255, the first four of them are the host, and the
      others the high and the low half of the port. */
  lemma PasvSound(line: bytes)
    requires ParsePasv(line).Some?
    ensures var (host, port) := ParsePasv(line).value;
      exists before, parts, after :: InParentheses(line, before, parts, after) && |host| == 4 &&
        (forall i :: 0 <= i < 6 ==> 0 <= Positional(parts[i]) < 256) &&
        (forall i :: 0 <= i < 4 ==> host[i] == Positional(parts[i])) &&
        port == Positional(parts[4]) * 256 + Positional(parts[5])
  {
    var parts := FindNumbers(line).value;
    NumbersStand(line);
    var before, after :| InParentheses(line, before, parts, after);
    PartsAreDigits(parts);
    OctetsSound(parts);
  }

  lemma {:induction false} OctetsSound(parts: seq<bytes>)
    requires Octets(parts).Some? && forall p :: p in parts ==> AllDigits(p)
    ensures |Octets(parts).value| == |parts|
    ensures forall i :: 0 <= i < |parts| ==>
      Octets(parts).value[i] == Positional(parts[i]) && 0 <= Positional(parts[i]) < 256
  {
    if parts != [] {
      assert parts[0] in parts;
      OctetsSound(parts[1..]);
      var d := parts[0];
      forall i | 0 <= i < |d| ensures 48 <= d[i] <= 57 { assert d[i] in d; }
      NumberRead([], [], d, []);
      assert [] + ([] + d) + [] == d;
    }
  }

  lemma {:induction false} NumbersStand(line: bytes)
    requires FindNumbers(line).Some?
    ensures exists before, after :: InParentheses(line, before, FindNumbers(line).value, after)
  {
    if line[0] == OPEN && SixNumbers(line[1..]).Some? {
      var rest := line[1..];
      var upTo := Split(rest, CLOSE);
      var parts := Split(upTo[0], COMMA);
      JoinSplit(rest, CLOSE);
      JoinSplit(upTo[0], COMMA);
      var after := Join(upTo[1..], CLOSE);
      assert rest == Join(parts, 44) + [41] + after;
      PartsAreDigits(parts);
      assert InParentheses(line, [], parts, after);
    } else {
      NumbersStand(line[1..]);
      var before, after :| InParentheses(line[1..], before, FindNumbers(line).value, after);
      var tail := [40] + (Join(FindNumbers(line).value, 44) + [41] + after);
      assert line == [line[0]] + line[1..] && [line[0]] + (before + tail) == [line[0]] + before + tail;
      assert InParentheses(line, [line[0]] + before, FindNumbers(line).value, after);
    }
  }

  // ---- directory listings

  /** Bytes without a line end. */
  predicate PlainText(b: bytes) {
    CR !in b && LF !in b
  }

  /** `b.splitlines()`: CR, LF and CRLF each end a line. */
  function SplitLines(b: bytes): seq<bytes>
    decreases |b|
  {
    if b == [] then []
    else
      var i := LineEnd(b);
      if i == |b| then [b]
      else [b[..i]] + SplitLines(b[i + (if b[i] == CR && i + 1 < |b| && b[i + 1] == LF then 2 else 1)..])
  }

  function LineEnd(b: bytes): (i: nat)
    ensures i <= |b| && (i < |b| ==> b[i] == CR || b[i] == LF) && PlainText(b[..i])
  {
    if b == [] || b[0] == CR || b[0] == LF then 0 else 1 + LineEnd(b[1..])
  }

  /** A carriage return, a line feed, or both together end a line. */
  predicate EndsLine(end: bytes, rest: bytes) {
    end == [13, 10] || end == [10] || (end == [13] && (rest == [] || rest[0] != 10))
  }

  lemma {:induction false} LineCut(line: bytes, end: bytes, rest: bytes)
    requires PlainText(line) && EndsLine(end, rest)
    ensures SplitLines(line + end + rest) == [line] + SplitLines(rest)
  {
    var b := line + end + rest;
    LineEndBefore(line, end + rest);
    assert b == line + (end + rest);
    assert b[..|line|] == line && b[|line| + |end|..] == rest;
    assert b[|line|] == end[0] && (|line| + 1 < |b| ==> b[|line| + 1] == (end + rest)[1]);
  }

  lemma LastLine(line: bytes)
    requires PlainText(line)
    ensures SplitLines(line) == if line == [] then [] else [line]
  {
    assert forall i :: 0 <= i < |line| ==> line[i] in line;
  }

  lemma {:induction false} LineEndBefore(line: bytes, rest: bytes)
    requires PlainText(line) && rest != [] && (rest[0] == 13 || rest[0] == 10)
    ensures LineEnd(line + rest) == |line|
  {
    if line == [] {
      assert line + rest == rest;
    } else {
      assert line[0] in line && (line + rest)[1..] == line[1..] + rest;
      LineEndBefore(line[1..], rest);
    }
  }

  lemma {:induction false} LinesRead(lines: seq<bytes>)
    requires forall l :: l in lines ==> CR !in l && LF !in l
    ensures SplitLines(EncodeLines(lines)) == lines
  {
    if lines != [] {
      assert lines[0] in lines;
      LineCut(lines[0], CRLF, EncodeLines(lines[1..]));
      LinesRead(lines[1..]);
    }
  }

  /** A parsed line: a name and whether it is a directory; None stands for BlobError. */
  type ListEntry = Option<(string, bool)>

  function PermissionAt(i: nat): int {
    if i % 3 == 1 then 114 else if i % 3 == 2 then 119 else 120
  }

  predicate Permissions(line: bytes) {
    |line| >= 10 && (line[0] == 45 || line[0] == 100) &&
    forall i :: 1 <= i < 10 ==> line[i] == 45 || line[i] == PermissionAt(i)
  }

  /** A hyphen or d, and three times r, w and x or hyphens. */
  lemma PermissionLetters(line: bytes)
    ensures Permissions(line) <==>
      |line| >= 10 && (line[0] as char == '-' || line[0] as char == 'd') &&
      forall i :: 0 <= i < 9 ==> line[i + 1] as char == '-' || line[i + 1] as char == "rwxrwxrwx"[i]
  {
    forall i | 0 <= i < 9 ensures "rwxrwxrwx"[i] as int == PermissionAt(i + 1) {
      assert i == 0 || i == 1 || i == 2 || i == 3 || i == 4 || i == 5 || i == 6 || i == 7 || i == 8;
    }
    if |line| >= 10 && forall i :: 0 <= i < 9 ==> line[i + 1] as char == '-' || line[i + 1] as char == "rwxrwxrwx"[i] {
      forall i | 1 <= i < 10 ensures line[i] == 45 || line[i] == PermissionAt(i) {
        var k := i - 1;
        assert line[k + 1] as char == '-' || line[k + 1] as char == "rwxrwxrwx"[k];
        assert "rwxrwxrwx"[k] as int == PermissionAt(k + 1);
      }
    }
  }

  function ParseListLine(line: bytes): ListEntry {
    var words := Words(line);
    if !Permissions(line) || words == [] then None
    else
      var name := Utf8.DecodeStrict(words[|words| - 1]);
      if name.None? then None else Some((name.value, line[0] == 100))
  }

  /** A line that does not start with permissions is refused, and so is one whose last word is not UTF-8. */
  lemma ListLineSound(line: bytes)
    ensures ParseListLine(line).Some? ==>
      var (name, isDir) := ParseListLine(line).value; var w := Words(line);
      Permissions(line) && (isDir <==> line[0] as char == 'd') && w != [] && w[|w| - 1] == Utf8.Encode(name)
  {
    if ParseListLine(line).Some? {
      var w := Words(line);
      Utf8.StrictIsExact(w[|w| - 1], ParseListLine(line).value.0);
    }
  }

  const SEMICOLON: byte := 59
  const SLASH: byte := 47
  const TYPE_DIR: bytes := [116, 121, 112, 101, 61, 100, 105, 114]

  function DropSpaces(b: bytes): bytes {
    if b != [] && b[0] == SPACE then DropSpaces(b[1..]) else b
  }

  function DropFinalSlashes(b: bytes): bytes {
    if b != [] && b[|b| - 1] == SLASH then DropFinalSlashes(b[..|b| - 1]) else b
  }

  function ParseMlsdLine(line: bytes): ListEntry {
    var parts := Split(line, SEMICOLON);
    var name := Utf8.DecodeStrict(DropFinalSlashes(DropSpaces(parts[|parts| - 1])));
    if name.None? then None else Some((name.value, TYPE_DIR in parts[..|parts| - 1]))
  }

  function ParseLine(mlsd: bool, line: bytes): ListEntry {
    if mlsd then ParseMlsdLine(line) else ParseListLine(line)
  }

  lemma {:induction false} DecodedPlain(b: bytes)
    requires PlainText(b) && Utf8.DecodeStrict(b).Some?
    ensures OneLine(Utf8.DecodeStrict(b).value)
    decreases |b|
  {
    if b != [] {
      var (c, n) := Utf8.DecodeFirst(b);
      assert b[0] in b && (c.value as int < 0x80 ==> c.value as int == b[0]);
      DecodedPlain(b[n..]);
    }
  }

  lemma {:induction false} WordsPlain(b: bytes)
    requires PlainText(b)
    ensures forall w :: w in Words(b) ==> PlainText(w)
    decreases |b|
  {
    TrimLeftShortens(b);
    TrimLeftPlain(b);
    var t := TrimLeft(b);
    if t != [] { WordsPlain(t[|Word(t)|..]); }
  }

  lemma {:induction false} TrimLeftPlain(b: bytes)
    requires PlainText(b)
    ensures PlainText(TrimLeft(b))
  {
    if b != [] { TrimLeftPlain(b[1..]); }
  }

  lemma {:induction false} DropSpacesPlain(b: bytes)
    requires PlainText(b)
    ensures PlainText(DropSpaces(b))
  {
    if b != [] { DropSpacesPlain(b[1..]); }
  }

  lemma {:induction false} DropFinalSlashesPlain(b: bytes)
    requires PlainText(b)
    ensures PlainText(DropFinalSlashes(b))
  {
    if b != [] { DropFinalSlashesPlain(b[..|b| - 1]); }
  }

  /** A name read off a line of a listing has no line end in it. */
  lemma ParsedNameOneLine(mlsd: bool, line: bytes)
    requires PlainText(line) && ParseLine(mlsd, line).Some?
    ensures OneLine(ParseLine(mlsd, line).value.0)
  {
    if mlsd {
      var parts := Split(line, SEMICOLON);
      SplitElements(line, SEMICOLON, CR);
      SplitElements(line, SEMICOLON, LF);
      assert parts[|parts| - 1] in parts;
      DropSpacesPlain(parts[|parts| - 1]);
      DropFinalSlashesPlain(DropSpaces(parts[|parts| - 1]));
      DecodedPlain(DropFinalSlashes(DropSpaces(parts[|parts| - 1])));
    } else {
      var words := Words(line);
      WordsPlain(line);
      assert words[|words| - 1] in words;
      DecodedPlain(words[|words| - 1]);
    }
  }

  lemma {:induction false} SplitLinesPlain(b: bytes)
    ensures forall l :: l in SplitLines(b) ==> PlainText(l)
    decreases |b|
  {
    if b != [] {
      var i := LineEnd(b);
      if i < |b| {
        SplitLinesPlain(b[i + (if b[i] == CR && i + 1 < |b| && b[i + 1] == LF then 2 else 1)..]);
      } else {
        assert b[..i] == b;
      }
    }
  }

  // ---- the text test on an MLST reply

  const TYPE_FILE: bytes := [116, 121, 112, 101, 61, 102, 105, 108, 101]

  predicate Contains(b: bytes, text: bytes) {
    StartsWith(b, text) || (b != [] && Contains(b[1..], text))
  }

  /** `any(b"type=file" in line for line in lines)` */
  predicate AnyMentionsFile(lines: seq<bytes>) {
    exists l :: l in lines && Contains(l, TYPE_FILE)
  }

  /** The two fact texts, letter by letter. */
  lemma FactTexts()
    ensures |TYPE_DIR| == 8 && forall i :: 0 <= i < 8 ==> TYPE_DIR[i] as char == "type=dir"[i]
    ensures |TYPE_FILE| == 9 && forall i :: 0 <= i < 9 ==> TYPE_FILE[i] as char == "type=file"[i]
  {
  }

  /** Where a text stands in another. */
  lemma {:induction false} ContainsMeans(b: bytes, text: bytes)
    ensures Contains(b, text) <==> exists i :: 0 <= i <= |b| && StartsWith(b[i..], text)
  {
    assert b[0..] == b;
    if b != [] {
      ContainsMeans(b[1..], text);
      forall i | 0 <= i < |b| ensures b[1..][i..] == b[i + 1..] {}
      if i :| 0 <= i <= |b[1..]| && StartsWith(b[1..][i..], text) { assert StartsWith(b[i + 1..], text); }
      if i :| 0 <= i <= |b| && StartsWith(b[i..], text) && i > 0 { assert StartsWith(b[1..][i - 1..], text); }
    }
  }

  // ---- what servers print

  function ListLine(attributes: bytes, name: string): bytes {
    attributes + [SPACE] + Utf8.Encode(name)
  }

  /** A LIST line gives back any name without white space. */
  lemma ListLineRead(attributes: bytes, name: string)
    requires Permissions(attributes) && name != "" && NoSpace(Utf8.Encode(name))
    ensures ParseListLine(ListLine(attributes, name)) == Some((name, attributes[0] == 100))
  {
    var line := ListLine(attributes, name);
    assert line[..10] == attributes[..10];
    assert forall i :: 0 <= i < 10 ==> line[i] == attributes[i];
    LastWord(attributes, SPACE, Utf8.Encode(name));
    Utf8.DecodeEncode(name);
  }

  function MlsdLine(facts: seq<bytes>, name: string): bytes {
    Join(facts + [[SPACE] + Utf8.Encode(name)], SEMICOLON)
  }

  /** The name in an MLSD line stands behind the last semicolon; spaces before it and slashes behind it do not count. */
  lemma MlsdNameRead(facts: seq<bytes>, spaces: bytes, name: string, slashes: bytes)
    requires forall f :: f in facts ==> SEMICOLON !in f
    requires (forall i :: 0 <= i < |spaces| ==> spaces[i] == 32) && forall i :: 0 <= i < |slashes| ==> slashes[i] == 47
    requires name != "" && ';' !in name && name[0] != ' ' && name[|name| - 1] != '/'
    ensures ParseMlsdLine(Join(facts + [spaces + Utf8.Encode(name) + slashes], 59)) == Some((name, TYPE_DIR in facts))
  {
    var b := Utf8.Encode(name);
    var last := spaces + b + slashes;
    var parts := facts + [last];
    Utf8.EncodeContains(name, SEMICOLON);
    forall p | p in parts ensures SEMICOLON !in p {
      if p !in facts { assert p == last; }
    }
    SplitJoin(parts, SEMICOLON);
    assert parts[..|parts| - 1] == facts;
    assert b[0] == Utf8.EncodeChar(name[0])[0] && b[0] != SPACE;
    LastByte(name);
    SpacesDropped(spaces, b + slashes);
    assert spaces + (b + slashes) == last;
    SlashesDropped(b, slashes);
    Utf8.DecodeEncode(name);
  }

  lemma LastByte(name: string)
    requires name != "" && name[|name| - 1] != '/'
    ensures var b := Utf8.Encode(name); b != [] && b[|b| - 1] != SLASH
  {
    var most, last := name[..|name| - 1], name[|name| - 1];
    assert name == most + [last];
    Utf8.EncodeAppend(most, [last]);
    assert [last][1..] == "" && Utf8.Encode([last]) == Utf8.EncodeChar(last) + [];
  }

  lemma {:induction false} SpacesDropped(spaces: bytes, b: bytes)
    requires (forall i :: 0 <= i < |spaces| ==> spaces[i] == 32) && b != [] && b[0] != 32
    ensures DropSpaces(spaces + b) == b
  {
    if spaces == [] {
      assert spaces + b == b;
    } else {
      assert (spaces + b)[1..] == spaces[1..] + b;
      SpacesDropped(spaces[1..], b);
    }
  }

  lemma {:induction false} SlashesDropped(b: bytes, slashes: bytes)
    requires (forall i :: 0 <= i < |slashes| ==> slashes[i] == 47) && b != [] && b[|b| - 1] != 47
    ensures DropFinalSlashes(b + slashes) == b
    decreases slashes
  {
    if slashes == [] {
      assert b + slashes == b;
    } else {
      var s := b + slashes;
      assert s[|s| - 1] == 47 && s[..|s| - 1] == b + slashes[..|slashes| - 1];
      SlashesDropped(b, slashes[..|slashes| - 1]);
    }
  }

  /** An MLSD line gives back any name that has no semicolon or slash and does not start with a space. */
  lemma MlsdLineRead(facts: seq<bytes>, name: string)
    requires forall f :: f in facts ==> SEMICOLON !in f
    requires name != "" && ';' !in name && '/' !in name && name[0] != ' '
    ensures ParseMlsdLine(MlsdLine(facts, name)) == Some((name, TYPE_DIR in facts))
  {
    MlsdNameRead(facts, [SPACE], name, []);
    assert [SPACE] + Utf8.Encode(name) + [] == [SPACE] + Utf8.Encode(name);
  }

  // ---- ancestors of a key

  function StripSlashes(s: string): string {
    if s != "" && s[0] == '/' then StripSlashes(s[1..])
    else if s != "" && s[|s| - 1] == '/' then StripSlashes(s[..|s| - 1])
    else s
  }

  /** What is left of a text without the slashes at its ends. */
  ghost predicate Core(s: string, t: string, i: nat, j: nat) {
    i <= j <= |s| && t == s[i..j] && (forall k :: 0 <= k < i || j <= k < |s| ==> s[k] == '/') &&
    (i < j ==> s[i] != '/' && s[j - 1] != '/')
  }

  lemma {:induction false} StrippedEnds(s: string)
    ensures exists i: nat, j: nat :: Core(s, StripSlashes(s), i, j)
    decreases |s|
  {
    if s != "" && s[0] == '/' {
      StrippedEnds(s[1..]);
      var i: nat, j: nat :| Core(s[1..], StripSlashes(s[1..]), i, j);
      CoreBehind(s, StripSlashes(s[1..]), i, j);
    } else if s != "" && s[|s| - 1] == '/' {
      StrippedEnds(s[..|s| - 1]);
      var i: nat, j: nat :| Core(s[..|s| - 1], StripSlashes(s[..|s| - 1]), i, j);
      CoreBefore(s, StripSlashes(s[..|s| - 1]), i, j);
    } else {
      assert Core(s, StripSlashes(s), 0, |s|);
    }
  }

  lemma CoreBehind(s: string, t: string, i: nat, j: nat)
    requires s != "" && s[0] == '/' && Core(s[1..], t, i, j)
    ensures Core(s, t, i + 1, j + 1)
  {
    assert s[1..][i..j] == s[i + 1..j + 1];
    forall k | 0 < k < |s| ensures s[k] == s[1..][k - 1] {}
  }

  lemma CoreBefore(s: string, t: string, i: nat, j: nat)
    requires s != "" && s[|s| - 1] == '/' && Core(s[..|s| - 1], t, i, j)
    ensures Core(s, t, i, j)
  {
    assert s[..|s| - 1][i..j] == s[i..j];
    forall k | 0 <= k < |s| - 1 ensures s[k] == s[..|s| - 1][k] {}
  }

  lemma {:induction false} StripSlashesOneLine(s: string)
    requires OneLine(s)
    ensures OneLine(StripSlashes(s)) && OneLine(TrimSlashes(s))
  {
    if s != "" {
      StripSlashesOneLine(s[1..]);
      StripSlashesOneLine(s[..|s| - 1]);
    }
  }

  /** The directories of a key that fits on a line fit on a line. */
  lemma ParentDirOneLine(key: string, i: nat)
    requires OneLine(key) && i < |Split(StripSlashes(key), '/')|
    ensures OneLine(Join(Split(StripSlashes(key), '/')[..i], '/'))
  {
    var parts := Split(StripSlashes(key), '/');
    StripSlashesOneLine(key);
    SplitElements(StripSlashes(key), '/', '\r');
    SplitElements(StripSlashes(key), '/', '\n');
    JoinElements(parts[..i], '/', '\r');
    JoinElements(parts[..i], '/', '\n');
  }

  /** The directories above a key, shortest first. */
  function ParentDirs(key: string): seq<string> {
    var parts := Split(StripSlashes(key), '/');
    seq(|parts| - 1, i requires 0 <= i < |parts| - 1 => Join(parts[..i + 1], '/'))
  }

  /** iter_parent_dirs: every proper ancestor of the key, shortest first. */
  method IterParentDirs(key: string) returns (dirs: seq<string>)
    ensures dirs == ParentDirs(key)
  {
    var parts := Split(StripSlashes(key), '/');
    var current: seq<string> := [];
    dirs := [];
    for i := 0 to |parts| - 1
      invariant current == parts[..i] && |dirs| == i
      invariant forall j :: 0 <= j < i ==> dirs[j] == Join(parts[..j + 1], '/')
    {
      current := current + [parts[i]];
      dirs := dirs + [Join(current, '/')];
    }
  }
}
