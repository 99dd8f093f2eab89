/** UTF-8 (section 3 of RFC 3629) as the sources use it: `str.encode()`, strict and replacing `bytes.decode()`. */
module Utf8 {
  import opened Basics
  import Lexicographic

  const REPLACEMENT: char := '\U{FFFD}'

  function EncodeChar(c: char): (b: bytes)
    ensures 1 <= |b| <= 4
  {
    var n := c as int;
    if n < 0x80 then [n]
    else if n < 0x800 then [0xC0 + n / 64, 0x80 + n % 64]
    else if n < 0x10000 then [0xE0 + n / 4096, 0x80 + n / 64 % 64, 0x80 + n % 64]
    else [0xF0 + n / 262144, 0x80 + n / 4096 % 64, 0x80 + n / 64 % 64, 0x80 + n % 64]
  }

  function Encode(s: string): bytes {
    if s == "" then [] else EncodeChar(s[0]) + Encode(s[1..])
  }

  /** How many bytes a character with this lead byte takes; 0 for a byte that leads nothing. */
  function Width(lead: byte): nat {
    if lead < 0x80 then 1
    else if 0xC2 <= lead <= 0xDF then 2
    else if 0xE0 <= lead <= 0xEF then 3
    else if 0xF0 <= lead <= 0xF4 then 4
    else 0
  }

  predicate Continuation(b: byte) {
    0x80 <= b <= 0xBF
  }

  /** The second byte also rules out overlong forms, surrogates and values above U+10FFFF. */
  predicate SecondByte(lead: byte, b: byte) {
    if lead == 0xE0 then 0xA0 <= b <= 0xBF
    else if lead == 0xED then 0x80 <= b <= 0x9F
    else if lead == 0xF0 then 0x90 <= b <= 0xBF
    else if lead == 0xF4 then 0x80 <= b <= 0x8F
    else Continuation(b)
  }

  /** The first character and its length, or None and the length of the ill-formed part. */
  function DecodeFirst(b: bytes): (r: (Option<char>, nat))
    requires b != []
    ensures 1 <= r.1 <= |b|
  {
    var n := Width(b[0]);
    var lead: int := b[0];
    if n == 0 then (None, 1)
    else if n == 1 then (Some(lead as char), 1)
    else if |b| < 2 || !SecondByte(b[0], b[1]) then (None, 1)
    else
      var second: int := b[1];
      if n == 2 then (Some(((lead - 0xC0) * 64 + (second - 0x80)) as char), 2)
      else if |b| < 3 || !Continuation(b[2]) then (None, 2)
      else
        var third: int := b[2];
        if n == 3 then (Some(((lead - 0xE0) * 4096 + (second - 0x80) * 64 + (third - 0x80)) as char), 3)
        else if |b| < 4 || !Continuation(b[3]) then (None, 3)
        else
          var fourth: int := b[3];
          (Some(((lead - 0xF0) * 262144 + (second - 0x80) * 4096 + (third - 0x80) * 64 + (fourth - 0x80)) as char), 4)
  }

  /** Strict decoding; None stands for UnicodeDecodeError. */
  function DecodeStrict(b: bytes): Option<string> {
    if b == [] then Some("")
    else
      var (c, n) := DecodeFirst(b);
      var rest := DecodeStrict(b[n..]);
      if c.None? || rest.None? then None else Some([c.value] + rest.value)
  }

  /** Decoding that puts U+FFFD for every ill-formed part (errors="replace"). */
  function DecodeReplace(b: bytes): string {
    if b == [] then ""
    else
      var (c, n) := DecodeFirst(b);
      [if c.None? then REPLACEMENT else c.value] + DecodeReplace(b[n..])
  }

  /** A number is rebuilt from its base-64 digits. */
  lemma Sextets(n: nat)
    ensures n == n / 64 * 64 + n % 64
    ensures n == n / 4096 * 4096 + n / 64 % 64 * 64 + n % 64
    ensures n == n / 262144 * 262144 + n / 4096 % 64 * 4096 + n / 64 % 64 * 64 + n % 64
  {
    assert n / 64 / 64 == n / 4096;
    assert n / 4096 / 64 == n / 262144;
  }

  lemma {:induction false} DecodeFirstEncoded(c: char, rest: bytes)
    ensures DecodeFirst(EncodeChar(c) + rest) == (Some(c), |EncodeChar(c)|)
  {
    var n := c as int;
    var e := EncodeChar(c);
    var b := e + rest;
    Sextets(n);
    assert forall i :: 0 <= i < |e| ==> b[i] == e[i];
  }

  /** Both decoders undo the encoder, whatever the text. */
  lemma {:induction false} DecodeEncode(s: string)
    ensures DecodeStrict(Encode(s)) == Some(s)
    ensures DecodeReplace(Encode(s)) == s
  {
    if s != "" {
      DecodeFirstEncoded(s[0], Encode(s[1..]));
      assert Encode(s)[|EncodeChar(s[0])|..] == Encode(s[1..]);
      DecodeEncode(s[1..]);
      assert s == [s[0]] + s[1..];
    }
  }

  /** The base-64 digits of a number built from them. */
  lemma Composed(a: nat, b: nat, c: nat, d: nat)
    requires b < 64 && c < 64 && d < 64
    ensures var n := a * 262144 + b * 4096 + c * 64 + d;
      n / 262144 == a && n / 4096 % 64 == b && n / 64 % 64 == c && n % 64 == d
      && n / 4096 == a * 64 + b && n / 64 == a * 4096 + b * 64 + c
  {
    var n, q := a * 262144 + b * 4096 + c * 64 + d, a * 4096 + b * 64 + c;
    assert n == q * 64 + d && q == (a * 64 + b) * 64 + c;
    LastSextet(q, d);
    LastSextet(a * 64 + b, c);
    LastSextet(a, b);
    SextetsApart(n);
  }

  lemma LastSextet(q: nat, r: nat)
    requires r < 64
    ensures (q * 64 + r) / 64 == q && (q * 64 + r) % 64 == r
  {
  }

  lemma SextetsApart(n: nat)
    ensures n / 64 / 64 == n / 4096 && n / 64 / 64 / 64 == n / 262144
  {
  }

  /** What is decoded as a character is its encoding. */
  lemma DecodedIsEncoding(b: bytes)
    requires b != []
    ensures var (c, n) := DecodeFirst(b); c.Some? ==> b[..n] == EncodeChar(c.value)
  {
    var (c, n) := DecodeFirst(b);
    if c.Some? {
      if n == 1 { assert b[..1] == [b[0]]; }
      else if n == 2 { DecodedTwo(b); }
      else if n == 3 { DecodedThree(b); }
      else { DecodedFour(b); }
    }
  }

  lemma DecodedTwo(b: bytes)
    requires b != [] && DecodeFirst(b).0.Some? && DecodeFirst(b).1 == 2
    ensures b[..2] == EncodeChar(DecodeFirst(b).0.value)
  {
    Composed(0, 0, b[0] - 0xC0, b[1] - 0x80);
    assert b[..2] == [b[0], b[1]];
  }

  lemma DecodedThree(b: bytes)
    requires b != [] && DecodeFirst(b).0.Some? && DecodeFirst(b).1 == 3
    ensures b[..3] == EncodeChar(DecodeFirst(b).0.value)
  {
    Composed(0, b[0] - 0xE0, b[1] - 0x80, b[2] - 0x80);
    assert b[..3] == [b[0], b[1], b[2]];
  }

  lemma DecodedFour(b: bytes)
    requires b != [] && DecodeFirst(b).0.Some? && DecodeFirst(b).1 == 4
    ensures b[..4] == EncodeChar(DecodeFirst(b).0.value)
  {
    Composed(b[0] - 0xF0, b[1] - 0x80, b[2] - 0x80, b[3] - 0x80);
    assert b[..4] == [b[0], b[1], b[2], b[3]];
  }

  /** The bytes are the encodings of the characters, one after the other. */
  predicate Spells(b: bytes, s: string)
    decreases s
  {
    if s == "" then b == []
    else
      var e := EncodeChar(s[0]);
      |e| <= |b| && b[..|e|] == e && Spells(b[|e|..], s[1..])
  }

  lemma {:induction false} StrictSpells(b: bytes)
    requires DecodeStrict(b).Some?
    ensures Spells(b, DecodeStrict(b).value)
    decreases |b|
  {
    if b != [] {
      DecodedIsEncoding(b);
      StrictSpells(b[DecodeFirst(b).1..]);
    }
  }

  lemma {:induction false} SpellsEncode(b: bytes, s: string)
    requires Spells(b, s)
    ensures b == Encode(s)
    decreases s
  {
    if s != "" {
      var e := EncodeChar(s[0]);
      SpellsEncode(b[|e|..], s[1..]);
      assert b == b[..|e|] + b[|e|..];
    }
  }

  /** Strict decoding accepts exactly the encodings: no overlong form, no surrogate, nothing cut short. */
  lemma {:induction false} StrictIsExact(b: bytes, s: string)
    ensures DecodeStrict(b) == Some(s) <==> b == Encode(s)
  {
    if b == Encode(s) { DecodeEncode(s); }
    if DecodeStrict(b) == Some(s) {
      StrictSpells(b);
      SpellsEncode(b, s);
    }
  }

  /** The replacing decoder agrees with the strict one, and marks what that refuses. */
  lemma {:induction false} ReplaceMarks(b: bytes)
    ensures DecodeStrict(b).Some? ==> DecodeReplace(b) == DecodeStrict(b).value
    ensures DecodeStrict(b).None? ==> REPLACEMENT in DecodeReplace(b)
    decreases |b|
  {
    if b != [] { ReplaceMarks(b[DecodeFirst(b).1..]); }
  }

  lemma {:induction false} EncodeAppend(s: string, t: string)
    ensures Encode(s + t) == Encode(s) + Encode(t)
  {
    if s == "" {
      assert s + t == t;
    } else {
      assert (s + t)[1..] == s[1..] + t;
      EncodeAppend(s[1..], t);
    }
  }

  /** A single-byte character is never part of the encoding of another one. */
  lemma {:induction false} EncodeContains(s: string, b: byte)
    requires b < 0x80
    ensures b in Encode(s) <==> (b as char) in s
  {
    if s != "" {
      EncodeContains(s[1..], b);
      assert s == [s[0]] + s[1..];
      assert b in EncodeChar(s[0]) <==> s[0] as int == b;
    }
  }

  function Points(s: string): seq<int> {
    if s == "" then [] else [s[0] as int] + Points(s[1..])
  }

  lemma {:induction false} PointsAre(s: string)
    ensures |Points(s)| == |s| && forall i :: 0 <= i < |s| ==> Points(s)[i] == s[i] as int
  {
    if s != "" { PointsAre(s[1..]); }
  }

  /** Two sequences are ordered by the first position where they differ. */
  lemma {:induction false} FirstDifference(u: seq<int>, v: seq<int>, i: nat)
    requires i < |u| && i < |v| && u[..i] == v[..i] && u[i] < v[i]
    ensures Lexicographic.Less(u, v)
  {
    Lexicographic.CommonPrefix(u[..i], u[i..], v[i..]);
    assert u == u[..i] + u[i..] && v == v[..i] + v[i..];
  }

  function Digits(n: nat): seq<int> {
    [n / 262144, n / 4096 % 64, n / 64 % 64, n % 64]
  }

  /** Base-64 digits are ordered as the numbers are. */
  lemma {:induction false} DigitOrder(m: nat, n: nat)
    requires m < n
    ensures var d, e := Digits(m), Digits(n);
      d[0] < e[0] || (d[0] == e[0] && (d[1] < e[1] || (d[1] == e[1] &&
      (d[2] < e[2] || (d[2] == e[2] && d[3] < e[3])))))
  {
    Sextets(m);
    Sextets(n);
  }

  /** The bytes of a character are its last base-64 digits, each moved up by a constant of its place. */
  lemma BytesAreDigits(c: char)
    ensures var d, e := Digits(c as int), EncodeChar(c);
      match |e|
      case 1 => e == [c as int]
      case 2 => d[0] == d[1] == 0 && e == [0xC0 + d[2], 0x80 + d[3]]
      case 3 => d[0] == 0 && e == [0xE0 + d[1], 0x80 + d[2], 0x80 + d[3]]
      case _ => e == [0xF0 + d[0], 0x80 + d[1], 0x80 + d[2], 0x80 + d[3]]
  {
    Sextets(c as int);
  }

  /** Where the encodings of two characters first differ, the smaller character has the smaller byte. */
  lemma CharDifference(a: char, b: char) returns (i: nat)
    requires a < b
    ensures i < |EncodeChar(a)| && i < |EncodeChar(b)|
    ensures EncodeChar(a)[..i] == EncodeChar(b)[..i]
    ensures EncodeChar(a)[i] < EncodeChar(b)[i]
  {
    var p, q := EncodeChar(a), EncodeChar(b);
    if |p| == |q| {
      var m, n := Digits(a as int), Digits(b as int);
      DigitOrder(a as int, b as int);
      BytesAreDigits(a);
      BytesAreDigits(b);
      i := if p[0] != q[0] then 0 else if p[1] != q[1] then 1 else if p[2] != q[2] then 2 else 3;
    } else {
      i := 0;
    }
  }

  lemma {:induction false} CharOrder(a: char, b: char, x: bytes, y: bytes)
    requires a < b
    ensures Lexicographic.Less(EncodeChar(a) + x, EncodeChar(b) + y)
  {
    var i := CharDifference(a, b);
    var u, v := EncodeChar(a) + x, EncodeChar(b) + y;
    assert u[..i] == EncodeChar(a)[..i] && v[..i] == EncodeChar(b)[..i];
    FirstDifference(u, v, i);
  }

  lemma {:induction false} OrderForward(s: string, t: string)
    requires Lexicographic.Less(Points(s), Points(t))
    ensures Lexicographic.Less(Encode(s), Encode(t))
  {
    if s == "" {
    } else if s[0] == t[0] {
      OrderForward(s[1..], t[1..]);
      Lexicographic.CommonPrefix(EncodeChar(s[0]), Encode(s[1..]), Encode(t[1..]));
    } else {
      CharOrder(s[0], t[0], Encode(s[1..]), Encode(t[1..]));
    }
  }

  lemma {:induction false} PointsInjective(s: string, t: string)
    requires Points(s) == Points(t)
    ensures s == t
  {
    if s != "" && t != "" {
      assert Points(s)[1..] == Points(s[1..]) && Points(t)[1..] == Points(t[1..]);
      PointsInjective(s[1..], t[1..]);
      assert s == [s[0]] + s[1..] && t == [t[0]] + t[1..];
    }
  }

  /** UTF-8 preserves lexicographic order: memcmp on the bytes is comparison of code points. */
  lemma {:induction false} OrderPreserved(s: string, t: string)
    ensures Lexicographic.Less(Points(s), Points(t)) <==> Lexicographic.Less(Encode(s), Encode(t))
  {
    if Lexicographic.Less(Points(s), Points(t)) {
      OrderForward(s, t);
    } else if Lexicographic.Less(Encode(s), Encode(t)) {
      Lexicographic.Asymmetric(Encode(s), Encode(t));
      Lexicographic.Total(Points(s), Points(t));
      if Points(s) == Points(t) { PointsInjective(s, t); } else { OrderForward(t, s); }
    }
  }
}
