/** Dictionary order on integer sequences: Python's order on strings (code points) and memcmp on bytes. */
module Lexicographic {

  predicate Less(a: seq<int>, b: seq<int>) {
    b != [] && (a == [] || a[0] < b[0] || (a[0] == b[0] && Less(a[1..], b[1..])))
  }

  /** Less where the two first differ, or at the end of a beginning. */
  lemma {:induction false} LessMeans(a: seq<int>, b: seq<int>)
    ensures Less(a, b) <==> exists n :: 0 <= n <= |a| && n < |b| && a[..n] == b[..n] && (n == |a| || a[n] < b[n])
  {
    if a != [] && b != [] && a[0] == b[0] {
      LessMeans(a[1..], b[1..]);
      if n :| 0 <= n <= |a[1..]| && n < |b[1..]| && a[1..][..n] == b[1..][..n] && (n == |a[1..]| || a[1..][n] < b[1..][n]) {
        assert a[..n + 1] == [a[0]] + a[1..][..n] && b[..n + 1] == [b[0]] + b[1..][..n];
      }
      if n :| 0 <= n <= |a| && n < |b| && a[..n] == b[..n] && (n == |a| || a[n] < b[n]) {
        assert n > 0;
        assert a[1..][..n - 1] == a[..n][1..] && b[1..][..n - 1] == b[..n][1..];
      }
    } else if b != [] {
      assert a[..0] == b[..0];
      forall n | 0 < n <= |a| && n < |b| && a[0] != b[0] ensures a[..n] != b[..n] {
        assert a[..n][0] == a[0] && b[..n][0] == b[0];
      }
    }
  }

  lemma {:induction false} Irreflexive(a: seq<int>)
    ensures !Less(a, a)
  {
    if a != [] { Irreflexive(a[1..]); }
  }

  lemma {:induction false} Transitive(a: seq<int>, b: seq<int>, c: seq<int>)
    requires Less(a, b) && Less(b, c)
    ensures Less(a, c)
  {
    if a != [] && a[0] == b[0] == c[0] { Transitive(a[1..], b[1..], c[1..]); }
  }

  lemma {:induction false} Total(a: seq<int>, b: seq<int>)
    ensures a == b || Less(a, b) || Less(b, a)
  {
    if a != [] && b != [] && a[0] == b[0] {
      Total(a[1..], b[1..]);
      assert a == [a[0]] + a[1..] && b == [b[0]] + b[1..];
    }
  }

  lemma Asymmetric(a: seq<int>, b: seq<int>)
    requires Less(a, b)
    ensures !Less(b, a) && a != b
  {
    Irreflexive(a);
    if Less(b, a) { Transitive(a, b, a); }
  }

  /** A common prefix does not affect the order. */
  lemma {:induction false} CommonPrefix(p: seq<int>, a: seq<int>, b: seq<int>)
    ensures Less(p + a, p + b) <==> Less(a, b)
  {
    if p == [] {
      assert p + a == a && p + b == b;
    } else {
      assert (p + a)[1..] == p[1..] + a && (p + b)[1..] == p[1..] + b;
      CommonPrefix(p[1..], a, b);
    }
  }
}
