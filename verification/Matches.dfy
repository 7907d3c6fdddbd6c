/** Common prefixes of suffixes, and the order of suffixes. */
module Matches {
  import opened Bytes

  /** n bytes of s from a on equal those of t from b on. */
  ghost predicate Match(s: seq<byte>, a: int, t: seq<byte>, b: int, n: int) {
    0 <= n && 0 <= a && a + n <= |s| && 0 <= b && b + n <= |t| && s[a..a + n] == t[b..b + n]
  }

  lemma {:induction false} MatchMore(s: seq<byte>, a: int, t: seq<byte>, b: int, n: int)
    requires Match(s, a, t, b, n) && a + n < |s| && b + n < |t| && s[a + n] == t[b + n]
    ensures Match(s, a, t, b, n + 1)
  {
    assert s[a..a + n + 1] == s[a..a + n] + [s[a + n]];
    assert t[b..b + n + 1] == t[b..b + n] + [t[b + n]];
  }

  lemma {:induction false} MatchAt(s: seq<byte>, a: int, t: seq<byte>, b: int, n: int, i: int)
    requires Match(s, a, t, b, n) && 0 <= i < n
    ensures s[a + i] == t[b + i]
  {
    assert s[a..a + n][i] == t[b..b + n][i];
  }

  lemma {:induction false} MatchLess(s: seq<byte>, a: int, t: seq<byte>, b: int, n: int, m: int)
    requires Match(s, a, t, b, n) && 0 <= m <= n
    ensures Match(s, a, t, b, m)
  {
    assert s[a..a + m] == s[a..a + n][..m];
    assert t[b..b + m] == t[b..b + n][..m];
  }

  lemma {:induction false} MatchJoin(s: seq<byte>, a: int, t: seq<byte>, b: int, n: int, m: int)
    requires Match(s, a, t, b, n) && Match(s, a + n, t, b + n, m)
    ensures Match(s, a, t, b, n + m)
  {
    assert s[a..a + n + m] == s[a..a + n] + s[a + n..a + n + m];
    assert t[b..b + n + m] == t[b..b + n] + t[b + n..b + n + m];
  }

  /** The match cannot be made longer. */
  ghost predicate Full(s: seq<byte>, a: int, t: seq<byte>, b: int, n: int) {
    Match(s, a, t, b, n) && (a + n == |s| || b + n == |t| || s[a + n] != t[b + n])
  }

  lemma {:induction false} FullIsLongest(s: seq<byte>, a: int, t: seq<byte>, b: int, n: int, m: int)
    requires Full(s, a, t, b, n) && Match(s, a, t, b, m)
    ensures m <= n
  {
    if n < m {
      MatchAt(s, a, t, b, m, n);
    }
  }

  /** After m equal bytes s ends first, or has the smaller byte. */
  ghost predicate SmallerAt(s: seq<byte>, a: int, t: seq<byte>, b: int, m: int) {
    Match(s, a, t, b, m) && b + m < |t| && (a + m < |s| ==> s[a + m] < t[b + m])
  }

  /** The suffix of s at a comes before the suffix of t at b. */
  ghost predicate Smaller(s: seq<byte>, a: int, t: seq<byte>, b: int) {
    exists m {:trigger SmallerAt(s, a, t, b, m)} :: SmallerAt(s, a, t, b, m)
  }

  /** After m equal bytes s has the smaller byte. */
  ghost predicate LowerAt(s: seq<byte>, a: int, t: seq<byte>, b: int, m: int) {
    Match(s, a, t, b, m) && a + m < |s| && b + m < |t| && s[a + m] < t[b + m]
  }

  /** The first byte that differs is smaller in s. */
  ghost predicate Lower(s: seq<byte>, a: int, t: seq<byte>, b: int) {
    exists m {:trigger LowerAt(s, a, t, b, m)} :: LowerAt(s, a, t, b, m)
  }

  lemma {:induction false} SmallerAfter(s: seq<byte>, a: int, t: seq<byte>, b: int, n: int)
    requires Match(s, a, t, b, n) && Smaller(s, a + n, t, b + n)
    ensures Smaller(s, a, t, b)
  {
    var m :| SmallerAt(s, a + n, t, b + n, m);
    MatchJoin(s, a, t, b, n, m);
    assert SmallerAt(s, a, t, b, n + m);
  }

  /** What the outer two of three suffixes in order share, the middle one shares too. */
  lemma {:induction false} Between(s: seq<byte>, a: int, t: seq<byte>, b: int, u: seq<byte>, c: int, m: int)
    requires Smaller(s, a, t, b) && Smaller(t, b, u, c) && Match(s, a, u, c, m)
    ensures Match(s, a, t, b, m) && Match(t, b, u, c, m)
  {
    var p :| SmallerAt(s, a, t, b, p);
    var q :| SmallerAt(t, b, u, c, q);
    if p < m {
      MatchAt(s, a, u, c, m, p);
      if q < p {
        MatchAt(s, a, t, b, p, q);
        MatchAt(s, a, u, c, m, q);
      } else if p < q {
        MatchAt(t, b, u, c, q, p);
      }
    } else {
      MatchLess(s, a, t, b, p, m);
      assert s[a..a + m] == t[b..b + m];
    }
  }
}
