/** Permutations of 0..n-1 held in sequences, and the pigeonhole facts the sorting proofs rest on. */
module Permutations {

  ghost predicate Distinct(s: seq<int>) {
    forall i, j :: 0 <= i < j < |s| ==> s[i] != s[j]
  }

  ghost predicate Within(s: seq<int>, n: int) {
    forall i :: 0 <= i < |s| ==> 0 <= s[i] < n
  }

  /** n values below n with n different ones among them. */
  ghost predicate IsPerm(s: seq<int>, n: nat) {
    |s| == n && |Elements(s)| == n && Within(s, n)
  }

  lemma {:induction false} PermDistinct(s: seq<int>, n: nat)
    requires IsPerm(s, n)
    ensures Distinct(s)
  {
    FullSizeDistinct(s);
  }

  lemma {:induction false} DistinctPerm(s: seq<int>, n: nat)
    requires |s| == n && Within(s, n) && Distinct(s)
    ensures IsPerm(s, n)
  {
    DistinctSize(s);
  }

  ghost function Range(n: nat): (r: set<int>)
    ensures forall x :: x in r <==> 0 <= x < n
  {
    if n == 0 then {} else Range(n - 1) + {n - 1}
  }

  ghost function Elements(s: seq<int>): set<int> {
    set x | x in s
  }

  lemma {:induction false} RangeSize(n: nat)
    ensures |Range(n)| == n
  {
    if n > 0 {
      RangeSize(n - 1);
    }
  }

  lemma {:induction false} DistinctSize(s: seq<int>)
    requires Distinct(s)
    ensures |Elements(s)| == |s|
  {
    if s == [] {
      assert Elements(s) == {};
    } else {
      var last := |s| - 1;
      DistinctSize(s[..last]);
      assert Elements(s) == Elements(s[..last]) + {s[last]};
    }
  }

  lemma {:induction false} ElementsSize(s: seq<int>)
    ensures |Elements(s)| <= |s|
  {
    if s == [] {
      assert Elements(s) == {};
    } else {
      var last := |s| - 1;
      ElementsSize(s[..last]);
      assert Elements(s) == Elements(s[..last]) + {s[last]};
    }
  }

  lemma {:induction false} SubsetSize(a: set<int>, b: set<int>)
    requires a <= b
    ensures |a| <= |b|
    ensures |a| == |b| ==> a == b
  {
    assert b == a + (b - a);
    assert |b| == |a| + |b - a|;
  }

  /** A permutation of 0..n-1 takes every value below n. */
  lemma {:induction false} PermOnto(s: seq<int>, n: nat, x: int) returns (i: nat)
    requires IsPerm(s, n)
    requires 0 <= x < n
    ensures i < n && s[i] == x
  {
    RangeSize(n);
    assert Elements(s) <= Range(n);
    SubsetSize(Elements(s), Range(n));
    assert x in Elements(s);
    i :| 0 <= i < n && s[i] == x;
  }

  /** Distinct values below n: there are at most n of them. */
  lemma {:induction false} DistinctBound(s: seq<int>, n: nat)
    requires Distinct(s) && Within(s, n)
    ensures |s| <= n
  {
    DistinctSize(s);
    RangeSize(n);
    assert Elements(s) <= Range(n);
    SubsetSize(Elements(s), Range(n));
  }

  /** Rearranging a permutation gives a permutation. */
  lemma {:induction false} PermByMultiset(s: seq<int>, t: seq<int>, n: nat)
    requires IsPerm(s, n)
    requires multiset(s) == multiset(t)
    ensures IsPerm(t, n)
  {
    assert |s| == |multiset(s)| == |multiset(t)| == |t|;
    forall i | 0 <= i < |t|
      ensures 0 <= t[i] < n
    {
      assert t[i] in multiset(t);
      assert t[i] in s;
    }
    assert Elements(s) == Elements(t) by {
      forall x ensures x in s <==> x in t {
        assert x in multiset(s) <==> x in s;
        assert x in multiset(t) <==> x in t;
      }
    }
  }

  lemma {:induction false} FullSizeDistinct(t: seq<int>)
    requires |Elements(t)| == |t|
    ensures Distinct(t)
  {
    forall i, j | 0 <= i < j < |t|
      ensures t[i] != t[j]
    {
      if t[i] == t[j] {
        RepeatShrinks(t, i, j);
      }
    }
  }

  lemma {:induction false} RepeatShrinks(t: seq<int>, i: nat, j: nat)
    requires i < j < |t| && t[i] == t[j]
    ensures |Elements(t)| < |t|
  {
    var u := t[..j] + t[j + 1..];
    ElementsSize(u);
    assert Elements(u) == Elements(t) by {
      forall x | x in t
        ensures x in u
      {
        var k :| 0 <= k < |t| && t[k] == x;
        var m := if k < j then k else if k > j then k - 1 else i;
        assert u[m] == x;
      }
    }
  }

  /** The first k + 1 values of one permutation do not fit in the first k places of another. */
  lemma {:induction false} PrefixEscapes(p: seq<int>, q: seq<int>, n: nat, k: nat) returns (i: nat, j: nat)
    requires IsPerm(p, n) && IsPerm(q, n)
    requires k < n
    ensures i <= k <= j < n && p[i] == q[j]
  {
    PermDistinct(p, n);
    DistinctSize(p[..k + 1]);
    ElementsSize(q[..k]);
    if Elements(p[..k + 1]) <= Elements(q[..k]) {
      SubsetSize(Elements(p[..k + 1]), Elements(q[..k]));
    }
    var x :| x in p[..k + 1] && x !in q[..k];
    i :| 0 <= i < k + 1 && p[i] == x;
    j := PermOnto(q, n, x);
    assert forall m | 0 <= m < k :: q[..k][m] == q[m];
  }
}
