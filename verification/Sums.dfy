/** Sums of integer sequences. */
module Sums {

  ghost function Sum(s: seq<int>): int {
    if s == [] then 0 else Sum(s[..|s| - 1]) + s[|s| - 1]
  }

  lemma {:induction false} SumPrefix(s: seq<int>, i: nat)
    requires i < |s|
    ensures Sum(s[..i + 1]) == Sum(s[..i]) + s[i]
  {
    assert s[..i + 1][..i] == s[..i];
  }

  lemma {:induction false} SumUpdate(s: seq<int>, i: nat, v: int)
    requires i < |s|
    ensures Sum(s[i := v]) == Sum(s) - s[i] + v
  {
    var k := |s| - 1;
    var t := s[i := v];
    if i == k {
      assert t[..k] == s[..k];
    } else {
      SumUpdate(s[..k], i, v);
      assert t[..k] == s[..k][i := v];
    }
  }

  lemma {:induction false} SumNonNegative(s: seq<int>)
    requires forall i :: 0 <= i < |s| ==> s[i] >= 0
    ensures Sum(s) >= 0
  {
    if s != [] {
      SumNonNegative(s[..|s| - 1]);
    }
  }

  lemma {:induction false} TermAtMostSum(s: seq<int>, i: nat)
    requires i < |s| && forall k :: 0 <= k < |s| ==> s[k] >= 0
    ensures s[i] <= Sum(s)
  {
    if i == |s| - 1 {
      SumNonNegative(s[..i]);
    } else {
      TermAtMostSum(s[..|s| - 1], i);
    }
  }

  lemma {:induction false} TwoTermsAtMostSum(s: seq<int>, a: nat, b: nat)
    requires a < |s| && b < |s| && a != b && forall i :: 0 <= i < |s| ==> s[i] >= 0
    ensures s[a] + s[b] <= Sum(s)
  {
    SumUpdate(s, a, 0);
    TermAtMostSum(s[a := 0], b);
  }

  /** One place further on, between zeros. */
  lemma {:induction false} ShiftedSum(s: seq<int>, t: seq<int>)
    requires |t| < |s| && s[0] == 0 && (forall i :: 0 <= i < |t| ==> s[i + 1] == t[i])
    requires forall i :: |t| < i < |s| ==> s[i] == 0
    ensures Sum(s) == Sum(t)
    decreases |s|
  {
    var k := |s| - 1;
    if |t| < k {
      ShiftedSum(s[..k], t);
    } else if t != [] {
      ShiftedSum(s[..k], t[..|t| - 1]);
    } else {
      assert s[..k] == [];
    }
  }

  lemma {:induction false} SumOfZeros(s: seq<int>)
    requires forall i :: 0 <= i < |s| ==> s[i] == 0
    ensures Sum(s) == 0
  {
    if s != [] {
      SumOfZeros(s[..|s| - 1]);
    }
  }

  /** A sequence that is nowhere larger has no larger sum, and a smaller one if it is smaller somewhere. */
  lemma {:induction false} SumMono(s: seq<int>, t: seq<int>)
    requires |s| == |t| && forall i :: 0 <= i < |s| ==> s[i] <= t[i]
    ensures Sum(s) <= Sum(t)
    ensures (exists i :: 0 <= i < |s| && s[i] < t[i]) ==> Sum(s) < Sum(t)
  {
    if s != [] {
      var k := |s| - 1;
      SumMono(s[..k], t[..k]);
      if i :| 0 <= i < |s| && s[i] < t[i] {
        if i < k {
          assert s[..k][i] < t[..k][i];
        }
      }
    }
  }
}
