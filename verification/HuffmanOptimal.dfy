/**
 * Why joining the two lightest trees gives a best code. The trees are packed words, weight above depth; r[x] is
 * the word of the tree at x, or zero if there is none, and l[x] the length of the code that leads to it.
 */
module HuffmanOptimal {
  import opened Arith
  import opened Canonical
  import opened Closing
  import opened HuffmanTree
  import opened Sums

  ghost predicate Trees(r: seq<int>) {
    forall x :: 0 <= x < |r| ==> r[x] == 0 || r[x] >= 256
  }

  ghost function Share(z: int, d: int, m: nat): int {
    if z != 0 && 0 <= d <= m then Pow2(m - d) else 0
  }

  /** What each tree adds to the Kraft sum scaled by 2^m. */
  ghost function Shares(r: seq<int>, l: seq<int>, m: nat): (s: seq<int>)
    requires |l| == |r|
    ensures |s| == |r| && forall x :: 0 <= x < |s| ==> s[x] == Share(r[x], l[x], m)
  {
    seq(|r|, x requires 0 <= x < |r| => Share(r[x], l[x], m))
  }

  ghost predicate Codes(r: seq<int>, l: seq<int>, m: nat) {
    && |l| == |r| && (forall x :: 0 <= x < |r| && r[x] != 0 ==> 0 <= l[x] <= m)
    && Sum(Shares(r, l, m)) <= Pow2(m)
  }

  ghost function BitCost(z: int, d: int): int {
    WeightOf(z) * d
  }

  ghost function BitCosts(r: seq<int>, l: seq<int>): (s: seq<int>)
    requires |l| == |r|
    ensures |s| == |r| && forall x :: 0 <= x < |s| ==> s[x] == BitCost(r[x], l[x])
  {
    seq(|r|, x requires 0 <= x < |r| => BitCost(r[x], l[x]))
  }

  ghost function Cost(r: seq<int>, l: seq<int>): int
    requires |l| == |r|
  {
    Sum(BitCosts(r, l))
  }

  /** No leaf of any tree is further down than h. */
  ghost predicate Low(r: seq<int>, l: seq<int>, h: int)
    requires |l| == |r|
  {
    forall x :: 0 <= x < |r| && r[x] != 0 ==> l[x] + DepthOf(r[x]) <= h
  }

  /** With acc bits more, the lengths l' for r' cost less than l for r, or the same and are no deeper. */
  ghost predicate AsGood(r: seq<int>, l: seq<int>, r': seq<int>, l': seq<int>, m: nat, acc: int)
    requires |l| == |r|
  {
    && Codes(r', l', m)
    && (|| Cost(r', l') + acc < Cost(r, l)
        || (Cost(r', l') + acc == Cost(r, l) && forall h {:trigger Low(r, l, h)} {:trigger Low(r', l', h)} :: Low(r, l, h) ==> Low(r', l', h)))
  }

  lemma {:induction false} AsGoodTrans(r: seq<int>, l: seq<int>, r': seq<int>, l': seq<int>, r'': seq<int>, l'': seq<int>, m: nat, a: int, b: int)
    requires |l| == |r| && AsGood(r, l, r', l', m, a) && AsGood(r', l', r'', l'', m, b)
    ensures AsGood(r, l, r'', l'', m, a + b)
  {
  }

  // ---- exchanging two lengths ----

  lemma {:induction false} Crosswise(a: int, b: int, p: int, q: int)
    requires a <= b && p <= q
    ensures a * q + b * p <= a * p + b * q
    ensures a * q + b * p == a * p + b * q ==> a == b || p == q
  {
    assert (b - a) * (q - p) == b * q - b * p - a * q + a * p;
    if a < b && p < q {
      assert (b - a) * (q - p) > 0;
    }
  }

  ghost function Swapped(l: seq<int>, a: nat, u: nat): (l': seq<int>)
    requires a < |l| && u < |l|
    ensures |l'| == |l|
  {
    l[a := l[u]][u := l[a]]
  }

  lemma {:induction false} SumTwo(s: seq<int>, t: seq<int>, a: nat, u: nat)
    requires |s| == |t| && a < |s| && u < |s| && a != u && forall x :: 0 <= x < |s| && x != a && x != u ==> t[x] == s[x]
    ensures Sum(t) == Sum(s) - s[a] - s[u] + t[a] + t[u]
  {
    SumUpdate(s, a, t[a]);
    SumUpdate(s[a := t[a]], u, t[u]);
    assert t == s[a := t[a]][u := t[u]];
  }

  lemma {:induction false} WordOrder(a: int, b: int)
    requires a <= b
    ensures WeightOf(a) < WeightOf(b) || (WeightOf(a) == WeightOf(b) && DepthOf(a) <= DepthOf(b))
  {
  }

  /** The lighter tree may have the longer code. */
  lemma {:induction false} SwapGood(r: seq<int>, l: seq<int>, m: nat, a: nat, u: nat)
    requires Codes(r, l, m) && a < |r| && u < |r| && a != u && r[a] != 0 && r[u] != 0 && r[a] <= r[u] && l[a] <= l[u]
    ensures AsGood(r, l, r, Swapped(l, a, u), m, 0)
  {
    var l' := Swapped(l, a, u);
    SumTwo(Shares(r, l, m), Shares(r, l', m), a, u);
    SumTwo(BitCosts(r, l), BitCosts(r, l'), a, u);
    WordOrder(r[a], r[u]);
    Crosswise(WeightOf(r[a]), WeightOf(r[u]), l[a], l[u]);
    if Cost(r, l') == Cost(r, l) && l[a] != l[u] {
      forall h | Low(r, l, h)
        ensures Low(r, l', h)
      {
      }
    } else if l[a] == l[u] {
      assert l' == l;
    }
  }

  // ---- shortening ----

  ghost function Times(t: int, d: int): int {
    t * d
  }

  ghost predicate Multiple(n: int, d: int) {
    exists t {:trigger Times(t, d)} :: n == Times(t, d)
  }

  lemma {:induction false} SumMultiple(s: seq<int>, d: int)
    requires forall x :: 0 <= x < |s| ==> Multiple(s[x], d)
    ensures Multiple(Sum(s), d)
  {
    if s == [] {
      assert 0 == Times(0, d);
    } else {
      var k := |s| - 1;
      SumMultiple(s[..k], d);
      assert Multiple(s[k], d);
      var t :| Sum(s[..k]) == Times(t, d);
      var u :| s[k] == Times(u, d);
      assert Sum(s) == Times(t + u, d);
    }
  }

  lemma {:induction false} PowerMultiple(m: nat, n: nat)
    requires n <= m
    ensures Multiple(Pow2(m), Pow2(n))
  {
    Pow2Add(m - n, n);
    assert Pow2(m) == Times(Pow2(m - n), Pow2(n));
  }

  lemma {:induction false} NextMultiple(a: int, b: int, d: int)
    requires Multiple(a, d) && Multiple(b, d) && a < b && d > 0
    ensures a + d <= b
  {
    var t :| a == Times(t, d);
    var u :| b == Times(u, d);
    if t >= u {
      MulMono(u, t, d);
    } else {
      MulMono(t + 1, u, d);
      assert (t + 1) * d == t * d + d;
    }
  }

  /** The only longest code leaves as much room as it takes. */
  lemma {:induction false} RoomToShorten(r: seq<int>, l: seq<int>, m: nat, a: nat)
    requires Codes(r, l, m) && a < |r| && r[a] != 0 && l[a] > 0
    requires forall x :: 0 <= x < |r| && r[x] != 0 && x != a ==> l[x] < l[a]
    ensures Sum(Shares(r, l, m)) + Pow2(m - l[a]) <= Pow2(m)
  {
    var s, n := Shares(r, l, m), m - l[a] + 1;
    var d, others := Pow2(n), s[a := 0];
    forall x | 0 <= x < |others|
      ensures Multiple(others[x], d)
    {
      if x == a || r[x] == 0 {
        assert 0 == Times(0, d);
      } else {
        PowerMultiple(m - l[x], n);
      }
    }
    SumMultiple(others, d);
    SumUpdate(s, a, 0);
    PowerMultiple(m, n);
    NextMultiple(Sum(others), Pow2(m), d);
  }

  lemma {:induction false} ShortenGood(r: seq<int>, l: seq<int>, m: nat, a: nat)
    requires Trees(r) && Codes(r, l, m) && a < |r| && r[a] != 0 && l[a] > 0
    requires forall x :: 0 <= x < |r| && r[x] != 0 && x != a ==> l[x] < l[a]
    ensures Codes(r, l[a := l[a] - 1], m) && Cost(r, l[a := l[a] - 1]) < Cost(r, l)
  {
    var l' := l[a := l[a] - 1];
    RoomToShorten(r, l, m, a);
    SumUpdate(Shares(r, l, m), a, Share(r[a], l'[a], m));
    assert Shares(r, l', m) == Shares(r, l, m)[a := Share(r[a], l'[a], m)];
    SumUpdate(BitCosts(r, l), a, BitCost(r[a], l'[a]));
    assert BitCosts(r, l') == BitCosts(r, l)[a := BitCost(r[a], l'[a])];
    assert WeightOf(r[a]) * (l[a] - 1) == WeightOf(r[a]) * l[a] - WeightOf(r[a]);
  }

  // ---- the two lightest side by side at the bottom ----

  ghost predicate TwoLightest(r: seq<int>, a: int, b: int) {
    && 0 <= a < |r| && 0 <= b < |r| && a != b && 0 < r[a] <= r[b]
    && forall x :: 0 <= x < |r| && r[x] != 0 && x != a ==> r[b] <= r[x]
  }

  /** Among the first n places. */
  lemma {:induction false} Deepest(r: seq<int>, l: seq<int>, a: nat, n: nat) returns (u: nat)
    requires |l| == |r| && n <= |r| && a < |r| && r[a] != 0
    ensures u < |r| && r[u] != 0 && l[a] <= l[u] && forall x :: 0 <= x < n && r[x] != 0 ==> l[x] <= l[u]
    decreases n
  {
    if n == 0 {
      u := a;
    } else {
      u := Deepest(r, l, a, n - 1);
      if r[n - 1] != 0 && l[u] < l[n - 1] {
        u := n - 1;
      }
    }
  }

  lemma {:induction false} SharesNonNegative(r: seq<int>, l: seq<int>, m: nat)
    requires |l| == |r|
    ensures forall x :: 0 <= x < |r| ==> Shares(r, l, m)[x] >= 0
  {
  }

  /** With two trees no code is empty. */
  lemma {:induction false} NotEmpty(r: seq<int>, l: seq<int>, m: nat, a: nat, b: nat)
    requires Codes(r, l, m) && a < |r| && b < |r| && a != b && r[a] != 0 && r[b] != 0
    ensures l[a] > 0
  {
    if l[a] == 0 {
      SharesNonNegative(r, l, m);
      TwoTermsAtMostSum(Shares(r, l, m), a, b);
    }
  }

  lemma {:induction false} CostNonNegative(r: seq<int>, l: seq<int>, m: nat)
    requires Trees(r) && Codes(r, l, m)
    ensures Cost(r, l) >= 0
  {
    forall x | 0 <= x < |r|
      ensures BitCosts(r, l)[x] >= 0
    {
      if r[x] == 0 {
        assert BitCost(0, l[x]) == 0;
      } else {
        MulMono(0, WeightOf(r[x]), l[x]);
      }
    }
    SumNonNegative(BitCosts(r, l));
  }

  /** The lightest tree can have the longest code. */
  lemma {:induction false} LightestDeep(r: seq<int>, l: seq<int>, m: nat, a: nat, b: nat) returns (l': seq<int>)
    requires Codes(r, l, m) && TwoLightest(r, a, b)
    ensures AsGood(r, l, r, l', m, 0) && forall x :: 0 <= x < |r| && r[x] != 0 ==> l'[x] <= l'[a]
  {
    var u := Deepest(r, l, a, |r|);
    if u == a {
      l' := l;
    } else {
      assert r[a] <= r[u];
      SwapGood(r, l, m, a, u);
      l' := Swapped(l, a, u);
    }
  }

  lemma {:induction false} SideBySide(r: seq<int>, l: seq<int>, m: nat, a: nat, b: nat) returns (l': seq<int>)
    requires Trees(r) && Codes(r, l, m) && TwoLightest(r, a, b)
    ensures AsGood(r, l, r, l', m, 0) && l'[a] == l'[b] > 0
    decreases Cost(r, l)
  {
    var k := LightestDeep(r, l, m, a, b);
    NotEmpty(r, k, m, a, b);
    if v: int :| 0 <= v < |r| && r[v] != 0 && v != a && k[v] == k[a] {
      l' := Swapped(k, b, v);
      if v == b {
        assert l' == k;
      } else {
        SwapGood(r, k, m, b, v);
      }
      AsGoodTrans(r, l, r, k, r, l', m, 0, 0);
    } else {
      var s := k[a := k[a] - 1];
      ShortenGood(r, k, m, a);
      CostNonNegative(r, s, m);
      l' := SideBySide(r, s, m, a, b);
      AsGoodTrans(r, k, r, s, r, l', m, 0, 0);
      AsGoodTrans(r, l, r, k, r, l', m, 0, 0);
    }
  }

  // ---- joining them ----

  ghost function JoinedAt(r: seq<int>, a: nat, b: nat, k: nat, z: int): (r': seq<int>)
    requires a < |r| && b < |r| && k < |r|
    ensures |r'| == |r|
  {
    r[a := 0][b := 0][k := z]
  }

  lemma {:induction false} SumThree(s: seq<int>, t: seq<int>, a: nat, b: nat, k: nat)
    requires |s| == |t| && a < |s| && b < |s| && k < |s| && a != b && a != k && b != k
    requires forall x :: 0 <= x < |s| && x != a && x != b && x != k ==> t[x] == s[x]
    ensures Sum(t) == Sum(s) - s[a] - s[b] - s[k] + t[a] + t[b] + t[k]
  {
    SumUpdate(s, k, t[k]);
    SumTwo(s[k := t[k]], t, a, b);
  }

  /** What joining is about: a and b have codes of one length, which k gets without its last bit. */
  ghost predicate Joins(r: seq<int>, l: seq<int>, a: nat, b: nat, k: nat, z: int) {
    && |l| == |r| && a < |r| && b < |r| && k < |r| && a != b && r[a] != 0 && r[b] != 0 && r[k] == 0
    && l[a] == l[b] > 0 && Combined(z, r[a], r[b]) && z != 0
  }

  lemma {:induction false} JoinedCodes(r: seq<int>, l: seq<int>, m: nat, a: nat, b: nat, k: nat, z: int)
    requires Codes(r, l, m) && Joins(r, l, a, b, k, z)
    ensures Codes(JoinedAt(r, a, b, k, z), l[k := l[a] - 1], m)
  {
    SumThree(Shares(r, l, m), Shares(JoinedAt(r, a, b, k, z), l[k := l[a] - 1], m), a, b, k);
    assert Pow2(m - l[a] + 1) == 2 * Pow2(m - l[a]);
  }

  lemma {:induction false} OneBitLess(u: int, v: int, d: int)
    ensures (u + v) * (d - 1) + (u + v) == u * d + v * d
  {
  }

  lemma {:induction false} JoinedCost(r: seq<int>, l: seq<int>, a: nat, b: nat, k: nat, z: int)
    requires Joins(r, l, a, b, k, z)
    ensures Cost(JoinedAt(r, a, b, k, z), l[k := l[a] - 1]) + WeightOf(z) == Cost(r, l)
  {
    var r', l' := JoinedAt(r, a, b, k, z), l[k := l[a] - 1];
    SumThree(BitCosts(r, l), BitCosts(r', l'), a, b, k);
    OneBitLess(WeightOf(r[a]), WeightOf(r[b]), l[a]);
  }

  lemma {:induction false} JoinGood(r: seq<int>, l: seq<int>, m: nat, a: nat, b: nat, k: nat, z: int)
    requires Codes(r, l, m) && Joins(r, l, a, b, k, z)
    ensures AsGood(r, l, JoinedAt(r, a, b, k, z), l[k := l[a] - 1], m, WeightOf(z))
  {
    JoinedCodes(r, l, m, a, b, k, z);
    JoinedCost(r, l, a, b, k, z);
    forall h | Low(r, l, h)
      ensures Low(JoinedAt(r, a, b, k, z), l[k := l[a] - 1], h)
    {
    }
  }

  ghost predicate Matched(r0: seq<int>, l: seq<int>, r: seq<int>, m: nat, acc: int)
    requires |l| == |r0|
  {
    exists l' {:trigger AsGood(r0, l, r, l', m, acc)} :: AsGood(r0, l, r, l', m, acc)
  }

  /** Any code for r0 is matched by one for r that costs acc bits less. */
  ghost predicate Reduces(r0: seq<int>, r: seq<int>, acc: int) {
    forall u {:trigger Look(u)} :: Look(u) ==>
      forall l, m: nat {:trigger Codes(r0, l, m)} :: Codes(r0, l, m) ==> Matched(r0, l, r, m, acc)
  }

  lemma {:induction false} ReducesSelf(r: seq<int>)
    ensures Reduces(r, r, 0)
  {
    forall l, m: nat | Codes(r, l, m)
      ensures Matched(r, l, r, m, 0)
    {
      assert AsGood(r, l, r, l, m, 0);
    }
  }

  /** Joining the two lightest trees costs no code more than the weight of what they become. */
  lemma {:induction false} ReducesMore(r0: seq<int>, r: seq<int>, acc: int, a: nat, b: nat, k: nat, z: int)
    requires Reduces(r0, r, acc) && Trees(r) && TwoLightest(r, a, b) && k < |r| && r[k] == 0
    requires Combined(z, r[a], r[b]) && z != 0
    ensures Reduces(r0, JoinedAt(r, a, b, k, z), acc + WeightOf(z))
  {
    assert Look(0);
    forall l, m: nat | Codes(r0, l, m)
      ensures Matched(r0, l, JoinedAt(r, a, b, k, z), m, acc + WeightOf(z))
    {
      MatchedMore(r0, l, r, m, acc, a, b, k, z);
    }
  }

  lemma {:induction false} MatchedMore(r0: seq<int>, l: seq<int>, r: seq<int>, m: nat, acc: int, a: nat, b: nat, k: nat, z: int)
    requires |l| == |r0| && Matched(r0, l, r, m, acc) && Trees(r) && TwoLightest(r, a, b) && k < |r| && r[k] == 0
    requires Combined(z, r[a], r[b]) && z != 0
    ensures Matched(r0, l, JoinedAt(r, a, b, k, z), m, acc + WeightOf(z))
  {
    var l1 :| AsGood(r0, l, r, l1, m, acc);
    var l2 := SideBySide(r, l1, m, a, b);
    AsGoodTrans(r0, l, r, l1, r, l2, m, acc, 0);
    JoinMatched(r0, l, r, l2, m, acc, a, b, k, z);
  }

  lemma {:induction false} JoinMatched(r0: seq<int>, l: seq<int>, r: seq<int>, l2: seq<int>, m: nat, acc: int, a: nat, b: nat, k: nat, z: int)
    requires |l| == |r0| && AsGood(r0, l, r, l2, m, acc) && Joins(r, l2, a, b, k, z)
    ensures Matched(r0, l, JoinedAt(r, a, b, k, z), m, acc + WeightOf(z))
  {
    var r', l' := JoinedAt(r, a, b, k, z), l2[k := l2[a] - 1];
    JoinGood(r, l2, m, a, b, k, z);
    AsGoodTrans(r0, l, r, l2, r', l', m, acc, WeightOf(z));
  }
}
