/** Best codes: the leaves of a tree that was built from the lightest parts have one. */
module HuffmanBest {
  import opened Arith
  import opened Canonical
  import opened Closing
  import opened HuffmanOptimal
  import opened HuffmanTree
  import opened Sums

  // ---- what a best code is ----

  /** Lengths that some code without common prefixes has; m is any bound on them. */
  ghost predicate IsCode(len: seq<int>, n: nat, m: nat) {
    |len| == n && (forall i :: 0 <= i < n ==> 0 <= len[i] <= m) && Kraft(len, m) <= Pow2(m)
  }

  ghost function Products(ws: seq<int>, len: seq<int>): (s: seq<int>)
    requires |len| == |ws|
    ensures |s| == |ws| && forall i :: 0 <= i < |s| ==> s[i] == ws[i] * len[i]
  {
    seq(|ws|, i requires 0 <= i < |ws| => ws[i] * len[i])
  }

  /** How many bits it takes to send each symbol as often as it weighs. */
  ghost function TotalBits(ws: seq<int>, len: seq<int>): int
    requires |len| == |ws|
  {
    Sum(Products(ws, len))
  }

  ghost predicate AllUpTo(len: seq<int>, h: int) {
    forall i :: 0 <= i < |len| ==> len[i] <= h
  }

  /** Fewer bits, or as many and no longer at its longest. */
  ghost predicate NoWorse(ws: seq<int>, len: seq<int>, other: seq<int>)
    requires |len| == |other| == |ws|
  {
    || TotalBits(ws, len) < TotalBits(ws, other)
    || (TotalBits(ws, len) == TotalBits(ws, other) && forall h {:trigger AllUpTo(other, h)} :: AllUpTo(other, h) ==> AllUpTo(len, h))
  }

  ghost predicate HasCode(len: seq<int>, n: nat) {
    exists m: nat {:trigger IsCode(len, n, m)} :: IsCode(len, n, m)
  }

  /** No code takes fewer bits, and none that takes as many has a shorter longest length. */
  ghost predicate Best(ws: seq<int>, len: seq<int>) {
    HasCode(len, |ws|) && |len| == |ws| && forall other {:trigger HasCode(other, |ws|)} :: HasCode(other, |ws|) ==> NoWorse(ws, len, other)
  }

  /** No code takes fewer bits. */
  ghost predicate Least(ws: seq<int>, len: seq<int>) {
    && HasCode(len, |ws|) && |len| == |ws|
    && forall other {:trigger HasCode(other, |ws|)} :: HasCode(other, |ws|) && |other| == |ws| ==> TotalBits(ws, len) <= TotalBits(ws, other)
  }

  /** Every code that takes the fewest bits has a length above maxLen. */
  ghost predicate TooDeep(ws: seq<int>, maxLen: int) {
    forall len {:trigger Least(ws, len)} :: Least(ws, len) ==> !AllUpTo(len, maxLen)
  }

  /** The best code tells whether any of the fewest bits keeps to the limit. */
  lemma {:induction false} BestDecides(ws: seq<int>, len: seq<int>, maxLen: int)
    requires Best(ws, len)
    ensures Least(ws, len) && (TooDeep(ws, maxLen) <==> !AllUpTo(len, maxLen))
  {
    forall other | Least(ws, other) && AllUpTo(other, maxLen)
      ensures AllUpTo(len, maxLen)
    {
      assert NoWorse(ws, len, other);
      assert HasCode(len, |ws|);
    }
  }

  // ---- the leaves ----

  ghost function Leaves(w: seq<int>, alpha: nat): (s: seq<int>)
    requires alpha < |w|
    ensures |s| == alpha && forall i :: 0 <= i < alpha ==> s[i] == WeightOf(w[i + 1])
  {
    seq(alpha, i requires 0 <= i < alpha => WeightOf(w[i + 1]))
  }

  ghost predicate LeafWeights(w: seq<int>, alpha: nat) {
    |w| == NODES && 2 <= alpha <= MAX_ALPHA_SIZE && forall x :: 1 <= x <= alpha ==> w[x] >= 256 && DepthOf(w[x]) == 0
  }

  ghost function LeafWords(w: seq<int>, alpha: nat): (r: seq<int>)
    requires alpha < |w|
    ensures |r| == |w| && forall x :: 0 <= x < |r| ==> r[x] == if 1 <= x <= alpha then w[x] else 0
  {
    seq(|w|, x requires 0 <= x < |w| => if 1 <= x <= alpha then w[x] else 0)
  }

  ghost function AtNodes(len: seq<int>, n: nat): (l: seq<int>)
    ensures |l| == n && forall x :: 0 <= x < n ==> l[x] == if 1 <= x <= |len| then len[x - 1] else 0
  {
    seq(n, x requires 0 <= x < n => if 1 <= x <= |len| then len[x - 1] else 0)
  }

  /** A code for the symbols is one for the leaves. */
  lemma {:induction false} LeafCode(w: seq<int>, alpha: nat, len: seq<int>, m: nat)
    requires LeafWeights(w, alpha) && IsCode(len, alpha, m)
    ensures Codes(LeafWords(w, alpha), AtNodes(len, NODES), m)
  {
    KraftIsSum(len, m);
    ShiftedSum(Shares(LeafWords(w, alpha), AtNodes(len, NODES), m), Powers(len, m));
  }

  lemma {:induction false} LeafCost(w: seq<int>, alpha: nat, len: seq<int>)
    requires LeafWeights(w, alpha) && |len| == alpha
    ensures Cost(LeafWords(w, alpha), AtNodes(len, NODES)) == TotalBits(Leaves(w, alpha), len)
  {
    var s, t := BitCosts(LeafWords(w, alpha), AtNodes(len, NODES)), Products(Leaves(w, alpha), len);
    forall i | 0 <= i < alpha
      ensures s[i + 1] == t[i]
    {
      assert LeafWords(w, alpha)[i + 1] == w[i + 1] && AtNodes(len, NODES)[i + 1] == len[i];
    }
    ShiftedSum(s, t);
  }

  // ---- what the tree costs ----

  /** The weights of the nodes above k. */
  ghost function Above(w: seq<int>, k: nat, n: nat): int
    requires n < |w|
    decreases n - k
  {
    if n <= k then 0 else WeightOf(w[k + 1]) + Above(w, k + 1, n)
  }

  lemma {:induction false} AboveMore(w: seq<int>, k: nat, n: nat, z: int)
    requires k <= n && n + 1 < |w|
    ensures Above(w[n + 1 := z], k, n + 1) == Above(w, k, n) + WeightOf(z)
    decreases n - k
  {
    if k < n {
      AboveMore(w, k + 1, n, z);
    }
  }

  /** What node x costs when the tree is cut below node k. */
  ghost function CutTerm(parent: seq<int>, w: seq<int>, n: nat, k: nat, x: nat): int
    requires x < |parent| == |w|
  {
    if 1 <= x <= k && (x == n || parent[x] > k) then BitCost(w[x], Dist(parent, x, n)) else 0
  }

  ghost function CutCosts(parent: seq<int>, w: seq<int>, n: nat, k: nat): (s: seq<int>)
    requires |parent| == |w|
    ensures |s| == |w| && forall x :: 0 <= x < |s| ==> s[x] == CutTerm(parent, w, n, k, x)
  {
    seq(|w|, x requires 0 <= x < |w| => CutTerm(parent, w, n, k, x))
  }

  /** One step further down every leaf below k costs one bit more. */
  lemma {:induction false} CutCostStep(f: Forest, pos: seq<int>, w: seq<int>, alpha: nat, n: nat, k: nat)
    requires Whole(f, pos, alpha, n) && Weighted(f, w, alpha, n) && alpha < k <= n
    ensures Sum(CutCosts(f.parent, w, n, k - 1)) == Sum(CutCosts(f.parent, w, n, k)) + WeightOf(w[k])
  {
    var s, t := CutCosts(f.parent, w, n, k), CutCosts(f.parent, w, n, k - 1);
    assert Joined(f, k);
    assert CombinedAt(f, w, k);
    var a, b := f.kid1[k], f.kid2[k];
    ParentOf(f, pos, alpha, n, a);
    ParentOf(f, pos, alpha, n, b);
    CutCostTop(f, pos, w, alpha, n, k);
    CutCostElse(f, pos, w, alpha, n, k);
    SumThree(s, t, a, b, k);
    OneBitLess(WeightOf(w[a]), WeightOf(w[b]), Dist(f.parent, a, n));
  }

  lemma {:induction false} CutCostTop(f: Forest, pos: seq<int>, w: seq<int>, alpha: nat, n: nat, k: nat)
    requires Whole(f, pos, alpha, n) && |w| == NODES && alpha < k <= n
    ensures CutTerm(f.parent, w, n, k, k) == BitCost(w[k], Dist(f.parent, k, n))
  {
    if k < n {
      ParentOf(f, pos, alpha, n, k);
    }
  }

  /** Only k and its children are cut differently. */
  lemma {:induction false} CutCostElse(f: Forest, pos: seq<int>, w: seq<int>, alpha: nat, n: nat, k: nat)
    requires Whole(f, pos, alpha, n) && |w| == NODES && alpha < k <= n
    ensures forall x :: 0 <= x < NODES && x != k && x != f.kid1[k] && x != f.kid2[k] ==>
      CutTerm(f.parent, w, n, k - 1, x) == CutTerm(f.parent, w, n, k, x)
  {
    forall x | 0 <= x < NODES && x != k && x != f.kid1[k] && x != f.kid2[k]
      ensures CutTerm(f.parent, w, n, k - 1, x) == CutTerm(f.parent, w, n, k, x)
    {
      if 1 <= x < k {
        ParentOf(f, pos, alpha, n, x);
      }
    }
  }

  lemma {:induction false} CutCostSum(f: Forest, pos: seq<int>, w: seq<int>, alpha: nat, n: nat, k: nat)
    requires Whole(f, pos, alpha, n) && Weighted(f, w, alpha, n) && alpha <= k <= n
    ensures Sum(CutCosts(f.parent, w, n, k)) == Above(w, k, n)
    decreases n - k
  {
    if k < n {
      CutCostSum(f, pos, w, alpha, n, k + 1);
      CutCostStep(f, pos, w, alpha, n, k + 1);
    } else {
      forall x | 0 <= x < NODES
        ensures CutCosts(f.parent, w, n, n)[x] == 0
      {
        if 1 <= x < n {
          ParentOf(f, pos, alpha, n, x);
        }
      }
      SumOfZeros(CutCosts(f.parent, w, n, n));
    }
  }

  ghost predicate LengthsOf(f: Forest, alpha: nat, n: nat, len: seq<int>) {
    |len| == alpha && forall i :: 0 <= i < alpha ==> len[i] == Dist(f.parent, i + 1, n)
  }

  /** The lengths in a tree cost what its inner nodes weigh. */
  lemma {:induction false} TreeCost(f: Forest, pos: seq<int>, w: seq<int>, alpha: nat, n: nat, len: seq<int>)
    requires Whole(f, pos, alpha, n) && Weighted(f, w, alpha, n) && LengthsOf(f, alpha, n, len)
    ensures TotalBits(Leaves(w, alpha), len) == Above(w, alpha, n)
  {
    var s, t := CutCosts(f.parent, w, n, alpha), Products(Leaves(w, alpha), len);
    forall i | 0 <= i < alpha
      ensures s[i + 1] == t[i]
    {
      ParentOf(f, pos, alpha, n, i + 1);
    }
    ShiftedSum(s, t);
    CutCostSum(f, pos, w, alpha, n, alpha);
  }

  /** The words of the roots. */
  ghost function RootWords(w: seq<int>, pos: seq<int>): (r: seq<int>)
    requires |w| == |pos|
    ensures |r| == |w| && forall x :: 0 <= x < |r| ==> r[x] == if pos[x] > 0 then w[x] else 0
  {
    seq(|w|, x requires 0 <= x < |w| => if pos[x] > 0 then w[x] else 0)
  }

  /** Its lengths are a code, and no longer than the depth that the root's word holds. */
  lemma {:induction false} TreeCode(f: Forest, pos: seq<int>, w: seq<int>, alpha: nat, n: nat, len: seq<int>)
    requires Whole(f, pos, alpha, n) && Weighted(f, w, alpha, n) && LengthsOf(f, alpha, n, len)
    ensures IsCode(len, alpha, DepthOf(w[n])) && AllUpTo(len, DepthOf(w[n]))
  {
    var m := DepthOf(w[n]);
    forall x | 1 <= x <= n
      ensures Dist(f.parent, x, n) <= m
    {
      DistBound(f, pos, w, alpha, n, x);
    }
    KraftEquality(f, pos, alpha, n, m, len);
  }

  lemma {:induction false} RootCost(w: seq<int>, pos: seq<int>, n: nat, l: seq<int>, m: nat)
    requires |w| == |pos| && 0 < n < |w| && pos[n] > 0 && WeightOf(w[n]) >= 1 && Codes(RootWords(w, pos), l, m)
    requires forall x :: 0 <= x < |w| && x != n ==> pos[x] <= 0
    ensures l[n] >= 0 && Cost(RootWords(w, pos), l) >= 0
  {
    var r := RootWords(w, pos);
    assert r[n] == w[n] != 0;
    MulMono(0, WeightOf(w[n]), l[n]);
    forall x | 0 <= x < |r|
      ensures BitCosts(r, l)[x] >= 0
    {
      assert x != n ==> BitCost(r[x], l[x]) == 0;
    }
    SumNonNegative(BitCosts(r, l));
  }

  /** A code that has been matched down to the root costs as much as the inner nodes weigh, and is as deep as the root. */
  lemma {:induction false} MatchedRoot(r0: seq<int>, l: seq<int>, w: seq<int>, pos: seq<int>, n: nat, m: nat, acc: int)
    requires |w| == |pos| && 0 < n < |w| && pos[n] > 0 && WeightOf(w[n]) >= 1 && |l| == |r0|
    requires (forall x :: 0 <= x < |w| && x != n ==> pos[x] <= 0) && Matched(r0, l, RootWords(w, pos), m, acc)
    ensures acc <= Cost(r0, l)
    ensures acc == Cost(r0, l) ==> forall h {:trigger Low(r0, l, h)} :: Low(r0, l, h) ==> DepthOf(w[n]) <= h
  {
    var r := RootWords(w, pos);
    var l' :| AsGood(r0, l, r, l', m, acc);
    RootCost(w, pos, n, l', m);
    forall h | Low(r0, l, h) && acc == Cost(r0, l)
      ensures DepthOf(w[n]) <= h
    {
      assert Low(r, l', h) && r[n] == w[n] != 0;
    }
  }

  /** Any code for the symbols, matched down to the root. */
  lemma {:induction false} MatchedCode(w: seq<int>, pos: seq<int>, alpha: nat, n: nat, other: seq<int>, m: nat, acc: int)
    requires LeafWeights(w, alpha) && |pos| == NODES && 0 < n < NODES && pos[n] > 0 && WeightOf(w[n]) >= 1
    requires forall x :: 0 <= x < NODES && x != n ==> pos[x] <= 0
    requires Reduces(LeafWords(w, alpha), RootWords(w, pos), acc) && IsCode(other, alpha, m)
    ensures acc <= TotalBits(Leaves(w, alpha), other)
    ensures acc == TotalBits(Leaves(w, alpha), other) ==> forall h :: AllUpTo(other, h) ==> DepthOf(w[n]) <= h
  {
    var r0, l := LeafWords(w, alpha), AtNodes(other, NODES);
    LeafCode(w, alpha, other, m);
    LeafCost(w, alpha, other);
    assert Matched(r0, l, RootWords(w, pos), m, acc) by {
      assert Look(0);
    }
    MatchedRoot(r0, l, w, pos, n, m, acc);
    forall h | AllUpTo(other, h) && acc == TotalBits(Leaves(w, alpha), other)
      ensures DepthOf(w[n]) <= h
    {
      LowLeaves(w, alpha, other, h);
    }
  }

  lemma {:induction false} LowLeaves(w: seq<int>, alpha: nat, len: seq<int>, h: int)
    requires LeafWeights(w, alpha) && |len| == alpha && AllUpTo(len, h)
    ensures Low(LeafWords(w, alpha), AtNodes(len, NODES), h)
  {
  }

  /** If every code for the leaves has been matched down to the root, the tree has a best code. */
  lemma {:induction false} TreeBest(f: Forest, pos: seq<int>, w: seq<int>, alpha: nat, n: nat, len: seq<int>)
    requires Whole(f, pos, alpha, n) && Weighted(f, w, alpha, n) && LengthsOf(f, alpha, n, len) && LeafWeights(w, alpha)
    requires pos[n] > 0 && pos[0] <= 0 && WeightOf(w[n]) >= 1 && forall x :: n < x < NODES ==> pos[x] <= 0
    requires Reduces(LeafWords(w, alpha), RootWords(w, pos), Above(w, alpha, n))
    ensures Best(Leaves(w, alpha), len)
  {
    TreeCode(f, pos, w, alpha, n, len);
    TreeCost(f, pos, w, alpha, n, len);
    assert forall x :: 0 <= x < NODES && x != n ==> pos[x] <= 0;
    AllMatched(w, pos, alpha, n, len);
  }

  lemma {:induction false} AllMatched(w: seq<int>, pos: seq<int>, alpha: nat, n: nat, len: seq<int>)
    requires LeafWeights(w, alpha) && |pos| == NODES && 0 < n < NODES && pos[n] > 0 && WeightOf(w[n]) >= 1
    requires forall x :: 0 <= x < NODES && x != n ==> pos[x] <= 0
    requires Reduces(LeafWords(w, alpha), RootWords(w, pos), Above(w, alpha, n))
    requires IsCode(len, alpha, DepthOf(w[n])) && AllUpTo(len, DepthOf(w[n])) && TotalBits(Leaves(w, alpha), len) == Above(w, alpha, n)
    ensures Best(Leaves(w, alpha), len)
  {
    forall other | HasCode(other, alpha)
      ensures |other| == alpha && NoWorse(Leaves(w, alpha), len, other)
    {
      var m: nat :| IsCode(other, alpha, m);
      MatchedCode(w, pos, alpha, n, other, m, Above(w, alpha, n));
    }
  }
}
