/** The forest that the merges build: its shape, its weights and the Kraft sum of its leaves. */
module HuffmanTree {
  import opened Arith
  import opened Canonical
  import opened Sums

  const NODES: nat := 2 * MAX_ALPHA_SIZE

  /**
   * Nodes 1..alpha are leaves and alpha + 1..n have two children each. A node is a root (pos > 0) just
   * when its parent is -1; otherwise its parent is a later node that counts it among its children.
   */
  datatype Forest = Forest(parent: seq<int>, kid1: seq<int>, kid2: seq<int>)

  ghost predicate Sizes(f: Forest, pos: seq<int>, alpha: nat, n: nat) {
    |f.parent| == |f.kid1| == |f.kid2| == |pos| == NODES && 2 <= alpha <= n < NODES
  }

  ghost predicate Under(f: Forest, alpha: nat, n: nat, x: int)
    requires |f.parent| == |f.kid1| == |f.kid2| == NODES && n < NODES && 0 <= x <= n
  {
    var k := f.parent[x];
    alpha < k <= n && x < k && (x == f.kid1[k] || x == f.kid2[k])
  }

  ghost predicate Joined(f: Forest, k: int)
    requires |f.parent| == |f.kid1| == |f.kid2| == NODES && 0 <= k < NODES
  {
    var a, b := f.kid1[k], f.kid2[k];
    1 <= a < k && 1 <= b < k && a != b && f.parent[a] == k && f.parent[b] == k
  }

  ghost predicate Shape(f: Forest, pos: seq<int>, alpha: nat, n: nat) {
    && Sizes(f, pos, alpha, n)
    && (forall x {:trigger f.parent[x]} :: 1 <= x <= n ==> if pos[x] > 0 then f.parent[x] == -1 else Under(f, alpha, n, x))
    && (forall k {:trigger f.kid1[k]} {:trigger f.kid2[k]} :: alpha < k <= n ==> Joined(f, k))
  }

  ghost function Merge(f: Forest, a: nat, b: nat, k: nat): Forest
    requires |f.parent| == |f.kid1| == |f.kid2| == NODES && a < NODES && b < NODES && k < NODES
  {
    Forest(f.parent[a := k][b := k][k := -1], f.kid1[k := a], f.kid2[k := b])
  }

  /** The roots after a and b have been joined under k. */
  ghost predicate Rerooted(pos: seq<int>, pos': seq<int>, a: int, b: int, k: int) {
    |pos| == |pos'| && forall x :: 0 <= x < |pos| ==> (pos'[x] > 0 <==> x == k || (pos[x] > 0 && x != a && x != b))
  }

  lemma {:induction false} MergeShape(f: Forest, pos: seq<int>, pos': seq<int>, alpha: nat, n: nat, a: nat, b: nat)
    requires Shape(f, pos, alpha, n) && n + 1 < NODES
    requires 1 <= a <= n && 1 <= b <= n && a != b && pos[a] > 0 && pos[b] > 0
    requires Rerooted(pos, pos', a, b, n + 1)
    ensures Shape(Merge(f, a, b, n + 1), pos', alpha, n + 1)
  {
    var k := n + 1;
    var g := Merge(f, a, b, k);
    forall x | 1 <= x <= k
      ensures if pos'[x] > 0 then g.parent[x] == -1 else Under(g, alpha, k, x)
    {
      if x <= n {
        assert f.parent[x] == -1 || Under(f, alpha, n, x);
      }
    }
    forall j | alpha < j <= k
      ensures Joined(g, j)
    {
      if j <= n {
        assert Joined(f, j);
        assert f.parent[f.kid1[j]] == j && f.parent[f.kid2[j]] == j;
      }
    }
  }

  // ---- weights ----

  /** A lower bound for the weight of a tree of height d. */
  ghost function Fib(d: nat): (r: nat)
    ensures r >= 1
  {
    if d == 0 then 1 else if d == 1 then 2 else Fib(d - 1) + Fib(d - 2)
  }

  lemma {:induction false} FibMono(c: nat, d: nat)
    requires c <= d
    ensures Fib(c) <= Fib(d)
    decreases d
  {
    if c < d {
      FibMono(c, d - 1);
    }
  }

  lemma {:induction false} FibDoubles(n: nat)
    ensures Fib(2 * n) >= Pow2(n)
  {
    if n > 0 {
      FibDoubles(n - 1);
      FibMono(2 * n - 2, 2 * n - 1);
      assert Fib(2 * n) == Fib(2 * n - 1) + Fib(2 * n - 2);
    }
  }

  lemma {:induction false} FibThirteen()
    ensures Fib(13) == 610
  {
    assert Fib(4) == 8;
    assert Fib(7) == 34;
    assert Fib(10) == 144;
  }

  /** The weight and the depth that one packed number holds. */
  function WeightOf(z: int): int {
    z / 256
  }

  function DepthOf(z: int): (d: int)
    ensures 0 <= d < 256
  {
    z % 256
  }

  function Deeper(a: int, b: int): int {
    if DepthOf(a) > DepthOf(b) then DepthOf(a) else DepthOf(b)
  }

  ghost predicate Heavy(z: int) {
    WeightOf(z) >= Fib(DepthOf(z))
  }

  ghost predicate Combined(z: int, a: int, b: int) {
    WeightOf(z) == WeightOf(a) + WeightOf(b) && DepthOf(z) == 1 + Deeper(a, b)
  }

  /** The weights of the roots, zero for other nodes. */
  ghost function RootWeights(w: seq<int>, pos: seq<int>): (s: seq<int>)
    requires |w| == |pos|
    ensures |s| == |w| && forall x :: 0 <= x < |s| ==> s[x] == if pos[x] > 0 then WeightOf(w[x]) else 0
  {
    seq(|w|, x requires 0 <= x < |w| => if pos[x] > 0 then WeightOf(w[x]) else 0)
  }

  /** No root is lighter than a node that is not a root. */
  ghost predicate Parted(w: seq<int>, pos: seq<int>, n: nat, top: int) {
    && |w| == |pos| && n < |w|
    && forall x {:trigger pos[x]} :: 1 <= x <= n ==> if pos[x] > 0 then top <= w[x] else w[x] <= top
  }

  ghost predicate Weighted(f: Forest, w: seq<int>, alpha: nat, n: nat) {
    && |f.kid1| == |f.kid2| == |w| == NODES && alpha <= n < NODES
    && (forall x :: 1 <= x <= alpha ==> DepthOf(w[x]) == 0)
    && (forall x {:trigger Heavy(w[x])} :: 1 <= x <= n ==> Heavy(w[x]))
    && (forall k {:trigger f.kid1[k]} {:trigger f.kid2[k]} :: alpha < k <= n ==> CombinedAt(f, w, k))
  }

  ghost predicate CombinedAt(f: Forest, w: seq<int>, k: int) {
    && 0 <= k < |f.kid1| == |f.kid2| && k < |w| && 0 <= f.kid1[k] < k && 0 <= f.kid2[k] < k
    && Combined(w[k], w[f.kid1[k]], w[f.kid2[k]])
  }

  /** Joining the two lightest roots gives a tree at least as heavy as its depth asks for. */
  lemma {:induction false} JoinedIsHeavy(f: Forest, pos: seq<int>, w: seq<int>, alpha: nat, n: nat, top: int, c: nat, s: nat)
    requires Shape(f, pos, alpha, n) && Weighted(f, w, alpha, n) && Parted(w, pos, n, top)
    requires 1 <= c <= n && 1 <= s <= n && pos[c] > 0 && pos[s] > 0 && DepthOf(w[c]) >= DepthOf(w[s])
    ensures WeightOf(w[c]) + WeightOf(w[s]) >= Fib(1 + DepthOf(w[c]))
  {
    var d := DepthOf(w[c]);
    assert Heavy(w[c]) && Heavy(w[s]);
    if d > 0 {
      assert c > alpha;
      var g := DeeperKid(f, pos, w, alpha, n, c);
      assert w[g] <= top <= w[s];
    } else {
      FibMono(0, DepthOf(w[s]));
    }
  }

  lemma {:induction false} DeeperKid(f: Forest, pos: seq<int>, w: seq<int>, alpha: nat, n: nat, c: nat) returns (g: nat)
    requires Shape(f, pos, alpha, n) && Weighted(f, w, alpha, n) && alpha < c <= n
    ensures 1 <= g < c && pos[g] <= 0 && Heavy(w[g]) && DepthOf(w[g]) == DepthOf(w[c]) - 1
  {
    assert Joined(f, c) && CombinedAt(f, w, c);
    g := if DepthOf(w[f.kid1[c]]) > DepthOf(w[f.kid2[c]]) then f.kid1[c] else f.kid2[c];
    assert f.parent[g] == c;
  }

  lemma {:induction false} MergeWeighted(f: Forest, pos: seq<int>, w: seq<int>, alpha: nat, n: nat, a: nat, b: nat, z: int)
    requires Shape(f, pos, alpha, n) && Weighted(f, w, alpha, n) && n + 1 < NODES
    requires 1 <= a <= n && 1 <= b <= n && Combined(z, w[a], w[b]) && Heavy(z)
    ensures Weighted(Merge(f, a, b, n + 1), w[n + 1 := z], alpha, n + 1)
  {
    var k := n + 1;
    var g, v := Merge(f, a, b, k), w[k := z];
    forall x | 1 <= x <= k
      ensures Heavy(v[x])
    {
      assert x <= n ==> Heavy(w[x]);
    }
    forall j | alpha < j <= k
      ensures CombinedAt(g, v, j)
    {
      assert j <= n ==> CombinedAt(f, w, j);
    }
  }

  /** The parting stays where the heavier of the two joined roots is. */
  lemma {:induction false} MergeParted(w: seq<int>, pos: seq<int>, pos': seq<int>, n: nat, top: int, a: nat, b: nat, z: int)
    requires Parted(w, pos, n, top) && n + 1 < |w| && Rerooted(pos, pos', a, b, n + 1)
    requires 1 <= a <= n && 1 <= b <= n && pos[a] > 0 && w[a] <= w[b] <= z && pos[b] > 0
    requires forall x :: 1 <= x <= n && pos[x] > 0 && x != a && x != b ==> w[b] <= w[x]
    ensures Parted(w[n + 1 := z], pos', n + 1, w[b])
  {
  }

  lemma {:induction false} MergeTotal(w: seq<int>, pos: seq<int>, pos': seq<int>, n: nat, a: nat, b: nat, z: int)
    requires |w| == |pos| && n + 1 < |w| && Rerooted(pos, pos', a, b, n + 1) && pos[n + 1] <= 0
    requires 1 <= a <= n && 1 <= b <= n && a != b && pos[a] > 0 && pos[b] > 0
    requires WeightOf(z) == WeightOf(w[a]) + WeightOf(w[b])
    ensures Sum(RootWeights(w[n + 1 := z], pos')) == Sum(RootWeights(w, pos))
  {
    var s := RootWeights(w, pos);
    var s1 := s[a := 0];
    var s2 := s1[b := 0];
    SumUpdate(s, a, 0);
    SumUpdate(s1, b, 0);
    SumUpdate(s2, n + 1, WeightOf(z));
    assert RootWeights(w[n + 1 := z], pos') == s2[n + 1 := WeightOf(z)];
  }

  const WEIGHT_BITS: nat := 23
  /** With eight bits for the depth, 23 are left for the weight in a signed 32-bit word. */
  const MAX_WEIGHT: int := 0x80_0000

  lemma {:induction false} MaxWeight()
    ensures Pow2(WEIGHT_BITS) == MAX_WEIGHT
  {
    assert Pow2(8) == 256 && Pow2(7) == 128;
    Pow2Add(8, 8);
    Pow2Add(16, 7);
  }

  /** Weights bound depths. */
  lemma {:induction false} DepthBound(d: nat, total: int, n: nat)
    requires Fib(d) <= total < Pow2(n)
    ensures d < 2 * n
  {
    if d >= 2 * n {
      FibMono(2 * n, d);
      FibDoubles(n);
    }
  }

  // ---- distances from the root, and the Kraft sum ----

  /** One root is left, and it is node n. */
  ghost predicate Whole(f: Forest, pos: seq<int>, alpha: nat, n: nat) {
    Shape(f, pos, alpha, n) && alpha < n && forall x :: 1 <= x < n ==> pos[x] <= 0
  }

  /** How many steps up the root is. */
  ghost function Dist(parent: seq<int>, x: int, n: nat): nat
    decreases n - x
  {
    if 0 <= x < n && x < |parent| && x < parent[x] <= n then 1 + Dist(parent, parent[x], n) else 0
  }

  lemma {:induction false} ParentOf(f: Forest, pos: seq<int>, alpha: nat, n: nat, x: nat)
    requires Whole(f, pos, alpha, n) && 1 <= x < n
    ensures Under(f, alpha, n, x) && Dist(f.parent, x, n) == 1 + Dist(f.parent, f.parent[x], n)
  {
    assert pos[x] <= 0;
    assert Under(f, alpha, n, x);
  }

  /** Depths bound distances. */
  lemma {:induction false} DistBound(f: Forest, pos: seq<int>, w: seq<int>, alpha: nat, n: nat, x: nat)
    requires Whole(f, pos, alpha, n) && Weighted(f, w, alpha, n) && 1 <= x <= n
    ensures Dist(f.parent, x, n) + DepthOf(w[x]) <= DepthOf(w[n])
    decreases n - x
  {
    if x < n {
      ParentOf(f, pos, alpha, n, x);
      var k := f.parent[x];
      assert CombinedAt(f, w, k) by {
        assert f.kid1[k] == x || f.kid2[k] == x;
      }
      DistBound(f, pos, w, alpha, n, k);
    }
  }

  /** What node x adds when the tree is cut below node k: only topmost nodes up to k count. */
  ghost function Term(parent: seq<int>, n: nat, m: nat, k: nat, x: nat): int
    requires x < |parent|
  {
    if 1 <= x <= k && (x == n || parent[x] > k) && Dist(parent, x, n) <= m then Pow2(m - Dist(parent, x, n)) else 0
  }

  ghost function Terms(parent: seq<int>, n: nat, m: nat, k: nat): (s: seq<int>)
    ensures |s| == |parent| && forall x :: 0 <= x < |s| ==> s[x] == Term(parent, n, m, k, x)
  {
    seq(|parent|, x requires 0 <= x < |parent| => Term(parent, n, m, k, x))
  }

  ghost predicate AllWithin(parent: seq<int>, n: nat, m: nat) {
    forall x :: 1 <= x <= n ==> Dist(parent, x, n) <= m
  }

  lemma {:induction false} CutStep(f: Forest, pos: seq<int>, alpha: nat, n: nat, m: nat, k: nat)
    requires Whole(f, pos, alpha, n) && alpha < k <= n && AllWithin(f.parent, n, m)
    ensures Sum(Terms(f.parent, n, m, k - 1)) == Sum(Terms(f.parent, n, m, k))
  {
    var s, t := Terms(f.parent, n, m, k), Terms(f.parent, n, m, k - 1);
    assert Joined(f, k);
    var a, b := f.kid1[k], f.kid2[k];
    ParentOf(f, pos, alpha, n, a);
    ParentOf(f, pos, alpha, n, b);
    assert Dist(f.parent, a, n) <= m;
    var q := Pow2(m - Dist(f.parent, a, n));
    TopTerm(f, pos, alpha, n, m, k);
    assert s[a] == 0 && s[b] == 0;
    CutElse(f, pos, alpha, n, m, k, s, t);
    assert s[k] == 2 * q && t[k] == 0 && t[a] == q && t[b] == q;
    Replaced(s, t, k, a, b, q);
  }

  lemma {:induction false} Replaced(s: seq<int>, t: seq<int>, k: nat, a: nat, b: nat, q: int)
    requires |s| == |t| && k < |s| && a < |s| && b < |s| && k != a && k != b && a != b
    requires s[k] == 2 * q && s[a] == 0 && s[b] == 0 && t[k] == 0 && t[a] == q && t[b] == q
    requires forall x :: 0 <= x < |s| && x != k && x != a && x != b ==> t[x] == s[x]
    ensures Sum(t) == Sum(s)
  {
    var s1 := s[k := 0];
    var s2 := s1[a := q];
    SumUpdate(s, k, 0);
    SumUpdate(s1, a, q);
    SumUpdate(s2, b, q);
    assert t == s2[b := q];
  }

  lemma {:induction false} TopTerm(f: Forest, pos: seq<int>, alpha: nat, n: nat, m: nat, k: nat)
    requires Whole(f, pos, alpha, n) && alpha < k <= n && AllWithin(f.parent, n, m)
    ensures Dist(f.parent, k, n) <= m && Term(f.parent, n, m, k, k) == Pow2(m - Dist(f.parent, k, n))
  {
    assert Dist(f.parent, k, n) <= m;
    if k < n {
      ParentOf(f, pos, alpha, n, k);
    }
  }

  lemma {:induction false} CutElse(f: Forest, pos: seq<int>, alpha: nat, n: nat, m: nat, k: nat, s: seq<int>, t: seq<int>)
    requires Whole(f, pos, alpha, n) && alpha < k <= n
    requires s == Terms(f.parent, n, m, k) && t == Terms(f.parent, n, m, k - 1)
    ensures forall x :: 0 <= x < NODES && x != k && x != f.kid1[k] && x != f.kid2[k] ==> t[x] == s[x]
  {
    forall x: nat | x < NODES && x != k && x != f.kid1[k] && x != f.kid2[k]
      ensures t[x] == s[x]
    {
      if 1 <= x < k {
        ParentOf(f, pos, alpha, n, x);
      }
    }
  }

  lemma {:induction false} CutSum(f: Forest, pos: seq<int>, alpha: nat, n: nat, m: nat, k: nat)
    requires Whole(f, pos, alpha, n) && alpha <= k <= n && AllWithin(f.parent, n, m)
    ensures Sum(Terms(f.parent, n, m, k)) == Pow2(m)
    decreases n - k
  {
    if k == n {
      RootOnly(f, pos, alpha, n, m);
    } else {
      CutSum(f, pos, alpha, n, m, k + 1);
      CutStep(f, pos, alpha, n, m, k + 1);
    }
  }

  lemma {:induction false} RootOnly(f: Forest, pos: seq<int>, alpha: nat, n: nat, m: nat)
    requires Whole(f, pos, alpha, n)
    ensures Sum(Terms(f.parent, n, m, n)) == Pow2(m)
  {
    var s := Terms(f.parent, n, m, n);
    var zeros := s[n := 0];
    forall x: nat | x < NODES
      ensures zeros[x] == 0
    {
      if 1 <= x < n {
        ParentOf(f, pos, alpha, n, x);
      }
    }
    SumOfZeros(zeros);
    SumUpdate(s, n, 0);
  }

  /** Each leaf adds what its length adds to the Kraft sum. */
  lemma {:induction false} LeafTerms(f: Forest, pos: seq<int>, alpha: nat, n: nat, m: nat, len: seq<int>)
    requires Whole(f, pos, alpha, n) && |len| == alpha && AllWithin(f.parent, n, m)
    requires forall k :: 0 <= k < alpha ==> 0 <= len[k] <= m && len[k] == Dist(f.parent, k + 1, n)
    ensures var s := Terms(f.parent, n, m, alpha);
      s[0] == 0 && forall k {:trigger len[k]} :: 0 <= k < alpha ==> s[k + 1] == Pow2(m - len[k])
  {
    var s := Terms(f.parent, n, m, alpha);
    forall k {:trigger len[k]} | 0 <= k < alpha
      ensures s[k + 1] == Pow2(m - len[k])
    {
      ParentOf(f, pos, alpha, n, k + 1);
    }
  }

  ghost function Powers(len: seq<int>, m: nat): (s: seq<int>)
    requires forall k :: 0 <= k < |len| ==> 0 <= len[k] <= m
    ensures |s| == |len| && forall k :: 0 <= k < |s| ==> s[k] == Pow2(m - len[k])
  {
    seq(|len|, k requires 0 <= k < |len| => Pow2(m - len[k]))
  }

  lemma {:induction false} KraftIsSum(len: seq<int>, m: nat)
    requires forall k :: 0 <= k < |len| ==> 0 <= len[k] <= m
    ensures Kraft(len, m) == Sum(Powers(len, m))
  {
    if len != [] {
      KraftIsSum(len[..|len| - 1], m);
      assert Powers(len, m)[..|len| - 1] == Powers(len[..|len| - 1], m);
    }
  }

  /** The leaves of one full binary tree satisfy Kraft's inequality with equality. */
  lemma {:induction false} KraftEquality(f: Forest, pos: seq<int>, alpha: nat, n: nat, m: nat, len: seq<int>)
    requires Whole(f, pos, alpha, n) && |len| == alpha && AllWithin(f.parent, n, m)
    requires forall k :: 0 <= k < alpha ==> 0 <= len[k] <= m && len[k] == Dist(f.parent, k + 1, n)
    ensures Kraft(len, m) == Pow2(m)
  {
    var s := Terms(f.parent, n, m, alpha);
    CutSum(f, pos, alpha, n, m, alpha);
    LeafTerms(f, pos, alpha, n, m, len);
    KraftIsSum(len, m);
    ShiftedSum(s, Powers(len, m));
  }
}
