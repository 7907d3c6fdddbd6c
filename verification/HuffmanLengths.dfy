/** BZ2_hbMakeCodeLengths: code lengths from symbol frequencies. */
module HuffmanLengths {
  import opened Arith
  import opened Canonical
  import opened HuffmanBest
  import opened HuffmanHeap
  import opened HuffmanOptimal
  import opened HuffmanTree
  import opened Sums

  const HEAP_SIZE: nat := MAX_ALPHA_SIZE + 2

  // ---- the heap as a set of roots ----

  ghost predicate Gained(pos: seq<int>, pos': seq<int>, node: int) {
    |pos| == |pos'| && forall x :: 0 <= x < |pos| ==> (pos'[x] > 0 <==> x == node || pos[x] > 0)
  }

  ghost predicate Lost(pos: seq<int>, pos': seq<int>, node: int) {
    |pos| == |pos'| && forall x :: 0 <= x < |pos| ==> (pos'[x] > 0 <==> x != node && pos[x] > 0)
  }

  ghost predicate HeapOk(h: seq<int>, w: seq<int>, pos: seq<int>, n: nat) {
    Placed(h, pos, n) && HeapOrdered(h, w, n) && |h| == HEAP_SIZE && |pos| == NODES == |w|
  }

  method Insert(heap: array<int>, weight: array<int>, nHeap: nat, node: nat, ghost pos: seq<int>) returns (ghost pos': seq<int>)
    requires heap != weight && HeapOk(heap[..], weight[..], pos, nHeap) && nHeap + 1 < HEAP_SIZE
    requires 0 < node < NODES && pos[node] == 0
    requires weight[0] == 0 && forall x :: 0 <= x < NODES && (pos[x] > 0 || x == node) ==> weight[x] >= 0
    modifies heap
    ensures HeapOk(heap[..], weight[..], pos', nHeap + 1) && Gained(pos, pos', node)
  {
    ghost var h, w := heap[..], weight[..];
    heap[nHeap + 1] := node;
    Appended(h, w, pos, nHeap, node);
    assert heap[..] == h[nHeap + 1 := node];
    forall i | 1 <= i <= nHeap + 1
      ensures weight[heap[i]] >= 0
    {
      assert i <= nHeap ==> pos[h[i]] == i;
    }
    pos' := UpHeap(heap, weight, nHeap + 1, pos[node := nHeap + 1]);
  }

  lemma {:induction false} Appended(h: seq<int>, w: seq<int>, pos: seq<int>, n: nat, node: nat)
    requires HeapOk(h, w, pos, n) && n + 1 < HEAP_SIZE && 0 < node < NODES && pos[node] == 0
    ensures Placed(h[n + 1 := node], pos[node := n + 1], n + 1)
    ensures OrderedAbove(h[n + 1 := node], w, n + 1, n + 1)
  {
    var v := h[n + 1 := node];
    forall i | 2 <= i <= n + 1 && i != n + 1
      ensures Edge(v, w, i)
    {
      assert Edge(h, w, i);
    }
  }

  /** Takes the lightest root out of the heap. */
  method TakeTop(heap: array<int>, weight: array<int>, nHeap: nat, ghost pos: seq<int>) returns (node: nat, ghost pos': seq<int>)
    requires heap != weight && HeapOk(heap[..], weight[..], pos, nHeap) && nHeap > 0
    modifies heap
    ensures 0 < node < NODES && pos[node] > 0
    ensures HeapOk(heap[..], weight[..], pos', nHeap - 1) && Lost(pos, pos', node)
    ensures forall x :: 0 <= x < NODES && pos[x] > 0 ==> weight[node] <= weight[x]
  {
    ghost var h, w := heap[..], weight[..];
    node := heap[1];
    assert pos[h[1]] == 1;
    AllHeavier(h, w, pos, nHeap);
    TopRemoved(h, w, pos, nHeap);
    heap[1] := heap[nHeap];
    assert heap[..] == h[1 := h[nHeap]];
    pos' := DownHeap(heap, weight, nHeap - 1, pos[h[nHeap] := 1][h[1] := 0]);
  }

  lemma {:induction false} AllHeavier(h: seq<int>, w: seq<int>, pos: seq<int>, n: nat)
    requires HeapOk(h, w, pos, n) && n > 0
    ensures forall x :: 0 <= x < NODES && pos[x] > 0 ==> w[h[1]] <= w[x]
  {
    forall x | 0 <= x < NODES && pos[x] > 0
      ensures w[h[1]] <= w[x]
    {
      TopIsLightest(h, w, n, pos[x]);
    }
  }

  lemma {:induction false} TopRemoved(h: seq<int>, w: seq<int>, pos: seq<int>, n: nat)
    requires HeapOk(h, w, pos, n) && n > 0
    ensures var pos' := pos[h[n] := 1][h[1] := 0];
      && Placed(h[1 := h[n]], pos', n - 1) && Lost(pos, pos', h[1])
      && OrderedBelow(h[1 := h[n]], w, n - 1, 1)
  {
    assert pos[h[1]] == 1 && pos[h[n]] == n;
    var v := h[1 := h[n]];
    forall i | 2 <= i <= n - 1 && i / 2 != 1
      ensures Edge(v, w, i)
    {
      assert Edge(h, w, i);
    }
  }

  // ---- merging ----

  ghost predicate Merging(h: seq<int>, w: seq<int>, f: Forest, pos: seq<int>, alpha: nat, n: nat, nHeap: nat, total: int) {
    && HeapOk(h, w, pos, nHeap) && Shape(f, pos, alpha, n) && Weighted(f, w, alpha, n)
    && Separate(w, pos, n)
    && Sum(RootWeights(w, pos)) == total < MAX_WEIGHT
    && w[0] == 0 && pos[n] > 0 && n + nHeap == 2 * alpha && alpha <= MAX_ALPHA_SIZE
    && forall x :: n < x < NODES ==> pos[x] == 0
  }

  ghost predicate Separate(w: seq<int>, pos: seq<int>, n: nat) {
    exists top {:trigger Parted(w, pos, n, top)} :: Parted(w, pos, n, top)
  }

  /** ADDWEIGHTS on 32-bit words: the depth is or-ed in, which adds it as long as it is below 256. */
  function AddWeights(a: int, b: int): int {
    var sum := (WeightOf(a) + WeightOf(b)) * 256;
    var d := 1 + Deeper(a, b);
    if d < 256 || WeightOf(sum) % 2 == 0 then sum + d else sum
  }

  lemma {:induction false} AddedWeights(a: int, b: int)
    requires Deeper(a, b) < 255
    ensures Combined(AddWeights(a, b), a, b)
  {
  }

  lemma {:induction false} NodeWeights(f: Forest, w: seq<int>, pos: seq<int>, alpha: nat, n: nat, x: nat)
    requires Shape(f, pos, alpha, n) && Weighted(f, w, alpha, n) && 1 <= x <= n
    ensures WeightOf(w[x]) >= 1 && w[x] >= 256
  {
    assert Heavy(w[x]);
    FibMono(0, DepthOf(w[x]));
  }

  lemma {:induction false} RootsPositive(f: Forest, w: seq<int>, pos: seq<int>, alpha: nat, n: nat)
    requires Shape(f, pos, alpha, n) && Weighted(f, w, alpha, n) && pos[0] <= 0 && forall x :: n < x < NODES ==> pos[x] == 0
    ensures forall x :: 0 <= x < NODES ==> RootWeights(w, pos)[x] >= 0
  {
    forall x: nat | x < NODES
      ensures RootWeights(w, pos)[x] >= 0
    {
      if 1 <= x <= n {
        NodeWeights(f, w, pos, alpha, n, x);
      }
    }
  }

  /** The joined tree is heavy for its depth, so its depth stays far below 255. */
  lemma {:induction false} JoinBound(h: seq<int>, w: seq<int>, f: Forest, pos: seq<int>, alpha: nat, n: nat, nHeap: nat, total: int, a: nat, b: nat)
    requires Merging(h, w, f, pos, alpha, n, nHeap, total)
    requires 1 <= a <= n && 1 <= b <= n && a != b && pos[a] > 0 && pos[b] > 0
    ensures Deeper(w[a], w[b]) < 255
    ensures Combined(AddWeights(w[a], w[b]), w[a], w[b]) && Heavy(AddWeights(w[a], w[b]))
  {
    var top :| Parted(w, pos, n, top);
    if DepthOf(w[a]) >= DepthOf(w[b]) {
      JoinedIsHeavy(f, pos, w, alpha, n, top, a, b);
    } else {
      JoinedIsHeavy(f, pos, w, alpha, n, top, b, a);
    }
    RootsPositive(f, w, pos, alpha, n);
    TwoTermsAtMostSum(RootWeights(w, pos), a, b);
    HeavySum(w[a], w[b], total);
  }

  lemma {:induction false} HeavySum(x: int, y: int, total: int)
    requires Fib(1 + Deeper(x, y)) <= WeightOf(x) + WeightOf(y) <= total < MAX_WEIGHT
    ensures Deeper(x, y) < 255 && Combined(AddWeights(x, y), x, y) && Heavy(AddWeights(x, y))
  {
    MaxWeight();
    DepthBound(1 + Deeper(x, y), total, WEIGHT_BITS);
    AddedWeights(x, y);
  }

  lemma {:induction false} MergedWeights(h: seq<int>, w: seq<int>, f: Forest, pos: seq<int>, pos': seq<int>, alpha: nat, n: nat, nHeap: nat, total: int,
                      a: nat, b: nat, z: int)
    requires Merging(h, w, f, pos, alpha, n, nHeap, total) && n + 1 < NODES
    requires 1 <= a <= n && 1 <= b <= n && a != b && pos[a] > 0 && pos[b] > 0 && w[a] <= w[b]
    requires forall x :: 0 <= x < NODES && pos[x] > 0 && x != a ==> w[b] <= w[x]
    requires Rerooted(pos, pos', a, b, n + 1) && z == AddWeights(w[a], w[b])
    ensures Shape(Merge(f, a, b, n + 1), pos', alpha, n + 1) && Weighted(Merge(f, a, b, n + 1), w[n + 1 := z], alpha, n + 1)
    ensures Separate(w[n + 1 := z], pos', n + 1) && Sum(RootWeights(w[n + 1 := z], pos')) == total
  {
    JoinBound(h, w, f, pos, alpha, n, nHeap, total, a, b);
    MergeShape(f, pos, pos', alpha, n, a, b);
    MergeWeighted(f, pos, w, alpha, n, a, b, z);
    NodeWeights(f, w, pos, alpha, n, a);
    assert w[b] <= z;
    var top :| Parted(w, pos, n, top);
    MergeParted(w, pos, pos', n, top, a, b, z);
    assert Parted(w[n + 1 := z], pos', n + 1, w[b]);
    MergeTotal(w, pos, pos', n, a, b, z);
  }

  /** n1 and n2 are the two lightest of the roots. */
  ghost predicate Lightest(w: seq<int>, pos: seq<int>, n1: int, n2: int) {
    && |w| == |pos| == NODES && 0 < n1 < NODES && 0 < n2 < NODES && n1 != n2 && pos[n1] > 0 && pos[n2] > 0 && w[n1] <= w[n2]
    && forall x {:trigger w[x]} :: 0 <= x < NODES && pos[x] > 0 && x != n1 ==> w[n2] <= w[x]
  }

  /** The roots without those two. */
  ghost predicate Without(pos: seq<int>, pos': seq<int>, n1: int, n2: int) {
    |pos| == |pos'| == NODES && forall x {:trigger pos'[x]} :: 0 <= x < NODES ==> pos'[x] >= 0 && (pos'[x] > 0 <==> pos[x] > 0 && x != n1 && x != n2)
  }

  method TakeTwo(heap: array<int>, weight: array<int>, nHeap: nat, ghost pos: seq<int>) returns (n1: nat, n2: nat, ghost pos': seq<int>)
    requires heap != weight && HeapOk(heap[..], weight[..], pos, nHeap) && nHeap > 1
    modifies heap
    ensures HeapOk(heap[..], weight[..], pos', nHeap - 2) && Without(pos, pos', n1, n2) && Lightest(weight[..], pos, n1, n2)
  {
    ghost var pos1;
    n1, pos1 := TakeTop(heap, weight, nHeap, pos);
    n2, pos' := TakeTop(heap, weight, nHeap - 1, pos1);
  }

  /** Makes node k the parent of two others. */
  method Join(weight: array<int>, parent: array<int>, n1: nat, n2: nat, k: nat)
    requires weight != parent && n1 < k && n2 < k && k < weight.Length == parent.Length
    modifies weight, parent
    ensures weight[..] == old(weight[..])[k := AddWeights(old(weight[n1]), old(weight[n2]))]
    ensures parent[..] == old(parent[..])[n1 := k][n2 := k][k := -1]
  {
    parent[n1] := k;
    parent[n2] := k;
    weight[k] := AddWeights(weight[n1], weight[n2]);
    parent[k] := -1;
  }

  /** Any code for r0 is matched by one for the roots that saves the weight of the inner nodes. */
  ghost predicate Matching(r0: seq<int>, w: seq<int>, pos: seq<int>, alpha: nat, n: nat) {
    |w| == |pos| == NODES && alpha <= n < NODES && Reduces(r0, RootWords(w, pos), Above(w, alpha, n))
  }

  /** One turn of the merging loop. */
  method MergeOnce(heap: array<int>, weight: array<int>, parent: array<int>, nNodes: nat, nHeap: nat,
                   ghost f: Forest, ghost pos: seq<int>, ghost alpha: nat, ghost total: int, ghost r0: seq<int>)
    returns (ghost f': Forest, ghost pos': seq<int>)
    requires heap != weight && heap != parent && weight != parent && parent[..] == f.parent
    requires Merging(heap[..], weight[..], f, pos, alpha, nNodes, nHeap, total) && nHeap > 1
    requires Matching(r0, weight[..], pos, alpha, nNodes)
    modifies heap, weight, parent
    ensures parent[..] == f'.parent && weight[..nNodes + 1] == old(weight[..nNodes + 1])
    ensures Merging(heap[..], weight[..], f', pos', alpha, nNodes + 1, nHeap - 1, total)
    ensures Matching(r0, weight[..], pos', alpha, nNodes + 1)
  {
    ghost var h, w := heap[..], weight[..];
    var n1, n2;
    ghost var pos2;
    n1, n2, pos2 := TakeTwo(heap, weight, nHeap, pos);
    ghost var h2 := heap[..];
    var k := nNodes + 1;
    BeforeInsert(h, w, f, pos, pos2, alpha, nNodes, nHeap, total, n1, n2, h2);
    Join(weight, parent, n1, n2, k);
    f' := Merge(f, n1, n2, k);
    pos' := Insert(heap, weight, nHeap - 2, k, pos2);
    AfterInsert(h, w, f, pos, pos2, pos', alpha, nNodes, nHeap, total, n1, n2, heap[..]);
    StaysMatching(h, w, f, pos, pos2, pos', alpha, nNodes, nHeap, total, n1, n2, r0);
  }

  /** What holds before the new node goes into the heap. */
  lemma {:induction false} BeforeInsert(h: seq<int>, w: seq<int>, f: Forest, pos: seq<int>, pos2: seq<int>, alpha: nat, n: nat, nHeap: nat, total: int,
                                   n1: nat, n2: nat, h2: seq<int>)
    requires Merging(h, w, f, pos, alpha, n, nHeap, total) && nHeap > 1 && Lightest(w, pos, n1, n2) && Without(pos, pos2, n1, n2)
    requires HeapOk(h2, w, pos2, nHeap - 2)
    ensures n1 <= n && n2 <= n && n + 1 < NODES && |w| == NODES && |f.parent| == |f.kid1| == |f.kid2| == NODES && pos2[n + 1] == 0
    ensures var v := w[n + 1 := AddWeights(w[n1], w[n2])];
      HeapOk(h2, v, pos2, nHeap - 2) && v[0] == 0 && forall x :: 0 <= x < NODES && (pos2[x] > 0 || x == n + 1) ==> v[x] >= 0
  {
    var z := AddWeights(w[n1], w[n2]);
    JoinBound(h, w, f, pos, alpha, n, nHeap, total, n1, n2);
    Reordered(h2, w, pos2, nHeap - 2, n + 1, z);
    MemberWeights(h, w, f, pos, pos2, alpha, n, nHeap, total, n1, n2, z);
  }

  /** What holds after it. */
  lemma {:induction false} AfterInsert(h: seq<int>, w: seq<int>, f: Forest, pos: seq<int>, pos2: seq<int>, pos': seq<int>, alpha: nat, n: nat, nHeap: nat, total: int,
                                  n1: nat, n2: nat, h': seq<int>)
    requires Merging(h, w, f, pos, alpha, n, nHeap, total) && nHeap > 1 && Lightest(w, pos, n1, n2) && Without(pos, pos2, n1, n2)
    requires n1 <= n && n2 <= n && n + 1 < NODES && |w| == NODES && |f.parent| == |f.kid1| == |f.kid2| == NODES
    requires Gained(pos2, pos', n + 1) && HeapOk(h', w[n + 1 := AddWeights(w[n1], w[n2])], pos', nHeap - 1)
    ensures Merging(h', w[n + 1 := AddWeights(w[n1], w[n2])], Merge(f, n1, n2, n + 1), pos', alpha, n + 1, nHeap - 1, total)
  {
    MergedWeights(h, w, f, pos, pos', alpha, n, nHeap, total, n1, n2, AddWeights(w[n1], w[n2]));
  }

  lemma {:induction false} StaysMatching(h: seq<int>, w: seq<int>, f: Forest, pos: seq<int>, pos2: seq<int>, pos': seq<int>, alpha: nat, n: nat, nHeap: nat,
                                         total: int, n1: nat, n2: nat, r0: seq<int>)
    requires Merging(h, w, f, pos, alpha, n, nHeap, total) && nHeap > 1 && Lightest(w, pos, n1, n2) && Without(pos, pos2, n1, n2)
    requires n1 <= n && n2 <= n && n + 1 < NODES && Gained(pos2, pos', n + 1) && Matching(r0, w, pos, alpha, n)
    ensures Matching(r0, w[n + 1 := AddWeights(w[n1], w[n2])], pos', alpha, n + 1)
  {
    JoinBound(h, w, f, pos, alpha, n, nHeap, total, n1, n2);
    LightestRoots(h, w, f, pos, alpha, n, nHeap, total, n1, n2);
    MatchingMore(w, pos, pos2, pos', alpha, n, n1, n2, AddWeights(w[n1], w[n2]), r0);
  }

  lemma {:induction false} MatchingMore(w: seq<int>, pos: seq<int>, pos2: seq<int>, pos': seq<int>, alpha: nat, n: nat, n1: nat, n2: nat, z: int, r0: seq<int>)
    requires Matching(r0, w, pos, alpha, n) && n1 <= n && n2 <= n && n + 1 < NODES && pos[n1] > 0 && pos[n2] > 0
    requires Without(pos, pos2, n1, n2) && Gained(pos2, pos', n + 1)
    requires Trees(RootWords(w, pos)) && TwoLightest(RootWords(w, pos), n1, n2) && RootWords(w, pos)[n + 1] == 0
    requires Combined(z, w[n1], w[n2]) && w[n1] >= 256 && w[n2] >= 256
    ensures Matching(r0, w[n + 1 := z], pos', alpha, n + 1)
  {
    AddedWord(z, w[n1], w[n2]);
    ReducesMore(r0, RootWords(w, pos), Above(w, alpha, n), n1, n2, n + 1, z);
    JoinedRoots(w, pos, pos2, pos', n, n1, n2, z);
    AboveMore(w, alpha, n, z);
  }

  lemma {:induction false} AddedWord(z: int, a: int, b: int)
    requires Combined(z, a, b) && a >= 256 && b >= 256
    ensures z != 0
  {
  }

  lemma {:induction false} LightestRoots(h: seq<int>, w: seq<int>, f: Forest, pos: seq<int>, alpha: nat, n: nat, nHeap: nat, total: int, n1: nat, n2: nat)
    requires Merging(h, w, f, pos, alpha, n, nHeap, total) && Lightest(w, pos, n1, n2) && n1 <= n && n2 <= n && n + 1 < NODES
    ensures Trees(RootWords(w, pos)) && TwoLightest(RootWords(w, pos), n1, n2) && RootWords(w, pos)[n + 1] == 0
    ensures w[n1] >= 256 && w[n2] >= 256
  {
    var r := RootWords(w, pos);
    forall x: nat | x < NODES && r[x] != 0
      ensures r[x] >= 256
    {
      NodeWeights(f, w, pos, alpha, n, x);
    }
    NodeWeights(f, w, pos, alpha, n, n1);
    NodeWeights(f, w, pos, alpha, n, n2);
  }

  lemma {:induction false} JoinedRoots(w: seq<int>, pos: seq<int>, pos2: seq<int>, pos': seq<int>, n: nat, n1: nat, n2: nat, z: int)
    requires |w| == |pos| == NODES && n1 <= n && n2 <= n && n + 1 < NODES
    requires Without(pos, pos2, n1, n2) && Gained(pos2, pos', n + 1)
    ensures RootWords(w[n + 1 := z], pos') == JoinedAt(RootWords(w, pos), n1, n2, n + 1, z)
  {
    var s, t := RootWords(w[n + 1 := z], pos'), JoinedAt(RootWords(w, pos), n1, n2, n + 1, z);
    forall x | 0 <= x < NODES
      ensures s[x] == t[x]
    {
      assert pos2[x] >= 0;
    }
  }

  /** A weight outside the heap does not matter to its order. */
  lemma {:induction false} Reordered(h: seq<int>, w: seq<int>, pos: seq<int>, n: nat, k: nat, z: int)
    requires HeapOk(h, w, pos, n) && k < NODES && pos[k] == 0
    ensures HeapOk(h, w[k := z], pos, n)
  {
    var v := w[k := z];
    forall i | 2 <= i <= n
      ensures Edge(h, v, i)
    {
      assert Edge(h, w, i);
      assert pos[h[i]] == i && pos[h[i / 2]] == i / 2;
    }
  }

  lemma {:induction false} MemberWeights(h: seq<int>, w: seq<int>, f: Forest, pos: seq<int>, pos2: seq<int>, alpha: nat, n: nat, nHeap: nat, total: int,
                      a: nat, b: nat, z: int)
    requires Merging(h, w, f, pos, alpha, n, nHeap, total) && n + 1 < NODES
    requires 1 <= a <= n && 1 <= b <= n && z == AddWeights(w[a], w[b]) && Combined(z, w[a], w[b])
    requires |pos2| == NODES && forall x :: 0 <= x < NODES && pos2[x] > 0 ==> pos[x] > 0
    ensures forall x :: 0 <= x < NODES && (pos2[x] > 0 || x == n + 1) ==> w[n + 1 := z][x] >= 0
  {
    NodeWeights(f, w, pos, alpha, n, a);
    NodeWeights(f, w, pos, alpha, n, b);
    forall x: nat | x < NODES && pos2[x] > 0
      ensures w[x] >= 0
    {
      if 1 <= x <= n {
        NodeWeights(f, w, pos, alpha, n, x);
      }
    }
  }

  // ---- the leaves ----

  lemma {:induction false} LeafTotal(w: seq<int>, pos: seq<int>, alpha: nat)
    requires |w| == |pos| == NODES && alpha < NODES && pos[0] <= 0
    requires forall x :: 1 <= x < NODES ==> (pos[x] > 0 <==> x <= alpha)
    ensures Sum(RootWeights(w, pos)) == Sum(Leaves(w, alpha))
  {
    ShiftedSum(RootWeights(w, pos), Leaves(w, alpha));
  }

  ghost predicate OnlyFirst(pos: seq<int>, n: nat) {
    |pos| == NODES && forall x :: 0 <= x < NODES ==> (pos[x] > 0 <==> 1 <= x <= n)
  }

  /** Every symbol becomes a root of its own. */
  method PlantLeaves(heap: array<int>, weight: array<int>, parent: array<int>, alpha: nat) returns (ghost f: Forest, ghost pos: seq<int>)
    requires heap != weight && heap != parent && weight != parent
    requires heap.Length == HEAP_SIZE && weight.Length == parent.Length == NODES && LeafWeights(weight[..], alpha)
    requires Sum(Leaves(weight[..], alpha)) < MAX_WEIGHT
    modifies heap, weight, parent
    ensures parent[..] == f.parent && weight[1..] == old(weight[1..])
    ensures Merging(heap[..], weight[..], f, pos, alpha, alpha, alpha, Sum(Leaves(weight[..], alpha)))
    ensures Matching(LeafWords(weight[..], alpha), weight[..], pos, alpha, alpha)
  {
    heap[0] := 0;
    ghost var w := weight[..];
    weight[0] := 0;
    parent[0] := -2;
    assert weight[..] == w[0 := 0];
    pos := PushLeaves(heap, weight, parent, alpha);
    f := Forest(parent[..], parent[..], parent[..]);
    assert Leaves(w, alpha) == Leaves(weight[..], alpha);
    AllRoots(heap[..], weight[..], f, pos, alpha);
    assert RootWords(weight[..], pos) == LeafWords(weight[..], alpha);
    ReducesSelf(LeafWords(weight[..], alpha));
  }

  method PushLeaves(heap: array<int>, weight: array<int>, parent: array<int>, alpha: nat) returns (ghost pos: seq<int>)
    requires heap != weight && heap != parent && weight != parent
    requires heap.Length == HEAP_SIZE && weight.Length == parent.Length == NODES && LeafWeights(weight[..], alpha)
    requires weight[0] == 0 && heap[0] == 0
    modifies heap, parent
    ensures HeapOk(heap[..], weight[..], pos, alpha) && OnlyFirst(pos, alpha)
    ensures forall x :: 1 <= x <= alpha ==> parent[x] == -1
  {
    pos := seq(NODES, _ => 0);
    var i := 1;
    while i <= alpha
      invariant 1 <= i <= alpha + 1
      invariant HeapOk(heap[..], weight[..], pos, i - 1) && OnlyFirst(pos, i - 1)
      invariant forall x :: 1 <= x < i ==> parent[x] == -1
    {
      parent[i] := -1;
      assert forall x | 1 <= x <= alpha :: weight[..][x] == weight[x];
      pos := Insert(heap, weight, i - 1, i, pos);
      i := i + 1;
    }
  }

  lemma {:induction false} AllRoots(h: seq<int>, w: seq<int>, f: Forest, pos: seq<int>, alpha: nat)
    requires HeapOk(h, w, pos, alpha) && OnlyFirst(pos, alpha) && LeafWeights(w, alpha) && w[0] == 0
    requires |f.parent| == |f.kid1| == |f.kid2| == NODES && forall x :: 1 <= x <= alpha ==> f.parent[x] == -1
    requires Sum(Leaves(w, alpha)) < MAX_WEIGHT
    ensures Merging(h, w, f, pos, alpha, alpha, alpha, Sum(Leaves(w, alpha)))
  {
    LeafTotal(w, pos, alpha);
    assert Parted(w, pos, alpha, 0);
    forall x | 1 <= x <= alpha
      ensures Heavy(w[x])
    {
      assert Fib(0) == 1;
    }
  }

  /** All merges: one tree is left. */
  method BuildTree(heap: array<int>, weight: array<int>, parent: array<int>, alpha: nat)
    returns (nNodes: nat, ghost f: Forest, ghost pos: seq<int>)
    requires heap != weight && heap != parent && weight != parent
    requires heap.Length == HEAP_SIZE && weight.Length == parent.Length == NODES && LeafWeights(weight[..], alpha)
    requires Sum(Leaves(weight[..], alpha)) < MAX_WEIGHT
    modifies heap, weight, parent
    ensures parent[..] == f.parent && weight[1..alpha + 1] == old(weight[1..alpha + 1])
    ensures nNodes == 2 * alpha - 1
    ensures Merging(heap[..], weight[..], f, pos, alpha, nNodes, 1, Sum(Leaves(weight[..], alpha)))
    ensures Whole(f, pos, alpha, nNodes) && Matching(LeafWords(weight[..], alpha), weight[..], pos, alpha, nNodes)
  {
    ghost var w := weight[..];
    f, pos := PlantLeaves(heap, weight, parent, alpha);
    assert weight[1..alpha + 1] == weight[1..][..alpha] == w[1..][..alpha] == w[1..alpha + 1];
    SameLeaves(w, weight[..], alpha);
    ghost var r0 := LeafWords(weight[..], alpha);
    nNodes, f, pos := MergeAll(heap, weight, parent, alpha, f, pos, Sum(Leaves(w, alpha)), r0);
    SameLeaves(w, weight[..], alpha);
    OneRoot(heap[..], weight[..], f, pos, alpha, nNodes, Sum(Leaves(w, alpha)));
  }

  method MergeAll(heap: array<int>, weight: array<int>, parent: array<int>, alpha: nat,
                  ghost f0: Forest, ghost pos0: seq<int>, ghost total: int, ghost r0: seq<int>)
    returns (nNodes: nat, ghost f: Forest, ghost pos: seq<int>)
    requires heap != weight && heap != parent && weight != parent && parent[..] == f0.parent
    requires Merging(heap[..], weight[..], f0, pos0, alpha, alpha, alpha, total) && Matching(r0, weight[..], pos0, alpha, alpha)
    modifies heap, weight, parent
    ensures parent[..] == f.parent && weight.Length == NODES && alpha < NODES
    ensures weight[1..alpha + 1] == old(weight[1..alpha + 1])
    ensures nNodes == 2 * alpha - 1 && Merging(heap[..], weight[..], f, pos, alpha, nNodes, 1, total)
    ensures Matching(r0, weight[..], pos, alpha, nNodes)
  {
    f, pos := f0, pos0;
    nNodes := alpha;
    var nHeap := alpha;
    while nHeap > 1
      invariant 1 <= nHeap <= alpha <= nNodes && parent[..] == f.parent
      invariant Merging(heap[..], weight[..], f, pos, alpha, nNodes, nHeap, total) && Matching(r0, weight[..], pos, alpha, nNodes)
      invariant weight[1..alpha + 1] == old(weight[1..alpha + 1])
      decreases nHeap
    {
      ghost var v := weight[..];
      f, pos := MergeOnce(heap, weight, parent, nNodes, nHeap, f, pos, alpha, total, r0);
      KeepsPrefix(v, weight[..], alpha, nNodes);
      nNodes := nNodes + 1;
      nHeap := nHeap - 1;
    }
  }

  lemma {:induction false} KeepsPrefix(v: seq<int>, w: seq<int>, alpha: nat, n: nat)
    requires |v| == |w| && alpha <= n < |v| && v[..n + 1] == w[..n + 1]
    ensures v[1..alpha + 1] == w[1..alpha + 1]
  {
    assert v[1..alpha + 1] == v[..n + 1][1..alpha + 1];
    assert w[1..alpha + 1] == w[..n + 1][1..alpha + 1];
  }

  lemma {:induction false} SameLeaves(w: seq<int>, v: seq<int>, alpha: nat)
    requires |w| == |v| && alpha < |w| && w[1..alpha + 1] == v[1..alpha + 1]
    ensures Leaves(w, alpha) == Leaves(v, alpha) && LeafWords(w, alpha) == LeafWords(v, alpha)
  {
    forall x | 1 <= x <= alpha
      ensures w[x] == v[x]
    {
      assert w[1..alpha + 1][x - 1] == v[1..alpha + 1][x - 1];
    }
  }

  lemma {:induction false} OneRoot(h: seq<int>, w: seq<int>, f: Forest, pos: seq<int>, alpha: nat, n: nat, total: int)
    requires Merging(h, w, f, pos, alpha, n, 1, total)
    ensures Whole(f, pos, alpha, n)
  {
    forall x | 1 <= x < n
      ensures pos[x] <= 0
    {
      assert pos[n] == 1 && 0 <= pos[x] <= 1;
      assert h[1] == n;
    }
  }

  // ---- reading the lengths off the tree ----

  method StepsUp(parent: array<int>, i: nat, nNodes: nat, ghost f: Forest, ghost pos: seq<int>, ghost alpha: nat) returns (j: nat)
    requires parent[..] == f.parent && Whole(f, pos, alpha, nNodes) && 1 <= i <= nNodes && pos[nNodes] > 0
    ensures j == Dist(f.parent, i, nNodes)
  {
    j := 0;
    var k := i;
    assert f.parent[nNodes] == -1;
    while parent[k] >= 0
      invariant i <= k <= nNodes && j + Dist(f.parent, k, nNodes) == Dist(f.parent, i, nNodes)
      decreases nNodes - k
    {
      ParentOf(f, pos, alpha, nNodes, k);
      k := parent[k];
      j := j + 1;
    }
    if k < nNodes {
      ParentOf(f, pos, alpha, nNodes, k);
    }
  }

  method MeasureOne(len: array<int>, parent: array<int>, alpha: nat, i: nat, nNodes: nat, ghost f: Forest, ghost pos: seq<int>) returns (j: nat)
    requires len != parent && i < alpha <= len.Length && parent[..] == f.parent && Whole(f, pos, alpha, nNodes) && pos[nNodes] > 0
    modifies len
    ensures j == Dist(f.parent, i + 1, nNodes) && len[..] == old(len[..])[i := j]
  {
    j := StepsUp(parent, i + 1, nNodes, f, pos, alpha);
    len[i] := j;
  }

  method MeasureLengths(len: array<int>, parent: array<int>, alpha: nat, maxLen: nat, nNodes: nat, ghost f: Forest, ghost pos: seq<int>)
    returns (tooLong: bool)
    requires len != parent && alpha <= len.Length && parent[..] == f.parent && Whole(f, pos, alpha, nNodes) && pos[nNodes] > 0
    modifies len
    ensures LengthsOf(f, alpha, nNodes, len[..alpha])
    ensures tooLong <==> !AllUpTo(len[..alpha], maxLen)
  {
    tooLong := false;
    var i := 0;
    ghost var bad := 0;
    while i < alpha
      invariant 0 <= i <= alpha && (tooLong ==> bad < i)
      invariant forall k :: 0 <= k < i ==> len[k] == Dist(f.parent, k + 1, nNodes)
      invariant if tooLong then len[bad] > maxLen else forall k :: 0 <= k < i ==> len[k] <= maxLen
    {
      var j := MeasureOne(len, parent, alpha, i, nNodes, f, pos);
      if j > maxLen {
        tooLong := true;
        bad := i;
      }
      i := i + 1;
    }
    assert tooLong ==> len[..alpha][bad] > maxLen;
  }

  lemma {:induction false} NodesWithin(f: Forest, pos: seq<int>, alpha: nat, n: nat, m: nat, x: nat)
    requires Whole(f, pos, alpha, n) && 1 <= x <= n && forall i :: 1 <= i <= alpha ==> Dist(f.parent, i, n) <= m
    ensures Dist(f.parent, x, n) <= m
    decreases x
  {
    if x > alpha {
      assert Joined(f, x);
      NodesWithin(f, pos, alpha, n, m, f.kid1[x]);
      ParentOf(f, pos, alpha, n, f.kid1[x]);
    }
  }

  /** What the lengths of one tree satisfy. */
  lemma {:induction false} MeasuredLengths(f: Forest, pos: seq<int>, alpha: nat, n: nat, maxLen: nat, len: seq<int>)
    requires Whole(f, pos, alpha, n) && |len| == alpha && maxLen <= MAX_LEN
    requires forall i :: 0 <= i < alpha ==> len[i] == Dist(f.parent, i + 1, n) && len[i] <= maxLen
    ensures Lengths(len) && Kraft(len, MAX_LEN) == Pow2(MAX_LEN)
  {
    forall i | 0 <= i < alpha
      ensures 1 <= len[i] <= MAX_LEN
    {
      ParentOf(f, pos, alpha, n, i + 1);
    }
    forall i | 1 <= i <= alpha
      ensures Dist(f.parent, i, n) <= MAX_LEN
    {
      assert len[i - 1] <= maxLen;
    }
    forall x | 1 <= x <= n
      ensures Dist(f.parent, x, n) <= MAX_LEN
    {
      NodesWithin(f, pos, alpha, n, MAX_LEN, x);
    }
    KraftEquality(f, pos, alpha, n, MAX_LEN, len);
  }

  // ---- the limit on lengths ----

  lemma {:induction false} SumAtMost(s: seq<int>, c: nat)
    requires forall i :: 0 <= i < |s| ==> s[i] <= c
    ensures Sum(s) <= c * |s|
  {
    if s != [] {
      SumAtMost(s[..|s| - 1], c);
      assert c * |s| == c * (|s| - 1) + c;
    }
  }

  /** Weights of one and two cannot give a long code. */
  lemma {:induction false} LongNeedsWeight(h: seq<int>, w: seq<int>, f: Forest, pos: seq<int>, alpha: nat, n: nat, i: nat)
    requires alpha < |w| && Merging(h, w, f, pos, alpha, n, 1, Sum(Leaves(w, alpha))) && Whole(f, pos, alpha, n)
    requires i < alpha && Dist(f.parent, i + 1, n) > 12
    ensures exists x :: 0 <= x < alpha && Leaves(w, alpha)[x] > 2
  {
    DistBound(f, pos, w, alpha, n, i + 1);
    assert Heavy(w[n]);
    DeepIsHeavy(w[n]);
    RootAtMost(f, w, pos, alpha, n);
    SomeAbove(Leaves(w, alpha), 2);
  }

  lemma {:induction false} RootAtMost(f: Forest, w: seq<int>, pos: seq<int>, alpha: nat, n: nat)
    requires Shape(f, pos, alpha, n) && Weighted(f, w, alpha, n) && pos[0] <= 0 && pos[n] > 0 && forall x :: n < x < NODES ==> pos[x] == 0
    ensures WeightOf(w[n]) <= Sum(RootWeights(w, pos))
  {
    RootsPositive(f, w, pos, alpha, n);
    TermAtMostSum(RootWeights(w, pos), n);
  }

  lemma {:induction false} DeepIsHeavy(z: int)
    requires Heavy(z) && DepthOf(z) > 12
    ensures WeightOf(z) >= 610
  {
    FibMono(13, DepthOf(z));
    FibThirteen();
  }

  /** A sum above c for each term has a term above c. */
  lemma {:induction false} SomeAbove(s: seq<int>, c: nat)
    requires Sum(s) > c * |s|
    ensures exists x :: 0 <= x < |s| && s[x] > c
  {
    if forall x :: 0 <= x < |s| ==> s[x] <= c {
      SumAtMost(s, c);
    }
  }

  /** Halves the weights: none grows, none vanishes, and any above two shrinks. */
  method Rescale(weight: array<int>, alpha: nat)
    requires LeafWeights(weight[..], alpha)
    modifies weight
    ensures LeafWeights(weight[..], alpha)
    ensures Sum(Leaves(weight[..], alpha)) <= old(Sum(Leaves(weight[..], alpha)))
    ensures (exists x :: 0 <= x < alpha && old(Leaves(weight[..], alpha))[x] > 2) ==>
              Sum(Leaves(weight[..], alpha)) < old(Sum(Leaves(weight[..], alpha)))
    ensures Leaves(weight[..], alpha) == Halved(old(Leaves(weight[..], alpha)))
  {
    ghost var w := weight[..];
    var i := 1;
    while i <= alpha
      invariant 1 <= i <= alpha + 1 && weight.Length == NODES
      invariant forall x :: i <= x <= alpha ==> weight[x] == w[x]
      invariant forall x :: 1 <= x < i ==> weight[x] == (1 + WeightOf(w[x]) / 2) * 256
    {
      var j := WeightOf(weight[i]);
      j := 1 + j / 2;
      weight[i] := j * 256;
      i := i + 1;
    }
    HalvedLeaves(w, weight[..], alpha);
  }

  lemma {:induction false} HalvedOne(x: int, y: int)
    requires x >= 256 && y == (1 + WeightOf(x) / 2) * 256
    ensures y >= 256 && DepthOf(y) == 0 && WeightOf(y) <= WeightOf(x) && (WeightOf(x) > 2 ==> WeightOf(y) < WeightOf(x))
  {
  }

  ghost function Halved(ws: seq<int>): (s: seq<int>)
    ensures |s| == |ws| && forall i :: 0 <= i < |s| ==> s[i] == 1 + ws[i] / 2
  {
    seq(|ws|, i requires 0 <= i < |ws| => 1 + ws[i] / 2)
  }

  ghost function Halvings(ws: seq<int>, k: nat): (s: seq<int>)
    ensures |s| == |ws|
  {
    if k == 0 then ws else Halved(Halvings(ws, k - 1))
  }

  /** Best lengths for weights that have been halved just until some code of the fewest bits keeps to the limit. */
  ghost predicate Chosen(ws: seq<int>, len: seq<int>, maxLen: int, k: nat) {
    && Best(Halvings(ws, k), len) && AllUpTo(len, maxLen)
    && forall j :: 0 <= j < k ==> TooDeep(Halvings(ws, j), maxLen)
  }

  /** There is only one number of times. */
  lemma {:induction false} OneChoice(ws: seq<int>, len: seq<int>, len': seq<int>, maxLen: int, k: nat, k': nat)
    requires Chosen(ws, len, maxLen, k) && Chosen(ws, len', maxLen, k')
    ensures k == k'
  {
    BestDecides(Halvings(ws, k), len, maxLen);
    BestDecides(Halvings(ws, k'), len', maxLen);
  }

  /** No halving exactly if a code of the fewest bits keeps to the limit. */
  lemma {:induction false} FitsAtOnce(ws: seq<int>, len: seq<int>, maxLen: int, k: nat)
    requires Chosen(ws, len, maxLen, k)
    ensures k == 0 <==> !TooDeep(ws, maxLen)
    ensures k == 0 ==> Best(ws, len)
  {
    BestDecides(Halvings(ws, k), len, maxLen);
    assert Halvings(ws, 0) == ws;
  }

  lemma {:induction false} HalvedLeaves(w: seq<int>, v: seq<int>, alpha: nat)
    requires LeafWeights(w, alpha) && |v| == NODES && forall x :: 1 <= x <= alpha ==> v[x] == (1 + WeightOf(w[x]) / 2) * 256
    ensures LeafWeights(v, alpha) && Sum(Leaves(v, alpha)) <= Sum(Leaves(w, alpha))
    ensures (exists x :: 0 <= x < alpha && Leaves(w, alpha)[x] > 2) ==> Sum(Leaves(v, alpha)) < Sum(Leaves(w, alpha))
  {
    var s, t := Leaves(v, alpha), Leaves(w, alpha);
    forall x | 1 <= x <= alpha
      ensures v[x] >= 256 && DepthOf(v[x]) == 0 && WeightOf(v[x]) <= WeightOf(w[x])
      ensures WeightOf(w[x]) > 2 ==> WeightOf(v[x]) < WeightOf(w[x])
    {
      HalvedOne(w[x], v[x]);
    }
    SumMono(s, t);
  }

  /** Frequencies with zero counted as one. */
  ghost function Clipped(freq: seq<int>): (s: seq<int>)
    ensures |s| == |freq| && forall i :: 0 <= i < |s| ==> s[i] == if freq[i] == 0 then 1 else freq[i]
  {
    seq(|freq|, i requires 0 <= i < |freq| => if freq[i] == 0 then 1 else freq[i])
  }

  method InitWeights(weight: array<int>, freq: array<int>, alpha: nat)
    requires weight != freq && weight.Length == NODES && 2 <= alpha <= freq.Length && alpha <= MAX_ALPHA_SIZE
    requires forall i :: 0 <= i < alpha ==> freq[i] >= 0
    modifies weight
    ensures LeafWeights(weight[..], alpha) && Leaves(weight[..], alpha) == Clipped(freq[..alpha])
  {
    var i := 0;
    while i < alpha
      invariant 0 <= i <= alpha
      invariant forall x :: 1 <= x <= i ==> weight[x] == Clipped(freq[..alpha])[x - 1] * 256
    {
      weight[i + 1] := (if freq[i] == 0 then 1 else freq[i]) * 256;
      i := i + 1;
    }
  }

  /**
   * For any frequencies whose total fits the packed 32-bit weights, the loop ends and the lengths are
   * those of a full binary tree: at least 1, at most maxLen, and Kraft's sum is exactly one. They are the
   * best there are, for the frequencies themselves if possible, else for these halved as often as it takes.
   */
  method MakeCodeLengths(len: array<int>, freq: array<int>, alphaSize: nat, maxLen: nat)
    requires len != freq && 2 <= alphaSize <= MAX_ALPHA_SIZE && alphaSize <= len.Length && alphaSize <= freq.Length
    requires 12 <= maxLen <= MAX_LEN && forall i :: 0 <= i < alphaSize ==> freq[i] >= 0
    requires Sum(Clipped(freq[..alphaSize])) < MAX_WEIGHT
    modifies len
    ensures GoodLengths(len[..alphaSize], maxLen)
    ensures exists k: nat :: Chosen(Clipped(freq[..alphaSize]), len[..alphaSize], maxLen, k)
  {
    var heap, weight, parent := new int[HEAP_SIZE], new int[NODES], new int[NODES];
    InitWeights(weight, freq, alphaSize);
    ghost var before := freq[..alphaSize];
    ghost var k := FitLengths(len, heap, weight, parent, alphaSize, maxLen, Clipped(before));
    assert freq[..alphaSize] == before;
  }

  /** The loop: one tree after the other until its lengths fit. */
  method FitLengths(len: array<int>, heap: array<int>, weight: array<int>, parent: array<int>, alphaSize: nat, maxLen: nat, ghost ws: seq<int>)
    returns (ghost k: nat)
    requires heap != weight && heap != parent && weight != parent && len != heap && len != weight && len != parent
    requires heap.Length == HEAP_SIZE && weight.Length == parent.Length == NODES && alphaSize <= len.Length
    requires Tried(weight[..], alphaSize, ws, maxLen, 0) && 12 <= maxLen <= MAX_LEN
    modifies len, heap, weight, parent
    ensures GoodLengths(len[..alphaSize], maxLen) && Chosen(ws, len[..alphaSize], maxLen, k)
  {
    var tooLong := true;
    k := 0;
    while tooLong
      invariant Tried(weight[..], alphaSize, ws, maxLen, k)
      invariant !tooLong ==> GoodLengths(len[..alphaSize], maxLen) && Chosen(ws, len[..alphaSize], maxLen, k)
      decreases tooLong, Sum(Halvings(ws, k))
    {
      tooLong, k := TryLengths(len, heap, weight, parent, alphaSize, maxLen, ws, k);
    }
  }

  /** The weights have been halved k times, each time because no code of the fewest bits kept to the limit. */
  ghost predicate Tried(w: seq<int>, alpha: nat, ws: seq<int>, maxLen: int, k: nat) {
    && LeafWeights(w, alpha) && Leaves(w, alpha) == Halvings(ws, k) && Sum(Leaves(w, alpha)) < MAX_WEIGHT
    && forall j :: 0 <= j < k ==> TooDeep(Halvings(ws, j), maxLen)
  }

  ghost predicate GoodLengths(len: seq<int>, maxLen: nat) {
    Lengths(len) && Kraft(len, MAX_LEN) == Pow2(MAX_LEN) && AllUpTo(len, maxLen)
  }

  /** Builds a tree and measures it; if a code is too long, makes the weights more alike. */
  method TryLengths(len: array<int>, heap: array<int>, weight: array<int>, parent: array<int>, alphaSize: nat, maxLen: nat,
                    ghost ws: seq<int>, ghost k: nat)
    returns (tooLong: bool, ghost k': nat)
    requires heap != weight && heap != parent && weight != parent && len != heap && len != weight && len != parent
    requires heap.Length == HEAP_SIZE && weight.Length == parent.Length == NODES && alphaSize <= len.Length
    requires Tried(weight[..], alphaSize, ws, maxLen, k) && 12 <= maxLen <= MAX_LEN
    modifies len, heap, weight, parent
    ensures !tooLong ==> GoodLengths(len[..alphaSize], maxLen) && Chosen(ws, len[..alphaSize], maxLen, k')
    ensures Tried(weight[..], alphaSize, ws, maxLen, k') && (tooLong ==> 0 <= Sum(Halvings(ws, k')) < Sum(Halvings(ws, k)))
  {
    ghost var w := weight[..];
    k' := k;
    tooLong := TreeLengths(len, heap, weight, parent, alphaSize, maxLen);
    SameLeaves(w, weight[..], alphaSize);
    SameLeafWeights(w, weight[..], alphaSize);
    Decided(w, alphaSize, ws, maxLen, k, len[..alphaSize]);
    if tooLong {
      Rescale(weight, alphaSize);
      k' := k + 1;
      TriedMore(w, weight[..], alphaSize, ws, maxLen, k);
    }
  }

  lemma {:induction false} Decided(w: seq<int>, alpha: nat, ws: seq<int>, maxLen: int, k: nat, len: seq<int>)
    requires Tried(w, alpha, ws, maxLen, k) && Best(Leaves(w, alpha), len)
    ensures if AllUpTo(len, maxLen) then Chosen(ws, len, maxLen, k) else TooDeep(Halvings(ws, k), maxLen)
  {
    BestDecides(Halvings(ws, k), len, maxLen);
  }

  lemma {:induction false} TriedMore(w: seq<int>, v: seq<int>, alpha: nat, ws: seq<int>, maxLen: int, k: nat)
    requires Tried(w, alpha, ws, maxLen, k) && TooDeep(Halvings(ws, k), maxLen)
    requires LeafWeights(v, alpha) && Leaves(v, alpha) == Halved(Leaves(w, alpha)) && Sum(Leaves(v, alpha)) <= Sum(Leaves(w, alpha))
    ensures Tried(v, alpha, ws, maxLen, k + 1) && Sum(Halvings(ws, k + 1)) >= 0
  {
    LeavesPositive(v, alpha);
  }

  /** One tree and the lengths in it, which are a best code; one of them above the limit needs a weight above two. */
  method TreeLengths(len: array<int>, heap: array<int>, weight: array<int>, parent: array<int>, alphaSize: nat, maxLen: nat)
    returns (tooLong: bool)
    requires heap != weight && heap != parent && weight != parent && len != heap && len != weight && len != parent
    requires heap.Length == HEAP_SIZE && weight.Length == parent.Length == NODES && alphaSize <= len.Length
    requires LeafWeights(weight[..], alphaSize) && Sum(Leaves(weight[..], alphaSize)) < MAX_WEIGHT && 12 <= maxLen <= MAX_LEN
    modifies len, heap, weight, parent
    ensures weight[1..alphaSize + 1] == old(weight[1..alphaSize + 1])
    ensures Best(Leaves(weight[..], alphaSize), len[..alphaSize])
    ensures tooLong <==> !AllUpTo(len[..alphaSize], maxLen)
    ensures if tooLong then exists x :: 0 <= x < alphaSize && Leaves(weight[..], alphaSize)[x] > 2 else GoodLengths(len[..alphaSize], maxLen)
  {
    ghost var w := weight[..];
    var nNodes;
    ghost var f, pos;
    nNodes, f, pos := BuildTree(heap, weight, parent, alphaSize);
    SameLeaves(w, weight[..], alphaSize);
    SameLeafWeights(w, weight[..], alphaSize);
    tooLong := MeasureLengths(len, parent, alphaSize, maxLen, nNodes, f, pos);
    LengthsBuilt(heap[..], weight[..], f, pos, alphaSize, nNodes, maxLen, len[..alphaSize]);
  }

  lemma {:induction false} LengthsBuilt(h: seq<int>, w: seq<int>, f: Forest, pos: seq<int>, alpha: nat, n: nat, maxLen: nat, len: seq<int>)
    requires LeafWeights(w, alpha) && Merging(h, w, f, pos, alpha, n, 1, Sum(Leaves(w, alpha))) && Whole(f, pos, alpha, n)
    requires Matching(LeafWords(w, alpha), w, pos, alpha, n) && LengthsOf(f, alpha, n, len) && 12 <= maxLen <= MAX_LEN
    ensures Best(Leaves(w, alpha), len)
    ensures if AllUpTo(len, maxLen) then GoodLengths(len, maxLen)
            else exists x :: 0 <= x < alpha && Leaves(w, alpha)[x] > 2
  {
    BuiltBest(h, w, f, pos, alpha, n, len);
    if AllUpTo(len, maxLen) {
      MeasuredLengths(f, pos, alpha, n, maxLen, len);
    } else {
      var i :| 0 <= i < alpha && len[i] > maxLen;
      LongNeedsWeight(h, w, f, pos, alpha, n, i);
    }
  }

  lemma {:induction false} BuiltBest(h: seq<int>, w: seq<int>, f: Forest, pos: seq<int>, alpha: nat, n: nat, len: seq<int>)
    requires LeafWeights(w, alpha) && Merging(h, w, f, pos, alpha, n, 1, Sum(Leaves(w, alpha))) && Whole(f, pos, alpha, n)
    requires Matching(LeafWords(w, alpha), w, pos, alpha, n) && LengthsOf(f, alpha, n, len)
    ensures Best(Leaves(w, alpha), len)
  {
    NodeWeights(f, w, pos, alpha, n, n);
    TreeBest(f, pos, w, alpha, n, len);
  }

  lemma {:induction false} SameLeafWeights(w: seq<int>, v: seq<int>, alpha: nat)
    requires LeafWeights(w, alpha) && |v| == NODES && w[1..alpha + 1] == v[1..alpha + 1]
    ensures LeafWeights(v, alpha)
  {
    forall x | 1 <= x <= alpha
      ensures v[x] == w[x]
    {
      assert w[1..alpha + 1][x - 1] == v[1..alpha + 1][x - 1];
    }
  }

  lemma {:induction false} LeavesPositive(w: seq<int>, alpha: nat)
    requires LeafWeights(w, alpha)
    ensures Sum(Leaves(w, alpha)) >= 0
  {
    SumNonNegative(Leaves(w, alpha));
  }
}
