/** The binary heap of tree roots, ordered by weight. Entries run from 1; entry 0 is a sentinel. */
module HuffmanHeap {

  /** pos is the inverse of the first n heap entries; 0 stands for "not in the heap". */
  ghost predicate Placed(h: seq<int>, pos: seq<int>, n: nat) {
    && n < |h| && h[0] == 0 && 0 < |pos| && pos[0] == 0
    && (forall i :: 1 <= i <= n ==> 0 < h[i] < |pos| && pos[h[i]] == i)
    && (forall x :: 0 <= x < |pos| ==> 0 <= pos[x] <= n && (pos[x] > 0 ==> h[pos[x]] == x))
  }

  /** The same nodes are in the heap. */
  ghost predicate SameMembers(pos: seq<int>, pos': seq<int>) {
    |pos| == |pos'| && forall x :: 0 <= x < |pos| ==> (pos[x] > 0 <==> pos'[x] > 0)
  }

  ghost predicate Edge(h: seq<int>, w: seq<int>, i: int) {
    && 2 <= i < |h| && 0 <= h[i / 2] < |w| && 0 <= h[i] < |w|
    && w[h[i / 2]] <= w[h[i]]
  }

  ghost predicate HeapOrdered(h: seq<int>, w: seq<int>, n: nat) {
    forall i {:trigger Edge(h, w, i)} :: 2 <= i <= n ==> Edge(h, w, i)
  }

  /** In order but for the edge above z; the edges below z would also hold if z were taken out. */
  ghost predicate OrderedAbove(h: seq<int>, w: seq<int>, n: nat, z: nat) {
    && (forall i {:trigger Edge(h, w, i)} :: 2 <= i <= n && i != z ==> Edge(h, w, i))
    && (forall i {:trigger Skip(h, w, i)} :: 4 <= i <= n && i / 2 == z ==> Skip(h, w, i))
  }

  /** In order but for the edges below z. */
  ghost predicate OrderedBelow(h: seq<int>, w: seq<int>, n: nat, z: nat) {
    && (forall i {:trigger Edge(h, w, i)} :: 2 <= i <= n && i / 2 != z ==> Edge(h, w, i))
    && (forall i {:trigger Skip(h, w, i)} :: 4 <= i <= n && i / 2 == z ==> Skip(h, w, i))
  }

  /** An entry is no lighter than its grandparent. */
  ghost predicate Skip(h: seq<int>, w: seq<int>, i: int) {
    && 4 <= i < |h| && 0 <= h[i / 4] < |w| && 0 <= h[i] < |w|
    && w[h[i / 4]] <= w[h[i]]
  }

  ghost predicate Nodes(h: seq<int>, w: seq<int>, n: nat) {
    n < |h| && forall i :: 1 <= i <= n ==> 0 <= h[i] < |w|
  }

  ghost function Swap(s: seq<int>, i: nat, j: nat): (r: seq<int>)
    requires i < |s| && j < |s|
    ensures |r| == |s|
  {
    s[i := s[j]][j := s[i]]
  }

  lemma {:induction false} SwapPlaced(h: seq<int>, pos: seq<int>, n: nat, i: nat, j: nat)
    requires Placed(h, pos, n) && 1 <= i <= n && 1 <= j <= n && i != j
    ensures var pos' := pos[h[i] := j][h[j] := i]; Placed(Swap(h, i, j), pos', n) && SameMembers(pos, pos')
  {
  }

  lemma {:induction false} UpStep(h: seq<int>, w: seq<int>, n: nat, z: nat)
    requires Nodes(h, w, n) && 2 <= z <= n && OrderedAbove(h, w, n, z) && w[h[z]] < w[h[z / 2]]
    ensures OrderedAbove(Swap(h, z, z / 2), w, n, z / 2)
  {
    var q := z / 2;
    var v := Swap(h, z, q);
    forall i | 2 <= i <= n && i != q
      ensures Edge(v, w, i)
    {
      if i == z {
      } else if i / 2 == z {
        assert Skip(h, w, i);
      } else {
        assert Edge(h, w, i);
      }
    }
    forall i | 4 <= i <= n && i / 2 == q
      ensures Skip(v, w, i)
    {
      assert Edge(h, w, q);
      assert i / 4 == q / 2;
      if i != z {
        assert Edge(h, w, i);
      }
    }
  }

  lemma {:induction false} UpDone(h: seq<int>, w: seq<int>, n: nat, z: nat)
    requires Nodes(h, w, n) && 1 <= z <= n && OrderedAbove(h, w, n, z)
    requires z > 1 ==> w[h[z / 2]] <= w[h[z]]
    ensures HeapOrdered(h, w, n)
  {
    forall i | 2 <= i <= n
      ensures Edge(h, w, i)
    {
    }
  }

  lemma {:induction false} DownStep(h: seq<int>, w: seq<int>, n: nat, z: nat, y: nat)
    requires Nodes(h, w, n) && 1 <= z && z == y / 2 && 2 <= y <= n && OrderedBelow(h, w, n, z)
    requires w[h[y]] <= w[h[z]] && forall i :: 2 <= i <= n && i / 2 == z ==> w[h[y]] <= w[h[i]]
    ensures OrderedBelow(Swap(h, z, y), w, n, y)
  {
    var v := Swap(h, z, y);
    forall i | 2 <= i <= n && i / 2 != y
      ensures Edge(v, w, i)
    {
      if i == z {
        assert Skip(h, w, y);
        assert y / 4 == z / 2;
      } else if i / 2 != z {
        assert Edge(h, w, i);
      }
    }
    forall i | 4 <= i <= n && i / 2 == y
      ensures Skip(v, w, i)
    {
      assert Edge(h, w, i);
      assert i / 4 == z;
    }
  }

  lemma {:induction false} DownDone(h: seq<int>, w: seq<int>, n: nat, z: nat)
    requires Nodes(h, w, n) && 1 <= z && OrderedBelow(h, w, n, z)
    requires forall i :: 2 <= i <= n && i / 2 == z ==> w[h[z]] <= w[h[i]]
    ensures HeapOrdered(h, w, n)
  {
    forall i | 2 <= i <= n
      ensures Edge(h, w, i)
    {
    }
  }

  /** The lightest node is on top. */
  lemma {:induction false} TopIsLightest(h: seq<int>, w: seq<int>, n: nat, i: nat)
    requires Nodes(h, w, n) && HeapOrdered(h, w, n) && 1 <= i <= n
    ensures w[h[1]] <= w[h[i]]
    decreases i
  {
    if i > 1 {
      assert Edge(h, w, i);
      TopIsLightest(h, w, n, i / 2);
    }
  }

  /** UPHEAP. */
  method UpHeap(heap: array<int>, weight: array<int>, z: nat, ghost pos: seq<int>) returns (ghost pos': seq<int>)
    requires heap != weight && 1 <= z && Placed(heap[..], pos, z) && |pos| <= weight.Length
    requires OrderedAbove(heap[..], weight[..], z, z)
    requires weight[0] == 0 && forall i :: 1 <= i <= z ==> weight[heap[i]] >= 0
    modifies heap
    ensures Placed(heap[..], pos', z) && SameMembers(pos, pos') && HeapOrdered(heap[..], weight[..], z)
  {
    ghost var w := weight[..];
    ghost var v := heap[..];
    pos' := pos;
    var zz := z;
    var tmp := heap[zz];
    assert heap[..][zz := tmp] == v;
    while weight[tmp] < weight[heap[zz / 2]]
      invariant 1 <= zz <= z && v == heap[..][zz := tmp] && 0 < tmp < |pos| && weight[tmp] >= 0
      invariant Placed(v, pos', z) && SameMembers(pos, pos') && OrderedAbove(v, w, z, zz)
      invariant heap[zz / 2] == v[zz / 2] && 0 <= v[zz / 2] < weight.Length
      decreases zz
    {
      UpStep(v, w, z, zz);
      SwapPlaced(v, pos', z, zz, zz / 2);
      pos' := pos'[v[zz] := zz / 2][v[zz / 2] := zz];
      v := Swap(v, zz, zz / 2);
      heap[zz] := heap[zz / 2];
      zz := zz / 2;
      assert heap[..][zz := tmp] == v;
    }
    assert zz > 1 ==> v[zz / 2] == heap[zz / 2];
    UpDone(v, w, z, zz);
    heap[zz] := tmp;
    assert heap[..] == v;
  }

  method LighterChild(heap: array<int>, weight: array<int>, nHeap: nat, zz: nat, ghost v: seq<int>) returns (yy: nat)
    requires nHeap < heap.Length == |v| && 1 <= zz && zz * 2 <= nHeap && Nodes(v, weight[..], nHeap)
    requires forall i :: zz < i <= nHeap ==> heap[i] == v[i]
    ensures yy / 2 == zz && 2 <= yy <= nHeap && heap[yy] == v[yy]
    ensures forall i :: 2 <= i <= nHeap && i / 2 == zz ==> weight[v[yy]] <= weight[v[i]]
  {
    yy := zz * 2;
    assert heap[yy] == v[yy];
    assert yy < nHeap ==> heap[yy + 1] == v[yy + 1];
    if yy < nHeap && weight[heap[yy + 1]] < weight[heap[yy]] {
      yy := yy + 1;
    }
    Children(v, weight[..], nHeap, zz, yy);
  }

  /** DOWNHEAP(1). */
  method DownHeap(heap: array<int>, weight: array<int>, nHeap: nat, ghost pos: seq<int>) returns (ghost pos': seq<int>)
    requires heap != weight && Placed(heap[..], pos, nHeap) && 2 <= heap.Length && |pos| <= weight.Length
    requires OrderedBelow(heap[..], weight[..], nHeap, 1)
    modifies heap
    ensures Placed(heap[..], pos', nHeap) && SameMembers(pos, pos') && HeapOrdered(heap[..], weight[..], nHeap)
  {
    ghost var w := weight[..];
    pos' := pos;
    if nHeap == 0 {
      heap[1] := heap[1];
      return;
    }
    ghost var v := heap[..];
    var zz := 1;
    var tmp := heap[zz];
    while true
      invariant 1 <= zz <= nHeap && v == heap[..][zz := tmp] && 0 < tmp < |pos|
      invariant Placed(v, pos', nHeap) && SameMembers(pos, pos') && OrderedBelow(v, w, nHeap, zz)
      decreases nHeap - zz
    {
      if zz * 2 > nHeap {
        break;
      }
      assert Nodes(v, w, nHeap);
      var yy := LighterChild(heap, weight, nHeap, zz, v);
      if weight[tmp] < weight[heap[yy]] {
        break;
      }
      DownStep(v, w, nHeap, zz, yy);
      SwapPlaced(v, pos', nHeap, zz, yy);
      pos' := pos'[v[zz] := yy][v[yy] := zz];
      v := Swap(v, zz, yy);
      heap[zz] := heap[yy];
      zz := yy;
      assert heap[..][zz := tmp] == v;
    }
    DownDone(v, w, nHeap, zz);
    heap[zz] := tmp;
    assert heap[..] == v;
  }

  /** The lighter of one or two children. */
  lemma {:induction false} Children(h: seq<int>, w: seq<int>, n: nat, z: nat, y: nat)
    requires Nodes(h, w, n) && 1 <= z && 2 * z <= n && (y == 2 * z || (y == 2 * z + 1 && y <= n))
    requires y == 2 * z ==> 2 * z + 1 > n || w[h[y]] <= w[h[y + 1]]
    requires y == 2 * z + 1 ==> w[h[y]] <= w[h[y - 1]]
    ensures forall i :: 2 <= i <= n && i / 2 == z ==> w[h[y]] <= w[h[i]]
  {
    forall i | 2 <= i <= n && i / 2 == z
      ensures w[h[y]] <= w[h[i]]
    {
      assert i == 2 * z || i == 2 * z + 1;
    }
  }
}
