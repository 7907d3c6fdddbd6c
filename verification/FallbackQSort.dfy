/** Sorting a bucket of fmap by eclass: the insertion sort for short ranges and the three-way quicksort. */
module FallbackQSort {
  import opened Arith
  import opened Closing

  const SMALL_THRESH := 10
  const STACK_SIZE := 100

  /** Every entry of fmap is an index into eclass. */
  ghost predicate Indexed(f: seq<int>, e: seq<int>) {
    forall i :: 0 <= i < |f| ==> 0 <= f[i] < |e|
  }

  ghost function Key(f: seq<int>, e: seq<int>, i: int): int
    requires 0 <= i < |f| && 0 <= f[i] < |e|
  {
    e[f[i]]
  }

  ghost predicate SortedOn(f: seq<int>, e: seq<int>, lo: int, hi: int)
    requires Indexed(f, e) && 0 <= lo && hi < |f|
  {
    forall a, b :: lo <= a < b <= hi ==> Key(f, e, a) <= Key(f, e, b)
  }

  /** The first n entries of f, each as often as it occurs. */
  ghost function Bag(f: seq<int>, n: nat): multiset<int>
    requires n <= |f|
  {
    if n == 0 then multiset{} else Bag(f, n - 1) + multiset{f[n - 1]}
  }

  lemma {:induction false} BagIsMultiset(f: seq<int>, n: nat)
    requires n <= |f|
    ensures Bag(f, n) == multiset(f[..n])
  {
    if n > 0 {
      BagIsMultiset(f, n - 1);
      assert f[..n] == f[..n - 1] + [f[n - 1]];
    }
  }

  lemma {:induction false} SameBag(f: seq<int>, g: seq<int>)
    ensures Bag(f, |f|) == Bag(g, |g|) <==> multiset(f) == multiset(g)
  {
    BagIsMultiset(f, |f|);
    BagIsMultiset(g, |g|);
    assert f[..|f|] == f && g[..|g|] == g;
  }

  /** g is f with the entries lo..hi permuted among themselves. */
  ghost predicate Rearranged(f: seq<int>, g: seq<int>, lo: int, hi: int) {
    && |f| == |g|
    && Bag(f, |f|) == Bag(g, |g|)
    && forall k :: 0 <= k < |f| && !(lo <= k <= hi) ==> g[k] == f[k]
  }

  lemma {:induction false} RearrangedTrans(f: seq<int>, g: seq<int>, h: seq<int>, lo: int, hi: int)
    requires Rearranged(f, g, lo, hi) && Rearranged(g, h, lo, hi)
    ensures Rearranged(f, h, lo, hi)
  {
  }

  lemma {:induction false} SumCancels(a: multiset<int>, b: multiset<int>, c: multiset<int>, d: multiset<int>)
    requires a + b + d == a + c + d
    ensures b == c
  {
    forall x
      ensures b[x] == c[x]
    {
      assert (a + b + d)[x] == a[x] + b[x] + d[x];
      assert (a + c + d)[x] == a[x] + c[x] + d[x];
    }
  }

  /** An entry of the rearranged range came from somewhere in that range. */
  lemma {:induction false} RearrangedSource(f: seq<int>, g: seq<int>, lo: int, hi: int, a: int) returns (x: int)
    requires Rearranged(f, g, lo, hi)
    requires 0 <= lo <= a <= hi < |f|
    ensures lo <= x <= hi && g[a] == f[x]
  {
    SameBag(f, g);
    var k := hi + 1;
    MiddleBag(f, g, lo, k);
    assert g[lo..k][a - lo] == g[a];
    assert g[a] in multiset(g[lo..k]);
    assert g[a] in f[lo..k];
    var y :| 0 <= y < |f[lo..k]| && f[lo..k][y] == g[a];
    x := lo + y;
  }

  lemma {:induction false} MiddleBag(f: seq<int>, g: seq<int>, lo: int, k: int)
    requires |f| == |g| && multiset(f) == multiset(g)
    requires 0 <= lo <= k <= |f|
    requires forall i :: 0 <= i < |f| && !(lo <= i < k) ==> f[i] == g[i]
    ensures multiset(f[lo..k]) == multiset(g[lo..k])
  {
    assert f == f[..lo] + f[lo..k] + f[k..];
    assert g == g[..lo] + g[lo..k] + g[k..];
    assert f[..lo] == g[..lo];
    assert f[k..] == g[k..];
    SumCancels(multiset(f[..lo]), multiset(f[lo..k]), multiset(g[lo..k]), multiset(f[k..]));
  }

  ghost function Swapped(f: seq<int>, i: int, j: int): (g: seq<int>)
    requires 0 <= i < |f| && 0 <= j < |f|
  {
    f[i := f[j]][j := f[i]]
  }

  lemma {:induction false} SwapRearranges(f0: seq<int>, f: seq<int>, e: seq<int>, i: int, j: int, lo: int, hi: int)
    requires Rearranged(f0, f, lo, hi) && Indexed(f, e)
    requires 0 <= lo <= i <= hi < |f| && lo <= j <= hi
    ensures Rearranged(f0, Swapped(f, i, j), lo, hi) && Indexed(Swapped(f, i, j), e)
  {
    SwapBag(f, i, j);
  }

  lemma {:induction false} SwapBag(f: seq<int>, i: int, j: int)
    requires 0 <= i < |f| && 0 <= j < |f|
    ensures Bag(Swapped(f, i, j), |f|) == Bag(f, |f|)
  {
    SameBag(f, Swapped(f, i, j));
  }

  /** The entry at h moved up by steps of stride past entries with smaller keys. */
  ghost function Sift(f: seq<int>, e: seq<int>, h: int, stride: int, hi: int): (g: seq<int>)
    requires Indexed(f, e) && 0 <= h && 1 <= stride && hi < |f|
    ensures |g| == |f|
    decreases hi - h
  {
    if h + stride <= hi && Key(f, e, h) > Key(f, e, h + stride)
    then Sift(Swapped(f, h, h + stride), e, h + stride, stride, hi)
    else f
  }

  lemma {:induction false} SiftRearranges(f: seq<int>, e: seq<int>, h: int, stride: int, lo: int, hi: int)
    requires Indexed(f, e) && 0 <= lo <= h && 1 <= stride && hi < |f|
    ensures Rearranged(f, Sift(f, e, h, stride, hi), lo, hi) && Indexed(Sift(f, e, h, stride, hi), e)
    decreases hi - h
  {
    if h + stride <= hi && Key(f, e, h) > Key(f, e, h + stride) {
      var g := Swapped(f, h, h + stride);
      SwapRearranges(f, f, e, h, h + stride, lo, hi);
      SiftRearranges(g, e, h + stride, stride, lo, hi);
      RearrangedTrans(f, g, Sift(g, e, h + stride, stride, hi), lo, hi);
    }
  }

  /** With stride 1, a range sorted above h becomes sorted from i on. */
  lemma {:induction false} SiftSorts(f: seq<int>, e: seq<int>, i: int, h: int, hi: int)
    requires Indexed(f, e) && 0 <= i && hi < |f|
    requires MovedUp(f, e, i, h, hi)
    ensures Indexed(Sift(f, e, h, 1, hi), e) && SortedOn(Sift(f, e, h, 1, hi), e, i, hi)
    decreases hi - h
  {
    if h + 1 <= hi && Key(f, e, h) > Key(f, e, h + 1) {
      MoveOn(f, e, i, h, hi);
      SiftSorts(Swapped(f, h, h + 1), e, i, h + 1, hi);
    } else {
      Settled(f, e, i, h, hi);
    }
  }

  lemma {:induction false} SiftStep(m: seq<int>, e: seq<int>, h: int, stride: int, hi: int, tmp: int)
    requires Indexed(m, e) && 0 <= h && 1 <= stride && h + stride <= hi < |m|
    requires 0 <= tmp < |e| && e[tmp] > Key(m, e, h + stride)
    ensures m[h := m[h + stride]][h + stride := tmp] == Swapped(m[h := tmp], h, h + stride)
    ensures Indexed(m[h := m[h + stride]], e)
    ensures Sift(m[h := tmp], e, h, stride, hi) == Sift(Swapped(m[h := tmp], h, h + stride), e, h + stride, stride, hi)
  {
  }

  /** The sequence with the held entry in the gap takes one step of Sift. */
  method ShiftDown(fmap: array<int>, j: int, stride: int, hi: int, tmp: int, ghost e: seq<int>)
    requires 1 <= stride <= j <= hi < fmap.Length && Indexed(fmap[..], e)
    requires 0 <= tmp < |e| && e[tmp] > Key(fmap[..], e, j)
    modifies fmap
    ensures Indexed(fmap[..], e)
    ensures Sift(fmap[..][j := tmp], e, j, stride, hi) == old(Sift(fmap[..][j - stride := tmp], e, j - stride, stride, hi))
  {
    SiftStep(fmap[..], e, j - stride, stride, hi, tmp);
    ghost var m := fmap[..];
    fmap[j - stride] := fmap[j];
    assert fmap[..] == m[j - stride := m[j]];
  }

  /** Insertion by shifting: smaller entries move down a stride, then the held entry drops into the gap. */
  method Insert(fmap: array<int>, eclass: array<int>, hi: int, i: int, stride: int)
    requires fmap != eclass && 0 <= i && i + stride <= hi < fmap.Length && 1 <= stride
    requires Indexed(fmap[..], eclass[..])
    modifies fmap
    ensures fmap[..] == old(Sift(fmap[..], eclass[..], i, stride, hi))
  {
    ghost var e := eclass[..];
    var tmp := fmap[i];
    var ecTmp := eclass[tmp];
    var j := i + stride;
    assert fmap[..][i := tmp] == fmap[..];
    while j <= hi && ecTmp > eclass[fmap[j]]
      invariant i + stride <= j <= hi + stride && Indexed(fmap[..], e)
      invariant Sift(fmap[..][j - stride := tmp], e, j - stride, stride, hi) == old(Sift(fmap[..], eclass[..], i, stride, hi))
      decreases hi - j
    {
      ShiftDown(fmap, j, stride, hi, tmp, e);
      j := j + stride;
    }
    ghost var m := fmap[..];
    fmap[j - stride] := tmp;
    assert fmap[..] == m[j - stride := tmp];
  }

  /** Sorted above i except that the entry at h may still be too large for the entries above it. */
  ghost predicate MovedUp(f: seq<int>, e: seq<int>, i: int, h: int, hi: int)
    requires Indexed(f, e) && 0 <= i && hi < |f|
  {
    && i <= h <= hi
    && forall a, b :: i <= a < b <= hi && a != h ==> Key(f, e, a) <= Key(f, e, b)
  }

  lemma {:induction false} MoveOn(f: seq<int>, e: seq<int>, i: int, h: int, hi: int)
    requires Indexed(f, e) && 0 <= i && hi < |f|
    requires MovedUp(f, e, i, h, hi) && h < hi && Key(f, e, h) > Key(f, e, h + 1)
    ensures Indexed(Swapped(f, h, h + 1), e) && MovedUp(Swapped(f, h, h + 1), e, i, h + 1, hi)
  {
    var g := Swapped(f, h, h + 1);
    forall a | i <= a <= hi
      ensures Key(g, e, a) == Key(f, e, if a == h then h + 1 else if a == h + 1 then h else a)
    {
    }
  }

  lemma {:induction false} Settled(f: seq<int>, e: seq<int>, i: int, h: int, hi: int)
    requires Indexed(f, e) && 0 <= i && hi < |f|
    requires MovedUp(f, e, i, h, hi) && (h < hi ==> Key(f, e, h) <= Key(f, e, h + 1))
    ensures SortedOn(f, e, i, hi)
  {
  }

  /** The insertion sort with a first pass of stride 4. */
  method SimpleSort(fmap: array<int>, eclass: array<int>, lo: int, hi: int)
    requires fmap != eclass && 0 <= lo && hi < fmap.Length
    requires Indexed(fmap[..], eclass[..])
    modifies fmap
    ensures Rearranged(old(fmap[..]), fmap[..], lo, hi) && Indexed(fmap[..], eclass[..])
    ensures SortedOn(fmap[..], eclass[..], lo, hi)
  {
    if lo == hi {
      return;
    }
    ghost var e := eclass[..];
    var i;
    if hi - lo > 3 {
      i := hi - 4;
      while i >= lo
        invariant lo - 1 <= i <= hi - 4
        invariant Rearranged(old(fmap[..]), fmap[..], lo, hi) && Indexed(fmap[..], e)
      {
        SiftRearranges(fmap[..], e, i, 4, lo, hi);
        Insert(fmap, eclass, hi, i, 4);
        i := i - 1;
      }
    }
    i := hi - 1;
    while i >= lo
      invariant i <= hi - 1 && (lo < hi ==> lo - 1 <= i)
      invariant Rearranged(old(fmap[..]), fmap[..], lo, hi) && Indexed(fmap[..], e)
      invariant SortedOn(fmap[..], e, if i + 1 < lo then lo else i + 1, hi)
    {
      SiftRearranges(fmap[..], e, i, 1, lo, hi);
      SiftSorts(fmap[..], e, i, i, hi);
      Insert(fmap, eclass, hi, i, 1);
      i := i - 1;
    }
  }

  method SwapAt(fmap: array<int>, i: int, j: int)
    requires 0 <= i < fmap.Length && 0 <= j < fmap.Length
    modifies fmap
    ensures fmap[..] == old(Swapped(fmap[..], i, j))
  {
    var tmp := fmap[i];
    fmap[i] := fmap[j];
    fmap[j] := tmp;
  }

  /** n swaps of neighbouring pairs: the blocks of length n at p1 and p2 change places. */
  ghost function BlockSwapped(f: seq<int>, p1: int, p2: int, n: int): (g: seq<int>)
    requires 0 <= p1 && 0 <= p2 && (n > 0 ==> p1 + n <= |f| && p2 + n <= |f|)
    ensures |g| == |f|
    decreases n
  {
    if n <= 0 then f else BlockSwapped(Swapped(f, p1, p2), p1 + 1, p2 + 1, n - 1)
  }

  lemma {:induction false} BlockSwapRearranges(f: seq<int>, e: seq<int>, p1: int, p2: int, n: int, lo: int, hi: int)
    requires 0 <= lo <= p1 && lo <= p2 && hi < |f| && (n > 0 ==> p1 + n - 1 <= hi && p2 + n - 1 <= hi)
    requires Indexed(f, e)
    ensures Rearranged(f, BlockSwapped(f, p1, p2, n), lo, hi)
    ensures Indexed(BlockSwapped(f, p1, p2, n), e)
    decreases n
  {
    if n > 0 {
      SwapRearranges(f, f, e, p1, p2, lo, hi);
      BlockSwapRearranges(Swapped(f, p1, p2), e, p1 + 1, p2 + 1, n - 1, lo, hi);
    }
  }

  lemma {:induction false} BlockSwapAt(f: seq<int>, p1: int, p2: int, n: int, k: int)
    requires 0 <= p1 && 0 <= n && p1 + n <= p2 && p2 + n <= |f|
    requires 0 <= k < |f|
    ensures BlockSwapped(f, p1, p2, n)[k]
         == if p1 <= k < p1 + n then f[p2 + (k - p1)] else if p2 <= k < p2 + n then f[p1 + (k - p2)] else f[k]
    decreases n
  {
    if n > 0 {
      BlockSwapAt(Swapped(f, p1, p2), p1 + 1, p2 + 1, n - 1, k);
    }
  }

  method VSwap(fmap: array<int>, p1: int, p2: int, n: int)
    requires 0 <= p1 && 0 <= p2 && (n > 0 ==> p1 + n <= fmap.Length && p2 + n <= fmap.Length)
    modifies fmap
    ensures fmap[..] == old(BlockSwapped(fmap[..], p1, p2, n))
  {
    var yyp1, yyp2, yyn := p1, p2, n;
    while yyn > 0
      invariant 0 <= yyp1 && 0 <= yyp2
      invariant yyn > 0 ==> yyp1 + yyn <= fmap.Length && yyp2 + yyn <= fmap.Length
      invariant BlockSwapped(fmap[..], yyp1, yyp2, yyn) == old(BlockSwapped(fmap[..], p1, p2, n))
    {
      SwapAt(fmap, yyp1, yyp2);
      yyp1, yyp2, yyn := yyp1 + 1, yyp2 + 1, yyn - 1;
    }
  }

  /** Bounds of a partition in progress: equal, smaller, unseen, larger, equal. */
  datatype Cuts = Cuts(lo: int, ltLo: int, unLo: int, unHi: int, gtHi: int, hi: int)

  ghost predicate Split(f: seq<int>, e: seq<int>, med: int, c: Cuts) {
    && Indexed(f, e)
    && 0 <= c.lo <= c.ltLo <= c.unLo <= c.unHi + 1 && c.unHi <= c.gtHi <= c.hi < |f|
    && (forall k :: c.lo <= k < c.ltLo ==> Key(f, e, k) == med)
    && (forall k :: c.ltLo <= k < c.unLo ==> Key(f, e, k) < med)
    && (forall k :: c.unHi < k <= c.gtHi ==> Key(f, e, k) > med)
    && (forall k :: c.gtHi < k <= c.hi ==> Key(f, e, k) == med)
  }

  lemma {:induction false} SwapKeys(f: seq<int>, e: seq<int>, i: int, j: int)
    requires Indexed(f, e) && 0 <= i < |f| && 0 <= j < |f|
    ensures Indexed(Swapped(f, i, j), e)
    ensures forall k :: 0 <= k < |f| ==> Key(Swapped(f, i, j), e, k) == Key(f, e, if k == i then j else if k == j then i else k)
  {
  }

  lemma {:induction false} EqualLow(f: seq<int>, e: seq<int>, med: int, c: Cuts)
    requires Split(f, e, med, c) && c.unLo <= c.unHi && Key(f, e, c.unLo) == med
    ensures Split(Swapped(f, c.unLo, c.ltLo), e, med, c.(ltLo := c.ltLo + 1, unLo := c.unLo + 1))
  {
    SwapKeys(f, e, c.unLo, c.ltLo);
  }

  lemma {:induction false} EqualHigh(f: seq<int>, e: seq<int>, med: int, c: Cuts)
    requires Split(f, e, med, c) && c.unLo <= c.unHi && Key(f, e, c.unHi) == med
    ensures Split(Swapped(f, c.unHi, c.gtHi), e, med, c.(gtHi := c.gtHi - 1, unHi := c.unHi - 1))
  {
    SwapKeys(f, e, c.unHi, c.gtHi);
  }

  lemma {:induction false} Exchange(f: seq<int>, e: seq<int>, med: int, c: Cuts)
    requires Split(f, e, med, c) && c.unLo < c.unHi && Key(f, e, c.unLo) > med && Key(f, e, c.unHi) < med
    ensures Split(Swapped(f, c.unLo, c.unHi), e, med, c.(unLo := c.unLo + 1, unHi := c.unHi - 1))
  {
    SwapKeys(f, e, c.unLo, c.unHi);
  }

  method SwapWithin(fmap: array<int>, i: int, j: int, ghost f0: seq<int>, ghost e: seq<int>, ghost lo: int, ghost hi: int)
    requires 0 <= lo <= i <= hi < fmap.Length && lo <= j <= hi
    requires Rearranged(f0, fmap[..], lo, hi) && Indexed(fmap[..], e)
    modifies fmap
    ensures fmap[..] == old(Swapped(fmap[..], i, j)) && Rearranged(f0, fmap[..], lo, hi)
    ensures forall k :: 0 <= k < fmap.Length && k != i && k != j ==> fmap[k] == old(fmap[k])
  {
    SwapRearranges(f0, fmap[..], e, i, j, lo, hi);
    SwapAt(fmap, i, j);
  }

  /** The scan that finds an entry larger than med from below, gathering equal ones at the low end. */
  method ScanLow(fmap: array<int>, eclass: array<int>, med: int, c0: Cuts) returns (c: Cuts)
    requires fmap != eclass && Split(fmap[..], eclass[..], med, c0)
    modifies fmap
    ensures Split(fmap[..], eclass[..], med, c)
    ensures Rearranged(old(fmap[..]), fmap[..], c.lo, c.hi)
    ensures c == c0.(ltLo := c.ltLo, unLo := c.unLo) && c0.unLo <= c.unLo
    ensures c.unLo <= c.unHi ==> Key(fmap[..], eclass[..], c.unLo) > med
  {
    ghost var e := eclass[..];
    c := c0;
    while c.unLo <= c.unHi
      invariant Split(fmap[..], e, med, c)
      invariant Rearranged(old(fmap[..]), fmap[..], c.lo, c.hi)
      invariant c == c0.(ltLo := c.ltLo, unLo := c.unLo) && c0.unLo <= c.unLo
      decreases c.unHi - c.unLo
    {
      var n := eclass[fmap[c.unLo]] - med;
      if n == 0 {
        EqualLow(fmap[..], e, med, c);
        SwapWithin(fmap, c.unLo, c.ltLo, old(fmap[..]), e, c.lo, c.hi);
        c := c.(ltLo := c.ltLo + 1, unLo := c.unLo + 1);
      } else if n > 0 {
        break;
      } else {
        c := c.(unLo := c.unLo + 1);
      }
    }
  }

  /** An entry equal to med goes to the high end. */
  method TakeEqualHigh(fmap: array<int>, eclass: array<int>, ghost med: int, c0: Cuts, ghost f0: seq<int>) returns (c: Cuts)
    requires fmap != eclass && Split(fmap[..], eclass[..], med, c0) && c0.unLo <= c0.unHi && Key(fmap[..], eclass[..], c0.unHi) == med
    requires Rearranged(f0, fmap[..], c0.lo, c0.hi)
    modifies fmap
    ensures c == c0.(gtHi := c0.gtHi - 1, unHi := c0.unHi - 1) && Split(fmap[..], eclass[..], med, c)
    ensures Rearranged(f0, fmap[..], c.lo, c.hi)
    ensures c.unLo <= c.unHi ==> fmap[c.unLo] == old(fmap[c.unLo])
  {
    EqualHigh(fmap[..], eclass[..], med, c0);
    SwapWithin(fmap, c0.unHi, c0.gtHi, f0, eclass[..], c0.lo, c0.hi);
    c := c0.(gtHi := c0.gtHi - 1, unHi := c0.unHi - 1);
  }

  method ScanHigh(fmap: array<int>, eclass: array<int>, med: int, c0: Cuts) returns (c: Cuts)
    requires fmap != eclass && Split(fmap[..], eclass[..], med, c0)
    modifies fmap
    ensures Split(fmap[..], eclass[..], med, c)
    ensures Rearranged(old(fmap[..]), fmap[..], c.lo, c.hi)
    ensures c == c0.(gtHi := c.gtHi, unHi := c.unHi) && c.unHi <= c0.unHi
    ensures c.unLo <= c.unHi ==> fmap[c.unLo] == old(fmap[c.unLo]) && Key(fmap[..], eclass[..], c.unHi) < med
  {
    ghost var e := eclass[..];
    c := c0;
    while c.unLo <= c.unHi
      invariant Split(fmap[..], e, med, c)
      invariant Rearranged(old(fmap[..]), fmap[..], c.lo, c.hi)
      invariant c == c0.(gtHi := c.gtHi, unHi := c.unHi) && c.unHi <= c0.unHi
      invariant c.unLo <= c.unHi ==> fmap[c.unLo] == old(fmap[c.unLo])
      decreases c.unHi - c.unLo
    {
      var n := eclass[fmap[c.unHi]] - med;
      if n == 0 {
        c := TakeEqualHigh(fmap, eclass, med, c, old(fmap[..]));
      } else if n < 0 {
        break;
      } else {
        c := c.(unHi := c.unHi - 1);
      }
    }
  }

  /** The two scans run towards each other until nothing is unseen. */
  method Partition(fmap: array<int>, eclass: array<int>, med: int, lo: int, hi: int) returns (c: Cuts)
    requires fmap != eclass && 0 <= lo <= hi < fmap.Length && Indexed(fmap[..], eclass[..])
    modifies fmap
    ensures Split(fmap[..], eclass[..], med, c) && c.lo == lo && c.hi == hi
    ensures c.unHi == c.unLo - 1
    ensures Rearranged(old(fmap[..]), fmap[..], lo, hi)
  {
    ghost var e := eclass[..];
    c := Cuts(lo, lo, lo, hi, hi, hi);
    while true
      invariant Split(fmap[..], e, med, c) && c.lo == lo && c.hi == hi
      invariant Rearranged(old(fmap[..]), fmap[..], lo, hi)
      decreases c.unHi - c.unLo + 1
    {
      c := ScanLow(fmap, eclass, med, c);
      c := ScanHigh(fmap, eclass, med, c);
      if c.unLo > c.unHi {
        break;
      }
      Exchange(fmap[..], e, med, c);
      SwapWithin(fmap, c.unLo, c.unHi, old(fmap[..]), e, lo, hi);
      c := c.(unLo := c.unLo + 1, unHi := c.unHi - 1);
    }
  }

  /** The three parts a partition ends in: smaller, equal, larger. */
  ghost predicate ThreeWay(f: seq<int>, e: seq<int>, med: int, lo: int, n: int, m: int, hi: int) {
    && Indexed(f, e)
    && 0 <= lo <= n + 1 && n < m <= hi + 1 && hi < |f|
    && (forall k :: lo <= k <= n ==> Key(f, e, k) < med)
    && (forall k :: n < k < m ==> Key(f, e, k) == med)
    && (forall k :: m <= k <= hi ==> Key(f, e, k) > med)
  }

  function Min(a: int, b: int): int {
    if a < b then a else b
  }

  /** Swapping the shorter of two neighbouring runs a..b and b..d with the far end of the other. */
  ghost function RunsSwapped(f: seq<int>, a: int, b: int, d: int): (g: seq<int>)
    requires 0 <= a <= b <= d <= |f|
    ensures |g| == |f|
  {
    var n := Min(b - a, d - b);
    BlockSwapped(f, a, d - n, n)
  }

  /** After the swap the runs have changed sides: where the entry at k came from. */
  ghost function RunSource(a: int, b: int, d: int, k: int): (s: int)
    requires a <= b <= d && a <= k < d
    ensures if k < a + (d - b) then b <= s < d else a <= s < b
  {
    var n := Min(b - a, d - b);
    if k < a + n then d - n + (k - a) else if d - n <= k then a + (k - (d - n)) else k
  }

  lemma {:induction false} RunsSwappedAt(f: seq<int>, e: seq<int>, a: int, b: int, d: int, lo: int, hi: int)
    requires 0 <= lo <= a <= b <= d <= hi + 1 <= |f| && Indexed(f, e)
    ensures Rearranged(f, RunsSwapped(f, a, b, d), lo, hi) && Indexed(RunsSwapped(f, a, b, d), e)
    ensures forall k :: a <= k < d ==> Key(RunsSwapped(f, a, b, d), e, k) == Key(f, e, RunSource(a, b, d, k))
    ensures forall k :: 0 <= k < |f| && !(a <= k < d) ==> Key(RunsSwapped(f, a, b, d), e, k) == Key(f, e, k)
  {
    var n := Min(b - a, d - b);
    BlockSwapRearranges(f, e, a, d - n, n, lo, hi);
    forall k | 0 <= k < |f|
      ensures RunsSwapped(f, a, b, d)[k] == f[if a <= k < d then RunSource(a, b, d, k) else k]
    {
      BlockSwapAt(f, a, d - n, n, k);
    }
  }

  /** The smaller entries up to n, the equal ones up to u, the larger ones up to v, then equal ones again. */
  ghost predicate LowJoined(f: seq<int>, e: seq<int>, med: int, lo: int, n: int, u: int, v: int, hi: int) {
    && Indexed(f, e)
    && 0 <= lo <= n + 1 <= u <= v + 1 && v <= hi < |f|
    && (forall k :: lo <= k <= n ==> Key(f, e, k) < med)
    && (forall k :: n < k < u ==> Key(f, e, k) == med)
    && (forall k :: u <= k <= v ==> Key(f, e, k) > med)
    && (forall k :: v < k <= hi ==> Key(f, e, k) == med)
  }

  /** First the low equal run changes sides with the smaller entries. */
  lemma {:induction false} JoinLow(f: seq<int>, e: seq<int>, med: int, c: Cuts)
    requires Split(f, e, med, c) && c.unHi == c.unLo - 1
    ensures var g := RunsSwapped(f, c.lo, c.ltLo, c.unLo);
      && Rearranged(f, g, c.lo, c.hi)
      && LowJoined(g, e, med, c.lo, c.lo + c.unLo - c.ltLo - 1, c.unLo, c.gtHi, c.hi)
  {
    RunsSwappedAt(f, e, c.lo, c.ltLo, c.unLo, c.lo, c.hi);
  }

  /** Then the high equal run changes sides with the larger entries. */
  lemma {:induction false} JoinHigh(g: seq<int>, e: seq<int>, med: int, lo: int, n: int, u: int, v: int, hi: int)
    requires LowJoined(g, e, med, lo, n, u, v, hi)
    ensures var h := RunsSwapped(g, u, v + 1, hi + 1);
      Rearranged(g, h, lo, hi) && ThreeWay(h, e, med, lo, n, hi - (v - u), hi)
  {
    RunsSwappedAt(g, e, u, v + 1, hi + 1, lo, hi);
  }

  lemma {:induction false} JoinRuns(f: seq<int>, e: seq<int>, med: int, c: Cuts)
    requires Split(f, e, med, c) && c.unHi == c.unLo - 1
    ensures var g := RunsSwapped(f, c.lo, c.ltLo, c.unLo);
      var h := RunsSwapped(g, c.unLo, c.gtHi + 1, c.hi + 1);
      && Rearranged(f, h, c.lo, c.hi)
      && ThreeWay(h, e, med, c.lo, c.lo + c.unLo - c.ltLo - 1, c.hi - (c.gtHi - c.unHi) + 1, c.hi)
  {
    var g := RunsSwapped(f, c.lo, c.ltLo, c.unLo);
    JoinLow(f, e, med, c);
    JoinHigh(g, e, med, c.lo, c.lo + c.unLo - c.ltLo - 1, c.unLo, c.gtHi, c.hi);
    RearrangedTrans(f, g, RunsSwapped(g, c.unLo, c.gtHi + 1, c.hi + 1), c.lo, c.hi);
  }

  /** Only as many pairs as the shorter run has change places. */
  method SwapRuns(fmap: array<int>, a: int, b: int, d: int)
    requires 0 <= a <= b <= d <= fmap.Length
    modifies fmap
    ensures fmap[..] == old(RunsSwapped(fmap[..], a, b, d))
  {
    var n := Min(b - a, d - b);
    VSwap(fmap, a, d - n, n);
  }

  /** Swaps the two runs of equal entries into the middle. */
  method JoinEqual(fmap: array<int>, eclass: array<int>, ghost med: int, c: Cuts) returns (n: int, m: int)
    requires fmap != eclass && Split(fmap[..], eclass[..], med, c) && c.unHi == c.unLo - 1
    modifies fmap
    ensures Rearranged(old(fmap[..]), fmap[..], c.lo, c.hi)
    ensures ThreeWay(fmap[..], eclass[..], med, c.lo, n, m, c.hi)
    ensures m - n - 1 == (c.ltLo - c.lo) + (c.hi - c.gtHi)
  {
    JoinRuns(fmap[..], eclass[..], med, c);
    SwapRuns(fmap, c.lo, c.ltLo, c.unLo);
    SwapRuns(fmap, c.unLo, c.gtHi + 1, c.hi + 1);
    n := c.lo + c.unLo - c.ltLo - 1;
    m := c.hi - (c.gtHi - c.unHi) + 1;
  }

  /** The stack index of the pending range that holds position a, or -1 if a is in its final place. */
  ghost function Owner(stk: seq<(int, int)>, a: int): (t: int)
    ensures -1 <= t < |stk|
    decreases |stk|
  {
    if stk == [] then -1
    else if stk[|stk| - 1].0 <= a <= stk[|stk| - 1].1 then |stk| - 1
    else Owner(stk[..|stk| - 1], a)
  }

  /** Pending ranges lie in lo..hi and do not overlap. */
  ghost predicate Pending(stk: seq<(int, int)>, lo: int, hi: int)
    decreases |stk|
  {
    stk == [] ||
    (var rest, top := stk[..|stk| - 1], stk[|stk| - 1];
     && Pending(rest, lo, hi)
     && lo <= top.0 <= top.1 + 1 && top.1 <= hi
     && (forall a :: top.0 <= a <= top.1 ==> Owner(rest, a) == -1))
  }

  /** Only positions in one pending range may still be out of order. */
  ghost predicate OrderedButPending(f: seq<int>, e: seq<int>, lo: int, hi: int, stk: seq<(int, int)>)
    requires Indexed(f, e) && 0 <= lo && hi < |f|
  {
    forall a, b :: lo <= a < b <= hi && (Owner(stk, a) == -1 || Owner(stk, a) != Owner(stk, b))
      ==> Key(f, e, a) <= Key(f, e, b)
  }

  /** What rearranging a popped range must leave so that the rest keeps its order. */
  ghost predicate Sorted2(f: seq<int>, e: seq<int>, lo: int, n: int, m: int, hi: int)
    requires Indexed(f, e) && 0 <= lo && hi < |f|
  {
    && lo <= n + 1 && n < m <= hi + 1
    && forall a, b :: lo <= a < b <= hi && !(b <= n) && !(a >= m) ==> Key(f, e, a) <= Key(f, e, b)
  }

  lemma {:induction false} PopOwner(rest: seq<(int, int)>, top: (int, int), a: int)
    ensures Owner(rest + [top], a) == if top.0 <= a <= top.1 then |rest| else Owner(rest, a)
  {
    assert (rest + [top])[..|rest|] == rest;
  }

  /** Order between an entry of the popped range and one outside it survives the rearranging. */
  lemma {:induction false} KeepsOrderAcross(f: seq<int>, g: seq<int>, e: seq<int>, lo: int, hi: int, rest: seq<(int, int)>, top: (int, int),
                         a: int, b: int)
    requires Indexed(f, e) && Indexed(g, e) && 0 <= lo && hi < |f|
    requires Pending(rest + [top], lo, hi)
    requires OrderedButPending(f, e, lo, hi, rest + [top])
    requires Rearranged(f, g, top.0, top.1)
    requires lo <= a < b <= hi && !(top.0 <= a && b <= top.1)
    requires Owner(rest, a) == -1 || Owner(rest, a) != Owner(rest, b)
    ensures Key(g, e, a) <= Key(g, e, b)
  {
    assert (rest + [top])[..|rest|] == rest;
    var x, y := a, b;
    if top.0 <= a <= top.1 {
      x := RearrangedSource(f, g, top.0, top.1, a);
    }
    if top.0 <= b <= top.1 {
      y := RearrangedSource(f, g, top.0, top.1, b);
    }
    PopOwner(rest, top, x);
    PopOwner(rest, top, y);
    assert Key(f, e, x) <= Key(f, e, y);
  }

  lemma {:induction false} PushBoth(f: seq<int>, g: seq<int>, e: seq<int>, lo: int, hi: int, rest: seq<(int, int)>, top: (int, int),
                 p: (int, int), q: (int, int))
    requires Indexed(f, e) && Indexed(g, e) && 0 <= lo && hi < |f|
    requires Pending(rest + [top], lo, hi)
    requires OrderedButPending(f, e, lo, hi, rest + [top])
    requires Rearranged(f, g, top.0, top.1)
    requires || (Sorted2(g, e, top.0, p.1, q.0, top.1) && p.0 == top.0 && q.1 == top.1)
             || (Sorted2(g, e, top.0, q.1, p.0, top.1) && q.0 == top.0 && p.1 == top.1)
    ensures Pending(rest + [p] + [q], lo, hi)
    ensures OrderedButPending(g, e, lo, hi, rest + [p] + [q])
  {
    assert (rest + [top])[..|rest|] == rest;
    assert (rest + [p])[..|rest|] == rest;
    assert (rest + [p] + [q])[..|rest| + 1] == rest + [p];
    forall a | q.0 <= a <= q.1
      ensures Owner(rest + [p], a) == -1
    {
      PopOwner(rest, p, a);
    }
    forall a, b | lo <= a < b <= hi
      && (Owner(rest + [p] + [q], a) == -1 || Owner(rest + [p] + [q], a) != Owner(rest + [p] + [q], b))
      ensures Key(g, e, a) <= Key(g, e, b)
    {
      PopOwner(rest, p, a);
      PopOwner(rest, p, b);
      PopOwner(rest + [p], q, a);
      PopOwner(rest + [p], q, b);
      if !(top.0 <= a && b <= top.1) {
        KeepsOrderAcross(f, g, e, lo, hi, rest, top, a, b);
      }
    }
  }

  lemma {:induction false} PopSorted(f: seq<int>, g: seq<int>, e: seq<int>, lo: int, hi: int, rest: seq<(int, int)>, top: (int, int))
    requires Indexed(f, e) && Indexed(g, e) && 0 <= lo && hi < |f|
    requires Pending(rest + [top], lo, hi)
    requires OrderedButPending(f, e, lo, hi, rest + [top])
    requires Rearranged(f, g, top.0, top.1)
    requires 0 <= top.0 && top.1 < |g| && SortedOn(g, e, top.0, top.1)
    ensures Pending(rest, lo, hi)
    ensures OrderedButPending(g, e, lo, hi, rest)
  {
    assert (rest + [top])[..|rest|] == rest;
    forall a, b | lo <= a < b <= hi && (Owner(rest, a) == -1 || Owner(rest, a) != Owner(rest, b))
      ensures Key(g, e, a) <= Key(g, e, b)
    {
      if !(top.0 <= a && b <= top.1) {
        KeepsOrderAcross(f, g, e, lo, hi, rest, top, a, b);
      }
    }
  }

  /** The range at depth t is at most total / 2^t long. */
  ghost predicate Halving(stk: seq<(int, int)>, total: int)
    decreases |stk|
  {
    stk == [] ||
    (var rest, top := stk[..|stk| - 1], stk[|stk| - 1];
     && Halving(rest, total)
     && (top.1 - top.0 + 1) * Pow2(|rest|) <= total
     && (|rest| >= 1 ==> 11 * Pow2(|rest| - 1) <= total))
  }

  ghost predicate Halved(stk: seq<(int, int)>, total: int) {
    forall u {:trigger Look(u)} :: Look(u) ==> Halving(stk, total)
  }

  lemma {:induction false} HalvedPop(rest: seq<(int, int)>, top: (int, int), total: int)
    requires Halved(rest + [top], total)
    ensures Halved(rest, total)
  {
    assert Look(0);
    HalvingTop(rest, top, total);
  }

  lemma {:induction false} HalvedPush(rest: seq<(int, int)>, top: (int, int), p: (int, int), q: (int, int), total: int)
    requires Halved(rest + [top], total)
    requires top.1 - top.0 >= SMALL_THRESH
    requires 0 <= q.1 - q.0 + 1 <= p.1 - p.0 + 1
    requires (p.1 - p.0 + 1) + (q.1 - q.0 + 1) <= top.1 - top.0 + 1
    ensures Halved(rest + [p] + [q], total)
  {
    assert Look(0);
    HalvingPush(rest, top, p, q, total);
  }

  lemma {:induction false} HalvingTop(rest: seq<(int, int)>, top: (int, int), total: int)
    ensures Halving(rest + [top], total) <==>
      && Halving(rest, total)
      && (top.1 - top.0 + 1) * Pow2(|rest|) <= total
      && (|rest| >= 1 ==> 11 * Pow2(|rest| - 1) <= total)
  {
    assert (rest + [top])[..|rest|] == rest;
  }

  lemma {:induction false} HalvingPush(rest: seq<(int, int)>, top: (int, int), p: (int, int), q: (int, int), total: int)
    requires Halving(rest + [top], total)
    requires top.1 - top.0 >= SMALL_THRESH
    requires 0 <= q.1 - q.0 + 1 <= p.1 - p.0 + 1
    requires (p.1 - p.0 + 1) + (q.1 - q.0 + 1) <= top.1 - top.0 + 1
    ensures Halving(rest + [p] + [q], total)
  {
    HalvingTop(rest, top, total);
    HalveSize(top.1 - top.0 + 1, p.1 - p.0 + 1, q.1 - q.0 + 1, Pow2(|rest|), total);
    HalvingTop(rest, p, total);
    HalvingTop(rest + [p], q, total);
  }

  lemma {:induction false} HalveSize(size: int, a: int, b: int, scale: nat, total: int)
    requires size * scale <= total
    requires 0 <= b <= a && a + b <= size && 11 <= size
    ensures a * scale <= total && b * (2 * scale) <= total && 11 * scale <= total
  {
    MulMono(a, size, scale);
    MulMono(b + b, size, scale);
    MulMono(11, size, scale);
  }

  /** A stack of a hundred entries is never full: assertion 1004 cannot fire. */
  lemma {:induction false} StackDepth(stk: seq<(int, int)>, total: int)
    requires Halved(stk, total) && total <= 0x8000_0000
    ensures |stk| < 31
  {
    assert Look(0);
    if |stk| >= 31 {
      Pow2Mono(29, |stk| - 2);
      Pow2Of29();
    }
  }

  lemma {:induction false} Pow2Of29()
    ensures Pow2(29) == 0x2000_0000
  {
    assert Pow2(10) == 1024;
    Pow2Add(10, 10);
    Pow2Add(20, 9);
  }

  /** Work left: every pass takes a range off or replaces it by two that are shorter together. */
  ghost function Work(stk: seq<(int, int)>): nat {
    if stk == [] then 0
    else
      var top := stk[|stk| - 1];
      Work(stk[..|stk| - 1]) + if top.1 - top.0 + 1 > 0 then 2 * (top.1 - top.0 + 1) + 1 else 1
  }

  lemma {:induction false} WorkPush(rest: seq<(int, int)>, top: (int, int))
    ensures Work(rest + [top]) == Work(rest) + if top.1 - top.0 + 1 > 0 then 2 * (top.1 - top.0 + 1) + 1 else 1
  {
    assert (rest + [top])[..|rest|] == rest;
  }

  /** One pass over a long range: choose a pivot, partition, and report the two ranges left to sort. */
  method SplitRange(fmap: array<int>, eclass: array<int>, lo: int, hi: int, r: int) returns (done: bool, n: int, m: int)
    requires fmap != eclass && 0 <= lo <= hi < fmap.Length && Indexed(fmap[..], eclass[..])
    modifies fmap
    ensures Rearranged(old(fmap[..]), fmap[..], lo, hi) && Indexed(fmap[..], eclass[..])
    ensures done ==> SortedOn(fmap[..], eclass[..], lo, hi)
    ensures !done ==> Sorted2(fmap[..], eclass[..], lo, n, m, hi) && n + 1 < m
  {
    var r3 := r % 3;
    var pivot := if r3 == 0 then lo else if r3 == 1 then (lo + hi) / 2 else hi;
    var med := eclass[fmap[pivot]];
    var c := Partition(fmap, eclass, med, lo, hi);
    PivotStays(old(fmap[..]), fmap[..], eclass[..], pivot, c);
    if c.gtHi < c.ltLo {
      return true, 0, 0;
    }
    n, m := JoinEqual(fmap, eclass, med, c);
    done := false;
  }

  /** The pivot is among the equal entries, so a pass always makes progress. */
  lemma {:induction false} PivotStays(f: seq<int>, g: seq<int>, e: seq<int>, pivot: int, c: Cuts)
    requires Rearranged(f, g, c.lo, c.hi) && Indexed(f, e)
    requires c.lo <= pivot <= c.hi
    requires 0 <= c.lo && c.hi < |f|
    requires Split(g, e, Key(f, e, pivot), c) && c.unHi == c.unLo - 1
    ensures c.lo < c.ltLo || c.gtHi < c.hi
  {
    BagSymmetric(f, g, c.lo, c.hi);
    var x := RearrangedSource(g, f, c.lo, c.hi, pivot);
    assert Key(g, e, x) == Key(f, e, pivot);
  }

  lemma {:induction false} BagSymmetric(f: seq<int>, g: seq<int>, lo: int, hi: int)
    requires Rearranged(f, g, lo, hi)
    ensures Rearranged(g, f, lo, hi)
  {
  }

  /** The explicit stack of ranges, two arrays of fixed size; the client must show that it has room. */
  class RangeStack {
    const stackLo: array<int>
    const stackHi: array<int>
    var sp: int

    ghost predicate Valid()
      reads this, stackLo, stackHi
    {
      stackLo != stackHi && stackLo.Length == STACK_SIZE == stackHi.Length && 0 <= sp <= STACK_SIZE
    }

    ghost function Contents(): (stk: seq<(int, int)>)
      requires Valid()
      reads this, stackLo, stackHi
      ensures |stk| == sp
    {
      seq(sp, t requires 0 <= t < sp && Valid() reads this, stackLo, stackHi => (stackLo[t], stackHi[t]))
    }

    constructor ()
      ensures Valid() && Contents() == []
      ensures fresh(stackLo) && fresh(stackHi)
    {
      stackLo := new int[STACK_SIZE];
      stackHi := new int[STACK_SIZE];
      sp := 0;
    }

    method Push(lo: int, hi: int)
      requires Valid() && |Contents()| < STACK_SIZE
      modifies this, stackLo, stackHi
      ensures Valid() && Contents() == old(Contents()) + [(lo, hi)]
    {
      stackLo[sp] := lo;
      stackHi[sp] := hi;
      sp := sp + 1;
    }

    method Pop() returns (lo: int, hi: int)
      requires Valid() && |Contents()| > 0
      modifies this
      ensures Valid() && old(Contents()) == Contents() + [(lo, hi)]
    {
      sp := sp - 1;
      lo := stackLo[sp];
      hi := stackHi[sp];
    }
  }

  /** The invariant of the sort between passes. */
  ghost predicate Sorting(f0: seq<int>, f: seq<int>, e: seq<int>, lo: int, hi: int, stk: seq<(int, int)>) {
    && 0 <= lo <= hi < |f| <= 0x7fff_ffff
    && Rearranged(f0, f, lo, hi)
    && Indexed(f, e)
    && Pending(stk, lo, hi)
    && OrderedButPending(f, e, lo, hi, stk)
    && Halved(stk, hi - lo + 1)
  }

  lemma {:induction false} AfterPop(lo: int, hi: int, rest: seq<(int, int)>, top: (int, int))
    requires Pending(rest + [top], lo, hi) && Halved(rest + [top], hi - lo + 1) && hi - lo < 0x8000_0000
    ensures lo <= top.0 <= top.1 + 1 <= hi + 1
    ensures |rest| < 30
    ensures Work(rest) < Work(rest + [top])
  {
    PendingTop(rest, top, lo, hi);
    StackDepth(rest + [top], hi - lo + 1);
    WorkPush(rest, top);
  }

  lemma {:induction false} PendingTop(rest: seq<(int, int)>, top: (int, int), lo: int, hi: int)
    requires Pending(rest + [top], lo, hi)
    ensures lo <= top.0 <= top.1 + 1 <= hi + 1
  {
    assert (rest + [top])[|rest|] == top && (rest + [top])[..|rest|] == rest;
  }

  lemma {:induction false} AfterSort(f0: seq<int>, f: seq<int>, g: seq<int>, e: seq<int>, lo: int, hi: int, rest: seq<(int, int)>, top: (int, int))
    requires Sorting(f0, f, e, lo, hi, rest + [top])
    requires Rearranged(f, g, top.0, top.1) && Indexed(g, e)
    requires 0 <= top.0 && top.1 < |g| && SortedOn(g, e, top.0, top.1)
    ensures Sorting(f0, g, e, lo, hi, rest)
  {
    AfterPop(lo, hi, rest, top);
    Widen(f, g, top.0, top.1, lo, hi);
    RearrangedTrans(f0, f, g, lo, hi);
    HalvedPop(rest, top, hi - lo + 1);
    PopSorted(f, g, e, lo, hi, rest, top);
  }

  lemma {:induction false} WorkSplit(rest: seq<(int, int)>, top: (int, int), p: (int, int), q: (int, int))
    requires -1 <= p.1 - p.0 && -1 <= q.1 - q.0
    requires (p.1 - p.0 + 1) + (q.1 - q.0 + 1) < top.1 - top.0 + 1
    ensures Work(rest + [p] + [q]) < Work(rest + [top])
  {
    WorkPush(rest, top);
    WorkPush(rest, p);
    WorkPush(rest + [p], q);
  }

  lemma {:induction false} AfterSplit(f0: seq<int>, f: seq<int>, g: seq<int>, e: seq<int>, lo: int, hi: int, rest: seq<(int, int)>, top: (int, int),
                   p: (int, int), q: (int, int))
    requires Sorting(f0, f, e, lo, hi, rest + [top])
    requires Rearranged(f, g, top.0, top.1) && Indexed(g, e) && 0 <= top.0 && top.1 < |g|
    requires || (Sorted2(g, e, top.0, p.1, q.0, top.1) && p.0 == top.0 && q.1 == top.1)
             || (Sorted2(g, e, top.0, q.1, p.0, top.1) && q.0 == top.0 && p.1 == top.1)
    requires top.1 - top.0 >= SMALL_THRESH
    requires q.1 - q.0 <= p.1 - p.0
    requires (p.1 - p.0 + 1) + (q.1 - q.0 + 1) < top.1 - top.0 + 1
    ensures Sorting(f0, g, e, lo, hi, rest + [p] + [q])
    ensures Work(rest + [p] + [q]) < Work(rest + [top])
  {
    AfterPop(lo, hi, rest, top);
    Widen(f, g, top.0, top.1, lo, hi);
    RearrangedTrans(f0, f, g, lo, hi);
    HalvedPush(rest, top, p, q, hi - lo + 1);
    PushBoth(f, g, e, lo, hi, rest, top, p, q);
    WorkSplit(rest, top, p, q);
  }

  /** Sorts a popped range if it is short, else splits it into two; the longer of them is p. */
  method Handle(fmap: array<int>, eclass: array<int>, lo: int, hi: int, r: int,
                ghost f0: seq<int>, ghost loSt: int, ghost hiSt: int, ghost rest: seq<(int, int)>)
    returns (r': int, more: bool, p: (int, int), q: (int, int))
    requires fmap != eclass
    requires Sorting(f0, fmap[..], eclass[..], loSt, hiSt, rest + [(lo, hi)])
    modifies fmap
    ensures var stk := if more then rest + [p] + [q] else rest;
      Sorting(f0, fmap[..], eclass[..], loSt, hiSt, stk) && Work(stk) < Work(rest + [(lo, hi)])
  {
    ghost var e, f := eclass[..], fmap[..];
    r', more, p, q := r, false, (0, 0), (0, 0);
    AfterPop(loSt, hiSt, rest, (lo, hi));
    if hi - lo < SMALL_THRESH {
      SimpleSort(fmap, eclass, lo, hi);
      AfterSort(f0, f, fmap[..], e, loSt, hiSt, rest, (lo, hi));
      return;
    }
    r' := (r * 7621 + 1) % 32768;
    var done, n, m := SplitRange(fmap, eclass, lo, hi, r');
    if done {
      AfterSort(f0, f, fmap[..], e, loSt, hiSt, rest, (lo, hi));
      return;
    }
    more := true;
    p, q := (m, hi), (lo, n);
    if n - lo > hi - m {
      p, q := (lo, n), (m, hi);
    }
    AfterSplit(f0, f, fmap[..], e, loSt, hiSt, rest, (lo, hi), p, q);
  }

  /** One turn of the loop: take a range off the stack, handle it, and put back what is left of it. */
  method Turn(fmap: array<int>, eclass: array<int>, stack: RangeStack, r: int, ghost f0: seq<int>, ghost loSt: int, ghost hiSt: int)
    returns (r': int)
    requires fmap != eclass && stack.stackLo != fmap && stack.stackHi != fmap && stack.stackLo != eclass && stack.stackHi != eclass
    requires stack.Valid() && |stack.Contents()| > 0
    requires Sorting(f0, fmap[..], eclass[..], loSt, hiSt, stack.Contents())
    modifies fmap, stack, stack.stackLo, stack.stackHi
    ensures stack.Valid()
    ensures Sorting(f0, fmap[..], eclass[..], loSt, hiSt, stack.Contents())
    ensures Work(stack.Contents()) < old(Work(stack.Contents()))
  {
    var lo, hi := stack.Pop();
    ghost var rest := stack.Contents();
    AfterPop(loSt, hiSt, rest, (lo, hi));
    var more, p, q;
    r', more, p, q := Handle(fmap, eclass, lo, hi, r, f0, loSt, hiSt, rest);
    ghost var g, e := fmap[..], eclass[..];
    if more {
      stack.Push(p.0, p.1);
      stack.Push(q.0, q.1);
      assert stack.Contents() == rest + [p] + [q];
    }
    assert fmap[..] == g && eclass[..] == e;
  }

  /** Sorts fmap[loSt..hiSt] by eclass. */
  method QSort3(fmap: array<int>, eclass: array<int>, loSt: int, hiSt: int)
    requires fmap != eclass && 0 <= loSt <= hiSt < fmap.Length <= 0x7fff_ffff
    requires Indexed(fmap[..], eclass[..])
    modifies fmap
    ensures Rearranged(old(fmap[..]), fmap[..], loSt, hiSt) && Indexed(fmap[..], eclass[..])
    ensures SortedOn(fmap[..], eclass[..], loSt, hiSt)
  {
    ghost var f0 := fmap[..];
    var r := 0;
    var stack := new RangeStack();
    stack.Push(loSt, hiSt);
    SortingStarts(f0, eclass[..], loSt, hiSt);
    while stack.sp > 0
      invariant stack.Valid() && fresh(stack) && fresh(stack.stackLo) && fresh(stack.stackHi)
      invariant Sorting(f0, fmap[..], eclass[..], loSt, hiSt, stack.Contents())
      decreases Work(stack.Contents())
    {
      StackDepth(stack.Contents(), hiSt - loSt + 1);
      assert stack.sp < STACK_SIZE - 1;
      r := Turn(fmap, eclass, stack, r, f0, loSt, hiSt);
    }
    assert stack.Contents() == [];
  }

  lemma {:induction false} SortingStarts(f: seq<int>, e: seq<int>, lo: int, hi: int)
    requires Indexed(f, e) && 0 <= lo <= hi < |f| <= 0x7fff_ffff
    ensures Sorting(f, f, e, lo, hi, [] + [(lo, hi)])
  {
    var stk: seq<(int, int)> := [] + [(lo, hi)];
    assert stk[..|stk| - 1] == [] && stk[|stk| - 1] == (lo, hi);
    assert Pending([], lo, hi);
    HalvingTop([], (lo, hi), hi - lo + 1);
  }

  lemma {:induction false} Widen(f: seq<int>, g: seq<int>, lo: int, hi: int, loSt: int, hiSt: int)
    requires Rearranged(f, g, lo, hi) && loSt <= lo && hi <= hiSt
    ensures Rearranged(f, g, loSt, hiSt)
  {
  }
}
