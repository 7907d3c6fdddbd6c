/** The fallback block sorter: bucket refinement that doubles the number of sorted bytes at every pass. */
module FallbackSort {
  import opened Arith
  import opened Bytes
  import opened Counting
  import opened FallbackQSort
  import opened Permutations
  import opened Rotation

  /** The start of the bucket that position i lies in. */
  ghost function Head(bh: seq<bool>, i: int): (j: int)
    requires 0 <= i < |bh|
    ensures 0 <= j <= i
    decreases i
  {
    if bh[i] || i == 0 then i else Head(bh, i - 1)
  }

  lemma {:induction false} HeadMono(bh: seq<bool>, i: int, j: int)
    requires 0 <= i <= j < |bh|
    ensures Head(bh, i) <= Head(bh, j)
    ensures Head(bh, i) == Head(bh, j) <==> Head(bh, j) <= i
    decreases j
  {
    if i < j {
      HeadMono(bh, i, j - 1);
    }
  }

  /** Rotations are sorted by their first h bytes; those that tie are exactly those in one bucket. */
  ghost predicate SortedTo(b: seq<byte>, f: seq<int>, bh: seq<bool>, h: nat) {
    && |b| > 0
    && |f| == |b| < |bh|
    && forall i, j {:trigger Cmp(b, f[i], f[j], h)} :: 0 <= i < j < |b| ==>
         (if Head(bh, i) == Head(bh, j) then Cmp(b, f[i], f[j], h) == 0 else Cmp(b, f[i], f[j], h) < 0)
  }

  /** Position x moved back by h places, cyclically; the source's "k = fmap[i] - H; if (k < 0) k += nblock". */
  function Back(x: int, h: int, n: int): int {
    if x - h < 0 then x - h + n else x - h
  }

  /** e gives each rotation the bucket of the rotation h bytes later. */
  ghost predicate Classes(f: seq<int>, bh: seq<bool>, e: seq<int>, h: nat) {
    && |e| == |f| < |bh|
    && h <= |f|
    && Within(f, |f|)
    && forall i {:trigger f[i]} :: 0 <= i < |f| ==> e[Back(f[i], h, |f|)] == Head(bh, i)
  }

  /** Comparing classes is comparing the h bytes that start h bytes on. */
  lemma {:induction false} ClassMeaning(b: seq<byte>, f: seq<int>, bh: seq<bool>, e: seq<int>, h: nat, x: int, y: int)
    requires SortedTo(b, f, bh, h) && IsPerm(f, |b|) && Classes(f, bh, e, h)
    requires 0 <= x < |b| && 0 <= y < |b|
    ensures e[x] < e[y] <==> Cmp(b, x + h, y + h, h) < 0
    ensures e[x] == e[y] <==> Cmp(b, x + h, y + h, h) == 0
  {
    var i := ClassPlace(b, f, bh, e, h, x);
    var j := ClassPlace(b, f, bh, e, h, y);
    PlaceMeaning(b, f, bh, h, x, y, i, j);
  }

  lemma {:induction false} PlaceMeaning(b: seq<byte>, f: seq<int>, bh: seq<bool>, h: nat, x: int, y: int, i: nat, j: nat)
    requires SortedTo(b, f, bh, h)
    requires i < |b| && (f[i] == x + h || f[i] == x + h - |b|)
    requires j < |b| && (f[j] == y + h || f[j] == y + h - |b|)
    ensures Head(bh, i) < Head(bh, j) <==> Cmp(b, x + h, y + h, h) < 0
    ensures Head(bh, i) == Head(bh, j) <==> Cmp(b, x + h, y + h, h) == 0
  {
    CmpCyclic(b, x + h, f[i], y + h, f[j], h);
    PlaceOrder(b, f, bh, h, i, j);
  }

  lemma {:induction false} CmpCyclic(b: seq<byte>, x: int, x': int, y: int, y': int, h: nat)
    requires |b| > 0
    requires x' == x || x' == x - |b|
    requires y' == y || y' == y - |b|
    ensures Cmp(b, x, y, h) == Cmp(b, x', y', h)
  {
    CmpWrap(b, x', y, h);
    CmpWrap(b, x', y', h);
  }

  /** The place of the rotation h bytes after x. */
  lemma {:induction false} ClassPlace(b: seq<byte>, f: seq<int>, bh: seq<bool>, e: seq<int>, h: nat, x: int) returns (i: nat)
    requires |b| == |f| && IsPerm(f, |b|) && Classes(f, bh, e, h)
    requires 0 <= x < |b|
    ensures i < |b| && e[x] == Head(bh, i)
    ensures f[i] == x + h || f[i] == x + h - |b|
  {
    var n := |b|;
    i := PermOnto(f, n, if x + h >= n then x + h - n else x + h);
    assert Back(f[i], h, n) == x;
  }

  lemma {:induction false} PlaceOrder(b: seq<byte>, f: seq<int>, bh: seq<bool>, h: nat, i: nat, j: nat)
    requires SortedTo(b, f, bh, h)
    requires i < |b| && j < |b|
    ensures Head(bh, i) < Head(bh, j) <==> Cmp(b, f[i], f[j], h) < 0
    ensures Head(bh, i) == Head(bh, j) <==> Cmp(b, f[i], f[j], h) == 0
  {
    CmpAntisym(b, f[i], f[j], h);
    if i < j {
      HeadMono(bh, i, j);
    } else if j < i {
      HeadMono(bh, j, i);
    } else {
      CmpRefl(b, f[i], h);
    }
  }

  /** A pass has reached position r, and entries have only moved among rotations that tie on h bytes. */
  ghost predicate Moved(b: seq<byte>, f0: seq<int>, f: seq<int>, h: nat, r: int) {
    && |b| > 0
    && |f| == |f0| == |b|
    && (forall i {:trigger f[i]} :: 0 <= i < |b| ==> Cmp(b, f[i], f0[i], h) == 0)
    && (forall i {:trigger f[i]} :: 0 <= i < |b| && r < i ==> f[i] == f0[i])
  }

  ghost predicate Rises(f: seq<int>, e: seq<int>, i: int)
    requires 0 < i < |f| && Indexed(f, e)
  {
    e[f[i - 1]] < e[f[i]]
  }

  ghost predicate Level(f: seq<int>, e: seq<int>, i: int)
    requires 0 < i < |f| && Indexed(f, e)
  {
    e[f[i - 1]] == e[f[i]]
  }

  /**
   * Up to position r entries follow their classes within each old bucket, and a header stands
   * exactly where an old bucket starts or the class rises. Beyond r the headers are the old ones.
   */
  ghost predicate Marked(f: seq<int>, e: seq<int>, bh0: seq<bool>, bh: seq<bool>, r: int) {
    && Indexed(f, e) && |f| < |bh| == |bh0|
    && -1 <= r < |f|
    && (forall i {:trigger bh0[i]} {:trigger bh[i]} :: 0 < i <= r && !bh0[i] ==> Rises(f, e, i) || Level(f, e, i))
    && (forall i {:trigger bh0[i]} {:trigger bh[i]} :: 0 < i <= r && !bh0[i] ==> bh[i] == !Level(f, e, i))
    && (forall i {:trigger bh0[i]} :: 0 <= i < |bh| && bh0[i] ==> bh[i])
    && (forall i {:trigger bh[i]} :: 0 <= i < |bh| && bh[i] && (i > r || i == 0) ==> bh0[i])
  }

  lemma {:induction false} HeadFiner(bh0: seq<bool>, bh: seq<bool>, i: int)
    requires 0 <= i < |bh| == |bh0|
    requires forall k {:trigger bh0[k]} :: 0 <= k < |bh| && bh0[k] ==> bh[k]
    ensures Head(bh0, i) <= Head(bh, i)
    decreases i
  {
    if !bh[i] && i > 0 {
      HeadFiner(bh0, bh, i - 1);
    }
  }

  /** Within an old bucket classes ascend, and a new bucket is a run of equal classes. */
  lemma {:induction false} BucketClasses(f: seq<int>, e: seq<int>, bh0: seq<bool>, bh: seq<bool>, i: int, j: int)
    requires Marked(f, e, bh0, bh, |f| - 1)
    requires 0 <= i <= j < |f|
    requires Head(bh0, i) == Head(bh0, j)
    ensures e[f[i]] <= e[f[j]]
    ensures Head(bh, i) == Head(bh, j) <==> e[f[i]] == e[f[j]]
    decreases j
  {
    if i < j {
      HeadMono(bh0, i, j);
      assert !bh0[j];
      BucketClasses(f, e, bh0, bh, i, j - 1);
      HeadMono(bh, i, j);
      HeadMono(bh, i, j - 1);
    }
  }

  /** Rotations from different old buckets keep their order. */
  lemma {:induction false} MovedOrder(b: seq<byte>, f0: seq<int>, bh0: seq<bool>, f: seq<int>, h: nat, i: int, j: int)
    requires SortedTo(b, f0, bh0, h)
    requires Moved(b, f0, f, h, |b| - 1)
    requires 0 <= i < j < |b|
    ensures if Head(bh0, i) == Head(bh0, j) then Cmp(b, f[i], f[j], h) == 0 else Cmp(b, f[i], f[j], h) < 0
  {
    CmpTies(b, f0[i], f[i], f0[j], f[j], h);
  }

  lemma {:induction false} HeadsApart(f: seq<int>, e: seq<int>, bh0: seq<bool>, bh: seq<bool>, i: int, j: int)
    requires Marked(f, e, bh0, bh, |f| - 1)
    requires 0 <= i < j < |f|
    requires Head(bh0, i) != Head(bh0, j)
    ensures Head(bh, i) != Head(bh, j)
  {
    HeadMono(bh0, i, j);
    HeadFiner(bh0, bh, j);
  }

  lemma {:induction false} CmpTies(b: seq<byte>, x: int, x': int, y: int, y': int, h: nat)
    requires |b| > 0
    requires Cmp(b, x', x, h) == 0 && Cmp(b, y', y, h) == 0
    ensures Cmp(b, x, y, h) < 0 <==> Cmp(b, x', y', h) < 0
    ensures Cmp(b, x, y, h) == 0 <==> Cmp(b, x', y', h) == 0
  {
    CmpAntisym(b, x', x, h);
    CmpAntisym(b, y', y, h);
    CmpAntisym(b, x, y, h);
    CmpAntisym(b, x', y', h);
    if Cmp(b, x, y, h) <= 0 {
      CmpTrans(b, x', x, y, h);
      CmpTrans(b, x', y, y', h);
    }
    if Cmp(b, y, x, h) <= 0 {
      CmpTrans(b, y', y, x, h);
      CmpTrans(b, y', x, x', h);
    }
  }

  /** A finished pass doubles the sorted depth. */
  lemma {:induction false} PassDoubles(b: seq<byte>, f0: seq<int>, bh0: seq<bool>, f: seq<int>, bh: seq<bool>, e: seq<int>, h: nat)
    requires SortedTo(b, f0, bh0, h) && IsPerm(f0, |b|) && Classes(f0, bh0, e, h)
    requires Moved(b, f0, f, h, |b| - 1) && Marked(f, e, bh0, bh, |b| - 1)
    ensures SortedTo(b, f, bh, h + h)
  {
    forall i, j | 0 <= i < j < |b|
      ensures if Head(bh, i) == Head(bh, j) then Cmp(b, f[i], f[j], h + h) == 0 else Cmp(b, f[i], f[j], h + h) < 0
    {
      PassPair(b, f0, bh0, f, bh, e, h, i, j);
    }
  }

  lemma {:induction false} PassPair(b: seq<byte>, f0: seq<int>, bh0: seq<bool>, f: seq<int>, bh: seq<bool>, e: seq<int>, h: nat, i: int, j: int)
    requires SortedTo(b, f0, bh0, h) && IsPerm(f0, |b|) && Classes(f0, bh0, e, h)
    requires Moved(b, f0, f, h, |b| - 1) && Marked(f, e, bh0, bh, |b| - 1)
    requires 0 <= i < j < |b|
    ensures if Head(bh, i) == Head(bh, j) then Cmp(b, f[i], f[j], h + h) == 0 else Cmp(b, f[i], f[j], h + h) < 0
  {
    MovedOrder(b, f0, bh0, f, h, i, j);
    Doubled(b, f0, bh0, e, h, f[i], f[j]);
    if Head(bh0, i) == Head(bh0, j) {
      BucketClasses(f, e, bh0, bh, i, j);
    } else {
      HeadsApart(f, e, bh0, bh, i, j);
    }
  }

  /** On twice the bytes, ties are broken by class and nothing else changes. */
  lemma {:induction false} Doubled(b: seq<byte>, f: seq<int>, bh: seq<bool>, e: seq<int>, h: nat, x: int, y: int)
    requires SortedTo(b, f, bh, h) && IsPerm(f, |b|) && Classes(f, bh, e, h)
    requires 0 <= x < |b| && 0 <= y < |b|
    ensures Cmp(b, x, y, h) < 0 ==> Cmp(b, x, y, h + h) < 0
    ensures Cmp(b, x, y, h) == 0 ==> (Cmp(b, x, y, h + h) < 0 <==> e[x] < e[y])
    ensures Cmp(b, x, y, h) == 0 ==> (Cmp(b, x, y, h + h) == 0 <==> e[x] == e[y])
  {
    CmpSplit(b, x, y, h, h);
    ClassMeaning(b, f, bh, e, h, x, y);
  }

  /** Singleton buckets need no work. */
  lemma {:induction false} SkipSingletons(f: seq<int>, e: seq<int>, bh0: seq<bool>, bh: seq<bool>, r: int, l: int)
    requires Marked(f, e, bh0, bh, r)
    requires -1 <= r < l <= |f|
    requires forall k :: r < k < l ==> bh0[k]
    ensures Marked(f, e, bh0, bh, l - 1)
  {
  }

  /** Sorting a bucket moves its entries among rotations that tie. */
  lemma {:induction false} BucketMoved(b: seq<byte>, f0: seq<int>, bh0: seq<bool>, f: seq<int>, g: seq<int>, h: nat, l: int, r: int)
    requires SortedTo(b, f0, bh0, h)
    requires 0 <= l <= r < |b| && bh0[l] && forall k :: l < k <= r ==> !bh0[k]
    requires Moved(b, f0, f, h, l - 1) && Rearranged(f, g, l, r)
    ensures Moved(b, f0, g, h, r)
  {
    forall i | l <= i <= r
      ensures Cmp(b, g[i], f0[i], h) == 0
    {
      var x := RearrangedSource(f, g, l, r, i);
      SameBucketTies(b, f0, bh0, h, l, r, x, i);
    }
  }

  /** Marking where the class changes carries the pass past the bucket. */
  lemma {:induction false} BucketMarked(f: seq<int>, g: seq<int>, e: seq<int>, bh0: seq<bool>, bh: seq<bool>, bh': seq<bool>, l: int, r: int)
    requires Marked(f, e, bh0, bh, l - 1)
    requires 0 <= l <= r < |f| && bh0[l] && forall k :: l < k <= r ==> !bh0[k]
    requires Rearranged(f, g, l, r) && Indexed(g, e) && SortedOn(g, e, l, r)
    requires |bh'| == |bh|
    requires forall k :: 0 <= k < |bh| ==> (bh'[k] <==> bh[k] || (l < k <= r && !Level(g, e, k)))
    ensures Marked(g, e, bh0, bh', r)
  {
    forall i | 0 < i <= r && !bh0[i]
      ensures Rises(g, e, i) || Level(g, e, i)
      ensures bh'[i] == !Level(g, e, i)
    {
      if l < i {
        assert Key(g, e, i - 1) <= Key(g, e, i);
        assert !bh[i];
      } else {
        assert i != l;
        assert g[i] == f[i] && g[i - 1] == f[i - 1];
        assert Rises(f, e, i) || Level(f, e, i);
      }
    }
  }

  lemma {:induction false} SameBucketTies(b: seq<byte>, f: seq<int>, bh: seq<bool>, h: nat, l: int, r: int, x: int, i: int)
    requires SortedTo(b, f, bh, h)
    requires 0 <= l <= r < |b| && bh[l] && forall k :: l < k <= r ==> !bh[k]
    requires l <= x <= r && l <= i <= r
    ensures Cmp(b, f[x], f[i], h) == 0
  {
    InBucket(bh, l, r, x);
    InBucket(bh, l, r, i);
    PlaceOrder(b, f, bh, h, x, i);
  }

  lemma {:induction false} RearrangedPerm(f: seq<int>, g: seq<int>, n: nat, l: int, r: int)
    requires IsPerm(f, n) && Rearranged(f, g, l, r)
    ensures IsPerm(g, n)
  {
    SameBag(f, g);
    PermByMultiset(f, g, n);
  }

  lemma {:induction false} InBucket(bh: seq<bool>, l: int, r: int, i: int)
    requires 0 <= l <= i <= r < |bh| && bh[l] && forall k :: l < k <= r ==> !bh[k]
    ensures Head(bh, i) == l
    decreases i
  {
    if i > l {
      InBucket(bh, l, r, i - 1);
    }
  }

  /** When the sorted depth covers the block, or no two rotations tie, the rotations are sorted. */
  lemma {:induction false} DepthSuffices(b: seq<byte>, f: seq<int>, bh: seq<bool>, h: nat)
    requires SortedTo(b, f, bh, h)
    requires h >= |b| || forall i :: 0 <= i < |b| ==> bh[i]
    ensures RotSorted(b, f)
  {
    forall i, j | 0 <= i < j < |b|
      ensures Cmp(b, f[i], f[j], |b|) <= 0
    {
      if h >= |b| {
        CmpLong(b, f[i], f[j], h);
      } else {
        CmpShort(b, f[i], f[j], h);
      }
    }
  }

  /** Where the radix sort puts position i: buckets by byte, filled from the top. */
  ghost function Slot(b: seq<byte>, i: nat): int
    requires i < |b|
  {
    Below(b, b[i] as int + 1) - 1 - Count(b[..i], b[i])
  }

  lemma {:induction false} SlotInBucket(b: seq<byte>, i: nat)
    requires i < |b|
    ensures 0 <= Below(b, b[i]) <= Slot(b, i) < Below(b, b[i] as int + 1) <= |b|
  {
    RankInBucket(b, i);
    CountStep(b, i, b[i]);
    CountPrefix(b, i + 1, |b|, b[i]);
    assert b[..|b|] == b;
    BelowNext(b, b[i]);
  }

  lemma {:induction false} SlotFresh(b: seq<byte>, i: nat, j: nat)
    requires i < j < |b|
    ensures Slot(b, i) != Slot(b, j)
  {
    SlotInBucket(b, i);
    SlotInBucket(b, j);
    if b[i] < b[j] {
      BelowMono(b, b[i] as int + 1, b[j]);
    } else if b[i] > b[j] {
      BelowMono(b, b[j] as int + 1, b[i]);
    } else {
      CountStep(b, i, b[i]);
      CountPrefix(b, i + 1, j, b[i]);
    }
  }

  ghost function Slots(b: seq<byte>): seq<int> {
    seq(|b|, i requires 0 <= i < |b| => Slot(b, i))
  }

  lemma {:induction false} SlotsArePerm(b: seq<byte>)
    ensures IsPerm(Slots(b), |b|)
  {
    forall i | 0 <= i < |b|
      ensures 0 <= Slots(b)[i] < |b|
    {
      SlotInBucket(b, i);
    }
    forall i, j | 0 <= i < j < |b|
      ensures Slots(b)[i] != Slots(b)[j]
    {
      SlotFresh(b, i, j);
    }
    DistinctPerm(Slots(b), |b|);
  }

  ghost predicate Slotted(b: seq<byte>, f: seq<int>) {
    && |f| == |b|
    && forall i :: 0 <= i < |b| ==> 0 <= Slot(b, i) < |b| && f[Slot(b, i)] == i
  }

  lemma {:induction false} SlottedAt(b: seq<byte>, f: seq<int>, k: nat)
    requires Slotted(b, f) && k < |b|
    ensures 0 <= f[k] < |b| && Slot(b, f[k]) == k
    ensures Below(b, b[f[k]]) <= k < Below(b, b[f[k]] as int + 1)
  {
    var i := SlotOnto(b, k);
    SlotInBucket(b, i);
  }

  lemma {:induction false} SlotOnto(b: seq<byte>, k: nat) returns (i: nat)
    requires k < |b|
    ensures i < |b| && Slot(b, i) == k
  {
    SlotsArePerm(b);
    i := PermOnto(Slots(b), |b|, k);
    assert Slots(b)[i] == Slot(b, i);
  }

  lemma {:induction false} SlottedPerm(b: seq<byte>, f: seq<int>)
    requires Slotted(b, f)
    ensures IsPerm(f, |b|)
  {
    forall k | 0 <= k < |b|
      ensures 0 <= f[k] < |b| && Slot(b, f[k]) == k
    {
      SlottedAt(b, f, k);
    }
    DistinctPerm(f, |b|);
  }

  /** Headers stand exactly at the starts of the byte buckets. */
  ghost predicate ByteHeads(b: seq<byte>, bh: seq<bool>) {
    && |b| < |bh|
    && forall k :: 0 <= k < |b| ==> (bh[k] <==> exists c :: 0 <= c < 256 && Below(b, c) == k)
  }

  lemma {:induction false} ByteHead(b: seq<byte>, bh: seq<bool>, c: byte, k: nat)
    requires ByteHeads(b, bh) && k < |b|
    requires Below(b, c) <= k < Below(b, c as int + 1)
    ensures Head(bh, k) == Below(b, c)
  {
    var l, r := Below(b, c), Below(b, c as int + 1) - 1;
    BelowMono(b, c as int + 1, 256);
    forall m | l < m <= r
      ensures !bh[m]
    {
      forall d | 0 <= d < 256
        ensures Below(b, d) != m
      {
        if d <= c {
          BelowMono(b, d, c);
        } else {
          BelowMono(b, c as int + 1, d);
        }
      }
    }
    InBucket(bh, l, r, k);
  }

  /** The radix sort sorts by the first byte. */
  lemma {:induction false} FirstByteSorted(b: seq<byte>, f: seq<int>, bh: seq<bool>)
    requires |b| > 0 && Slotted(b, f) && ByteHeads(b, bh)
    ensures IsPerm(f, |b|) && SortedTo(b, f, bh, 1)
  {
    SlottedPerm(b, f);
    forall i, j | 0 <= i < j < |b|
      ensures if Head(bh, i) == Head(bh, j) then Cmp(b, f[i], f[j], 1) == 0 else Cmp(b, f[i], f[j], 1) < 0
    {
      FirstBytePair(b, f, bh, i, j);
    }
  }

  lemma {:induction false} FirstBytePair(b: seq<byte>, f: seq<int>, bh: seq<bool>, i: int, j: int)
    requires |b| > 0 && Slotted(b, f) && Within(f, |b|) && ByteHeads(b, bh)
    requires 0 <= i < j < |b|
    ensures if Head(bh, i) == Head(bh, j) then Cmp(b, f[i], f[j], 1) == 0 else Cmp(b, f[i], f[j], 1) < 0
  {
    SlottedAt(b, f, i);
    SlottedAt(b, f, j);
    CmpOne(b, f[i], f[j]);
    HeadsByByte(b, bh, b[f[i]], b[f[j]], i, j);
  }

  lemma {:induction false} HeadsByByte(b: seq<byte>, bh: seq<bool>, c: byte, d: byte, i: nat, j: nat)
    requires ByteHeads(b, bh) && i < j < |b|
    requires Below(b, c) <= i < Below(b, c as int + 1)
    requires Below(b, d) <= j < Below(b, d as int + 1)
    ensures if Head(bh, i) == Head(bh, j) then c == d else c < d
  {
    ByteHead(b, bh, c, i);
    ByteHead(b, bh, d, j);
    if c < d {
      BelowMono(b, c as int + 1, d);
    } else if d < c {
      BelowMono(b, d as int + 1, c);
    }
  }

  lemma {:induction false} CmpOne(b: seq<byte>, x: int, y: int)
    requires 0 <= x < |b| && 0 <= y < |b|
    ensures Cmp(b, x, y, 1) == b[x] as int - b[y]
  {
    ModUnique(x, |b|, 0, x);
    ModUnique(y, |b|, 0, y);
    assert Cmp(b, x + 1, y + 1, 0) == 0;
  }

  /** The one-byte radix sort; ftab ends as bucket starts, ftabCopy as byte counts. */
  method RadixSort(eclass8: array<byte>, fmap: array<int>, ftab: array<int>, ftabCopy: array<int>, nblock: nat)
    requires eclass8.Length == nblock == fmap.Length && ftab.Length == 257 && ftabCopy.Length == 256
    requires ftab != ftabCopy && ftab != fmap && ftabCopy != fmap
    modifies fmap, ftab, ftabCopy
    ensures Slotted(eclass8[..], fmap[..])
    ensures forall c :: 0 <= c < 256 ==> ftab[c] == Below(eclass8[..], c) && ftabCopy[c] == Count(eclass8[..], c)
  {
    ghost var b := eclass8[..];
    CountBytes(eclass8, ftab, ftabCopy);
    var i := 0;
    while i < nblock
      invariant 0 <= i <= nblock
      invariant forall c :: 0 <= c < 256 ==> ftab[c] == Below(b, c + 1) - Count(b[..i], c)
      invariant forall c :: 0 <= c < 256 ==> ftabCopy[c] == Count(b, c)
      invariant forall m :: 0 <= m < i ==> 0 <= Slot(b, m) < nblock && fmap[Slot(b, m)] == m
    {
      var j := eclass8[i];
      assert j == b[i];
      var k := ftab[j] - 1;
      SlotInBucket(b, i);
      forall m | 0 <= m < i
        ensures Slot(b, m) != Slot(b, i)
      {
        SlotFresh(b, m, i);
      }
      forall c | 0 <= c < 256
        ensures Count(b[..i + 1], c) == Count(b[..i], c) + if b[i] == c then 1 else 0
      {
        CountStep(b, i, c);
      }
      ftab[j] := k;
      fmap[k] := i;
      i := i + 1;
    }
    forall c | 0 <= c < 256
      ensures ftab[c] == Below(b, c)
    {
      assert b[..nblock] == b;
      BelowNext(b, c);
    }
  }

  /** Counts the bytes, keeps the counts, and sums them. */
  method CountBytes(eclass8: array<byte>, ftab: array<int>, ftabCopy: array<int>)
    requires ftab.Length == 257 && ftabCopy.Length == 256 && ftab != ftabCopy
    modifies ftab, ftabCopy
    ensures forall c :: 0 <= c < 256 ==> ftab[c] == Below(eclass8[..], c + 1) && ftabCopy[c] == Count(eclass8[..], c)
  {
    ghost var b := eclass8[..];
    var i := 0;
    while i < 257
      invariant 0 <= i <= 257
      invariant forall c :: 0 <= c < i ==> ftab[c] == 0
    {
      ftab[i] := 0;
      i := i + 1;
    }
    i := 0;
    while i < eclass8.Length
      invariant 0 <= i <= |b|
      invariant forall c :: 0 <= c < 257 ==> ftab[c] == Count(b[..i], c)
    {
      forall c
        ensures Count(b[..i + 1], c) == Count(b[..i], c) + if b[i] == c then 1 else 0
      {
        CountStep(b, i, c);
      }
      ftab[eclass8[i]] := ftab[eclass8[i]] + 1;
      i := i + 1;
    }
    assert b[..|b|] == b;
    i := 0;
    while i < 256
      invariant 0 <= i <= 256
      invariant forall c :: 0 <= c < 257 ==> ftab[c] == Count(b, c)
      invariant forall c :: 0 <= c < i ==> ftabCopy[c] == Count(b, c)
    {
      ftabCopy[i] := ftab[i];
      i := i + 1;
    }
    BelowEnds(b);
    BelowNext(b, 0);
    i := 1;
    while i < 257
      invariant 1 <= i <= 257
      invariant forall c :: 0 <= c < i ==> ftab[c] == Below(b, c + 1)
      invariant forall c :: i <= c < 257 ==> ftab[c] == Count(b, c)
      invariant forall c :: 0 <= c < 256 ==> ftabCopy[c] == Count(b, c)
    {
      BelowNext(b, i);
      ftab[i] := ftab[i] + ftab[i - 1];
      i := i + 1;
    }
  }

  /** The class of each rotation: the bucket of the rotation H bytes later. */
  method FillClasses(fmap: array<int>, bhtab: array<bool>, eclass: array<int>, nblock: nat, H: nat)
    requires fmap.Length == nblock == eclass.Length && nblock < bhtab.Length && fmap != eclass
    requires IsPerm(fmap[..], nblock) && H <= nblock
    modifies eclass
    ensures Classes(fmap[..], bhtab[..], eclass[..], H)
    ensures forall k :: 0 <= k < nblock ==> 0 <= eclass[k]
  {
    ghost var f, bh := fmap[..], bhtab[..];
    var i, j := 0, 0;
    while i < nblock
      invariant 0 <= i <= nblock
      invariant j == if i == 0 then 0 else Head(bh, i - 1)
      invariant forall m {:trigger f[m]} :: 0 <= m < i ==> eclass[Back(f[m], H, nblock)] == Head(bh, m)
    {
      if bhtab[i] {
        j := i;
      }
      var k := Back(fmap[i], H, nblock);
      BackFresh(f, H, i);
      eclass[k] := j;
      i := i + 1;
    }
    ClassesNatural(f, bh, eclass[..], H);
  }

  lemma {:induction false} BackFresh(f: seq<int>, h: nat, i: nat)
    requires IsPerm(f, |f|) && h <= |f| && i < |f|
    ensures forall m {:trigger f[m]} :: 0 <= m < i ==> Back(f[m], h, |f|) != Back(f[i], h, |f|)
  {
    PermDistinct(f, |f|);
  }

  lemma {:induction false} ClassesNatural(f: seq<int>, bh: seq<bool>, e: seq<int>, h: nat)
    requires IsPerm(f, |f|) && Classes(f, bh, e, h)
    ensures forall x :: 0 <= x < |f| ==> 0 <= e[x]
  {
    forall x | 0 <= x < |f|
      ensures 0 <= e[x]
    {
      var n := |f|;
      var i := PermOnto(f, n, if x + h >= n then x + h - n else x + h);
      assert Back(f[i], h, n) == x;
    }
  }

  /** Header bits and sentinels. bhtab is a table of 32-bit words, modelled bit by bit. */
  ghost predicate Sentinels(bh: seq<bool>, n: nat) {
    |bh| % 32 == 0 && n + 64 <= |bh| && bh[n] && !bh[n + 1]
  }

  method InitHeaders(bhtab: array<bool>, ftab: array<int>, nblock: nat, ghost b: seq<byte>)
    requires bhtab.Length % 32 == 0 && nblock + 64 <= bhtab.Length && ftab.Length == 257 && nblock == |b|
    requires forall c :: 0 <= c < 256 ==> ftab[c] == Below(b, c)
    modifies bhtab
    ensures ByteHeads(b, bhtab[..]) && Sentinels(bhtab[..], nblock)
  {
    var nBhtab := 2 + nblock / 32;
    var i := 0;
    while i < 32 * nBhtab
      invariant 0 <= i <= 32 * nBhtab
      invariant forall k :: 0 <= k < i ==> !bhtab[k]
    {
      bhtab[i] := false;
      i := i + 1;
    }
    i := 0;
    while i < 256
      invariant 0 <= i <= 256
      invariant forall k :: 0 <= k < nblock ==> (bhtab[k] <==> exists c :: 0 <= c < i && Below(b, c) == k)
    {
      BelowMono(b, i, 256);
      bhtab[ftab[i]] := true;
      i := i + 1;
    }
    i := 0;
    while i < 32
      invariant 0 <= i <= 32
      invariant forall k :: 0 <= k < nblock ==> (bhtab[k] <==> exists c :: 0 <= c < 256 && Below(b, c) == k)
      invariant i > 0 ==> bhtab[nblock] && !bhtab[nblock + 1]
    {
      bhtab[nblock + 2 * i] := true;
      bhtab[nblock + 2 * i + 1] := false;
      i := i + 1;
    }
  }

  predicate WordIs(bhtab: array<bool>, k: nat, v: bool)
    requires k + 32 <= bhtab.Length
    reads bhtab
  {
    forall m :: k <= m < k + 32 ==> bhtab[m] == v
  }

  /** Skips a run of equal bits: bit by bit to a word boundary, then word by word, then bit by bit. */
  method SkipRun(bhtab: array<bool>, start: nat, v: bool, ghost stop: nat) returns (k: nat)
    requires bhtab.Length % 32 == 0 && start <= stop < bhtab.Length && bhtab[stop] != v
    ensures start <= k <= stop && bhtab[k] != v
    ensures forall m :: start <= m < k ==> bhtab[m] == v
  {
    k := start;
    while bhtab[k] == v && k % 32 != 0
      invariant start <= k <= stop
      invariant forall m :: start <= m < k ==> bhtab[m] == v
      decreases stop - k
    {
      k := k + 1;
    }
    if bhtab[k] == v {
      while WordIs(bhtab, k, v)
        invariant start <= k <= stop && k % 32 == 0
        invariant forall m :: start <= m < k ==> bhtab[m] == v
        decreases stop - k
      {
        k := k + 32;
      }
      while bhtab[k] == v
        invariant start <= k <= stop
        invariant forall m :: start <= m < k ==> bhtab[m] == v
        decreases stop - k
      {
        k := k + 1;
      }
    }
  }

  /** Sets a header wherever the class changes inside l..r. */
  method MarkHeaders(fmap: array<int>, eclass: array<int>, bhtab: array<bool>, l: nat, r: nat)
    requires l <= r < fmap.Length < bhtab.Length
    requires Indexed(fmap[..], eclass[..]) && forall x :: 0 <= x < eclass.Length ==> 0 <= eclass[x]
    requires bhtab[l]
    modifies bhtab
    ensures forall k :: 0 <= k < bhtab.Length ==>
      (bhtab[k] <==> old(bhtab[k]) || (l < k <= r && !Level(fmap[..], eclass[..], k)))
  {
    var cc := -1;
    var i := l;
    while i <= r
      invariant l <= i <= r + 1
      invariant cc == if i == l then -1 else eclass[fmap[i - 1]]
      invariant forall k :: 0 <= k < bhtab.Length ==>
        (bhtab[k] <==> old(bhtab[k]) || (l < k < i && !Level(fmap[..], eclass[..], k)))
    {
      var cc1 := eclass[fmap[i]];
      if cc != cc1 {
        bhtab[i] := true;
        cc := cc1;
      }
      i := i + 1;
    }
  }

  /** What one pass keeps after it has handled the buckets up to position r. */
  ghost predicate Passing(b: seq<byte>, f0: seq<int>, bh0: seq<bool>, f: seq<int>, bh: seq<bool>, e: seq<int>, h: nat, r: int) {
    && Moved(b, f0, f, h, r)
    && Marked(f, e, bh0, bh, r)
    && IsPerm(f, |b|)
  }

  /** Sorts the bucket l..r by class and marks the smaller buckets in it. */
  method RefineBucket(fmap: array<int>, eclass: array<int>, bhtab: array<bool>, l: nat, r: nat,
                      ghost b: seq<byte>, ghost f0: seq<int>, ghost bh0: seq<bool>, ghost h: nat)
    requires fmap != eclass && fmap.Length == eclass.Length <= 0x7fff_ffff
    requires l < r < fmap.Length
    requires SortedTo(b, f0, bh0, h)
    requires forall x :: 0 <= x < eclass.Length ==> 0 <= eclass[x]
    requires Passing(b, f0, bh0, fmap[..], bhtab[..], eclass[..], h, l - 1)
    requires bh0[l] && forall k :: l < k <= r ==> !bh0[k]
    modifies fmap, bhtab
    ensures Passing(b, f0, bh0, fmap[..], bhtab[..], eclass[..], h, r)
  {
    ghost var f, bh, e := fmap[..], bhtab[..], eclass[..];
    QSort3(fmap, eclass, l, r);
    RearrangedPerm(f, fmap[..], |b|, l, r);
    MarkHeaders(fmap, eclass, bhtab, l, r);
    BucketMoved(b, f0, bh0, f, fmap[..], h, l, r);
    BucketMarked(f, fmap[..], e, bh0, bh, bhtab[..], l, r);
  }

  /** One pass: finds every bucket with more than one entry and refines it. */
  method RefinePass(fmap: array<int>, eclass: array<int>, bhtab: array<bool>, nblock: nat, ghost b: seq<byte>, ghost h: nat)
    returns (nNotDone: nat)
    requires fmap != eclass && 0 < nblock == |b| == fmap.Length == eclass.Length <= 0x7fff_ffff
    requires Sentinels(bhtab[..], nblock) && bhtab[0]
    requires SortedTo(b, fmap[..], bhtab[..], h) && IsPerm(fmap[..], nblock) && Classes(fmap[..], bhtab[..], eclass[..], h)
    requires forall x :: 0 <= x < eclass.Length ==> 0 <= eclass[x]
    modifies fmap, bhtab
    ensures SortedTo(b, fmap[..], bhtab[..], h + h) && IsPerm(fmap[..], nblock)
    ensures Sentinels(bhtab[..], nblock) && bhtab[0]
    ensures nNotDone == 0 ==> forall i :: 0 <= i < nblock ==> bhtab[i]
  {
    ghost var f0, bh0, e := fmap[..], bhtab[..], eclass[..];
    PassStarts(b, f0, bh0, e, h);
    nNotDone := 0;
    var r := -1;
    while true
      invariant -1 <= r < nblock && bh0[r + 1]
      invariant Passing(b, f0, bh0, fmap[..], bhtab[..], e, h, r)
      invariant nNotDone == 0 ==> forall i :: 0 <= i <= r ==> bh0[i]
      decreases nblock - r
    {
      HeadersBeyond(fmap[..], e, bh0, bhtab[..], r);
      var found, l, r' := NextBucket(bhtab, r, nblock);
      SkipSingletons(fmap[..], e, bh0, bhtab[..], r, l);
      if !found {
        break;
      }
      r := r';
      if r > l {
        nNotDone := nNotDone + (r - l + 1);
        RefineBucket(fmap, eclass, bhtab, l, r, b, f0, bh0, h);
      }
    }
    HeadersBeyond(fmap[..], e, bh0, bhtab[..], nblock - 1);
    PassDoubles(b, f0, bh0, fmap[..], bhtab[..], e, h);
  }

  /** The next bucket l..r' with more than one entry, or none before the end of the block. */
  method NextBucket(bhtab: array<bool>, r: int, nblock: nat) returns (found: bool, l: int, r': int)
    requires Sentinels(bhtab[..], nblock) && -1 <= r < nblock && bhtab[r + 1]
    ensures r < l <= nblock && forall k :: r < k < l ==> bhtab[k]
    ensures !found ==> l == nblock
    ensures found ==> l < r' < nblock && bhtab[l] && bhtab[r' + 1] && forall k :: l < k <= r' ==> !bhtab[k]
  {
    assert bhtab[nblock] && !bhtab[nblock + 1];
    found, r' := false, 0;
    var k := SkipRun(bhtab, r + 1, true, nblock + 1);
    l := k - 1;
    if l >= nblock {
      l := nblock;
      return;
    }
    k := SkipRun(bhtab, k, false, nblock);
    r' := k - 1;
    found := true;
  }

  lemma {:induction false} PassStarts(b: seq<byte>, f: seq<int>, bh: seq<bool>, e: seq<int>, h: nat)
    requires SortedTo(b, f, bh, h) && IsPerm(f, |b|) && |e| == |b|
    ensures Passing(b, f, bh, f, bh, e, h, -1)
  {
    forall i {:trigger f[i]} | 0 <= i < |b|
      ensures Cmp(b, f[i], f[i], h) == 0
    {
      CmpRefl(b, f[i], h);
    }
  }

  /** Old headers are never lost, and beyond the pass's reach no new ones appear. */
  lemma {:induction false} HeadersBeyond(f: seq<int>, e: seq<int>, bh0: seq<bool>, bh: seq<bool>, r: int)
    requires Marked(f, e, bh0, bh, r)
    ensures forall k :: 0 <= k < |bh| && bh0[k] ==> bh[k]
    ensures forall k :: r < k < |bh| ==> bh[k] == bh0[k]
  {
    forall k | r < k < |bh|
      ensures bh[k] == bh0[k]
    {
      if bh[k] {
        assert bh0[k];
      }
    }
  }

  /** The first bytes of the rotations in sorted order. */
  ghost function FirstColumn(b: seq<byte>, f: seq<int>): (s: seq<byte>)
    requires |f| <= |b| && Within(f, |b|)
  {
    seq(|f|, i requires 0 <= i < |f| => b[f[i]])
  }

  ghost predicate Ascending(s: seq<byte>) {
    forall i, j :: 0 <= i < j < |s| ==> s[i] <= s[j]
  }

  lemma {:induction false} FirstColumnAscends(b: seq<byte>, f: seq<int>)
    requires |b| > 0 && IsPerm(f, |b|) && RotSorted(b, f)
    ensures Ascending(FirstColumn(b, f))
  {
    forall i, j | 0 <= i < j < |b|
      ensures FirstColumn(b, f)[i] <= FirstColumn(b, f)[j]
    {
      assert Cmp(b, f[i], f[j], |b|) <= 0;
      CmpOne(b, f[i], f[j]);
      CmpSplit(b, f[i], f[j], 1, |b| - 1);
    }
  }

  ghost function Holding(b: seq<byte>, xs: set<int>, c: int): set<int> {
    set x | x in xs && 0 <= x < |b| && b[x] == c
  }

  /** Counting through distinct positions is counting positions. */
  lemma {:induction false} CountPositions(b: seq<byte>, f: seq<int>, c: int)
    requires |f| <= |b| && Within(f, |b|) && Distinct(f)
    ensures Count(FirstColumn(b, f), c) == |Holding(b, Elements(f), c)|
  {
    if f == [] {
      assert Holding(b, Elements(f), c) == {};
    } else {
      var last := |f| - 1;
      var g, x := f[..last], f[last];
      CountPositions(b, g, c);
      assert FirstColumn(b, f)[..last] == FirstColumn(b, g);
      assert Elements(f) == Elements(g) + {x} && x !in Elements(g);
      HoldingMore(b, Elements(g), x, c);
    }
  }

  lemma {:induction false} HoldingMore(b: seq<byte>, s: set<int>, x: int, c: int)
    requires x !in s && 0 <= x < |b|
    ensures |Holding(b, s + {x}, c)| == |Holding(b, s, c)| + if b[x] == c then 1 else 0
  {
    if b[x] == c {
      assert Holding(b, s + {x}, c) == Holding(b, s, c) + {x};
    } else {
      assert Holding(b, s + {x}, c) == Holding(b, s, c);
    }
  }

  lemma {:induction false} FirstColumnCounts(b: seq<byte>, f: seq<int>, c: int)
    requires IsPerm(f, |b|)
    ensures Count(FirstColumn(b, f), c) == Count(b, c)
  {
    PermDistinct(f, |b|);
    CountPositions(b, f, c);
    var id := seq(|b|, i => i);
    CountPositions(b, id, c);
    assert FirstColumn(b, id) == b;
    forall x
      ensures x in Elements(f) <==> 0 <= x < |b|
      ensures x in Elements(id) <==> 0 <= x < |b|
    {
      if 0 <= x < |b| {
        var i := PermOnto(f, |b|, x);
        assert id[x] == x;
      }
    }
    assert Elements(f) == Elements(id);
  }

  /** A byte still to be counted stands at i or later. */
  lemma {:induction false} StillToCome(s: seq<byte>, i: nat, c: int) returns (x: nat)
    requires i <= |s|
    requires Count(s, c) > Count(s[..i], c)
    ensures i <= x < |s| && s[x] == c
    decreases |s|
  {
    var last := |s| - 1;
    assert s[..|s|] == s;
    if s[last] == c {
      x := last;
    } else {
      assert s[..last][..i] == s[..i];
      x := StillToCome(s[..last], i, c);
    }
  }

  /** Takes the next byte off the counts. */
  method TakeNext(ftabCopy: array<int>, start: int, ghost s: seq<byte>, ghost i: nat) returns (j: int)
    requires ftabCopy.Length == 256 && 0 <= start < 256
    requires i < |s| && Ascending(s) && Remaining(ftabCopy[..], s, i)
    requires forall c :: 0 <= c < start ==> ftabCopy[c] == 0
    modifies ftabCopy
    ensures j == s[i] && Remaining(ftabCopy[..], s, i + 1)
    ensures forall c :: 0 <= c < j ==> ftabCopy[c] == 0
  {
    j := NextByte(ftabCopy, start, s, i);
    RemainingStep(ftabCopy[..], s, i);
    ghost var was := ftabCopy[..];
    ftabCopy[j] := ftabCopy[j] - 1;
    assert ftabCopy[..] == was[j := was[j] - 1];
  }

  /** Rebuilds the block from the sorted order and the byte counts alone. */
  method Rebuild(fmap: array<int>, ftabCopy: array<int>, eclass8: array<byte>, nblock: nat, ghost b: seq<byte>)
    requires 0 < nblock == |b| == fmap.Length == eclass8.Length && ftabCopy.Length == 256
    requires fmap != ftabCopy
    requires IsPerm(fmap[..], nblock) && RotSorted(b, fmap[..])
    requires forall c :: 0 <= c < 256 ==> ftabCopy[c] == Count(b, c)
    modifies ftabCopy, eclass8
    ensures eclass8[..] == b
  {
    ghost var f := fmap[..];
    ghost var s := FirstColumn(b, f);
    PermDistinct(f, nblock);
    FirstColumnAscends(b, f);
    forall c
      ensures Count(s, c) == Count(b, c)
    {
      FirstColumnCounts(b, f, c);
    }
    var i, j := 0, 0;
    while i < nblock
      invariant 0 <= i <= nblock && 0 <= j < 256
      invariant Remaining(ftabCopy[..], s, i)
      invariant forall c :: 0 <= c < j ==> ftabCopy[c] == 0
      invariant forall m {:trigger f[m]} :: 0 <= m < i ==> eclass8[f[m]] == b[f[m]]
    {
      j := TakeNext(ftabCopy, j, s, i);
      eclass8[fmap[i]] := j;
      i := i + 1;
    }
    forall x | 0 <= x < nblock
      ensures eclass8[x] == b[x]
    {
      var m := PermOnto(f, nblock, x);
    }
  }

  /** How many of each byte are left from position i on. */
  ghost predicate Remaining(t: seq<int>, s: seq<byte>, i: nat) {
    && i <= |s| && |t| == 256
    && forall c :: 0 <= c < 256 ==> t[c] == Count(s, c) - Count(s[..i], c)
  }

  lemma {:induction false} RemainingStep(t: seq<int>, s: seq<byte>, i: nat)
    requires Remaining(t, s, i) && i < |s|
    ensures Remaining(t[s[i] := t[s[i]] - 1], s, i + 1)
  {
    forall c
      ensures Count(s[..i + 1], c) == Count(s[..i], c) + if s[i] == c then 1 else 0
    {
      CountStep(s, i, c);
    }
  }

  /** The smallest byte with copies left is the next byte of an ascending column. */
  method NextByte(ftabCopy: array<int>, start: int, ghost s: seq<byte>, ghost i: nat) returns (j: int)
    requires ftabCopy.Length == 256 && 0 <= start < 256
    requires i < |s| && Ascending(s) && Remaining(ftabCopy[..], s, i)
    requires forall c :: 0 <= c < start ==> ftabCopy[c] == 0
    ensures j == s[i]
    ensures forall c :: 0 <= c < j ==> ftabCopy[c] == 0
  {
    CountStep(s, i, s[i]);
    CountPrefix(s, i + 1, |s|, s[i]);
    assert s[..|s|] == s;
    j := start;
    while ftabCopy[j] == 0
      invariant 0 <= j <= s[i]
      invariant forall c :: 0 <= c < j ==> ftabCopy[c] == 0
      decreases 256 - j
    {
      j := j + 1;
    }
    CountPrefix(s, i, |s|, j);
    assert ftabCopy[j] == ftabCopy[..][j];
    var x := StillToCome(s, i, j);
  }

  /** eclass8 shares its storage with eclass: once classes are written its contents are arbitrary. */
  method Overwrite(eclass8: array<byte>)
    modifies eclass8
  {
    for i := 0 to eclass8.Length {
      eclass8[i] := *;
    }
  }

  /**
   * The fallback sorter: fmap becomes a sorted order of the rotations, and the block, whose storage
   * the classes overwrite, is back in place at the end.
   */
  method Sort(fmap: array<int>, eclass: array<int>, eclass8: array<byte>, bhtab: array<bool>, nblock: nat)
    requires 0 < nblock == fmap.Length == eclass.Length == eclass8.Length <= 0x7fff_ffff && fmap != eclass
    requires bhtab.Length % 32 == 0 && nblock + 64 <= bhtab.Length
    modifies fmap, eclass, eclass8, bhtab
    ensures eclass8[..] == old(eclass8[..])
    ensures IsPerm(fmap[..], nblock) && RotSorted(eclass8[..], fmap[..])
  {
    ghost var b := eclass8[..];
    var ftab, ftabCopy := new int[257], new int[256];
    RadixSort(eclass8, fmap, ftab, ftabCopy, nblock);
    InitHeaders(bhtab, ftab, nblock, b);
    FirstByteSorted(b, fmap[..], bhtab[..]);
    BelowEnds(b);
    assert Below(b, 0) == 0 && bhtab[0];
    Overwrite(eclass8);
    var H := 1;
    while true
      invariant 1 <= H <= nblock
      invariant IsPerm(fmap[..], nblock) && SortedTo(b, fmap[..], bhtab[..], H)
      invariant Sentinels(bhtab[..], nblock) && bhtab[0]
      invariant forall c :: 0 <= c < 256 ==> ftabCopy[c] == Count(b, c)
      decreases nblock - H
    {
      FillClasses(fmap, bhtab, eclass, nblock, H);
      var nNotDone := RefinePass(fmap, eclass, bhtab, nblock, b, H);
      H := H * 2;
      if H > nblock || nNotDone == 0 {
        break;
      }
    }
    DepthSuffices(b, fmap[..], bhtab[..], H);
    Rebuild(fmap, ftabCopy, eclass8, nblock, b);
  }

  /** Sorts the block and finds the row of the unrotated block; that row always exists. */
  method BlockSort(ptr: array<int>, eclass: array<int>, block: array<byte>, bhtab: array<bool>, nblock: nat)
    returns (origPtr: int)
    requires 0 < nblock == ptr.Length == eclass.Length == block.Length <= 0x7fff_ffff && ptr != eclass
    requires bhtab.Length % 32 == 0 && nblock + 64 <= bhtab.Length
    modifies ptr, eclass, block, bhtab
    ensures block[..] == old(block[..])
    ensures IsPerm(ptr[..], nblock) && RotSorted(block[..], ptr[..])
    ensures 0 <= origPtr < nblock && ptr[origPtr] == 0
  {
    Sort(ptr, eclass, block, bhtab, nblock);
    ghost var zero := PermOnto(ptr[..], nblock, 0);
    origPtr := -1;
    var i := 0;
    while i < nblock
      invariant 0 <= i <= zero && origPtr == -1
    {
      if ptr[i] == 0 {
        origPtr := i;
        break;
      }
      i := i + 1;
    }
  }
}
