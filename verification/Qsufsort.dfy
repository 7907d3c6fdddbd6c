/** Sorting the suffixes of the old file: buckets by first byte, then doubling until every group is one suffix. */
module Qsufsort {
  import opened Bytes
  import opened Closing
  import opened Counting
  import opened Matches
  import opened Permutations
  import opened SuffixGroups
  import opened SuffixSplit

  /** All suffixes, the empty one included, each once and in order. */
  ghost predicate SuffixArray(src: seq<byte>, I: seq<int>) {
    IsPerm(I, |src| + 1) && forall k, l {:trigger Smaller(src, I[k], src, I[l])} :: 0 <= k < l < |I| ==> Smaller(src, I[k], src, I[l])
  }

  // ---- one round ----

  /** Every slot is ranked by h bytes. */
  ghost predicate Whole(src: seq<byte>, z: Slots, h: nat) {
    Sized(src, z) && forall u {:trigger Look(u)} :: Look(u) ==> Ranked(src, z.P, z.V, h) && Finished(src, z, h, 0, |src| + 1)
  }

  ghost predicate Sorted(src: seq<byte>, z: Slots, a: int, b: int)
    requires Sized(src, z) && 0 <= a <= b <= |src| + 1
  {
    forall m {:trigger Alone(z.P, z.V, m)} {:trigger z.I[m]} :: a <= m < b ==> Alone(z.P, z.V, m) && z.I[m] < 0
  }

  /** A round that has come to slot i: split before it, not yet from it on, and the len slots before it sorted. */
  ghost predicate Midway(src: seq<byte>, z: Slots, h: nat, i: int, len: int)
    requires Sized(src, z) && 0 <= len <= i <= |src| + 1
  {
    && Ranked(src, z.P, z.V, h) && Finished(src, z, 2 * h, 0, i) && Finished(src, z, h, i, |src| + 1) && Sorted(src, z, i - len, i)
  }

  ghost predicate Walk(src: seq<byte>, z: Slots, h: nat, i: int, len: int) {
    Sized(src, z) && 0 <= len <= i <= |src| + 1 && forall u {:trigger Look(u)} :: Look(u) ==> Midway(src, z, h, i, len)
  }

  lemma {:induction false} WalkStart(src: seq<byte>, z: Slots, h: nat)
    requires Whole(src, z, h)
    ensures Walk(src, z, h, 0, 0)
  {
    assert Look(0);
    assert Finished(src, z, 2 * h, 0, 0);
    assert Midway(src, z, h, 0, 0);
  }

  lemma {:induction false} WalkEnd(src: seq<byte>, z: Slots, h: nat, len: int)
    requires Walk(src, z, h, |src| + 1, len)
    ensures Whole(src, z, 2 * h)
  {
    assert Look(0);
    forall k, l | 0 <= k < l < |z.P|
      ensures Step(src, z.P, z.V, 2 * h, k, l)
    {
      assert Step(src, z.P, z.V, h, k, l);
    }
  }

  /** A run of sorted slots is one whatever the number of bytes. */
  lemma {:induction false} MarkedAnyway(src: seq<byte>, z: Slots, h: nat, d: nat, k: int)
    requires Sized(src, z) && 0 <= k <= |src| && z.I[k] < 0 && Marked(src, z, h, k)
    ensures Marked(src, z, d, k)
  {
  }

  /** Sorted slots are split by any number of bytes. */
  lemma {:induction false} SortedFinished(src: seq<byte>, z: Slots, h: nat, d: nat, a: int, b: int)
    requires Sized(src, z) && 0 <= a <= b <= |src| + 1 && Ranked(src, z.P, z.V, h) && Sorted(src, z, a, b) && Finished(src, z, h, a, |src| + 1)
    ensures Finished(src, z, d, a, b)
  {
    forall k | a <= k < b
      ensures z.V[z.P[k]] < b && Tail(z.P, z.V, k) && Marked(src, z, d, k)
    {
      assert Alone(z.P, z.V, k) && z.I[k] < 0 && Tail(z.P, z.V, k) && Marked(src, z, h, k);
      MarkedAnyway(src, z, h, d, k);
    }
    forall k, l | a <= k < l < b
      ensures z.V[z.P[k]] != z.V[z.P[l]]
    {
      assert Alone(z.P, z.V, k) && Alone(z.P, z.V, l);
    }
  }

  lemma {:induction false} FinishedRest(src: seq<byte>, z: Slots, d: nat, a: int, m: int, b: int)
    requires Sized(src, z) && 0 <= a <= m <= b <= |src| + 1 && Finished(src, z, d, a, b)
    ensures Finished(src, z, d, m, b)
  {
  }

  /** Passes a run of sorted slots. */
  lemma {:induction false} WalkOver(src: seq<byte>, z: Slots, h: nat, i: int, len: int)
    requires Walk(src, z, h, i, len) && i <= |src| && z.I[i] < 0
    ensures Walk(src, z, h, i - z.I[i], len - z.I[i])
  {
    assert Look(0);
    assert Midway(src, z, h, i, len) && Marked(src, z, h, i);
    var j := i - z.I[i];
    forall m | i <= m < j
      ensures Alone(z.P, z.V, m) && z.I[m] < 0
    {
      RunAt(src, z, h, i, m);
    }
    SortedFinished(src, z, h, 2 * h, i, j);
    FinishedJoin(src, z, h, 2 * h, 0, i, j);
    FinishedRest(src, z, h, i, j, |src| + 1);
    assert Midway(src, z, h, j, len - z.I[i]);
  }

  /** Recording a longer run leaves the shorter ones in it true. */
  lemma {:induction false} MarkMarked(src: seq<byte>, z: Slots, y: Slots, d: nat, c: int, n: int, k: int)
    requires Sized(src, z) && 0 <= c && 0 < n && c + n <= |src| + 1 && Sorted(src, z, c, c + n) && y == z.(I := z.I[c := -n])
    requires 0 <= k <= |src| && Marked(src, z, d, k)
    ensures Marked(src, y, d, k)
  {
    forall m | k <= m < k - y.I[k]
      ensures Alone(y.P, y.V, m) && y.I[m] < 0
    {
      assert Alone(z.P, z.V, m);
    }
  }

  lemma {:induction false} MarkFinished(src: seq<byte>, z: Slots, y: Slots, d: nat, c: int, n: int, a: int, b: int)
    requires Sized(src, z) && 0 <= c && 0 < n && c + n <= |src| + 1 && Sorted(src, z, c, c + n) && y == z.(I := z.I[c := -n])
    requires 0 <= a <= b <= |src| + 1 && Finished(src, z, d, a, b)
    ensures Finished(src, y, d, a, b)
  {
    forall k | a <= k < b
      ensures Tail(y.P, y.V, k) && Marked(src, y, d, k)
    {
      assert Tail(z.P, z.V, k) && Marked(src, z, d, k);
      MarkMarked(src, z, y, d, c, n, k);
    }
  }

  /** Records the run of sorted slots before slot i. */
  lemma {:induction false} WalkMark(src: seq<byte>, z: Slots, h: nat, i: int, len: int)
    requires Walk(src, z, h, i, len)
    ensures len > 0 ==> Walk(src, z.(I := z.I[i - len := -len]), h, i, 0)
    ensures Walk(src, z, h, i, 0)
  {
    assert Look(0);
    assert Midway(src, z, h, i, len);
    assert Midway(src, z, h, i, 0);
    if len > 0 {
      var y := z.(I := z.I[i - len := -len]);
      MarkFinished(src, z, y, 2 * h, i - len, len, 0, i);
      MarkFinished(src, z, y, h, i - len, len, i, |src| + 1);
      assert Midway(src, y, h, i, 0);
    }
  }

  /** A slot that holds a suffix starts a group that waits. */
  lemma {:induction false} GroupWaits(src: seq<byte>, z: Slots, h: nat, i: int)
    requires Walk(src, z, h, i, 0) && i <= |src| && z.I[i] >= 0
    ensures z.I[i] + h <= |src|
    ensures var G := z.V[z.I[i]]; i <= G <= |src| && Waiting(src, z, h, i, G + 1, G)
  {
    assert Look(0);
    assert Midway(src, z, h, i, 0) && Marked(src, z, h, i);
    assert z.P[i] == z.I[i];
    var G := z.V[z.P[i]];
    forall k | i <= k < G + 1
      ensures z.V[z.P[k]] == G && z.I[k] == z.P[k] && z.P[k] + h <= |src|
    {
      SameGroup(src, z, h, i, k);
    }
    assert Grouped(src, z, h, i, G + 1, G);
  }

  /** Slots up to the number of a group belong to it. */
  lemma {:induction false} InGroup(src: seq<byte>, z: Slots, h: nat, i: int, k: int)
    requires Sized(src, z) && Ranked(src, z.P, z.V, h) && 0 <= i <= |src| && Tail(z.P, z.V, i) && i <= k <= z.V[z.P[i]]
    ensures z.V[z.P[k]] == z.V[z.P[i]]
  {
    var G := z.V[z.P[i]];
    if i < k {
      assert Step(src, z.P, z.V, h, i, k);
    }
    if k < G {
      assert Step(src, z.P, z.V, h, k, G);
    }
  }

  /** None of them is in a run of sorted slots. */
  lemma {:induction false} SameGroup(src: seq<byte>, z: Slots, h: nat, i: int, k: int)
    requires Sized(src, z) && Ranked(src, z.P, z.V, h) && 0 <= i <= |src| && Finished(src, z, h, i, |src| + 1) && z.I[i] >= 0
    requires i <= k <= z.V[z.P[i]]
    ensures k <= |src| && z.V[z.P[k]] == z.V[z.P[i]] && z.I[k] == z.P[k] && z.P[k] + h <= |src|
  {
    assert Tail(z.P, z.V, i);
    InGroup(src, z, h, i, k);
    assert Marked(src, z, h, k);
    if i < k {
      InGroup(src, z, h, i, k - 1);
    }
    if z.I[k] < 0 {
      RunAt(src, z, h, k, k);
      assert false;
    }
  }

  /** What lies after a group stays as it was while the group is split. */
  lemma {:induction false} LaterStays(src: seq<byte>, y: Slots, z: Slots, h: nat, a: int, b: int, G: int)
    requires Waiting(src, y, h, a, b, G) && Parted(src, y, z, h, a, b) && Finished(src, y, h, b, |src| + 1)
    ensures Finished(src, z, h, b, |src| + 1)
  {
    assert Look(0);
    forall k | b <= k <= |src|
      ensures z.V[z.P[k]] <= |src| && Tail(z.P, z.V, k) && Marked(src, z, h, k)
    {
      assert y.P[k] == z.P[k] && Tail(y.P, y.V, k) && Marked(src, y, h, k);
      var t := y.V[y.P[k]];
      assert y.P[t] == z.P[t];
      assert Kept(src, y, z, a, b);
      MarkedStays(src, y, z, h, h, a, b, G, k);
    }
    forall k, l | b <= k < l <= |src| && z.V[z.P[k]] == z.V[z.P[l]]
      ensures Match(src, z.P[k], src, z.P[l], h)
    {
      assert y.P[k] == z.P[k] && y.P[l] == z.P[l];
    }
  }

  /** Passes a group that has just been split. */
  lemma {:induction false} WalkSplit(src: seq<byte>, y: Slots, z: Slots, h: nat, i: int, b: int, G: int)
    requires Walk(src, y, h, i, 0) && Waiting(src, y, h, i, b, G) && Parted(src, y, z, h, i, b)
    ensures Walk(src, z, h, b, 0)
  {
    assert Look(0);
    assert Midway(src, y, h, i, 0) && Kept(src, y, z, i, b);
    FinishedStays(src, y, z, 2 * h, 0, i, b);
    FinishedJoin(src, z, h, 2 * h, 0, i, b);
    FinishedRest(src, y, h, i, b, |src| + 1);
    LaterStays(src, y, z, h, i, b, G);
    assert Midway(src, z, h, b, 0);
  }

  /** Writes the length of the run of sorted slots that ends before slot i. */
  method MarkRun(I: array<int>, i: nat, len: nat, ghost src: seq<byte>, ghost z: Slots, ghost h: nat) returns (ghost y: Slots)
    requires I[..] == z.I && Walk(src, z, h, i, len)
    modifies I
    ensures y.V == z.V && I[..] == y.I && Walk(src, y, h, i, 0)
    ensures 0 < len == i ==> I.Length > 0 && I[0] == 0 - i
    ensures i < I.Length ==> I[i] == old(I[i])
  {
    WalkMark(src, z, h, i, len);
    y := z;
    if len > 0 {
      I[i - len] := 0 - len;
      y := z.(I := I[..]);
      assert y.I == z.I[i - len := 0 - len];
    }
  }

  /** Splits the group at slot i. */
  method SplitGroup(I: array<int>, V: array<int>, i: nat, h: nat, ghost src: seq<byte>, ghost z: Slots) returns (len: nat, ghost y: Slots)
    requires I != V && V[..] == z.V && I[..] == z.I && Walk(src, z, h, i, 0) && i <= |src| && z.I[i] >= 0
    modifies I, V
    ensures 0 < len && y.V == V[..] && I[..] == y.I && Walk(src, y, h, i + len, 0) && h <= |src|
  {
    GroupWaits(src, z, h, i);
    assert I[i] == z.I[i] && V[I[i]] == z.V[z.I[i]];
    ghost var G := V[I[i]];
    len := V[I[i]] + 1 - i;
    y := Split(I, V, i, len, h, src, z, G);
    WalkSplit(src, z, y, h, i, i + len, G);
  }

  /** One round over all slots. If it meets no group, it marks everything as sorted. */
  method Round(I: array<int>, V: array<int>, h: nat, ghost src: seq<byte>, ghost z: Slots) returns (ghost y: Slots)
    requires I != V && V[..] == z.V && I[..] == z.I && Whole(src, z, h) && I.Length == |src| + 1
    modifies I, V
    ensures y.V == V[..] && I[..] == y.I && Whole(src, y, 2 * h)
    ensures h <= |src| || I[0] == -I.Length
  {
    WalkStart(src, z, h);
    y := z;
    var i, len := 0, 0;
    while i < I.Length
      invariant 0 <= len <= i <= I.Length && y.V == V[..] && I[..] == y.I && Walk(src, y, h, i, len)
      invariant h <= |src| || len == i
    {
      assert y.I[i] == I[i];
      if I[i] < 0 {
        WalkOver(src, y, h, i, len);
        len, i := len - I[i], i - I[i];
      } else {
        y := MarkRun(I, i, len, src, y, h);
        assert y.I[i] == I[i];
        len, y := SplitGroup(I, V, i, h, src, y);
        i := i + len;
        len := 0;
      }
    }
    y := MarkRun(I, i, len, src, y, h);
    WalkEnd(src, y, h, 0);
  }

  // ---- buckets by first byte ----

  /** The slot of the empty suffix is 0, and that of suffix j follows the rank of its first byte. */
  ghost predicate Placed(src: seq<byte>, P: seq<int>) {
    && |P| == |src| + 1 && P[0] == |src|
    && forall j {:trigger Rank(src, j)} :: 0 <= j < |src| ==> 0 <= Rank(src, j) < |src| && P[Rank(src, j) + 1] == j
  }

  /** The number of a suffix is the last slot of its bucket. */
  ghost predicate Numbered(src: seq<byte>, V: seq<int>) {
    && |V| == |src| + 1 && V[|src|] == 0
    && forall j {:trigger V[j]} :: 0 <= j < |src| ==> V[j] == Below(src, src[j] as int + 1)
  }

  lemma {:induction false} SlotBucket(src: seq<byte>, P: seq<int>, k: int)
    requires Placed(src, P) && 1 <= k <= |src|
    ensures 0 <= P[k] < |src| && Rank(src, P[k]) == k - 1
    ensures Below(src, src[P[k]]) < k <= Below(src, src[P[k]] as int + 1) <= |src|
  {
    var t := P[1..];
    assert UndoesRank(src, t) by {
      forall j | 0 <= j < |src|
        ensures 0 <= Rank(src, j) < |src| && t[Rank(src, j)] == j
      {
      }
    }
    UndoneRank(src, t, k - 1);
    assert t[k - 1] == P[k];
    RankInBucket(src, P[k]);
  }

  /** A slot lies in one bucket only. */
  lemma {:induction false} BucketByte(src: seq<byte>, P: seq<int>, k: int, c: int)
    requires Placed(src, P) && 1 <= k <= |src| && Below(src, c) < k <= Below(src, c + 1)
    ensures 0 <= P[k] < |src| && src[P[k]] == c
  {
    SlotBucket(src, P, k);
    var d := src[P[k]] as int;
    if d < c {
      BelowMono(src, d + 1, c);
    } else if c < d {
      BelowMono(src, c + 1, d);
    }
  }

  lemma {:induction false} PlacedPerm(src: seq<byte>, P: seq<int>)
    requires Placed(src, P)
    ensures IsPerm(P, |src| + 1)
  {
    forall k | 0 <= k < |P|
      ensures 0 <= P[k] <= |src| && (k > 0 ==> P[k] < |src| && Rank(src, P[k]) == k - 1)
    {
      if k > 0 {
        SlotBucket(src, P, k);
      }
    }
    DistinctPerm(P, |src| + 1);
  }

  lemma {:induction false} BucketStep(src: seq<byte>, P: seq<int>, V: seq<int>, k: int, l: int)
    requires Placed(src, P) && Numbered(src, V) && Within(P, |V|) && 0 <= k < l <= |src|
    ensures Step(src, P, V, 1, k, l)
  {
    SlotBucket(src, P, l);
    var y := P[l];
    if k == 0 {
      assert SmallerAt(src, P[0], src, y, 0);
    } else {
      SlotBucket(src, P, k);
      var x := P[k];
      RankOrder(src, x, y);
      if src[x] == src[y] {
        assert src[x..x + 1] == src[y..y + 1];
      } else {
        BelowMono(src, src[x] as int + 1, src[y] as int);
        assert SmallerAt(src, x, src, y, 0);
      }
    }
  }

  lemma {:induction false} BucketsRanked(src: seq<byte>, P: seq<int>, V: seq<int>)
    requires Placed(src, P) && Numbered(src, V)
    ensures Ranked(src, P, V, 1)
  {
    PlacedPerm(src, P);
    forall k | 0 <= k < |P|
      ensures k <= V[P[k]] <= |src|
    {
      if k > 0 {
        SlotBucket(src, P, k);
      }
    }
    forall k, l | 0 <= k < l < |P|
      ensures Step(src, P, V, 1, k, l)
    {
      BucketStep(src, P, V, k, l);
    }
  }

  lemma {:induction false} BucketTail(src: seq<byte>, P: seq<int>, V: seq<int>, k: int)
    requires Placed(src, P) && Numbered(src, V) && Within(P, |V|) && 0 <= k <= |src|
    ensures Tail(P, V, k)
  {
    if k > 0 {
      SlotBucket(src, P, k);
      var c := src[P[k]] as int;
      BucketByte(src, P, Below(src, c + 1), c);
    }
  }

  /** A bucket of one is a group of one. */
  lemma {:induction false} BucketAlone(src: seq<byte>, P: seq<int>, V: seq<int>, c: int)
    requires Placed(src, P) && Numbered(src, V) && Within(P, |V|) && 0 <= c < 256 && Below(src, c + 1) == Below(src, c) + 1
    ensures Below(src, c + 1) <= |src| && Alone(P, V, Below(src, c + 1))
  {
    var k := Below(src, c + 1);
    BelowMono(src, c + 1, 256);
    BucketByte(src, P, k, c);
    if k > 1 {
      SlotBucket(src, P, k - 1);
      var d := src[P[k - 1]] as int;
      if c <= d {
        BelowMono(src, c, d);
      }
      BelowMono(src, d + 1, c);
    }
  }

  /** I holds the suffixes, except where a bucket of one has been marked. */
  ghost predicate BucketsMarked(src: seq<byte>, z: Slots) {
    && Sized(src, z)
    && forall k {:trigger z.I[k]} :: 0 <= k <= |src| ==> (z.I[k] == z.P[k] && k > 0) || (z.I[k] == -1 && Alone(z.P, z.V, k))
  }

  lemma {:induction false} BucketsWhole(src: seq<byte>, z: Slots)
    requires BucketsMarked(src, z) && Placed(src, z.P) && Numbered(src, z.V)
    ensures Whole(src, z, 1)
  {
    BucketsRanked(src, z.P, z.V);
    forall k | 0 <= k <= |src|
      ensures Tail(z.P, z.V, k) && Marked(src, z, 1, k)
    {
      BucketTail(src, z.P, z.V, k);
      assert z.I[k] == z.I[k];
      if k > 0 {
        SlotBucket(src, z.P, k);
      }
    }
    forall k, l | 0 <= k < l <= |src| && z.V[z.P[k]] == z.V[z.P[l]]
      ensures Match(src, z.P[k], src, z.P[l], 1)
    {
      assert Step(src, z.P, z.V, 1, k, l);
    }
    assert Finished(src, z, 1, 0, |src| + 1);
  }

  /** How many bytes lie below each byte. */
  method CountBelow(src: seq<byte>) returns (buckets: array<int>)
    ensures fresh(buckets) && buckets.Length == 256 && forall c {:trigger buckets[c]} :: 0 <= c < 256 ==> buckets[c] == Below(src, c)
  {
    buckets := new int[256](_ => 0);
    for i := 0 to |src|
      invariant forall c {:trigger buckets[c]} :: 0 <= c < 256 ==> buckets[c] == Count(src[..i], c)
    {
      forall c | 0 <= c < 256
        ensures Count(src[..i + 1], c) == Count(src[..i], c) + if src[i] == c then 1 else 0
      {
        CountStep(src, i, c);
      }
      buckets[src[i]] := buckets[src[i]] + 1;
    }
    assert src[..|src|] == src;
    BelowEnds(src);
    BelowNext(src, 0);
    for i := 1 to 256
      invariant forall c {:trigger buckets[c]} :: 0 <= c < 256 ==> buckets[c] == if c < i then Below(src, c + 1) else Count(src, c)
    {
      BelowNext(src, i);
      assert buckets[i - 1] == Below(src, i);
      buckets[i] := buckets[i] + buckets[i - 1];
    }
    for i := 255 downto 0
      invariant forall c {:trigger buckets[c]} :: 0 <= c < 256 ==> buckets[c] == if c <= i then Below(src, c + 1) else Below(src, c)
    {
      assert buckets[i] == Below(src, i + 1);
      buckets[i + 1] := buckets[i];
    }
    buckets[0] := 0;
  }

  /** Puts every suffix in its bucket; afterwards each entry is the last slot of its bucket. */
  method Place(I: array<int>, buckets: array<int>, src: seq<byte>)
    requires I != buckets && I.Length == |src| + 1 && buckets.Length == 256
    requires forall c {:trigger buckets[c]} :: 0 <= c < 256 ==> buckets[c] == Below(src, c)
    modifies I, buckets
    ensures Placed(src, I[..])
    ensures forall c {:trigger buckets[c]} :: 0 <= c < 256 ==> buckets[c] == Below(src, c + 1)
  {
    RanksInRange(src);
    for i := 0 to |src|
      invariant forall c {:trigger buckets[c]} :: 0 <= c < 256 ==> buckets[c] == Below(src, c) + Count(src[..i], c)
      invariant forall j {:trigger Rank(src, j)} :: 0 <= j < i ==> I[Rank(src, j) + 1] == j
    {
      forall j | 0 <= j < i
        ensures Rank(src, j) != Rank(src, i)
      {
        RankOrder(src, i, j);
        RankOrder(src, j, i);
      }
      forall c | 0 <= c < 256
        ensures Count(src[..i + 1], c) == Count(src[..i], c) + if src[i] == c then 1 else 0
      {
        CountStep(src, i, c);
      }
      buckets[src[i]] := buckets[src[i]] + 1;
      assert buckets[src[i]] == Rank(src, i) + 1;
      I[buckets[src[i]]] := i;
    }
    I[0] := |src|;
    assert src[..|src|] == src;
    forall c | 0 <= c < 256
      ensures buckets[c] == Below(src, c + 1)
    {
      BelowNext(src, c);
    }
  }

  method Number(V: array<int>, buckets: array<int>, src: seq<byte>)
    requires V != buckets && V.Length == |src| + 1 && buckets.Length == 256
    requires forall c {:trigger buckets[c]} :: 0 <= c < 256 ==> buckets[c] == Below(src, c + 1)
    modifies V
    ensures Numbered(src, V[..])
  {
    for i := 0 to |src|
      invariant forall j {:trigger V[j]} :: 0 <= j < i ==> V[j] == Below(src, src[j] as int + 1)
    {
      V[i] := buckets[src[i]];
    }
    V[|src|] := 0;
  }

  /** Marks the buckets of one, except that of byte 0, and the slot of the empty suffix. */
  method MarkBuckets(I: array<int>, buckets: array<int>, src: seq<byte>, ghost z: Slots)
    requires I != buckets && I[..] == z.P && Sized(src, z) && Placed(src, z.P) && Numbered(src, z.V) && buckets.Length == 256
    requires forall c {:trigger buckets[c]} :: 0 <= c < 256 ==> buckets[c] == Below(src, c + 1)
    modifies I
    ensures BucketsMarked(src, z.(I := I[..]))
  {
    for i := 1 to 256
      invariant forall k {:trigger I[k]} :: 0 <= k <= |src| ==> I[k] == z.P[k] || (I[k] == -1 && Alone(z.P, z.V, k))
    {
      if buckets[i] == buckets[i - 1] + 1 {
        assert buckets[i] == Below(src, i + 1) && buckets[i - 1] == Below(src, i);
        BucketAlone(src, z.P, z.V, i);
        I[buckets[i]] := -1;
      }
    }
    I[0] := -1;
  }

  method FirstRanking(I: array<int>, V: array<int>, src: seq<byte>) returns (ghost z: Slots)
    requires I != V && I.Length == V.Length == |src| + 1
    modifies I, V
    ensures V[..] == z.V && I[..] == z.I && Whole(src, z, 1) && I[0] == -1
  {
    var buckets := CountBelow(src);
    Place(I, buckets, src);
    ghost var P := I[..];
    Number(V, buckets, src);
    assert I[..] == P;
    PlacedPerm(src, P);
    z := Slots(P, V[..], P);
    MarkBuckets(I, buckets, src, z);
    z := z.(I := I[..]);
    BucketsWhole(src, z);
    assert z.I[0] == I[0];
  }

  // ---- the whole sort ----

  /** When everything is marked as sorted, V is the inverse of the order. */
  lemma {:induction false} AllSorted(src: seq<byte>, z: Slots, h: nat)
    requires Whole(src, z, h) && z.I[0] == -(|src| + 1)
    ensures SuffixArray(src, z.P) && |z.V| == |src| + 1 && forall k {:trigger z.P[k]} :: 0 <= k <= |src| ==> z.V[z.P[k]] == k
  {
    assert Look(0);
    assert Marked(src, z, h, 0);
    forall k | 0 <= k <= |src|
      ensures z.V[z.P[k]] == k
    {
      RunAt(src, z, h, 0, k);
    }
    forall k, l | 0 <= k < l < |z.P|
      ensures Smaller(src, z.P[k], src, z.P[l])
    {
      assert Step(src, z.P, z.V, h, k, l);
      assert z.P[k] == z.P[k] && z.P[l] == z.P[l];
    }
  }

  /** Turns the numbers of the suffixes into the list of suffixes. */
  method Invert(I: array<int>, V: array<int>, ghost P: seq<int>)
    requires I != V && I.Length == V.Length && IsPerm(P, V.Length) && forall k {:trigger P[k]} :: 0 <= k < |P| ==> V[P[k]] == k
    modifies I
    ensures I[..] == P
  {
    forall i | 0 <= i < V.Length
      ensures 0 <= V[i] < V.Length && P[V[i]] == i
    {
      var s := PermOnto(P, V.Length, i);
      assert P[s] == i;
    }
    for i := 0 to V.Length
      invariant forall k {:trigger P[k]} :: 0 <= k < |P| && P[k] < i ==> I[k] == P[k]
    {
      assert P[V[i]] == i;
      I[V[i]] := i;
    }
  }

  /** qsufsort: for every file, the array ends up holding its suffixes in order. */
  method Sort(I: array<int>, V: array<int>, src: seq<byte>)
    requires I != V && I.Length == V.Length == |src| + 1
    modifies I, V
    ensures SuffixArray(src, I[..])
  {
    ghost var z := FirstRanking(I, V, src);
    var h := 1;
    while I[0] != -(|src| + 1)
      invariant 1 <= h && V[..] == z.V && I[..] == z.I && Whole(src, z, h)
      invariant I[0] == -(|src| + 1) || h <= 2 * |src|
      decreases if I[0] == -(|src| + 1) then 0 else 2 * |src| + 1 - h
    {
      z := Round(I, V, h, src, z);
      h := h + h;
    }
    assert z.I[0] == I[0];
    AllSorted(src, z, h);
    Invert(I, V, z.P);
  }
}
