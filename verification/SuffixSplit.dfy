/** Splitting one group of suffixes by the groups h bytes on: three-way partition and recursion. */
module SuffixSplit {
  import opened Bytes
  import opened Closing
  import opened Matches
  import opened Permutations
  import opened SuffixGroups

  // ---- how many keys lie below, at and above the pivot ----

  ghost function Signs(z: Slots, h: nat, a: int, b: int, x: int): (s: seq<int>)
    requires a <= b
    ensures |s| == b - a && forall i {:trigger s[i]} :: 0 <= i < b - a ==> s[i] == Sign(Key(z, h, a + i) - x)
  {
    seq(b - a, i requires 0 <= i < b - a => Sign(Key(z, h, a + i) - x))
  }

  ghost function Often(s: seq<int>, c: int): nat {
    multiset(s)[c]
  }

  lemma {:induction false} OftenSnoc(s: seq<int>, i: nat, c: int)
    requires i < |s|
    ensures Often(s[..i + 1], c) == Often(s[..i], c) + if s[i] == c then 1 else 0
  {
    assert s[..i + 1] == s[..i] + [s[i]];
  }

  lemma {:induction false} OftenJoin(s: seq<int>, t: seq<int>, c: int)
    ensures Often(s + t, c) == Often(s, c) + Often(t, c)
  {
  }

  lemma {:induction false} OftenRun(s: seq<int>, c: int)
    requires forall i {:trigger s[i]} :: 0 <= i < |s| ==> s[i] == c
    ensures Often(s, c) == |s|
  {
    if s != [] {
      var n := |s| - 1;
      OftenRun(s[..n], c);
      OftenSnoc(s, n, c);
      assert s[..n + 1] == s;
    }
  }

  /** A run of c, and one more c elsewhere. */
  lemma {:induction false} OneMore(s: seq<int>, c: int, p: nat, q: nat, i: nat)
    requires p <= q <= |s| && i < |s| && !(p <= i < q) && s[i] == c
    requires forall k {:trigger s[k]} :: p <= k < q ==> s[k] == c
    ensures Often(s, c) >= q - p + 1
  {
    OftenRun(s[p..q], c);
    OftenJoin(s[..p] + s[p..q], s[q..], c);
    OftenJoin(s[..p], s[p..q], c);
    assert s == s[..p] + s[p..q] + s[q..];
    if i < p {
      assert s[i] in s[..p];
    } else {
      assert s[q..][i - q] == s[i];
      assert s[i] in s[q..];
    }
  }

  lemma {:induction false} OftenAll(s: seq<int>)
    requires forall i {:trigger s[i]} :: 0 <= i < |s| ==> -1 <= s[i] <= 1
    ensures Often(s, -1) + Often(s, 0) + Often(s, 1) == |s|
  {
    if s != [] {
      var n := |s| - 1;
      OftenAll(s[..n]);
      OftenSnoc(s, n, -1);
      OftenSnoc(s, n, 0);
      OftenSnoc(s, n, 1);
      assert s[..n + 1] == s;
    }
  }

  /** The whole group holds jj - a keys below the pivot and kk - jj at it. */
  ghost predicate Tallied(z: Slots, h: nat, a: int, b: int, x: int, jj: int, kk: int) {
    a <= jj <= kk <= b && Often(Signs(z, h, a, b, x), -1) == jj - a && Often(Signs(z, h, a, b, x), 0) == kk - jj
  }

  /** How many keys compare with the pivot as c says. */
  ghost function Room(a: int, b: int, jj: int, kk: int, c: int): int {
    if c < 0 then jj - a else if c == 0 then kk - jj else b - kk
  }

  /** There is room for one more key of its kind. */
  lemma {:induction false} RoomLeft(z: Slots, h: nat, a: int, b: int, x: int, jj: int, kk: int, c: int, p: int, q: int, i: int)
    requires Tallied(z, h, a, b, x, jj, kk) && a <= p <= q <= b && a <= i < b && !(p <= i < q) && -1 <= c <= 1
    requires Keys(z, h, p, q, x, c) && Sign(Key(z, h, i) - x) == c
    ensures q - p < Room(a, b, jj, kk, c)
  {
    var s := Signs(z, h, a, b, x);
    OftenAll(s);
    forall k | p - a <= k < q - a
      ensures s[k] == c
    {
      assert Sign(Key(z, h, a + k) - x) == c;
    }
    OneMore(s, c, p - a, q - a, i - a);
  }

  lemma {:induction false} SwapTallied(z: Slots, y: Slots, h: nat, a: int, b: int, x: int, jj: int, kk: int, i: int, j: int)
    requires Tallied(z, h, a, b, x, jj, kk) && a <= i < b && a <= j < b
    requires forall k {:trigger Key(y, h, k)} :: Key(y, h, k) == Key(z, h, Other(i, j, k))
    ensures Tallied(y, h, a, b, x, jj, kk)
  {
    var s, t := Signs(z, h, a, b, x), Signs(y, h, a, b, x);
    var u := s[i - a := s[j - a]][j - a := s[i - a]];
    forall k | 0 <= k < |t|
      ensures t[k] == u[k]
    {
      assert Key(y, h, a + k) == Key(z, h, Other(i, j, a + k));
    }
    assert t == u;
    assert multiset(u) == multiset(s);
  }

  /** Among the slots from a to i, jj keys lie below the pivot and kk at it. */
  ghost predicate TalliedTo(z: Slots, h: nat, a: int, b: int, x: int, i: int, jj: int, kk: int) {
    a <= i <= b && Often(Signs(z, h, a, b, x)[..i - a], -1) == jj && Often(Signs(z, h, a, b, x)[..i - a], 0) == kk
  }

  lemma {:induction false} TallyOne(z: Slots, h: nat, a: int, b: int, x: int, i: int, jj: int, kk: int)
    requires TalliedTo(z, h, a, b, x, i, jj, kk) && i < b
    ensures var v := Key(z, h, i); TalliedTo(z, h, a, b, x, i + 1, if v < x then jj + 1 else jj, if v == x then kk + 1 else kk)
  {
    var s := Signs(z, h, a, b, x);
    OftenSnoc(s, i - a, -1);
    OftenSnoc(s, i - a, 0);
  }

  lemma {:induction false} TallyAll(z: Slots, h: nat, a: int, b: int, x: int, jj: int, kk: int)
    requires TalliedTo(z, h, a, b, x, b, jj, kk)
    ensures Tallied(z, h, a, b, x, a + jj, a + jj + kk)
  {
    var s := Signs(z, h, a, b, x);
    assert s[..b - a] == s;
    OftenAll(s);
  }

  /** Counts the keys below the pivot and at it. */
  method CountKeys(I: array<int>, V: array<int>, start: nat, end: nat, h: nat, x: int, ghost src: seq<byte>, ghost z: Slots, ghost G: int)
    returns (jj: nat, kk: nat)
    requires V[..] == z.V && I[..] == z.I && Waiting(src, z, h, start, end, G)
    ensures Tallied(z, h, start, end, x, jj, kk)
  {
    jj, kk := 0, 0;
    var i := start;
    assert Signs(z, h, start, end, x)[..0] == [];
    while i < end
      invariant start <= i <= end && TalliedTo(z, h, start, end, x, i, jj, kk)
    {
      var v := KeyAt(I, V, i, h, src, z, start, end, G);
      TallyOne(z, h, start, end, x, i, jj, kk);
      if v < x {
        jj := jj + 1;
      }
      if v == x {
        kk := kk + 1;
      }
      i := i + 1;
    }
    TallyAll(z, h, start, end, x, jj, kk);
    jj := jj + start;
    kk := kk + jj;
  }

  // ---- the partition ----

  /** The three parts as far as they are filled. */
  ghost predicate Filled(z: Slots, h: nat, a: int, b: int, x: int, jj: int, kk: int, i: int, j: int, k: int) {
    && Tallied(z, h, a, b, x, jj, kk) && a <= i <= jj && 0 <= j <= kk - jj && 0 <= k <= b - kk
    && Keys(z, h, a, i, x, -1) && Keys(z, h, jj, jj + j, x, 0) && Keys(z, h, kk, kk + k, x, 1)
  }

  /** Exchanging slots m and n outside a..b leaves the keys there, and brings the key of m to n. */
  lemma {:induction false} KeysSwap(z: Slots, y: Slots, h: nat, a: int, b: int, x: int, c: int, m: int, n: int)
    requires Keys(z, h, a, b, x, c) && !(a <= m < b) && !(a <= n < b)
    requires forall l {:trigger Key(y, h, l)} :: Key(y, h, l) == Key(z, h, Other(m, n, l))
    ensures Keys(y, h, a, b, x, c)
    ensures n == b && Sign(Key(z, h, m) - x) == c ==> Keys(y, h, a, b + 1, x, c)
  {
    forall l | a <= l < b
      ensures Sign(Key(y, h, l) - x) == c
    {
      assert Key(y, h, l) == Key(z, h, l);
    }
    assert Key(y, h, n) == Key(z, h, m);
  }

  lemma {:induction false} FilledSwap(z: Slots, y: Slots, h: nat, a: int, b: int, x: int, jj: int, kk: int, i: int, j: int, k: int, m: int, c: int)
    requires Filled(z, h, a, b, x, jj, kk, i, j, k) && a <= m < b && Sign(Key(z, h, m) - x) == c && 0 <= c
    requires if c == 0 then i <= m < jj else i <= m < jj || (i == jj && jj + j <= m < kk)
    requires var n := if c == 0 then jj + j else kk + k;
      n < b && forall l {:trigger Key(y, h, l)} :: Key(y, h, l) == Key(z, h, Other(m, n, l))
    requires if c == 0 then j < kk - jj else k < b - kk
    ensures Filled(y, h, a, b, x, jj, kk, i, if c == 0 then j + 1 else j, if c == 0 then k else k + 1)
  {
    var n := if c == 0 then jj + j else kk + k;
    SwapTallied(z, y, h, a, b, x, jj, kk, m, n);
    KeysSwap(z, y, h, a, i, x, -1, m, n);
    KeysSwap(z, y, h, jj, jj + j, x, 0, m, n);
    KeysSwap(z, y, h, kk, kk + k, x, 1, m, n);
  }

  /** Puts the suffix in slot m with those at or above the pivot. */
  method Send(I: array<int>, m: nat, above: bool, jj: nat, kk: nat, j: nat, k: nat,
              ghost src: seq<byte>, ghost z: Slots, ghost h: nat, ghost a: nat, ghost b: nat, ghost x: int, ghost i: nat, ghost G: int)
    returns (ghost y: Slots)
    requires I[..] == z.I && Waiting(src, z, h, a, b, G) && Filled(z, h, a, b, x, jj, kk, i, j, k)
    requires if above then i <= m < jj || (i == jj && jj + j <= m < kk) else i <= m < jj
    requires Sign(Key(z, h, m) - x) == if above then 1 else 0
    modifies I
    ensures y.V == z.V && I[..] == y.I && Waiting(src, y, h, a, b, G) && Kept(src, z, y, a, b)
    ensures Filled(y, h, a, b, x, jj, kk, i, if above then j else j + 1, if above then k + 1 else k)
  {
    if above {
      RoomLeft(z, h, a, b, x, jj, kk, 1, kk, kk + k, m);
      y := Exchange(I, m, kk + k, src, z, h, a, b, G);
      FilledSwap(z, y, h, a, b, x, jj, kk, i, j, k, m, 1);
    } else {
      RoomLeft(z, h, a, b, x, jj, kk, 0, jj, jj + j, m);
      y := Exchange(I, m, jj + j, src, z, h, a, b, G);
      FilledSwap(z, y, h, a, b, x, jj, kk, i, j, k, m, 0);
    }
  }

  /** Sends one more slot after others have moved. */
  method SendMore(I: array<int>, m: nat, above: bool, jj: nat, kk: nat, j: nat, k: nat,
                  ghost src: seq<byte>, ghost z: Slots, ghost w: Slots, ghost h: nat, ghost a: nat, ghost b: nat, ghost x: int, ghost i: nat, ghost G: int)
    returns (ghost y: Slots)
    requires Sized(src, z) && Sized(src, w) && w.V == z.V && Kept(src, z, w, a, b)
    requires I[..] == w.I && Waiting(src, w, h, a, b, G) && Filled(w, h, a, b, x, jj, kk, i, j, k)
    requires if above then i <= m < jj || (i == jj && jj + j <= m < kk) else i <= m < jj
    requires Sign(Key(w, h, m) - x) == if above then 1 else 0
    modifies I
    ensures y.V == z.V && I[..] == y.I && Waiting(src, y, h, a, b, G) && Kept(src, z, y, a, b)
    ensures Filled(y, h, a, b, x, jj, kk, i, if above then j else j + 1, if above then k + 1 else k)
  {
    y := Send(I, m, above, jj, kk, j, k, src, w, h, a, b, x, i, G);
    KeptTrans(src, z, w, y, a, b, a, b);
  }

  /** First loop: nothing but smaller keys in front. */
  method FillLow(I: array<int>, V: array<int>, start: nat, jj: nat, kk: nat, h: nat, x: int,
                 ghost src: seq<byte>, ghost z: Slots, ghost b: nat, ghost G: int)
    returns (j: nat, k: nat, ghost y: Slots)
    requires I != V && V[..] == z.V && I[..] == z.I && Waiting(src, z, h, start, b, G) && Tallied(z, h, start, b, x, jj, kk)
    modifies I
    ensures y.V == z.V && I[..] == y.I && Waiting(src, y, h, start, b, G) && Kept(src, z, y, start, b)
    ensures Filled(y, h, start, b, x, jj, kk, jj, j, k)
  {
    y := z;
    KeptSame(src, z, start, b);
    var i := start;
    j, k := 0, 0;
    while i < jj
      invariant y.V == z.V && I[..] == y.I && Waiting(src, y, h, start, b, G) && Kept(src, z, y, start, b)
      invariant Filled(y, h, start, b, x, jj, kk, i, j, k)
      decreases b - i - j - k
    {
      var v := KeyAt(I, V, i, h, src, y, start, b, G);
      if v < x {
        i := i + 1;
      } else {
        y := SendMore(I, i, v != x, jj, kk, j, k, src, z, y, h, start, b, x, i, G);
        if v == x {
          j := j + 1;
        } else {
          k := k + 1;
        }
      }
    }
  }

  /** All keys below the pivot have been found. */
  lemma {:induction false} NotBelow(z: Slots, h: nat, a: int, b: int, x: int, jj: int, kk: int, j: int, k: int)
    requires Filled(z, h, a, b, x, jj, kk, jj, j, k) && jj + j < kk
    ensures x <= Key(z, h, jj + j)
  {
    if Key(z, h, jj + j) < x {
      RoomLeft(z, h, a, b, x, jj, kk, -1, a, jj, jj + j);
    }
  }

  /** Leaves slot jj + j where it is, or sends it up. */
  method MiddleStep(I: array<int>, V: array<int>, j0: nat, k0: nat, jj: nat, kk: nat, h: nat, x: int,
                    ghost src: seq<byte>, ghost z: Slots, ghost w: Slots, ghost a: nat, ghost b: nat, ghost G: int)
    returns (j: nat, k: nat, ghost y: Slots)
    requires I != V && V[..] == w.V && I[..] == w.I && Sized(src, z) && Sized(src, w) && w.V == z.V && Kept(src, z, w, a, b)
    requires Waiting(src, w, h, a, b, G) && Filled(w, h, a, b, x, jj, kk, jj, j0, k0) && jj + j0 < kk
    modifies I
    ensures y.V == z.V && I[..] == y.I && Waiting(src, y, h, a, b, G) && Kept(src, z, y, a, b)
    ensures Filled(y, h, a, b, x, jj, kk, jj, j, k) && j0 <= j && k0 <= k && j + k == j0 + k0 + 1
  {
    j, k, y := j0, k0, w;
    var v := KeyAt(I, V, jj + j, h, src, w, a, b, G);
    if v == x {
      j := j + 1;
    } else {
      NotBelow(w, h, a, b, x, jj, kk, j, k);
      y := SendMore(I, jj + j, true, jj, kk, j, k, src, z, w, h, a, b, x, jj, G);
      k := k + 1;
    }
  }

  /** Second loop: the keys at the pivot in the middle. */
  method FillMiddle(I: array<int>, V: array<int>, j0: nat, k0: nat, jj: nat, kk: nat, h: nat, x: int,
                    ghost src: seq<byte>, ghost z: Slots, ghost a: nat, ghost b: nat, ghost G: int)
    returns (k: nat, ghost y: Slots)
    requires I != V && V[..] == z.V && I[..] == z.I && Waiting(src, z, h, a, b, G) && Filled(z, h, a, b, x, jj, kk, jj, j0, k0)
    modifies I
    ensures y.V == z.V && I[..] == y.I && Waiting(src, y, h, a, b, G) && Kept(src, z, y, a, b)
    ensures Filled(y, h, a, b, x, jj, kk, jj, kk - jj, k)
  {
    y := z;
    KeptSame(src, z, a, b);
    var j := j0;
    k := k0;
    while jj + j < kk
      invariant y.V == z.V && I[..] == y.I && Waiting(src, y, h, a, b, G) && Kept(src, z, y, a, b)
      invariant Filled(y, h, a, b, x, jj, kk, jj, j, k)
      decreases b - j - k
    {
      j, k, y := MiddleStep(I, V, j, k, jj, kk, h, x, src, z, y, a, b, G);
    }
  }

  lemma {:induction false} RestAbove(z: Slots, h: nat, a: int, b: int, x: int, jj: int, kk: int)
    requires Tallied(z, h, a, b, x, jj, kk) && Keys(z, h, a, jj, x, -1) && Keys(z, h, jj, kk, x, 0)
    ensures Keys(z, h, kk, b, x, 1)
  {
    forall m | kk <= m < b
      ensures Sign(Key(z, h, m) - x) == 1
    {
      var c := Sign(Key(z, h, m) - x);
      if c == -1 {
        RoomLeft(z, h, a, b, x, jj, kk, -1, a, jj, m);
      } else if c == 0 {
        RoomLeft(z, h, a, b, x, jj, kk, 0, jj, kk, m);
      }
    }
  }

  /** The three parts in the order of their suffixes. */
  ghost predicate Cut(src: seq<byte>, P: seq<int>, h: nat, a: int, jj: int, kk: int, b: int) {
    && 0 <= a <= jj < kk <= b <= |P| && Apart(src, P, h, jj, kk, b)
    && forall u {:trigger Look(u)} :: Look(u) ==> AllSmaller(src, P, a, jj, jj, b)
  }

  /** Fills the three parts, whose sizes are known. */
  method Fill(I: array<int>, V: array<int>, start: nat, jj: nat, kk: nat, h: nat, x: int,
              ghost src: seq<byte>, ghost z: Slots, ghost b: nat, ghost G: int)
    returns (ghost y: Slots)
    requires I != V && V[..] == z.V && I[..] == z.I && Waiting(src, z, h, start, b, G) && Tallied(z, h, start, b, x, jj, kk) && jj < kk
    modifies I
    ensures y.V == z.V && I[..] == y.I && Waiting(src, y, h, start, b, G) && Kept(src, z, y, start, b)
    ensures Cut(src, y.P, h, start, jj, kk, b)
  {
    var j, k;
    ghost var was;
    j, k, was := FillLow(I, V, start, jj, kk, h, x, src, z, b, G);
    k, y := FillMiddle(I, V, j, k, jj, kk, h, x, src, was, start, b, G);
    KeptTrans(src, z, was, y, start, b, start, b);
    RestAbove(y, h, start, b, x, jj, kk);
    KeysCut(src, y, h, start, b, G, x, jj, kk);
  }

  method Partition(I: array<int>, V: array<int>, start: nat, len: nat, h: nat, ghost src: seq<byte>, ghost z: Slots, ghost G: int)
    returns (jj: nat, kk: nat, ghost y: Slots)
    requires I != V && V[..] == z.V && I[..] == z.I && Waiting(src, z, h, start, start + len, G) && len > 0
    modifies I
    ensures y.V == z.V && I[..] == y.I && Waiting(src, y, h, start, start + len, G) && Kept(src, z, y, start, start + len)
    ensures Cut(src, y.P, h, start, jj, kk, start + len)
  {
    jj, kk, y := PartitionAt(I, V, start, start + len / 2, start + len, h, src, z, G);
  }

  /** The partition around the key of slot mid. */
  method PartitionAt(I: array<int>, V: array<int>, start: nat, mid: nat, end: nat, h: nat, ghost src: seq<byte>, ghost z: Slots, ghost G: int)
    returns (jj: nat, kk: nat, ghost y: Slots)
    requires I != V && V[..] == z.V && I[..] == z.I && Waiting(src, z, h, start, end, G) && start <= mid < end
    modifies I
    ensures y.V == z.V && I[..] == y.I && Waiting(src, y, h, start, end, G) && Kept(src, z, y, start, end)
    ensures Cut(src, y.P, h, start, jj, kk, end)
  {
    var x := KeyAt(I, V, mid, h, src, z, start, end, G);
    jj, kk := CountKeys(I, V, start, end, h, x, src, z, G);
    PivotCounts(z, h, start, end, x, jj, kk, mid);
    y := Fill(I, V, start, jj, kk, h, x, src, z, end, G);
  }

  lemma {:induction false} PivotCounts(z: Slots, h: nat, a: int, b: int, x: int, jj: int, kk: int, m: int)
    requires Tallied(z, h, a, b, x, jj, kk) && a <= m < b && Key(z, h, m) == x
    ensures jj < kk
  {
    RoomLeft(z, h, a, b, x, jj, kk, 0, a, a, m);
  }

  lemma {:induction false} KeysCut(src: seq<byte>, z: Slots, h: nat, a: int, b: int, G: int, x: int, jj: int, kk: int)
    requires Waiting(src, z, h, a, b, G) && a <= jj < kk <= b
    requires Keys(z, h, a, jj, x, -1) && Keys(z, h, jj, kk, x, 0) && Keys(z, h, kk, b, x, 1)
    ensures Cut(src, z.P, h, a, jj, kk, b)
  {
    KeysSmaller(src, z, h, a, b, G, a, jj, jj, kk, x, -1, 0);
    KeysSmaller(src, z, h, a, b, G, a, jj, kk, b, x, -1, 1);
    KeysSmaller(src, z, h, a, b, G, jj, kk, kk, b, x, 0, 1);
    KeysMatch(src, z, h, a, b, G, jj, kk, x);
  }

  // ---- the recursion ----

  /** The first part waits like the whole group did. */
  lemma {:induction false} LowWaits(src: seq<byte>, z: Slots, h: nat, a: int, jj: int, kk: int, b: int, G: int)
    requires Waiting(src, z, h, a, b, G) && Cut(src, z.P, h, a, jj, kk, b)
    ensures Waiting(src, z, h, a, jj, G)
  {
    assert Look(0);
    forall k, l | a <= k < jj <= l < |z.P| && z.V[z.P[l]] == G
      ensures Smaller(src, z.P[k], src, z.P[l])
    {
    }
    assert Grouped(src, z, h, a, jj, G);
  }

  /** Once the first part is split, the rest still waits. */
  lemma {:induction false} RestWaits(src: seq<byte>, z: Slots, y: Slots, h: nat, a: int, jj: int, b: int, G: int)
    requires Waiting(src, z, h, a, b, G) && a <= jj <= b && Parted(src, z, y, h, a, jj)
    ensures Waiting(src, y, h, jj, b, G)
  {
    assert Look(0);
    forall k | 0 <= k < jj
      ensures y.V[y.P[k]] < jj
    {
      assert z.P[k] == z.P[k];
    }
    forall k, l | jj <= k < b <= l < |y.P| && y.V[y.P[l]] == G
      ensures Smaller(src, y.P[k], src, y.P[l])
    {
      assert z.P[k] == y.P[k] && z.P[l] == y.P[l];
    }
    assert Grouped(src, y, h, jj, b, G);
  }

  lemma {:induction false} MiddleApart(src: seq<byte>, z: Slots, y: Slots, h: nat, a: int, jj: int, kk: int, b: int)
    requires Cut(src, z.P, h, a, jj, kk, b) && Parted(src, z, y, h, a, jj)
    ensures Apart(src, y.P, h, jj, kk, b)
  {
    assert Look(0);
    forall k, l | jj <= k < kk && jj <= l < b && k != l
      ensures kk <= l ==> Smaller(src, y.P[k], src, y.P[l])
      ensures l < kk ==> Match(src, y.P[k], src, y.P[l], 2 * h)
    {
      assert z.P[k] == y.P[k] && z.P[l] == y.P[l];
    }
  }

  lemma {:induction false} NothingParted(src: seq<byte>, z: Slots, h: nat, a: int, b: int, G: int)
    requires Waiting(src, z, h, a, b, G)
    ensures Parted(src, z, z, h, a, a)
  {
    assert Look(0);
  }

  lemma {:induction false} LowDone(src: seq<byte>, z: Slots, y: Slots, w: Slots, h: nat, a: int, jj: int, b: int)
    requires Sized(src, z) && Sized(src, y) && Kept(src, z, y, a, b) && Parted(src, y, w, h, a, jj) && jj <= b <= |src| + 1
    ensures Sofar(src, z, w, h, a, jj, b)
  {
    assert Look(0);
    assert Kept(src, y, w, a, jj);
    KeptTrans(src, z, y, w, a, b, a, jj);
  }

  lemma {:induction false} PartedJoin(src: seq<byte>, z: Slots, y: Slots, w: Slots, h: nat, a: int, kk: int, b: int, G: int)
    requires Sofar(src, z, y, h, a, kk, b) && Waiting(src, y, h, kk, b, G) && Parted(src, y, w, h, kk, b)
    ensures Parted(src, z, w, h, a, b)
  {
    assert Look(0);
    assert Kept(src, z, y, a, b) && Kept(src, y, w, kk, b);
    KeptTrans(src, z, y, w, a, b, kk, b);
    FinishedStays(src, y, w, 2 * h, a, kk, b);
    FinishedJoin(src, w, h, 2 * h, a, kk, b);
  }

  const SHORT: nat := 16

  /** Splits a group: afterwards its suffixes are ranked by twice as many bytes, and nothing else has moved. */
  method Split(I: array<int>, V: array<int>, start: nat, len: nat, h: nat, ghost src: seq<byte>, ghost z: Slots, ghost G: int)
    returns (ghost y: Slots)
    requires I != V && V[..] == z.V && I[..] == z.I && Waiting(src, z, h, start, start + len, G)
    modifies I, V
    ensures y.V == V[..] && y.I == I[..] && Parted(src, z, y, h, start, start + len)
    decreases len
  {
    if len < SHORT {
      y := SelectGroups(I, V, start, len, h, src, z, G);
      return;
    }
    var jj, kk;
    jj, kk, y := Partition(I, V, start, len, h, src, z, G);
    ghost var cut := y;
    y := SplitLow(I, V, start, jj, kk, h, src, z, cut, start + len, G);
    y := SplitHigh(I, V, jj, kk, start + len, h, src, z, y, start, G);
  }

  /** The keys below the pivot. */
  method SplitLow(I: array<int>, V: array<int>, start: nat, jj: nat, ghost kk: nat, h: nat,
                  ghost src: seq<byte>, ghost z: Slots, ghost cut: Slots, ghost b: nat, ghost G: int)
    returns (ghost y: Slots)
    requires I != V && V[..] == cut.V && I[..] == cut.I && Sized(src, z) && Waiting(src, cut, h, start, b, G)
    requires Kept(src, z, cut, start, b) && Cut(src, cut.P, h, start, jj, kk, b)
    modifies I, V
    ensures y.V == V[..] && y.I == I[..] && Waiting(src, y, h, jj, b, G) && Apart(src, y.P, h, jj, kk, b) && Sofar(src, z, y, h, start, jj, b)
    decreases b - start, 0
  {
    LowWaits(src, cut, h, start, jj, kk, b, G);
    y := cut;
    if jj > start {
      y := Split(I, V, start, jj - start, h, src, cut, G);
    } else {
      NothingParted(src, cut, h, start, b, G);
    }
    RestWaits(src, cut, y, h, start, jj, b, G);
    MiddleApart(src, cut, y, h, start, jj, kk, b);
    LowDone(src, z, cut, y, h, start, jj, b);
  }

  /** The keys at the pivot become a group; those above it are split. */
  method SplitHigh(I: array<int>, V: array<int>, jj: nat, kk: nat, b: nat, h: nat,
                   ghost src: seq<byte>, ghost z: Slots, ghost x: Slots, ghost start: nat, ghost G: int)
    returns (ghost y: Slots)
    requires I != V && V[..] == x.V && I[..] == x.I && jj < kk && Waiting(src, x, h, jj, b, G) && Apart(src, x.P, h, jj, kk, b)
    requires Sofar(src, z, x, h, start, jj, b)
    modifies I, V
    ensures y.V == V[..] && y.I == I[..] && Parted(src, z, y, h, start, b)
    decreases b - start, 0
  {
    var w := Settle(I, V, jj, kk, src, x, h, b, G);
    KeptSame(src, x, jj, b);
    SofarMore(src, z, x, x, w, h, start, jj, kk, b, G);
    y := w;
    if b > kk {
      y := Split(I, V, kk, b - kk, h, src, w, G);
    } else {
      NothingParted(src, w, h, kk, b, G);
    }
    PartedJoin(src, z, w, y, h, start, kk, b, G);
  }
}
