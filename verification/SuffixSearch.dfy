/** Looking up the rest of the new file among the suffixes of the old one. */
module SuffixSearch {
  import opened Bytes
  import opened Closing
  import opened Matches
  import opened Permutations
  import opened Qsufsort

  // ---- comparing ----

  method MatchLen(src: seq<byte>, a: nat, dst: seq<byte>, b: nat) returns (n: nat)
    requires a <= |src| && b <= |dst|
    ensures Full(src, a, dst, b, n)
  {
    n := 0;
    while a + n < |src| && b + n < |dst|
      invariant Match(src, a, dst, b, n)
    {
      if src[a + n] != dst[b + n] {
        break;
      }
      MatchMore(src, a, dst, b, n);
      n := n + 1;
    }
  }

  /** memcmp over n bytes, less than zero. */
  method Precedes(src: seq<byte>, a: nat, dst: seq<byte>, b: nat, n: nat) returns (less: bool)
    requires a + n <= |src| && b + n <= |dst| && (a + n == |src| || b + n == |dst|)
    ensures less <==> Lower(src, a, dst, b)
  {
    var i := 0;
    while i < n
      invariant 0 <= i <= n && Match(src, a, dst, b, i)
    {
      if src[a + i] != dst[b + i] {
        break;
      }
      MatchMore(src, a, dst, b, i);
      i := i + 1;
    }
    less := i < n && src[a + i] < dst[b + i];
    if less {
      assert LowerAt(src, a, dst, b, i);
    }
    if Lower(src, a, dst, b) {
      var m :| LowerAt(src, a, dst, b, m);
      FirstDifference(src, a, dst, b, m, i);
    }
  }

  lemma {:induction false} FirstDifference(src: seq<byte>, a: int, dst: seq<byte>, b: int, m: int, i: int)
    requires LowerAt(src, a, dst, b, m) && Full(src, a, dst, b, i)
    ensures m == i
  {
    if m < i {
      MatchAt(src, a, dst, b, i, m);
    }
    FullIsLongest(src, a, dst, b, i, m);
  }

  ghost predicate InRange(I: seq<int>, oldsize: nat) {
    |I| == oldsize + 1 && forall k {:trigger I[k]} :: 0 <= k <= oldsize ==> 0 <= I[k] <= oldsize
  }

  function Least(a: int, b: int): int {
    if a < b then a else b
  }

  // ---- what the search finds ----

  /** The length of the common prefix. */
  ghost function Common(src: seq<byte>, a: nat, dst: seq<byte>, b: nat): (n: nat)
    requires a <= |src| && b <= |dst|
    ensures a + n <= |src| && b + n <= |dst|
    decreases |src| - a
  {
    if a < |src| && b < |dst| && src[a] == dst[b] then 1 + Common(src, a + 1, dst, b + 1) else 0
  }

  lemma {:induction false} CommonIsFull(src: seq<byte>, a: nat, dst: seq<byte>, b: nat)
    requires a <= |src| && b <= |dst|
    ensures Full(src, a, dst, b, Common(src, a, dst, b))
    decreases |src| - a
  {
    if a < |src| && b < |dst| && src[a] == dst[b] {
      CommonIsFull(src, a + 1, dst, b + 1);
      assert Match(src, a, dst, b, 1);
      MatchJoin(src, a, dst, b, 1, Common(src, a + 1, dst, b + 1));
    }
  }

  lemma {:induction false} FullIsCommon(src: seq<byte>, a: nat, dst: seq<byte>, b: nat, n: nat)
    requires a <= |src| && b <= |dst| && Full(src, a, dst, b, n)
    ensures n == Common(src, a, dst, b)
  {
    CommonIsFull(src, a, dst, b);
    FullIsLongest(src, a, dst, b, n, Common(src, a, dst, b));
    FullIsLongest(src, a, dst, b, Common(src, a, dst, b), n);
  }

  lemma {:induction false} LowerByCommon(src: seq<byte>, a: nat, dst: seq<byte>, b: nat)
    requires a <= |src| && b <= |dst|
    ensures var n := Common(src, a, dst, b);
      Lower(src, a, dst, b) <==> a + n < |src| && b + n < |dst| && src[a + n] < dst[b + n]
  {
    var n := Common(src, a, dst, b);
    CommonIsFull(src, a, dst, b);
    if Lower(src, a, dst, b) {
      var m :| LowerAt(src, a, dst, b, m);
      FirstDifference(src, a, dst, b, m, n);
    } else if a + n < |src| && b + n < |dst| && src[a + n] < dst[b + n] {
      assert LowerAt(src, a, dst, b, n);
    }
  }

  /** The slot whose suffix the search between st and en settles on: the better of the last two bounds. */
  ghost function Found(I: seq<int>, src: seq<byte>, dst: seq<byte>, scan: nat, st: nat, en: nat): (slot: nat)
    requires InRange(I, |src|) && scan <= |dst| && st <= en <= |src|
    ensures st <= slot <= en
    decreases en - st
  {
    if en - st < 2 then
      if Common(src, I[st], dst, scan) > Common(src, I[en], dst, scan) then st else en
    else
      var x := st + (en - st) / 2;
      if Lower(src, I[x], dst, scan) then Found(I, src, dst, scan, x, en) else Found(I, src, dst, scan, st, x)
  }

  /** How long the match is that the search over all slots finds. */
  ghost function FoundLength(I: seq<int>, src: seq<byte>, dst: seq<byte>, scan: nat): (n: nat)
    requires InRange(I, |src|) && scan <= |dst|
    ensures scan + n <= |dst|
  {
    Common(src, I[Found(I, src, dst, scan, 0, |src|)], dst, scan)
  }

  /** Where it is. */
  ghost function FoundAt(I: seq<int>, src: seq<byte>, dst: seq<byte>, scan: nat): (p: nat)
    requires InRange(I, |src|) && scan <= |dst|
    ensures p <= |src|
  {
    I[Found(I, src, dst, scan, 0, |src|)]
  }

  // ---- when the search finds the longest match ----

  /** Some match is longer than m bytes. */
  ghost predicate Beyond(src: seq<byte>, dst: seq<byte>, b: int, m: int) {
    exists a {:trigger Match(src, a, dst, b, m + 1)} :: Match(src, a, dst, b, m + 1)
  }

  /** The suffix at a ends before the rest of the new file does, and agrees with it as far as it goes. */
  ghost predicate Border(src: seq<byte>, a: int, dst: seq<byte>, b: int) {
    0 <= a <= |src| && b + (|src| - a) < |dst| && Match(src, a, dst, b, |src| - a)
  }

  /** The search compares with a suffix that ends too early, and goes left although a longer match lies to the right. */
  ghost predicate Misled(I: seq<int>, src: seq<byte>, dst: seq<byte>, scan: nat, st: nat, en: nat)
    requires |I| == |src| + 1 && st <= en <= |src|
    decreases en - st
  {
    if en - st < 2 then false
    else
      var x := st + (en - st) / 2;
      || (Border(src, I[x], dst, scan) && Beyond(src, dst, scan, |src| - I[x]))
      || if Lower(src, I[x], dst, scan) then Misled(I, src, dst, scan, x, en) else Misled(I, src, dst, scan, st, x)
  }

  /** What lies outside the bounds has no longer match than the bounds themselves. */
  ghost predicate Bracketed(I: seq<int>, src: seq<byte>, dst: seq<byte>, scan: nat, st: nat, en: nat)
    requires |I| == |src| + 1 && st <= en <= |src|
  {
    && (st == 0 || Lower(src, I[st], dst, scan))
    && (en == |src| || (!Lower(src, I[en], dst, scan) && (Border(src, I[en], dst, scan) ==> !Beyond(src, dst, scan, |src| - I[en]))))
  }

  lemma {:induction false} LowerIsSmaller(s: seq<byte>, a: int, t: seq<byte>, b: int)
    requires Lower(s, a, t, b)
    ensures Smaller(s, a, t, b)
  {
    var m :| LowerAt(s, a, t, b, m);
    assert SmallerAt(s, a, t, b, m);
  }

  lemma {:induction false} MatchBack(s: seq<byte>, a: int, t: seq<byte>, b: int, n: int)
    requires Match(s, a, t, b, n)
    ensures Match(t, b, s, a, n)
  {
  }

  /** To the left of a suffix below the target, nothing matches more of it. */
  lemma {:induction false} LeftMatches(I: seq<int>, src: seq<byte>, dst: seq<byte>, scan: nat, st: nat, k: nat, n: int)
    requires SuffixArray(src, I) && k <= st <= |src| && (st == 0 || Lower(src, I[st], dst, scan)) && Match(src, I[k], dst, scan, n)
    ensures Match(src, I[st], dst, scan, n)
  {
    if k < st {
      LowerIsSmaller(src, I[st], dst, scan);
      assert Smaller(src, I[k], src, I[st]);
      Between(src, I[k], src, I[st], dst, scan, n);
    }
  }

  /** To the right of a suffix that is not below the target and does not end early, nothing matches more of it. */
  lemma {:induction false} RightMatches(I: seq<int>, src: seq<byte>, dst: seq<byte>, scan: nat, en: nat, k: nat, n: int, f: int)
    requires SuffixArray(src, I) && en <= k <= |src| && !Lower(src, I[en], dst, scan) && !Border(src, I[en], dst, scan)
    requires Match(src, I[k], dst, scan, n) && Full(src, I[en], dst, scan, f)
    ensures n <= f
  {
    if en < k && scan + f < |dst| {
      assert I[en] + f < |src|;
      assert !LowerAt(src, I[en], dst, scan, f);
      MatchBack(src, I[en], dst, scan, f);
      assert LowerAt(dst, scan, src, I[en], f);
      LowerIsSmaller(dst, scan, src, I[en]);
      MatchBack(src, I[k], dst, scan, n);
      assert Smaller(src, I[en], src, I[k]);
      Between(dst, scan, src, I[en], src, I[k], n);
      MatchBack(dst, scan, src, I[en], n);
      FullIsLongest(src, I[en], dst, scan, f, n);
    } else if en == k {
      FullIsLongest(src, I[en], dst, scan, f, n);
    }
  }

  /** No slot up to one that ends early matches more than that one. */
  lemma {:induction false} BorderCaps(I: seq<int>, src: seq<byte>, dst: seq<byte>, scan: nat, x: nat, k: nat, n: int)
    requires SuffixArray(src, I) && k <= x <= |src| && Border(src, I[x], dst, scan) && Match(src, I[k], dst, scan, n)
    ensures n <= |src| - I[x]
  {
    if k < x {
      assert Smaller(src, I[k], src, I[x]);
      var m := |src| - I[x];
      assert SmallerAt(src, I[x], dst, scan, m);
      Between(src, I[k], src, I[x], dst, scan, n);
    }
  }

  lemma {:induction false} LongerMatch(src: seq<byte>, a: int, dst: seq<byte>, b: int, m: int, n: int)
    requires 0 <= m < n && Match(src, a, dst, b, n)
    ensures Beyond(src, dst, b, m)
  {
    MatchLess(src, a, dst, b, n, m + 1);
    assert Match(src, a, dst, b, m + 1);
  }

  /** No slot matches more than the better of two adjacent bounds. */
  lemma {:induction false} BoundsCap(I: seq<int>, src: seq<byte>, dst: seq<byte>, scan: nat, st: nat, en: nat, x: int, y: int, k: nat, n: int)
    requires SuffixArray(src, I) && st <= en <= |src| && en - st < 2 && Bracketed(I, src, dst, scan, st, en)
    requires Full(src, I[st], dst, scan, x) && Full(src, I[en], dst, scan, y) && k <= |src| && Match(src, I[k], dst, scan, n)
    ensures n <= if x > y then x else y
  {
    if k <= st {
      LeftMatches(I, src, dst, scan, st, k, n);
      FullIsLongest(src, I[st], dst, scan, x, n);
    } else if en == |src| {
      FullIsLongest(src, I[en], dst, scan, y, n);
    } else if Border(src, I[en], dst, scan) {
      FullIsLongest(src, I[en], dst, scan, y, |src| - I[en]);
      if |src| - I[en] < n {
        LongerMatch(src, I[k], dst, scan, |src| - I[en], n);
      }
    } else {
      RightMatches(I, src, dst, scan, en, k, n, y);
    }
  }

  /** In suffix order, a result of len bytes is the longest match exactly if the search between st and en is not misled. */
  ghost predicate Exact(I: seq<int>, src: seq<byte>, dst: seq<byte>, scan: nat, st: nat, en: nat, len: nat)
    requires |I| == |src| + 1 && st <= en <= |src|
  {
    forall u {:trigger Look(u)} :: Look(u) && SuffixArray(src, I) && Bracketed(I, src, dst, scan, st, en) ==>
      (Beyond(src, dst, scan, len) <==> Misled(I, src, dst, scan, st, en))
  }

  lemma {:induction false} ExactBase(I: seq<int>, src: seq<byte>, dst: seq<byte>, scan: nat, st: nat, en: nat, x: nat, y: nat)
    requires |I| == |src| + 1 && st <= en <= |src| && en - st < 2
    requires Full(src, I[st], dst, scan, x) && Full(src, I[en], dst, scan, y)
    ensures Exact(I, src, dst, scan, st, en, if x > y then x else y)
  {
    var len := if x > y then x else y;
    if SuffixArray(src, I) && Bracketed(I, src, dst, scan, st, en) && Beyond(src, dst, scan, len) {
      var a :| Match(src, a, dst, scan, len + 1);
      var k := PermOnto(I, |src| + 1, a);
      BoundsCap(I, src, dst, scan, st, en, x, y, k, len + 1);
    }
  }

  lemma {:induction false} ExactRight(I: seq<int>, src: seq<byte>, dst: seq<byte>, scan: nat, st: nat, en: nat, len: nat)
    requires |I| == |src| + 1 && st <= en <= |src| && en - st >= 2
    requires var x := st + (en - st) / 2; Lower(src, I[x], dst, scan) && Exact(I, src, dst, scan, x, en, len)
    ensures Exact(I, src, dst, scan, st, en, len)
  {
    assert Look(0);
    NoBorder(src, I[st + (en - st) / 2], dst, scan);
  }

  lemma {:induction false} ExactLeft(I: seq<int>, src: seq<byte>, dst: seq<byte>, scan: nat, st: nat, en: nat, len: nat, slot: nat)
    requires |I| == |src| + 1 && st <= en <= |src| && en - st >= 2
    requires var x := st + (en - st) / 2; !Lower(src, I[x], dst, scan) && Exact(I, src, dst, scan, st, x, len) && slot <= x
    requires Match(src, I[slot], dst, scan, len)
    ensures Exact(I, src, dst, scan, st, en, len)
  {
    assert Look(0);
    var x := st + (en - st) / 2;
    if SuffixArray(src, I) && Border(src, I[x], dst, scan) && Beyond(src, dst, scan, |src| - I[x]) {
      BorderCaps(I, src, dst, scan, x, slot, len);
      BeyondLess(src, dst, scan, |src| - I[x], len);
    }
  }

  /**
   * Binary search in the suffix order. Whatever the order, the match returned is genuine and as long as it can be made.
   * In suffix order it is the longest of all matches exactly if the search is not misled.
   */
  method Search(I: seq<int>, src: seq<byte>, dst: seq<byte>, scan: nat, st: nat, en: nat) returns (len: nat, pos: nat, ghost slot: nat)
    requires InRange(I, |src|) && scan <= |dst| && st <= en <= |src|
    ensures pos <= |src| && Full(src, pos, dst, scan, len) && st <= slot <= en && I[slot] == pos
    ensures slot == Found(I, src, dst, scan, st, en)
    ensures Exact(I, src, dst, scan, st, en, len)
    decreases en - st
  {
    if en - st < 2 {
      var x := MatchLen(src, I[st], dst, scan);
      var y := MatchLen(src, I[en], dst, scan);
      ExactBase(I, src, dst, scan, st, en, x, y);
      FullIsCommon(src, I[st], dst, scan, x);
      FullIsCommon(src, I[en], dst, scan, y);
      if x > y {
        return x, I[st], st;
      }
      return y, I[en], en;
    }
    var x := st + (en - st) / 2;
    var less := Precedes(src, I[x], dst, scan, Least(|src| - I[x], |dst| - scan));
    if less {
      len, pos, slot := Search(I, src, dst, scan, x, en);
      ExactRight(I, src, dst, scan, st, en, len);
    } else {
      len, pos, slot := Search(I, src, dst, scan, st, x);
      ExactLeft(I, src, dst, scan, st, en, len, slot);
    }
  }

  /** The search over all slots. */
  method Lookup(I: seq<int>, src: seq<byte>, dst: seq<byte>, scan: nat) returns (len: nat, pos: nat)
    requires InRange(I, |src|) && scan <= |dst|
    ensures pos <= |src| && Full(src, pos, dst, scan, len) && len == FoundLength(I, src, dst, scan)
    ensures pos == FoundAt(I, src, dst, scan)
    ensures SuffixArray(src, I) ==> (Beyond(src, dst, scan, len) <==> Misled(I, src, dst, scan, 0, |src|))
  {
    ghost var slot;
    len, pos, slot := Search(I, src, dst, scan, 0, |src|);
    FullIsCommon(src, pos, dst, scan, len);
    assert Look(0);
  }

  lemma {:induction false} NoBorder(src: seq<byte>, a: int, dst: seq<byte>, b: int)
    requires Lower(src, a, dst, b)
    ensures !Border(src, a, dst, b)
  {
    if Border(src, a, dst, b) {
      var m :| LowerAt(src, a, dst, b, m);
      FirstDifference(src, a, dst, b, m, |src| - a);
    }
  }

  lemma {:induction false} BeyondLess(src: seq<byte>, dst: seq<byte>, b: int, m: int, n: int)
    requires Beyond(src, dst, b, m) && 0 <= n <= m
    ensures Beyond(src, dst, b, n)
  {
    var a :| Match(src, a, dst, b, m + 1);
    LongerMatch(src, a, dst, b, n, m + 1);
  }

  /** If no suffix that ends early is shorter than some match, the search finds the longest. */
  lemma {:induction false} OnlyBordersMislead(I: seq<int>, src: seq<byte>, dst: seq<byte>, scan: nat, st: nat, en: nat)
    requires InRange(I, |src|) && st <= en <= |src| && Misled(I, src, dst, scan, st, en)
    ensures exists a {:trigger Border(src, a, dst, scan)} :: Border(src, a, dst, scan) && Beyond(src, dst, scan, |src| - a)
    decreases en - st
  {
    var x := st + (en - st) / 2;
    if Border(src, I[x], dst, scan) && Beyond(src, dst, scan, |src| - I[x]) {
    } else if Lower(src, I[x], dst, scan) {
      OnlyBordersMislead(I, src, dst, scan, x, en);
    } else {
      OnlyBordersMislead(I, src, dst, scan, st, x);
    }
  }

  const ABXAB: seq<byte> := [97, 98, 120, 97, 98]
  const ABX: seq<byte> := [97, 98, 120]
  const ABXAB_ORDER: seq<int> := [5, 3, 0, 4, 1, 2]

  lemma {:induction false} AbxabOrder()
    ensures SuffixArray(ABXAB, ABXAB_ORDER)
  {
    DistinctPerm(ABXAB_ORDER, 6);
    forall k, l | 0 <= k < l < 6
      ensures Smaller(ABXAB, ABXAB_ORDER[k], ABXAB, ABXAB_ORDER[l])
    {
      var m := if k == 1 && l == 2 then 2 else if k == 3 && l == 4 then 1 else 0;
      assert SmallerAt(ABXAB, ABXAB_ORDER[k], ABXAB, ABXAB_ORDER[l], m);
    }
  }

  /** The old file abxab and the new file abx: the search compares with the suffix ab and misses the match at 0. */
  lemma {:induction false} SearchCanMiss()
    ensures SuffixArray(ABXAB, ABXAB_ORDER) && Misled(ABXAB_ORDER, ABXAB, ABX, 0, 0, 5) && Match(ABXAB, 0, ABX, 0, 3)
  {
    AbxabOrder();
    LongerMatch(ABXAB, 0, ABX, 0, 2, 3);
    assert Border(ABXAB, 3, ABX, 0);
    if Lower(ABXAB, 0, ABX, 0) {
      var m :| LowerAt(ABXAB, 0, ABX, 0, m);
      FirstDifference(ABXAB, 0, ABX, 0, m, 3);
    }
    assert Misled(ABXAB_ORDER, ABXAB, ABX, 0, 0, 2);
  }
}
