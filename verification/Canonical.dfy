/** Canonical prefix codes from code lengths, and the decoder's tables for them. */
module Canonical {
  import opened Arith
  import opened Bits
  import opened Bytes

  const MAX_LEN: nat := 20

  /** How many of the first i symbols have length n. */
  ghost function Having(len: seq<int>, n: int, i: nat): (r: nat)
    requires i <= |len|
    ensures r <= i
  {
    if i == 0 then 0 else Having(len, n, i - 1) + if len[i - 1] == n then 1 else 0
  }

  /** How many symbols are shorter than n. */
  ghost function Shorter(len: seq<int>, n: nat): (r: nat)
  {
    if n == 0 then 0 else Shorter(len, n - 1) + Having(len, n - 1, |len|)
  }

  /** The first code of length n: one more than the last of length n - 1, with a zero appended. */
  ghost function First(len: seq<int>, n: nat): nat {
    if n == 0 then 0 else 2 * (First(len, n - 1) + Having(len, n - 1, |len|))
  }

  ghost function Code(len: seq<int>, s: nat): nat
    requires s < |len| && 0 <= len[s]
  {
    First(len, len[s]) + Having(len, len[s], s)
  }

  ghost predicate Lengths(len: seq<int>) {
    |len| > 0 && forall i :: 0 <= i < |len| ==> 1 <= len[i] <= MAX_LEN
  }

  /** The sum of 2^(m - length), the Kraft sum scaled by 2^m. */
  ghost function Kraft(len: seq<int>, m: nat): nat
    requires forall i :: 0 <= i < |len| ==> 0 <= len[i] <= m
  {
    if len == [] then 0 else Kraft(len[..|len| - 1], m) + Pow2(m - len[|len| - 1])
  }

  lemma {:induction false} HavingMono(len: seq<int>, n: int, i: nat, j: nat)
    requires i <= j <= |len|
    ensures Having(len, n, i) <= Having(len, n, j)
    decreases j
  {
    if i < j {
      HavingMono(len, n, i, j - 1);
    }
  }

  lemma {:induction false} HavingPrefix(len: seq<int>, n: int, i: nat, k: nat)
    requires i <= k <= |len|
    ensures Having(len[..k], n, i) == Having(len, n, i)
    decreases i
  {
    if i > 0 {
      HavingPrefix(len, n, i - 1, k);
    }
  }

  /** The part of the Kraft sum that symbols of length at most n contribute. */
  ghost function KraftUpTo(len: seq<int>, m: nat, n: int): nat
    requires forall i :: 0 <= i < |len| ==> 0 <= len[i] <= m
  {
    if len == [] then 0
    else KraftUpTo(len[..|len| - 1], m, n) + if len[|len| - 1] <= n then Pow2(m - len[|len| - 1]) else 0
  }

  lemma {:induction false} KraftUpToBound(len: seq<int>, m: nat, n: int)
    requires forall i :: 0 <= i < |len| ==> 0 <= len[i] <= m
    ensures KraftUpTo(len, m, n) <= Kraft(len, m)
  {
    if len != [] {
      KraftUpToBound(len[..|len| - 1], m, n);
    }
  }

  lemma {:induction false} KraftNext(len: seq<int>, m: nat, n: nat)
    requires forall i :: 0 <= i < |len| ==> 0 <= len[i] <= m
    requires n <= m
    ensures KraftUpTo(len, m, n) == KraftUpTo(len, m, n - 1) + Having(len, n, |len|) * Pow2(m - n)
  {
    if len != [] {
      var k := |len| - 1;
      KraftNext(len[..k], m, n);
      HavingPrefix(len, n, k, k);
      var h := Having(len, n, k);
      assert len[k] == n ==> (h + 1) * Pow2(m - n) == h * Pow2(m - n) + Pow2(m - n);
    }
  }

  /** Codes of length up to n fill this much of the code space. */
  lemma {:induction false} KraftIsFirst(len: seq<int>, m: nat, n: nat)
    requires forall i :: 0 <= i < |len| ==> 1 <= len[i] <= m
    requires n <= m
    ensures 2 * KraftUpTo(len, m, n) == First(len, n + 1) * Pow2(m - n)
    decreases n
  {
    if n == 0 {
      NoneOfLengthZero(len, m);
    } else {
      KraftIsFirst(len, m, n - 1);
      KraftNext(len, m, n);
      Scale(First(len, n), Having(len, n, |len|), Pow2(m - n));
    }
  }

  lemma {:induction false} NoneOfLengthZero(len: seq<int>, m: nat)
    requires forall i :: 0 <= i < |len| ==> 1 <= len[i] <= m
    ensures KraftUpTo(len, m, 0) == 0 && Having(len, 0, |len|) == 0
  {
    NoneBelow(len, m, 0);
    NoneHaving(len, 0, |len|);
  }

  lemma {:induction false} Scale(f: int, h: int, p: int)
    ensures f * (2 * p) + 2 * (h * p) == (2 * (f + h)) * p
  {
  }

  lemma {:induction false} NoneBelow(len: seq<int>, m: nat, n: int)
    requires forall i :: 0 <= i < |len| ==> 1 <= len[i] <= m
    requires n <= 0
    ensures KraftUpTo(len, m, n) == 0
  {
    if len != [] {
      NoneBelow(len[..|len| - 1], m, n);
    }
  }

  /** Under the Kraft inequality codes fit in their lengths. */
  lemma {:induction false} CodesFit(len: seq<int>, m: nat, n: nat)
    requires forall i :: 0 <= i < |len| ==> 1 <= len[i] <= m
    requires Kraft(len, m) <= Pow2(m) && n <= m
    ensures First(len, n + 1) <= Pow2(n + 1)
  {
    KraftIsFirst(len, m, n);
    KraftUpToBound(len, m, n);
    Pow2Split(n + 1, m + 1);
    Cancel(First(len, n + 1), Pow2(n + 1), Pow2(m - n), 2 * KraftUpTo(len, m, n), 2 * Pow2(m));
  }

  lemma {:induction false} Cancel(a: int, b: int, p: int, x: int, y: int)
    requires p > 0 && x == a * p && y == b * p && x <= y
    ensures a <= b
  {
    if a > b {
      MulMono(b + 1, a, p);
    }
  }

  lemma {:induction false} CodeInRange(len: seq<int>, s: nat)
    requires s < |len| && 0 <= len[s]
    ensures First(len, len[s]) <= Code(len, s) < First(len, len[s]) + Having(len, len[s], |len|)
  {
    HavingMono(len, len[s], s + 1, |len|);
  }

  lemma {:induction false} CodeFits(len: seq<int>, s: nat)
    requires Lengths(len) && Kraft(len, MAX_LEN) <= Pow2(MAX_LEN) && s < |len|
    ensures Code(len, s) < Pow2(len[s])
  {
    CodeInRange(len, s);
    CodesFit(len, MAX_LEN, len[s]);
  }

  lemma {:induction false} DoubleTimes(f: int, p: int)
    ensures f * (2 * p) == 2 * (f * p)
  {
  }

  /** A longer code starts beyond every shorter one. */
  lemma {:induction false} FirstGrows(len: seq<int>, n: nat, l: nat)
    requires n < l
    ensures First(len, l) >= (First(len, n) + Having(len, n, |len|)) * Pow2(l - n)
    decreases l
  {
    var f := First(len, n) + Having(len, n, |len|);
    if n + 1 < l {
      FirstGrows(len, n, l - 1);
      DoubleTimes(f, Pow2(l - 1 - n));
    } else {
      assert Pow2(1) == 2 * Pow2(0) == 2;
    }
  }

  /** No proper prefix of a code is at or below the last code of the prefix's length. */
  lemma {:induction false} PrefixTooLarge(len: seq<int>, s: nat, n: nat)
    requires s < |len| && 0 <= n < len[s]
    ensures Code(len, s) / Pow2(len[s] - n) >= First(len, n) + Having(len, n, |len|)
  {
    var f, p := First(len, n) + Having(len, n, |len|), Pow2(len[s] - n);
    FirstGrows(len, n, len[s]);
    DivAtLeast(Code(len, s), f, p);
  }

  lemma {:induction false} DivAtLeast(v: int, f: int, p: int)
    requires p > 0 && v >= f * p
    ensures v / p >= f
  {
    if v / p < f {
      MulMono(v / p + 1, f, p);
    }
  }

  /** All lengths lie between minLen and maxLen. */
  ghost predicate Spans(len: seq<int>, minLen: int, maxLen: int) {
    1 <= minLen && maxLen <= MAX_LEN && forall i :: 0 <= i < |len| ==> minLen <= len[i] <= maxLen
  }

  lemma {:induction false} NoneHaving(len: seq<int>, n: int, i: nat)
    requires i <= |len| && forall k :: 0 <= k < |len| ==> len[k] != n
    ensures Having(len, n, i) == 0
  {
    if i > 0 {
      NoneHaving(len, n, i - 1);
    }
  }

  lemma {:induction false} ZeroBelow(len: seq<int>, minLen: nat, n: nat)
    requires n <= minLen && forall k :: 0 <= k < |len| ==> minLen <= len[k]
    ensures First(len, n) == 0 && Shorter(len, n) == 0
  {
    if n > 0 {
      ZeroBelow(len, minLen, n - 1);
      NoneHaving(len, n - 1, |len|);
    }
  }

  method AssignCodes(code: array<int>, len: array<int>, minLen: nat, maxLen: nat, alphaSize: nat)
    requires code != len && alphaSize <= code.Length && alphaSize <= len.Length
    requires Spans(len[..alphaSize], minLen, maxLen)
    modifies code
    ensures forall s :: 0 <= s < alphaSize ==> code[s] == Code(len[..alphaSize], s)
  {
    ghost var ls := len[..alphaSize];
    ZeroBelow(ls, minLen, minLen);
    var vec := 0;
    var n := minLen;
    while n <= maxLen
      invariant minLen <= n && vec == First(ls, n)
      invariant forall s :: 0 <= s < alphaSize && ls[s] < n ==> code[s] == Code(ls, s)
    {
      var i := 0;
      while i < alphaSize
        invariant 0 <= i <= alphaSize && vec == First(ls, n) + Having(ls, n, i)
        invariant forall s :: 0 <= s < alphaSize && (ls[s] < n || (ls[s] == n && s < i)) ==> code[s] == Code(ls, s)
      {
        if len[i] == n {
          code[i] := vec;
          vec := vec + 1;
        }
        i := i + 1;
      }
      vec := vec * 2;
      n := n + 1;
    }
  }

  /** The place of symbol s when symbols are ordered by length, then number. */
  ghost function Place(len: seq<int>, s: nat): nat
    requires s < |len| && 0 <= len[s]
  {
    Shorter(len, len[s]) + Having(len, len[s], s)
  }

  lemma {:induction false} ShorterMono(len: seq<int>, m: nat, n: nat)
    requires m <= n
    ensures Shorter(len, m) <= Shorter(len, n)
    decreases n
  {
    if m < n {
      ShorterMono(len, m, n - 1);
    }
  }

  /** Symbols already placed lie before the next free place. */
  lemma {:induction false} PlaceBefore(len: seq<int>, s: nat, i: nat, j: nat)
    requires s < |len| && 0 <= len[s] && j <= |len|
    requires len[s] < i || (len[s] == i && s < j)
    ensures Place(len, s) < Shorter(len, i) + Having(len, i, j)
  {
    if len[s] < i {
      HavingMono(len, len[s], s + 1, |len|);
      ShorterMono(len, len[s] + 1, i);
    } else {
      HavingMono(len, i, s + 1, j);
    }
  }

  lemma {:induction false} ShorterTotal(len: seq<int>, n: nat)
    ensures Shorter(len, n) <= |len|
    ensures n > 0 ==> Shorter(len, n - 1) + Having(len, n - 1, |len|) <= |len|
  {
    ShorterIsCount(len, n, |len|);
  }

  ghost function Fewer(len: seq<int>, n: int, i: nat): (r: nat)
    requires i <= |len|
    ensures r <= i
  {
    if i == 0 then 0 else Fewer(len, n, i - 1) + if 0 <= len[i - 1] < n then 1 else 0
  }

  lemma {:induction false} FewerNext(len: seq<int>, n: nat, i: nat)
    requires i <= |len|
    ensures Fewer(len, n + 1, i) == Fewer(len, n, i) + Having(len, n, i)
  {
    if i > 0 {
      FewerNext(len, n, i - 1);
    }
  }

  lemma {:induction false} ShorterIsCount(len: seq<int>, n: nat, size: nat)
    requires size == |len|
    ensures Shorter(len, n) == Fewer(len, n, size)
  {
    if n > 0 {
      ShorterIsCount(len, n - 1, size);
      FewerNext(len, n - 1, size);
    } else {
      NoneFewer(len, size);
    }
  }

  lemma {:induction false} NoneFewer(len: seq<int>, i: nat)
    requires i <= |len|
    ensures Fewer(len, 0, i) == 0
  {
    if i > 0 {
      NoneFewer(len, i - 1);
    }
  }

  const MAX_CODE_LEN: nat := 23
  const MAX_ALPHA_SIZE: nat := 258

  /** The decoder's tables describe the canonical code; outside its lengths no code can be accepted. */
  ghost predicate Tables(limit: seq<int>, base: seq<int>, perm: seq<int>, len: seq<int>, minLen: nat, maxLen: nat) {
    && |limit| == |base| == |perm| == MAX_ALPHA_SIZE && |len| <= MAX_ALPHA_SIZE && maxLen <= MAX_LEN
    && Spans(len, minLen, maxLen)
    && (forall n :: minLen <= n <= maxLen ==> limit[n] == First(len, n) + Having(len, n, |len|) - 1)
    && (forall n :: minLen <= n <= maxLen ==> base[n] == First(len, n) - Shorter(len, n))
    && (forall n :: 0 <= n < MAX_CODE_LEN && !(minLen <= n <= maxLen) ==> limit[n] == 0)
    && (forall n :: 0 <= n < MAX_CODE_LEN && !(minLen <= n <= maxLen) ==> base[n] == if n < minLen then 0 else |len|)
    && Ordered(perm, len)
  }

  lemma {:induction false} AllShorter(len: seq<int>, n: nat)
    requires forall i :: 0 <= i < |len| ==> 0 <= len[i] < n
    ensures Shorter(len, n) == |len|
  {
    ShorterIsCount(len, n, |len|);
    AllFewer(len, n, |len|);
  }

  lemma {:induction false} AllFewer(len: seq<int>, n: nat, i: nat)
    requires i <= |len| && forall k :: 0 <= k < |len| ==> 0 <= len[k] < n
    ensures Fewer(len, n, i) == i
  {
    if i > 0 {
      AllFewer(len, n, i - 1);
    }
  }

  ghost predicate Ordered(perm: seq<int>, len: seq<int>) {
    && |len| <= |perm|
    && forall s :: 0 <= s < |len| && 0 <= len[s] ==> 0 <= Place(len, s) < |len| && perm[Place(len, s)] == s
  }

  lemma {:induction false} PlaceInRange(len: seq<int>, s: nat)
    requires s < |len| && 0 <= len[s]
    ensures Place(len, s) < |len|
  {
    PlaceBefore(len, s, len[s], s + 1);
    HavingMono(len, len[s], s + 1, |len|);
    ShorterTotal(len, len[s] + 1);
  }

  /** Lists the symbols by length, then number. */
  method ListByLength(perm: array<int>, len: array<int>, minLen: nat, maxLen: nat, alphaSize: nat)
    requires perm != len && perm.Length == MAX_ALPHA_SIZE && alphaSize <= MAX_ALPHA_SIZE && alphaSize <= len.Length
    requires Spans(len[..alphaSize], minLen, maxLen)
    modifies perm
    ensures Ordered(perm[..], len[..alphaSize])
  {
    ghost var ls := len[..alphaSize];
    ZeroBelow(ls, minLen, minLen);
    var pp := 0;
    var i := minLen;
    while i <= maxLen
      invariant minLen <= i && pp == Shorter(ls, i)
      invariant Listed(perm[..], ls, i, 0)
    {
      var j := 0;
      while j < alphaSize
        invariant 0 <= j <= alphaSize && pp == Shorter(ls, i) + Having(ls, i, j)
        invariant Listed(perm[..], ls, i, j)
      {
        ListNext(perm[..], ls, i, j);
        if len[j] == i {
          ghost var was := perm[..];
          perm[pp] := j;
          assert perm[..] == was[pp := j];
          pp := pp + 1;
        }
        j := j + 1;
      }
      i := i + 1;
    }
  }

  /** Shorter symbols, and the first j of those of length i, are in their places. */
  ghost predicate Listed(perm: seq<int>, len: seq<int>, i: nat, j: nat) {
    && |len| <= |perm| && j <= |len|
    && forall s :: 0 <= s < |len| && 0 <= len[s] && (len[s] < i || (len[s] == i && s < j)) ==>
         Place(len, s) < |len| && perm[Place(len, s)] == s
  }

  lemma {:induction false} ListNext(perm: seq<int>, len: seq<int>, i: nat, j: nat)
    requires Listed(perm, len, i, j) && j < |len|
    ensures len[j] != i ==> Listed(perm, len, i, j + 1)
    ensures len[j] == i ==> Place(len, j) == Shorter(len, i) + Having(len, i, j) < |len|
    ensures len[j] == i ==> Listed(perm[Place(len, j) := j], len, i, j + 1)
  {
    if len[j] == i {
      PlaceInRange(len, j);
      forall s | 0 <= s < |len| && 0 <= len[s] && (len[s] < i || (len[s] == i && s < j))
        ensures Place(len, s) < Place(len, j)
      {
        PlaceBefore(len, s, i, j);
      }
    }
  }

  /** The three counts of a set of lengths, as tables, with the equations that link them. */
  ghost predicate Counts(len: seq<int>, having: seq<int>, shorter: seq<int>, first: seq<int>) {
    && |having| == |shorter| == |first| == MAX_CODE_LEN
    && (forall n :: 0 <= n < MAX_CODE_LEN ==> having[n] == Having(len, n, |len|))
    && (forall n :: 0 <= n < MAX_CODE_LEN ==> shorter[n] == Shorter(len, n))
    && (forall n :: 0 <= n < MAX_CODE_LEN ==> first[n] == First(len, n))
    && AllLinked(having, shorter, first)
  }

  ghost predicate AllLinked(having: seq<int>, shorter: seq<int>, first: seq<int>) {
    && |having| == |shorter| == |first| == MAX_CODE_LEN && shorter[0] == 0 && first[0] == 0
    && (forall n {:trigger Linked(having, shorter, first, n)} :: 0 < n < MAX_CODE_LEN ==> Linked(having, shorter, first, n))
  }

  ghost predicate Linked(having: seq<int>, shorter: seq<int>, first: seq<int>, n: int) {
    && 0 < n < |having| == |shorter| == |first|
    && shorter[n] == shorter[n - 1] + having[n - 1]
    && first[n] == 2 * (first[n - 1] + having[n - 1])
  }

  lemma {:induction false} CountTables(len: seq<int>) returns (having: seq<int>, shorter: seq<int>, first: seq<int>)
    ensures Counts(len, having, shorter, first)
  {
    having := seq(MAX_CODE_LEN, n requires 0 <= n < MAX_CODE_LEN => Having(len, n, |len|));
    shorter := seq(MAX_CODE_LEN, n requires 0 <= n < MAX_CODE_LEN => Shorter(len, n));
    first := seq(MAX_CODE_LEN, n requires 0 <= n < MAX_CODE_LEN => First(len, n));
  }

  /** base[n] becomes the number of symbols shorter than n. */
  method CountLengths(base: array<int>, len: array<int>, alphaSize: nat)
    requires base != len && base.Length == MAX_ALPHA_SIZE && alphaSize <= len.Length
    requires forall i :: 0 <= i < alphaSize ==> 1 <= len[i] <= MAX_LEN
    modifies base
    ensures forall n :: 0 <= n < MAX_CODE_LEN ==> base[n] == Shorter(len[..alphaSize], n)
  {
    ghost var ls := len[..alphaSize];
    ClearTable(base);
    TallyLengths(base, len, alphaSize);
    ghost var having, shorter, first := CountTables(ls);
    var i := 1;
    while i < MAX_CODE_LEN
      invariant 1 <= i <= MAX_CODE_LEN
      invariant forall n :: 0 <= n < i ==> base[n] == shorter[n]
      invariant forall n :: i <= n < MAX_CODE_LEN ==> base[n] == having[n - 1]
    {
      assert Linked(having, shorter, first, i);
      base[i] := base[i] + base[i - 1];
      i := i + 1;
    }
  }

  method TallyLengths(base: array<int>, len: array<int>, alphaSize: nat)
    requires base != len && base.Length == MAX_ALPHA_SIZE && alphaSize <= len.Length
    requires forall i :: 0 <= i < alphaSize ==> 1 <= len[i] <= MAX_LEN
    requires forall n :: 0 <= n < MAX_CODE_LEN ==> base[n] == 0
    modifies base
    ensures base[0] == 0
    ensures forall n :: 1 <= n < MAX_CODE_LEN ==> base[n] == Having(len[..alphaSize], n - 1, alphaSize)
  {
    ghost var ls := len[..alphaSize];
    var i := 0;
    while i < alphaSize
      invariant 0 <= i <= alphaSize && base[0] == 0
      invariant forall n :: 1 <= n < MAX_CODE_LEN ==> base[n] == Having(ls, n - 1, i)
    {
      assert forall n :: Having(ls, n, i + 1) == Having(ls, n, i) + if ls[i] == n then 1 else 0;
      base[len[i] + 1] := base[len[i] + 1] + 1;
      i := i + 1;
    }
  }

  method ClearTable(t: array<int>)
    requires t.Length == MAX_ALPHA_SIZE
    modifies t
    ensures forall n :: 0 <= n < MAX_CODE_LEN ==> t[n] == 0
  {
    var i := 0;
    while i < MAX_CODE_LEN
      invariant 0 <= i <= MAX_CODE_LEN
      invariant forall n :: 0 <= n < i ==> t[n] == 0
    {
      t[i] := 0;
      i := i + 1;
    }
  }

  /** limit[n] becomes the last code of length n. */
  method FillLimits(limit: array<int>, base: array<int>, minLen: nat, maxLen: nat,
                    ghost having: seq<int>, ghost shorter: seq<int>, ghost first: seq<int>)
    requires limit != base && limit.Length == base.Length == MAX_ALPHA_SIZE && maxLen <= MAX_LEN && minLen <= MAX_LEN
    requires AllLinked(having, shorter, first) && first[minLen] == 0
    requires forall n :: 0 <= n < MAX_CODE_LEN ==> base[n] == shorter[n]
    modifies limit
    ensures forall n :: minLen <= n <= maxLen ==> limit[n] == first[n] + having[n] - 1
    ensures forall n :: 0 <= n < MAX_CODE_LEN && !(minLen <= n <= maxLen) ==> limit[n] == 0
  {
    ClearTable(limit);
    var vec, i := 0, minLen;
    while i <= maxLen
      invariant minLen <= i <= MAX_LEN + 1 && vec == first[i]
      invariant forall n :: minLen <= n <= maxLen && n < i ==> limit[n] == first[n] + having[n] - 1
      invariant forall n :: 0 <= n < MAX_CODE_LEN && !(minLen <= n <= maxLen) ==> limit[n] == 0
    {
      assert Linked(having, shorter, first, i + 1);
      vec := vec + (base[i + 1] - base[i]);
      limit[i] := vec - 1;
      vec := vec * 2;
      i := i + 1;
    }
  }

  /** base[n] becomes what to subtract from a code of length n to get its place. */
  method FillBases(limit: array<int>, base: array<int>, minLen: nat, maxLen: nat,
                   ghost having: seq<int>, ghost shorter: seq<int>, ghost first: seq<int>)
    requires limit != base && limit.Length == base.Length == MAX_ALPHA_SIZE && maxLen <= MAX_LEN && minLen <= MAX_LEN
    requires AllLinked(having, shorter, first) && first[minLen] == 0 == shorter[minLen]
    requires forall n :: 0 <= n < MAX_CODE_LEN ==> base[n] == shorter[n]
    requires forall n :: minLen <= n <= maxLen ==> limit[n] == first[n] + having[n] - 1
    modifies base
    ensures forall n :: minLen <= n <= maxLen ==> base[n] == first[n] - shorter[n]
    ensures forall n :: 0 <= n < MAX_CODE_LEN && !(minLen <= n <= maxLen) ==> base[n] == shorter[n]
  {
    var i := minLen + 1;
    while i <= maxLen
      invariant minLen + 1 <= i
      invariant forall n :: minLen <= n <= maxLen && n < i ==> base[n] == first[n] - shorter[n]
      invariant forall n :: i <= n < MAX_CODE_LEN ==> base[n] == shorter[n]
      invariant forall n :: 0 <= n < MAX_CODE_LEN && !(minLen <= n <= maxLen) ==> base[n] == shorter[n]
    {
      assert Linked(having, shorter, first, i);
      base[i] := (limit[i - 1] + 1) * 2 - base[i];
      i := i + 1;
    }
  }

  /** BZ2_hbCreateDecodeTables. */
  method CreateDecodeTables(limit: array<int>, base: array<int>, perm: array<int>, len: array<int>,
                            minLen: nat, maxLen: nat, alphaSize: nat)
    requires limit.Length == base.Length == perm.Length == MAX_ALPHA_SIZE
    requires limit != base && limit != perm && base != perm && len != limit && len != base && len != perm
    requires alphaSize <= MAX_ALPHA_SIZE && alphaSize <= len.Length && minLen <= maxLen <= MAX_LEN
    requires Spans(len[..alphaSize], minLen, maxLen)
    modifies limit, base, perm
    ensures Tables(limit[..], base[..], perm[..], len[..alphaSize], minLen, maxLen)
  {
    ghost var ls := len[..alphaSize];
    ghost var having, shorter, first := CountTables(ls);
    ZeroBelow(ls, minLen, minLen);
    ListByLength(perm, len, minLen, maxLen, alphaSize);
    assert forall i | 0 <= i < alphaSize :: len[i] == ls[i];
    CountLengths(base, len, alphaSize);
    FillLimits(limit, base, minLen, maxLen, having, shorter, first);
    FillBases(limit, base, minLen, maxLen, having, shorter, first);
    forall n | 0 <= n < MAX_CODE_LEN && !(minLen <= n <= maxLen)
      ensures base[n] == if n < minLen then 0 else alphaSize
    {
      OutsideLengths(ls, minLen, maxLen, n);
    }
  }

  lemma {:induction false} OutsideLengths(len: seq<int>, minLen: nat, maxLen: nat, n: nat)
    requires Spans(len, minLen, maxLen) && !(minLen <= n <= maxLen)
    ensures Shorter(len, n) == if n < minLen then 0 else |len|
  {
    if n < minLen {
      ZeroBelow(len, minLen, n);
    } else {
      AllShorter(len, n);
    }
  }

  /** What reading from a bit string can come to. */
  datatype Parsed<T> = Done(value: T, rest: seq<bit>) | More | Bad(why: Fault)

  /** An error that the decoder reports, or one that it does not see: more selectors than its arrays hold. */
  datatype Fault = Malformed | TooMany

  /** GET_MTF_VAL from the point where zn bits have been asked for. */
  ghost function ReadCode(limit: seq<int>, base: seq<int>, perm: seq<int>, bits: seq<bit>, zn: nat): Parsed<int>
    requires |limit| == |base| == |perm| == MAX_ALPHA_SIZE && zn <= MAX_LEN + 1
    decreases MAX_LEN + 1 - zn
  {
    if |bits| < zn then More
    else if zn > MAX_LEN then Bad(Malformed)
    else if ValueOf(bits[..zn]) <= limit[zn] then
      var k := ValueOf(bits[..zn]) - base[zn];
      if k < 0 || k >= MAX_ALPHA_SIZE then Bad(Malformed) else Done(perm[k], bits[zn..])
    else ReadCode(limit, base, perm, bits, zn + 1)
  }

  /** The k-th symbol by length, then number. */
  ghost function SymbolAt(len: seq<int>, k: int, rest: seq<bit>): Parsed<int> {
    if IsPlace(len, k) then (var s :| 0 <= s < |len| && 0 <= len[s] && Place(len, s) == k; Done(s, rest)) else Bad(Malformed)
  }

  ghost predicate IsPlace(len: seq<int>, k: int) {
    exists s :: 0 <= s < |len| && 0 <= len[s] && Place(len, s) == k
  }

  /**
   * What a code with these lengths says of a bit string, from the point where n bits have been asked for: the
   * first n bits are at most the last code of length n, and their distance from the first code gives the place.
   */
  ghost function Reads(len: seq<int>, bits: seq<bit>, n: nat): Parsed<int>
    requires n <= MAX_LEN + 1
    decreases MAX_LEN + 1 - n
  {
    if |bits| < n then More
    else if n > MAX_LEN then Bad(Malformed)
    else
      var v := ValueOf(bits[..n]);
      if v < First(len, n) + Having(len, n, |len|) then SymbolAt(len, v - First(len, n) + Shorter(len, n), bits[n..])
      else Reads(len, bits, n + 1)
  }

  /** Below the shortest length nothing is accepted. */
  lemma {:induction false} ReadsFromShortest(len: seq<int>, minLen: nat, bits: seq<bit>, n: nat)
    requires n <= minLen <= MAX_LEN && forall k :: 0 <= k < |len| ==> minLen <= len[k]
    ensures Reads(len, bits, n) == Reads(len, bits, minLen)
    decreases minLen - n
  {
    if n < minLen {
      ZeroBelow(len, minLen, n);
      NoneHaving(len, n, |len|);
      ReadsFromShortest(len, minLen, bits, n + 1);
    }
  }

  /** Beyond the longest length nothing is accepted either. */
  ghost predicate PastAll(len: seq<int>, maxLen: nat, bits: seq<bit>, n: nat) {
    n > maxLen && n <= |bits| ==> ValueOf(bits[..n]) >= First(len, n) > 0
  }

  lemma {:induction false} PastNext(len: seq<int>, maxLen: nat, bits: seq<bit>, n: nat)
    requires (forall k :: 0 <= k < |len| ==> len[k] <= maxLen) && maxLen in len && 0 <= n < |bits| && maxLen <= n
    requires PastAll(len, maxLen, bits, n) && ValueOf(bits[..n]) >= First(len, n) + Having(len, n, |len|)
    ensures PastAll(len, maxLen, bits, n + 1)
  {
    assert bits[..n + 1] == bits[..n] + [bits[n]];
    ValueSnoc(bits[..n], bits[n]);
    if n == maxLen {
      SomeHaving(len, maxLen);
    }
  }

  lemma {:induction false} SomeHaving(len: seq<int>, n: int)
    requires n in len
    ensures Having(len, n, |len|) > 0
  {
    var i :| 0 <= i < |len| && len[i] == n;
    HavingMono(len, n, i + 1, |len|);
  }

  /** The tables say what the lengths say, whatever the lengths and the bits are. */
  lemma {:induction false} TablesRead(limit: seq<int>, base: seq<int>, perm: seq<int>, len: seq<int>, minLen: nat, maxLen: nat,
                                     bits: seq<bit>, zn: nat)
    requires Tables(limit, base, perm, len, minLen, maxLen) && maxLen in len && minLen <= zn <= MAX_LEN + 1
    requires PastAll(len, maxLen, bits, zn)
    ensures ReadCode(limit, base, perm, bits, zn) == Reads(len, bits, zn)
    decreases MAX_LEN + 1 - zn
  {
    if zn <= |bits| && zn <= MAX_LEN {
      var more := TablesStep(limit, base, perm, len, minLen, maxLen, bits, zn);
      if more {
        TablesRead(limit, base, perm, len, minLen, maxLen, bits, zn + 1);
      }
    }
  }

  lemma {:induction false} TablesStep(limit: seq<int>, base: seq<int>, perm: seq<int>, len: seq<int>, minLen: nat, maxLen: nat,
                                     bits: seq<bit>, zn: nat) returns (more: bool)
    requires Tables(limit, base, perm, len, minLen, maxLen) && maxLen in len && minLen <= zn <= MAX_LEN && zn <= |bits|
    requires PastAll(len, maxLen, bits, zn)
    ensures !more ==> ReadCode(limit, base, perm, bits, zn) == Reads(len, bits, zn)
    ensures more ==> PastAll(len, maxLen, bits, zn + 1) && Reads(len, bits, zn) == Reads(len, bits, zn + 1)
    ensures more ==> ReadCode(limit, base, perm, bits, zn) == ReadCode(limit, base, perm, bits, zn + 1)
  {
    var v := ValueOf(bits[..zn]);
    LimitIs(limit, base, perm, len, minLen, maxLen, bits, zn, v);
    more := v > limit[zn];
    if more {
      ReadOn(limit, base, perm, bits, zn);
      ReadsOn(len, bits, zn);
      if zn >= maxLen && zn < |bits| {
        PastNext(len, maxLen, bits, zn);
      }
    } else {
      ReadHit(limit, base, perm, bits, zn, v - base[zn]);
      ReadsHit(len, bits, zn, v - base[zn]);
      TableAt(perm, len, v - base[zn], bits[zn..]);
    }
  }

  lemma {:induction false} ReadsOn(len: seq<int>, bits: seq<bit>, n: nat)
    requires n <= MAX_LEN && n <= |bits| && ValueOf(bits[..n]) >= First(len, n) + Having(len, n, |len|)
    ensures Reads(len, bits, n) == Reads(len, bits, n + 1)
  {
  }

  lemma {:induction false} ReadHit(limit: seq<int>, base: seq<int>, perm: seq<int>, bits: seq<bit>, zn: nat, k: int)
    requires |limit| == |base| == |perm| == MAX_ALPHA_SIZE && zn <= MAX_LEN && zn <= |bits| && ValueOf(bits[..zn]) <= limit[zn]
    requires k == ValueOf(bits[..zn]) - base[zn]
    ensures ReadCode(limit, base, perm, bits, zn) == if k < 0 || k >= MAX_ALPHA_SIZE then Bad(Malformed) else Done(perm[k], bits[zn..])
  {
  }

  lemma {:induction false} ReadsHit(len: seq<int>, bits: seq<bit>, n: nat, k: int)
    requires n <= MAX_LEN && n <= |bits| && ValueOf(bits[..n]) < First(len, n) + Having(len, n, |len|)
    requires k == ValueOf(bits[..n]) - First(len, n) + Shorter(len, n)
    ensures Reads(len, bits, n) == SymbolAt(len, k, bits[n..]) && k < |len|
  {
    ShorterTotal(len, n + 1);
  }

  /** A value is within the limit exactly if it is at most the last code of that length, which then exists. */
  lemma {:induction false} LimitIs(limit: seq<int>, base: seq<int>, perm: seq<int>, len: seq<int>, minLen: nat, maxLen: nat,
                                  bits: seq<bit>, zn: nat, v: nat)
    requires Tables(limit, base, perm, len, minLen, maxLen) && minLen <= zn <= MAX_LEN && zn <= |bits| && v == ValueOf(bits[..zn])
    requires PastAll(len, maxLen, bits, zn)
    ensures v <= limit[zn] <==> v < First(len, zn) + Having(len, zn, |len|)
    ensures v <= limit[zn] ==> zn <= maxLen && v - base[zn] == v - First(len, zn) + Shorter(len, zn)
  {
    if zn > maxLen {
      NoneHaving(len, zn, |len|);
    }
  }

  /** Every place below the number of symbols is taken. */
  lemma {:induction false} PlaceOnto(len: seq<int>, k: nat, n: nat) returns (s: nat)
    requires k < Shorter(len, n)
    ensures s < |len| && 0 <= len[s] && Place(len, s) == k
    decreases n
  {
    if k < Shorter(len, n - 1) {
      s := PlaceOnto(len, k, n - 1);
    } else {
      s := NthOfLength(len, n - 1, k - Shorter(len, n - 1), |len|);
    }
  }

  lemma {:induction false} NthOfLength(len: seq<int>, n: nat, j: nat, i: nat) returns (s: nat)
    requires i <= |len| && j < Having(len, n, i)
    ensures s < i && len[s] == n && Having(len, n, s) == j
    decreases i
  {
    if j < Having(len, n, i - 1) {
      s := NthOfLength(len, n, j, i - 1);
    } else {
      s := i - 1;
    }
  }

  lemma {:induction false} TableAt(perm: seq<int>, len: seq<int>, k: int, rest: seq<bit>)
    requires |perm| == MAX_ALPHA_SIZE && Ordered(perm, len) && k < |len| && forall i :: 0 <= i < |len| ==> 0 <= len[i] <= MAX_LEN
    ensures SymbolAt(len, k, rest) == if k < 0 then Bad(Malformed) else Done(perm[k], rest)
  {
    if k >= 0 {
      AllShorter(len, MAX_LEN + 1);
      var s := PlaceOnto(len, k, MAX_LEN + 1);
      assert IsPlace(len, k);
    }
  }

  /** Whatever the lengths, Kraft or not, and whatever the bits: a symbol that is read is one of the alphabet. */
  lemma {:induction false} ReadsSymbol(len: seq<int>, bits: seq<bit>, n: nat)
    requires n <= MAX_LEN + 1
    ensures var p := Reads(len, bits, n); p != Bad(TooMany) && (p.Done? ==> 0 <= p.value < |len| && |p.rest| + n <= |bits|)
    decreases MAX_LEN + 1 - n
  {
    if n <= |bits| && n <= MAX_LEN {
      ReadsSymbol(len, bits, n + 1);
    }
  }

  /** Two symbols do not share a place. */
  lemma {:induction false} PlaceUnique(len: seq<int>, s: nat, t: nat)
    requires s < |len| && t < |len| && 0 <= len[s] && 0 <= len[t] && Place(len, s) == Place(len, t)
    ensures s == t
  {
    if len[s] < len[t] || (len[s] == len[t] && s < t) {
      PlaceBefore(len, s, len[t], t);
    } else if len[t] < len[s] || t < s {
      PlaceBefore(len, t, len[s], s);
    }
  }

  lemma {:induction false} SymbolInPlace(len: seq<int>, s: nat, rest: seq<bit>)
    requires s < |len| && 0 <= len[s]
    ensures SymbolAt(len, Place(len, s), rest) == Done(s, rest)
  {
    assert IsPlace(len, Place(len, s));
    var t :| 0 <= t < |len| && 0 <= len[t] && Place(len, t) == Place(len, s) && SymbolAt(len, Place(len, s), rest) == Done(t, rest);
    PlaceUnique(len, s, t);
  }

  /** Reading a sent code gives the symbol back, and leaves the bits after it. */
  lemma {:induction false} ReadsBack(len: seq<int>, s: nat, rest: seq<bit>, n: nat)
    requires Lengths(len) && s < |len| && n <= len[s] && Code(len, s) < Pow2(len[s])
    ensures Reads(len, BitsOf(Code(len, s), len[s]) + rest, n) == Done(s, rest)
    decreases len[s] - n
  {
    var l, c := len[s], Code(len, s);
    CodePrefix(c, l, n, rest);
    if n < l {
      PrefixTooLarge(len, s, n);
      ReadsOn(len, BitsOf(c, l) + rest, n);
      ReadsBack(len, s, rest, n + 1);
    } else {
      CodeInRange(len, s);
      ReadsHit(len, BitsOf(c, l) + rest, n, Place(len, s));
      SymbolInPlace(len, s, rest);
    }
  }

  lemma {:induction false} ReadOn(limit: seq<int>, base: seq<int>, perm: seq<int>, bits: seq<bit>, zn: nat)
    requires |limit| == |base| == |perm| == MAX_ALPHA_SIZE && zn <= MAX_LEN && zn <= |bits| && ValueOf(bits[..zn]) > limit[zn]
    ensures ReadCode(limit, base, perm, bits, zn) == ReadCode(limit, base, perm, bits, zn + 1)
  {
  }

  lemma {:induction false} CodePrefix(c: nat, l: nat, zn: nat, rest: seq<bit>)
    requires zn <= l && c < Pow2(l)
    ensures var bits := BitsOf(c, l) + rest;
      && bits[l..] == rest
      && ValueOf(bits[..zn]) == c / Pow2(l - zn)
      && (zn == l ==> ValueOf(bits[..zn]) == c)
  {
    var bits := BitsOf(c, l) + rest;
    assert bits[..zn] == BitsOf(c, l)[..zn];
    BitsPrefix(c, l, zn);
    ShiftedFits(c, l, zn);
    BitsThenValue(c / Pow2(l - zn), zn);
    if zn == l {
      BitsThenValue(c, l);
      assert BitsOf(c, l)[..l] == BitsOf(c, l);
    }
  }

  lemma {:induction false} ShiftedFits(c: nat, l: nat, zn: nat)
    requires zn <= l && c < Pow2(l)
    ensures c / Pow2(l - zn) < Pow2(zn)
  {
    Pow2Split(zn, l);
    DivBelow(c, Pow2(zn), Pow2(l - zn));
  }

  lemma {:induction false} DivBelow(c: nat, a: nat, p: nat)
    requires p > 0 && c < a * p
    ensures c / p < a
  {
    if c / p >= a {
      MulMono(a, c / p, p);
    }
  }
}
