/** The Burrows-Wheeler transform and its inverse, as the FAST decoder computes it. */
module InverseBwt {
  import opened Arith
  import opened Bytes
  import opened Counting
  import opened Permutations
  import opened Rotation

  function Prev(x: int, n: int): int {
    if x - 1 < 0 then x - 1 + n else x - 1
  }

  /** The byte before each rotation, in sorted order: what the encoder sends. */
  ghost function LastColumn(b: seq<byte>, p: seq<int>): (l: seq<byte>)
    requires IsPerm(p, |b|)
  {
    seq(|b|, i requires 0 <= i < |b| => b[Prev(p[i], |b|)])
  }

  /** The bytes met on the way from row pos along t. */
  ghost function Unwind(l: seq<byte>, t: seq<int>, pos: int, m: nat): (r: seq<byte>)
    requires |t| == |l| && Within(t, |l|)
    requires 0 <= pos < |l|
    ensures |r| == m
    decreases m
  {
    if m == 0 then [] else [l[pos]] + Unwind(l, t, t[pos], m - 1)
  }

  lemma {:induction false} LastColumnAt(b: seq<byte>, p: seq<int>, i: nat)
    requires IsPerm(p, |b|)
    requires i < |b|
    ensures LastColumn(b, p)[i] == At(b, Prev(p[i], |b|)) == At(b, p[i] - 1) == At(b, p[i] + (|b| - 1))
  {
    AtWrap(b, p[i] - 1);
    assert p[i] - 1 + |b| == p[i] + (|b| - 1);
    SmallMod(Prev(p[i], |b|), |b|);
  }

  lemma {:induction false} SmallMod(x: int, n: int)
    requires 0 <= x < n
    ensures x % n == x
  {
    ModUnique(x, n, 0, x);
  }

  /** The rotations one byte earlier, in the order in which t lists the rows. */
  ghost function Shifted(p: seq<int>, t: seq<int>): seq<int>
    requires |t| == |p| && Within(t, |p|)
  {
    seq(|p|, k requires 0 <= k < |p| => Prev(p[t[k]], |p|))
  }

  lemma {:induction false} ShiftedIsPerm(p: seq<int>, t: seq<int>, n: nat)
    requires IsPerm(p, n) && IsPerm(t, n)
    ensures IsPerm(Shifted(p, t), n)
  {
    PermDistinct(p, n);
    PermDistinct(t, n);
    DistinctPerm(Shifted(p, t), n);
  }

  /** Putting the last byte in front keeps rows sorted, because t is stable within each byte. */
  lemma {:induction false} ShiftedIsSorted(b: seq<byte>, p: seq<int>, t: seq<int>)
    requires |b| > 0
    requires IsPerm(p, |b|) && RotSorted(b, p)
    requires IsPerm(t, |b|) && UndoesRank(LastColumn(b, p), t)
    ensures RotSorted(b, Shifted(p, t))
  {
    forall k, m | 0 <= k < m < |b|
      ensures Cmp(b, Shifted(p, t)[k], Shifted(p, t)[m], |b|) <= 0
    {
      ShiftedPair(b, p, t, k, m);
    }
  }

  lemma {:induction false} ShiftedPair(b: seq<byte>, p: seq<int>, t: seq<int>, k: nat, m: nat)
    requires |b| > 0
    requires IsPerm(p, |b|) && RotSorted(b, p)
    requires IsPerm(t, |b|) && UndoesRank(LastColumn(b, p), t)
    requires k < m < |b|
    ensures Cmp(b, Prev(p[t[k]], |b|), Prev(p[t[m]], |b|), |b|) <= 0
  {
    var l := LastColumn(b, p);
    UndoneRank(l, t, k);
    UndoneRank(l, t, m);
    RankOrder(l, t[k], t[m]);
    RowsBefore(b, p, t[k], t[m]);
  }

  lemma {:induction false} RowsBefore(b: seq<byte>, p: seq<int>, i: nat, j: nat)
    requires |b| > 0
    requires IsPerm(p, |b|) && RotSorted(b, p)
    requires i < |b| && j < |b| && Before(LastColumn(b, p), i, j)
    ensures Cmp(b, Prev(p[i], |b|), Prev(p[j], |b|), |b|) <= 0
  {
    LastColumnAt(b, p, i);
    LastColumnAt(b, p, j);
    PrevCmp(b, p[i], p[j]);
    if LastColumn(b, p)[i] == LastColumn(b, p)[j] {
      CmpSplit(b, p[i], p[j], |b| - 1, 1);
    }
  }

  /** Comparing the rotations one earlier: first the bytes before, then the rotations themselves. */
  lemma {:induction false} PrevCmp(b: seq<byte>, x: int, y: int)
    requires |b| > 0 && 0 <= x < |b| && 0 <= y < |b|
    ensures Cmp(b, Prev(x, |b|), Prev(y, |b|), |b|)
         == if At(b, x - 1) != At(b, y - 1) then At(b, x - 1) - At(b, y - 1) else Cmp(b, x, y, |b| - 1)
  {
    var n := |b|;
    CmpWrap(b, x - 1, y - 1, n);
    CmpWrap(b, x - 1 + n, y - 1, n);
    assert x - 1 + 1 == x && y - 1 + 1 == y;
  }

  /** Row t[k] holds the rotation that follows row k's, up to equal rotations. */
  lemma {:induction false} StepForward(b: seq<byte>, p: seq<int>, t: seq<int>, k: nat)
    requires |b| > 0
    requires IsPerm(p, |b|) && RotSorted(b, p)
    requires UndoesRank(LastColumn(b, p), t)
    requires k < |b|
    ensures 0 <= t[k] < |b|
    ensures Cmp(b, p[t[k]], p[k] + 1, |b|) == 0
  {
    UndoesRankPerm(LastColumn(b, p), t);
    StepBack(b, p, t, k);
    FromPrev(b, p[t[k]], p[k]);
  }

  lemma {:induction false} StepBack(b: seq<byte>, p: seq<int>, t: seq<int>, k: nat)
    requires |b| > 0
    requires IsPerm(p, |b|) && RotSorted(b, p)
    requires IsPerm(t, |b|) && UndoesRank(LastColumn(b, p), t)
    requires k < |b|
    ensures Cmp(b, Prev(p[t[k]], |b|), p[k], |b|) == 0
  {
    ShiftedIsPerm(p, t, |b|);
    ShiftedIsSorted(b, p, t);
    SortedOrdersAgree(b, Shifted(p, t), p, k);
  }

  lemma {:induction false} FromPrev(b: seq<byte>, x: int, y: int)
    requires |b| > 0
    requires Cmp(b, Prev(x, |b|), y, |b|) == 0
    ensures Cmp(b, x, y + 1, |b|) == 0
  {
    CmpShift(b, Prev(x, |b|), y);
    CmpWrap(b, x, y + 1, |b|);
  }

  lemma {:induction false} CmpShift(b: seq<byte>, x: int, y: int)
    requires |b| > 0
    requires Cmp(b, x, y, |b|) == 0
    ensures Cmp(b, x + 1, y + 1, |b|) == 0
  {
    CmpTie(b, x, y, |b| + 1);
  }

  /** From a row whose rotation equals the one at offset i + 1, the walk reads the block from offset i on. */
  lemma {:induction false} UnwindFrom(b: seq<byte>, p: seq<int>, t: seq<int>, pos: int, i: nat, m: nat)
    requires |b| > 0
    requires IsPerm(p, |b|) && RotSorted(b, p)
    requires UndoesRank(LastColumn(b, p), t) && Within(t, |b|)
    requires 0 <= pos < |b|
    requires Cmp(b, p[pos], i + 1, |b|) == 0
    ensures forall k :: 0 <= k < m ==> Unwind(LastColumn(b, p), t, pos, m)[k] == At(b, i + k)
    decreases m
  {
    if m > 0 {
      var n := |b|;
      LastColumnAt(b, p, pos);
      CmpZeroAt(b, p[pos], i + 1, n, n - 1);
      AtWrap(b, i);
      assert i + 1 + (n - 1) == i + n;
      StepForward(b, p, t, pos);
      CmpShift(b, p[pos], i + 1);
      CmpTrans(b, p[t[pos]], p[pos] + 1, i + 1 + 1, n);
      UnwindFrom(b, p, t, t[pos], i + 1, m - 1);
      var rest := Unwind(LastColumn(b, p), t, t[pos], m - 1);
      forall k | 0 <= k < m
        ensures Unwind(LastColumn(b, p), t, pos, m)[k] == At(b, i + k)
      {
        if k > 0 {
          assert rest[k - 1] == At(b, i + 1 + (k - 1));
        }
      }
    }
  }

  /**
   * The inverse transform: whatever order equal rotations were left in, following t from origPtr
   * reads the block, and then the block again from its start.
   */
  lemma {:induction false} UnwindRestoresBlock(b: seq<byte>, p: seq<int>, t: seq<int>, origPtr: nat, m: nat)
    requires |b| > 0
    requires IsPerm(p, |b|) && RotSorted(b, p)
    requires origPtr < |b| && p[origPtr] == 0
    requires UndoesRank(LastColumn(b, p), t)
    ensures Within(t, |b|)
    ensures forall k :: 0 <= k < m ==> Unwind(LastColumn(b, p), t, t[origPtr], m)[k] == At(b, k)
    ensures m == |b| ==> Unwind(LastColumn(b, p), t, t[origPtr], m) == b
  {
    UndoesRankPerm(LastColumn(b, p), t);
    StepForward(b, p, t, origPtr);
    UnwindFrom(b, p, t, t[origPtr], 0, m);
    if m == |b| {
      forall k | 0 <= k < m
        ensures Unwind(LastColumn(b, p), t, t[origPtr], m)[k] == b[k]
      {
        SmallMod(k, m);
      }
    }
  }

  /** High part of a tt word: the link; the low eight bits stay the byte of the last column. */
  ghost function Links(tt: seq<int>): seq<int> {
    seq(|tt|, k requires 0 <= k < |tt| => tt[k] / 256)
  }

  ghost function Total(f: seq<int>, c: nat): int
    requires c <= |f|
  {
    if c == 0 then 0 else Total(f, c - 1) + f[c - 1]
  }

  /** Turns byte counts into the start offset of each byte's rows. */
  method Cumulate(unzftab: array<int>, cftab: array<int>)
    requires unzftab.Length == 256 && cftab.Length == 257 && unzftab != cftab
    modifies cftab
    ensures forall c :: 0 <= c <= 256 ==> cftab[c] == Total(unzftab[..], c)
  {
    cftab[0] := 0;
    var i := 1;
    while i <= 256
      invariant 1 <= i <= 257
      invariant cftab[0] == 0
      invariant forall c :: 1 <= c < i ==> cftab[c] == unzftab[c - 1]
    {
      cftab[i] := unzftab[i - 1];
      i := i + 1;
    }
    i := 1;
    while i <= 256
      invariant 1 <= i <= 257
      invariant forall c :: 0 <= c < i ==> cftab[c] == Total(unzftab[..], c)
      invariant forall c :: i <= c <= 256 ==> cftab[c] == unzftab[c - 1]
    {
      cftab[i] := cftab[i] + cftab[i - 1];
      i := i + 1;
    }
  }

  /** The decoder's sanity checks on the two tables. */
  method TablesInRange(unzftab: array<int>, cftab: array<int>, nblock: nat) returns (ok: bool)
    requires unzftab.Length == 256 && cftab.Length == 257
    ensures ok <==> && (forall c :: 0 <= c < 256 ==> 0 <= unzftab[c] <= nblock)
                    && (forall c :: 0 <= c <= 256 ==> 0 <= cftab[c] <= nblock)
                    && (forall c :: 1 <= c <= 256 ==> cftab[c - 1] <= cftab[c])
  {
    var i := 0;
    while i <= 255
      invariant 0 <= i <= 256
      invariant forall c :: 0 <= c < i ==> 0 <= unzftab[c] <= nblock
    {
      if unzftab[i] < 0 || unzftab[i] > nblock {
        return false;
      }
      i := i + 1;
    }
    i := 0;
    while i <= 256
      invariant 0 <= i <= 257
      invariant forall c :: 0 <= c < i ==> 0 <= cftab[c] <= nblock
    {
      if cftab[i] < 0 || cftab[i] > nblock {
        return false;
      }
      i := i + 1;
    }
    i := 1;
    while i <= 256
      invariant 1 <= i <= 257
      invariant forall c :: 1 <= c < i ==> cftab[c - 1] <= cftab[c]
    {
      if cftab[i - 1] > cftab[i] {
        return false;
      }
      i := i + 1;
    }
    return true;
  }

  ghost predicate CountsOf(f: seq<int>, l: seq<byte>) {
    |f| == 256 && forall c :: 0 <= c < 256 ==> f[c] == Count(l, c)
  }

  /** Counts that match a column pass the checks and give the number of smaller bytes. */
  lemma {:induction false} MatchingCounts(f: seq<int>, l: seq<byte>)
    requires CountsOf(f, l)
    ensures forall c :: 0 <= c < 256 ==> 0 <= f[c] <= |l|
    ensures forall c :: 0 <= c <= 256 ==> 0 <= Total(f, c) == Below(l, c) <= |l|
    ensures forall c :: 1 <= c <= 256 ==> Total(f, c - 1) <= Total(f, c)
  {
    forall c | 0 <= c <= 256
      ensures Total(f, c) == Below(l, c)
    {
      TotalIsBelow(f, l, c);
    }
    forall c | 0 <= c < 256
      ensures 0 <= f[c] <= |l| && Below(l, c) <= |l|
    {
      BelowNext(l, c);
      BelowMono(l, c, c + 1);
    }
    BelowEnds(l);
  }

  lemma {:induction false} TotalIsBelow(f: seq<int>, l: seq<byte>, c: nat)
    requires CountsOf(f, l)
    requires c <= 256
    ensures Total(f, c) == Below(l, c)
  {
    if c == 0 {
      BelowEnds(l);
    } else {
      TotalIsBelow(f, l, c - 1);
      BelowNext(l, c - 1);
    }
  }

  /** The state of tt after i rows: bytes in place everywhere, links written for the rows done. */
  ghost predicate Threaded(w: seq<int>, l: seq<byte>, i: nat) {
    && |w| == |l|
    && (forall j :: 0 <= j < |l| ==> w[j] % 256 == l[j])
    && (forall j :: 0 <= j < |l| ==> 0 <= Rank(l, j) < |l|)
    && (forall j :: 0 <= j < |l| ==> w[Rank(l, j)] / 256 == if j < i then j else 0)
  }

  lemma {:induction false} ThreadStep(w: seq<int>, l: seq<byte>, i: nat)
    requires i < |l| && Threaded(w, l, i)
    ensures Threaded(w[Rank(l, i) := w[Rank(l, i)] + i * 256], l, i + 1)
  {
    RankFresh(l, i);
  }

  lemma {:induction false} ThreadedLinks(w: seq<int>, l: seq<byte>)
    requires Threaded(w, l, |l|)
    ensures UndoesRank(l, Links(w))
  {
  }

  /** Threads the inverse links through tt in place, leaving the last column in the low bytes. */
  method ThreadLinks(tt: array<int>, cftab: array<int>, nblock: nat, ghost l: seq<byte>)
    requires cftab.Length == 257 && tt != cftab
    requires nblock == |l| <= tt.Length
    requires forall i :: 0 <= i < nblock ==> tt[i] == l[i]
    requires forall c :: 0 <= c < 256 ==> cftab[c] == Below(l, c)
    modifies tt, cftab
    ensures Threaded(tt[..nblock], l, nblock)
    ensures UndoesRank(l, Links(tt[..nblock]))
  {
    RanksInRange(l);
    var i := 0;
    while i < nblock
      invariant 0 <= i <= nblock
      invariant forall c :: 0 <= c < 256 ==> cftab[c] == Below(l, c) + Count(l[..i], c)
      invariant Threaded(tt[..nblock], l, i)
    {
      ThreadStep(tt[..nblock], l, i);
      CountsAfter(l, i);
      assert tt[i] == tt[..nblock][i];
      var uc := tt[i] % 256;
      var k := cftab[uc];
      ghost var was := tt[..nblock];
      // the link bits of this word are still zero, so the source's |= is an addition
      tt[k] := tt[k] + i * 256;
      assert tt[..nblock] == was[k := was[k] + i * 256];
      cftab[uc] := k + 1;
      i := i + 1;
    }
    ThreadedLinks(tt[..nblock], l);
  }

  lemma {:induction false} CountsAfter(l: seq<byte>, i: nat)
    requires i < |l|
    ensures forall c :: Count(l[..i + 1], c) == Count(l[..i], c) + if l[i] == c then 1 else 0
  {
    forall c
      ensures Count(l[..i + 1], c) == Count(l[..i], c) + if l[i] == c then 1 else 0
    {
      CountStep(l, i, c);
    }
  }

  lemma {:induction false} RankFresh(l: seq<byte>, i: nat)
    requires i < |l|
    ensures forall j :: 0 <= j < |l| && j != i ==> Rank(l, j) != Rank(l, i)
  {
    forall j | 0 <= j < |l| && j != i
      ensures Rank(l, j) != Rank(l, i)
    {
      RankOrder(l, i, j);
      RankOrder(l, j, i);
    }
  }

  /** One byte by BZ_GET_FAST: the word at tPos holds the byte and the next position. */
  method GetFast(tt: array<int>, tPos: int) returns (r: Result<(byte, int)>)
    requires 0 <= tPos
    ensures r.Ok? <==> tPos < tt.Length
    ensures r.Ok? ==> r.value == (tt[tPos] % 256, tt[tPos] / 256)
  {
    if tPos >= tt.Length {
      return Corrupt;
    }
    var word := tt[tPos];
    return Ok((word % 256, word / 256));
  }

  /** Reads m bytes from origPtr on; no position ever leaves the table. */
  method UnwindFast(tt: array<int>, nblock: nat, origPtr: nat, m: nat, ghost l: seq<byte>) returns (out: seq<byte>)
    requires origPtr < nblock == |l| <= tt.Length
    requires Threaded(tt[..nblock], l, nblock)
    ensures UndoesRank(l, Links(tt[..nblock])) && Within(Links(tt[..nblock]), nblock)
    ensures out == Unwind(l, Links(tt[..nblock]), Links(tt[..nblock])[origPtr], m)
  {
    ghost var t := Links(tt[..nblock]);
    ThreadedLinks(tt[..nblock], l);
    UndoesRankPerm(l, t);
    out := [];
    assert t[origPtr] == tt[..nblock][origPtr] / 256 == tt[origPtr] / 256;
    var tPos := tt[origPtr] / 256;
    for k := 0 to m
      invariant 0 <= tPos < nblock
      invariant out + Unwind(l, t, tPos, m - k) == Unwind(l, t, t[origPtr], m)
    {
      assert tt[tPos] == tt[..nblock][tPos] && t[tPos] == tt[tPos] / 256;
      assert Unwind(l, t, tPos, m - k) == [l[tPos]] + Unwind(l, t, t[tPos], m - k - 1);
      var r := GetFast(tt, tPos);
      out := out + [r.value.0];
      tPos := r.value.1;
    }
  }
}
