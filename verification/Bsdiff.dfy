/** Finding differences: search for matches, extend them both ways, and emit triples. */
module Bsdiff {
  import opened Bytes
  import opened Closing
  import opened DiffMeaning
  import opened Matches
  import Qsufsort
  import opened Replay
  import opened SuffixSearch

  // ---- the scan for the next match worth a triple ----

  lemma {:induction false} AgreeingSplit(src: seq<byte>, dst: seq<byte>, offset: int, a: nat, m: nat, b: nat)
    requires a <= m <= b <= |dst| && 0 <= a + offset
    ensures Agreeing(src, dst, offset, a, b) == Agreeing(src, dst, offset, a, m) + Agreeing(src, dst, offset, m, b)
    decreases b
  {
    if m < b {
      AgreeingSplit(src, dst, offset, a, m, b - 1);
    }
  }

  /** Counts matching bytes of the current alignment up to the end of a match. */
  method CountTo(src: seq<byte>, dst: seq<byte>, scsc0: nat, end: nat, offset: int, score: int) returns (scsc: nat, oldscore: int)
    requires end <= |dst| && 0 <= scsc0 + offset
    ensures scsc == (if scsc0 < end then end else scsc0)
    ensures oldscore == score + Agreeing(src, dst, offset, scsc0, end)
  {
    scsc, oldscore := scsc0, score;
    while scsc < end
      invariant scsc0 <= scsc && (scsc <= end || scsc == scsc0)
      invariant scsc <= end ==> oldscore == score + Agreeing(src, dst, offset, scsc0, scsc)
      invariant end <= scsc0 ==> oldscore == score
    {
      if Same(src, dst, scsc, offset) {
        oldscore := oldscore + 1;
      }
      scsc := scsc + 1;
    }
  }

  /** Before position scan is looked at: how far scsc has come, and what oldscore counts. */
  ghost predicate Scanned(I: seq<int>, src: seq<byte>, dst: seq<byte>, offset: int, start: nat, scan: nat, scsc: nat, oldscore: int)
    requires InRange(I, |src|) && 0 <= start + offset
  {
    && start <= scan <= |dst| && start <= scsc <= |dst|
    && scsc == (if scan == start then start else Reach(I, src, dst, start, scan - 1))
    && oldscore == Agreeing(src, dst, offset, start, scsc) - Agreeing(src, dst, offset, start, scan)
  }

  lemma {:induction false} ScanOne(I: seq<int>, src: seq<byte>, dst: seq<byte>, offset: int, start: nat, scan: nat,
                                  scsc: nat, oldscore: int, scsc': nat, oldscore': int)
    requires InRange(I, |src|) && 0 <= start + offset && Scanned(I, src, dst, offset, start, scan, scsc, oldscore) && scan < |dst|
    requires var end := scan + FoundLength(I, src, dst, scan);
      && scsc' == (if scsc < end then end else scsc)
      && oldscore' == oldscore + Agreeing(src, dst, offset, scsc, end)
    ensures scsc' == Reach(I, src, dst, start, scan) && oldscore' == Score(I, src, dst, offset, start, scan)
    ensures Scanned(I, src, dst, offset, start, scan + 1, scsc', oldscore' - if Same(src, dst, scan, offset) then 1 else 0)
  {
    if scsc < scsc' {
      AgreeingSplit(src, dst, offset, start, scsc, scsc');
    }
    AgreeingSplit(src, dst, offset, start, scan, scsc');
  }

  /**
   * The scan stands at a match that cannot be extended, oldscore says how well the current alignment does, and that
   * is as well as the match found, or worse by more than eight bytes.
   */
  ghost predicate StoppedAt(I: seq<int>, src: seq<byte>, dst: seq<byte>, offset: int, start: nat, scan: nat, len: nat, pos: nat, oldscore: int) {
    && InRange(I, |src|) && start <= scan < |dst| && 0 <= start + offset && pos <= |src| && 0 < len <= |dst| - scan
    && forall u {:trigger Peek(1, u)} :: Peek(1, u) ==>
         && Full(src, pos, dst, scan, len) && len == FoundLength(I, src, dst, scan) && oldscore == Score(I, src, dst, offset, start, scan)
         && Stops(I, src, dst, offset, start, scan)
  }

  /** What that means for the comparison. */
  lemma {:induction false} StoppedMeans(I: seq<int>, src: seq<byte>, dst: seq<byte>, offset: int, start: nat, scan: nat, len: nat, pos: nat, oldscore: int)
    requires StoppedAt(I, src, dst, offset, start, scan, len, pos, oldscore)
    ensures Stops(I, src, dst, offset, start, scan) && (len == oldscore <==> Even(I, src, dst, offset, start, scan))
  {
    assert Peek(1, 0);
    StopsIs(I, src, dst, offset, start, scan);
  }

  /** The scan has not stopped before scan. */
  ghost predicate NoneBefore(I: seq<int>, src: seq<byte>, dst: seq<byte>, offset: int, start: nat, scan: nat) {
    && InRange(I, |src|) && start <= scan <= |dst| && 0 <= start + offset
    && forall u {:trigger Peek(7, u)} :: Peek(7, u) ==> forall i :: start <= i < scan ==> !Stops(I, src, dst, offset, start, i)
  }

  lemma {:induction false} OneMoreBefore(I: seq<int>, src: seq<byte>, dst: seq<byte>, offset: int, start: nat, scan: nat)
    requires NoneBefore(I, src, dst, offset, start, scan) && scan < |dst| && !Stops(I, src, dst, offset, start, scan)
    ensures NoneBefore(I, src, dst, offset, start, scan + 1)
  {
  }

  /** One turn of the inner for loop. */
  method LookAt(I: seq<int>, src: seq<byte>, dst: seq<byte>, offset: int, ghost start: nat, scan: nat, scsc0: nat, score0: int)
    returns (stop: bool, len: nat, pos: nat, scsc: nat, oldscore: int)
    requires InRange(I, |src|) && 0 <= start + offset && start <= scan < |dst|
    requires Scanned(I, src, dst, offset, start, scan, scsc0, score0)
    ensures pos <= |src| && Hit(len, pos) == HitAt(I, src, dst, scan)
    ensures if stop then StoppedAt(I, src, dst, offset, start, scan, len, pos, oldscore) else !Stops(I, src, dst, offset, start, scan)
    ensures !stop ==> Scanned(I, src, dst, offset, start, scan + 1, scsc, oldscore)
  {
    len, pos := Lookup(I, src, dst, scan);
    HitIs(I, src, dst, scan);
    scsc, oldscore := CountTo(src, dst, scsc0, scan + len, offset, score0);
    ScanOne(I, src, dst, offset, start, scan, scsc0, score0, scsc, oldscore);
    StopsIs(I, src, dst, offset, start, scan);
    stop := (len == oldscore && len != 0) || len > oldscore + 8;
    if !stop && Same(src, dst, scan, offset) {
      oldscore := oldscore - 1;
    }
  }

  lemma {:induction false} StopFound(I: seq<int>, src: seq<byte>, dst: seq<byte>, offset: int, start: nat, scan: nat)
    requires NoneBefore(I, src, dst, offset, start, scan) && (scan < |dst| ==> Stops(I, src, dst, offset, start, scan))
    ensures scan == FirstStop(I, src, dst, offset, start)
    ensures forall i :: start <= i < scan ==> !Stops(I, src, dst, offset, start, i)
  {
    assert Peek(7, 0);
    OneFirstStop(I, src, dst, offset, start, scan);
  }

  /**
   * The inner for loop: it stops at the first position where the current alignment does as well as the match
   * found there, or worse by more than eight bytes, and oldscore says how well it does. It never stops where it
   * started without a match, so scanning makes progress.
   */
  method NextMatch(I: seq<int>, src: seq<byte>, dst: seq<byte>, start: nat, offset: int, len0: nat, pos0: nat)
    returns (scan: nat, len: nat, pos: nat, oldscore: int)
    requires InRange(I, |src|) && start <= |dst| && 0 <= start + offset && pos0 <= |src|
    ensures start <= scan <= |dst| && pos <= |src|
    ensures scan < |dst| ==> StoppedAt(I, src, dst, offset, start, scan, len, pos, oldscore) && Hit(len, pos) == HitAt(I, src, dst, scan)
    ensures forall i :: start <= i < scan ==> !Stops(I, src, dst, offset, start, i)
    ensures scan == FirstStop(I, src, dst, offset, start) && pos == LastFound(I, src, dst, start, scan, pos0)
    ensures scan < |dst| ==> (len == oldscore <==> Even(I, src, dst, offset, start, scan))
  {
    oldscore, scan, len, pos := 0, start, len0, pos0;
    var scsc := start;
    while scan < |dst|
      invariant start <= scan <= |dst| && pos <= |src|
      invariant Scanned(I, src, dst, offset, start, scan, scsc, oldscore) && NoneBefore(I, src, dst, offset, start, scan)
      invariant pos == if start < scan then HitAt(I, src, dst, scan - 1).pos else pos0
    {
      var stop;
      stop, len, pos, scsc, oldscore := LookAt(I, src, dst, offset, start, scan, scsc, oldscore);
      if stop {
        StoppedMeans(I, src, dst, offset, start, scan, len, pos, oldscore);
        break;
      }
      OneMoreBefore(I, src, dst, offset, start, scan);
      scan := scan + 1;
    }
    StopFound(I, src, dst, offset, start, scan);
  }

  /** Where every search finds the longest match, oldscore counts exactly the bytes that the match found covers. */
  lemma {:induction false} ReachIsEnd(I: seq<int>, src: seq<byte>, dst: seq<byte>, start: nat, i: nat)
    requires InRange(I, |src|) && start <= i <= |dst|
    requires forall j :: start <= j <= i ==> !Beyond(src, dst, j, FoundLength(I, src, dst, j))
    ensures Reach(I, src, dst, start, i) == i + FoundLength(I, src, dst, i)
    decreases i
  {
    if start < i {
      ReachIsEnd(I, src, dst, start, i - 1);
      LengthFallsSlowly(I, src, dst, i);
    }
  }

  lemma {:induction false} LengthFallsSlowly(I: seq<int>, src: seq<byte>, dst: seq<byte>, i: nat)
    requires InRange(I, |src|) && 0 < i <= |dst| && !Beyond(src, dst, i, FoundLength(I, src, dst, i))
    ensures FoundLength(I, src, dst, i - 1) <= FoundLength(I, src, dst, i) + 1
  {
    var n := FoundLength(I, src, dst, i - 1);
    if n > FoundLength(I, src, dst, i) + 1 {
      var a := I[Found(I, src, dst, i - 1, 0, |src|)];
      CommonIsFull(src, a, dst, i - 1);
      Shorter(src, a, dst, i - 1, n);
      LongerMatch(src, a + 1, dst, i, FoundLength(I, src, dst, i), n - 1);
    }
  }

  const ZABXAB: seq<byte> := [90, 97, 98, 120, 97, 98]
  const ZABX: seq<byte> := [90, 97, 98, 120]
  const ZABXAB_ORDER: seq<int> := [6, 0, 4, 1, 5, 2, 3]

  /**
   * Not everywhere: the old file Zabxab and the new file Zabx. At 0 the match has four bytes, at 1 the search
   * misses the match of three and finds one of two, and oldscore still counts up to 4.
   */
  lemma {:induction false} ReachCanPass()
    ensures InRange(ZABXAB_ORDER, |ZABXAB|) && FoundLength(ZABXAB_ORDER, ZABXAB, ZABX, 1) == 2
    ensures Reach(ZABXAB_ORDER, ZABXAB, ZABX, 0, 1) == 4
  {
    var I, s, t := ZABXAB_ORDER, ZABXAB, ZABX;
    LowerByCommon(s, 1, t, 0);
    LowerByCommon(s, 0, t, 0);
    LowerByCommon(s, 1, t, 1);
    LowerByCommon(s, 0, t, 1);
    LowerByCommon(s, 4, t, 1);
    assert Common(s, 4, t, 1) == 2 && Common(s, 0, t, 1) == 0;
    assert Found(I, s, t, 1, 1, 2) == 2;
    assert Found(I, s, t, 1, 1, 3) == 2;
    assert Found(I, s, t, 1, 0, 3) == 2;
    assert Found(I, s, t, 0, 0, 1) == 1;
    assert Found(I, s, t, 0, 0, 3) == 1;
  }

  /** A match without its first byte. */
  lemma {:induction false} Shorter(src: seq<byte>, a: int, dst: seq<byte>, b: int, n: int)
    requires Match(src, a, dst, b, n) && n > 0
    ensures Match(src, a + 1, dst, b + 1, n - 1)
  {
    assert src[a + 1..a + n] == src[a..a + n][1..];
    assert dst[b + 1..b + n] == dst[b..b + n][1..];
  }

  // ---- extending matches ----

  /** Among the lengths up to m. */
  ghost predicate ForwardSoFar(src: seq<byte>, dst: seq<byte>, a: nat, b: nat, m: nat, n: nat) {
    IsFirstBest(ForwardGain(src, dst, a, b), m, n)
  }

  lemma {:induction false} ForwardStep(src: seq<byte>, dst: seq<byte>, a: nat, b: nat, m: nat, n: nat)
    requires ForwardSoFar(src, dst, a, b, m, n) && a + m < |src| && b + m < |dst|
    ensures ForwardSoFar(src, dst, a, b, m + 1,
                         if 2 * Hits(src, a, dst, b, n) - n < 2 * Hits(src, a, dst, b, m + 1) - (m + 1) then m + 1 else n)
  {
    BestStep(ForwardGain(src, dst, a, b), m, n);
  }

  /** Extends the last match forward to where twice the hits less the length is largest. */
  method ExtendForward(src: seq<byte>, dst: seq<byte>, lastscan: nat, lastpos: nat, scan: nat) returns (lenf: nat)
    requires lastscan <= scan <= |dst| && lastpos <= |src|
    ensures lastscan + lenf <= scan && lastpos + lenf <= |src|
    ensures forall i :: 0 <= i && lastscan + i <= scan && lastpos + i <= |src| ==>
              2 * Hits(src, lastpos, dst, lastscan, i) - i <= 2 * Hits(src, lastpos, dst, lastscan, lenf) - lenf
    ensures lenf == FirstBest(ForwardGain(src, dst, lastpos, lastscan), Least(scan - lastscan, |src| - lastpos))
  {
    var s, Sf, i := 0, 0, 0;
    lenf := 0;
    BestStart(ForwardGain(src, dst, lastpos, lastscan));
    while lastscan + i < scan && lastpos + i < |src|
      invariant lastscan + i <= scan && lastpos + i <= |src| && 0 <= lenf <= i
      invariant s == Hits(src, lastpos, dst, lastscan, i) && Sf == Hits(src, lastpos, dst, lastscan, lenf)
      invariant ForwardSoFar(src, dst, lastpos, lastscan, i, lenf)
    {
      ForwardStep(src, dst, lastpos, lastscan, i, lenf);
      if src[lastpos + i] == dst[lastscan + i] {
        s := s + 1;
      }
      i := i + 1;
      if s * 2 - i > Sf * 2 - lenf {
        Sf := s;
        lenf := i;
      }
    }
    ForwardIsBest(src, dst, lastpos, lastscan, i, lenf);
  }

  lemma {:induction false} ForwardIsBest(src: seq<byte>, dst: seq<byte>, a: nat, b: nat, m: nat, n: nat)
    requires a + m <= |src| && b + m <= |dst| && ForwardSoFar(src, dst, a, b, m, n)
    ensures n == FirstBest(ForwardGain(src, dst, a, b), m)
    ensures forall k :: 0 <= k <= m ==> 2 * Hits(src, a, dst, b, k) - k <= 2 * Hits(src, a, dst, b, n) - n
  {
    var f := ForwardGain(src, dst, a, b);
    assert Look(0);
    OneFirstBest(f, m, n);
    forall k | 0 <= k <= m
      ensures 2 * Hits(src, a, dst, b, k) - k <= 2 * Hits(src, a, dst, b, n) - n
    {
      assert f(k) <= f(n);
    }
  }

  ghost predicate BackwardSoFar(src: seq<byte>, dst: seq<byte>, a: nat, b: nat, m: nat, n: nat) {
    IsFirstBest(BackwardGain(src, dst, a, b), m, n)
  }

  lemma {:induction false} BackwardStep(src: seq<byte>, dst: seq<byte>, a: nat, b: nat, m: nat, n: nat)
    requires BackwardSoFar(src, dst, a, b, m, n) && m < a <= |src| && m < b <= |dst|
    ensures BackwardSoFar(src, dst, a, b, m + 1,
                          if 2 * HitsBack(src, a, dst, b, n) - n < 2 * HitsBack(src, a, dst, b, m + 1) - (m + 1) then m + 1 else n)
  {
    BestStep(BackwardGain(src, dst, a, b), m, n);
  }

  /** Extends the new match backward in the same way. */
  method ExtendBackward(src: seq<byte>, dst: seq<byte>, lastscan: nat, scan: nat, pos: nat) returns (lenb: nat)
    requires lastscan <= scan <= |dst| && pos <= |src|
    ensures lastscan + lenb <= scan && lenb <= pos
    ensures forall i :: 0 <= i && lastscan + i <= scan && i <= pos ==>
              2 * HitsBack(src, pos, dst, scan, i) - i <= 2 * HitsBack(src, pos, dst, scan, lenb) - lenb
    ensures lenb == FirstBest(BackwardGain(src, dst, pos, scan), Least(scan - lastscan, pos))
  {
    var s, Sb, i := 0, 0, 1;
    lenb := 0;
    BestStart(BackwardGain(src, dst, pos, scan));
    while scan >= lastscan + i && pos >= i
      invariant 1 <= i <= pos + 1 && lastscan + i <= scan + 1 && 0 <= lenb < i
      invariant s == HitsBack(src, pos, dst, scan, i - 1) && Sb == HitsBack(src, pos, dst, scan, lenb)
      invariant BackwardSoFar(src, dst, pos, scan, i - 1, lenb)
    {
      BackwardStep(src, dst, pos, scan, i - 1, lenb);
      if src[pos - i] == dst[scan - i] {
        s := s + 1;
      }
      if s * 2 - i > Sb * 2 - lenb {
        Sb := s;
        lenb := i;
      }
      i := i + 1;
    }
    BackwardIsBest(src, dst, pos, scan, i - 1, lenb);
  }

  lemma {:induction false} BackwardIsBest(src: seq<byte>, dst: seq<byte>, a: nat, b: nat, m: nat, n: nat)
    requires m <= a <= |src| && m <= b <= |dst| && BackwardSoFar(src, dst, a, b, m, n)
    ensures n == FirstBest(BackwardGain(src, dst, a, b), m)
    ensures forall k :: 0 <= k <= m ==> 2 * HitsBack(src, a, dst, b, k) - k <= 2 * HitsBack(src, a, dst, b, n) - n
  {
    var f := BackwardGain(src, dst, a, b);
    assert Look(0);
    OneFirstBest(f, m, n);
    forall k | 0 <= k <= m
      ensures 2 * HitsBack(src, a, dst, b, k) - k <= 2 * HitsBack(src, a, dst, b, n) - n
    {
      assert f(k) <= f(n);
    }
  }

  /** Where to cut n bytes that both extensions claim: the forward one's hits before the cut, less the backward one's. */
  method CutOverlap(src: seq<byte>, dst: seq<byte>, a: nat, b: nat, c: nat, n: nat) returns (lens: nat)
    requires b + n <= |dst| && a + n <= |src| && c + n <= |src|
    ensures lens <= n
    ensures forall k :: 0 <= k <= n ==>
              Hits(src, a, dst, b, k) - Hits(src, c, dst, b, k) <= Hits(src, a, dst, b, lens) - Hits(src, c, dst, b, lens)
    ensures lens == FirstBest(CutGain(src, dst, a, b, c), n)
  {
    ghost var f := CutGain(src, dst, a, b, c);
    var s, Ss, i := 0, 0, 0;
    lens := 0;
    BestStart(f);
    while i < n
      invariant 0 <= i <= n && 0 <= lens <= i
      invariant s == Hits(src, a, dst, b, i) - Hits(src, c, dst, b, i)
      invariant Ss == Hits(src, a, dst, b, lens) - Hits(src, c, dst, b, lens) && IsFirstBest(f, i, lens)
    {
      BestStep(f, i, lens);
      if dst[b + i] == src[a + i] {
        s := s + 1;
      }
      if dst[b + i] == src[c + i] {
        s := s - 1;
      }
      if s > Ss {
        Ss := s;
        lens := i + 1;
      }
      i := i + 1;
    }
    CutIsBest(src, dst, a, b, c, n, lens);
  }

  lemma {:induction false} CutIsBest(src: seq<byte>, dst: seq<byte>, a: nat, b: nat, c: nat, m: nat, n: nat)
    requires a + m <= |src| && b + m <= |dst| && c + m <= |src| && IsFirstBest(CutGain(src, dst, a, b, c), m, n)
    ensures n == FirstBest(CutGain(src, dst, a, b, c), m)
    ensures forall k :: 0 <= k <= m ==>
              Hits(src, a, dst, b, k) - Hits(src, c, dst, b, k) <= Hits(src, a, dst, b, n) - Hits(src, c, dst, b, n)
  {
    var f := CutGain(src, dst, a, b, c);
    assert Look(0);
    OneFirstBest(f, m, n);
    forall k | 0 <= k <= m
      ensures Hits(src, a, dst, b, k) - Hits(src, c, dst, b, k) <= Hits(src, a, dst, b, n) - Hits(src, c, dst, b, n)
    {
      assert f(k) <= f(n);
    }
  }

  /** The two lengths for a triple: the best ones, cut where they overlap, so that they stay in both files. */
  method Lengths(src: seq<byte>, dst: seq<byte>, lastscan: nat, lastpos: nat, scan: nat, pos: nat) returns (lenf: nat, lenb: nat)
    requires lastscan <= scan <= |dst| && lastpos <= |src| && pos <= |src|
    ensures lastscan + lenf <= scan - lenb && lenb <= pos && lastpos + lenf <= |src|
    ensures scan == |dst| ==> lenb == 0
    ensures Reached(lenf, lenb) == Settled(src, dst, lastscan, lastpos, scan, pos)
  {
    lenf := ExtendForward(src, dst, lastscan, lastpos, scan);
    lenb := 0;
    if scan < |dst| {
      lenb := ExtendBackward(src, dst, lastscan, scan, pos);
    }
    if lastscan + lenf > scan - lenb {
      var overlap := (lastscan + lenf) - (scan - lenb);
      var lens := CutOverlap(src, dst, lastpos + lenf - overlap, scan - lenb, pos - lenb, overlap);
      lenf := lenf + lens - overlap;
      lenb := lenb - lens;
    }
  }

  // ---- the whole comparison ----

  /** Offsets stay within the sizes of the files. */
  ghost predicate Bounded(ctrl: seq<Triple>, limit: int) {
    forall i :: 0 <= i < |ctrl| ==> 0 <= ctrl[i].x <= limit && 0 <= ctrl[i].y <= limit && -limit <= ctrl[i].z <= limit
  }

  /** What the triples so far build; their offsets stay within the sizes of the files. */
  ghost predicate Built(src: seq<byte>, dst: seq<byte>, p: Patch, lastscan: nat, lastpos: nat) {
    forall u {:trigger Peek(2, u)} :: Peek(2, u) ==>
      Builds(src, dst, p.ctrl, p.db, p.eb, lastscan, lastpos) && Bounded(p.ctrl, |src| + |dst|) && (src == [] ==> p.db == [])
  }

  /** q is p with the triple for the match at scan, whose extension reaches b bytes back. */
  ghost predicate Emitted(src: seq<byte>, dst: seq<byte>, p: Patch, q: Patch, lastscan: nat, lastpos: nat, scan: nat, pos: nat, b: int) {
    && lastscan <= scan <= |dst| && lastpos <= |src| && pos <= |src| && forall u {:trigger Peek(3, u)} :: Peek(3, u) ==>
      && q == Joined(p, TripleFor(src, dst, lastscan, lastpos, scan, pos))
      && b == Settled(src, dst, lastscan, lastpos, scan, pos).backward
  }

  /** Emits one triple and the bytes for it. */
  method Emit(src: seq<byte>, dst: seq<byte>, p: Patch, lastscan: nat, lastpos: nat, scan: nat, pos: nat)
    returns (q: Patch, lastscan': nat, lastpos': nat)
    requires lastscan < |dst| && lastscan <= scan <= |dst| && lastpos <= |src| && pos <= |src|
    requires Built(src, dst, p, lastscan, lastpos)
    ensures Built(src, dst, q, lastscan', lastpos')
    ensures lastscan' <= scan && lastpos' <= pos && scan - lastscan' == pos - lastpos'
    ensures scan == |dst| ==> lastscan' == |dst|
    ensures |q.ctrl| == |p.ctrl| + 1
    ensures Emitted(src, dst, p, q, lastscan, lastpos, scan, pos, scan - lastscan')
  {
    var lenf, lenb := Lengths(src, dst, lastscan, lastpos, scan, pos);
    lastscan', lastpos' := scan - lenb, pos - lenb;
    assert Peek(2, 0) && Peek(3, 0);
    BuildsMore(src, dst, p.ctrl, p.db, p.eb, lastscan, lastpos, lenf, lastscan', lastpos');
    q := Patch(p.ctrl + [Triple(lenf, (scan - lenb) - (lastscan + lenf), (pos - lenb) - (lastpos + lenf))],
               p.db + Differences(src, dst, lastscan, lastpos, lenf), p.eb + dst[lastscan + lenf..scan - lenb]);
  }

  lemma {:induction false} JoinedMore(p: Patch, q: Patch, r: Patch)
    ensures Joined(Joined(p, q), r) == Joined(p, Joined(q, r))
  {
    assert p.ctrl + q.ctrl + r.ctrl == p.ctrl + (q.ctrl + r.ctrl);
    assert p.db + q.db + r.db == p.db + (q.db + r.db);
    assert p.eb + q.eb + r.eb == p.eb + (q.eb + r.eb);
  }

  lemma {:induction false} JoinedNothing(p: Patch)
    ensures Joined(p, NOTHING) == p && Joined(NOTHING, p) == p
  {
  }

  /** p and what is still to come make up the patch; after the last match nothing is. */
  ghost predicate Halfway(I: seq<int>, src: seq<byte>, dst: seq<byte>, p: Patch, scan: nat, z: Stand) {
    InRange(I, |src|) && (scan < |dst| ==> Sound(I, src, dst, z)) && forall u {:trigger Peek(4, u)} :: Peek(4, u) ==> MakesUp(I, src, dst, p, scan, z)
  }

  ghost predicate MakesUp(I: seq<int>, src: seq<byte>, dst: seq<byte>, p: Patch, scan: nat, z: Stand)
    requires InRange(I, |src|) && (scan < |dst| ==> Sound(I, src, dst, z))
  {
    DiffOf(I, src, dst) == if scan == |dst| then p else if scan < |dst| then Joined(p, DiffFrom(I, src, dst, z)) else NOTHING
  }

  lemma {:induction false} NotYet(I: seq<int>, src: seq<byte>, dst: seq<byte>)
    requires InRange(I, |src|)
    ensures Halfway(I, src, dst, NOTHING, 0, Stand(0, 0, 0, 0, 0))
  {
    if dst != [] {
      JoinedNothing(DiffFrom(I, src, dst, Stand(0, 0, 0, 0, 0)));
    }
  }

  /** Where the loop stands at scan, with a match of len bytes there. */
  ghost predicate Going(src: seq<byte>, dst: seq<byte>, p: Patch, scan: nat, len: nat, z: Stand) {
    && scan <= |dst| && (scan < |dst| ==> scan + len <= |dst|) && z.start == scan + len && z.pos <= |src| && z.lastpos <= |src|
    && z.lastscan <= scan && 0 <= scan + z.lastoffset && (scan < |dst| ==> z.lastscan < |dst|) && (scan == |dst| ==> z.lastscan == |dst|)
    && Built(src, dst, p, z.lastscan, z.lastpos)
    && |p.ctrl| + (if scan < |dst| then 1 + |dst| - (scan + len) else 0) <= |dst| + 1
  }

  /** What one turn does: it passes over the match, or makes a triple. */
  ghost predicate Turned(I: seq<int>, src: seq<byte>, dst: seq<byte>, p: Patch, z: Stand, q: Patch, scan: nat, len: nat, z': Stand) {
    && Sound(I, src, dst, z) && z.start <= scan <= |dst| && forall u {:trigger Peek(5, u)} :: Peek(5, u) ==>
      && scan == FirstStop(I, src, dst, z.lastoffset, z.start) && z'.pos == LastFound(I, src, dst, z.start, scan, z.pos)
      && (scan < |dst| ==> HitAt(I, src, dst, scan) == Hit(len, z'.pos))
      && if scan < |dst| && Even(I, src, dst, z.lastoffset, z.start, scan) then q == p && z' == z.(start := scan + len, pos := z'.pos)
         else Emitted(src, dst, p, q, z.lastscan, z.lastpos, scan, z'.pos, scan - z'.lastscan)
              && z'.start == scan + len && z'.lastpos == z'.pos - (scan - z'.lastscan) && z'.lastoffset == z'.pos - scan
  }

  /** The scan has stopped at a match that the current alignment reaches as well. */
  lemma {:induction false} PassedOver(I: seq<int>, src: seq<byte>, dst: seq<byte>, p: Patch, scan0: nat, z: Stand, q: Patch, scan: nat, len: nat, z': Stand)
    requires scan0 < |dst| && Halfway(I, src, dst, p, scan0, z) && Turned(I, src, dst, p, z, q, scan, len, z')
    requires scan < |dst| && Even(I, src, dst, z.lastoffset, z.start, scan)
    ensures Halfway(I, src, dst, q, scan, z')
  {
    assert Peek(4, 0) && Peek(5, 0);
    DiffPasses(I, src, dst, z, scan, len, z'.pos);
  }

  /** A triple has been made for the end. */
  lemma {:induction false} LastMade(I: seq<int>, src: seq<byte>, dst: seq<byte>, p: Patch, scan0: nat, z: Stand, q: Patch, scan: nat, len: nat, z': Stand)
    requires scan0 < |dst| && Halfway(I, src, dst, p, scan0, z) && Turned(I, src, dst, p, z, q, scan, len, z') && scan == |dst|
    ensures Halfway(I, src, dst, q, scan, z')
  {
    assert Peek(3, 0) && Peek(4, 0) && Peek(5, 0);
    DiffEnds(I, src, dst, z, z'.pos);
  }

  /** A triple has been made for the match where the scan has stopped. */
  lemma {:induction false} TripleMade(I: seq<int>, src: seq<byte>, dst: seq<byte>, p: Patch, scan0: nat, z: Stand, q: Patch, scan: nat, len: nat, z': Stand)
    requires scan0 < |dst| && Halfway(I, src, dst, p, scan0, z) && Turned(I, src, dst, p, z, q, scan, len, z')
    requires scan < |dst| && !Even(I, src, dst, z.lastoffset, z.start, scan)
    ensures Halfway(I, src, dst, q, scan, z')
  {
    var t := TripleSteps(I, src, dst, p, z, q, scan, len, z');
    assert Peek(4, 0);
    JoinedMore(p, t, DiffFrom(I, src, dst, z'));
  }

  lemma {:induction false} TripleSteps(I: seq<int>, src: seq<byte>, dst: seq<byte>, p: Patch, z: Stand, q: Patch, scan: nat, len: nat, z': Stand)
    returns (t: Patch)
    requires Turned(I, src, dst, p, z, q, scan, len, z') && scan < |dst| && !Even(I, src, dst, z.lastoffset, z.start, scan)
    ensures Sound(I, src, dst, z') && q == Joined(p, t) && DiffFrom(I, src, dst, z) == Joined(t, DiffFrom(I, src, dst, z'))
  {
    var b := TurnIs(I, src, dst, p, z, q, scan, len, z');
    t := EmittedIs(src, dst, p, q, z.lastscan, z.lastpos, scan, z'.pos, b);
    DiffTriple(I, src, dst, z, scan, len, z'.pos, b);
  }

  lemma {:induction false} TurnIs(I: seq<int>, src: seq<byte>, dst: seq<byte>, p: Patch, z: Stand, q: Patch, scan: nat, len: nat, z': Stand)
    returns (b: int)
    requires Turned(I, src, dst, p, z, q, scan, len, z') && scan < |dst| && !Even(I, src, dst, z.lastoffset, z.start, scan)
    ensures scan == FirstStop(I, src, dst, z.lastoffset, z.start) && HitAt(I, src, dst, scan) == Hit(len, z'.pos)
    ensures Emitted(src, dst, p, q, z.lastscan, z.lastpos, scan, z'.pos, b) && b <= scan && b <= z'.pos
    ensures z' == Stand(scan + len, z'.pos, scan - b, z'.pos - b, z'.pos - scan)
  {
    assert Peek(5, 0);
    b := scan - z'.lastscan;
  }

  lemma {:induction false} EmittedIs(src: seq<byte>, dst: seq<byte>, p: Patch, q: Patch, lastscan: nat, lastpos: nat, scan: nat, pos: nat, b: int)
    returns (t: Patch)
    requires Emitted(src, dst, p, q, lastscan, lastpos, scan, pos, b)
    ensures t == TripleFor(src, dst, lastscan, lastpos, scan, pos) && q == Joined(p, t)
    ensures b == Settled(src, dst, lastscan, lastpos, scan, pos).backward
  {
    assert Peek(3, 0);
    t := TripleFor(src, dst, lastscan, lastpos, scan, pos);
  }

  lemma {:induction false} TurnKeeps(I: seq<int>, src: seq<byte>, dst: seq<byte>, p: Patch, scan0: nat, z: Stand, q: Patch, scan: nat, len: nat, z': Stand)
    requires scan0 < |dst| && Halfway(I, src, dst, p, scan0, z) && Turned(I, src, dst, p, z, q, scan, len, z')
    ensures Halfway(I, src, dst, q, scan, z')
  {
    if scan == |dst| {
      LastMade(I, src, dst, p, scan0, z, q, scan, len, z');
    } else if Even(I, src, dst, z.lastoffset, z.start, scan) {
      PassedOver(I, src, dst, p, scan0, z, q, scan, len, z');
    } else {
      TripleMade(I, src, dst, p, scan0, z, q, scan, len, z');
    }
  }

  /** One turn of the outer loop. */
  method ScanOn(I: seq<int>, src: seq<byte>, dst: seq<byte>, p0: Patch, ghost scan0: nat, ghost len0: nat, z: Stand)
    returns (p: Patch, scan: nat, len: nat, z': Stand)
    requires InRange(I, |src|) && scan0 < |dst| && Going(src, dst, p0, scan0, len0, z)
    ensures Going(src, dst, p, scan, len, z') && Turned(I, src, dst, p0, z, p, scan, len, z')
    ensures scan < |dst| ==> z.start < z'.start
  {
    var mpos, oldscore;
    scan, len, mpos, oldscore := NextMatch(I, src, dst, z.start, z.lastoffset, 0, z.pos);
    if len != oldscore || scan == |dst| {
      var lastscan, lastpos;
      p, lastscan, lastpos := Emit(src, dst, p0, z.lastscan, z.lastpos, scan, mpos);
      z' := Stand(scan + len, mpos, lastscan, lastpos, mpos - scan);
    } else {
      p, z' := p0, z.(start := scan + len, pos := mpos);
    }
  }

  /** For any order of suffixes the patch rebuilds the new file and uses up all of its triples and bytes. */
  method Diff(I: seq<int>, src: seq<byte>, dst: seq<byte>) returns (p: Patch, ghost pos: int)
    requires InRange(I, |src|)
    ensures Run(src, |dst|, Progress([], 0, p.ctrl, p.db, p.eb)) == Some(Progress(dst, pos, [], [], []))
    ensures Bounded(p.ctrl, |src| + |dst|) && |p.ctrl| <= |dst| + 1 && (src == [] ==> p.db == [])
    ensures p == DiffOf(I, src, dst)
  {
    p := NOTHING;
    BuildsNothing(src, dst);
    NotYet(I, src, dst);
    var scan: nat, len: nat, z := 0, 0, Stand(0, 0, 0, 0, 0);
    while scan < |dst|
      invariant Going(src, dst, p, scan, len, z) && Halfway(I, src, dst, p, scan, z)
      decreases if scan < |dst| then 1 + |dst| - z.start else 0
    {
      ghost var p0, scan0, z0 := p, scan, z;
      p, scan, len, z := ScanOn(I, src, dst, p, scan, len, z);
      TurnKeeps(I, src, dst, p0, scan0, z0, p, scan, len, z);
    }
    assert Peek(2, 0) && Peek(4, 0);
    BuildsAll(src, dst, p.ctrl, p.db, p.eb, z.lastpos);
    pos := z.lastpos;
  }

  /** The patch for two files, with the suffixes of the old one in order. */
  ghost predicate IsPatch(src: seq<byte>, dst: seq<byte>, p: Patch) {
    exists order {:trigger Qsufsort.SuffixArray(src, order)} ::
      Qsufsort.SuffixArray(src, order) && InRange(order, |src|) && p == DiffOf(order, src, dst)
  }

  /** Equal files make one triple, whose differences are all zero, and no extra bytes. */
  lemma {:induction false} EqualFiles(s: seq<byte>, p: Patch)
    requires IsPatch(s, s, p) && s != []
    ensures |p.ctrl| == 1 && p.ctrl[0].x == |s| && p.ctrl[0].y == 0 && p.eb == []
    ensures |p.db| == |s| && forall i :: 0 <= i < |s| ==> p.db[i] == 0
  {
    var order :| Qsufsort.SuffixArray(s, order) && InRange(order, |s|) && p == DiffOf(order, s, s);
    SameFile(order, s);
  }

  /** Sorts the suffixes of the old file and compares. */
  method Compare(src: seq<byte>, dst: seq<byte>) returns (p: Patch, ghost pos: int)
    ensures Run(src, |dst|, Progress([], 0, p.ctrl, p.db, p.eb)) == Some(Progress(dst, pos, [], [], []))
    ensures Bounded(p.ctrl, |src| + |dst|) && |p.ctrl| <= |dst| + 1 && (src == [] ==> p.db == [])
    ensures IsPatch(src, dst, p)
  {
    var I, V := new int[|src| + 1], new int[|src| + 1];
    Qsufsort.Sort(I, V, src);
    p, pos := Diff(I[..], src, dst);
  }
}
