/** What bsdiff finds: where its scan stops, how far it extends a match, and the triples that come of it. */
module DiffMeaning {
  import opened Bytes
  import opened Closing
  import opened Matches
  import opened Replay
  import opened SuffixSearch

  // ---- the scan ----

  function Same(src: seq<byte>, dst: seq<byte>, i: nat, offset: int): bool
    requires i < |dst| && 0 <= i + offset
  {
    i + offset < |src| && src[i + offset] == dst[i]
  }

  /** How many bytes from a up to b agree with the old file at the given offset. */
  ghost function Agreeing(src: seq<byte>, dst: seq<byte>, offset: int, a: nat, b: nat): (n: nat)
    requires b <= |dst| && 0 <= a + offset
    ensures n <= if a < b then b - a else 0
    decreases b
  {
    if b <= a then 0 else Agreeing(src, dst, offset, a, b - 1) + if Same(src, dst, b - 1, offset) then 1 else 0
  }

  /** The furthest end of a match found from start up to i: how far scsc has come. */
  ghost function Reach(I: seq<int>, src: seq<byte>, dst: seq<byte>, start: nat, i: nat): (e: nat)
    requires InRange(I, |src|) && start <= i <= |dst|
    ensures i + FoundLength(I, src, dst, i) <= e <= |dst|
    decreases i
  {
    var end := i + FoundLength(I, src, dst, i);
    if i == start then end
    else
      var before := Reach(I, src, dst, start, i - 1);
      if before < end then end else before
  }

  /** How many bytes from i up to there the current alignment gets right. */
  ghost function Score(I: seq<int>, src: seq<byte>, dst: seq<byte>, offset: int, start: nat, i: nat): nat
    requires InRange(I, |src|) && start <= i <= |dst| && 0 <= start + offset
  {
    Agreeing(src, dst, offset, i, Reach(I, src, dst, start, i))
  }

  /** The current alignment does as well as the match found, or worse by more than eight. */
  ghost predicate Stops(I: seq<int>, src: seq<byte>, dst: seq<byte>, offset: int, start: nat, i: nat)
    requires InRange(I, |src|) && start <= i <= |dst| && 0 <= start + offset
  {
    forall u {:trigger Look(u)} :: Look(u) ==>
      var len, score := FoundLength(I, src, dst, i), Score(I, src, dst, offset, start, i);
      (len == score && len != 0) || len > score + 8
  }

  /** The current alignment does as well as the match found. */
  ghost predicate Even(I: seq<int>, src: seq<byte>, dst: seq<byte>, offset: int, start: nat, i: nat)
    requires InRange(I, |src|) && start <= i <= |dst| && 0 <= start + offset
  {
    forall u {:trigger Look(u)} :: Look(u) ==> FoundLength(I, src, dst, i) == Score(I, src, dst, offset, start, i)
  }

  lemma {:induction false} StopsIs(I: seq<int>, src: seq<byte>, dst: seq<byte>, offset: int, start: nat, i: nat)
    requires InRange(I, |src|) && start <= i <= |dst| && 0 <= start + offset
    ensures var len, score := FoundLength(I, src, dst, i), Score(I, src, dst, offset, start, i);
      && (Stops(I, src, dst, offset, start, i) <==> (len == score && len != 0) || len > score + 8)
      && (Even(I, src, dst, offset, start, i) <==> len == score)
  {
    assert Look(0);
  }

  /** The first place from start on where the scan stops, or the end. */
  ghost predicate IsFirstStop(I: seq<int>, src: seq<byte>, dst: seq<byte>, offset: int, start: nat, scan: nat)
    requires InRange(I, |src|) && start <= |dst| && 0 <= start + offset
  {
    start <= scan <= |dst| && forall u {:trigger Look(u)} :: Look(u) ==>
      && (scan < |dst| ==> Stops(I, src, dst, offset, start, scan))
      && forall j :: start <= j < scan ==> !Stops(I, src, dst, offset, start, j)
  }

  lemma {:induction false} StopExists(I: seq<int>, src: seq<byte>, dst: seq<byte>, offset: int, start: nat, i: nat) returns (scan: nat)
    requires InRange(I, |src|) && start <= i <= |dst| && 0 <= start + offset
    requires forall j :: start <= j < i ==> !Stops(I, src, dst, offset, start, j)
    ensures IsFirstStop(I, src, dst, offset, start, scan)
    decreases |dst| - i
  {
    if i == |dst| || Stops(I, src, dst, offset, start, i) {
      scan := i;
    } else {
      scan := StopExists(I, src, dst, offset, start, i + 1);
    }
  }

  lemma {:induction false} SomeStop(I: seq<int>, src: seq<byte>, dst: seq<byte>, offset: int, start: nat)
    requires InRange(I, |src|) && start <= |dst| && 0 <= start + offset
    ensures exists scan: nat :: IsFirstStop(I, src, dst, offset, start, scan)
  {
    var scan := StopExists(I, src, dst, offset, start, start);
  }

  ghost function FirstStop(I: seq<int>, src: seq<byte>, dst: seq<byte>, offset: int, start: nat): (scan: nat)
    requires InRange(I, |src|) && start <= |dst| && 0 <= start + offset
    ensures IsFirstStop(I, src, dst, offset, start, scan)
  {
    SomeStop(I, src, dst, offset, start);
    var scan: nat :| IsFirstStop(I, src, dst, offset, start, scan);
    scan
  }

  lemma {:induction false} OneFirstStop(I: seq<int>, src: seq<byte>, dst: seq<byte>, offset: int, start: nat, scan: nat)
    requires InRange(I, |src|) && start <= |dst| && 0 <= start + offset && IsFirstStop(I, src, dst, offset, start, scan)
    ensures scan == FirstStop(I, src, dst, offset, start)
  {
    assert Look(0);
    var n := FirstStop(I, src, dst, offset, start);
    assert IsFirstStop(I, src, dst, offset, start, n);
  }

  /** What a search finds. */
  datatype Hit = Hit(len: nat, pos: nat)

  ghost predicate IsHit(I: seq<int>, src: seq<byte>, dst: seq<byte>, scan: nat, m: Hit)
    requires InRange(I, |src|) && scan <= |dst|
  {
    scan + m.len <= |dst| && m.pos <= |src|
    && forall u {:trigger Look(u)} :: Look(u) ==> m == Hit(FoundLength(I, src, dst, scan), FoundAt(I, src, dst, scan))
  }

  ghost function HitAt(I: seq<int>, src: seq<byte>, dst: seq<byte>, scan: nat): (m: Hit)
    requires InRange(I, |src|) && scan <= |dst|
    ensures IsHit(I, src, dst, scan, m)
  {
    assert IsHit(I, src, dst, scan, Hit(FoundLength(I, src, dst, scan), FoundAt(I, src, dst, scan)));
    var m :| IsHit(I, src, dst, scan, m);
    m
  }

  lemma {:induction false} HitIs(I: seq<int>, src: seq<byte>, dst: seq<byte>, scan: nat)
    requires InRange(I, |src|) && scan <= |dst|
    ensures HitAt(I, src, dst, scan) == Hit(FoundLength(I, src, dst, scan), FoundAt(I, src, dst, scan))
  {
    assert Look(0);
  }

  /** A match that stops the scan is not empty. */
  lemma {:induction false} StopsAtHit(I: seq<int>, src: seq<byte>, dst: seq<byte>, offset: int, start: nat)
    requires InRange(I, |src|) && start <= |dst| && 0 <= start + offset
    ensures var scan := FirstStop(I, src, dst, offset, start); scan < |dst| ==> HitAt(I, src, dst, scan).len > 0
  {
    var scan := FirstStop(I, src, dst, offset, start);
    assert Look(0);
    if scan < |dst| {
      StopsIs(I, src, dst, offset, start, scan);
      HitIs(I, src, dst, scan);
    }
  }

  /** Where the last search of the scan found its match; pos if nothing was searched. */
  ghost function LastFound(I: seq<int>, src: seq<byte>, dst: seq<byte>, start: nat, scan: nat, pos: nat): (p: nat)
    requires InRange(I, |src|) && start <= scan <= |dst| && pos <= |src|
    ensures p <= |src|
  {
    if scan < |dst| then HitAt(I, src, dst, scan).pos else if start < scan then HitAt(I, src, dst, scan - 1).pos else pos
  }

  // ---- extending matches ----

  /** n is the first of the numbers 0..m at which f is largest. */
  ghost predicate IsFirstBest(f: int -> int, m: nat, n: nat) {
    n <= m && forall u {:trigger Look(u)} :: Look(u) ==> LargestFirstAt(f, m, n)
  }

  ghost predicate LargestFirstAt(f: int -> int, m: nat, n: nat) {
    (forall i :: 0 <= i <= m ==> f(i) <= f(n)) && forall i :: 0 <= i < n ==> f(i) < f(n)
  }

  lemma {:induction false} BestExists(f: int -> int, m: nat) returns (n: nat)
    ensures IsFirstBest(f, m, n)
  {
    if m == 0 {
      n := 0;
    } else {
      n := BestExists(f, m - 1);
      assert Look(0);
      if f(n) < f(m) {
        n := m;
      }
    }
  }

  ghost function FirstBest(f: int -> int, m: nat): (n: nat)
    ensures IsFirstBest(f, m, n)
  {
    SomeBest(f, m);
    var n: nat :| IsFirstBest(f, m, n);
    n
  }

  lemma {:induction false} SomeBest(f: int -> int, m: nat)
    ensures exists n: nat :: IsFirstBest(f, m, n)
  {
    var n := BestExists(f, m);
  }

  lemma {:induction false} BestStart(f: int -> int)
    ensures IsFirstBest(f, 0, 0)
  {
  }

  lemma {:induction false} BestStep(f: int -> int, m: nat, n: nat)
    requires IsFirstBest(f, m, n)
    ensures IsFirstBest(f, m + 1, if f(n) < f(m + 1) then m + 1 else n)
  {
    assert Look(0);
  }

  lemma {:induction false} OneFirstBest(f: int -> int, m: nat, n: nat)
    requires n <= m && (forall i :: 0 <= i <= m ==> f(i) <= f(n)) && forall i :: 0 <= i < n ==> f(i) < f(n)
    ensures n == FirstBest(f, m)
  {
    assert Look(0);
    var k := FirstBest(f, m);
    assert f(k) <= f(n) && f(n) <= f(k);
  }

  /** How many of the first i bytes match. */
  ghost function Hits(src: seq<byte>, a: int, dst: seq<byte>, b: int, i: nat): (s: nat)
    requires 0 <= a && a + i <= |src| && 0 <= b && b + i <= |dst|
    ensures s <= i
  {
    if i == 0 then 0 else Hits(src, a, dst, b, i - 1) + if src[a + i - 1] == dst[b + i - 1] then 1 else 0
  }

  /** How many of the i bytes before a and b match. */
  ghost function HitsBack(src: seq<byte>, a: int, dst: seq<byte>, b: int, i: nat): (s: nat)
    requires 0 <= a - i && a <= |src| && 0 <= b - i && b <= |dst|
    ensures s <= i
  {
    if i == 0 then 0 else HitsBack(src, a, dst, b, i - 1) + if src[a - i] == dst[b - i] then 1 else 0
  }

  /** Twice the matching bytes less the length, for i bytes from a and b on. */
  ghost function ForwardGain(src: seq<byte>, dst: seq<byte>, a: nat, b: nat): int -> int {
    i => if 0 <= i && a + i <= |src| && b + i <= |dst| then 2 * Hits(src, a, dst, b, i) - i else 0
  }

  /** The same for the i bytes before a and b. */
  ghost function BackwardGain(src: seq<byte>, dst: seq<byte>, a: nat, b: nat): int -> int {
    i => if 0 <= i && 0 <= a - i && a <= |src| && 0 <= b - i && b <= |dst| then 2 * HitsBack(src, a, dst, b, i) - i else 0
  }

  /** What the forward extension from a matches of the first i bytes, less what the backward one from c does. */
  ghost function CutGain(src: seq<byte>, dst: seq<byte>, a: nat, b: nat, c: nat): int -> int {
    i => if 0 <= i && a + i <= |src| && c + i <= |src| && b + i <= |dst| then Hits(src, a, dst, b, i) - Hits(src, c, dst, b, i) else 0
  }

  /** How far the last match reaches forward, and the next one backward. */
  datatype Reached = Reached(forward: nat, backward: nat)

  /** Each extension by itself. */
  ghost function Extended(src: seq<byte>, dst: seq<byte>, lastscan: nat, lastpos: nat, scan: nat, pos: nat): (r: Reached)
    requires lastscan <= scan <= |dst| && lastpos <= |src| && pos <= |src|
    ensures lastscan + r.forward <= scan && lastpos + r.forward <= |src| && lastscan + r.backward <= scan && r.backward <= pos
  {
    Reached(FirstBest(ForwardGain(src, dst, lastpos, lastscan), Least(scan - lastscan, |src| - lastpos)),
            if scan < |dst| then FirstBest(BackwardGain(src, dst, pos, scan), Least(scan - lastscan, pos)) else 0)
  }

  /** Where they overlap, they are cut at the first place that keeps the most matches. */
  ghost function Settled(src: seq<byte>, dst: seq<byte>, lastscan: nat, lastpos: nat, scan: nat, pos: nat): (r: Reached)
    requires lastscan <= scan <= |dst| && lastpos <= |src| && pos <= |src|
    ensures lastscan + r.forward <= scan - r.backward && lastpos + r.forward <= |src| && r.backward <= pos
    ensures scan == |dst| ==> r.backward == 0
  {
    var e := Extended(src, dst, lastscan, lastpos, scan, pos);
    var overlap := (lastscan + e.forward) - (scan - e.backward);
    if overlap <= 0 then e
    else
      var cut := FirstBest(CutGain(src, dst, lastpos + e.forward - overlap, scan - e.backward, pos - e.backward), overlap);
      Reached(e.forward + cut - overlap, e.backward - cut)
  }

  // ---- the whole comparison ----

  datatype Patch = Patch(ctrl: seq<Triple>, db: seq<byte>, eb: seq<byte>)

  /** Where the comparison stands: up to where it has scanned, and where the last triple ended. */
  datatype Stand = Stand(start: nat, pos: nat, lastscan: nat, lastpos: nat, lastoffset: int)

  ghost predicate Sound(I: seq<int>, src: seq<byte>, dst: seq<byte>, z: Stand) {
    && InRange(I, |src|) && z.lastscan <= z.start <= |dst| && z.lastpos <= |src| && z.pos <= |src| && 0 <= z.start + z.lastoffset
  }

  /** The triple between the last match and the one at scan, with its bytes. */
  ghost function TripleFor(src: seq<byte>, dst: seq<byte>, lastscan: nat, lastpos: nat, scan: nat, pos: nat): Patch
    requires lastscan <= scan <= |dst| && lastpos <= |src| && pos <= |src|
  {
    var r := Settled(src, dst, lastscan, lastpos, scan, pos);
    var end := lastscan + r.forward;
    Patch([Triple(r.forward, (scan - r.backward) - end, (pos - r.backward) - (lastpos + r.forward))],
          Differences(src, dst, lastscan, lastpos, r.forward), dst[end..scan - r.backward])
  }

  ghost function Joined(p: Patch, q: Patch): Patch {
    Patch(p.ctrl + q.ctrl, p.db + q.db, p.eb + q.eb)
  }

  /** What is still to come: matches that the current alignment reaches as well make no triple. */
  ghost function DiffFrom(I: seq<int>, src: seq<byte>, dst: seq<byte>, z: Stand): (p: Patch)
    requires Sound(I, src, dst, z)
    ensures IsRest(I, src, dst, z, p)
    decreases |dst| - z.start, 2
  {
    var q := Rest(I, src, dst, z);
    assert IsRest(I, src, dst, z, q);
    var p :| IsRest(I, src, dst, z, p);
    p
  }

  /** That p is the rest is opened place by place. */
  ghost predicate IsRest(I: seq<int>, src: seq<byte>, dst: seq<byte>, z: Stand, p: Patch)
    requires Sound(I, src, dst, z)
    decreases |dst| - z.start, 1
  {
    forall u {:trigger Peek(6, u)} :: Peek(6, u) && u == z.start ==> p == Rest(I, src, dst, z)
  }

  ghost function Rest(I: seq<int>, src: seq<byte>, dst: seq<byte>, z: Stand): Patch
    requires Sound(I, src, dst, z)
    decreases |dst| - z.start, 0
  {
    var scan := FirstStop(I, src, dst, z.lastoffset, z.start);
    var pos := LastFound(I, src, dst, z.start, scan, z.pos);
    if scan == |dst| then TripleFor(src, dst, z.lastscan, z.lastpos, scan, pos)
    else
      StopsAtHit(I, src, dst, z.lastoffset, z.start);
      var end := scan + HitAt(I, src, dst, scan).len;
      if Even(I, src, dst, z.lastoffset, z.start, scan) then DiffFrom(I, src, dst, z.(start := end, pos := pos))
      else
        var b := Settled(src, dst, z.lastscan, z.lastpos, scan, pos).backward;
        Joined(TripleFor(src, dst, z.lastscan, z.lastpos, scan, pos),
               DiffFrom(I, src, dst, Stand(end, pos, scan - b, pos - b, pos - scan)))
  }

  lemma {:induction false} DiffIsRest(I: seq<int>, src: seq<byte>, dst: seq<byte>, z: Stand)
    requires Sound(I, src, dst, z)
    ensures DiffFrom(I, src, dst, z) == Rest(I, src, dst, z)
  {
    var p := DiffFrom(I, src, dst, z);
    assert IsRest(I, src, dst, z, p);
    assert Peek(6, z.start);
  }

  lemma {:induction false} DiffEnds(I: seq<int>, src: seq<byte>, dst: seq<byte>, z: Stand, pos: nat)
    requires Sound(I, src, dst, z) && FirstStop(I, src, dst, z.lastoffset, z.start) == |dst|
    requires pos == LastFound(I, src, dst, z.start, |dst|, z.pos)
    ensures DiffFrom(I, src, dst, z) == TripleFor(src, dst, z.lastscan, z.lastpos, |dst|, pos)
  {
    DiffIsRest(I, src, dst, z);
  }

  lemma {:induction false} DiffPasses(I: seq<int>, src: seq<byte>, dst: seq<byte>, z: Stand, scan: nat, len: nat, pos: nat)
    requires Sound(I, src, dst, z) && scan == FirstStop(I, src, dst, z.lastoffset, z.start) < |dst|
    requires HitAt(I, src, dst, scan) == Hit(len, pos) && Even(I, src, dst, z.lastoffset, z.start, scan)
    ensures Sound(I, src, dst, z.(start := scan + len, pos := pos)) && len > 0
    ensures DiffFrom(I, src, dst, z) == DiffFrom(I, src, dst, z.(start := scan + len, pos := pos))
  {
    DiffIsRest(I, src, dst, z);
    StopsAtHit(I, src, dst, z.lastoffset, z.start);
  }

  lemma {:induction false} DiffTriple(I: seq<int>, src: seq<byte>, dst: seq<byte>, z: Stand, scan: nat, len: nat, pos: nat, b: nat)
    requires Sound(I, src, dst, z) && scan == FirstStop(I, src, dst, z.lastoffset, z.start) < |dst|
    requires HitAt(I, src, dst, scan) == Hit(len, pos) && !Even(I, src, dst, z.lastoffset, z.start, scan)
    requires b == Settled(src, dst, z.lastscan, z.lastpos, scan, pos).backward
    ensures var z' := Stand(scan + len, pos, scan - b, pos - b, pos - scan);
      && Sound(I, src, dst, z')
      && DiffFrom(I, src, dst, z) == Joined(TripleFor(src, dst, z.lastscan, z.lastpos, scan, pos), DiffFrom(I, src, dst, z'))
  {
    DiffIsRest(I, src, dst, z);
    StopsAtHit(I, src, dst, z.lastoffset, z.start);
  }

  const NOTHING := Patch([], [], [])

  /** The patch for two files. */
  ghost function DiffOf(I: seq<int>, src: seq<byte>, dst: seq<byte>): Patch
    requires InRange(I, |src|)
  {
    if dst == [] then NOTHING else DiffFrom(I, src, dst, Stand(0, 0, 0, 0, 0))
  }

  // ---- equal files ----

  lemma {:induction false} AllAgree(s: seq<byte>, a: nat, b: nat)
    requires a <= b <= |s|
    ensures Agreeing(s, s, 0, a, b) == b - a
    decreases b
  {
    if a < b {
      AllAgree(s, a, b - 1);
    }
  }

  lemma {:induction false} AllHit(s: seq<byte>, i: nat)
    requires i <= |s|
    ensures Hits(s, 0, s, 0, i) == i
  {
    if i > 0 {
      AllHit(s, i - 1);
    }
  }

  /** At a stop the first alignment reaches as far as the match found. */
  lemma {:induction false} NoBetter(I: seq<int>, s: seq<byte>, start: nat)
    requires InRange(I, |s|) && start <= |s|
    ensures var scan := FirstStop(I, s, s, 0, start); scan < |s| ==> Even(I, s, s, 0, start, scan)
  {
    var scan := FirstStop(I, s, s, 0, start);
    assert Look(0);
    if scan < |s| {
      StopsIs(I, s, s, 0, start, scan);
      AllAgree(s, scan, Reach(I, s, s, start, scan));
    }
  }

  lemma {:induction false} WholeFile(s: seq<byte>, pos: nat)
    requires pos <= |s|
    ensures Settled(s, s, 0, 0, |s|, pos) == Reached(|s|, 0)
  {
    var f := ForwardGain(s, s, 0, 0);
    forall i: nat | i <= |s|
      ensures f(i) == i
    {
      AllHit(s, i);
    }
    OneFirstBest(f, |s|, |s|);
  }

  lemma {:induction false} SameFrom(I: seq<int>, s: seq<byte>, start: nat, pos: nat)
    requires InRange(I, |s|) && start <= |s| && pos <= |s|
    ensures var p := DiffFrom(I, s, s, Stand(start, pos, 0, 0, 0));
      |p.ctrl| == 1 && p.ctrl[0].x == |s| && p.ctrl[0].y == 0 && p.db == Differences(s, s, 0, 0, |s|) && p.eb == []
    decreases |s| - start
  {
    var z, scan := Stand(start, pos, 0, 0, 0), FirstStop(I, s, s, 0, start);
    if scan == |s| {
      var p := LastFound(I, s, s, start, scan, pos);
      DiffEnds(I, s, s, z, p);
      WholeFile(s, p);
    } else {
      var m := HitAt(I, s, s, scan);
      NoBetter(I, s, start);
      DiffPasses(I, s, s, z, scan, m.len, m.pos);
      SameFrom(I, s, scan + m.len, m.pos);
    }
  }

  /** Equal files make one triple, whose differences are all zero, and no extra bytes, whatever the order of suffixes. */
  lemma {:induction false} SameFile(I: seq<int>, s: seq<byte>)
    requires InRange(I, |s|) && s != []
    ensures var p := DiffOf(I, s, s);
      && |p.ctrl| == 1 && p.ctrl[0].x == |s| && p.ctrl[0].y == 0 && p.eb == []
      && |p.db| == |s| && forall i :: 0 <= i < |s| ==> p.db[i] == 0
  {
    SameFrom(I, s, 0, 0);
  }
}
