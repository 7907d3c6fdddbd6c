/** Applying a patch: the reconstruction loop over the three blocks. */
module Bspatch {
  import opened Bits
  import opened Bytes
  import opened Offsets
  import opened Replay

  const TRIPLE_LEN: nat := 24

  /** The control block's bytes. */
  ghost function TripleBytes(t: Triple): (s: seq<byte>)
    requires Writable(t)
    ensures |s| == TRIPLE_LEN
  {
    OffOut(t.x) + OffOut(t.y) + OffOut(t.z)
  }

  ghost predicate Writable(t: Triple) {
    -OFF_LIMIT < t.x < OFF_LIMIT && -OFF_LIMIT < t.y < OFF_LIMIT && -OFF_LIMIT < t.z < OFF_LIMIT
  }

  ghost predicate AllWritable(ctrl: seq<Triple>) {
    forall i :: 0 <= i < |ctrl| ==> Writable(ctrl[i])
  }

  ghost function CtrlBytes(ctrl: seq<Triple>): seq<byte>
    requires AllWritable(ctrl)
  {
    if ctrl == [] then [] else TripleBytes(ctrl[0]) + CtrlBytes(ctrl[1..])
  }

  function ReadTriple(s: seq<byte>): Triple
    requires |s| >= TRIPLE_LEN
  {
    Triple(OffIn(s[..8]), OffIn(s[8..16]), OffIn(s[16..24]))
  }

  /** The triples that a control block holds; an incomplete one at the end does not count. */
  ghost function TriplesOf(s: seq<byte>): seq<Triple> {
    if |s| < TRIPLE_LEN then [] else [ReadTriple(s)] + TriplesOf(s[TRIPLE_LEN..])
  }

  lemma {:induction false} ThreeSlices(a: seq<byte>, b: seq<byte>, c: seq<byte>, rest: seq<byte>)
    requires |a| == |b| == |c| == 8
    ensures var s := a + b + c + rest; s[..8] == a && s[8..16] == b && s[16..24] == c && s[24..] == rest
  {
  }

  lemma {:induction false} TripleBack(t: Triple, rest: seq<byte>)
    requires Writable(t)
    ensures var s := TripleBytes(t) + rest; ReadTriple(s) == t && s[TRIPLE_LEN..] == rest
  {
    ThreeSlices(OffOut(t.x), OffOut(t.y), OffOut(t.z), rest);
    OffBack(t.x);
    OffBack(t.y);
    OffBack(t.z);
  }

  lemma {:induction false} CtrlBack(ctrl: seq<Triple>)
    requires AllWritable(ctrl)
    ensures TriplesOf(CtrlBytes(ctrl)) == ctrl
  {
    if ctrl != [] {
      var t, rest := ctrl[0], CtrlBytes(ctrl[1..]);
      CtrlBack(ctrl[1..]);
      OneMore(t, rest);
      HeadTail(ctrl);
    }
  }

  lemma {:induction false} OneMore(t: Triple, rest: seq<byte>)
    requires Writable(t)
    ensures TriplesOf(TripleBytes(t) + rest) == [t] + TriplesOf(rest)
  {
    TripleBack(t, rest);
    TriplesCons(TripleBytes(t) + rest, t, rest);
  }

  lemma {:induction false} TriplesCons(s: seq<byte>, t: Triple, rest: seq<byte>)
    requires |s| >= TRIPLE_LEN && ReadTriple(s) == t && s[TRIPLE_LEN..] == rest
    ensures TriplesOf(s) == [t] + TriplesOf(rest)
  {
  }

  // ---- lengths, which pass through an int ----

  const INT_LIMIT: int := 0x8000_0000

  /** A number as the int that BZ2_bzRead and BZ2_bzWrite take: its low 32 bits, with a sign. */
  function AsInt(n: int): (r: int)
    ensures -INT_LIMIT <= r < INT_LIMIT && (0 <= n ==> r <= n) && (0 <= n < INT_LIMIT ==> r == n)
  {
    var m := n % 0x1_0000_0000;
    if m < INT_LIMIT then m else m - 0x1_0000_0000
  }

  /** Negative, but not as an int: reading that many bytes is not refused, and the position then moves back. */
  predicate Slips(len: int) {
    len < 0 <= AsInt(len)
  }

  /** What the checks say to a length. */
  datatype Verdict = Good | Wrong | Lost

  /**
   * The checks on a length, with left bytes of the new file to come and avail bytes in the block. Once a block's
   * stream has reported its end, reading from it is an error unless the length is 0 as an int.
   */
  function Check(len: int, left: int, avail: nat, ended: bool): (v: Verdict)
    ensures v == Lost <==> Slips(len) && len <= left && (ended ==> AsInt(len) == 0)
    ensures v == Good <==> 0 <= len <= left && len <= avail && len < INT_LIMIT && (ended ==> len == 0)
  {
    if len > left || AsInt(len) < 0 || (ended && AsInt(len) > 0) then Wrong
    else if len < 0 then Lost
    else if AsInt(len) < len || avail < len then Wrong
    else Good
  }

  /**
   * For each block whether its stream has reported its end, or, of a whole run, whether it does so together with
   * the last byte: that depends on whether the input buffer holds its trailer by then.
   */
  datatype Ends = Ends(diff: bool, extra: bool)

  const NOT_ENDED := Ends(false, false)

  function EndsAfter(ended: bool, len: int, avail: nat, prompt: bool): bool {
    ended || (0 < len == avail && prompt)
  }

  /** What a triple, or a whole patch, comes to; Astray if a length slips through the checks. */
  datatype Turn = Go(p: Progress, ends: Ends) | Refused | Astray

  ghost function OneTurn(src: seq<byte>, newsize: nat, p: Progress, ends: Ends, prompt: Ends): Turn {
    if p.ctrl == [] then Refused
    else
      var t := p.ctrl[0];
      match Check(t.x, newsize - |p.out|, |p.db|, ends.diff)
      case Wrong => Refused
      case Lost => Astray
      case Good =>
        match Check(t.y, newsize - |p.out| - t.x, |p.eb|, ends.extra)
        case Wrong => Refused
        case Lost => Astray
        case Good =>
          Go(Progress(p.out + Added(src, p.oldpos, p.db[..t.x]) + p.eb[..t.y], p.oldpos + t.x + t.z,
                      p.ctrl[1..], p.db[t.x..], p.eb[t.y..]),
             Ends(EndsAfter(ends.diff, t.x, |p.db|, prompt.diff), EndsAfter(ends.extra, t.y, |p.eb|, prompt.extra)))
  }

  ghost function AllTurns(src: seq<byte>, newsize: nat, p: Progress, ends: Ends, prompt: Ends): Turn
    decreases |p.ctrl|
  {
    if |p.out| >= newsize then Go(p, ends)
    else match OneTurn(src, newsize, p, ends, prompt)
      case Go(q, ends') => AllTurns(src, newsize, q, ends', prompt)
      case Refused => Refused
      case Astray => Astray
  }

  /** What a patch comes to from the beginning. */
  ghost function Patched(src: seq<byte>, newsize: nat, ctrl: seq<Triple>, db: seq<byte>, eb: seq<byte>, prompt: Ends): Turn {
    AllTurns(src, newsize, Progress([], 0, ctrl, db, eb), NOT_ENDED, prompt)
  }

  datatype Applied = Rebuilt(file: seq<byte>) | Corrupted | Stray

  /** What applying a patch comes to. */
  ghost function Outcome(r: Turn): Applied {
    match r
    case Go(p, _) => Rebuilt(p.out)
    case Refused => Corrupted
    case Astray => Stray
  }

  /** Only an empty block has reported its end. */
  ghost predicate EndsRight(p: Progress, ends: Ends) {
    (ends.diff ==> p.db == []) && (ends.extra ==> p.eb == [])
  }

  /** A turn is a step of the plain meaning, unless its lengths do not fit an int. */
  lemma {:induction false} TurnIsStep(src: seq<byte>, newsize: nat, p: Progress, ends: Ends, prompt: Ends)
    requires EndsRight(p, ends)
    ensures var r := OneTurn(src, newsize, p, ends, prompt);
      && (r.Go? ==> Step(src, newsize, p) == Some(r.p) && EndsRight(r.p, r.ends))
      && (|p.db| < INT_LIMIT && |p.eb| < INT_LIMIT && Step(src, newsize, p).Some? ==> r.Go?)
  {
  }

  /** A patch whose blocks fit an int is applied as it is meant. */
  lemma {:induction false} ShortBlocks(src: seq<byte>, newsize: nat, p: Progress, ends: Ends, prompt: Ends)
    requires EndsRight(p, ends) && |p.db| < INT_LIMIT && |p.eb| < INT_LIMIT && Run(src, newsize, p).Some?
    ensures var r := AllTurns(src, newsize, p, ends, prompt); r.Go? && r.p == Run(src, newsize, p).value
    decreases |p.ctrl|
  {
    if |p.out| < newsize {
      TurnIsStep(src, newsize, p, ends, prompt);
      var r := OneTurn(src, newsize, p, ends, prompt);
      ShortBlocks(src, newsize, r.p, r.ends, prompt);
    }
  }

  lemma {:induction false} CutTurn(src: seq<byte>, newsize: nat, p: Progress, m: nat, n: nat, ends: Ends, prompt: Ends)
    requires Step(src, newsize, p).Some? && m <= |p.db| && n <= |p.eb| && (ends.diff ==> m == 0) && (ends.extra ==> n == 0)
    ensures var t, q := p.ctrl[0], Step(src, newsize, p).value;
      var r := OneTurn(src, newsize, p.(db := p.db[..m], eb := p.eb[..n]), ends, prompt);
      r == Refused ||
      (&& r.Go? && t.x <= m && t.y <= n && |q.db| == |p.db| - t.x && |q.eb| == |p.eb| - t.y
       && r.p == q.(db := q.db[..m - t.x], eb := q.eb[..n - t.y])
       && (r.ends.diff ==> m - t.x == 0) && (r.ends.extra ==> n - t.y == 0))
  {
    var c, t := p.(db := p.db[..m], eb := p.eb[..n]), p.ctrl[0];
    if t.x <= m && t.y <= n {
      assert c.db[..t.x] == p.db[..t.x] && c.eb[..t.y] == p.eb[..t.y];
      assert c.db[t.x..] == p.db[t.x..][..m - t.x] && c.eb[t.y..] == p.eb[t.y..][..n - t.y];
    }
  }

  /** A patch that needs all of its blocks is refused if either is cut short. */
  lemma {:induction false} CutBlocks(src: seq<byte>, newsize: nat, p: Progress, m: nat, n: nat, ends: Ends, prompt: Ends)
    requires var r := Run(src, newsize, p); r.Some? && r.value.db == [] && r.value.eb == []
    requires m <= |p.db| && n <= |p.eb| && (m < |p.db| || n < |p.eb|)
    requires (ends.diff ==> m == 0) && (ends.extra ==> n == 0)
    ensures AllTurns(src, newsize, p.(db := p.db[..m], eb := p.eb[..n]), ends, prompt) == Refused
    decreases |p.ctrl|
  {
    CutTurn(src, newsize, p, m, n, ends, prompt);
    var r := OneTurn(src, newsize, p.(db := p.db[..m], eb := p.eb[..n]), ends, prompt);
    if r.Go? {
      CutBlocks(src, newsize, Step(src, newsize, p).value, m - p.ctrl[0].x, n - p.ctrl[0].y, r.ends, prompt);
    }
  }

  // ---- when a length slips through ----

  ghost predicate NoneSlips(ctrl: seq<Triple>) {
    forall i :: 0 <= i < |ctrl| ==> !Slips(ctrl[i].x) && !Slips(ctrl[i].y)
  }

  /** A length that slips, for a block whose end has not been reported, or that is 0 as an int. */
  ghost predicate SlipsPast(len: int, ended: bool) {
    Slips(len) && (ended ==> AsInt(len) == 0)
  }

  /** The patch gets as far as its triple number k, and a length there slips through. */
  ghost predicate SlipsAt(src: seq<byte>, newsize: nat, p: Progress, ends: Ends, prompt: Ends, k: nat)
    decreases k
  {
    && |p.out| < newsize && k < |p.ctrl|
    && if k > 0 then var r := OneTurn(src, newsize, p, ends, prompt); r.Go? && SlipsAt(src, newsize, r.p, r.ends, prompt, k - 1)
       else
         var t, left := p.ctrl[0], newsize - |p.out|;
         || SlipsPast(t.x, ends.diff)
         || (0 <= t.x <= left && t.x <= |p.db| && t.x < INT_LIMIT && (ends.diff ==> t.x == 0) && SlipsPast(t.y, ends.extra))
  }

  lemma {:induction false} TurnStrays(src: seq<byte>, newsize: nat, p: Progress, ends: Ends, prompt: Ends)
    requires |p.out| < newsize
    ensures OneTurn(src, newsize, p, ends, prompt) == Astray <==> SlipsAt(src, newsize, p, ends, prompt, 0)
  {
  }

  lemma {:induction false} SlipStrays(src: seq<byte>, newsize: nat, p: Progress, ends: Ends, prompt: Ends, k: nat)
    requires SlipsAt(src, newsize, p, ends, prompt, k)
    ensures AllTurns(src, newsize, p, ends, prompt).Astray?
    decreases k
  {
    if k == 0 {
      TurnStrays(src, newsize, p, ends, prompt);
    } else {
      var r := OneTurn(src, newsize, p, ends, prompt);
      SlipStrays(src, newsize, r.p, r.ends, prompt, k - 1);
    }
  }

  lemma {:induction false} StraysAt(src: seq<byte>, newsize: nat, p: Progress, ends: Ends, prompt: Ends) returns (k: nat)
    requires AllTurns(src, newsize, p, ends, prompt).Astray?
    ensures SlipsAt(src, newsize, p, ends, prompt, k)
    decreases |p.ctrl|
  {
    TurnStrays(src, newsize, p, ends, prompt);
    var r := OneTurn(src, newsize, p, ends, prompt);
    if r.Go? {
      var j := StraysAt(src, newsize, r.p, r.ends, prompt);
      k := j + 1;
    } else {
      k := 0;
    }
  }

  ghost predicate SlipsSomewhere(src: seq<byte>, newsize: nat, p: Progress, ends: Ends, prompt: Ends) {
    exists k: nat :: SlipsAt(src, newsize, p, ends, prompt, k)
  }

  /**
   * A patch goes astray exactly if it is good up to a triple with a length that is negative but not as an int, and
   * that is 0 as an int or for a block whose stream has not reported its end.
   */
  lemma {:induction false} AstrayExactly(src: seq<byte>, newsize: nat, p: Progress, ends: Ends, prompt: Ends)
    ensures AllTurns(src, newsize, p, ends, prompt).Astray? <==> SlipsSomewhere(src, newsize, p, ends, prompt)
  {
    if AllTurns(src, newsize, p, ends, prompt).Astray? {
      var k := StraysAt(src, newsize, p, ends, prompt);
      assert SlipsSomewhere(src, newsize, p, ends, prompt);
    } else if SlipsSomewhere(src, newsize, p, ends, prompt) {
      var k: nat :| SlipsAt(src, newsize, p, ends, prompt, k);
      SlipStrays(src, newsize, p, ends, prompt, k);
    }
  }

  /** In particular a patch of which no length slips through never does. */
  lemma {:induction false} NeverAstray(src: seq<byte>, newsize: nat, p: Progress, ends: Ends, prompt: Ends)
    requires NoneSlips(p.ctrl)
    ensures AllTurns(src, newsize, p, ends, prompt) != Astray
    decreases |p.ctrl|
  {
    if |p.out| < newsize {
      var r := OneTurn(src, newsize, p, ends, prompt);
      if r.Go? {
        NeverAstray(src, newsize, r.p, r.ends, prompt);
      }
    }
  }

  /** One triple is enough: -2^32 bytes are as many as none. */
  lemma {:induction false} CanGoAstray(src: seq<byte>, newsize: nat, prompt: Ends)
    requires newsize > 0
    ensures Patched(src, newsize, [Triple(-0x1_0000_0000, 0, 0)], [], [], prompt) == Astray
  {
    assert Slips(-0x1_0000_0000);
  }

  /** Three bytes, and then a length that is 5 as an int: whether that is refused depends on when the end is reported. */
  const FIVE_MORE: seq<Triple> := [Triple(3, 0, 0), Triple(5 - 0x1_0000_0000, 0, 0)]

  lemma {:induction false} EndDecides(src: seq<byte>, newsize: nat, db: seq<byte>, prompt: Ends)
    requires newsize > 3 && |db| == 3
    ensures Patched(src, newsize, FIVE_MORE, db, [], prompt) == if prompt.diff then Refused else Astray
  {
    var p := Progress([], 0, FIVE_MORE, db, []);
    var r := OneTurn(src, newsize, p, NOT_ENDED, prompt);
    assert r.Go? && r.p.ctrl == [FIVE_MORE[1]] && |r.p.out| == 3;
    assert AsInt(5 - 0x1_0000_0000) == 5;
    assert OneTurn(src, newsize, r.p, r.ends, prompt) == if prompt.diff then Refused else Astray;
    assert AllTurns(src, newsize, r.p, r.ends, prompt) == if prompt.diff then Refused else Astray;
  }

  // ---- the loop ----

  /** Adds bytes of the old file to the difference bytes, in place. */
  method AddOld(src: seq<byte>, oldpos: int, d: seq<byte>) returns (s: seq<byte>)
    ensures s == Added(src, oldpos, d)
  {
    s := d;
    for i := 0 to |d|
      invariant |s| == |d| && (forall k :: 0 <= k < i ==> s[k] == Added(src, oldpos, d)[k])
      invariant forall k :: i <= k < |d| ==> s[k] == d[k]
    {
      if 0 <= oldpos + i < |src| {
        s := s[i := (s[i] as int + src[oldpos + i]) % 256];
      }
    }
  }

  /** BZ2_bzRead of len bytes: how many bytes were read, or nothing if that is an error. */
  method ReadLength(len: int, avail: nat, ended: bool) returns (lenread: Option<nat>)
    ensures lenread == if AsInt(len) < 0 || (ended && AsInt(len) > 0) then None
                       else Some(if AsInt(len) < avail then AsInt(len) else avail)
  {
    var n := AsInt(len);
    if n < 0 {
      return None;
    }
    if n == 0 {
      return Some(0);
    }
    if ended {
      return None;
    }
    lenread := Some(if n < avail then n else avail);
  }

  /** The checks around one read. */
  method CheckLength(len: int, left: int, avail: nat, ended: bool) returns (v: Verdict)
    ensures v == Check(len, left, avail, ended)
  {
    if len > left {
      return Wrong;
    }
    var lenread := ReadLength(len, avail, ended);
    if lenread.None? || lenread.value < len {
      return Wrong;
    }
    return if len < 0 then Lost else Good;
  }

  lemma {:induction false} BadTurn(src: seq<byte>, newsize: nat, p: Progress, ends: Ends, prompt: Ends, t: Triple, v: Verdict)
    requires p.ctrl != [] && p.ctrl[0] == t && v != Good
    requires var w := Check(t.x, newsize - |p.out|, |p.db|, ends.diff);
      v == w || (w == Good && v == Check(t.y, newsize - |p.out| - t.x, |p.eb|, ends.extra))
    ensures OneTurn(src, newsize, p, ends, prompt) == if v == Lost then Astray else Refused
  {
  }

  lemma {:induction false} GoodTurn(src: seq<byte>, newsize: nat, p: Progress, ends: Ends, prompt: Ends, t: Triple, q: Progress, ends': Ends)
    requires p.ctrl != [] && p.ctrl[0] == t
    requires Check(t.x, newsize - |p.out|, |p.db|, ends.diff) == Good && Check(t.y, newsize - |p.out| - t.x, |p.eb|, ends.extra) == Good
    requires q.out == p.out + Added(src, p.oldpos, p.db[..t.x]) + p.eb[..t.y] && q.oldpos == p.oldpos + t.x + t.z
    requires q.ctrl == p.ctrl[1..] && q.db == p.db[t.x..] && q.eb == p.eb[t.y..]
    requires ends' == Ends(EndsAfter(ends.diff, t.x, |p.db|, prompt.diff), EndsAfter(ends.extra, t.y, |p.eb|, prompt.extra))
    ensures OneTurn(src, newsize, p, ends, prompt) == Go(q, ends')
  {
  }

  /** One turn of the loop. */
  method TakeTriple(src: seq<byte>, newsize: nat, out: seq<byte>, oldpos: int, c: seq<byte>, d: seq<byte>, e: seq<byte>,
                    ends: Ends, prompt: Ends)
    returns (v: Verdict, out': seq<byte>, oldpos': int, c': seq<byte>, d': seq<byte>, e': seq<byte>, ends': Ends)
    ensures var r := OneTurn(src, newsize, Progress(out, oldpos, TriplesOf(c), d, e), ends, prompt);
      match v
      case Good => r == Go(Progress(out', oldpos', TriplesOf(c'), d', e'), ends')
      case Wrong => r == Refused
      case Lost => r == Astray
    ensures v == Good ==> |c'| < |c|
  {
    ghost var p := Progress(out, oldpos, TriplesOf(c), d, e);
    out', oldpos', c', d', e', ends' := out, oldpos, c, d, e, ends;
    if |c| < TRIPLE_LEN {
      v := Wrong;
      return;
    }
    var t := ReadTriple(c);
    TriplesCons(c, t, c[TRIPLE_LEN..]);
    v := CheckLengths(t, newsize - |out|, |d|, |e|, ends);
    if v != Good {
      BadTurn(src, newsize, p, ends, prompt, t, v);
      return;
    }
    var s := AddOld(src, oldpos, d[..t.x]);
    out' := out + s + e[..t.y];
    oldpos' := oldpos + t.x + t.z;
    c', d', e' := c[TRIPLE_LEN..], d[t.x..], e[t.y..];
    ends' := Ends(EndsAfter(ends.diff, t.x, |d|, prompt.diff), EndsAfter(ends.extra, t.y, |e|, prompt.extra));
    GoodTurn(src, newsize, p, ends, prompt, t, Progress(out', oldpos', TriplesOf(c'), d', e'), ends');
  }

  /** Both lengths of a triple. */
  method CheckLengths(t: Triple, left: int, d: nat, e: nat, ends: Ends) returns (v: Verdict)
    ensures var w := Check(t.x, left, d, ends.diff);
      v == if w != Good then w else Check(t.y, left - t.x, e, ends.extra)
  {
    v := CheckLength(t.x, left, d, ends.diff);
    if v == Good {
      v := CheckLength(t.y, left - t.x, e, ends.extra);
    }
  }

  /**
   * Every patch rebuilds what its triples say, is found corrupt, or goes astray at a length that slips through,
   * whether or not the streams report their ends together with their last bytes.
   */
  method Apply(src: seq<byte>, newsize: nat, ctrl: seq<byte>, db: seq<byte>, eb: seq<byte>, prompt: Ends) returns (r: Applied)
    ensures r == Outcome(Patched(src, newsize, TriplesOf(ctrl), db, eb, prompt))
  {
    ghost var goal := Patched(src, newsize, TriplesOf(ctrl), db, eb, prompt);
    var out: seq<byte>, oldpos, c, d, e, ends := [], 0, ctrl, db, eb, NOT_ENDED;
    while |out| < newsize
      invariant AllTurns(src, newsize, Progress(out, oldpos, TriplesOf(c), d, e), ends, prompt) == goal
      decreases |c|
    {
      var v;
      v, out, oldpos, c, d, e, ends := TakeTriple(src, newsize, out, oldpos, c, d, e, ends, prompt);
      if v != Good {
        return if v == Lost then Stray else Corrupted;
      }
    }
    r := Rebuilt(out);
  }
}
