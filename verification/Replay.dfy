/** What a patch means: triples replayed over the old file. */
module Replay {
  import opened Bits
  import opened Bytes

  /** Add x bytes of the old file to x bytes of the diff block, copy y bytes of the extra block, seek by z. */
  datatype Triple = Triple(x: int, y: int, z: int)

  /** How far a patch has been applied, and what is left of its blocks. */
  datatype Progress = Progress(out: seq<byte>, oldpos: int, ctrl: seq<Triple>, db: seq<byte>, eb: seq<byte>)

  /** One byte of the old file, or nothing outside it. */
  function OldAt(src: seq<byte>, i: int): (b: byte) {
    if 0 <= i < |src| then src[i] else 0
  }

  /** Difference bytes with the old file added on. */
  function Added(src: seq<byte>, oldpos: int, d: seq<byte>): (s: seq<byte>)
    ensures |s| == |d| && forall i :: 0 <= i < |d| ==> s[i] == (d[i] as int + OldAt(src, oldpos + i)) % 256
  {
    seq(|d|, i requires 0 <= i < |d| => (d[i] as int + OldAt(src, oldpos + i)) % 256)
  }

  /** One triple, or nothing if it does not fit the new file or the blocks run out. */
  ghost function Step(src: seq<byte>, newsize: nat, p: Progress): Option<Progress> {
    if p.ctrl == [] then None
    else
      var t := p.ctrl[0];
      if t.x < 0 || |p.out| + t.x > newsize || |p.db| < t.x then None
      else if t.y < 0 || |p.out| + t.x + t.y > newsize || |p.eb| < t.y then None
      else Some(Progress(p.out + Added(src, p.oldpos, p.db[..t.x]) + p.eb[..t.y], p.oldpos + t.x + t.z,
                         p.ctrl[1..], p.db[t.x..], p.eb[t.y..]))
  }

  /** Triples are applied until the new file is full. */
  ghost function Run(src: seq<byte>, newsize: nat, p: Progress): Option<Progress>
    decreases |p.ctrl|
  {
    if |p.out| >= newsize then Some(p)
    else match Step(src, newsize, p)
      case Some(q) => Run(src, newsize, q)
      case None => None
  }

  /**
   * The triples so far build done bytes of the new file and leave the old file at pos, whatever
   * triples and bytes follow.
   */
  ghost predicate Builds(src: seq<byte>, dst: seq<byte>, ctrl: seq<Triple>, db: seq<byte>, eb: seq<byte>, done: nat, pos: int) {
    && done <= |dst|
    && forall c, d, e {:trigger Continues(src, dst, ctrl, db, eb, done, pos, c, d, e)} :: Continues(src, dst, ctrl, db, eb, done, pos, c, d, e)
  }

  ghost predicate Continues(src: seq<byte>, dst: seq<byte>, ctrl: seq<Triple>, db: seq<byte>, eb: seq<byte>, done: nat, pos: int,
                            c: seq<Triple>, d: seq<byte>, e: seq<byte>)
    requires done <= |dst|
  {
    Run(src, |dst|, Progress([], 0, ctrl + c, db + d, eb + e)) == Run(src, |dst|, Progress(dst[..done], pos, c, d, e))
  }

  lemma {:induction false} BuildsNothing(src: seq<byte>, dst: seq<byte>)
    ensures Builds(src, dst, [], [], [], 0, 0)
  {
    forall c, d, e
      ensures Continues(src, dst, [], [], [], 0, 0, c, d, e)
    {
      assert dst[..0] == [] && [] + c == c && [] + d == d && [] + e == e;
    }
  }

  /** Subtraction of bytes, which wraps around. */
  function Minus(a: byte, b: byte): (d: byte)
    ensures (d as int + b) % 256 == a
  {
    (a as int - b) % 256
  }

  /** The difference bytes for n bytes of the new file from a on, against the old file from b on. */
  function Differences(src: seq<byte>, dst: seq<byte>, a: nat, b: nat, n: nat): (d: seq<byte>)
    requires a + n <= |dst| && b + n <= |src|
    ensures |d| == n && forall i :: 0 <= i < n ==> d[i] == Minus(dst[a + i], src[b + i])
  {
    seq<byte>(n, i requires 0 <= i < n => Minus(dst[a + i], src[b + i]))
  }

  /** Adding undoes subtracting. */
  lemma {:induction false} AddedBack(src: seq<byte>, dst: seq<byte>, a: nat, b: nat, n: nat)
    requires a + n <= |dst| && b + n <= |src|
    ensures Added(src, b, Differences(src, dst, a, b, n)) == dst[a..a + n]
  {
    var d := Differences(src, dst, a, b, n);
    forall i | 0 <= i < n
      ensures (d[i] as int + OldAt(src, b + i)) % 256 == dst[a..a + n][i]
    {
      assert d[i] == Minus(dst[a + i], src[b + i]);
    }
  }

  /** One more triple builds the next bytes: lenf by difference, then those up to the end as they are. */
  lemma {:induction false} BuildsMore(src: seq<byte>, dst: seq<byte>, ctrl: seq<Triple>, db: seq<byte>, eb: seq<byte>, done: nat, pos: nat,
                                     lenf: nat, end: nat, pos': int)
    requires Builds(src, dst, ctrl, db, eb, done, pos) && done < |dst|
    requires done + lenf <= end <= |dst| && pos + lenf <= |src|
    ensures Builds(src, dst, ctrl + [Triple(lenf, end - (done + lenf), pos' - (pos + lenf))],
                   db + Differences(src, dst, done, pos, lenf), eb + dst[done + lenf..end], end, pos')
  {
    var t := Triple(lenf, end - (done + lenf), pos' - (pos + lenf));
    var d0, e0 := Differences(src, dst, done, pos, lenf), dst[done + lenf..end];
    forall c, d, e
      ensures Continues(src, dst, ctrl + [t], db + d0, eb + e0, end, pos', c, d, e)
    {
      assert Continues(src, dst, ctrl, db, eb, done, pos, [t] + c, d0 + d, e0 + e);
      Assoc(ctrl, [t], c);
      Assoc(db, d0, d);
      Assoc(eb, e0, e);
      OneTriple(src, dst, done, pos, lenf, end, pos', c, d, e);
    }
  }

  lemma {:induction false} OneTriple(src: seq<byte>, dst: seq<byte>, done: nat, pos: nat, lenf: nat, end: nat, pos': int,
                                    c: seq<Triple>, d: seq<byte>, e: seq<byte>)
    requires done < |dst| && done + lenf <= end <= |dst| && pos + lenf <= |src|
    ensures var t := Triple(lenf, end - (done + lenf), pos' - (pos + lenf));
      var p := Progress(dst[..done], pos, [t] + c, Differences(src, dst, done, pos, lenf) + d, dst[done + lenf..end] + e);
      Run(src, |dst|, p) == Run(src, |dst|, Progress(dst[..end], pos', c, d, e))
  {
    var t := Triple(lenf, end - (done + lenf), pos' - (pos + lenf));
    var d0, e0 := Differences(src, dst, done, pos, lenf), dst[done + lenf..end];
    var p := Progress(dst[..done], pos, [t] + c, d0 + d, e0 + e);
    assert p.db[..lenf] == d0 && p.db[lenf..] == d && p.eb[..t.y] == e0 && p.eb[t.y..] == e && p.ctrl[1..] == c;
    AddedBack(src, dst, done, pos, lenf);
    assert dst[..done] + dst[done..done + lenf] + e0 == dst[..end];
    assert Step(src, |dst|, p) == Some(Progress(dst[..end], pos', c, d, e));
  }

  /** A complete patch builds the new file and uses up every triple and every byte. */
  lemma {:induction false} BuildsAll(src: seq<byte>, dst: seq<byte>, ctrl: seq<Triple>, db: seq<byte>, eb: seq<byte>, pos: int)
    requires Builds(src, dst, ctrl, db, eb, |dst|, pos)
    ensures Run(src, |dst|, Progress([], 0, ctrl, db, eb)) == Some(Progress(dst, pos, [], [], []))
  {
    assert Continues(src, dst, ctrl, db, eb, |dst|, pos, [], [], []);
    assert ctrl + [] == ctrl && db + [] == db && eb + [] == eb && dst[..|dst|] == dst;
  }

  /** Every byte of the new file comes from one byte of the blocks. */
  lemma {:induction false} BytesConserved(src: seq<byte>, newsize: nat, p: Progress)
    ensures var r := Run(src, newsize, p); r.Some? ==>
      |p.out| + |p.db| + |p.eb| == |r.value.out| + |r.value.db| + |r.value.eb|
    decreases |p.ctrl|
  {
    if |p.out| < newsize {
      var r := Step(src, newsize, p);
      if r.Some? {
        BytesConserved(src, newsize, r.value);
      }
    }
  }
}
