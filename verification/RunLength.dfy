/** The run-length front end: what the encoder puts into blocks and what the decoder takes out of them. */
module RunLength {
  import opened Bits
  import opened Bytes
  import opened MtfRuns

  // ---- pairs of a byte and a run length ----

  datatype Pair = Pair(ch: byte, len: nat)

  ghost predicate PairOk(p: Pair) {
    1 <= p.len <= 255
  }

  /** Up to three bytes stand for themselves; four are followed by a count of the rest. */
  ghost function PairBytes(p: Pair): (s: seq<byte>)
    requires PairOk(p)
    ensures 1 <= |s| <= 5 && s[0] == p.ch
  {
    if p.len < 4 then Repeat(p.ch, p.len) else Repeat(p.ch, 4) + [p.len - 4]
  }

  /** Runs of one byte follow each other only if the first is long enough to have a count. */
  ghost predicate Separated(ps: seq<Pair>) {
    && (forall i :: 0 <= i < |ps| ==> PairOk(ps[i]))
    && (forall i {:trigger Told(ps, i)} :: 0 <= i < |ps| - 1 ==> Told(ps, i))
  }

  /** Pairs i and i + 1 can be told apart. */
  ghost predicate Told(ps: seq<Pair>, i: int) {
    0 <= i < |ps| - 1 && (ps[i].ch != ps[i + 1].ch || ps[i].len >= 4)
  }

  ghost function Packed(ps: seq<Pair>): seq<byte>
    requires forall i :: 0 <= i < |ps| ==> PairOk(ps[i])
  {
    if ps == [] then [] else PairBytes(ps[0]) + Packed(ps[1..])
  }

  ghost function Raw(ps: seq<Pair>): seq<byte> {
    if ps == [] then [] else Repeat(ps[0].ch, ps[0].len) + Raw(ps[1..])
  }

  lemma {:induction false} PackedSnoc(ps: seq<Pair>, p: Pair)
    requires (forall i :: 0 <= i < |ps| ==> PairOk(ps[i])) && PairOk(p)
    ensures Packed(ps + [p]) == Packed(ps) + PairBytes(p)
  {
    if ps == [] {
      assert ps + [p] == [p] && [p][1..] == [];
      assert PairBytes(p) + [] == [] + PairBytes(p);
    } else {
      PackedSnoc(ps[1..], p);
      assert (ps + [p])[1..] == ps[1..] + [p];
    }
  }

  lemma {:induction false} RawAppend(ps: seq<Pair>, qs: seq<Pair>)
    ensures Raw(ps + qs) == Raw(ps) + Raw(qs)
  {
    if ps == [] {
      assert ps + qs == qs && [] + Raw(qs) == Raw(qs);
    } else {
      RawAppend(ps[1..], qs);
      assert (ps + qs)[1..] == ps[1..] + qs && (ps + qs)[0] == ps[0];
      Assoc(Repeat(ps[0].ch, ps[0].len), Raw(ps[1..]), Raw(qs));
    }
  }

  lemma {:induction false} RawSnoc(ps: seq<Pair>, p: Pair)
    ensures Raw(ps + [p]) == Raw(ps) + Repeat(p.ch, p.len)
  {
    RawAppend(ps, [p]);
    assert [p][1..] == [];
    assert Raw([p]) == Repeat(p.ch, p.len) + [] == Repeat(p.ch, p.len);
  }

  // ---- undoing it ----

  datatype Expanded = Expanded(bytes: seq<byte>, corrupt: bool)

  ghost function Then(s: seq<byte>, x: Expanded): Expanded {
    Expanded(s + x.bytes, x.corrupt)
  }

  /** How many bytes of a block with m bytes left the next run takes up: one to three, or four and a count. */
  ghost function Taken(s: seq<byte>, m: nat): (k: nat)
    requires |s| == m + 2 && m > 0
    ensures 1 <= k <= 5 && (m < k ==> m == 4)
  {
    if m == 1 || s[1] != s[0] then 1
    else if m == 2 || s[2] != s[0] then 2
    else if m == 3 || s[3] != s[0] then 3
    else 5
  }

  /** The run itself. */
  ghost function FirstRun(s: seq<byte>, m: nat): seq<byte>
    requires |s| == m + 2 && m > 0
  {
    var k := Taken(s, m);
    Repeat(s[0], if k < 4 then k else s[4] as nat + 4)
  }

  /**
   * What the decoder makes of the m bytes left in a block; two bytes beyond the block's end can be read.
   * Four equal bytes at the very end lack their count: some bytes come out, then the block is corrupt.
   */
  ghost function Expand(s: seq<byte>, m: nat): (x: Expanded)
    requires |s| == m + 2
    decreases m
  {
    if m == 0 then Expanded([], false)
    else
      var k := Taken(s, m);
      if k > m then Expanded(FirstRun(s, m), true) else Then(FirstRun(s, m), Expand(s[k..], m - k))
  }

  lemma {:induction false} TakenPair(p: Pair, s: seq<byte>, m: nat)
    requires PairOk(p) && |PairBytes(p)| <= m && |s| == m + 2 && s[..|PairBytes(p)|] == PairBytes(p)
    requires p.len < 4 && p.len < m ==> s[p.len] != p.ch
    ensures Taken(s, m) == |PairBytes(p)| && FirstRun(s, m) == Repeat(p.ch, p.len)
  {
    var h := PairBytes(p);
    assert forall i | 0 <= i < |h| :: s[i] == s[..|h|][i] == h[i];
  }

  /** One pair is undone. */
  lemma {:induction false} ExpandPair(p: Pair, rest: seq<byte>, over: seq<byte>)
    requires PairOk(p) && |over| == 2 && (rest == [] || rest[0] != p.ch || p.len >= 4)
    ensures Expand(PairBytes(p) + rest + over, |PairBytes(p)| + |rest|)
         == Then(Repeat(p.ch, p.len), Expand(rest + over, |rest|))
  {
    var h := PairBytes(p);
    Laid(h, rest, over);
    var s, m := h + rest + over, |h| + |rest|;
    TakenPair(p, s, m);
    ExpandStep(s, m, |h|, rest + over, |rest|, Repeat(p.ch, p.len));
  }

  lemma {:induction false} Laid(h: seq<byte>, rest: seq<byte>, over: seq<byte>)
    ensures var s := h + rest + over; s[..|h|] == h && s[|h|..] == rest + over && (rest != [] ==> s[|h|] == rest[0])
  {
  }

  lemma {:induction false} ExpandStep(s: seq<byte>, m: nat, k: nat, tail: seq<byte>, n: nat, run: seq<byte>)
    requires 0 < m == k + n && |s| == m + 2 && Taken(s, m) == k && s[k..] == tail && FirstRun(s, m) == run
    ensures Expand(s, m) == Then(run, Expand(tail, n))
  {
  }

  /** The decoder undoes the encoder on every block, whatever two bytes follow the block. */
  lemma {:induction false} ExpandPacked(ps: seq<Pair>, over: seq<byte>)
    requires Separated(ps) && |over| == 2
    ensures Expand(Packed(ps) + over, |Packed(ps)|) == Expanded(Raw(ps), false)
  {
    if ps == [] {
      assert Packed(ps) + over == over;
    } else {
      SeparatedRest(ps);
      ExpandPacked(ps[1..], over);
      PackedFirst(ps);
      ExpandFirst(ps[0], Packed(ps[1..]), over, Raw(ps[1..]));
    }
  }

  lemma {:induction false} ExpandFirst(p: Pair, rest: seq<byte>, over: seq<byte>, raw: seq<byte>)
    requires PairOk(p) && |over| == 2 && (rest == [] || rest[0] != p.ch || p.len >= 4)
    requires Expand(rest + over, |rest|) == Expanded(raw, false)
    ensures Expand(PairBytes(p) + rest + over, |PairBytes(p) + rest|) == Expanded(Repeat(p.ch, p.len) + raw, false)
  {
    ExpandPair(p, rest, over);
  }

  lemma {:induction false} SeparatedRest(ps: seq<Pair>)
    requires Separated(ps) && ps != []
    ensures Separated(ps[1..]) && (|ps| > 1 ==> ps[0].ch != ps[1].ch || ps[0].len >= 4)
  {
    assert |ps| > 1 ==> Told(ps, 0);
    var qs := ps[1..];
    forall i | 0 <= i < |qs| - 1
      ensures Told(qs, i)
    {
      assert Told(ps, i + 1);
    }
  }

  lemma {:induction false} SeparatedSnoc(ps: seq<Pair>, p: Pair)
    requires Separated(ps) && PairOk(p) && (ps == [] || ps[|ps| - 1].ch != p.ch || ps[|ps| - 1].len >= 4)
    ensures Separated(ps + [p])
  {
    var qs := ps + [p];
    forall i | 0 <= i < |qs| - 1
      ensures Told(qs, i)
    {
      assert i < |ps| - 1 ==> Told(ps, i);
    }
  }

  lemma {:induction false} PackedFirst(ps: seq<Pair>)
    requires Separated(ps) && ps != []
    ensures Packed(ps) == PairBytes(ps[0]) + Packed(ps[1..])
    ensures |ps| > 1 ==> Packed(ps[1..]) != [] && Packed(ps[1..])[0] == ps[1].ch
    ensures |ps| == 1 ==> Packed(ps[1..]) == []
  {
  }
}
