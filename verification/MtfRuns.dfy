/** Move-to-front coding with RUNA/RUNB run lengths: what the encoder sends and what the decoder rebuilds. */
module MtfRuns {
  import opened Bytes
  import opened MtfWindow

  const RUNA := 0
  const RUNB := 1
  const RUN_GUARD := 2 * 1024 * 1024

  ghost function Repeat(c: byte, n: nat): (r: seq<byte>)
    ensures |r| == n && forall i :: 0 <= i < n ==> r[i] == c
  {
    seq(n, _ => c)
  }

  /** The initial move-to-front list. */
  ghost function Iota(n: nat): (s: seq<byte>)
    requires n <= 256
    ensures |s| == n && forall i :: 0 <= i < n ==> s[i] == i
  {
    seq(n, i requires 0 <= i < n => i)
  }

  /** A run length in bijective base two, least significant digit first: RUNA counts 1, RUNB counts 2. */
  function Runs(z: nat): (r: seq<int>)
    ensures forall i :: 0 <= i < |r| ==> r[i] == RUNA || r[i] == RUNB
    ensures |r| <= z
  {
    if z == 0 then [] else [(z - 1) % 2] + Runs((z - 1) / 2)
  }

  ghost function RunValue(d: seq<int>): int {
    if d == [] then 0 else d[0] + 1 + 2 * RunValue(d[1..])
  }

  lemma {:induction false} RunsThenValue(z: nat)
    ensures RunValue(Runs(z)) == z
  {
    if z > 0 {
      RunsThenValue((z - 1) / 2);
      FirstDigit((z - 1) % 2, Runs((z - 1) / 2));
    }
  }

  lemma {:induction false} FirstDigit(d: int, s: seq<int>)
    ensures RunValue([d] + s) == d + 1 + 2 * RunValue(s)
  {
    assert ([d] + s)[1..] == s;
  }

  /** Every digit string is the code of its value, so run codes are a bijection. */
  lemma {:induction false} ValueThenRuns(d: seq<int>)
    requires forall i :: 0 <= i < |d| ==> d[i] == RUNA || d[i] == RUNB
    ensures RunValue(d) >= 0 && Runs(RunValue(d)) == d
  {
    if d != [] {
      ValueThenRuns(d[1..]);
      assert d == [d[0]] + d[1..];
    }
  }

  /** The place of x in a list that holds it. */
  ghost function IndexOf(s: seq<byte>, x: byte): (j: nat)
    requires x in s
    ensures j < |s| && s[j] == x
  {
    if s[0] == x then 0 else 1 + IndexOf(s[1..], x)
  }

  lemma {:induction false} IndexOfFirst(s: seq<byte>, x: byte, k: nat)
    requires k < |s| && s[k] == x && forall i :: 0 <= i < k ==> s[i] != x
    ensures IndexOf(s, x) == k
  {
    if k > 0 {
      IndexOfFirst(s[1..], x, k - 1);
    }
  }

  /** The symbols for column c when list yy is current and z copies of its head are pending. */
  ghost function Encode(yy: seq<byte>, c: seq<byte>, z: nat): seq<int>
    requires Covers(yy, c)
    decreases |c|
  {
    if c == [] then Runs(z)
    else if c[0] == yy[0] then Encode(yy, c[1..], z + 1)
    else
      var j := IndexOf(yy, c[0]);
      CoversMoved(yy, c, j);
      Runs(z) + [j + 1] + Encode(MoveToFront(yy, j), c[1..], 0)
  }

  ghost predicate Covers(yy: seq<byte>, c: seq<byte>) {
    |yy| > 0 && forall i :: 0 <= i < |c| ==> c[i] in yy
  }

  lemma {:induction false} CoversMoved(yy: seq<byte>, c: seq<byte>, j: nat)
    requires Covers(yy, c) && j < |yy| && c != []
    ensures Covers(MoveToFront(yy, j), c[1..])
  {
    forall i | 0 <= i < |c[1..]|
      ensures c[1..][i] in MoveToFront(yy, j)
    {
      assert c[i + 1] in yy;
      var k :| 0 <= k < |yy| && yy[k] == c[i + 1];
      assert MoveToFront(yy, j)[if k < j then k + 1 else if k == j then 0 else k] == c[i + 1];
    }
  }

  /** The bytes that symbols stand for; a run digit counts n times its value. */
  ghost function Decode(list: seq<byte>, syms: seq<int>, n: nat): seq<byte>
    requires |list| > 0 && InList(syms, |list|)
    decreases |syms|
  {
    if syms == [] then []
    else if syms[0] == RUNA || syms[0] == RUNB then
      Repeat(list[0], (syms[0] + 1) * n) + Decode(list, syms[1..], 2 * n)
    else
      [list[syms[0] - 1]] + Decode(MoveToFront(list, syms[0] - 1), syms[1..], 1)
  }

  ghost predicate InList(syms: seq<int>, size: nat) {
    forall i :: 0 <= i < |syms| ==> 0 <= syms[i] <= size
  }

  /** Run digits never reach the guard against overflow. */
  ghost predicate Guarded(syms: seq<int>, n: nat)
    decreases |syms|
  {
    || syms == []
    || (if syms[0] == RUNA || syms[0] == RUNB then n < RUN_GUARD && Guarded(syms[1..], 2 * n)
        else Guarded(syms[1..], 1))
  }

  /** After anything but a run digit the weight is irrelevant. */
  ghost predicate RunEnds(rest: seq<int>) {
    rest == [] || (rest[0] != RUNA && rest[0] != RUNB)
  }

  lemma {:induction false} DecodeRun(list: seq<byte>, z: nat, rest: seq<int>, n: nat)
    requires |list| > 0 && InList(rest, |list|) && RunEnds(rest)
    ensures InList(Runs(z) + rest, |list|)
    ensures Decode(list, Runs(z) + rest, n) == Repeat(list[0], z * n) + Decode(list, rest, 1)
    decreases z
  {
    if z == 0 {
      assert Runs(z) + rest == rest;
      assert Repeat(list[0], z * n) == [];
    } else {
      var d, y := (z - 1) % 2, (z - 1) / 2;
      DecodeRun(list, y, rest, 2 * n);
      assert Runs(z) + rest == [d] + (Runs(y) + rest);
      DigitBefore(list, d, y, Runs(y) + rest, n, Decode(list, rest, 1));
      assert z == d + 1 + 2 * y;
    }
  }

  lemma {:induction false} DigitBefore(list: seq<byte>, d: int, y: nat, tail: seq<int>, n: nat, out: seq<byte>)
    requires |list| > 0 && 0 <= d < 2 && InList(tail, |list|) && Decode(list, tail, 2 * n) == Repeat(list[0], y * (2 * n)) + out
    ensures InList([d] + tail, |list|) && Decode(list, [d] + tail, n) == Repeat(list[0], (d + 1 + 2 * y) * n) + out
  {
    DecodeDigitFirst(list, d, tail, n);
    RunWeights(d + 1, y, n);
    RepeatTwice(list[0], (d + 1) * n, y * (2 * n), out);
  }

  lemma {:induction false} DecodeDigitFirst(list: seq<byte>, d: int, tail: seq<int>, n: nat)
    requires |list| > 0 && 0 <= d < 2 && InList(tail, |list|)
    ensures InList([d] + tail, |list|)
    ensures Decode(list, [d] + tail, n) == Repeat(list[0], (d + 1) * n) + Decode(list, tail, 2 * n)
  {
    assert ([d] + tail)[1..] == tail;
  }

  lemma {:induction false} RepeatTwice(x: byte, a: nat, b: nat, tail: seq<byte>)
    ensures Repeat(x, a) + (Repeat(x, b) + tail) == Repeat(x, a + b) + tail
  {
  }

  lemma {:induction false} RunWeights(d: int, y: int, n: int)
    ensures d * n + y * (2 * n) == (d + 2 * y) * n
  {
  }

  lemma {:induction false} GuardedRun(z: nat, rest: seq<int>, n: nat)
    requires z * n < RUN_GUARD && RunEnds(rest) && Guarded(rest, 1)
    ensures Guarded(Runs(z) + rest, n)
    decreases z
  {
    if z == 0 {
      assert Runs(z) + rest == rest;
    } else {
      var y := (z - 1) / 2;
      assert n <= z * n;
      assert y * (2 * n) == (2 * y) * n;
      assert (2 * y) * n <= z * n;
      GuardedRun(y, rest, 2 * n);
      assert (Runs(z) + rest)[0] == (z - 1) % 2 && (Runs(z) + rest)[1..] == Runs(y) + rest;
    }
  }

  /** A decoder with this list turns the symbols into out, and its guard does not fire. */
  ghost predicate Rebuilds(list: seq<byte>, size: nat, syms: seq<int>, out: seq<byte>) {
    && 0 < size <= |list| && InList(syms, size)
    && Decode(list, syms, 1) == out
    && Guarded(syms, 1)
  }

  lemma {:induction false} RebuildsRun(list: seq<byte>, size: nat, z: nat)
    requires 0 < size <= |list| && z < RUN_GUARD
    ensures Rebuilds(list, size, Runs(z), Repeat(list[0], z))
  {
    assert Runs(z) + [] == Runs(z);
    DecodeRun(list, z, [], 1);
    GuardedRun(z, [], 1);
    assert Repeat(list[0], z) + [] == Repeat(list[0], z);
  }

  /** One step with a symbol that is not at the head of the list. */
  lemma {:induction false} RebuildsOther(list: seq<byte>, size: nat, j: nat, tail: seq<int>, z: nat, out: seq<byte>)
    requires 0 < j < size <= |list| && z < RUN_GUARD
    requires Rebuilds(MoveToFront(list, j), size, tail, out)
    ensures Rebuilds(list, size, Runs(z) + [j + 1] + tail, Repeat(list[0], z) + ([list[j]] + out))
  {
    var rest := [j + 1] + tail;
    assert rest[1..] == tail;
    DecodeRun(list, z, rest, 1);
    GuardedRun(z, rest, 1);
    assert Runs(z) + [j + 1] + tail == Runs(z) + rest;
  }

  /**
   * The stage round trips: a decoder whose list starts with the encoder's rebuilds the pending run
   * and the column, and its guard never fires on runs shorter than two million.
   */
  lemma {:induction false} EncodeThenDecode(yy: seq<byte>, list: seq<byte>, c: seq<byte>, z: nat)
    requires Covers(yy, c) && |yy| <= |list| && list[..|yy|] == yy
    requires z + |c| < RUN_GUARD
    ensures Rebuilds(list, |yy|, Encode(yy, c, z), Repeat(yy[0], z) + c)
    decreases |c|
  {
    var head := yy[0];
    assert list[0] == head;
    if c == [] {
      RebuildsRun(list, |yy|, z);
      assert Repeat(head, z) + c == Repeat(head, z);
    } else if c[0] == head {
      CoversRest(yy, c);
      EncodeThenDecode(yy, list, c[1..], z + 1);
      RunGrows(head, z, c);
    } else {
      var j := IndexOf(yy, c[0]);
      CoversMoved(yy, c, j);
      MovedPrefix(yy, list, j);
      EncodeThenDecode(MoveToFront(yy, j), MoveToFront(list, j), c[1..], 0);
      assert Repeat(c[0], 0) + c[1..] == c[1..];
      RebuildsOther(list, |yy|, j, Encode(MoveToFront(yy, j), c[1..], 0), z, c[1..]);
      assert [c[0]] + c[1..] == c;
    }
  }

  lemma {:induction false} CoversRest(yy: seq<byte>, c: seq<byte>)
    requires Covers(yy, c) && c != []
    ensures Covers(yy, c[1..])
  {
  }

  lemma {:induction false} RunGrows(head: byte, z: nat, c: seq<byte>)
    requires c != [] && c[0] == head
    ensures Repeat(head, z + 1) + c[1..] == Repeat(head, z) + c
  {
  }

  lemma {:induction false} MovedPrefix(yy: seq<byte>, list: seq<byte>, j: nat)
    requires |yy| <= |list| && list[..|yy|] == yy && j < |yy|
    ensures list[j] == yy[j]
    ensures MoveToFront(list, j)[..|yy|] == MoveToFront(yy, j)
  {
  }
}
