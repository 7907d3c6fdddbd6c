/** The decoder's symbol loop: runs and list positions become the last column and its byte counts. */
module MtfDecoder {
  import opened Bytes
  import opened Counting
  import opened InverseBwt
  import opened MtfRuns
  import opened MtfWindow
  import opened SymbolMaps

  /** tt holds column l and unzftab its byte counts. */
  ghost predicate Stored(tt: seq<int>, unzftab: seq<int>, l: seq<byte>) {
    && |l| <= |tt| && HalfWords(tt)
    && CountsOf(unzftab, l)
    && forall i :: 0 <= i < |l| ==> tt[i] == l[i]
  }

  /** Values that fit the 16-bit array the SMALL decoder collects them in. */
  ghost predicate HalfWords(tt: seq<int>) {
    forall i :: 0 <= i < |tt| ==> 0 <= tt[i] < 0x10000
  }

  lemma {:induction false} CountsMore(f: seq<int>, l: seq<byte>, c: byte, n: nat)
    requires CountsOf(f, l)
    ensures CountsOf(f[c := f[c] + n], l + Repeat(c, n))
  {
    forall x | 0 <= x < 256
      ensures Count(l + Repeat(c, n), x) == Count(l, x) + if x == c then n else 0
    {
      CountAppend(l, Repeat(c, n), x);
      CountRepeat(c, n, x);
    }
  }

  lemma {:induction false} CountRepeat(c: byte, n: nat, x: int)
    ensures Count(Repeat(c, n), x) == if x == c then n else 0
  {
    if n > 0 {
      CountRepeat(c, n - 1, x);
      assert Repeat(c, n)[..n - 1] == Repeat(c, n - 1);
    }
  }

  /** Stores n copies of a byte, unless the block would overflow. */
  method Store(tt: array<int>, unzftab: array<int>, nblock0: nat, nblockMAX: nat, uc: byte, n: nat, ghost l: seq<byte>)
    returns (ok: bool, nblock: nat)
    requires tt != unzftab && unzftab.Length == 256 && nblock0 == |l| <= nblockMAX <= tt.Length
    requires Stored(tt[..], unzftab[..], l)
    modifies tt, unzftab
    ensures ok <==> |l| + n <= nblockMAX
    ensures ok ==> nblock == |l| + n && Stored(tt[..], unzftab[..], l + Repeat(uc, n))
  {
    nblock := nblock0;
    CountsMore(unzftab[..], l, uc, n);
    ghost var f := unzftab[..];
    unzftab[uc] := unzftab[uc] + n;
    assert unzftab[..] == f[uc := f[uc] + n];
    var es := n;
    while es > 0
      invariant 0 <= es <= n && nblock == |l| + (n - es) <= nblockMAX
      invariant unzftab[..] == f[uc := f[uc] + n] && HalfWords(tt[..])
      invariant forall i :: 0 <= i < nblock ==> tt[i] == (l + Repeat(uc, n))[i]
    {
      if nblock >= nblockMAX {
        return false, nblock;
      }
      tt[nblock] := uc;
      nblock := nblock + 1;
      es := es - 1;
    }
    ok := true;
  }

  /** Symbols up to the end-of-block symbol: list positions and run digits only. */
  ghost predicate Body(body: seq<int>, nInUse: nat) {
    0 < nInUse <= 256 && InList(body, nInUse)
  }

  ghost predicate IsRun(s: int) {
    s == RUNA || s == RUNB
  }

  lemma {:induction false} DecodeDigit(list: seq<byte>, body: seq<int>, i: nat, n: nat, es: nat)
    requires |list| > 0 && InList(body, |list|) && i < |body| && IsRun(body[i])
    ensures Repeat(list[0], es) + Decode(list, body[i..], n)
         == Repeat(list[0], es + if body[i] == RUNA then n else 2 * n) + Decode(list, body[i + 1..], 2 * n)
    ensures Guarded(body[i..], n) <==> n < RUN_GUARD && Guarded(body[i + 1..], 2 * n)
  {
    var d, tail := body[i], body[i + 1..];
    assert body[i..] == [d] + tail;
    DecodeDigitFirst(list, d, tail, n);
    assert (d + 1) * n == if d == RUNA then n else 2 * n;
    RepeatTwice(list[0], es, if d == RUNA then n else 2 * n, Decode(list, tail, 2 * n));
    assert ([d] + tail)[1..] == tail;
  }

  lemma {:induction false} RunOver(list: seq<byte>, rest: seq<int>, n: nat)
    requires |list| > 0 && InList(rest, |list|) && RunEnds(rest)
    ensures Decode(list, rest, n) == Decode(list, rest, 1)
    ensures Guarded(rest, n) <==> Guarded(rest, 1)
  {
  }

  /** The digits from start up to i stand for n copies, and the next digit has the given weight. */
  ghost predicate RunSoFar(list: seq<byte>, body: seq<int>, start: nat, i: nat, n: nat, weight: nat) {
    && |list| > 0 && InList(body, |list|) && start <= i <= |body|
    && Decode(list, body[start..], 1) == Repeat(list[0], n) + Decode(list, body[i..], weight)
    && (Guarded(body[start..], 1) <==> Guarded(body[i..], weight))
  }

  lemma {:induction false} RunDigit(list: seq<byte>, body: seq<int>, start: nat, i: nat, n: nat, weight: nat)
    requires RunSoFar(list, body, start, i, n, weight) && i < |body| && IsRun(body[i])
    ensures weight >= RUN_GUARD ==> !Guarded(body[start..], 1)
    ensures weight < RUN_GUARD ==>
              RunSoFar(list, body, start, i + 1, n + if body[i] == RUNA then weight else 2 * weight, 2 * weight)
  {
    DecodeDigit(list, body, i, weight, n);
  }

  lemma {:induction false} RunRead(list: seq<byte>, body: seq<int>, start: nat, i: nat, n: nat, weight: nat, syms: seq<int>)
    requires RunSoFar(list, body, start, i, n, weight) && |syms| == |body| + 1 && syms[..|body|] == body && !IsRun(syms[i])
    ensures RunSoFar(list, body, start, i, n, 1) && RunEnds(body[i..])
  {
    SameSymbol(syms, body, i);
    assert body[i..] != [] ==> body[i..][0] == body[i];
    RunOver(list, body[i..], weight);
  }

  /** Adds up the digits of a run; gives up when the weight reaches the guard. */
  method ReadRun(syms: seq<int>, start: nat, ghost body: seq<int>, ghost list: seq<byte>) returns (ok: bool, es: int, i: nat)
    requires |syms| == |body| + 1 && syms[..|body|] == body && !IsRun(syms[|body|])
    requires |list| > 0 && InList(body, |list|) && start < |body| && IsRun(syms[start])
    ensures !ok ==> !Guarded(body[start..], 1)
    ensures ok ==> start < i <= |body| && es >= 0 && RunEnds(body[i..])
    ensures ok ==> Decode(list, body[start..], 1) == Repeat(list[0], es) + Decode(list, body[i..], 1)
    ensures ok ==> (Guarded(body[start..], 1) <==> Guarded(body[i..], 1))
  {
    es := -1;
    var N := 1;
    i := start;
    RunBegins(list, body, start);
    while true
      invariant start <= i < |body| && IsRun(syms[i]) && -1 <= es && 1 <= N
      invariant RunSoFar(list, body, start, i, es + 1, N)
      decreases |body| - i
    {
      ok, es := AddDigit(syms, i, es, N, body, list, start);
      if !ok {
        return;
      }
      N := N * 2;
      i := i + 1;
      if !(syms[i] == RUNA || syms[i] == RUNB) {
        break;
      }
      SameSymbol(syms, body, i);
    }
    RunRead(list, body, start, i, es + 1, N, syms);
    es := es + 1;
    ok := true;
  }

  lemma {:induction false} RunBegins(list: seq<byte>, body: seq<int>, start: nat)
    requires |list| > 0 && InList(body, |list|) && start <= |body|
    ensures RunSoFar(list, body, start, start, 0, 1)
  {
    assert Repeat(list[0], 0) + Decode(list, body[start..], 1) == Decode(list, body[start..], 1);
  }

  lemma {:induction false} SameSymbol(syms: seq<int>, body: seq<int>, i: nat)
    requires |syms| == |body| + 1 && syms[..|body|] == body && i <= |body|
    ensures i < |body| ==> syms[i] == body[i]
    ensures IsRun(syms[i]) && !IsRun(syms[|body|]) ==> i < |body|
  {
    assert i < |body| ==> syms[i] == syms[..|body|][i];
  }

  /** One digit, unless its weight has reached the guard. */
  method AddDigit(syms: seq<int>, i: nat, es0: int, N: nat, ghost body: seq<int>, ghost list: seq<byte>, ghost start: nat)
    returns (ok: bool, es: int)
    requires |syms| == |body| + 1 && syms[..|body|] == body && i < |body| && IsRun(syms[i]) && -1 <= es0
    requires RunSoFar(list, body, start, i, es0 + 1, N)
    ensures !ok ==> !Guarded(body[start..], 1)
    ensures ok ==> -1 <= es && RunSoFar(list, body, start, i + 1, es + 1, N * 2)
  {
    SameSymbol(syms, body, i);
    RunDigit(list, body, start, i, es0 + 1, N);
    if N >= RUN_GUARD {
      return false, es0;
    }
    es := if syms[i] == RUNA then es0 + (0 + 1) * N else es0 + (1 + 1) * N;
    ok := true;
  }

  lemma {:induction false} DecodeOther(list: seq<byte>, body: seq<int>, i: nat)
    requires |list| > 0 && InList(body, |list|) && i < |body| && !IsRun(body[i])
    ensures Decode(list, body[i..], 1) == Repeat(list[body[i] - 1], 1) + Decode(MoveToFront(list, body[i] - 1), body[i + 1..], 1)
    ensures Guarded(body[i..], 1) <==> Guarded(body[i + 1..], 1)
  {
    assert body[i..][1..] == body[i + 1..];
    assert Repeat(list[body[i] - 1], 1) == [list[body[i] - 1]];
  }

  /** The first nInUse places of the list hold the numbers in use. */
  ghost predicate Closed(list: seq<byte>, nInUse: nat) {
    0 < nInUse <= |list| && forall k :: 0 <= k < nInUse ==> list[k] < nInUse
  }

  lemma {:induction false} ClosedMoved(list: seq<byte>, nInUse: nat, j: nat)
    requires Closed(list, nInUse) && j < nInUse
    ensures Closed(MoveToFront(list, j), nInUse)
  {
  }

  /** Where the loop stands: l is stored, and the rest of the body still decodes to the rest of the column. */
  ghost predicate Reached(m: seq<byte>, list: seq<byte>, rest: seq<int>, l: seq<byte>, body: seq<int>, whole: seq<byte>) {
    && |m| == 256 && |list| == 256 && InList(rest, 256)
    && l + Translate(m, Decode(list, rest, 1)) == whole
    && (Guarded(rest, 1) <==> Guarded(body, 1))
  }

  lemma {:induction false} ReachedMore(m: seq<byte>, list: seq<byte>, rest: seq<int>, l: seq<byte>, body: seq<int>, whole: seq<byte>,
                    c: byte, n: nat, list': seq<byte>, rest': seq<int>)
    requires Reached(m, list, rest, l, body, whole)
    requires |list'| == 256 && InList(rest', 256)
    requires Decode(list, rest, 1) == Repeat(c, n) + Decode(list', rest', 1)
    requires Guarded(rest, 1) <==> Guarded(rest', 1)
    ensures Reached(m, list', rest', l + Repeat(m[c], n), body, whole)
  {
    var tail := Decode(list', rest', 1);
    assert Translate(m, Repeat(c, n) + tail) == Repeat(m[c], n) + Translate(m, tail);
    assert l + (Repeat(m[c], n) + Translate(m, tail)) == l + Repeat(m[c], n) + Translate(m, tail);
  }

  ghost function Identity(): (s: seq<byte>)
    ensures |s| == 256
  {
    seq(256, k requires 0 <= k < 256 => k)
  }

  /** The decoder's arrays, and what the loop has made of them: column l, and the rest of body to go. */
  ghost predicate InStep(w: Windows, tt: array<int>, unzftab: array<int>, seqToUnseq: array<byte>, nInUse: nat, nblockMAX: nat,
                         body: seq<int>, i: nat, l: seq<byte>, whole: seq<byte>)
    reads w, w.mtfa, w.mtfbase, tt, unzftab, seqToUnseq
  {
    && tt != unzftab && w.mtfbase != tt && w.mtfbase != unzftab && w.mtfa != seqToUnseq
    && w.Valid() && unzftab.Length == 256 == seqToUnseq.Length
    && Body(body, nInUse) && i <= |body|
    && |l| <= nblockMAX <= tt.Length && Stored(tt[..], unzftab[..], l)
    && Closed(w.List(), nInUse)
    && Reached(seqToUnseq[..], w.List(), body[i..], l, body, whole)
  }

  /** A whole run at symbol i0. */
  method TurnRun(syms: seq<int>, i0: nat, w: Windows, tt: array<int>, unzftab: array<int>, seqToUnseq: array<byte>,
                 nInUse: nat, nblockMAX: nat, nblock0: nat, ghost body: seq<int>, ghost l: seq<byte>, ghost whole: seq<byte>)
    returns (ok: bool, i: nat, nblock: nat, ghost l': seq<byte>)
    requires InStep(w, tt, unzftab, seqToUnseq, nInUse, nblockMAX, body, i0, l, whole) && nblock0 == |l|
    requires |syms| == |body| + 1 && syms[..|body|] == body && !IsRun(syms[|body|])
    requires i0 < |body| && IsRun(syms[i0])
    modifies tt, unzftab
    ensures !ok ==> !Guarded(body, 1) || |whole| > nblockMAX
    ensures ok ==> InStep(w, tt, unzftab, seqToUnseq, nInUse, nblockMAX, body, i, l', whole) && i0 < i && nblock == |l'|
  {
    ghost var list, m := w.List(), seqToUnseq[..];
    l', i, nblock := l, i0, nblock0;
    var es;
    ok, es, i := ReadRun(syms, i0, body, list);
    if !ok {
      return;
    }
    var uc := w.Front();
    ReachedMore(m, list, body[i0..], l, body, whole, uc, es, list, body[i..]);
    l' := l + Repeat(m[uc], es);
    ok, nblock := Store(tt, unzftab, nblock0, nblockMAX, seqToUnseq[uc], es, l);
  }

  /** One symbol that is not a run digit: a list entry, moved to the front. */
  method TurnOther(sym: int, i: nat, w: Windows, tt: array<int>, unzftab: array<int>, seqToUnseq: array<byte>,
                   nInUse: nat, nblockMAX: nat, nblock0: nat, ghost body: seq<int>, ghost l: seq<byte>, ghost whole: seq<byte>)
    returns (ok: bool, nblock: nat, ghost l': seq<byte>)
    requires InStep(w, tt, unzftab, seqToUnseq, nInUse, nblockMAX, body, i, l, whole) && nblock0 == |l|
    requires i < |body| && body[i] == sym && !IsRun(sym)
    modifies tt, unzftab, w.mtfa, w.mtfbase
    ensures !ok ==> |whole| > nblockMAX
    ensures ok ==> InStep(w, tt, unzftab, seqToUnseq, nInUse, nblockMAX, body, i + 1, l', whole) && nblock == |l'|
  {
    ghost var list, m := w.List(), seqToUnseq[..];
    DecodeOther(list, body, i);
    ClosedMoved(list, nInUse, sym - 1);
    var uc := w.Access(sym - 1);
    ReachedMore(m, list, body[i..], l, body, whole, uc, 1, w.List(), body[i + 1..]);
    l' := l + Repeat(m[uc], 1);
    ok, nblock := Store(tt, unzftab, nblock0, nblockMAX, seqToUnseq[uc], 1, l);
  }

  /** The column that the symbols of a block stand for. */
  ghost function Column(m: seq<byte>, body: seq<int>): seq<byte>
    requires |m| == 256 && InList(body, 256)
  {
    Translate(m, Decode(Identity(), body, 1))
  }

  /**
   * The symbol loop. It fails exactly when a run reaches the guard or the column does not fit;
   * otherwise tt holds the column and unzftab its byte counts.
   */
  method DecodeColumn(syms: seq<int>, tt: array<int>, unzftab: array<int>, seqToUnseq: array<byte>, nInUse: nat, nblockMAX: nat)
    returns (ok: bool, nblock: nat)
    requires |syms| > 0 && Body(syms[..|syms| - 1], nInUse) && syms[|syms| - 1] == nInUse + 1
    requires tt != unzftab && nblockMAX <= tt.Length && unzftab.Length == 256 == seqToUnseq.Length && HalfWords(tt[..])
    modifies tt, unzftab
    ensures InList(syms[..|syms| - 1], 256)
    ensures ok <==> Guarded(syms[..|syms| - 1], 1) && |Column(seqToUnseq[..], syms[..|syms| - 1])| <= nblockMAX
    ensures ok ==> nblock == |Column(seqToUnseq[..], syms[..|syms| - 1])|
    ensures ok ==> Stored(tt[..], unzftab[..], Column(seqToUnseq[..], syms[..|syms| - 1]))
  {
    ghost var body := syms[..|syms| - 1];
    ghost var whole := Column(seqToUnseq[..], body);
    ghost var l: seq<byte> := [];
    Zero(unzftab);
    var w := new Windows();
    nblock := 0;
    var i: nat := 0;
    assert body[0..] == body && [] + whole == whole;
    while syms[i] != nInUse + 1
      invariant fresh(w.mtfa) && fresh(w.mtfbase)
      invariant InStep(w, tt, unzftab, seqToUnseq, nInUse, nblockMAX, body, i, l, whole) && nblock == |l|
      decreases |body| - i
    {
      assert body[i] == syms[i];
      if syms[i] == RUNA || syms[i] == RUNB {
        ok, i, nblock, l := TurnRun(syms, i, w, tt, unzftab, seqToUnseq, nInUse, nblockMAX, nblock, body, l, whole);
      } else {
        ok, nblock, l := TurnOther(syms[i], i, w, tt, unzftab, seqToUnseq, nInUse, nblockMAX, nblock, body, l, whole);
        i := i + 1;
      }
      if !ok {
        return;
      }
    }
    EndReached(seqToUnseq[..], w.List(), body, i, l, whole, nInUse, syms);
    ok := true;
  }

  lemma {:induction false} EndReached(m: seq<byte>, list: seq<byte>, body: seq<int>, i: nat, l: seq<byte>, whole: seq<byte>, nInUse: nat, syms: seq<int>)
    requires i <= |body| && Body(body, nInUse) && Reached(m, list, body[i..], l, body, whole)
    requires |syms| == |body| + 1 && body == syms[..|body|] && syms[i] == nInUse + 1
    ensures Guarded(body, 1) && l == whole
  {
    assert forall k | 0 <= k < |body| :: body[k] == syms[k];
    assert body[i..] == [];
  }

  method Zero(unzftab: array<int>)
    requires unzftab.Length == 256
    modifies unzftab
    ensures CountsOf(unzftab[..], [])
  {
    var i := 0;
    while i <= 255
      invariant 0 <= i <= 256
      invariant forall c :: 0 <= c < i ==> unzftab[c] == 0
    {
      unzftab[i] := 0;
      i := i + 1;
    }
  }
}
