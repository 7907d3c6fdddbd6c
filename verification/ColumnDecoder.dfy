/** From the symbols of a block to its bytes: the FAST decoder, the SMALL decoder, and what both compute. */
module ColumnDecoder {
  import opened Bytes
  import opened Counting
  import opened InverseBwt
  import opened MtfDecoder
  import opened MtfRuns
  import opened MtfWindow
  import opened Permutations
  import opened SmallDecoder
  import opened SymbolMaps

  /** The row of the last column that sorting brings to row k. */
  ghost function RowOf(l: seq<byte>, k: nat): (i: nat)
    requires k < |l|
    ensures i < |l| && Rank(l, i) == k
  {
    RowExists(l, k);
    var i :| 0 <= i < |l| && Rank(l, i) == k;
    i
  }

  lemma {:induction false} RowExists(l: seq<byte>, k: nat)
    requires k < |l|
    ensures exists i :: 0 <= i < |l| && Rank(l, i) == k
  {
    RanksArePerm(l);
    var i := PermOnto(Ranks(l), |l|, k);
    assert Ranks(l)[i] == Rank(l, i);
  }

  ghost function RowLinks(l: seq<byte>): (t: seq<int>)
    ensures |t| == |l| && forall k :: 0 <= k < |l| ==> t[k] == RowOf(l, k)
  {
    seq(|l|, k requires 0 <= k < |l| => RowOf(l, k))
  }

  lemma {:induction false} RowLinksUnique(l: seq<byte>, t: seq<int>)
    requires UndoesRank(l, t)
    ensures t == RowLinks(l)
  {
    forall k | 0 <= k < |l|
      ensures t[k] == RowOf(l, k)
    {
      assert t[Rank(l, RowOf(l, k))] == RowOf(l, k);
    }
  }

  lemma {:induction false} RowLinksUndo(l: seq<byte>)
    ensures UndoesRank(l, RowLinks(l)) && Within(RowLinks(l), |l|)
  {
    RanksInRange(l);
    forall i | 0 <= i < |l|
      ensures RowOf(l, Rank(l, i)) == i
    {
      RankFresh(l, i);
    }
  }

  /** The bytes that can be read from column l: the block, and then two more from its start. */
  ghost function Unwound(l: seq<byte>, origPtr: nat): seq<byte>
    requires origPtr < |l|
  {
    RowLinksUndo(l);
    Unwind(l, RowLinks(l), RowLinks(l)[origPtr], |l| + 2)
  }

  ghost predicate Accepts(m: seq<byte>, body: seq<int>, nblockMAX: nat, origPtr: nat) {
    |m| == 256 && InList(body, 256) && Guarded(body, 1) && origPtr < |Column(m, body)| <= nblockMAX
  }

  ghost predicate Symbols(syms: seq<int>, nInUse: nat) {
    |syms| > 0 && Body(syms[..|syms| - 1], nInUse) && syms[|syms| - 1] == nInUse + 1
  }

  lemma {:induction false} CountsPass(f: seq<int>, l: seq<byte>, cf: seq<int>)
    requires CountsOf(f, l) && |cf| == 257 && forall c :: 0 <= c <= 256 ==> cf[c] == Total(f, c)
    ensures forall c :: 0 <= c < 256 ==> 0 <= f[c] <= |l|
    ensures forall c :: 0 <= c <= 256 ==> 0 <= cf[c] <= |l| && cf[c] == Below(l, c)
    ensures forall c :: 1 <= c <= 256 ==> cf[c - 1] <= cf[c]
  {
    MatchingCounts(f, l);
  }

  method DecodeFast(syms: seq<int>, seqToUnseq: array<byte>, nInUse: nat, nblockMAX: nat, origPtr: nat) returns (ok: bool, out: seq<byte>)
    requires Symbols(syms, nInUse) && seqToUnseq.Length == 256
    ensures ok <==> Accepts(seqToUnseq[..], syms[..|syms| - 1], nblockMAX, origPtr)
    ensures ok ==> out == Unwound(Column(seqToUnseq[..], syms[..|syms| - 1]), origPtr)
  {
    out := [];
    var tt := new int[nblockMAX](_ => 0);
    var unzftab := new int[256];
    var nblock;
    ok, nblock := DecodeColumn(syms, tt, unzftab, seqToUnseq, nInUse, nblockMAX);
    if !ok || origPtr >= nblock {
      return false, [];
    }
    ghost var l := Column(seqToUnseq[..], syms[..|syms| - 1]);
    var cftab := new int[257];
    Cumulate(unzftab, cftab);
    CountsPass(unzftab[..], l, cftab[..]);
    var inRange := TablesInRange(unzftab, cftab, nblock);
    if !inRange {
      return false, [];
    }
    out := RunFast(tt, cftab, nblock, origPtr, l);
  }

  method RunFast(tt: array<int>, cftab: array<int>, nblock: nat, origPtr: nat, ghost l: seq<byte>) returns (out: seq<byte>)
    requires cftab.Length == 257 && tt != cftab && origPtr < nblock == |l| <= tt.Length && HalfWords(tt[..])
    requires forall i :: 0 <= i < nblock ==> tt[i] == l[i]
    requires forall c :: 0 <= c < 256 ==> cftab[c] == Below(l, c)
    modifies tt, cftab
    ensures out == Unwound(l, origPtr)
  {
    assert forall k | 0 <= k < tt.Length :: tt[..][k] == tt[k];
    ThreadLinks(tt, cftab, nblock, l);
    out := UnwindFast(tt, nblock, origPtr, nblock + 2, l);
    RowLinksUnique(l, Links(tt[..nblock]));
  }

  method DecodeSmall(syms: seq<int>, seqToUnseq: array<byte>, nInUse: nat, nblockMAX: nat, origPtr: nat) returns (ok: bool, out: seq<byte>)
    requires Symbols(syms, nInUse) && seqToUnseq.Length == 256 && nblockMAX <= 0x100000
    ensures ok <==> Accepts(seqToUnseq[..], syms[..|syms| - 1], nblockMAX, origPtr)
    ensures ok ==> out == Unwound(Column(seqToUnseq[..], syms[..|syms| - 1]), origPtr)
  {
    out := [];
    var links := new PackedLinks(nblockMAX);
    var unzftab := new int[256];
    var nblock;
    ok, nblock := DecodeColumn(syms, links.ll16, unzftab, seqToUnseq, nInUse, nblockMAX);
    if !ok || origPtr >= nblock {
      return false, [];
    }
    ghost var l := Column(seqToUnseq[..], syms[..|syms| - 1]);
    var cftab := new int[257];
    Cumulate(unzftab, cftab);
    CountsPass(unzftab[..], l, cftab[..]);
    var inRange := TablesInRange(unzftab, cftab, nblock);
    if !inRange {
      return false, [];
    }
    assert forall k | 0 <= k < nblockMAX :: links.ll16[..][k] == links.ll16[k];
    out := RunSmall(links, cftab, nblock, origPtr, l);
  }

  method CopyTable(cftab: array<int>) returns (cftabCopy: array<int>)
    requires cftab.Length == 257
    ensures fresh(cftabCopy) && cftabCopy.Length == 257 && cftabCopy[..] == cftab[..]
  {
    cftabCopy := new int[257];
    var i := 0;
    while i <= 256
      invariant 0 <= i <= 257 && forall k :: 0 <= k < i ==> cftabCopy[k] == cftab[k]
    {
      cftabCopy[i] := cftab[i];
      i := i + 1;
    }
  }

  method RunSmall(links: PackedLinks, cftab: array<int>, nblock: nat, origPtr: nat, ghost l: seq<byte>) returns (out: seq<byte>)
    requires links.Valid() && cftab.Length == 257 && cftab != links.ll16 && cftab != links.ll4
    requires origPtr < nblock == |l| <= links.ll16.Length && nblock <= 0x100000
    requires forall i :: 0 <= i < nblock ==> links.ll16[i] == l[i]
    requires forall c :: 0 <= c <= 256 ==> cftab[c] == Below(l, c)
    modifies links.ll16, links.ll4
    ensures out == Unwound(l, origPtr)
  {
    var cftabCopy := CopyTable(cftab);
    assert forall c | 0 <= c <= 256 :: cftabCopy[c] == cftabCopy[..][c] == cftab[..][c];
    links.StoreRanks(cftabCopy, nblock, l);
    ghost var cycle := links.ReverseCycle(origPtr, l);
    RowLinksUndo(l);
    out := links.UnwindSmall(cftab, origPtr, nblock + 2, l, RowLinks(l), cycle);
  }
}
