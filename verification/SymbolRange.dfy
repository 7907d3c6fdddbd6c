/** What reading a block can end in, whatever the input was. */
module SymbolRange {
  import opened Bits
  import opened BlockFormat
  import opened BlockReceiver
  import opened BlockSyntax
  import opened Bytes
  import opened Canonical
  import opened ColumnDecoder
  import opened MtfDecoder
  import opened MtfRuns
  import opened ParseShrinks
  import opened SelectorRoom

  /** Whatever was in the tables before, they read what the lengths say. */
  lemma {:induction false} BuiltReads(d: Decoder, len: seq<int>, bits: seq<bit>)
    requires BuiltFrom(d, len)
    ensures ReadSymbol(d, bits) == ReadCoded(len, bits)
  {
    var maxLen: nat :| BuiltWith(d, len, maxLen);
    ReadsFromShortest(len, d.minLen, bits, 1);
    TablesRead(d.limit, d.base, d.perm, len, d.minLen, maxLen, bits, d.minLen);
  }

  /** These tables read what these lengths say. */
  ghost predicate Alike(ds: seq<Decoder>, ts: seq<seq<int>>) {
    && |ds| == |ts| && AllSized(ds)
    && forall t, bits {:trigger ReadSymbol(ds[t], bits)} :: 0 <= t < |ds| ==> ReadSymbol(ds[t], bits) == ReadCoded(ts[t], bits)
  }

  lemma {:induction false} BuiltAlike(ds: seq<Decoder>, ts: seq<seq<int>>)
    requires AllBuilt(ds, ts) && AllSized(ds)
    ensures Alike(ds, ts)
  {
    forall t, bits | 0 <= t < |ds|
      ensures ReadSymbol(ds[t], bits) == ReadCoded(ts[t], bits)
    {
      assert BuiltFrom(ds[t], ts[t]);
      BuiltReads(ds[t], ts[t], bits);
    }
  }

  lemma {:induction false} AlikeParse(ds: seq<Decoder>, ts: seq<seq<int>>, sel: seq<byte>, EOB: int, bits: seq<bit>, i: nat)
    requires Alike(ds, ts) && SelectsFrom(sel, |ds|)
    ensures ParseSymbols(ds, sel, EOB, bits, i) == ParseCoded(ts, sel, EOB, bits, i)
    decreases |bits|
  {
    if i / G_SIZE < |sel| {
      var p := ReadSymbol(ds[sel[i / G_SIZE]], bits);
      if p.Done? && p.value != EOB {
        AlikeParse(ds, ts, sel, EOB, p.rest, i + 1);
      }
    }
  }

  /** On any input the symbols read are run digits and list positions up to the end mark: no index needs a check. */
  lemma {:induction false} CodedInAlphabet(ts: seq<seq<int>>, sel: seq<byte>, nInUse: nat, bits: seq<bit>, i: nat)
    requires AllLengths(ts, nInUse + 2) && 0 < nInUse <= 256
    ensures var p := ParseCoded(ts, sel, nInUse + 1, bits, i); p != Bad(TooMany) && (p.Done? ==> Symbols(p.value, nInUse))
    decreases |bits|
  {
    if i / G_SIZE < |sel| && sel[i / G_SIZE] < |ts| {
      var p := ReadCoded(ts[sel[i / G_SIZE]], bits);
      if p.Done? && p.value == nInUse + 1 {
        OnlyEndMark(nInUse);
      } else if p.Done? {
        CodedInAlphabet(ts, sel, nInUse, p.rest, i + 1);
        var q := ParseCoded(ts, sel, nInUse + 1, p.rest, i + 1);
        if q.Done? {
          SymbolsCons(p.value, q.value, nInUse);
        }
      }
    }
  }

  lemma {:induction false} OnlyEndMark(nInUse: nat)
    requires 0 < nInUse <= 256
    ensures Symbols([nInUse + 1], nInUse)
  {
    assert [nInUse + 1][..0] == [];
  }

  lemma {:induction false} SymbolsCons(x: int, v: seq<int>, nInUse: nat)
    requires 0 <= x <= nInUse && Symbols(v, nInUse)
    ensures Symbols([x] + v, nInUse)
  {
    assert ([x] + v)[..|v|] == [x] + v[..|v| - 1];
  }

  /** What reading a header can end in. */
  lemma {:induction false} HeadSound(st: Status, h: Head, after: seq<bit>, bits: seq<bit>, nblockMAX: nat)
    requires Agrees(st, h, after, ParseHead(bits, nblockMAX))
    ensures st == Fine ==> Usable(h) && |after| <= |bits|
    ensures st == OutOfArray <==> HeadOverruns(bits, nblockMAX)
  {
    ParsedHeadUsable(bits, nblockMAX);
    HeadShrinks(bits, nblockMAX);
    HeadFits(bits, nblockMAX);
    Ending(st, h, after, ParseHead(bits, nblockMAX));
  }

  lemma {:induction false} Ending<T>(st: Status, v: T, after: seq<bit>, p: Parsed<T>)
    requires Agrees(st, v, after, p)
    ensures st == Fine ==> p == Done(v, after)
    ensures st == OutOfArray <==> p == Bad(TooMany)
  {
  }
}
