/** One block from bytes to bits and back. */
module BlockCodec {
  import opened Arith
  import opened Bits
  import opened BitStream
  import opened BlockFormat
  import opened BlockMeaning
  import opened BlockReceiver
  import opened BlockSender
  import opened BlockSyntax
  import opened Bytes
  import opened Closing
  import opened Canonical
  import opened ColumnDecoder
  import opened Counting
  import FallbackSort
  import opened InverseBwt
  import opened Lookups
  import opened MtfDecoder
  import MtfEncoder
  import opened MtfRuns
  import opened ParseShrinks
  import opened Permutations
  import opened Randomiser
  import opened Rotation
  import opened SelectorRoom
  import opened SymbolMaps
  import opened SymbolRange
  import opened TableChoice

  const MAX_BLOCK: nat := 900000

  /** How a block was coded: its header, its symbols and the order its rotations were sorted in. */
  datatype Coding = Coding(head: Head, syms: seq<int>, order: seq<int>)

  ghost predicate SortsBlock(c: Coding, block: seq<byte>) {
    && 0 < |block| && IsPerm(c.order, |block|) && RotSorted(block, c.order)
    && c.head.origPtr < |block| && c.order[c.head.origPtr] == 0
  }

  ghost predicate SpellsColumn(c: Coding, l: seq<byte>) {
    var u := c.head.inUse;
    && |u| == 256 && AllUsed(u, l) && Covers(Iota(Used(u, 256)), Dense(u, l))
    && c.syms == Encode(Iota(Used(u, 256)), Dense(u, l), 0) + [Used(u, 256) + 1]
  }

  ghost predicate Sendable(c: Coding, nblockMAX: nat) {
    && HeadOk(c.head, nblockMAX) && !c.head.randomised
    && AllKraft(c.head.tables) && Choices(c.head.tables, c.head.selectors.list, c.syms)
  }

  ghost predicate IsCoding(c: Coding, block: seq<byte>, nblockMAX: nat) {
    && |block| <= nblockMAX && SortsBlock(c, block)
    && SpellsColumn(c, LastColumn(block, c.order)) && Sendable(c, nblockMAX)
  }

  /** The bits after the block's magic number. */
  ghost function CodingBits(c: Coding, nblockMAX: nat): seq<bit>
    requires Sendable(c, nblockMAX)
  {
    HeadBits(c.head) + SymbolsBits(c.head.tables, c.head.selectors.list, c.syms, 0)
  }

  // ---- writing ----

  /** The words of ptr seen as 16-bit halves, low half first. */
  method Halves(ptr: array<int>) returns (arr1: array<int>)
    ensures fresh(arr1) && MtfEncoder.HoldsOrder(arr1[..], ptr[..], 0)
  {
    arr1 := new int[2 * ptr.Length];
    var i := 0;
    while i < ptr.Length
      invariant 0 <= i <= ptr.Length
      invariant forall k :: 0 <= k < i ==> arr1[2 * k] + 0x10000 * arr1[2 * k + 1] == ptr[k]
    {
      arr1[2 * i] := ptr[i] % 0x10000;
      arr1[2 * i + 1] := ptr[i] / 0x10000;
      i := i + 1;
    }
  }

  lemma {:induction false} ColumnUsed(u: seq<bool>, block: seq<byte>, p: seq<int>)
    requires MarksAll(u, block) && 0 < |block| && IsPerm(p, |block|)
    ensures AllUsed(u, LastColumn(block, p))
  {
    forall i | 0 <= i < |block|
      ensures u[LastColumn(block, p)[i]]
    {
      LastColumnAt(block, p, i);
    }
  }

  /** Sorting and move-to-front coding: everything before the choice of codes. */
  method SpellBlock(block: array<byte>, inUse: array<bool>) returns (origPtr: nat, syms: seq<int>, ghost p: seq<int>)
    requires 0 < block.Length <= MAX_BLOCK && MarksAll(inUse[..], block[..])
    modifies block
    ensures block[..] == old(block[..]) && IsPerm(p, block.Length) && RotSorted(block[..], p)
    ensures origPtr < block.Length && p[origPtr] == 0
    ensures 0 < |syms| <= MAX_SYMBOLS && AllUsed(inUse[..], LastColumn(block[..], p))
    ensures Covers(Iota(Used(inUse[..], 256)), Dense(inUse[..], LastColumn(block[..], p)))
    ensures syms == Encode(Iota(Used(inUse[..], 256)), Dense(inUse[..], LastColumn(block[..], p)), 0) + [Used(inUse[..], 256) + 1]
  {
    var n := block.Length;
    var ptr, eclass := new int[n], new int[n];
    var bhtab := new bool[32 * (n / 32 + 3)];
    origPtr := FallbackSort.BlockSort(ptr, eclass, block, bhtab, n);
    p := ptr[..];
    ColumnUsed(inUse[..], block[..], p);
    var unseqToSeq := new byte[256];
    var nInUse := MakeMapsE(inUse, unseqToSeq);
    var arr1 := Halves(ptr);
    var nMTF := MtfEncoder.Generate(arr1, block, unseqToSeq, nInUse, p, inUse[..]);
    syms := arr1[..nMTF];
  }

  lemma {:induction false} IotaInIdentity(n: nat)
    requires n <= 256
    ensures Identity()[..n] == Iota(n)
  {
  }

  /** The symbols of a column stay in the alphabet, and only the last is the end mark. */
  lemma {:induction false} SpelledSymbols(u: seq<bool>, l: seq<byte>, syms: seq<int>)
    requires |u| == 256 && |l| <= MAX_BLOCK && AllUsed(u, l) && Covers(Iota(Used(u, 256)), Dense(u, l))
    requires syms == Encode(Iota(Used(u, 256)), Dense(u, l), 0) + [Used(u, 256) + 1]
    ensures InAlphabet(syms, AlphaSize(u)) && Ended(syms, Used(u, 256) + 1)
    ensures Rebuilds(Identity(), Used(u, 256), syms[..|syms| - 1], Dense(u, l))
  {
    var n := Used(u, 256);
    var body := Encode(Iota(n), Dense(u, l), 0);
    IotaInIdentity(n);
    EncodeThenDecode(Iota(n), Identity(), Dense(u, l), 0);
    assert Repeat(Iota(n)[0], 0) + Dense(u, l) == Dense(u, l);
    assert syms[..|syms| - 1] == body;
  }

  /** Chooses the codes for a block's symbols. */
  method ChooseFor(inUse: array<bool>, syms: seq<int>, ghost l: seq<byte>) returns (x: Selectors, tables: seq<seq<int>>)
    requires inUse.Length == 256 && 0 < |l| <= MAX_BLOCK && AllUsed(inUse[..], l) && 0 < |syms| <= MAX_SYMBOLS
    requires Covers(Iota(Used(inUse[..], 256)), Dense(inUse[..], l))
    requires syms == Encode(Iota(Used(inUse[..], 256)), Dense(inUse[..], l), 0) + [Used(inUse[..], 256) + 1]
    ensures SelectorsOk(x) && |tables| == x.nGroups && Choices(tables, x.list, syms)
    ensures AllKraft(tables) && AllLengths(tables, AlphaSize(inUse[..])) && Settled(syms, AlphaSize(inUse[..]), x, tables)
  {
    SpelledSymbols(inUse[..], l, syms);
    var nInUse := CountInUse(inUse);
    x, tables := ChooseTables(syms, nInUse + 2);
    CoversSymbols(tables, x.list, syms, nInUse + 2);
  }

  /** The codes are the ones that four rounds settle on. */
  ghost predicate Economical(c: Coding) {
    Settled(c.syms, AlphaSize(c.head.inUse), c.head.selectors, c.head.tables)
  }

  /** c is a coding of the block with those codes, which says what bytes are in use. */
  ghost predicate Plans(c: Coding, block: seq<byte>, inUse: seq<bool>, crc: nat, nblockMAX: nat) {
    IsCoding(c, block, nblockMAX) && Economical(c) && c.head.inUse == inUse && c.head.crc == crc
  }

  ghost predicate Planned(c: Coding, block: seq<byte>, inUse: seq<bool>, crc: nat, nblockMAX: nat) {
    Sendable(c, nblockMAX) && forall u {:trigger Peek(8, u)} :: Peek(8, u) ==> Plans(c, block, inUse, crc, nblockMAX)
  }

  /** Everything about a block that is decided before it is written. */
  method PlanBlock(block: array<byte>, inUse: array<bool>, crc: nat, ghost nblockMAX: nat)
    returns (origPtr: nat, syms: seq<int>, x: Selectors, tables: seq<seq<int>>, ghost c: Coding)
    requires 0 < block.Length <= nblockMAX <= MAX_BLOCK && MarksAll(inUse[..], block[..]) && crc < CRC_LIMIT
    modifies block
    ensures block[..] == old(block[..]) && Planned(c, block[..], inUse[..], crc, nblockMAX)
    ensures c.head == Head(crc, false, origPtr, inUse[..], x, tables) && c.syms == syms
  {
    ghost var p;
    origPtr, syms, p := SpellBlock(block, inUse);
    x, tables := ChooseFor(inUse, syms, LastColumn(block[..], p));
    c := Coding(Head(crc, false, origPtr, inUse[..], x, tables), syms, p);
    CodingMade(c, block[..], nblockMAX);
  }

  /** The block part of BZ2_compressBlock. */
  method SendBlock(w: BitWriter, block: array<byte>, inUse: array<bool>, crc: nat, ghost nblockMAX: nat) returns (ghost c: Coding)
    requires w.Valid() && 0 < block.Length <= nblockMAX <= MAX_BLOCK && MarksAll(inUse[..], block[..]) && crc < CRC_LIMIT
    modifies w, block
    ensures w.Valid() && block[..] == old(block[..]) && Planned(c, block[..], inUse[..], crc, nblockMAX)
    ensures w.Written() == old(w.Written()) + (ByteBits(BLOCK_MAGIC) + CodingBits(c, nblockMAX))
  {
    var origPtr, syms, x, tables;
    origPtr, syms, x, tables, c := PlanBlock(block, inUse, crc, nblockMAX);
    Transmit(w, crc, origPtr, inUse, x, tables, syms, c, nblockMAX);
  }

  lemma {:induction false} CodingMade(c: Coding, block: seq<byte>, nblockMAX: nat)
    requires 0 < |block| <= nblockMAX <= MAX_BLOCK && SortsBlock(c, block) && SpellsColumn(c, LastColumn(block, c.order))
    requires c.head.crc < CRC_LIMIT && c.head.origPtr < PTR_LIMIT && !c.head.randomised
    requires SelectorsOk(c.head.selectors) && |c.head.tables| == c.head.selectors.nGroups
    requires AllLengths(c.head.tables, AlphaSize(c.head.inUse)) && AllKraft(c.head.tables)
    requires Choices(c.head.tables, c.head.selectors.list, c.syms)
    ensures IsCoding(c, block, nblockMAX)
  {
  }

  method Transmit(w: BitWriter, crc: nat, origPtr: nat, inUse: array<bool>, x: Selectors, tables: seq<seq<int>>, syms: seq<int>,
                  ghost c: Coding, ghost nblockMAX: nat)
    requires w.Valid() && inUse.Length == 256 && c.head == Head(crc, false, origPtr, inUse[..], x, tables) && c.syms == syms
    requires Sendable(c, nblockMAX)
    modifies w
    ensures w.Valid() && w.Written() == old(w.Written()) + (ByteBits(BLOCK_MAGIC) + CodingBits(c, nblockMAX))
  {
    PutBytes(w, BLOCK_MAGIC);
    SendHead(w, crc, origPtr, inUse, x, tables);
    var codes := AssignAll(tables);
    SendSymbols(w, tables, codes, x.list, syms);
    FourPieces(old(w.Written()), ByteBits(BLOCK_MAGIC), HeadBits(c.head), SymbolsBits(tables, x.list, syms, 0));
  }

  lemma {:induction false} FourPieces(a: seq<bit>, b: seq<bit>, c: seq<bit>, d: seq<bit>)
    ensures a + b + c + d == a + (b + (c + d))
  {
  }

  // ---- reading ----

  /** The column read back is the one that was coded. */
  lemma {:induction false} ColumnBack(c: Coding, l: seq<byte>, m: seq<byte>)
    requires |l| <= MAX_BLOCK && SpellsColumn(c, l) && |m| == 256 && Inverts(m, c.head.inUse)
    ensures |c.syms| > 0
    ensures var body := c.syms[..|c.syms| - 1]; InList(body, 256) && Guarded(body, 1) && Column(m, body) == l
  {
    var u := c.head.inUse;
    SpelledSymbols(u, l, c.syms);
    DenseThenTranslate(m, u, l);
  }

  /** The block, and the two bytes that can be read past its end. */
  ghost predicate Holds(out: seq<byte>, block: seq<byte>) {
    |out| == |block| + 2 && out[..|block|] == block
  }

  /** And it unwinds to the block. */
  lemma {:induction false} BlockBack(c: Coding, block: seq<byte>)
    requires SortsBlock(c, block)
    ensures Holds(Unwound(LastColumn(block, c.order), c.head.origPtr), block)
  {
    var l := LastColumn(block, c.order);
    RowLinksUndo(l);
    UnwindRestoresBlock(block, c.order, RowLinks(l), c.head.origPtr, |block| + 2);
    var out := Unwound(l, c.head.origPtr);
    forall k | 0 <= k < |block|
      ensures out[k] == block[k]
    {
      InPlace(block, k);
    }
  }

  lemma {:induction false} InPlace(block: seq<byte>, k: nat)
    requires k < |block|
    ensures At(block, k) == block[k]
  {
    ModUnique(k, |block|, 0, k);
  }

  lemma {:induction false} BuiltSized(ds: seq<Decoder>, ts: seq<seq<int>>)
    requires AllBuilt(ds, ts)
    ensures AllSized(ds)
  {
    forall t | 0 <= t < |ds|
      ensures Sized(ds[t])
    {
      assert BuiltFrom(ds[t], ts[t]);
    }
  }

  /** The symbols of a block whose header has been read. */
  method ReceiveBody(r: BitReader, h: Head, nInUse: nat) returns (st: Status, syms: seq<int>)
    requires r.Valid() && Usable(h) && nInUse == Used(h.inUse, 256)
    modifies r
    ensures r.Valid() && Agrees(st, syms, r.Unread(), ParseCoded(h.tables, h.selectors.list, nInUse + 1, old(r.Unread()), 0))
    ensures st != OutOfArray && (st == Fine ==> Symbols(syms, nInUse))
  {
    var ds := BuildAll(h.tables, AlphaSize(h.inUse));
    BodyReads(ds, h, nInUse, r.Unread());
    st, syms := ReceiveSymbols(r, ds, h.selectors.list, nInUse + 1);
  }

  lemma {:induction false} BodyReads(ds: seq<Decoder>, h: Head, nInUse: nat, bits: seq<bit>)
    requires Usable(h) && nInUse == Used(h.inUse, 256) && AllBuilt(ds, h.tables)
    ensures AllSized(ds) && SelectsFrom(h.selectors.list, |ds|)
    ensures var p := ParseCoded(h.tables, h.selectors.list, nInUse + 1, bits, 0);
      && ParseSymbols(ds, h.selectors.list, nInUse + 1, bits, 0) == p
      && p != Bad(TooMany) && (p.Done? ==> Symbols(p.value, nInUse))
  {
    BuiltSized(ds, h.tables);
    BuiltAlike(ds, h.tables);
    AlikeParse(ds, h.tables, h.selectors.list, nInUse + 1, bits, 0);
    CodedInAlphabet(h.tables, h.selectors.list, nInUse, bits, 0);
  }

  method ToBools(u: seq<bool>) returns (a: array<bool>)
    ensures fresh(a) && a[..] == u
  {
    a := new bool[|u|];
    var i := 0;
    while i < |u|
      invariant 0 <= i <= |u| && forall k :: 0 <= k < i ==> a[k] == u[k]
    {
      a[i] := u[i];
      i := i + 1;
    }
  }

  method DecodeSymbols(syms: seq<int>, seqToUnseq: array<byte>, nInUse: nat, nblockMAX: nat, origPtr: nat, small: bool)
    returns (ok: bool, out: seq<byte>)
    requires seqToUnseq.Length == 256 && 0 < nInUse <= 256 && nblockMAX <= MAX_BLOCK && Symbols(syms, nInUse)
    ensures ok <==> Accepts(seqToUnseq[..], syms[..|syms| - 1], nblockMAX, origPtr)
    ensures ok ==> out == Unwound(Column(seqToUnseq[..], syms[..|syms| - 1]), origPtr)
  {
    if small {
      ok, out := DecodeSmall(syms, seqToUnseq, nInUse, nblockMAX, origPtr);
    } else {
      ok, out := DecodeFast(syms, seqToUnseq, nInUse, nblockMAX, origPtr);
    }
  }

  /** The bytes of a block whose symbols have been read: what both decoders make of them, and when they refuse. */
  method RebuildBlock(h: Head, syms: seq<int>, small: bool, nblockMAX: nat, random: nat -> pos) returns (ok: bool, out: seq<byte>)
    requires Usable(h) && nblockMAX <= MAX_BLOCK && Symbols(syms, Used(h.inUse, 256))
    ensures ok <==> Fitting(h, syms, nblockMAX)
    ensures ok ==> out == CodeOf(h, syms, nblockMAX, random)
  {
    var inUse := ToBools(h.inUse);
    var seqToUnseq := new byte[256];
    var nInUse := MakeMapsD(inUse, seqToUnseq);
    ColumnIs(seqToUnseq[..], h.inUse, syms[..|syms| - 1]);
    ok, out := DecodeSymbols(syms, seqToUnseq, nInUse, nblockMAX, h.origPtr, small);
    if ok && h.randomised {
      out := Derandomise(random, out);
    }
    FittingIs(h, syms, nblockMAX);
    if ok {
      CodeIs(h, syms, nblockMAX, random);
    }
  }

  /** The header of a block on any input: usable, and written past the selector arrays exactly if there are too many. */
  method ReceiveBlockHead(r: BitReader, nblockMAX: nat) returns (st: Status, h: Head)
    requires r.Valid()
    modifies r
    ensures r.Valid() && Agrees(st, h, r.Unread(), ParseHead(old(r.Unread()), nblockMAX)) && (st == Fine ==> Usable(h))
    ensures st == OutOfArray <==> HeadOverruns(old(r.Unread()), nblockMAX)
  {
    ghost var bits := r.Unread();
    st, h := ReceiveHead(r, nblockMAX);
    HeadSound(st, h, r.Unread(), bits, nblockMAX);
  }

  /** What follows the header. */
  method ReceiveCoded(r: BitReader, h: Head, small: bool, nblockMAX: nat, random: nat -> pos) returns (st: Status, out: seq<byte>)
    requires r.Valid() && nblockMAX <= MAX_BLOCK && Usable(h)
    modifies r
    ensures r.Valid() && Succeeds(st, Content(h.crc, out), r.Unread(), ParseBody(h, nblockMAX, random, old(r.Unread())))
    ensures st != OutOfArray
  {
    out := [];
    ghost var bits := r.Unread();
    var inUse := ToBools(h.inUse);
    var nInUse := CountInUse(inUse);
    var syms;
    st, syms := ReceiveBody(r, h, nInUse);
    if st != Fine {
      return;
    }
    var ok;
    ok, out := RebuildBlock(h, syms, small, nblockMAX, random);
    st := if ok then Fine else DataError;
    BodyMeans(h, nblockMAX, random, bits, syms, r.Unread(), ok, out);
  }

  lemma {:induction false} BodyMeans(h: Head, nblockMAX: nat, random: nat -> pos, bits: seq<bit>, syms: seq<int>, rest: seq<bit>, ok: bool, out: seq<byte>)
    requires ParseCoded(h.tables, h.selectors.list, AlphaSize(h.inUse) - 1, bits, 0) == Done(syms, rest)
    requires ok <==> Fitting(h, syms, nblockMAX)
    requires ok ==> out == CodeOf(h, syms, nblockMAX, random)
    ensures Succeeds(if ok then Fine else DataError, Content(h.crc, out), rest, ParseBody(h, nblockMAX, random, bits))
  {
  }

  /**
   * Reads one block after its magic number. On any input, either decoder succeeds exactly if the bits are a
   * block, with the bytes that they mean.
   */
  method ReceiveBlock(r: BitReader, small: bool, nblockMAX: nat, random: nat -> pos)
    returns (st: Status, crc: nat, out: seq<byte>, randomised: bool)
    requires r.Valid() && nblockMAX <= MAX_BLOCK
    modifies r
    ensures r.Valid() && Succeeds(st, Content(crc, out), r.Unread(), ParseBlock(old(r.Unread()), nblockMAX, random))
    ensures st == OutOfArray <==> HeadOverruns(old(r.Unread()), nblockMAX)
  {
    crc, out, randomised := 0, [], false;
    var h;
    st, h := ReceiveBlockHead(r, nblockMAX);
    if st != Fine {
      return;
    }
    st, out := ReceiveCoded(r, h, small, nblockMAX, random);
    crc, randomised := h.crc, h.randomised;
  }

  // ---- reading what was written ----

  /** Symbols of a coding are accepted and give the block. */
  lemma {:induction false} CodingAccepted(c: Coding, block: seq<byte>, nblockMAX: nat, random: nat -> pos)
    requires IsCoding(c, block, nblockMAX) && nblockMAX <= MAX_BLOCK
    ensures Fitting(c.head, c.syms, nblockMAX) && Holds(CodeOf(c.head, c.syms, nblockMAX, random), block)
  {
    var l := LastColumn(block, c.order);
    MapInverts(c.head.inUse);
    ColumnBack(c, l, MapOf(c.head.inUse));
    BlockBack(c, block);
    assert |l| == |block|;
    CodeIs(c.head, c.syms, nblockMAX, random);
  }

  /** Every coding of a block reads back as the block, and leaves what follows. */
  lemma {:induction false} CodingParses(c: Coding, block: seq<byte>, nblockMAX: nat, random: nat -> pos, rest: seq<bit>) returns (code: seq<byte>)
    requires IsCoding(c, block, nblockMAX) && nblockMAX <= MAX_BLOCK
    ensures ParseBlock(CodingBits(c, nblockMAX) + rest, nblockMAX, random) == Done(Content(c.head.crc, code), rest) && Holds(code, block)
  {
    var s := SymbolsBits(c.head.tables, c.head.selectors.list, c.syms, 0);
    HeadBack(c.head, nblockMAX, s + rest);
    Assoc(HeadBits(c.head), s, rest);
    CodedComeBack(c, block, nblockMAX, rest);
    CodingAccepted(c, block, nblockMAX, random);
    code := CodeOf(c.head, c.syms, nblockMAX, random);
  }

  lemma {:induction false} CodedComeBack(c: Coding, block: seq<byte>, nblockMAX: nat, rest: seq<bit>)
    requires IsCoding(c, block, nblockMAX) && nblockMAX <= MAX_BLOCK
    ensures ParseCoded(c.head.tables, c.head.selectors.list, AlphaSize(c.head.inUse) - 1,
                       SymbolsBits(c.head.tables, c.head.selectors.list, c.syms, 0) + rest, 0) == Done(c.syms, rest)
  {
    CodingEnds(c, block, nblockMAX);
    AllSymbolsBack(c.head.tables, c.head.selectors.list, c.syms, AlphaSize(c.head.inUse) - 1, rest);
  }

  lemma {:induction false} CodingEnds(c: Coding, block: seq<byte>, nblockMAX: nat)
    requires IsCoding(c, block, nblockMAX) && nblockMAX <= MAX_BLOCK
    ensures Ended(c.syms, AlphaSize(c.head.inUse) - 1)
  {
    SpelledSymbols(c.head.inUse, LastColumn(block, c.order), c.syms);
  }

  lemma {:induction false} AllSymbolsBack(ts: seq<seq<int>>, sel: seq<byte>, syms: seq<int>, EOB: int, rest: seq<bit>)
    requires AllKraft(ts) && Choices(ts, sel, syms) && Ended(syms, EOB)
    ensures ParseCoded(ts, sel, EOB, SymbolsBits(ts, sel, syms, 0) + rest, 0) == Done(syms, rest)
  {
    SymbolsBack(ts, sel, syms, EOB, rest, 0);
    assert syms[0..] == syms;
  }
}
