/** A whole block as bits: its header, the tables and the coded symbols. */
module BlockFormat {
  import opened Arith
  import opened Bits
  import opened BlockSyntax
  import opened Bytes
  import opened Canonical
  import opened MtfRuns
  import opened MtfWindow
  import opened SymbolMaps

  const BLOCK_MAGIC: seq<byte> := [0x31, 0x41, 0x59, 0x26, 0x53, 0x59]
  const N_GROUPS: nat := 6
  const CRC_LEN: nat := 4
  const PTR_LEN: nat := 3
  const CRC_LIMIT: nat := 0x1_0000_0000
  const PTR_LIMIT: nat := 0x100_0000
  const SELECTOR_BITS: nat := 15
  const SELECTOR_LIMIT: nat := 0x8000
  /** The size of the arrays selector and selectorMtf. */
  const MAX_SELECTORS: nat := 18002

  lemma {:induction false} Limits()
    ensures Pow2(8 * CRC_LEN) == CRC_LIMIT && Pow2(8 * PTR_LEN) == PTR_LIMIT && Pow2(SELECTOR_BITS) == SELECTOR_LIMIT
  {
    assert Pow2(8) == 256;
    Pow2Add(8, 8);
    Pow2Add(16, 8);
    Pow2Add(24, 8);
    assert Pow2(7) == 128;
    Pow2Add(8, 7);
  }

  // ---- byte strings and numbers made of bytes ----

  ghost function ParseBytes(bits: seq<bit>, n: nat): Parsed<seq<byte>>
    decreases n
  {
    if n == 0 then Done([], bits)
    else match ParseBits(bits, OCTET)
      case Done(x, rest) =>
        if x >= 256 then Bad(Malformed)
        else (match ParseBytes(rest, n - 1)
              case Done(s, rest') => Done([x] + s, rest')
              case More => More
              case Bad(why) => Bad(why))
      case More => More
      case Bad(why) => Bad(why)
  }

  lemma {:induction false} BytesBack(s: seq<byte>, rest: seq<bit>)
    ensures ParseBytes(ByteBits(s) + rest, |s|) == Done(s, rest)
  {
    if s == [] {
      assert ByteBits(s) + rest == rest;
    } else {
      BytesBack(s[1..], rest);
      ByteBitsCons(s);
      ByteBefore(s[0], s[1..], ByteBits(s[1..]) + rest, rest);
      Assoc(BitsOf(s[0], OCTET), ByteBits(s[1..]), rest);
      assert [s[0]] + s[1..] == s;
    }
  }

  lemma {:induction false} ByteBefore(x: byte, s: seq<byte>, bits: seq<bit>, rest: seq<bit>)
    requires ParseBytes(bits, |s|) == Done(s, rest)
    ensures ParseBytes(BitsOf(x, OCTET) + bits, |s| + 1) == Done([x] + s, rest)
  {
    assert Pow2(8) == 256;
    BitsBack(x, OCTET, bits);
  }

  /** The bytes after the magic must come one by one as expected; the first that differs is an error. */
  ghost function ParseMagic(bits: seq<bit>, magic: seq<byte>): Parsed<()>
    decreases |magic|
  {
    if magic == [] then Done((), bits)
    else match ParseBits(bits, OCTET)
      case Done(x, rest) => if x != magic[0] then Bad(Malformed) else ParseMagic(rest, magic[1..])
      case More => More
      case Bad(why) => Bad(why)
  }

  lemma {:induction false} MagicBack(magic: seq<byte>, rest: seq<bit>)
    ensures ParseMagic(ByteBits(magic) + rest, magic) == Done((), rest)
  {
    if magic == [] {
      assert ByteBits(magic) + rest == rest;
    } else {
      MagicBack(magic[1..], rest);
      ByteBitsCons(magic);
      assert Pow2(8) == 256;
      BitsBack(magic[0], OCTET, ByteBits(magic[1..]) + rest);
      Assoc(BitsOf(magic[0], OCTET), ByteBits(magic[1..]), rest);
    }
  }

  /** A number, most significant byte first. */
  function BigEndian(s: seq<byte>): nat {
    if s == [] then 0 else 256 * BigEndian(s[..|s| - 1]) + s[|s| - 1]
  }

  /** The bits of a number of bytes are the bits of its bytes. */
  lemma {:induction false} BigEndianBits(s: seq<byte>, n: nat)
    requires n == 8 * |s|
    ensures ByteBits(s) == BitsOf(BigEndian(s), n)
    decreases n
  {
    if s != [] {
      var m := n - OCTET;
      BigEndianBits(s[..|s| - 1], m);
      BigEndianStep(s[..|s| - 1], s[|s| - 1], m);
      assert s == s[..|s| - 1] + [s[|s| - 1]];
    } else {
      assert ByteBits(s) == [] && BitsOf(0, 0) == [];
    }
  }

  lemma {:induction false} BigEndianStep(s: seq<byte>, x: byte, m: nat)
    requires ByteBits(s) == BitsOf(BigEndian(s), m)
    ensures ByteBits(s + [x]) == BitsOf(BigEndian(s + [x]), m + OCTET)
  {
    ByteBitsSnoc(s, x);
    BigEndianSnoc(s, x);
    AppendByte(BigEndian(s), x, m);
  }

  lemma {:induction false} BigEndianSnoc(s: seq<byte>, x: byte)
    ensures BigEndian(s + [x]) == 256 * BigEndian(s) + x
  {
    assert (s + [x])[..|s|] == s;
  }

  lemma {:induction false} AppendByte(v: nat, x: byte, m: nat)
    ensures BitsOf(256 * v + x, m + OCTET) == BitsOf(v, m) + BitsOf(x, OCTET)
  {
    assert Pow2(8) == 256;
    BitsSplit(v, x, m, OCTET);
  }

  /** The four bytes of a 32-bit number, the three of a 24-bit one. */
  function BytesOf(v: nat, n: nat): (s: seq<byte>)
    ensures |s| == n
    decreases n
  {
    if n == 0 then [] else BytesOf(v / 256, n - 1) + [v % 256]
  }

  lemma {:induction false} BytesOfBack(v: nat, n: nat)
    requires v < Pow2(8 * n)
    ensures BigEndian(BytesOf(v, n)) == v
    decreases n
  {
    if n > 0 {
      assert Pow2(8) == 256;
      Pow2Add(8 * n - 8, 8);
      BytesOfBack(v / 256, n - 1);
      assert BytesOf(v, n)[..n - 1] == BytesOf(v / 256, n - 1);
    }
  }

  // ---- the selectors ----

  datatype Selectors = Selectors(nGroups: nat, list: seq<byte>)

  ghost predicate SelectorsOk(x: Selectors) {
    && 2 <= x.nGroups <= N_GROUPS && 1 <= |x.list| <= MAX_SELECTORS
    && forall i :: 0 <= i < |x.list| ==> x.list[i] < x.nGroups
  }

  ghost predicate Among(sel: seq<byte>, pos: seq<byte>) {
    forall i :: 0 <= i < |sel| ==> sel[i] in pos
  }

  lemma {:induction false} AllAmong(sel: seq<byte>, nGroups: nat)
    requires nGroups <= N_GROUPS && forall i :: 0 <= i < |sel| ==> sel[i] < nGroups
    ensures Among(sel, Iota(nGroups))
  {
    forall i | 0 <= i < |sel|
      ensures sel[i] in Iota(nGroups)
    {
      assert Iota(nGroups)[sel[i]] == sel[i];
    }
  }

  ghost function SelectorsBits(x: Selectors): seq<bit>
    requires SelectorsOk(x)
  {
    AllAmong(x.list, x.nGroups);
    BitsOf(x.nGroups, 3) + (BitsOf(|x.list|, SELECTOR_BITS) + UnariesBits(Ranked(Iota(x.nGroups), x.list)))
  }

  lemma {:induction false} UnariesBelow(bits: seq<bit>, nGroups: nat, n: nat)
    requires nGroups > 0
    ensures var p := ParseUnaries(bits, nGroups, n); p.Done? ==> |p.value| == n && forall i :: 0 <= i < n ==> p.value[i] < nGroups
    decreases n
  {
    if n > 0 {
      UnaryBelow(bits, nGroups, 0);
      var p := ParseUnary(bits, nGroups, 0);
      if p.Done? {
        UnariesBelow(p.rest, nGroups, n - 1);
      }
    }
  }

  lemma {:induction false} UnaryBelow(bits: seq<bit>, nGroups: nat, j: nat)
    requires j < nGroups
    ensures var p := ParseUnary(bits, nGroups, j); p.Done? ==> p.value < nGroups
    decreases |bits|
  {
    if bits != [] && bits[0] == 1 && j + 1 < nGroups {
      UnaryBelow(bits[1..], nGroups, j + 1);
    }
  }

  /** n unary numbers, as many as the array has room for; storing one more is the fault. */
  ghost function ParseStored(bits: seq<bit>, nGroups: nat, n: nat): Parsed<seq<nat>> {
    if n <= MAX_SELECTORS then ParseUnaries(bits, nGroups, n)
    else match ParseUnaries(bits, nGroups, MAX_SELECTORS + 1)
      case Done(_, _) => Bad(TooMany)
      case More => More
      case Bad(why) => Bad(why)
  }

  ghost function ParseRanks(bits: seq<bit>, nGroups: nat, n: nat): Parsed<Selectors>
    requires 0 < nGroups <= N_GROUPS
  {
    UnariesBelow(bits, nGroups, n);
    match ParseStored(bits, nGroups, n)
    case Done(js, rest) => Done(Selectors(nGroups, Unranked(Iota(nGroups), js)), rest)
    case More => More
    case Bad(why) => Bad(why)
  }

  ghost function ParseSelectors(bits: seq<bit>): Parsed<Selectors> {
    match ParseBits(bits, 3)
    case Done(nGroups, b1) =>
      if nGroups < 2 || nGroups > N_GROUPS then Bad(Malformed)
      else (match ParseBits(b1, SELECTOR_BITS)
            case Done(n, b2) => if n < 1 then Bad(Malformed) else ParseRanks(b2, nGroups, n)
            case More => More
            case Bad(why) => Bad(why))
    case More => More
    case Bad(why) => Bad(why)
  }

  lemma {:induction false} SelectorsBack(x: Selectors, rest: seq<bit>)
    requires SelectorsOk(x)
    ensures ParseSelectors(SelectorsBits(x) + rest) == Done(x, rest)
  {
    AllAmong(x.list, x.nGroups);
    var js := Ranked(Iota(x.nGroups), x.list);
    RankedBack(Iota(x.nGroups), x.list);
    UnariesBack(js, x.nGroups, rest);
    var b2 := UnariesBits(js) + rest;
    var b1 := BitsOf(|x.list|, SELECTOR_BITS) + b2;
    Limits();
    BitsBack(|x.list|, SELECTOR_BITS, b2);
    assert Pow2(3) == 8;
    BitsBack(x.nGroups, 3, b1);
    Assoc(BitsOf(|x.list|, SELECTOR_BITS), UnariesBits(js), rest);
    Assoc(BitsOf(x.nGroups, 3), BitsOf(|x.list|, SELECTOR_BITS) + UnariesBits(js), rest);
  }

  // ---- the header of a block, up to the symbols ----

  /** One symbol for each byte in use but one, two for runs, one for the end. */
  ghost function AlphaSize(u: seq<bool>): nat {
    Used(u, |u|) + 2
  }

  datatype Head = Head(crc: nat, randomised: bool, origPtr: nat, inUse: seq<bool>, selectors: Selectors, tables: seq<seq<int>>)

  ghost predicate HeadOk(h: Head, nblockMAX: nat) {
    && h.crc < CRC_LIMIT && h.origPtr < PTR_LIMIT && h.origPtr <= 10 + nblockMAX
    && |h.inUse| == 256 && AlphaSize(h.inUse) > 2
    && SelectorsOk(h.selectors) && |h.tables| == h.selectors.nGroups
    && AllLengths(h.tables, AlphaSize(h.inUse))
  }

  ghost function StartBits(crc: nat, randomised: bool, origPtr: nat): seq<bit> {
    ByteBits(BytesOf(crc, CRC_LEN)) + ([if randomised then 1 else 0] + ByteBits(BytesOf(origPtr, PTR_LEN)))
  }

  datatype Start = Start(crc: nat, randomised: bool, origPtr: nat)

  ghost function ParseStart(bits: seq<bit>, nblockMAX: nat): Parsed<Start> {
    match ParseBytes(bits, CRC_LEN)
    case Done(c, b1) =>
      (match ParseBits(b1, 1)
       case Done(r, b2) =>
         (match ParseBytes(b2, PTR_LEN)
          case Done(o, b3) =>
            if BigEndian(o) > 10 + nblockMAX then Bad(Malformed) else Done(Start(BigEndian(c), r == 1, BigEndian(o)), b3)
          case More => More
          case Bad(why) => Bad(why))
       case More => More
       case Bad(why) => Bad(why))
    case More => More
    case Bad(why) => Bad(why)
  }

  lemma {:induction false} FlagBack(b: bool, rest: seq<bit>)
    ensures ParseBits([if b then 1 else 0] + rest, 1) == Done(if b then 1 else 0, rest)
  {
    var v: bit := if b then 1 else 0;
    assert BitsOf(v, 1) == [v];
    assert Pow2(1) == 2;
    BitsBack(v, 1, rest);
  }

  lemma {:induction false} StartBack(crc: nat, randomised: bool, origPtr: nat, nblockMAX: nat, rest: seq<bit>)
    requires crc < CRC_LIMIT && origPtr < PTR_LIMIT && origPtr <= 10 + nblockMAX
    ensures ParseStart(StartBits(crc, randomised, origPtr) + rest, nblockMAX) == Done(Start(crc, randomised, origPtr), rest)
  {
    var c, o := BytesOf(crc, CRC_LEN), BytesOf(origPtr, PTR_LEN);
    Limits();
    BytesOfBack(crc, CRC_LEN);
    BytesOfBack(origPtr, PTR_LEN);
    var f: seq<bit> := [if randomised then 1 else 0];
    var b2 := ByteBits(o) + rest;
    BytesBack(o, rest);
    FlagBack(randomised, b2);
    BytesBack(c, f + b2);
    Assoc(f, ByteBits(o), rest);
    Assoc(ByteBits(c), f + ByteBits(o), rest);
  }

  ghost function TailBits(x: Selectors, tables: seq<seq<int>>, alphaSize: nat): seq<bit>
    requires SelectorsOk(x) && AllLengths(tables, alphaSize)
  {
    SelectorsBits(x) + TablesBits(tables, alphaSize)
  }

  datatype Tail = Tail(selectors: Selectors, tables: seq<seq<int>>)

  ghost function ParseTail(bits: seq<bit>, alphaSize: nat): Parsed<Tail> {
    match ParseSelectors(bits)
    case Done(x, b1) =>
      (match ParseTables(b1, x.nGroups, alphaSize)
       case Done(ts, b2) => Done(Tail(x, ts), b2)
       case More => More
       case Bad(why) => Bad(why))
    case More => More
    case Bad(why) => Bad(why)
  }

  lemma {:induction false} TailBack(x: Selectors, tables: seq<seq<int>>, alphaSize: nat, rest: seq<bit>)
    requires SelectorsOk(x) && AllLengths(tables, alphaSize) && |tables| == x.nGroups
    ensures ParseTail(TailBits(x, tables, alphaSize) + rest, alphaSize) == Done(Tail(x, tables), rest)
  {
    TablesBack(tables, alphaSize, rest);
    SelectorsBack(x, TablesBits(tables, alphaSize) + rest);
    Assoc(SelectorsBits(x), TablesBits(tables, alphaSize), rest);
  }

  /** Everything between the magic number and the symbols. */
  ghost function HeadBits(h: Head): seq<bit>
    requires |h.inUse| == 256 && SelectorsOk(h.selectors) && AllLengths(h.tables, AlphaSize(h.inUse))
  {
    StartBits(h.crc, h.randomised, h.origPtr)
    + (MapBits(h.inUse) + TailBits(h.selectors, h.tables, AlphaSize(h.inUse)))
  }

  ghost function ParseHead(bits: seq<bit>, nblockMAX: nat): Parsed<Head> {
    match ParseStart(bits, nblockMAX)
    case Done(s, b1) =>
      (match ParseMap(b1)
       case Done(u, b2) =>
         if |u| != 256 || AlphaSize(u) == 2 then Bad(Malformed)
         else (match ParseTail(b2, AlphaSize(u))
               case Done(t, b3) => Done(Head(s.crc, s.randomised, s.origPtr, u, t.selectors, t.tables), b3)
               case More => More
               case Bad(why) => Bad(why))
       case More => More
       case Bad(why) => Bad(why))
    case More => More
    case Bad(why) => Bad(why)
  }

  lemma {:induction false} ParseHeadJoin(bits: seq<bit>, nblockMAX: nat, s: Start, b1: seq<bit>, u: seq<bool>, b2: seq<bit>, t: Tail, rest: seq<bit>)
    requires ParseStart(bits, nblockMAX) == Done(s, b1) && ParseMap(b1) == Done(u, b2)
    requires |u| == 256 && AlphaSize(u) > 2 && ParseTail(b2, AlphaSize(u)) == Done(t, rest)
    ensures ParseHead(bits, nblockMAX) == Done(Head(s.crc, s.randomised, s.origPtr, u, t.selectors, t.tables), rest)
  {
  }

  lemma {:induction false} HeadBitsAssoc(start: seq<bit>, map_: seq<bit>, tail: seq<bit>, rest: seq<bit>)
    ensures start + (map_ + tail) + rest == start + (map_ + (tail + rest))
  {
  }

  /** The header reads back as it was written. */
  lemma {:induction false} HeadBack(h: Head, nblockMAX: nat, rest: seq<bit>)
    requires HeadOk(h, nblockMAX)
    ensures ParseHead(HeadBits(h) + rest, nblockMAX) == Done(h, rest)
  {
    var alphaSize := AlphaSize(h.inUse);
    var tail := TailBits(h.selectors, h.tables, alphaSize);
    var b2 := tail + rest;
    TailBack(h.selectors, h.tables, alphaSize, rest);
    var b1 := MapBits(h.inUse) + b2;
    MapBack(h.inUse, b2);
    var b0 := StartBits(h.crc, h.randomised, h.origPtr) + b1;
    StartBack(h.crc, h.randomised, h.origPtr, nblockMAX, b1);
    HeadBitsAssoc(StartBits(h.crc, h.randomised, h.origPtr), MapBits(h.inUse), tail, rest);
    ParseHeadJoin(b0, nblockMAX, Start(h.crc, h.randomised, h.origPtr), b1, h.inUse, b2, Tail(h.selectors, h.tables), rest);
  }

  // ---- what any header that parses satisfies ----

  lemma {:induction false} DeltaRange(bits: seq<bit>, curr: int)
    ensures var p := ParseDelta(bits, curr); p.Done? ==> 1 <= p.value <= MAX_LEN
    decreases |bits|
  {
    if 1 <= curr <= MAX_LEN && |bits| >= 2 && bits[0] == 1 {
      DeltaRange(bits[2..], if bits[1] == 0 then curr + 1 else curr - 1);
    }
  }

  lemma {:induction false} LengthsRange(bits: seq<bit>, curr: int, n: nat)
    ensures var p := ParseLengths(bits, curr, n);
      p.Done? ==> |p.value| == n && forall i :: 0 <= i < n ==> 1 <= p.value[i] <= MAX_LEN
    decreases n
  {
    if n > 0 {
      DeltaRange(bits, curr);
      var p := ParseDelta(bits, curr);
      if p.Done? {
        LengthsRange(p.rest, p.value, n - 1);
      }
    }
  }

  lemma {:induction false} TablesRange(bits: seq<bit>, nGroups: nat, alphaSize: nat)
    requires alphaSize > 0
    ensures var p := ParseTables(bits, nGroups, alphaSize); p.Done? ==> |p.value| == nGroups && AllLengths(p.value, alphaSize)
    decreases nGroups
  {
    if nGroups > 0 {
      var b := ParseBits(bits, 5);
      if b.Done? {
        LengthsRange(b.rest, b.value, alphaSize);
        var p := ParseTable(bits, alphaSize);
        if p.Done? {
          TablesRange(p.rest, nGroups - 1, alphaSize);
        }
      }
    }
  }

  lemma {:induction false} UnrankedBelow(pos: seq<byte>, js: seq<nat>, n: nat)
    requires (forall i :: 0 <= i < |js| ==> js[i] < |pos|) && forall i :: 0 <= i < |pos| ==> pos[i] < n
    ensures forall i :: 0 <= i < |js| ==> Unranked(pos, js)[i] < n
    decreases |js|
  {
    if js != [] {
      UnrankedBelow(MoveToFront(pos, js[0]), js[1..], n);
    }
  }

  lemma {:induction false} SelectorsRange(bits: seq<bit>)
    ensures var p := ParseSelectors(bits);
      p.Done? ==> 2 <= p.value.nGroups <= N_GROUPS && |p.value.list| <= MAX_SELECTORS && forall i :: 0 <= i < |p.value.list| ==> p.value.list[i] < p.value.nGroups
  {
    var p := ParseSelectors(bits);
    if p.Done? {
      var a := ParseBits(bits, 3);
      var b := ParseBits(a.rest, SELECTOR_BITS);
      UnariesBelow(b.rest, a.value, b.value);
      var js := ParseUnaries(b.rest, a.value, b.value).value;
      UnrankedBelow(Iota(a.value), js, a.value);
    }
  }

  /** What later stages rely on, whatever the input was. */
  ghost predicate Usable(h: Head) {
    && |h.inUse| == 256 && AlphaSize(h.inUse) > 2 && AlphaSize(h.inUse) <= MAX_ALPHA_SIZE
    && |h.tables| == h.selectors.nGroups && AllLengths(h.tables, AlphaSize(h.inUse))
    && forall i :: 0 <= i < |h.selectors.list| ==> h.selectors.list[i] < h.selectors.nGroups
  }

  lemma {:induction false} ParsedHeadUsable(bits: seq<bit>, nblockMAX: nat)
    ensures var p := ParseHead(bits, nblockMAX); p.Done? ==> Usable(p.value)
  {
    var p := ParseHead(bits, nblockMAX);
    if p.Done? {
      var b2 := ParseMap(ParseStart(bits, nblockMAX).rest).rest;
      var x := ParseSelectors(b2);
      SelectorsRange(b2);
      TablesRange(x.rest, x.value.nGroups, AlphaSize(p.value.inUse));
    }
  }
}
