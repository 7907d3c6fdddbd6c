/** What the bits of a compressed stream mean, whatever they are: the data, or that they are no stream. */
module StreamMeaning {
  import opened Arith
  import opened Bits
  import opened BitStream
  import opened BlockCodec
  import opened BlockFormat
  import opened BlockMeaning
  import opened BlockReceiver
  import opened BlockSyntax
  import opened Bytes
  import opened Canonical
  import opened Folds
  import opened Lookups
  import opened ParseShrinks
  import opened RunLength
  import opened StreamFormat

  const STREAM_MAGIC: seq<byte> := [0x42, 0x5a, 0x68]

  datatype Data = Data(bytes: seq<byte>, crc: nat)

  /** The runs of a block are whole, and their checksum is the stored one. */
  ghost predicate Sound(k: Lookup, c: Content) {
    && |c.code| >= 2
    && var x := Expand(c.code, |c.code| - 2); !x.corrupt && c.crc == k.final(Fold(k.step, k.init, x.bytes))
  }

  ghost function Checked(k: Lookup, c: Content, rest: seq<bit>): Parsed<Data> {
    if Sound(k, c) then Done(Data(Expand(c.code, |c.code| - 2).bytes, c.crc), rest) else Bad(Malformed)
  }

  /** A block after the first byte of its magic number. */
  ghost function ParseData(bits: seq<bit>, k: Lookup, nMax: nat): Parsed<Data> {
    match ParseMagic(bits, BLOCK_MAGIC[1..])
    case Done(_, b) =>
      (match ParseBlock(b, nMax, k.random)
       case Done(c, rest) => Checked(k, c, rest)
       case More => More
       case Bad(why) => Bad(why))
    case More => More
    case Bad(why) => Bad(why)
  }

  lemma {:induction false} DataShrinks(bits: seq<bit>, k: Lookup, nMax: nat)
    ensures Shrinks(ParseData(bits, k, nMax), bits)
  {
    MagicShrinks(bits, BLOCK_MAGIC[1..]);
    var p := ParseMagic(bits, BLOCK_MAGIC[1..]);
    if p.Done? {
      BlockShrinks(p.rest, nMax, k.random);
    }
  }

  /** The trailer after its first byte: the stored checksum must be that of the blocks. */
  ghost function ParseTrailer(bits: seq<bit>, combined: nat): Parsed<()> {
    match ParseMagic(bits, END_MAGIC[1..])
    case Done(_, b) =>
      (match ParseBytes(b, CRC_LEN)
       case Done(s, rest) => if BigEndian(s) == combined then Done((), rest) else Bad(Malformed)
       case More => More
       case Bad(why) => Bad(why))
    case More => More
    case Bad(why) => Bad(why)
  }

  /** Blocks up to the trailer, when those before have the given checksum. */
  ghost function ParseBlocks(bits: seq<bit>, k: Lookup, nMax: nat, combined: nat): Parsed<seq<byte>>
    decreases |bits|
  {
    match ParseBits(bits, OCTET)
    case Done(x, b) =>
      if x == 0x17 then
        (match ParseTrailer(b, combined)
         case Done(_, rest) => Done([], rest)
         case More => More
         case Bad(why) => Bad(why))
      else if x != 0x31 then Bad(Malformed)
      else
        DataShrinks(b, k, nMax);
        (match ParseData(b, k, nMax)
         case Done(d, b') => After(d.bytes, ParseBlocks(b', k, nMax, k.join(combined, d.crc)))
         case More => More
         case Bad(why) => Bad(why))
    case More => More
    case Bad(why) => Bad(why)
  }

  /** The header of a stream gives the block size, in units of 100000 bytes. */
  ghost function ParseHeader(bits: seq<bit>): Parsed<nat> {
    match ParseMagic(bits, STREAM_MAGIC)
    case Done(_, b) =>
      (match ParseBits(b, OCTET)
       case Done(x, rest) => if 0x31 <= x <= 0x39 then Done(x - 0x30, rest) else Bad(Malformed)
       case More => More
       case Bad(why) => Bad(why))
    case More => More
    case Bad(why) => Bad(why)
  }

  /** The whole stream; what follows it does not matter. */
  ghost function ParseStream(bits: seq<bit>, k: Lookup): Parsed<seq<byte>> {
    match ParseHeader(bits)
    case Done(level, rest) => ParseBlocks(rest, k, 100000 * level, 0)
    case More => More
    case Bad(why) => Bad(why)
  }

  lemma {:induction false} AfterTwice<T>(a: seq<T>, b: seq<T>, p: Parsed<seq<T>>)
    ensures After(a, After(b, p)) == After(a + b, p)
  {
    if p.Done? {
      Assoc(a, b, p.value);
    }
  }

  // ---- what an encoder writes has the meaning it started from ----

  lemma {:induction false} FirstByte(magic: seq<byte>, rest: seq<bit>)
    requires magic != []
    ensures ParseBits(ByteBits(magic) + rest, OCTET) == Done(magic[0], ByteBits(magic[1..]) + rest)
  {
    assert Pow2(8) == 256;
    ByteBitsCons(magic);
    BitsBack(magic[0], OCTET, ByteBits(magic[1..]) + rest);
    Assoc(BitsOf(magic[0], OCTET), ByteBits(magic[1..]), rest);
  }

  lemma {:induction false} BlockExpands(code: seq<byte>, pairs: seq<Pair>)
    requires Separated(pairs) && Holds(code, Packed(pairs))
    ensures |code| >= 2 && Expand(code, |code| - 2) == Expanded(Raw(pairs), false)
  {
    var n := |Packed(pairs)|;
    ExpandPacked(pairs, code[n..]);
    assert code == code[..n] + code[n..];
  }

  lemma {:induction false} PlanParses(p: Plan, k: Lookup, nMax: nat, rest: seq<bit>)
    requires PlanOk(p, k, nMax) && nMax <= MAX_BLOCK
    ensures ParseData(ByteBits(BLOCK_MAGIC[1..]) + (CodingBits(p.c, nMax) + rest), k, nMax)
         == Done(Data(Raw(p.pairs), BlockCrc(k, p.pairs)), rest)
  {
    MagicBack(BLOCK_MAGIC[1..], CodingBits(p.c, nMax) + rest);
    var code := CodingParses(p.c, Packed(p.pairs), nMax, k.random, rest);
    BlockExpands(code, p.pairs);
  }

  lemma {:induction false} TrailerParses(crc: nat, rest: seq<bit>)
    requires crc < CRC_LIMIT
    ensures ParseTrailer(ByteBits(END_MAGIC[1..]) + (ByteBits(BytesOf(crc, CRC_LEN)) + rest), crc) == Done((), rest)
  {
    MagicBack(END_MAGIC[1..], ByteBits(BytesOf(crc, CRC_LEN)) + rest);
    BytesBack(BytesOf(crc, CRC_LEN), rest);
    Limits();
    BytesOfBack(crc, CRC_LEN);
  }

  /** What follows the blocks before number i. */
  ghost function BitsAt(plans: seq<Plan>, k: Lookup, i: nat, rest: seq<bit>): seq<bit>
    requires i <= |plans|
  {
    BitsFrom(plans, i) + (TrailerBits(AllCrc(k, plans)) + rest)
  }

  lemma {:induction false} BlockAt(plans: seq<Plan>, k: Lookup, nMax: nat, i: nat, rest: seq<bit>, combined: nat)
    requires i < |plans| && PlanOk(plans[i], k, nMax) && nMax <= MAX_BLOCK
    ensures ParseBlocks(BitsAt(plans, k, i, rest), k, nMax, combined)
         == After(Raw(plans[i].pairs), ParseBlocks(BitsAt(plans, k, i + 1, rest), k, nMax, k.join(combined, BlockCrc(k, plans[i].pairs))))
  {
    var p, more := plans[i], BitsAt(plans, k, i + 1, rest);
    Assoc(p.bits, BitsFrom(plans, i + 1), TrailerBits(AllCrc(k, plans)) + rest);
    Assoc(ByteBits(BLOCK_MAGIC), CodingBits(p.c, nMax), more);
    FirstByte(BLOCK_MAGIC, CodingBits(p.c, nMax) + more);
    PlanParses(p, k, nMax, more);
  }

  lemma {:induction false} TrailerAt(plans: seq<Plan>, k: Lookup, nMax: nat, rest: seq<bit>)
    requires Fits(k)
    ensures ParseBlocks(BitsAt(plans, k, |plans|, rest), k, nMax, AllCrc(k, plans)) == Done([], rest)
  {
    var crc := AllCrc(k, plans);
    AllCrcFits(k, plans);
    assert [] + (TrailerBits(crc) + rest) == TrailerBits(crc) + rest;
    Assoc(ByteBits(END_MAGIC), ByteBits(BytesOf(crc, CRC_LEN)), rest);
    FirstByte(END_MAGIC, ByteBits(BytesOf(crc, CRC_LEN)) + rest);
    TrailerParses(crc, rest);
  }

  lemma {:induction false} PlansNext(plans: seq<Plan>, k: Lookup, i: nat)
    requires i < |plans|
    ensures AllRaw(plans[..i + 1]) == AllRaw(plans[..i]) + Raw(plans[i].pairs)
    ensures AllCrc(k, plans[..i + 1]) == k.join(AllCrc(k, plans[..i]), BlockCrc(k, plans[i].pairs))
  {
    assert plans[..i + 1][..i] == plans[..i];
  }

  lemma {:induction false} PlansParse(plans: seq<Plan>, k: Lookup, nMax: nat, i: nat, rest: seq<bit>)
    requires i <= |plans| && PlansOk(plans, k, nMax) && Fits(k) && nMax <= MAX_BLOCK
    ensures After(AllRaw(plans[..i]), ParseBlocks(BitsAt(plans, k, i, rest), k, nMax, AllCrc(k, plans[..i]))) == Done(AllRaw(plans), rest)
    decreases |plans| - i
  {
    if i == |plans| {
      assert plans[..i] == plans;
      TrailerAt(plans, k, nMax, rest);
      AfterAll(AllRaw(plans), rest);
    } else {
      assert PlanOk(plans[i], k, nMax);
      var crc := AllCrc(k, plans[..i]);
      BlockAt(plans, k, nMax, i, rest, crc);
      PlansNext(plans, k, i);
      PlansParse(plans, k, nMax, i + 1, rest);
      AfterTwice(AllRaw(plans[..i]), Raw(plans[i].pairs),
                 ParseBlocks(BitsAt(plans, k, i + 1, rest), k, nMax, k.join(crc, BlockCrc(k, plans[i].pairs))));
    }
  }

  lemma {:induction false} HeaderBack(n: nat, rest: seq<bit>)
    requires 1 <= n <= 9
    ensures ParseHeader(ByteBits(HeaderOf(n)) + rest) == Done(n, rest)
  {
    ByteBitsSnoc(STREAM_MAGIC, 0x30 + n);
    assert HeaderOf(n) == STREAM_MAGIC + [0x30 + n];
    Assoc(ByteBits(STREAM_MAGIC), BitsOf(0x30 + n, OCTET), rest);
    MagicBack(STREAM_MAGIC, BitsOf(0x30 + n, OCTET) + rest);
    assert Pow2(8) == 256;
    BitsBack(0x30 + n, OCTET, rest);
  }

  lemma {:induction false} AllPlansParse(plans: seq<Plan>, k: Lookup, nMax: nat, rest: seq<bit>)
    requires PlansOk(plans, k, nMax) && Fits(k) && nMax <= MAX_BLOCK
    ensures ParseBlocks(AllBits(plans) + (TrailerBits(AllCrc(k, plans)) + rest), k, nMax, 0) == Done(AllRaw(plans), rest)
  {
    BitsFromStart(plans);
    PlansParse(plans, k, nMax, 0, rest);
    assert plans[..0] == [];
    AfterNothing(ParseBlocks(BitsAt(plans, k, 0, rest), k, nMax, 0));
  }

  /** Whatever an encoder made of data means that data. */
  lemma {:induction false} StreamParses(plans: seq<Plan>, k: Lookup, level: nat, rest: seq<bit>)
    requires 1 <= level <= 9 && Fits(k) && PlansOk(plans, k, 100000 * level)
    ensures ParseStream(StreamBits(plans, k, level) + rest, k) == Done(AllRaw(plans), rest)
  {
    StreamParts(ByteBits(HeaderOf(level)), AllBits(plans), TrailerBits(AllCrc(k, plans)), rest);
    HeaderBack(level, AllBits(plans) + (TrailerBits(AllCrc(k, plans)) + rest));
    AllPlansParse(plans, k, 100000 * level, rest);
  }

  lemma {:induction false} StreamParts(h: seq<bit>, b: seq<bit>, t: seq<bit>, rest: seq<bit>)
    ensures h + (b + t) + rest == h + (b + (t + rest))
  {
  }
}
