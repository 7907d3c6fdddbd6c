/** A whole compressed stream: its header, its blocks and its trailer. */
module StreamFormat {
  import opened Arith
  import opened Bits
  import opened BitStream
  import opened BlockCodec
  import opened BlockFormat
  import opened BlockSyntax
  import opened Bytes
  import opened Canonical
  import opened Closing
  import opened Folds
  import opened Lookups
  import opened RunLength

  const END_MAGIC: seq<byte> := [0x17, 0x72, 0x45, 0x38, 0x50, 0x90]

  /** One block of a stream: the runs it stands for, how it was coded, and its bits. */
  datatype Plan = Plan(c: Coding, pairs: seq<Pair>, bits: seq<bit>)

  ghost function BlockCrc(k: Lookup, ps: seq<Pair>): nat {
    k.final(Fold(k.step, k.init, Raw(ps)))
  }

  ghost predicate PlanOk(p: Plan, k: Lookup, nMax: nat) {
    && Separated(p.pairs) && IsCoding(p.c, Packed(p.pairs), nMax) && p.c.head.crc == BlockCrc(k, p.pairs)
    && p.bits == ByteBits(BLOCK_MAGIC) + CodingBits(p.c, nMax)
  }

  ghost predicate PlansOk(ps: seq<Plan>, k: Lookup, nMax: nat) {
    forall i {:trigger PlanOk(ps[i], k, nMax)} :: 0 <= i < |ps| ==> PlanOk(ps[i], k, nMax)
  }

  ghost function AllBits(ps: seq<Plan>): seq<bit> {
    if ps == [] then [] else AllBits(ps[..|ps| - 1]) + ps[|ps| - 1].bits
  }

  /** The data that a list of blocks stands for. */
  ghost function AllRaw(ps: seq<Plan>): seq<byte> {
    if ps == [] then [] else AllRaw(ps[..|ps| - 1]) + Raw(ps[|ps| - 1].pairs)
  }

  /** The checksum of a list of blocks. */
  ghost function AllCrc(k: Lookup, ps: seq<Plan>): nat {
    if ps == [] then 0 else k.join(AllCrc(k, ps[..|ps| - 1]), BlockCrc(k, ps[|ps| - 1].pairs))
  }

  lemma {:induction false} PlanAdded(ps: seq<Plan>, p: Plan, k: Lookup, nMax: nat)
    requires PlansOk(ps, k, nMax) && PlanOk(p, k, nMax)
    ensures PlansOk(ps + [p], k, nMax)
    ensures AllBits(ps + [p]) == AllBits(ps) + p.bits
    ensures AllRaw(ps + [p]) == AllRaw(ps) + Raw(p.pairs)
    ensures AllCrc(k, ps + [p]) == k.join(AllCrc(k, ps), BlockCrc(k, p.pairs))
  {
    var qs := ps + [p];
    forall i | 0 <= i < |qs|
      ensures PlanOk(qs[i], k, nMax)
    {
      assert i < |ps| ==> PlanOk(ps[i], k, nMax);
    }
    assert qs[..|qs| - 1] == ps;
  }

  /** Lookups fit the four bytes they are stored in. */
  ghost predicate Fits(k: Lookup) {
    (forall c :: k.final(c) < CRC_LIMIT) && (forall a, b :: k.join(a, b) < CRC_LIMIT)
  }

  lemma {:induction false} AllCrcFits(k: Lookup, ps: seq<Plan>)
    requires Fits(k)
    ensures AllCrc(k, ps) < CRC_LIMIT
  {
  }

  function HeaderOf(level: nat): seq<byte>
    requires level <= 9
  {
    [0x42, 0x5a, 0x68, 0x30 + level]
  }

  ghost function TrailerBits(crc: nat): seq<bit> {
    ByteBits(END_MAGIC) + ByteBits(BytesOf(crc, CRC_LEN))
  }

  ghost function StreamBits(ps: seq<Plan>, k: Lookup, level: nat): seq<bit>
    requires level <= 9
  {
    ByteBits(HeaderOf(level)) + (AllBits(ps) + TrailerBits(AllCrc(k, ps)))
  }

  // ---- the blocks from number i on ----

  ghost function BitsFrom(ps: seq<Plan>, i: nat): seq<bit>
    requires i <= |ps|
    decreases |ps| - i
  {
    if i == |ps| then [] else ps[i].bits + BitsFrom(ps, i + 1)
  }

  lemma {:induction false} BitsSplitAt(ps: seq<Plan>, i: nat)
    requires i <= |ps|
    ensures AllBits(ps) == AllBits(ps[..i]) + BitsFrom(ps, i)
    decreases |ps| - i
  {
    if i == |ps| {
      assert ps[..i] == ps;
      assert AllBits(ps) + [] == AllBits(ps);
    } else {
      BitsSplitAt(ps, i + 1);
      assert ps[..i + 1][..i] == ps[..i];
      Assoc(AllBits(ps[..i]), ps[i].bits, BitsFrom(ps, i + 1));
    }
  }

  lemma {:induction false} BitsFromStart(ps: seq<Plan>)
    ensures BitsFrom(ps, 0) == AllBits(ps)
  {
    BitsSplitAt(ps, 0);
    assert [] + BitsFrom(ps, 0) == BitsFrom(ps, 0);
  }

  // ---- a byte string that holds compressed data ----

  ghost predicate MadeOf(z: seq<byte>, data: seq<byte>, k: Lookup, level: nat, plans: seq<Plan>, pad: nat) {
    && 1 <= level <= 9 && PlansOk(plans, k, 100000 * level) && AllRaw(plans) == data
    && ByteBits(z) == StreamBits(plans, k, level) + Zeros(pad)
  }

  ghost predicate Made(z: seq<byte>, data: seq<byte>, k: Lookup, level: nat, plans: seq<Plan>, pad: nat) {
    forall u {:trigger Look(u)} :: Look(u) ==> MadeOf(z, data, k, level, plans, pad)
  }

  /** Some encoder can make z of the data. */
  ghost predicate Compresses(z: seq<byte>, data: seq<byte>, k: Lookup, level: nat) {
    exists plans, pad {:trigger Made(z, data, k, level, plans, pad)} :: Made(z, data, k, level, plans, pad)
  }
}
