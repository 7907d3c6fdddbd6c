/** How long compressed data can get: at most so many bytes for each byte of input. */
module CompressedSize {
  import opened Arith
  import opened Bits
  import opened BitStream
  import opened BlockCodec
  import opened BlockFormat
  import opened BlockSender
  import opened BlockSyntax
  import opened Bytes
  import opened Canonical
  import opened Lookups
  import opened MtfRuns
  import opened MtfWindow
  import opened RunLength
  import opened StreamFormat
  import opened SymbolMaps

  lemma {:induction false} UnaryLength(j: nat)
    ensures |UnaryBits(j)| == j + 1
  {
    if j > 0 {
      UnaryLength(j - 1);
    }
  }

  lemma {:induction false} UnariesLength(js: seq<nat>, nGroups: nat)
    requires forall i :: 0 <= i < |js| ==> js[i] < nGroups
    ensures |UnariesBits(js)| <= nGroups * |js|
  {
    if js != [] {
      UnaryLength(js[0]);
      UnariesLength(js[1..], nGroups);
      TimesNext(nGroups, |js[1..]|);
    }
  }

  lemma {:induction false} DeltaLength(curr: int, l: int)
    ensures |DeltaBits(curr, l)| == 1 + 2 * (if curr < l then l - curr else curr - l)
    decreases if curr < l then l - curr else curr - l
  {
    if curr < l {
      DeltaLength(curr + 1, l);
    } else if curr > l {
      DeltaLength(curr - 1, l);
    }
  }

  lemma {:induction false} LengthsLength(curr: int, len: seq<int>)
    requires 1 <= curr <= MAX_LEN && forall i :: 0 <= i < |len| ==> 1 <= len[i] <= MAX_LEN
    ensures |LengthsBits(curr, len)| <= 39 * |len|
    decreases |len|
  {
    if len != [] {
      DeltaLength(curr, len[0]);
      LengthsLength(len[0], len[1..]);
    }
  }

  /** The most that the lengths of one code take. */
  const TABLE_BITS: nat := 5 + 39 * MAX_ALPHA_SIZE

  lemma {:induction false} TableLength(len: seq<int>)
    requires Lengths(len) && |len| <= MAX_ALPHA_SIZE
    ensures |TableBits(len)| <= TABLE_BITS
  {
    LengthsLength(len[0], len);
  }

  lemma {:induction false} TimesNext(c: int, n: int)
    ensures c * (n + 1) == c * n + c
  {
  }

  lemma {:induction false} TablesLength(ts: seq<seq<int>>, alphaSize: nat)
    requires AllLengths(ts, alphaSize) && alphaSize <= MAX_ALPHA_SIZE
    ensures |TablesBits(ts, alphaSize)| <= TABLE_BITS * |ts|
  {
    if ts != [] {
      TableLength(ts[0]);
      TablesLength(ts[1..], alphaSize);
      TimesNext(TABLE_BITS, |ts[1..]|);
    }
  }

  lemma {:induction false} GroupsLength(u: seq<bool>)
    requires |u| % GROUP == 0
    ensures |GroupBits(u)| <= |u|
  {
    if u != [] {
      GroupsLength(u[GROUP..]);
    }
  }

  lemma {:induction false} SymbolsLength(ts: seq<seq<int>>, sel: seq<byte>, syms: seq<int>, i: nat)
    requires Choices(ts, sel, syms) && AllKraft(ts) && i <= |syms|
    ensures |SymbolsBits(ts, sel, syms, i)| <= MAX_LEN * (|syms| - i)
    decreases |syms| - i
  {
    if i < |syms| {
      var t := sel[i / G_SIZE];
      assert Coded(ts[t], syms[i]) && Lengths(ts[t]);
      SymbolsLength(ts, sel, syms, i + 1);
      assert |SymbolBits(ts[t], syms[i])| == ts[t][syms[i]];
    }
  }

  /** There are fifty symbols to a selector at most. */
  lemma {:induction false} FewSymbols(ts: seq<seq<int>>, sel: seq<byte>, syms: seq<int>)
    requires Choices(ts, sel, syms)
    ensures |syms| <= G_SIZE * |sel|
  {
    if syms != [] {
      assert (|syms| - 1) / G_SIZE < |sel|;
    }
  }

  const HEAD_BITS: nat := 57 + 272 + 18 + N_GROUPS * MAX_SELECTORS + TABLE_BITS * N_GROUPS

  lemma {:induction false} HeadLength(h: Head, nblockMAX: nat)
    requires HeadOk(h, nblockMAX)
    ensures |HeadBits(h)| <= HEAD_BITS
  {
    GroupsLength(h.inUse);
    TablesLength(h.tables, AlphaSize(h.inUse));
    MulMono(|h.tables|, N_GROUPS, TABLE_BITS);
    SelectorsLength(h.selectors);
  }

  lemma {:induction false} SelectorsLength(x: Selectors)
    requires SelectorsOk(x)
    ensures |SelectorsBits(x)| <= 18 + N_GROUPS * MAX_SELECTORS
  {
    AllAmong(x.list, x.nGroups);
    var js := Ranked(Iota(x.nGroups), x.list);
    UnariesLength(js, x.nGroups);
    MulMono(x.nGroups, N_GROUPS, |js|);
  }

  /** The most bits that one block takes, magic number included. */
  const BLOCK_BITS: nat := 48 + HEAD_BITS + MAX_LEN * G_SIZE * MAX_SELECTORS

  lemma {:induction false} PlanLength(p: Plan, k: Lookup, nMax: nat)
    requires PlanOk(p, k, nMax)
    ensures SmallPlan(p)
  {
    var h := p.c.head;
    HeadLength(h, nMax);
    FewSymbols(h.tables, h.selectors.list, p.c.syms);
    SymbolsLength(h.tables, h.selectors.list, p.c.syms, 0);
  }

  ghost predicate SmallPlan(p: Plan) {
    |p.bits| <= BLOCK_BITS && |Raw(p.pairs)| > 0
  }

  ghost predicate AllSmall(ps: seq<Plan>) {
    forall i :: 0 <= i < |ps| ==> SmallPlan(ps[i])
  }

  lemma {:induction false} PlansSmall(ps: seq<Plan>, k: Lookup, nMax: nat)
    requires PlansOk(ps, k, nMax)
    ensures AllSmall(ps)
  {
    forall i | 0 <= i < |ps|
      ensures SmallPlan(ps[i])
    {
      assert PlanOk(ps[i], k, nMax);
      PlanLength(ps[i], k, nMax);
    }
  }

  lemma {:induction false} BlocksLength(ps: seq<Plan>)
    requires AllSmall(ps)
    ensures |AllBits(ps)| <= BLOCK_BITS * |AllRaw(ps)|
  {
    if ps != [] {
      var n := |ps| - 1;
      BlocksLength(ps[..n]);
      assert SmallPlan(ps[n]);
      OneMoreBlock(|AllBits(ps[..n])|, |AllRaw(ps[..n])|, |ps[n].bits|, |Raw(ps[n].pairs)|);
    }
  }

  lemma {:induction false} OneMoreBlock(bits: nat, raw: nat, b: nat, r: nat)
    requires bits <= BLOCK_BITS * raw && b <= BLOCK_BITS && r > 0
    ensures bits + b <= BLOCK_BITS * (raw + r)
  {
    MulMono(raw + 1, raw + r, BLOCK_BITS);
  }

  /** The most bytes that n bytes of data are compressed to. */
  function Longest(n: nat): nat {
    15 + (BLOCK_BITS / 8 + 1) * n
  }

  /** Compressed data is no longer than that, however the data was cut into blocks. */
  lemma {:induction false} StreamLength(z: seq<byte>, ps: seq<Plan>, k: Lookup, level: nat, pad: nat)
    requires 1 <= level <= 9 && PlansOk(ps, k, 100000 * level) && pad < 8
    requires ByteBits(z) == StreamBits(ps, k, level) + Zeros(pad)
    ensures |z| <= Longest(|AllRaw(ps)|)
  {
    PlansSmall(ps, k, 100000 * level);
    BlocksLength(ps);
    FrameLength(ps, k, level);
    WholeBytes(|z|, |AllRaw(ps)|);
  }

  lemma {:induction false} FrameLength(ps: seq<Plan>, k: Lookup, level: nat)
    requires level <= 9
    ensures |StreamBits(ps, k, level)| == 112 + |AllBits(ps)|
  {
  }

  lemma {:induction false} WholeBytes(z: nat, n: nat)
    requires 8 * z < 120 + BLOCK_BITS * n
    ensures z <= Longest(n)
  {
    MulMono(BLOCK_BITS, 8 * (BLOCK_BITS / 8 + 1), n);
    assert (8 * (BLOCK_BITS / 8 + 1)) * n == 8 * ((BLOCK_BITS / 8 + 1) * n);
  }

  /** Data of less than 2^37 bytes is compressed to less than 2^63. */
  lemma {:induction false} FarBelow(n: nat)
    requires n < 0x20_0000_0000
    ensures Longest(n) < 0x8000_0000_0000_0000
  {
    assert BLOCK_BITS / 8 + 1 == 2271352;
    MulMono(n, 0x20_0000_0000, 2271352);
  }

  /** What the compressor made of data holds it and is not longer than that. */
  lemma {:induction false} MadeWell(z: seq<byte>, data: seq<byte>, k: Lookup, level: nat, ps: seq<Plan>, pad: nat)
    requires MadeOf(z, data, k, level, ps, pad) && pad < 8
    ensures Compresses(z, data, k, level) && |z| <= Longest(|data|)
  {
    StreamLength(z, ps, k, level, pad);
    assert Made(z, data, k, level, ps, pad);
  }
}
