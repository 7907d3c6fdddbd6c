/** BZ2_bzCompress over its whole life: run, flush and finish. */
module Compressor {
  import opened Arith
  import opened Bits
  import opened BitStream
  import opened BlockCodec
  import opened BlockFormat
  import opened BlockSender
  import opened Bytes
  import opened Closing
  import opened Lookups
  import opened RunEncoder
  import opened RunLength
  import opened StreamFormat
  import opened SymbolMaps

  class Encoder {
    const k: Lookup
    const level: nat
    const run: RunState
    const w: BitWriter
    var combinedCRC: nat
    /** The stream header. */
    ghost const head: seq<bit>
    ghost var plans: seq<Plan>
    /** The input so far. */
    ghost var fed: seq<byte>

    const nblockMAX: int := 100000 * level - 19

    ghost predicate Valid()
      reads this, run, w
    {
      Open() && |run.block| < nblockMAX
    }

    /** As Valid, but the block may be full. */
    ghost predicate Open()
      reads this, run, w
    {
      && 1 <= level <= 9 && Fits(k) && run.k == k && run.Valid() && w.Valid()
      && (run.state_in_ch == NO_CHAR ==> run.pairs == [])
      && Output() && fed == AllRaw(plans) + run.Seen()
    }

    ghost predicate Output()
      reads this, w
    {
      && level <= 9 && PlansOk(plans, k, 100000 * level) && combinedCRC == AllCrc(k, plans)
      && w.Written() == head + AllBits(plans)
    }

    /** The blocks sent since then are full, except that ending may have sent a shorter one last. */
    ghost predicate SentSince(before: seq<Plan>, ending: bool)
      reads this
    {
      AllFull(before, plans, nblockMAX, ending)
    }

    constructor (checksum: Lookup, blockSize100k: nat)
      requires 1 <= blockSize100k <= 9 && Fits(checksum)
      ensures Valid() && fresh(run) && fresh(w) && fed == [] && plans == [] && k == checksum && level == blockSize100k
      ensures head == ByteBits(HeaderOf(level))
    {
      k, level, combinedCRC, plans, fed := checksum, blockSize100k, 0, [], [];
      head := ByteBits(HeaderOf(blockSize100k));
      var r := new RunState(checksum);
      var b := new BitWriter();
      run, w := r, b;
      new;
      PutBytes(w, HeaderOf(level));
      NothingYet(ByteBits(HeaderOf(level)));
      assert Packed([]) == [];
    }

    /** BZ2_compressBlock and prepare_new_block. */
    method CloseBlock()
      requires 1 <= level <= 9 && Fits(k) && run.k == k && run.Valid() && w.Valid() && Output()
      requires |run.block| <= 100000 * level
      modifies this, run, w
      ensures run.Valid() && w.Valid() && Output() && run.pairs == [] && run.Pending() == old(run.Pending())
      ensures AllRaw(plans) == old(AllRaw(plans)) + old(Raw(run.pairs)) && fed == old(fed)
      ensures AddedOne(old(plans), plans, |old(run.block)|)
    {
      if |run.block| > 0 {
        SendCurrent();
      } else {
        SomeBytes(run.pairs);
        assert AllRaw(plans) + [] == AllRaw(plans);
      }
      run.PrepareNewBlock();
    }

    method SendCurrent()
      requires 1 <= level <= 9 && Fits(k) && run.k == k && run.Valid() && w.Valid() && Output()
      requires 0 < |run.block| <= 100000 * level
      modifies this`combinedCRC, this`plans, w
      ensures w.Valid() && Output() && AllRaw(plans) == old(AllRaw(plans)) + Raw(run.pairs)
      ensures AddedOne(old(plans), plans, |run.block|)
    {
      var blockCRC := k.final(run.blockCRC);
      combinedCRC := k.join(combinedCRC, blockCRC);
      ghost var p := SendRuns(w, run, blockCRC, 100000 * level);
      PlanAdded(plans, p, k, 100000 * level);
      Assoc(head, AllBits(plans), p.bits);
      plans := plans + [p];
    }

    /** copy_input_until_stop: takes input until the block is full. */
    method CopyInput(data: seq<byte>, i0: nat) returns (i: nat)
      requires Open() && |run.block| <= nblockMAX + 4 && i0 <= |data|
      modifies this`fed, run
      ensures Open() && |run.block| <= nblockMAX + 4 && i0 <= i <= |data| && fed == old(fed) + data[i0..i]
      ensures |run.block| >= nblockMAX || i == |data|
      ensures i == i0 ==> |run.block| == old(|run.block|)
    {
      i := i0;
      NoneTaken(fed, data, i0);
      while |run.block| < nblockMAX && i < |data|
        invariant Open() && |run.block| <= nblockMAX + 4 && i0 <= i <= |data| && fed == old(fed) + data[i0..i]
        invariant i == i0 ==> |run.block| == old(|run.block|)
        decreases |data| - i
      {
        OneTaken(old(fed), data, i0, i);
        TakeByte(data[i]);
        i := i + 1;
      }
    }

    method TakeByte(b: byte)
      requires Open() && |run.block| < nblockMAX
      modifies this`fed, run
      ensures Open() && |run.block| <= nblockMAX + 4 && fed == old(fed) + [b]
    {
      Assoc(AllRaw(plans), run.Seen(), [b]);
      run.AddChar(b);
      fed := fed + [b];
    }

    /** handle_compress on one call's input; ending stands for flushing or finishing. */
    method Feed(data: seq<byte>, ending: bool)
      requires Valid()
      modifies this, run, w
      ensures Valid() && fed == old(fed) + data
      ensures (ending ==> run.Pending() == [] && run.pairs == []) && SentSince(old(plans), ending)
    {
      var i: nat, done := 0, false;
      NoneTaken(fed, data, 0);
      while !done
        invariant Valid() && i <= |data| && fed == old(fed) + data[0..i]
        invariant done ==> i == |data| && (ending ==> run.Pending() == [] && run.pairs == [])
        invariant SentSince(old(plans), done && ending)
        decreases !done, |data| - i
      {
        ghost var i0, before := i, plans;
        i, done := Turn(data, i, ending);
        FullJoin(old(plans), before, plans, nblockMAX, done && ending);
        MoreTaken(old(fed), data, i0, i);
      }
      assert data[0..|data|] == data;
    }

    /** One turn of the loop in handle_compress. */
    method Turn(data: seq<byte>, i0: nat, ending: bool) returns (i: nat, done: bool)
      requires Valid() && i0 <= |data|
      modifies this, run, w
      ensures Valid() && i0 <= i <= |data| && fed == old(fed) + data[i0..i]
      ensures !done ==> i0 < i
      ensures done ==> i == |data| && (ending ==> run.Pending() == [] && run.pairs == [])
      ensures SentSince(old(plans), done && ending)
    {
      i := CopyInput(data, i0);
      done := false;
      if ending && i == |data| {
        FlushBlock();
        done := true;
      } else if |run.block| >= nblockMAX {
        FullBlock();
      } else if i == |data| {
        done := true;
      }
    }

    /** The block is full: it is sent, and a pending run goes on in the next. */
    method FullBlock()
      requires Open() && nblockMAX <= |run.block| <= nblockMAX + 4
      modifies this, run, w
      ensures Valid() && fed == old(fed) && |run.block| == 0 && SentSince(old(plans), false)
    {
      CloseBlock();
      OneIsFull(old(plans), plans, |old(run.block)|, nblockMAX, false);
      assert Packed([]) == [] && Raw([]) == [];
      assert [] + run.Pending() == run.Pending();
      Assoc(old(AllRaw(plans)), old(Raw(run.pairs)), run.Pending());
    }

    /** No input is left: the pending run is added and the block sent, which is never too long. */
    method FlushBlock()
      requires Open() && |run.block| <= nblockMAX + 4
      modifies this, run, w
      ensures Valid() && fed == old(fed) && run.Pending() == [] && run.pairs == [] && SentSince(old(plans), true)
    {
      run.FlushRL();
      ghost var size := |run.block|;
      CloseBlock();
      OneIsFull(old(plans), plans, size, nblockMAX, true);
      assert Packed([]) == [] && Raw([]) == [];
      assert AllRaw(plans) + [] == AllRaw(plans);
    }

    /** The last input, the trailer and the padding. */
    method Finish(data: seq<byte>) returns (ghost pad: nat)
      requires Valid() && head == ByteBits(HeaderOf(level))
      modifies this, run, w
      ensures level <= 9 && PlansOk(plans, k, 100000 * level) && AllRaw(plans) == old(fed) + data && pad < 8
      ensures ByteBits(w.zbits) == StreamBits(plans, k, level) + Zeros(pad) && SentSince(old(plans), true)
    {
      Feed(data, true);
      assert AllRaw(plans) + [] == AllRaw(plans);
      ghost var h, ps, crc := head, AllBits(plans), combinedCRC;
      PutBytes(w, END_MAGIC);
      PutUInt32(w, combinedCRC);
      TrailerAdded(h, ps, ByteBits(END_MAGIC), ByteBits(BytesOf(crc, CRC_LEN)));
      pad := w.Finish();
    }
  }

  /** A block as the encoder makes it: greedy runs, exactly the bytes in use, and codes that four rounds settle on. */
  ghost predicate Proper(p: Plan) {
    Separated(p.pairs) && Greedy(p.pairs) && Marks(p.c.head.inUse, Packed(p.pairs)) && Economical(p.c)
  }

  ghost predicate ProperAndFull(p: Plan, least: int) {
    Proper(p) && |Packed(p.pairs)| >= least
  }

  ghost predicate AllFull(before: seq<Plan>, plans: seq<Plan>, least: int, ending: bool) {
    && |before| <= |plans| && plans[..|before|] == before
    && forall j {:trigger plans[j]} :: |before| <= j < |plans| ==> ProperAndFull(plans[j], if ending && j == |plans| - 1 then 0 else least)
  }

  /** At most one more, of that many bytes. */
  ghost predicate AddedOne(before: seq<Plan>, plans: seq<Plan>, size: nat) {
    && |before| <= |plans| <= |before| + 1 && plans[..|before|] == before && (size > 0 ==> |before| < |plans|)
    && (|before| < |plans| ==> ProperAndFull(plans[|before|], size))
  }

  lemma {:induction false} OneIsFull(before: seq<Plan>, plans: seq<Plan>, size: nat, least: int, ending: bool)
    requires AddedOne(before, plans, size) && (ending || least <= size)
    ensures AllFull(before, plans, least, ending)
  {
    forall j {:trigger plans[j]} | |before| <= j < |plans|
      ensures ProperAndFull(plans[j], if ending && j == |plans| - 1 then 0 else least)
    {
      assert j == |before|;
    }
  }

  lemma {:induction false} FullJoin(a: seq<Plan>, b: seq<Plan>, c: seq<Plan>, least: int, ending: bool)
    requires AllFull(a, b, least, false) && AllFull(b, c, least, ending)
    ensures AllFull(a, c, least, ending)
  {
    assert c[..|a|] == c[..|b|][..|a|];
    forall j {:trigger c[j]} | |a| <= j < |c|
      ensures ProperAndFull(c[j], if ending && j == |c| - 1 then 0 else least)
    {
      if j < |b| {
        assert c[j] == c[..|b|][j] == b[j];
      }
    }
  }

  lemma {:induction false} TrailerAdded(h: seq<bit>, ps: seq<bit>, e: seq<bit>, c: seq<bit>)
    ensures h + ps + e + c == h + (ps + (e + c))
  {
  }

  lemma {:induction false} NothingYet(h: seq<bit>)
    ensures [] + h == h && h + [] == h
  {
  }

  lemma {:induction false} NoneTaken(fed: seq<byte>, data: seq<byte>, i: nat)
    requires i <= |data|
    ensures fed + data[i..i] == fed
  {
  }

  lemma {:induction false} OneTaken(fed: seq<byte>, data: seq<byte>, i0: nat, i: nat)
    requires i0 <= i < |data|
    ensures fed + data[i0..i + 1] == fed + data[i0..i] + [data[i]]
  {
  }

  lemma {:induction false} MoreTaken(fed: seq<byte>, data: seq<byte>, i0: nat, i: nat)
    requires i0 <= i <= |data|
    ensures fed + data[0..i0] + data[i0..i] == fed + data[0..i]
    ensures i == |data| ==> data[0..i] == data
  {
  }

  /** Sends the block that a run state has collected. */
  method SendRuns(w: BitWriter, run: RunState, blockCRC: nat, ghost nMax: nat) returns (ghost p: Plan)
    requires run.Valid() && w.Valid() && 0 < |run.block| <= nMax <= MAX_BLOCK
    requires blockCRC == run.k.final(run.blockCRC) < CRC_LIMIT
    modifies w
    ensures w.Valid() && p.pairs == run.pairs && PlanOk(p, run.k, nMax) && w.Written() == old(w.Written()) + p.bits
    ensures Proper(p)
  {
    var block := ToBytes(run.block);
    var inUse := ToBools(run.inUse);
    ghost var c := SendBlock(w, block, inUse, blockCRC, nMax);
    assert Peek(8, 0);
    p := Plan(c, run.pairs, ByteBits(BLOCK_MAGIC) + CodingBits(c, nMax));
  }

  method ToBytes(s: seq<byte>) returns (a: array<byte>)
    ensures fresh(a) && a[..] == s
  {
    a := new byte[|s|];
    var i := 0;
    while i < |s|
      invariant 0 <= i <= |s| && forall j :: 0 <= j < i ==> a[j] == s[j]
    {
      a[i] := s[i];
      i := i + 1;
    }
  }

  lemma {:induction false} SomeBytes(ps: seq<Pair>)
    requires Separated(ps)
    ensures ps != [] ==> |Packed(ps)| > 0
  {
  }
}
