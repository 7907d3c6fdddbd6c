/** The encoder's run state: bytes come in one by one, pairs go into the block. */
module RunEncoder {
  import opened Bits
  import opened Bytes
  import opened Folds
  import opened Lookups
  import opened MtfRuns
  import opened RunLength
  import opened SymbolMaps

  const NO_CHAR := 256
  const MAX_RUN: nat := 255

  class RunState {
    const k: Lookup
    var state_in_ch: int
    var state_in_len: nat
    var block: seq<byte>
    var inUse: seq<bool>
    var blockCRC: nat
    /** The pairs that the block is made of. */
    ghost var pairs: seq<Pair>

    ghost predicate Valid()
      reads this
    {
      && Separated(pairs) && Greedy(pairs) && block == Packed(pairs) && Marks(inUse, block)
      && blockCRC == Fold(k.step, k.init, Raw(pairs))
      && PendingOk(pairs, state_in_ch, state_in_len)
    }

    ghost function Pending(): seq<byte>
      reads this
    {
      if 0 <= state_in_ch < 256 then Repeat(state_in_ch, state_in_len) else []
    }

    /** The input that this block and the pending run stand for. */
    ghost function Seen(): seq<byte>
      reads this
    {
      Raw(pairs) + Pending()
    }

    constructor (checksum: Lookup)
      ensures Valid() && k == checksum && pairs == [] && Pending() == []
    {
      k := checksum;
      state_in_ch, state_in_len := NO_CHAR, 0;
      block, inUse, blockCRC, pairs := [], seq(256, _ => false), checksum.init, [];
    }

    /** prepare_new_block: the pending run is carried over. */
    method PrepareNewBlock()
      requires Valid()
      modifies this
      ensures Valid() && pairs == [] && Pending() == old(Pending())
    {
      block, inUse, blockCRC, pairs := [], seq(256, _ => false), k.init, [];
    }

    /** add_pair_to_block: appends the pending run to the block. */
    method AddPair()
      requires Valid() && state_in_ch != NO_CHAR
      modifies this
      ensures Separated(pairs) && Greedy(pairs) && block == Packed(pairs) && Marks(inUse, block)
      ensures blockCRC == Fold(k.step, k.init, Raw(pairs))
      ensures state_in_ch == old(state_in_ch) && state_in_len == old(state_in_len)
      ensures pairs == old(pairs) + [Pair(old(state_in_ch), old(state_in_len))] && |block| <= |old(block)| + 5
      ensures Raw(pairs) == old(Seen())
    {
      ghost var p, ps := Pair(state_in_ch, state_in_len), pairs;
      WritePair();
      PairAdded(k, ps, p);
      pairs := ps + [p];
    }

    method WritePair()
      requires 0 <= state_in_ch < 256 && 1 <= state_in_len <= 255 && Marks(inUse, block)
      modifies this`block, this`inUse, this`blockCRC
      ensures block == old(block) + PairBytes(Pair(state_in_ch, state_in_len)) && Marks(inUse, block)
      ensures blockCRC == Fold(k.step, old(blockCRC), Repeat(state_in_ch, state_in_len)) && |block| <= |old(block)| + 5
    {
      FewBytes(Pair(state_in_ch, state_in_len));
      UpdateCrc(state_in_ch);
      AppendPair();
    }

    method AppendPair()
      requires 0 <= state_in_ch < 256 && 1 <= state_in_len <= 255 && Marks(inUse, block)
      modifies this`block, this`inUse
      ensures block == old(block) + PairBytes(Pair(state_in_ch, state_in_len)) && Marks(inUse, block)
    {
      var ch: byte := state_in_ch;
      ghost var u := inUse;
      inUse := inUse[ch := true];
      if state_in_len == 1 {
        block := block + [ch];
      } else if state_in_len == 2 {
        block := block + [ch, ch];
      } else if state_in_len == 3 {
        block := block + [ch, ch, ch];
      } else {
        inUse := inUse[state_in_len - 4 := true];
        block := block + [ch, ch, ch, ch, state_in_len - 4];
      }
      FewBytes(Pair(ch, state_in_len));
      Marked(u, inUse, old(block), Pair(ch, state_in_len));
    }

    method UpdateCrc(ch: byte)
      modifies this`blockCRC
      ensures blockCRC == Fold(k.step, old(blockCRC), Repeat(ch, state_in_len))
    {
      var i := 0;
      assert Repeat(ch, 0) == [];
      while i < state_in_len
        invariant 0 <= i <= state_in_len && blockCRC == Fold(k.step, old(blockCRC), Repeat(ch, i))
      {
        assert Repeat(ch, i + 1) == Repeat(ch, i) + [ch];
        FoldSnoc(k.step, old(blockCRC), Repeat(ch, i), ch);
        blockCRC := k.step(blockCRC, ch);
        i := i + 1;
      }
    }

    /** flush_RL: nothing stays pending. */
    method FlushRL()
      requires Valid()
      modifies this
      ensures Valid() && Pending() == [] && Raw(pairs) == old(Seen()) && |block| <= |old(block)| + 5
    {
      if state_in_ch < NO_CHAR {
        AddPair();
      } else {
        assert Raw(pairs) + [] == Raw(pairs);
      }
      state_in_ch, state_in_len := NO_CHAR, 0;
    }

    /**
     * ADD_CHAR_TO_BLOCK: one more byte of input. After a flush the block must be closed first, or a run
     * could follow a short run of the same byte.
     */
    method AddChar(zchh: byte)
      requires Valid() && (state_in_ch == NO_CHAR ==> pairs == [])
      modifies this
      ensures Valid() && state_in_ch != NO_CHAR && Seen() == old(Seen()) + [zchh] && |block| <= |old(block)| + 5
    {
      if zchh != state_in_ch && state_in_len == 1 {
        AddPair();
        state_in_ch := zchh;
        assert Repeat(zchh, 1) == [zchh];
      } else if zchh != state_in_ch || state_in_len == MAX_RUN {
        NextRun(zchh);
      } else {
        assert Repeat(zchh, state_in_len + 1) == Repeat(zchh, state_in_len) + [zchh];
        Assoc(Raw(pairs), Repeat(zchh, state_in_len), [zchh]);
        state_in_len := state_in_len + 1;
      }
    }

    method NextRun(zchh: byte)
      requires Valid() && (state_in_ch == NO_CHAR ==> pairs == []) && (zchh == state_in_ch ==> state_in_len == MAX_RUN)
      modifies this
      ensures Valid() && state_in_ch != NO_CHAR && Seen() == old(Seen()) + [zchh] && |block| <= |old(block)| + 5
    {
      if state_in_ch < NO_CHAR {
        AddPair();
      } else {
        assert Raw(pairs) + [] == Raw(pairs);
      }
      state_in_ch, state_in_len := zchh, 1;
      assert Repeat(zchh, 1) == [zchh];
    }
  }

  /** No run is split before it is as long as a run can be. */
  ghost predicate Greedy(ps: seq<Pair>) {
    forall i {:trigger Breaks(ps, i)} :: 0 <= i < |ps| - 1 ==> Breaks(ps, i)
  }

  ghost predicate Breaks(ps: seq<Pair>, i: int) {
    0 <= i < |ps| - 1 && (ps[i].ch != ps[i + 1].ch || ps[i].len == MAX_RUN)
  }

  lemma {:induction false} GreedySnoc(ps: seq<Pair>, p: Pair)
    requires Greedy(ps) && PendingOk(ps, p.ch, p.len)
    ensures Greedy(ps + [p])
  {
    var qs := ps + [p];
    forall i | 0 <= i < |qs| - 1
      ensures Breaks(qs, i)
    {
      assert i < |ps| - 1 ==> Breaks(ps, i);
    }
  }

  /** Exactly the bytes of the block are marked as in use. */
  ghost predicate Marks(u: seq<bool>, block: seq<byte>) {
    |u| == 256 && forall c :: 0 <= c < 256 ==> (u[c] <==> c in block)
  }

  /** A pending run may follow the last pair of the block. */
  ghost predicate PendingOk(ps: seq<Pair>, ch: int, len: nat) {
    if ch == NO_CHAR then len == 0
    else 0 <= ch < 256 && 1 <= len <= 255 && (ps == [] || ps[|ps| - 1].ch != ch || ps[|ps| - 1].len == MAX_RUN)
  }

  lemma {:induction false} FewBytes(p: Pair)
    requires PairOk(p)
    ensures p.len == 1 ==> PairBytes(p) == [p.ch]
    ensures p.len == 2 ==> PairBytes(p) == [p.ch, p.ch]
    ensures p.len == 3 ==> PairBytes(p) == [p.ch, p.ch, p.ch]
    ensures p.len >= 4 ==> PairBytes(p) == [p.ch, p.ch, p.ch, p.ch, p.len - 4]
  {
  }

  lemma {:induction false} PairAdded(k: Lookup, ps: seq<Pair>, p: Pair)
    requires Separated(ps) && Greedy(ps) && PendingOk(ps, p.ch, p.len)
    ensures Greedy(ps + [p])
    ensures Separated(ps + [p]) && Packed(ps + [p]) == Packed(ps) + PairBytes(p)
    ensures Raw(ps + [p]) == Raw(ps) + Repeat(p.ch, p.len)
    ensures Fold(k.step, k.init, Raw(ps + [p])) == Fold(k.step, Fold(k.step, k.init, Raw(ps)), Repeat(p.ch, p.len))
  {
    GreedySnoc(ps, p);
    SeparatedSnoc(ps, p);
    PackedSnoc(ps, p);
    RawSnoc(ps, p);
    FoldAppend(k.step, k.init, Raw(ps), Repeat(p.ch, p.len));
  }

  lemma {:induction false} Marked(u: seq<bool>, u': seq<bool>, block: seq<byte>, p: Pair)
    requires Marks(u, block) && PairOk(p)
    requires u' == if p.len < 4 then u[p.ch := true] else u[p.ch := true][p.len - 4 := true]
    ensures Marks(u', block + PairBytes(p))
  {
  }
}
