/** The decoder's output state: a block's bytes are expanded into whatever room each call offers. */
module RunDecoder {
  import opened Bits
  import opened Bytes
  import opened Folds
  import opened Lookups
  import opened MtfRuns
  import opened RunLength

  class OutputState {
    const k: Lookup
    /** The bytes that unwinding the block gives, two beyond its end included. */
    const code: seq<byte>
    const save_nblock: nat
    var nblock_used: nat
    var k0: byte
    var state_out_len: nat
    var state_out_ch: byte
    var calculatedBlockCRC: nat

    ghost predicate Valid()
      reads this
    {
      && |code| == save_nblock + 2 && 1 <= nblock_used <= save_nblock + 2
      && (nblock_used <= save_nblock ==> k0 == code[nblock_used - 1])
    }

    /** What is still to come out. */
    ghost function Left(): Expanded
      requires |code| == save_nblock + 2 && 1 <= nblock_used <= save_nblock + 2
      reads this
    {
      Then(Repeat(state_out_ch, state_out_len), From(code, save_nblock, nblock_used))
    }

    constructor (checksum: Lookup, bytes: seq<byte>)
      requires |bytes| >= 2
      ensures Valid() && k == checksum && Left() == Expand(bytes, |bytes| - 2) && calculatedBlockCRC == k.init
    {
      k, code, save_nblock := checksum, bytes, |bytes| - 2;
      nblock_used, k0, state_out_len, state_out_ch := 1, bytes[0], 0, 0;
      calculatedBlockCRC := checksum.init;
      new;
      assert code[0..] == code;
      NothingPending(state_out_ch, Expand(code, save_nblock));
    }

    method GetByte() returns (k1: byte)
      requires nblock_used < |code|
      modifies this`nblock_used
      ensures k1 == code[old(nblock_used)] && nblock_used == old(nblock_used) + 1
    {
      k1 := code[nblock_used];
      nblock_used := nblock_used + 1;
    }

    /** Begins the next run; what is to come out stays the same. */
    method StartRun()
      requires Valid() && nblock_used <= save_nblock && state_out_len == 0
      modifies this`nblock_used, this`k0, this`state_out_len, this`state_out_ch
      ensures Valid() && Left() == old(Left()) && state_out_len > 0 && nblock_used > old(nblock_used)
    {
      ghost var u := nblock_used;
      NothingPending(state_out_ch, From(code, save_nblock, u));
      NextRun(code, save_nblock, u);
      state_out_len := 1;
      state_out_ch := k0;
      var k1 := GetByte();
      if nblock_used == save_nblock + 1 {
        return;
      }
      if k1 != k0 {
        k0 := k1;
        return;
      }
      state_out_len := 2;
      k1 := GetByte();
      if nblock_used == save_nblock + 1 {
        return;
      }
      if k1 != k0 {
        k0 := k1;
        return;
      }
      state_out_len := 3;
      k1 := GetByte();
      if nblock_used == save_nblock + 1 {
        return;
      }
      if k1 != k0 {
        k0 := k1;
        return;
      }
      k1 := GetByte();
      state_out_len := k1 as nat + 4;
      k0 := GetByte();
    }

    /** One byte of the current run. */
    method EmitOne(out: seq<byte>) returns (out': seq<byte>)
      requires Valid() && state_out_len > 0
      modifies this`state_out_len, this`calculatedBlockCRC
      ensures Valid() && state_out_len == old(state_out_len) - 1 && out' == out + [state_out_ch]
      ensures Then(out', Left()) == Then(out, old(Left()))
      ensures calculatedBlockCRC == k.step(old(calculatedBlockCRC), state_out_ch)
    {
      out' := out + [state_out_ch];
      calculatedBlockCRC := k.step(calculatedBlockCRC, state_out_ch);
      OneLess(out, state_out_ch, state_out_len, From(code, save_nblock, nblock_used));
      state_out_len := state_out_len - 1;
    }

    /** unRLE_obuf_to_output_SMALL, and the loop of unRLE_obuf_to_output_FAST for randomised blocks. */
    method OutputSmall(avail_out: nat) returns (out: seq<byte>, corrupt: bool)
      requires Valid()
      modifies this
      ensures Valid() && |out| <= avail_out && Then(out, Left()) == old(Left())
      ensures calculatedBlockCRC == Fold(k.step, old(calculatedBlockCRC), out)
      ensures corrupt ==> Left() == Expanded([], true)
      ensures !corrupt ==> |out| == avail_out || (nblock_used == save_nblock + 1 && state_out_len == 0)
    {
      out, corrupt := [], false;
      NothingBefore(Left());
      while true
        invariant Valid() && |out| <= avail_out && Then(out, Left()) == old(Left())
        invariant calculatedBlockCRC == Fold(k.step, old(calculatedBlockCRC), out)
        decreases save_nblock + 2 - nblock_used, state_out_len
      {
        if |out| == avail_out {
          return;
        }
        if state_out_len > 0 {
          FoldSnoc(k.step, old(calculatedBlockCRC), out, state_out_ch);
          out := EmitOne(out);
        } else if nblock_used == save_nblock + 1 {
          return;
        } else if nblock_used > save_nblock + 1 {
          NothingPending(state_out_ch, From(code, save_nblock, nblock_used));
          return out, true;
        } else {
          StartRun();
        }
      }
    }

    /** The loop of unRLE_obuf_to_output_FAST for other blocks: the same, but a run may be begun when no room is left. */
    method OutputFast(avail_out: nat) returns (out: seq<byte>, corrupt: bool)
      requires Valid()
      modifies this
      ensures Valid() && |out| <= avail_out && Then(out, Left()) == old(Left())
      ensures calculatedBlockCRC == Fold(k.step, old(calculatedBlockCRC), out)
      ensures corrupt ==> Left() == Expanded([], true)
      ensures !corrupt ==> |out| == avail_out || (nblock_used == save_nblock + 1 && state_out_len == 0)
    {
      out, corrupt := [], false;
      NothingBefore(Left());
      while true
        invariant Valid() && |out| <= avail_out && Then(out, Left()) == old(Left())
        invariant calculatedBlockCRC == Fold(k.step, old(calculatedBlockCRC), out)
        decreases save_nblock + 2 - nblock_used, state_out_len
      {
        if state_out_len > 0 {
          if |out| == avail_out {
            return;
          }
          FoldSnoc(k.step, old(calculatedBlockCRC), out, state_out_ch);
          out := EmitOne(out);
        } else if nblock_used > save_nblock + 1 {
          NothingPending(state_out_ch, From(code, save_nblock, nblock_used));
          return out, true;
        } else if nblock_used == save_nblock + 1 {
          return;
        } else {
          StartRun();
        }
      }
    }
  }

  /** What comes out once the current run is done and u bytes have been read. */
  ghost function From(code: seq<byte>, n: nat, u: nat): Expanded
    requires |code| == n + 2 && 1 <= u <= n + 2
  {
    if u == n + 2 then Expanded([], true) else Expand(code[u - 1..], n + 1 - u)
  }

  lemma {:induction false} NothingPending(ch: byte, x: Expanded)
    ensures Then(Repeat(ch, 0), x) == x
  {
    assert Repeat(ch, 0) + x.bytes == x.bytes;
  }

  lemma {:induction false} NothingBefore(x: Expanded)
    ensures Then([], x) == x
  {
    assert [] + x.bytes == x.bytes;
  }

  lemma {:induction false} OneLess(out: seq<byte>, ch: byte, n: nat, x: Expanded)
    requires n > 0
    ensures Then(out + [ch], Then(Repeat(ch, n - 1), x)) == Then(out, Then(Repeat(ch, n), x))
  {
    assert Repeat(ch, n) == [ch] + Repeat(ch, n - 1);
    assert (out + [ch]) + (Repeat(ch, n - 1) + x.bytes) == out + (([ch] + Repeat(ch, n - 1)) + x.bytes);
  }

  /** The run that begins with byte number u. */
  lemma {:induction false} NextRun(code: seq<byte>, n: nat, u: nat)
    requires |code| == n + 2 && 1 <= u <= n
    ensures var c := code[u - 1];
      From(code, n, u) ==
        if u == n || code[u] != c then Then(Repeat(c, 1), From(code, n, u + 1))
        else if u + 1 == n || code[u + 1] != c then Then(Repeat(c, 2), From(code, n, u + 2))
        else if u + 2 == n || code[u + 2] != c then Then(Repeat(c, 3), From(code, n, u + 3))
        else Then(Repeat(c, code[u + 3] as nat + 4), From(code, n, u + 5))
  {
    var s, m := code[u - 1..], n + 1 - u;
    var k := Taken(s, m);
    if k <= m {
      assert s[k..] == code[u + k - 1..];
    } else {
      assert FirstRun(s, m) + [] == FirstRun(s, m);
    }
  }
}
