/** The bit buffers of the encoder and the decoder. */
module BitStream {
  import opened Arith
  import opened Bits
  import opened Bytes
  import opened Closing

  const TWO24 := 0x100_0000
  const TWO32 := 0x1_0000_0000

  /** bsW and bsFinishWrite: a 32-bit buffer filled from the top. */
  class BitWriter {
    var zbits: seq<byte>
    var bsBuff: int
    var bsLive: int
    /** The bits in the buffer. */
    ghost var pending: seq<bit>

    ghost predicate Valid()
      reads this
    {
      && bsLive == |pending| <= 32
      && OnTop(bsBuff, pending)
    }

    /** Everything written so far. */
    ghost function Written(): seq<bit>
      reads this
    {
      ByteBits(zbits) + pending
    }

    constructor ()
      ensures Valid() && Written() == []
    {
      zbits, bsBuff, bsLive, pending := [], 0, 0, [];
      new;
      OnTopValue(0, []);
    }

    /** bsNEEDW: moves whole bytes from the buffer to the output. */
    method Flush()
      requires Valid()
      modifies this
      ensures Valid() && Written() == old(Written())
      ensures bsLive < 8
    {
      while bsLive >= 8
        invariant Valid() && Written() == old(Written())
        decreases bsLive
      {
        TopByte(pending, bsBuff);
        MovesByte(zbits, bsBuff / TWO24, pending);
        zbits := zbits + [bsBuff / TWO24];
        bsBuff := (bsBuff * 256) % TWO32;
        bsLive := bsLive - 8;
        pending := pending[8..];
      }
    }

    method Put(n: nat, v: nat)
      requires Valid() && n <= 24 && v < Pow2(n)
      modifies this
      ensures Valid() && Written() == old(Written()) + BitsOf(v, n)
    {
      Flush();
      AddBits(pending, bsBuff, v, n);
      bsBuff := bsBuff + v * Pow2(32 - bsLive - n);
      bsLive := bsLive + n;
      ghost var before := pending;
      pending := pending + BitsOf(v, n);
      Assoc(ByteBits(zbits), before, BitsOf(v, n));
    }

    /** bsFinishWrite: the last byte is padded with zeros. */
    method Finish() returns (ghost pad: nat)
      requires Valid()
      modifies this
      ensures Valid() && bsLive == 0 && pad < 8
      ensures ByteBits(zbits) == old(Written()) + Zeros(pad)
    {
      Flush();
      if bsLive > 0 {
        pad := FlushRest();
      } else {
        pad := 0;
        assert pending == [] == Zeros(0);
      }
    }

    method FlushRest() returns (ghost pad: nat)
      requires Valid() && 0 < bsLive < 8
      modifies this
      ensures Valid() && bsLive == 0 && pad < 8
      ensures ByteBits(zbits) == old(Written()) + Zeros(pad)
    {
      pad := 8 - bsLive;
      LastByte(zbits, pending, bsBuff, pad);
      zbits := zbits + [bsBuff / TWO24];
      bsBuff := (bsBuff * 256) % TWO32;
      bsLive := 0;
      pending := [];
      OnTopValue(0, []);
    }
  }

  /** Input as it arrives, call by call. */
  ghost function Flat(chunks: seq<seq<byte>>): seq<byte> {
    if chunks == [] then [] else chunks[0] + Flat(chunks[1..])
  }

  /**
   * GET_BITS: a 32-bit buffer whose low bits are the ones read but not yet used. The decoder returns to
   * its caller when a chunk of input is used up and goes on at the same point with the next chunk.
   */
  class BitReader {
    var input: seq<byte>
    var later: seq<seq<byte>>
    var bsBuff: int
    var bsLive: int
    /** The unused bits in the buffer. */
    ghost var pending: seq<bit>

    ghost predicate Valid()
      reads this
    {
      && bsLive == |pending| < 32
      && 0 <= bsBuff < TWO32
      && AtBottom(bsBuff, pending)
    }

    /** Everything still to be read. */
    ghost function Unread(): seq<bit>
      reads this
    {
      pending + ByteBits(input + Flat(later))
    }

    /** Only the concatenation of the chunks matters. */
    constructor (chunks: seq<seq<byte>>)
      ensures Valid() && Unread() == ByteBits(Flat(chunks))
    {
      input, later, bsBuff, bsLive, pending := [], chunks, 0, 0, [];
      new;
      AtBottomEmpty(0);
      assert [] + Flat(chunks) == Flat(chunks);
      assert [] + ByteBits(Flat(chunks)) == ByteBits(Flat(chunks));
    }

    /**
     * The next n bits as a number, or nothing if all input has run out; then no bit is lost.
     */
    method Get(n: nat) returns (r: Option<nat>)
      requires Valid() && n <= 24
      modifies this
      ensures Valid()
      ensures |old(Unread())| < n ==> r == None && Unread() == old(Unread())
      ensures |old(Unread())| >= n ==> r == Some(ValueOf(old(Unread())[..n])) && Unread() == old(Unread())[n..]
    {
      while true
        invariant Valid() && Unread() == old(Unread())
        decreases |later|, |input|
      {
        if bsLive >= n {
          var v := Take(n);
          return Some(v);
        }
        if input == [] {
          if later == [] {
            return None;
          }
          Refill();
        } else {
          Load();
        }
      }
    }

    /** The caller hands over the next chunk. */
    method Refill()
      requires Valid() && input == [] && later != []
      modifies this
      ensures Valid() && Unread() == old(Unread()) && later == old(later)[1..]
    {
      assert [] + Flat(later) == later[0] + Flat(later[1..]);
      input, later := later[0], later[1..];
    }

    /** Uses n of the buffered bits. */
    method Take(n: nat) returns (v: nat)
      requires Valid() && n <= bsLive
      modifies this
      ensures Valid() && |old(Unread())| >= n
      ensures v == ValueOf(old(Unread())[..n]) && Unread() == old(Unread())[n..]
    {
      TakeHigh(bsBuff, pending, n);
      UsesBits(pending, ByteBits(input + Flat(later)), n);
      v := (bsBuff / Pow2(bsLive - n)) % Pow2(n);
      bsLive := bsLive - n;
      pending := pending[n..];
    }

    /** Shifts one more byte into the buffer. */
    method Load()
      requires Valid() && input != [] && bsLive < 24
      modifies this
      ensures Valid() && Unread() == old(Unread()) && later == old(later) && |input| < |old(input)|
    {
      ghost var more := pending + BitsOf(input[0], OCTET);
      AddByte(bsBuff, pending, input[0]);
      LoadsByte(pending, input, Flat(later));
      bsBuff, bsLive := ByteIn(bsBuff, input[0]), bsLive + 8;
      input, pending := input[1..], more;
    }
  }

  lemma {:induction false} UsesBits(p: seq<bit>, rest: seq<bit>, n: nat)
    requires n <= |p|
    ensures (p + rest)[..n] == p[..n] && (p + rest)[n..] == p[n..] + rest
  {
  }

  lemma {:induction false} LoadsByte(p: seq<bit>, z: seq<byte>, more: seq<byte>)
    requires z != []
    ensures p + BitsOf(z[0], OCTET) + ByteBits(z[1..] + more) == p + ByteBits(z + more)
  {
    ReadsByte(p, z + more);
    assert (z + more)[1..] == z[1..] + more;
  }

  lemma {:induction false} ReadsByte(p: seq<bit>, z: seq<byte>)
    requires z != []
    ensures p + BitsOf(z[0], OCTET) + ByteBits(z[1..]) == p + ByteBits(z)
  {
    assert z == [z[0]] + z[1..];
    ByteBitsAppend([z[0]], z[1..]);
    ByteBitsSnoc([], z[0]);
    assert [] + [z[0]] == [z[0]];
    assert ByteBits([]) + BitsOf(z[0], OCTET) == BitsOf(z[0], OCTET);
    Assoc(p, BitsOf(z[0], OCTET), ByteBits(z[1..]));
  }

  /** The low |p| bits of buff are p. */
  ghost predicate AtBottom(buff: int, p: seq<bit>) {
    forall u {:trigger Look(u)} :: Look(u) ==> exists q {:trigger Composed(buff, q, p)} :: Composed(buff, q, p)
  }

  ghost predicate Composed(buff: int, q: int, p: seq<bit>) {
    buff == q * Pow2(|p|) + ValueOf(p)
  }

  lemma {:induction false} AtBottomEmpty(buff: int)
    ensures AtBottom(buff, [])
  {
    assert Composed(buff, buff, []);
  }

  lemma {:induction false} TakeHigh(buff: int, p: seq<bit>, n: nat)
    requires AtBottom(buff, p) && n <= |p|
    ensures (buff / Pow2(|p| - n)) % Pow2(n) == ValueOf(p[..n])
    ensures AtBottom(buff, p[n..])
  {
    assert Look(0);
    var q :| Composed(buff, q, p);
    var hi, lo := p[..n], p[n..];
    assert p == hi + lo;
    ValueAppend(hi, lo);
    Pow2Add(n, |lo|);
    var t := q * Pow2(n) + ValueOf(hi);
    Distribute(q, Pow2(n), ValueOf(hi), Pow2(|lo|));
    assert buff == t * Pow2(|lo|) + ValueOf(lo);
    assert Composed(buff, t, lo);
    assert t * Pow2(|lo|) == Pow2(|lo|) * t;
    ModUnique(buff, Pow2(|lo|), t, ValueOf(lo));
    assert q * Pow2(n) == Pow2(n) * q;
    ModUnique(t, Pow2(n), q, ValueOf(hi));
  }

  /** A byte shifted into a 32-bit word. */
  function ByteIn(buff: int, x: byte): (r: int)
    ensures 0 <= r < TWO32
  {
    (buff * 256 + x) % TWO32
  }

  lemma {:induction false} ByteBelow(p: seq<bit>, x: byte)
    ensures ValueOf(p + BitsOf(x, OCTET)) == ValueOf(p) * 256 + x
  {
    assert Pow2(8) == 256;
    BitsThenValue(x, 8);
    ValueAppend(p, BitsOf(x, OCTET));
  }

  lemma {:induction false} RoomForByte(q: int, m: nat, v: int, x: int)
    ensures (q * Pow2(m) + v) * 256 + x == q * Pow2(m + 8) + (v * 256 + x)
  {
    assert Pow2(8) == 256;
    Pow2Add(m, 8);
    Distribute(q, Pow2(m), v, 256);
  }

  lemma {:induction false} ByteShifted(buff: int, x: byte, q: int, v: int, m: nat) returns (q': int)
    requires buff == q * Pow2(m) + v && m + 8 <= 32
    ensures ByteIn(buff, x) == q' * Pow2(m + 8) + (v * 256 + x)
  {
    RoomForByte(q, m, v, x);
    q' := Truncate(buff * 256 + x, q, v * 256 + x, m + 8);
  }

  lemma {:induction false} AddByte(buff: int, p: seq<bit>, x: byte)
    requires AtBottom(buff, p) && |p| + 8 <= 32
    ensures AtBottom(ByteIn(buff, x), p + BitsOf(x, OCTET))
  {
    assert Look(0);
    var q :| Composed(buff, q, p);
    ByteBelow(p, x);
    var q' := ByteShifted(buff, x, q, ValueOf(p), |p|);
    assert Composed(ByteIn(buff, x), q', p + BitsOf(x, OCTET));
  }

  /** Dropping high bits leaves the low ones. */
  lemma {:induction false} Truncate(y: int, q: int, v: int, m: nat) returns (q': int)
    requires y == q * Pow2(m) + v && m <= 32
    ensures y % TWO32 == q' * Pow2(m) + v
  {
    var d := y / TWO32;
    Pow2Add(32 - m, m);
    Pow2Of24();
    q' := q - d * Pow2(32 - m);
    MulAssoc(d, Pow2(32 - m), Pow2(m));
    Distribute2(q, d * Pow2(32 - m), Pow2(m));
  }

  lemma {:induction false} Distribute2(a: int, b: int, p: int)
    ensures (a - b) * p == a * p - b * p
  {
  }

  lemma {:induction false} LastByte(z: seq<byte>, p: seq<bit>, buff: int, pad: nat)
    requires |p| + pad == 8 && OnTop(buff, p)
    ensures 0 <= buff / TWO24 < 256
    ensures ByteBits(z + [buff / TWO24]) == ByteBits(z) + p + Zeros(pad)
    ensures (buff * 256) % TWO32 == 0
  {
    var q := p + Zeros(pad);
    OnTopPadded(buff, p, pad);
    TopByte(q, buff);
    assert q[8..] == [];
    OnTopValue((buff * 256) % TWO32, []);
    MovesByte(z, buff / TWO24, q);
    Assoc(ByteBits(z), p, Zeros(pad));
    assert ByteBits(z + [buff / TWO24]) + [] == ByteBits(z + [buff / TWO24]);
  }

  ghost function Zeros(n: nat): (s: seq<bit>)
    ensures |s| == n && forall i :: 0 <= i < n ==> s[i] == 0
  {
    seq(n, _ => 0)
  }

  lemma {:induction false} ZeroBelow(buff: int, p: seq<bit>)
    requires |p| < 32 && OnTop(buff, p)
    ensures OnTop(buff, p + [0])
  {
    var q, k := p + [0], 31 - |p|;
    OnTopValue(buff, p);
    OnTopValue(buff, q);
    assert q[..|q| - 1] == p;
    assert ValueOf(q) == ValueOf(p) * 2 + 0;
    Distribute(ValueOf(p), 2, 0, Pow2(k));
  }

  /** Unused places of the buffer hold zeros. */
  lemma {:induction false} OnTopPadded(buff: int, p: seq<bit>, n: nat)
    requires |p| + n <= 32 && OnTop(buff, p)
    ensures OnTop(buff, p + Zeros(n))
    decreases n
  {
    if n == 0 {
      assert p + Zeros(n) == p;
    } else {
      OnTopPadded(buff, p, n - 1);
      ZeroBelow(buff, p + Zeros(n - 1));
      assert p + Zeros(n) == p + Zeros(n - 1) + [0];
    }
  }

  /** buff is the bits p at the top of a 32-bit word. */
  ghost predicate OnTop(buff: int, p: seq<bit>)
    requires |p| <= 32
  {
    forall u {:trigger Look(u)} :: Look(u) ==> buff == ValueOf(p) * Pow2(32 - |p|)
  }

  lemma {:induction false} OnTopValue(buff: int, p: seq<bit>)
    requires |p| <= 32
    ensures OnTop(buff, p) <==> buff == ValueOf(p) * Pow2(32 - |p|)
  {
    assert Look(0);
  }

  /** The top byte of the buffer is the first eight pending bits; shifting it out leaves the others on top. */
  lemma {:induction false} TopByte(p: seq<bit>, buff: int)
    requires 8 <= |p| <= 32 && OnTop(buff, p)
    ensures 0 <= buff / TWO24 < 256 && BitsOf(buff / TWO24, OCTET) == p[..8]
    ensures OnTop((buff * 256) % TWO32, p[8..])
  {
    var hi, lo := p[..8], p[8..];
    assert p == hi + lo;
    OnTopValue(buff, p);
    ValueAppend(hi, lo);
    EightBits(hi);
    ShiftOut(ValueOf(p), buff, ValueOf(hi), ValueOf(lo), |lo|, 32 - |p|);
    OnTopValue((buff * 256) % TWO32, lo);
  }

  lemma {:induction false} EightBits(s: seq<bit>)
    requires |s| == 8
    ensures ValueOf(s) < 256 && BitsOf(ValueOf(s), OCTET) == s
  {
    assert Pow2(8) == 256;
    ValueThenBits(s);
  }

  lemma {:induction false} MovesByte(z: seq<byte>, x: byte, p: seq<bit>)
    requires |p| >= 8 && BitsOf(x, OCTET) == p[..8]
    ensures ByteBits(z + [x]) + p[8..] == ByteBits(z) + p
  {
    ByteBitsSnoc(z, x);
    Assoc(ByteBits(z), p[..8], p[8..]);
    assert p == p[..8] + p[8..];
  }

  lemma {:induction false} ShiftOut(v: nat, buff: int, a: nat, b: nat, m: nat, k: nat)
    requires b < Pow2(m) && m + k == 24 && a < 256
    requires v == a * Pow2(m) + b && buff == v * Pow2(k)
    ensures buff / TWO24 == a && (buff * 256) % TWO32 == b * Pow2(k + 8)
  {
    var low := b * Pow2(k);
    AtTop(a, b, m, k);
    TopAndRest(a, low);
    Pow2Add(k, 8);
    assert Pow2(8) == 256;
    MulAssoc(b, Pow2(k), 256);
  }

  lemma {:induction false} AtTop(a: nat, b: nat, m: nat, k: nat)
    requires b < Pow2(m) && m + k == 24
    ensures (a * Pow2(m) + b) * Pow2(k) == a * TWO24 + b * Pow2(k) && b * Pow2(k) < TWO24
  {
    Pow2Of24();
    Pow2Add(m, k);
    Distribute(a, Pow2(m), b, Pow2(k));
    Pow2Bound(b, m, k);
  }

  lemma {:induction false} TopAndRest(a: nat, low: nat)
    requires a < 256 && low < TWO24
    ensures (a * TWO24 + low) / TWO24 == a && ((a * TWO24 + low) * 256) % TWO32 == low * 256
  {
    ModUnique(a * TWO24 + low, TWO24, a, low);
    ModUnique((a * TWO24 + low) * 256, TWO32, a, low * 256);
  }

  lemma {:induction false} MulAssoc(a: int, b: int, c: int)
    ensures a * b * c == a * (b * c)
  {
  }

  lemma {:induction false} Distribute(a: int, p: int, b: int, q: int)
    ensures (a * p + b) * q == a * (p * q) + b * q
  {
  }

  lemma {:induction false} Pow2Bound(b: nat, m: nat, k: nat)
    requires b < Pow2(m)
    ensures b * Pow2(k) < Pow2(m + k)
  {
    Pow2Add(m, k);
    MulMono(b, Pow2(m) - 1, Pow2(k));
  }

  lemma {:induction false} Pow2Of24()
    ensures Pow2(24) == TWO24 && Pow2(32) == TWO32
  {
    assert Pow2(8) == 256;
    Pow2Add(8, 8);
    Pow2Add(16, 8);
    Pow2Add(24, 8);
  }

  /** Adding n bits below the pending ones. */
  lemma {:induction false} AddBits(p: seq<bit>, buff: int, v: nat, n: nat)
    requires |p| < 8 && n <= 24 && v < Pow2(n) && OnTop(buff, p)
    ensures OnTop(buff + v * Pow2(32 - |p| - n), p + BitsOf(v, n))
  {
    OnTopValue(buff, p);
    OnTopValue(buff + v * Pow2(32 - |p| - n), p + BitsOf(v, n));
    BitsThenValue(v, n);
    ValueAppend(p, BitsOf(v, n));
    var k := 32 - |p| - n;
    Pow2Add(n, k);
    assert n + k == 32 - |p|;
    Distribute(ValueOf(p), Pow2(n), v, Pow2(k));
  }
}
