/** BZ2_bzDecompress over its whole life, and the round trip through both ends. */
module Decompressor {
  import opened Arith
  import opened Bits
  import opened BitStream
  import opened BlockCodec
  import opened BlockFormat
  import opened BlockMeaning
  import opened BlockReceiver
  import opened BlockSyntax
  import opened Bytes
  import opened Canonical
  import opened Compressor
  import opened Folds
  import opened Lookups
  import opened ParseShrinks
  import opened RunDecoder
  import opened RunLength
  import opened StreamFormat
  import opened StreamMeaning

  // ---- the output of one block ----

  lemma {:induction false} Gathered(out: seq<byte>, more: seq<byte>, x: Expanded)
    ensures Then(out, Then(more, x)) == Then(out + more, x)
  {
    Assoc(out, more, x.bytes);
  }

  /** There is some room for output in every call. */
  ghost predicate SomeRoom(room: nat -> nat) {
    forall j: nat :: room(j) > 0
  }

  /**
   * Calls the output function until the block is finished, the plain one for SMALL and for randomised blocks;
   * room says how many bytes call number j may put out.
   */
  method ExpandBlock(k: Lookup, code: seq<byte>, plain: bool, room: nat -> nat) returns (ok: bool, out: seq<byte>, crc: nat)
    requires |code| >= 2 && SomeRoom(room)
    ensures Expanded(out, !ok) == Expand(code, |code| - 2) && crc == Fold(k.step, k.init, out)
  {
    var s := new OutputState(k, code);
    out, ok := [], true;
    NothingBefore(s.Left());
    var corrupt, j := false, 0;
    while !corrupt && !(s.nblock_used == s.save_nblock + 1 && s.state_out_len == 0)
      invariant s.Valid() && s.k == k && Then(out, s.Left()) == Expand(code, |code| - 2)
      invariant s.calculatedBlockCRC == Fold(k.step, k.init, out)
      invariant corrupt ==> s.Left() == Expanded([], true)
      decreases !corrupt, |s.Left().bytes|
    {
      var more;
      ghost var left := s.Left();
      if plain {
        more, corrupt := s.OutputSmall(room(j));
      } else {
        more, corrupt := s.OutputFast(room(j));
      }
      Gathered(out, more, s.Left());
      FoldAppend(k.step, k.init, out, more);
      out := out + more;
      if !corrupt && |more| < room(j) {
        break;
      }
      j := j + 1;
    }
    ok := !corrupt;
    if ok {
      Finished(s);
    }
    assert out + [] == out;
    crc := s.calculatedBlockCRC;
  }

  lemma {:induction false} Finished(s: OutputState)
    requires s.Valid() && s.nblock_used == s.save_nblock + 1 && s.state_out_len == 0
    ensures s.Left() == Expanded([], false)
  {
    NothingPending(s.state_out_ch, From(s.code, s.save_nblock, s.nblock_used));
  }

  // ---- one block, or the trailer ----

  /** The header of the stream: the magic number and the block size. */
  method ReceiveHeader(r: BitReader) returns (st: Status, level: nat)
    requires r.Valid()
    modifies r
    ensures r.Valid() && Agrees(st, level, r.Unread(), ParseHeader(old(r.Unread()))) && (st == Fine ==> 1 <= level <= 9)
  {
    level := 0;
    st := GetMagic(r, STREAM_MAGIC);
    if st != Fine {
      return;
    }
    var x;
    st, x := GetBits(r, 8);
    if st != Fine {
      return;
    }
    if x < 0x30 + 1 || x > 0x30 + 9 {
      return DataError, 0;
    }
    level := x - 0x30;
  }

  /** After the first byte of a trailer: the rest of its magic number and the stored checksum. */
  method ReceiveTrailer(r: BitReader, combinedCRC: nat) returns (st: Status)
    requires r.Valid()
    modifies r
    ensures r.Valid() && Succeeds(st, (), r.Unread(), ParseTrailer(old(r.Unread()), combinedCRC))
  {
    st := GetMagic(r, END_MAGIC[1..]);
    if st != Fine {
      return;
    }
    var stored;
    ghost var s;
    st, stored, s := GetNumber(r, 4);
    if st == Fine && stored != combinedCRC {
      return DataError;
    }
  }

  /** After the first byte of a block: the block's data, expanded and checked. */
  method ReceiveData(r: BitReader, k: Lookup, small: bool, room: nat -> nat, nMax: nat) returns (st: Status, out: seq<byte>, crc: nat)
    requires r.Valid() && nMax <= MAX_BLOCK && SomeRoom(room)
    modifies r
    ensures r.Valid() && Succeeds(st, Data(out, crc), r.Unread(), ParseData(old(r.Unread()), k, nMax))
  {
    out, crc := [], 0;
    st := GetMagic(r, BLOCK_MAGIC[1..]);
    if st != Fine {
      return;
    }
    var stored, code, randomised;
    st, stored, code, randomised := ReceiveBlock(r, small, nMax, k.random);
    if st != Fine {
      return;
    }
    st, out, crc := CheckData(k, code, small || randomised, room, stored);
  }

  /** Expands a block and compares its checksum with the stored one. */
  method CheckData(k: Lookup, code: seq<byte>, plain: bool, room: nat -> nat, stored: nat) returns (st: Status, out: seq<byte>, crc: nat)
    requires SomeRoom(room)
    ensures forall rest: seq<bit> {:trigger Checked(k, Content(stored, code), rest)} ::
      Succeeds(st, Data(out, crc), rest, Checked(k, Content(stored, code), rest))
  {
    out, crc := [], 0;
    if |code| < 2 {
      return DataError, out, crc;
    }
    var ok, calculated;
    ok, out, calculated := ExpandBlock(k, code, plain, room);
    crc := k.final(calculated);
    st := if ok && crc == stored then Fine else DataError;
  }

  // ---- the whole stream ----

  /** The room for output in call number j of block number i. */
  type Rooms = (nat, nat) -> nat

  ghost predicate AlwaysRoom(rooms: Rooms) {
    forall i: nat, j: nat :: rooms(i, j) > 0
  }

  /** One turn: a block or the trailer, when p is what the whole comes to. */
  method ReceiveNext(r: BitReader, k: Lookup, small: bool, room: nat -> nat, nMax: nat, out0: seq<byte>, combined: nat,
                     ghost p: Parsed<seq<byte>>)
    returns (st: Status, done: bool, out: seq<byte>, combinedCRC: nat)
    requires r.Valid() && nMax <= MAX_BLOCK && SomeRoom(room)
    requires p == After(out0, ParseBlocks(r.Unread(), k, nMax, combined))
    modifies r
    ensures r.Valid() && (st != Fine ==> !p.Done?)
    ensures st == Fine && done ==> p == Done(out, r.Unread())
    ensures st == Fine && !done ==> p == After(out, ParseBlocks(r.Unread(), k, nMax, combinedCRC)) && |r.Unread()| < |old(r.Unread())|
  {
    out, done, combinedCRC := out0, false, combined;
    var uc;
    st, uc := GetBits(r, 8);
    if st != Fine {
      return;
    }
    if uc == 0x17 {
      st := ReceiveTrailer(r, combined);
      done := st == Fine;
      if done {
        AfterAll(out0, r.Unread());
      }
    } else if uc != 0x31 {
      st := DataError;
    } else {
      st, out, combinedCRC := AddBlock(r, k, small, room, nMax, out0, combined, p);
    }
  }

  /** A block's data is added to what has come out. */
  method AddBlock(r: BitReader, k: Lookup, small: bool, room: nat -> nat, nMax: nat, out0: seq<byte>, combined: nat,
                  ghost p: Parsed<seq<byte>>)
    returns (st: Status, out: seq<byte>, combinedCRC: nat)
    requires r.Valid() && nMax <= MAX_BLOCK && SomeRoom(room)
    requires var d := ParseData(r.Unread(), k, nMax);
      if d.Done? then p == After(out0, After(d.value.bytes, ParseBlocks(d.rest, k, nMax, k.join(combined, d.value.crc)))) else !p.Done?
    modifies r
    ensures r.Valid() && (st != Fine ==> !p.Done?)
    ensures st == Fine ==> p == After(out, ParseBlocks(r.Unread(), k, nMax, combinedCRC)) && |r.Unread()| <= |old(r.Unread())|
  {
    DataShrinks(r.Unread(), k, nMax);
    var more, blockCRC;
    st, more, blockCRC := ReceiveData(r, k, small, room, nMax);
    combinedCRC := k.join(combined, blockCRC);
    out := out0 + more;
    if st == Fine {
      AfterTwice(out0, more, ParseBlocks(r.Unread(), k, nMax, combinedCRC));
    }
  }

  /** Blocks until the trailer. */
  method ReceiveBlocks(r: BitReader, k: Lookup, small: bool, rooms: Rooms, nMax: nat) returns (st: Status, out: seq<byte>)
    requires r.Valid() && nMax <= MAX_BLOCK && AlwaysRoom(rooms)
    modifies r
    ensures r.Valid() && Succeeds(st, out, r.Unread(), ParseBlocks(old(r.Unread()), k, nMax, 0))
  {
    ghost var p := ParseBlocks(r.Unread(), k, nMax, 0);
    AfterNothing(p);
    out, st := [], Fine;
    var combinedCRC, i, done := 0, 0, false;
    while !done
      invariant r.Valid() && st == Fine
      invariant if done then p == Done(out, r.Unread()) else p == After(out, ParseBlocks(r.Unread(), k, nMax, combinedCRC))
      decreases !done, |r.Unread()|
    {
      var room := (j: nat) => rooms(i, j);
      st, done, out, combinedCRC := ReceiveNext(r, k, small, room, nMax, out, combinedCRC, p);
      if st != Fine {
        return;
      }
      i := i + 1;
    }
  }

  /**
   * Decompresses a stream given in any chunks: it succeeds exactly if the bytes are a stream, and then gives the
   * data they mean, whichever decoder is used and whatever room for output each call has.
   */
  method Decompress(chunks: seq<seq<byte>>, k: Lookup, small: bool, rooms: Rooms) returns (st: Status, out: seq<byte>)
    requires AlwaysRoom(rooms)
    ensures var p := ParseStream(ByteBits(Flat(chunks)), k); (st == Fine <==> p.Done?) && (st == Fine ==> out == p.value)
  {
    out := [];
    var r := new BitReader(chunks);
    var blockSize100k;
    st, blockSize100k := ReceiveHeader(r);
    if st != Fine {
      return;
    }
    st, out := ReceiveBlocks(r, k, small, rooms, 100000 * blockSize100k);
  }

  // ---- both ends ----

  /** Input for one call: the bytes, and whether the call is a flush. */
  datatype Part = Part(data: seq<byte>, flush: bool)

  ghost function AllData(parts: seq<Part>): seq<byte> {
    if parts == [] then [] else AllData(parts[..|parts| - 1]) + parts[|parts| - 1].data
  }

  /** A byte string in pieces of the given sizes, as far as it goes; the last piece is what is left. */
  function Pieces(z: seq<byte>, sizes: seq<nat>): seq<seq<byte>>
    decreases |sizes|
  {
    if sizes == [] then [z]
    else
      var n := if sizes[0] < |z| then sizes[0] else |z|;
      [z[..n]] + Pieces(z[n..], sizes[1..])
  }

  lemma {:induction false} PiecesJoin(z: seq<byte>, sizes: seq<nat>)
    ensures Flat(Pieces(z, sizes)) == z
    decreases |sizes|
  {
    if sizes == [] {
      assert [z][1..] == [] && z + [] == z;
    } else {
      var n := if sizes[0] < |z| then sizes[0] else |z|;
      PiecesJoin(z[n..], sizes[1..]);
      assert z[..n] + z[n..] == z;
    }
  }

  /** Compresses data that arrives in parts. */
  method Compress(k: Lookup, level: nat, parts: seq<Part>, last: seq<byte>) returns (z: seq<byte>, ghost plans: seq<Plan>, ghost pad: nat)
    requires 1 <= level <= 9 && Fits(k)
    ensures PlansOk(plans, k, 100000 * level) && AllRaw(plans) == AllData(parts) + last
    ensures ByteBits(z) == StreamBits(plans, k, level) + Zeros(pad) && pad < 8
  {
    var e := new Encoder(k, level);
    FeedAll(e, parts);
    pad := e.Finish(last);
    z, plans := e.w.zbits, e.plans;
  }

  lemma {:induction false} DataNext(parts: seq<Part>, i: nat)
    requires i < |parts|
    ensures AllData(parts[..i + 1]) == AllData(parts[..i]) + parts[i].data
  {
    assert parts[..i + 1][..i] == parts[..i];
  }

  method FeedAll(e: Encoder, parts: seq<Part>)
    requires e.Valid() && e.fed == []
    modifies e, e.run, e.w
    ensures e.Valid() && e.fed == AllData(parts)
  {
    for i := 0 to |parts|
      invariant e.Valid() && e.fed == AllData(parts[..i])
    {
      DataNext(parts, i);
      e.Feed(parts[i].data, parts[i].flush);
    }
    assert parts[..|parts|] == parts;
  }

  /**
   * Decompression undoes compression: for every input, every way it is handed to the compressor and
   * flushed, every block size, every cut of the compressed bytes into pieces, every room for output in
   * every call, and both decoders.
   */
  method RoundTrip(k: Lookup, level: nat, parts: seq<Part>, last: seq<byte>, sizes: seq<nat>, small: bool, rooms: Rooms)
    returns (st: Status, out: seq<byte>)
    requires 1 <= level <= 9 && Fits(k) && AlwaysRoom(rooms)
    ensures st == Fine && out == AllData(parts) + last
  {
    var z;
    ghost var plans, pad;
    z, plans, pad := Compress(k, level, parts, last);
    PiecesJoin(z, sizes);
    StreamParses(plans, k, level, Zeros(pad));
    st, out := Decompress(Pieces(z, sizes), k, small, rooms);
  }
}
