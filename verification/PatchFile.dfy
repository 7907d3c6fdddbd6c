/** The patch file: a header and three compressed blocks. */
module PatchFile {
  import opened Bits
  import opened BitStream
  import opened BlockReceiver
  import opened Bsdiff
  import opened DiffMeaning
  import opened Bspatch
  import opened Bytes
  import opened Closing
  import opened CompressedSize
  import opened Decompressor
  import opened Lookups
  import opened Offsets
  import opened Replay
  import opened StreamFormat
  import opened StreamMeaning

  const MAGIC: seq<byte> := [0x42, 0x53, 0x44, 0x49, 0x46, 0x46, 0x34, 0x30]
  const HEADER_LEN: nat := 32

  const BLOCK_LEVEL: nat := 9

  method Pack(k: Lookup, parts: seq<Part>, level: nat) returns (z: seq<byte>)
    requires Fits(k) && 1 <= level <= 9
    ensures Compresses(z, AllData(parts), k, level) && |z| <= Longest(|AllData(parts)|)
  {
    ghost var plans, pad;
    z, plans, pad := Compress(k, level, parts, []);
    assert AllData(parts) + [] == AllData(parts);
    MadeWell(z, AllData(parts), k, level, plans, pad);
  }

  ghost predicate Starts(bytes: seq<byte>, z: seq<byte>) {
    |z| <= |bytes| && bytes[..|z|] == z
  }

  /** Reads the block that starts a byte string; bytes after it do not matter. */
  method Unpack(k: Lookup, bytes: seq<byte>, ghost z: seq<byte>, ghost data: seq<byte>, ghost level: nat) returns (ok: bool, out: seq<byte>)
    requires Fits(k)
    ensures Compresses(z, data, k, level) && Starts(bytes, z) ==> ok && out == data
  {
    if Compresses(z, data, k, level) && Starts(bytes, z) {
      StartsStream(bytes, z, data, k, level);
    }
    OneChunk(bytes);
    var rooms: Rooms := (i, j) => 1;
    var st;
    st, out := Decompress([bytes], k, false, rooms);
    ok := st == Fine;
  }

  lemma {:induction false} StartsStream(bytes: seq<byte>, z: seq<byte>, data: seq<byte>, k: Lookup, level: nat)
    requires Compresses(z, data, k, level) && Starts(bytes, z) && Fits(k)
    ensures var p := ParseStream(ByteBits(bytes), k); p.Done? && p.value == data
  {
    var ps, pad :| Made(z, data, k, level, ps, pad);
    assert Look(0);
    var rest := Zeros(pad) + ByteBits(bytes[|z|..]);
    assert bytes == z + bytes[|z|..];
    ByteBitsAppend(z, bytes[|z|..]);
    Assoc(StreamBits(ps, k, level), Zeros(pad), ByteBits(bytes[|z|..]));
    StreamParses(ps, k, level, rest);
  }

  lemma {:induction false} OneChunk(bytes: seq<byte>)
    ensures Flat([bytes]) == bytes
  {
    assert [bytes][1..] == [];
    assert bytes + [] == bytes;
  }

  // ---- writing ----

  /** The control block, written eight bytes at a time. */
  method CtrlParts(ctrl: seq<Triple>) returns (parts: seq<Part>)
    requires AllWritable(ctrl)
    ensures AllData(parts) == CtrlBytes(ctrl)
  {
    parts := [];
    var i := 0;
    assert ctrl[0..] == ctrl && [] + CtrlBytes(ctrl) == CtrlBytes(ctrl);
    while i < |ctrl|
      invariant 0 <= i <= |ctrl| && AllData(parts) + CtrlBytes(ctrl[i..]) == CtrlBytes(ctrl)
    {
      var t := ctrl[i];
      ThreeParts(parts, t, ctrl, i);
      parts := parts + [Part(OffOut(t.x), false)] + [Part(OffOut(t.y), false)] + [Part(OffOut(t.z), false)];
      i := i + 1;
    }
    assert AllData(parts) + [] == AllData(parts);
  }

  lemma {:induction false} DataSnoc(parts: seq<Part>, p: Part)
    ensures AllData(parts + [p]) == AllData(parts) + p.data
  {
    assert (parts + [p])[..|parts|] == parts;
  }

  lemma {:induction false} ThreeParts(parts: seq<Part>, t: Triple, ctrl: seq<Triple>, i: nat)
    requires i < |ctrl| && t == ctrl[i] && AllWritable(ctrl)
    ensures AllData(parts + [Part(OffOut(t.x), false)] + [Part(OffOut(t.y), false)] + [Part(OffOut(t.z), false)]) + CtrlBytes(ctrl[i + 1..])
         == AllData(parts) + CtrlBytes(ctrl[i..])
  {
    var a := parts + [Part(OffOut(t.x), false)];
    var b := a + [Part(OffOut(t.y), false)];
    DataSnoc(parts, Part(OffOut(t.x), false));
    DataSnoc(a, Part(OffOut(t.y), false));
    DataSnoc(b, Part(OffOut(t.z), false));
    assert ctrl[i..][0] == t && ctrl[i..][1..] == ctrl[i + 1..];
    FourJoined(AllData(parts), OffOut(t.x), OffOut(t.y), OffOut(t.z), CtrlBytes(ctrl[i + 1..]));
  }

  lemma {:induction false} FourJoined(a: seq<byte>, x: seq<byte>, y: seq<byte>, z: seq<byte>, rest: seq<byte>)
    ensures a + x + y + z + rest == a + ((x + y + z) + rest)
  {
  }

  ghost predicate Sizes(zc: seq<byte>, zd: seq<byte>, newsize: int) {
    |zc| < OFF_LIMIT && |zd| < OFF_LIMIT && 0 <= newsize < OFF_LIMIT
  }

  function Header(c: nat, d: nat, newsize: nat): (h: seq<byte>)
    requires c < OFF_LIMIT && d < OFF_LIMIT && newsize < OFF_LIMIT
    ensures |h| == HEADER_LEN
  {
    MAGIC + OffOut(c) + OffOut(d) + OffOut(newsize)
  }

  ghost predicate Packs(z: seq<byte>, data: seq<byte>, k: Lookup) {
    Compresses(z, data, k, BLOCK_LEVEL)
  }

  /** The file holds a patch: these triples and blocks, for a new file of this size. */
  ghost predicate Holds(file: seq<byte>, k: Lookup, newsize: nat, p: Patch) {
    exists zc, zd, ze {:trigger Laid(file, k, newsize, p, zc, zd, ze)} :: Laid(file, k, newsize, p, zc, zd, ze)
  }

  ghost predicate Laid(file: seq<byte>, k: Lookup, newsize: nat, p: Patch, zc: seq<byte>, zd: seq<byte>, ze: seq<byte>) {
    && Sizes(zc, zd, newsize) && AllWritable(p.ctrl)
    && Packs(zc, CtrlBytes(p.ctrl), k) && Packs(zd, p.db, k) && Packs(ze, p.eb, k)
    && file == Header(|zc|, |zd|, newsize) + (zc + zd + ze)
  }

  /** What BZ2_bzWrite takes of a block whose length passes through an int. */
  ghost function Cut(data: seq<byte>): seq<byte>
    requires 0 <= AsInt(|data|)
  {
    data[..AsInt(|data|)]
  }

  /** The patch as it gets written. */
  ghost function CutPatch(p: Patch): Patch
    requires 0 <= AsInt(|p.db|) && 0 <= AsInt(|p.eb|)
  {
    Patch(p.ctrl, Cut(p.db), Cut(p.eb))
  }

  /** A block of the patch, or nothing if its length is negative as an int. */
  method WriteBlock(k: Lookup, data: seq<byte>) returns (z: Option<seq<byte>>)
    requires Fits(k)
    ensures z.Some? <==> 0 <= AsInt(|data|)
    ensures z.Some? ==> Packs(z.value, Cut(data), k) && |z.value| < OFF_LIMIT
  {
    var len := AsInt(|data|);
    if len < 0 {
      return None;
    }
    OneData(data[..len]);
    var y := Pack(k, [Part(data[..len], false)], BLOCK_LEVEL);
    FarBelow(len);
    z := Some(y);
  }

  /** The patch turns src into dst and uses up all of its triples and bytes. */
  ghost predicate Rebuilds(p: Patch, src: seq<byte>, dst: seq<byte>) {
    var r := Run(src, |dst|, Progress([], 0, p.ctrl, p.db, p.eb));
    r.Some? && r.value.out == dst && r.value.ctrl == [] && r.value.db == [] && r.value.eb == []
  }

  /** Both blocks have a length that is an int. */
  ghost predicate Short(p: Patch) {
    |p.db| < INT_LIMIT && |p.eb| < INT_LIMIT
  }

  /**
   * bsdiff. The file holds the patch that turns src into dst, except that each block is cut to its length as
   * an int. Nothing is made if such a length is negative, or the triples outgrow what the header can say;
   * neither happens to a patch with short blocks.
   */
  method MakePatch(k: Lookup, src: seq<byte>, dst: seq<byte>) returns (r: Option<seq<byte>>, ghost p: Patch)
    requires Fits(k) && |src| + |dst| < OFF_LIMIT
    ensures Rebuilds(p, src, dst) && (src == [] ==> p.db == []) && IsPatch(src, dst, p)
    ensures Short(p) ==> r.Some?
    ensures r.Some? ==> 0 <= AsInt(|p.db|) && 0 <= AsInt(|p.eb|) && Holds(r.value, k, |dst|, CutPatch(p))
  {
    var q;
    ghost var pos;
    q, pos := Compare(src, dst);
    p := q;
    var parts := CtrlParts(q.ctrl);
    var zc := Pack(k, parts, BLOCK_LEVEL);
    HeaderRoom(p, src, dst, zc);
    var zd := WriteBlock(k, q.db);
    var ze := WriteBlock(k, q.eb);
    if zd.None? || ze.None? || |zc| >= OFF_LIMIT {
      return None, p;
    }
    r := Some(Header(|zc|, |zd.value|, |dst|) + (zc + zd.value + ze.value));
    assert Laid(r.value, k, |dst|, CutPatch(p), zc, zd.value, ze.value);
  }

  /** The compressed triples of a patch with short blocks fit their header field. */
  lemma {:induction false} HeaderRoom(p: Patch, src: seq<byte>, dst: seq<byte>, zc: seq<byte>)
    requires Rebuilds(p, src, dst) && AllWritable(p.ctrl) && |p.ctrl| <= |dst| + 1 && |zc| <= Longest(|CtrlBytes(p.ctrl)|)
    ensures Short(p) ==> |zc| < OFF_LIMIT
  {
    BytesConserved(src, |dst|, Progress([], 0, p.ctrl, p.db, p.eb));
    CtrlLength(p.ctrl);
    if Short(p) {
      FarBelow(|CtrlBytes(p.ctrl)|);
    }
  }

  lemma {:induction false} CtrlLength(ctrl: seq<Triple>)
    requires AllWritable(ctrl)
    ensures |CtrlBytes(ctrl)| == TRIPLE_LEN * |ctrl|
  {
    if ctrl != [] {
      CtrlLength(ctrl[1..]);
    }
  }

  lemma {:induction false} OneData(data: seq<byte>)
    ensures AllData([Part(data, false)]) == data
  {
    DataSnoc([], Part(data, false));
    assert [] + [Part(data, false)] == [Part(data, false)];
    assert [] + data == data;
  }

  // ---- reading ----

  lemma {:induction false} HeaderBack(c: nat, d: nat, newsize: nat, rest: seq<byte>)
    requires c < OFF_LIMIT && d < OFF_LIMIT && newsize < OFF_LIMIT
    ensures var f := Header(c, d, newsize) + rest;
      f[..8] == MAGIC && OffIn(f[8..16]) == c && OffIn(f[16..24]) == d && OffIn(f[24..32]) == newsize && f[32..] == rest
  {
    HeaderSlices(MAGIC, OffOut(c), OffOut(d), OffOut(newsize), rest);
    OffBack(c);
    OffBack(d);
    OffBack(newsize);
  }

  lemma {:induction false} HeaderSlices(m: seq<byte>, a: seq<byte>, b: seq<byte>, c: seq<byte>, rest: seq<byte>)
    requires |m| == |a| == |b| == |c| == 8
    ensures var f := m + a + b + c + rest; f[..8] == m && f[8..16] == a && f[16..24] == b && f[24..32] == c && f[32..] == rest
  {
  }

  lemma {:induction false} BlocksAt(zc: seq<byte>, zd: seq<byte>, ze: seq<byte>)
    ensures var f := zc + zd + ze; Starts(f, zc) && Starts(From(f, |zc|), zd) && Starts(From(f, |zc| + |zd|), ze)
  {
  }

  /** What follows offset n, which may lie beyond the end of the file. */
  function From(file: seq<byte>, n: nat): seq<byte> {
    if n <= |file| then file[n..] else []
  }

  /** The header's three numbers, or nothing if it is not one. */
  method ReadHeader(file: seq<byte>, ghost c0: nat, ghost d0: nat, ghost n0: nat, ghost rest: seq<byte>)
    returns (ok: bool, c: nat, d: nat, newsize: nat)
    ensures ok ==> |file| >= HEADER_LEN
    ensures c0 < OFF_LIMIT && d0 < OFF_LIMIT && n0 < OFF_LIMIT && file == Header(c0, d0, n0) + rest ==>
              ok && c == c0 && d == d0 && newsize == n0 && file[HEADER_LEN..] == rest
  {
    if c0 < OFF_LIMIT && d0 < OFF_LIMIT && n0 < OFF_LIMIT {
      HeaderBack(c0, d0, n0, rest);
    }
    if |file| < HEADER_LEN || file[..8] != MAGIC {
      return false, 0, 0, 0;
    }
    var x, y, z := OffIn(file[8..16]), OffIn(file[16..24]), OffIn(file[24..32]);
    if x < 0 || y < 0 || z < 0 {
      return false, 0, 0, 0;
    }
    return true, x, y, z;
  }

  /** The three blocks and the size of the new file. */
  method ReadPatch(k: Lookup, file: seq<byte>, ghost n0: nat, ghost cs: seq<byte>, ghost ds: seq<byte>, ghost es: seq<byte>,
                   ghost zc: seq<byte>, ghost zd: seq<byte>, ghost ze: seq<byte>)
    returns (ok: bool, newsize: nat, ctrl: seq<byte>, db: seq<byte>, eb: seq<byte>)
    requires Fits(k)
    ensures Sizes(zc, zd, n0) && file == Header(|zc|, |zd|, n0) + (zc + zd + ze) && Packs(zc, cs, k) && Packs(zd, ds, k) && Packs(ze, es, k) ==>
              ok && newsize == n0 && ctrl == cs && db == ds && eb == es
  {
    ctrl, db, eb := [], [], [];
    var c, d;
    ok, c, d, newsize := ReadHeader(file, |zc|, |zd|, n0, zc + zd + ze);
    if ok {
      ok, ctrl, db, eb := ReadBlocks(k, file[HEADER_LEN..], c, d, zc, zd, ze, cs, ds, es);
    }
  }

  method ReadBlocks(k: Lookup, blocks: seq<byte>, c: nat, d: nat, ghost zc: seq<byte>, ghost zd: seq<byte>, ghost ze: seq<byte>,
                    ghost cs: seq<byte>, ghost ds: seq<byte>, ghost es: seq<byte>)
    returns (ok: bool, ctrl: seq<byte>, db: seq<byte>, eb: seq<byte>)
    requires Fits(k)
    ensures blocks == zc + zd + ze && c == |zc| && d == |zd| && Packs(zc, cs, k) && Packs(zd, ds, k) && Packs(ze, es, k) ==>
              ok && ctrl == cs && db == ds && eb == es
  {
    BlocksAt(zc, zd, ze);
    var okc, okd, oke;
    okc, ctrl := Unpack(k, blocks, zc, cs, BLOCK_LEVEL);
    okd, db := Unpack(k, From(blocks, c), zd, ds, BLOCK_LEVEL);
    oke, eb := Unpack(k, From(blocks, c + d), ze, es, BLOCK_LEVEL);
    ok := okc && okd && oke;
  }

  /** bspatch: a file that holds a patch is applied triple by triple, with the checks of the source. */
  method ApplyPatch(k: Lookup, src: seq<byte>, file: seq<byte>, prompt: Ends, ghost n: nat, ghost p: Patch) returns (r: Applied)
    requires Fits(k)
    ensures Holds(file, k, n, p) ==> r == Outcome(Patched(src, n, p.ctrl, p.db, p.eb, prompt))
  {
    ghost var zc, zd, ze, cs := [], [], [], [];
    if Holds(file, k, n, p) {
      zc, zd, ze := Contents(file, k, n, p);
      cs := CtrlBytes(p.ctrl);
      CtrlBack(p.ctrl);
    }
    var ok, newsize, ctrl, db, eb := ReadPatch(k, file, n, cs, p.db, p.eb, zc, zd, ze);
    if !ok {
      return Corrupted;
    }
    r := Apply(src, newsize, ctrl, db, eb, prompt);
  }

  lemma {:induction false} Contents(file: seq<byte>, k: Lookup, newsize: nat, p: Patch)
    returns (zc: seq<byte>, zd: seq<byte>, ze: seq<byte>)
    requires Holds(file, k, newsize, p)
    ensures Laid(file, k, newsize, p, zc, zd, ze)
  {
    zc, zd, ze :| Laid(file, k, newsize, p, zc, zd, ze);
  }

  /** What becomes of a patch that was written with its blocks cut. */
  lemma {:induction false} CutPatchFails(p: Patch, src: seq<byte>, dst: seq<byte>, prompt: Ends)
    requires Rebuilds(p, src, dst) && 0 <= AsInt(|p.db|) && 0 <= AsInt(|p.eb|)
    ensures var c := CutPatch(p); var r := Outcome(Patched(src, |dst|, c.ctrl, c.db, c.eb, prompt));
      r == if Short(p) then Rebuilt(dst) else Corrupted
  {
    var q := Progress([], 0, p.ctrl, p.db, p.eb);
    if Short(p) {
      ShortBlocks(src, |dst|, q, NOT_ENDED, prompt);
      assert CutPatch(p) == p;
    } else {
      CutBlocks(src, |dst|, q, AsInt(|p.db|), AsInt(|p.eb|), NOT_ENDED, prompt);
    }
  }

  /**
   * Both ends: patching gives the new file back exactly if both blocks of the patch are shorter than 2^31 bytes,
   * which they are if the new file is; otherwise no patch is made or it is refused, never a wrong file. From
   * an empty old file the extra block is the new file, and only its size decides.
   */
  method PatchRoundTrip(k: Lookup, src: seq<byte>, dst: seq<byte>, prompt: Ends) returns (r: Option<Applied>, ghost p: Patch)
    requires Fits(k) && |src| + |dst| < OFF_LIMIT
    ensures Rebuilds(p, src, dst) && |p.db| + |p.eb| == |dst| && IsPatch(src, dst, p)
    ensures r == Some(Rebuilt(dst)) <==> Short(p)
    ensures !Short(p) ==> r == None || r == Some(Corrupted)
    ensures |dst| < INT_LIMIT ==> r == Some(Rebuilt(dst))
    ensures src == [] ==> (r == Some(Rebuilt(dst)) <==> |dst| < INT_LIMIT)
  {
    var file;
    file, p := MakePatch(k, src, dst);
    BytesConserved(src, |dst|, Progress([], 0, p.ctrl, p.db, p.eb));
    if file.None? {
      return None, p;
    }
    CutPatchFails(p, src, dst, prompt);
    var a := ApplyPatch(k, src, file.value, prompt, |dst|, CutPatch(p));
    r := Some(a);
  }
}
