/** What the bits of a block mean, whatever they are: its bytes, or that they are no block. */
module BlockMeaning {
  import opened Bits
  import opened BlockFormat
  import opened BlockReceiver
  import opened BlockSyntax
  import opened Bytes
  import opened Closing
  import opened Canonical
  import opened ColumnDecoder
  import opened Lookups
  import opened MtfDecoder
  import opened MtfRuns
  import opened MtfWindow
  import opened ParseShrinks
  import opened Randomiser
  import opened SymbolMaps
  import opened SymbolRange

  // ---- the bytes in use, in order ----

  ghost predicate IsNth(u: seq<bool>, i: int, x: int) {
    0 <= x < |u| && u[x] && Used(u, x) == i
  }

  /** The byte with number i among those in use. */
  ghost function NthByte(u: seq<bool>, i: int): byte
    requires |u| == 256
  {
    if exists x :: IsNth(u, i, x) then (var x :| IsNth(u, i, x); x) else 0
  }

  ghost function MapOf(u: seq<bool>): (m: seq<byte>)
    requires |u| == 256
    ensures |m| == 256 && forall i :: 0 <= i < 256 ==> m[i] == NthByte(u, i)
  {
    seq(256, i requires 0 <= i < 256 => NthByte(u, i))
  }

  lemma {:induction false} NthUsed(u: seq<bool>, i: nat, n: nat) returns (x: nat)
    requires n <= |u| && i < Used(u, n)
    ensures IsNth(u, i, x)
    decreases n
  {
    if i < Used(u, n - 1) {
      x := NthUsed(u, i, n - 1);
    } else {
      x := n - 1;
    }
  }

  lemma {:induction false} SameNumber(u: seq<bool>, i: int, x: int, y: int)
    requires IsNth(u, i, x) && IsNth(u, i, y)
    ensures x == y
  {
    if x < y {
      UsedMono(u, x + 1, y);
    } else if y < x {
      UsedMono(u, y + 1, x);
    }
  }

  lemma {:induction false} NthIs(u: seq<bool>, i: int, x: int)
    requires |u| == 256 && IsNth(u, i, x)
    ensures NthByte(u, i) == x
  {
    assert IsNth(u, i, NthByte(u, i));
    SameNumber(u, i, x, NthByte(u, i));
  }

  /** Any array that makeMaps_d has filled holds that map, up to the number of bytes in use. */
  lemma {:induction false} MapIs(m: seq<byte>, u: seq<bool>, i: nat)
    requires Inverts(m, u) && i < Used(u, 256)
    ensures m[i] == MapOf(u)[i]
  {
    var x := NthUsed(u, i, 256);
    NthIs(u, i, x);
  }

  lemma {:induction false} MapInverts(u: seq<bool>)
    requires |u| == 256
    ensures Inverts(MapOf(u), u)
  {
    forall x | 0 <= x < 256 && u[x]
      ensures MapOf(u)[Used(u, x)] == x
    {
      UsedBelow(u, x);
      NthIs(u, Used(u, x), x);
    }
  }

  // ---- the column ----

  ghost predicate FrontBelow(list: seq<byte>, n: nat) {
    n <= |list| && forall i :: 0 <= i < n ==> list[i] < n
  }

  lemma {:induction false} FrontStays(list: seq<byte>, n: nat, j: nat)
    requires FrontBelow(list, n) && j < n
    ensures FrontBelow(MoveToFront(list, j), n)
  {
  }

  /** Only the first n entries of the list ever come to the front. */
  lemma {:induction false} DecodeBelow(list: seq<byte>, syms: seq<int>, n: nat, w: nat)
    requires 0 < n <= |list| && FrontBelow(list, n) && InList(syms, n)
    ensures forall k :: 0 <= k < |Decode(list, syms, w)| ==> Decode(list, syms, w)[k] < n
    decreases |syms|
  {
    if syms != [] {
      if syms[0] == RUNA || syms[0] == RUNB {
        DecodeBelow(list, syms[1..], n, 2 * w);
      } else {
        FrontStays(list, n, syms[0] - 1);
        DecodeBelow(MoveToFront(list, syms[0] - 1), syms[1..], n, 1);
      }
    }
  }

  lemma {:induction false} ColumnIs(m: seq<byte>, u: seq<bool>, body: seq<int>)
    requires Inverts(m, u) && Body(body, Used(u, 256))
    ensures Column(m, body) == Column(MapOf(u), body)
  {
    var n := Used(u, 256);
    DecodeBelow(Identity(), body, n, 1);
    var d := Decode(Identity(), body, 1);
    forall k | 0 <= k < |d|
      ensures m[d[k]] == MapOf(u)[d[k]]
    {
      MapIs(m, u, d[k]);
    }
  }

  // ---- blocks ----

  datatype Content = Content(crc: nat, code: seq<byte>)

  /** The symbols of a block are accepted. */
  ghost predicate Fitting(h: Head, syms: seq<int>, nblockMAX: nat) {
    |h.inUse| == 256 && |syms| > 0 && forall u {:trigger Look(u)} :: Look(u) ==>
      Accepts(MapOf(h.inUse), syms[..|syms| - 1], nblockMAX, h.origPtr)
  }

  /** The bytes they stand for, still run-length coded, and two more. */
  ghost function CodeOf(h: Head, syms: seq<int>, nblockMAX: nat, random: nat -> pos): (code: seq<byte>)
    requires Fitting(h, syms, nblockMAX)
    ensures IsCodeOf(h, syms, nblockMAX, random, code)
  {
    assert Look(0);
    assert IsCodeOf(h, syms, nblockMAX, random, Unwinding(h, syms, nblockMAX, random));
    var code :| IsCodeOf(h, syms, nblockMAX, random, code);
    code
  }

  ghost function Unwinding(h: Head, syms: seq<int>, nblockMAX: nat, random: nat -> pos): seq<byte>
    requires |h.inUse| == 256 && |syms| > 0 && Accepts(MapOf(h.inUse), syms[..|syms| - 1], nblockMAX, h.origPtr)
  {
    var code := Unwound(Column(MapOf(h.inUse), syms[..|syms| - 1]), h.origPtr);
    if h.randomised then Derandomised(random, code) else code
  }

  ghost predicate IsCodeOf(h: Head, syms: seq<int>, nblockMAX: nat, random: nat -> pos, code: seq<byte>)
    requires Fitting(h, syms, nblockMAX)
  {
    forall u {:trigger Look(u)} :: Look(u) ==> code == Unwinding(h, syms, nblockMAX, random)
  }

  lemma {:induction false} FittingIs(h: Head, syms: seq<int>, nblockMAX: nat)
    requires |h.inUse| == 256 && |syms| > 0
    ensures Fitting(h, syms, nblockMAX) <==> Accepts(MapOf(h.inUse), syms[..|syms| - 1], nblockMAX, h.origPtr)
  {
    assert Look(0);
  }

  lemma {:induction false} CodeIs(h: Head, syms: seq<int>, nblockMAX: nat, random: nat -> pos)
    requires |h.inUse| == 256 && |syms| > 0 && Accepts(MapOf(h.inUse), syms[..|syms| - 1], nblockMAX, h.origPtr)
    ensures Fitting(h, syms, nblockMAX) && CodeOf(h, syms, nblockMAX, random) == Unwinding(h, syms, nblockMAX, random)
  {
    assert Look(0);
  }

  ghost function ParseBody(h: Head, nblockMAX: nat, random: nat -> pos, bits: seq<bit>): Parsed<Content> {
    match ParseCoded(h.tables, h.selectors.list, AlphaSize(h.inUse) - 1, bits, 0)
    case Done(syms, rest) =>
      if Fitting(h, syms, nblockMAX) then Done(Content(h.crc, CodeOf(h, syms, nblockMAX, random)), rest) else Bad(Malformed)
    case More => More
    case Bad(why) => Bad(why)
  }

  /** A block after its magic number. */
  ghost function ParseBlock(bits: seq<bit>, nblockMAX: nat, random: nat -> pos): Parsed<Content> {
    match ParseHead(bits, nblockMAX)
    case Done(h, rest) => ParseBody(h, nblockMAX, random, rest)
    case More => More
    case Bad(why) => Bad(why)
  }

  /** A reading method succeeds exactly if the bits have a meaning, and then gives it. */
  ghost predicate Succeeds<T>(st: Status, value: T, after: seq<bit>, p: Parsed<T>) {
    (st.Fine? <==> p.Done?) && (st.Fine? ==> p == Done(value, after))
  }

  lemma {:induction false} CodedShrinks(ts: seq<seq<int>>, sel: seq<byte>, EOB: int, bits: seq<bit>, i: nat)
    ensures Shrinks(ParseCoded(ts, sel, EOB, bits, i), bits)
    decreases |bits|
  {
    if i / G_SIZE < |sel| && sel[i / G_SIZE] < |ts| {
      var p := ReadCoded(ts[sel[i / G_SIZE]], bits);
      if p.Done? && p.value != EOB {
        CodedShrinks(ts, sel, EOB, p.rest, i + 1);
      }
    }
  }

  lemma {:induction false} BlockShrinks(bits: seq<bit>, nblockMAX: nat, random: nat -> pos)
    ensures Shrinks(ParseBlock(bits, nblockMAX, random), bits)
  {
    HeadShrinks(bits, nblockMAX);
    var p := ParseHead(bits, nblockMAX);
    if p.Done? {
      BodyShrinks(p.value, nblockMAX, random, p.rest);
    }
  }

  lemma {:induction false} BodyShrinks(h: Head, nblockMAX: nat, random: nat -> pos, bits: seq<bit>)
    ensures Shrinks(ParseBody(h, nblockMAX, random, bits), bits)
  {
    CodedShrinks(h.tables, h.selectors.list, AlphaSize(h.inUse) - 1, bits, 0);
  }
}
