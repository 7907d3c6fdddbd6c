/** The fields of a compressed block as bit strings: how each is written, and that reading undoes it. */
module BlockSyntax {
  import opened Arith
  import opened Bits
  import opened Bytes
  import opened Canonical
  import opened MtfRuns
  import opened MtfWindow

  const G_SIZE: nat := 50
  const GROUP: nat := 16

  // ---- numbers ----

  ghost function ParseBits(bits: seq<bit>, n: nat): Parsed<nat> {
    if |bits| < n then More else Done(ValueOf(bits[..n]), bits[n..])
  }

  lemma {:induction false} BitsBack(v: nat, n: nat, rest: seq<bit>)
    requires v < Pow2(n)
    ensures ParseBits(BitsOf(v, n) + rest, n) == Done(v, rest)
  {
    BitsThenValue(v, n);
    var bits := BitsOf(v, n) + rest;
    assert bits[..n] == BitsOf(v, n) && bits[n..] == rest;
  }

  // ---- the table of bytes in use ----

  ghost function BoolBits(s: seq<bool>): (r: seq<bit>)
    ensures |r| == |s|
  {
    if s == [] then [] else [if s[0] then 1 else 0] + BoolBits(s[1..])
  }

  ghost function ParseBools(bits: seq<bit>, n: nat): Parsed<seq<bool>> {
    if n == 0 then Done([], bits)
    else if bits == [] then More
    else match ParseBools(bits[1..], n - 1)
      case Done(v, rest) => Done([bits[0] == 1] + v, rest)
      case More => More
      case Bad(why) => Bad(why)
  }

  lemma {:induction false} BoolsBack(s: seq<bool>, rest: seq<bit>)
    ensures ParseBools(BoolBits(s) + rest, |s|) == Done(s, rest)
  {
    if s == [] {
      assert BoolBits(s) + rest == rest;
    } else {
      var b: bit := if s[0] then 1 else 0;
      var bits := BoolBits(s) + rest;
      BoolsBack(s[1..], rest);
      assert bits == [b] + (BoolBits(s[1..]) + rest);
      assert bits[1..] == BoolBits(s[1..]) + rest;
      assert ParseBools(bits, |s|) == Done([s[0]] + s[1..], rest);
      assert [s[0]] + s[1..] == s;
    }
  }

  /** The 256 flags in 16 groups of 16: which groups have a set flag. */
  ghost function GroupFlags(u: seq<bool>): (g: seq<bool>)
    requires |u| % GROUP == 0
    ensures |g| == |u| / GROUP
  {
    if u == [] then [] else [true in u[..GROUP]] + GroupFlags(u[GROUP..])
  }

  /** The flags of those groups. */
  ghost function GroupBits(u: seq<bool>): seq<bit>
    requires |u| % GROUP == 0
  {
    if u == [] then [] else OneGroupBits(u[..GROUP]) + GroupBits(u[GROUP..])
  }

  ghost function OneGroupBits(x: seq<bool>): seq<bit> {
    if true in x then BoolBits(x) else []
  }

  ghost function ParseOneGroup(flag: bool, bits: seq<bit>): Parsed<seq<bool>> {
    if flag then ParseBools(bits, GROUP) else Done(NoneSet(GROUP), bits)
  }

  lemma {:induction false} OneGroupBack(x: seq<bool>, rest: seq<bit>)
    requires |x| == GROUP
    ensures ParseOneGroup(true in x, OneGroupBits(x) + rest) == Done(x, rest)
  {
    if true in x {
      BoolsBack(x, rest);
    } else {
      NoneTrue(x);
      assert [] + rest == rest;
    }
  }

  ghost function NoneSet(n: nat): (s: seq<bool>)
    ensures |s| == n && forall i :: 0 <= i < n ==> !s[i]
  {
    seq(n, _ => false)
  }

  lemma {:induction false} NoneTrue(x: seq<bool>)
    requires true !in x
    ensures x == NoneSet(|x|)
  {
    forall i | 0 <= i < |x|
      ensures !x[i]
    {
      assert x[i] in x;
    }
  }

  ghost function ParseGroups(g: seq<bool>, bits: seq<bit>): Parsed<seq<bool>> {
    if g == [] then Done([], bits)
    else
      match ParseOneGroup(g[0], bits)
      case Done(x, rest) =>
        (match ParseGroups(g[1..], rest)
         case Done(y, rest') => Done(x + y, rest')
         case More => More
         case Bad(why) => Bad(why))
      case More => More
      case Bad(why) => Bad(why)
  }

  lemma {:induction false} ParseGroupsCons(flag: bool, g: seq<bool>, bits: seq<bit>, x: seq<bool>, mid: seq<bit>, y: seq<bool>, rest: seq<bit>)
    requires ParseOneGroup(flag, bits) == Done(x, mid) && ParseGroups(g, mid) == Done(y, rest)
    ensures ParseGroups([flag] + g, bits) == Done(x + y, rest)
  {
    assert ([flag] + g)[1..] == g;
  }

  lemma {:induction false} GroupsBack(u: seq<bool>, rest: seq<bit>)
    requires |u| % GROUP == 0
    ensures ParseGroups(GroupFlags(u), GroupBits(u) + rest) == Done(u, rest)
  {
    if u == [] {
      assert GroupBits(u) + rest == rest;
    } else {
      var x, y := u[..GROUP], u[GROUP..];
      GroupsBack(y, rest);
      var mid := GroupBits(y) + rest;
      OneGroupBack(x, mid);
      ParseGroupsCons(true in x, GroupFlags(y), OneGroupBits(x) + mid, x, mid, y, rest);
      Assoc(OneGroupBits(x), GroupBits(y), rest);
      assert x + y == u;
    }
  }

  ghost function MapBits(u: seq<bool>): seq<bit>
    requires |u| % GROUP == 0
  {
    BoolBits(GroupFlags(u)) + GroupBits(u)
  }

  ghost function ParseMap(bits: seq<bit>): Parsed<seq<bool>> {
    match ParseBools(bits, GROUP)
    case Done(g, rest) => ParseGroups(g, rest)
    case More => More
    case Bad(why) => Bad(why)
  }

  lemma {:induction false} MapBack(u: seq<bool>, rest: seq<bit>)
    requires |u| == 256
    ensures ParseMap(MapBits(u) + rest) == Done(u, rest)
  {
    BoolsBack(GroupFlags(u), GroupBits(u) + rest);
    GroupsBack(u, rest);
    assert MapBits(u) + rest == BoolBits(GroupFlags(u)) + (GroupBits(u) + rest);
  }

  // ---- selectors ----

  ghost function UnaryBits(j: nat): seq<bit> {
    if j == 0 then [0] else [1] + UnaryBits(j - 1)
  }

  /** j ones have been read; nGroups or more are an error. */
  ghost function ParseUnary(bits: seq<bit>, nGroups: nat, j: nat): Parsed<nat>
    decreases |bits|
  {
    if bits == [] then More
    else if bits[0] == 0 then Done(j, bits[1..])
    else if j + 1 >= nGroups then Bad(Malformed)
    else ParseUnary(bits[1..], nGroups, j + 1)
  }

  lemma {:induction false} UnaryBack(k: nat, nGroups: nat, j: nat, rest: seq<bit>)
    requires j + k < nGroups
    ensures ParseUnary(UnaryBits(k) + rest, nGroups, j) == Done(j + k, rest)
    decreases k
  {
    var bits := UnaryBits(k) + rest;
    if k == 0 {
      assert bits[1..] == rest;
    } else {
      assert bits[1..] == UnaryBits(k - 1) + rest;
      UnaryBack(k - 1, nGroups, j + 1, rest);
    }
  }

  ghost function UnariesBits(js: seq<nat>): seq<bit> {
    if js == [] then [] else UnaryBits(js[0]) + UnariesBits(js[1..])
  }

  ghost function ParseUnaries(bits: seq<bit>, nGroups: nat, n: nat): Parsed<seq<nat>>
    decreases n
  {
    if n == 0 then Done([], bits)
    else match ParseUnary(bits, nGroups, 0)
      case Done(j, rest) =>
        (match ParseUnaries(rest, nGroups, n - 1)
         case Done(js, rest') => Done([j] + js, rest')
         case More => More
         case Bad(why) => Bad(why))
      case More => More
      case Bad(why) => Bad(why)
  }

  lemma {:induction false} UnariesBack(js: seq<nat>, nGroups: nat, rest: seq<bit>)
    requires forall i :: 0 <= i < |js| ==> js[i] < nGroups
    ensures ParseUnaries(UnariesBits(js) + rest, nGroups, |js|) == Done(js, rest)
  {
    if js == [] {
      assert UnariesBits(js) + rest == rest;
    } else {
      UnariesBack(js[1..], nGroups, rest);
      UnaryBack(js[0], nGroups, 0, UnariesBits(js[1..]) + rest);
      assert UnariesBits(js) + rest == UnaryBits(js[0]) + (UnariesBits(js[1..]) + rest);
      assert [js[0]] + js[1..] == js;
    }
  }

  /** Selectors as positions in a move-to-front list. */
  ghost function Ranked(pos: seq<byte>, sel: seq<byte>): (js: seq<nat>)
    requires forall i :: 0 <= i < |sel| ==> sel[i] in pos
    ensures |js| == |sel| && forall i :: 0 <= i < |js| ==> js[i] < |pos|
    decreases |sel|
  {
    if sel == [] then []
    else
      var j := IndexOf(pos, sel[0]);
      StillIn(pos, j, sel[1..]);
      [j] + Ranked(MoveToFront(pos, j), sel[1..])
  }

  ghost function Unranked(pos: seq<byte>, js: seq<nat>): (sel: seq<byte>)
    requires forall i :: 0 <= i < |js| ==> js[i] < |pos|
    ensures |sel| == |js|
    decreases |js|
  {
    if js == [] then [] else [pos[js[0]]] + Unranked(MoveToFront(pos, js[0]), js[1..])
  }

  lemma {:induction false} StillIn(pos: seq<byte>, j: nat, sel: seq<byte>)
    requires j < |pos| && forall i :: 0 <= i < |sel| ==> sel[i] in pos
    ensures forall i :: 0 <= i < |sel| ==> sel[i] in MoveToFront(pos, j)
  {
    forall i | 0 <= i < |sel|
      ensures sel[i] in MoveToFront(pos, j)
    {
      var k :| 0 <= k < |pos| && pos[k] == sel[i];
      assert MoveToFront(pos, j)[if k < j then k + 1 else if k == j then 0 else k] == sel[i];
    }
  }

  lemma {:induction false} UnrankedCons(pos: seq<byte>, j: nat, js: seq<nat>)
    requires j < |pos| && forall i :: 0 <= i < |js| ==> js[i] < |pos|
    ensures Unranked(pos, [j] + js) == [pos[j]] + Unranked(MoveToFront(pos, j), js)
  {
    assert ([j] + js)[1..] == js;
  }

  lemma {:induction false} RankedBack(pos: seq<byte>, sel: seq<byte>)
    requires forall i :: 0 <= i < |sel| ==> sel[i] in pos
    ensures Unranked(pos, Ranked(pos, sel)) == sel
    decreases |sel|
  {
    if sel != [] {
      var j := IndexOf(pos, sel[0]);
      StillIn(pos, j, sel[1..]);
      RankedBack(MoveToFront(pos, j), sel[1..]);
      UnrankedCons(pos, j, Ranked(MoveToFront(pos, j), sel[1..]));
      assert [sel[0]] + sel[1..] == sel;
    }
  }

  // ---- code lengths ----

  ghost function DeltaBits(curr: int, l: int): seq<bit>
    decreases if curr < l then l - curr else curr - l
  {
    if curr < l then [1, 0] + DeltaBits(curr + 1, l)
    else if curr > l then [1, 1] + DeltaBits(curr - 1, l)
    else [0]
  }

  ghost function ParseDelta(bits: seq<bit>, curr: int): Parsed<int>
    decreases |bits|
  {
    if curr < 1 || curr > MAX_LEN then Bad(Malformed)
    else if bits == [] then More
    else if bits[0] == 0 then Done(curr, bits[1..])
    else if |bits| < 2 then More
    else ParseDelta(bits[2..], if bits[1] == 0 then curr + 1 else curr - 1)
  }

  lemma {:induction false} DeltaBack(curr: int, l: int, rest: seq<bit>)
    requires 1 <= curr <= MAX_LEN && 1 <= l <= MAX_LEN
    ensures ParseDelta(DeltaBits(curr, l) + rest, curr) == Done(l, rest)
    decreases if curr < l then l - curr else curr - l
  {
    var bits := DeltaBits(curr, l) + rest;
    if curr < l {
      assert bits[2..] == DeltaBits(curr + 1, l) + rest;
      DeltaBack(curr + 1, l, rest);
    } else if curr > l {
      assert bits[2..] == DeltaBits(curr - 1, l) + rest;
      DeltaBack(curr - 1, l, rest);
    } else {
      assert bits[1..] == rest;
    }
  }

  ghost function LengthsBits(curr: int, len: seq<int>): seq<bit>
    decreases |len|
  {
    if len == [] then [] else DeltaBits(curr, len[0]) + LengthsBits(len[0], len[1..])
  }

  ghost function ParseLengths(bits: seq<bit>, curr: int, n: nat): Parsed<seq<int>>
    decreases n
  {
    if n == 0 then Done([], bits)
    else match ParseDelta(bits, curr)
      case Done(l, rest) =>
        (match ParseLengths(rest, l, n - 1)
         case Done(len, rest') => Done([l] + len, rest')
         case More => More
         case Bad(why) => Bad(why))
      case More => More
      case Bad(why) => Bad(why)
  }

  lemma {:induction false} LengthsBack(curr: int, len: seq<int>, rest: seq<bit>)
    requires 1 <= curr <= MAX_LEN && forall i :: 0 <= i < |len| ==> 1 <= len[i] <= MAX_LEN
    ensures ParseLengths(LengthsBits(curr, len) + rest, curr, |len|) == Done(len, rest)
    decreases |len|
  {
    if len == [] {
      assert LengthsBits(curr, len) + rest == rest;
    } else {
      LengthsBack(len[0], len[1..], rest);
      LengthBefore(curr, len[0], len[1..], LengthsBits(len[0], len[1..]) + rest, rest);
      Assoc(DeltaBits(curr, len[0]), LengthsBits(len[0], len[1..]), rest);
      assert [len[0]] + len[1..] == len;
    }
  }

  lemma {:induction false} LengthBefore(curr: int, l: int, len: seq<int>, bits: seq<bit>, rest: seq<bit>)
    requires 1 <= curr <= MAX_LEN && 1 <= l <= MAX_LEN && ParseLengths(bits, l, |len|) == Done(len, rest)
    ensures ParseLengths(DeltaBits(curr, l) + bits, curr, |len| + 1) == Done([l] + len, rest)
  {
    DeltaBack(curr, l, bits);
  }

  ghost function TableBits(len: seq<int>): seq<bit>
    requires Lengths(len)
  {
    BitsOf(len[0], 5) + LengthsBits(len[0], len)
  }

  ghost function ParseTable(bits: seq<bit>, alphaSize: nat): Parsed<seq<int>> {
    match ParseBits(bits, 5)
    case Done(curr, rest) => ParseLengths(rest, curr, alphaSize)
    case More => More
    case Bad(why) => Bad(why)
  }

  lemma {:induction false} FiveBitsBack(v: nat, rest: seq<bit>)
    requires v < 32
    ensures ParseBits(BitsOf(v, 5) + rest, 5) == Done(v, rest)
  {
    assert Pow2(5) == 32;
    BitsBack(v, 5, rest);
  }

  lemma {:induction false} TableBack(len: seq<int>, rest: seq<bit>)
    requires Lengths(len)
    ensures ParseTable(TableBits(len) + rest, |len|) == Done(len, rest)
  {
    LengthsBack(len[0], len, rest);
    FiveBitsBack(len[0], LengthsBits(len[0], len) + rest);
    Assoc(BitsOf(len[0], 5), LengthsBits(len[0], len), rest);
  }

  ghost predicate AllLengths(ts: seq<seq<int>>, alphaSize: nat) {
    forall t :: 0 <= t < |ts| ==> Lengths(ts[t]) && |ts[t]| == alphaSize
  }

  ghost function TablesBits(ts: seq<seq<int>>, alphaSize: nat): seq<bit>
    requires AllLengths(ts, alphaSize)
  {
    if ts == [] then [] else TableBits(ts[0]) + TablesBits(ts[1..], alphaSize)
  }

  ghost function ParseTables(bits: seq<bit>, nGroups: nat, alphaSize: nat): Parsed<seq<seq<int>>>
    decreases nGroups
  {
    if nGroups == 0 then Done([], bits)
    else match ParseTable(bits, alphaSize)
      case Done(len, rest) =>
        (match ParseTables(rest, nGroups - 1, alphaSize)
         case Done(ts, rest') => Done([len] + ts, rest')
         case More => More
         case Bad(why) => Bad(why))
      case More => More
      case Bad(why) => Bad(why)
  }

  lemma {:induction false} TablesBack(ts: seq<seq<int>>, alphaSize: nat, rest: seq<bit>)
    requires AllLengths(ts, alphaSize)
    ensures ParseTables(TablesBits(ts, alphaSize) + rest, |ts|, alphaSize) == Done(ts, rest)
  {
    if ts == [] {
      assert TablesBits(ts, alphaSize) + rest == rest;
    } else {
      TablesBack(ts[1..], alphaSize, rest);
      TableBack(ts[0], TablesBits(ts[1..], alphaSize) + rest);
      assert TablesBits(ts, alphaSize) + rest == TableBits(ts[0]) + (TablesBits(ts[1..], alphaSize) + rest);
      assert [ts[0]] + ts[1..] == ts;
    }
  }

  // ---- symbols ----

  /** One symbol of a code with these lengths. */
  ghost function ReadCoded(len: seq<int>, bits: seq<bit>): (p: Parsed<int>)
    ensures p.Done? ==> 0 <= p.value < |len| && |p.rest| < |bits|
    ensures p != Bad(TooMany)
  {
    ReadsSymbol(len, bits, 1);
    Reads(len, bits, 1)
  }

  /** The symbols from number i on, up to the end mark, by the code lengths alone. */
  ghost function ParseCoded(ts: seq<seq<int>>, sel: seq<byte>, EOB: int, bits: seq<bit>, i: nat): Parsed<seq<int>>
    decreases |bits|
  {
    if i / G_SIZE >= |sel| || sel[i / G_SIZE] >= |ts| then Bad(Malformed)
    else match ReadCoded(ts[sel[i / G_SIZE]], bits)
      case Done(s, rest) =>
        if s == EOB then Done([s], rest)
        else
          (match ParseCoded(ts, sel, EOB, rest, i + 1)
           case Done(v, rest') => Done([s] + v, rest')
           case More => More
           case Bad(why) => Bad(why))
      case More => More
      case Bad(why) => Bad(why)
  }

  ghost function SymbolBits(len: seq<int>, s: int): seq<bit>
    requires 0 <= s < |len| && 0 <= len[s]
  {
    BitsOf(Code(len, s), len[s])
  }

  lemma {:induction false} SymbolBack(len: seq<int>, s: nat, rest: seq<bit>)
    requires Lengths(len) && Kraft(len, MAX_LEN) <= Pow2(MAX_LEN) && s < |len|
    ensures ReadCoded(len, SymbolBits(len, s) + rest) == Done(s, rest)
  {
    CodeFits(len, s);
    ReadsBack(len, s, rest, 1);
  }

  /** Every fifty symbols the next selector says which code is used. */
  ghost predicate Choices(ts: seq<seq<int>>, sel: seq<byte>, syms: seq<int>) {
    && (forall i :: 0 <= i < |sel| ==> sel[i] < |ts|)
    && (forall i :: 0 <= i < |syms| ==> i / G_SIZE < |sel|)
    && (forall i, t {:trigger Coded(ts[t], syms[i])} :: 0 <= i < |syms| && 0 <= t < |ts| ==> Coded(ts[t], syms[i]))
  }

  ghost predicate Coded(len: seq<int>, s: int) {
    0 <= s < |len| && 0 < len[s]
  }

  ghost predicate AllKraft(ts: seq<seq<int>>) {
    forall t :: 0 <= t < |ts| ==> Lengths(ts[t]) && Kraft(ts[t], MAX_LEN) <= Pow2(MAX_LEN)
  }

  ghost function SymbolsBits(ts: seq<seq<int>>, sel: seq<byte>, syms: seq<int>, i: nat): seq<bit>
    requires Choices(ts, sel, syms) && i <= |syms|
    decreases |syms| - i
  {
    if i == |syms| then []
    else
      var t := sel[i / G_SIZE];
      assert Coded(ts[t], syms[i]);
      SymbolBits(ts[t], syms[i]) + SymbolsBits(ts, sel, syms, i + 1)
  }

  /** The end-of-block symbol comes last and only there. */
  ghost predicate Ended(syms: seq<int>, EOB: int) {
    |syms| > 0 && forall i :: 0 <= i < |syms| ==> (syms[i] == EOB <==> i == |syms| - 1)
  }

  lemma {:induction false} ReadAt(ts: seq<seq<int>>, sel: seq<byte>, syms: seq<int>, i: nat, more: seq<bit>)
    requires AllKraft(ts) && Choices(ts, sel, syms) && i < |syms|
    ensures var t := sel[i / G_SIZE]; Coded(ts[t], syms[i]) && ReadCoded(ts[t], SymbolBits(ts[t], syms[i]) + more) == Done(syms[i], more)
  {
    var t := sel[i / G_SIZE];
    assert Coded(ts[t], syms[i]);
    SymbolBack(ts[t], syms[i], more);
  }

  lemma {:induction false} SymbolsUnfold(ts: seq<seq<int>>, sel: seq<byte>, syms: seq<int>, i: nat, rest: seq<bit>)
    requires Choices(ts, sel, syms) && i < |syms| && Coded(ts[sel[i / G_SIZE]], syms[i])
    ensures SymbolsBits(ts, sel, syms, i) + rest
         == SymbolBits(ts[sel[i / G_SIZE]], syms[i]) + (SymbolsBits(ts, sel, syms, i + 1) + rest)
  {
    Assoc(SymbolBits(ts[sel[i / G_SIZE]], syms[i]), SymbolsBits(ts, sel, syms, i + 1), rest);
  }

  /** The entropy stage round trips for every choice of codes that satisfy Kraft and every choice of selectors. */
  lemma {:induction false} SymbolsBack(ts: seq<seq<int>>, sel: seq<byte>, syms: seq<int>, EOB: int, rest: seq<bit>, i: nat)
    requires AllKraft(ts) && Choices(ts, sel, syms) && Ended(syms, EOB) && i < |syms|
    ensures ParseCoded(ts, sel, EOB, SymbolsBits(ts, sel, syms, i) + rest, i) == Done(syms[i..], rest)
    decreases |syms| - i
  {
    var mid := SymbolsBits(ts, sel, syms, i + 1) + rest;
    ReadAt(ts, sel, syms, i, mid);
    SymbolsUnfold(ts, sel, syms, i, rest);
    if i + 1 < |syms| {
      SymbolsBack(ts, sel, syms, EOB, rest, i + 1);
    } else {
      assert mid == rest;
    }
    SymbolsJoin(ts, sel, EOB, SymbolsBits(ts, sel, syms, i) + rest, i, syms, mid, rest);
  }

  lemma {:induction false} SymbolsJoin(ts: seq<seq<int>>, sel: seq<byte>, EOB: int, bits: seq<bit>, i: nat, syms: seq<int>, mid: seq<bit>, rest: seq<bit>)
    requires Ended(syms, EOB) && i < |syms| && i / G_SIZE < |sel| && sel[i / G_SIZE] < |ts|
    requires ReadCoded(ts[sel[i / G_SIZE]], bits) == Done(syms[i], mid)
    requires if i + 1 == |syms| then mid == rest else ParseCoded(ts, sel, EOB, mid, i + 1) == Done(syms[i + 1..], rest)
    ensures ParseCoded(ts, sel, EOB, bits, i) == Done(syms[i..], rest)
  {
    assert [syms[i]] + syms[i + 1..] == syms[i..];
    if i + 1 == |syms| {
      assert syms[i..] == [syms[i]];
    }
  }

  // ---- the decoder's tables ----

  /** The tables one group of symbols is read with. */
  datatype Decoder = Decoder(limit: seq<int>, base: seq<int>, perm: seq<int>, minLen: nat)

  ghost predicate Sized(d: Decoder) {
    |d.limit| == |d.base| == |d.perm| == MAX_ALPHA_SIZE && 1 <= d.minLen <= MAX_LEN
  }

  ghost predicate AllSized(ds: seq<Decoder>) {
    forall t :: 0 <= t < |ds| ==> Sized(ds[t])
  }

  ghost function ReadSymbol(d: Decoder, bits: seq<bit>): (r: Parsed<int>)
    requires Sized(d)
    ensures r.Done? ==> |r.rest| < |bits|
  {
    ReadShrinks(d, bits, d.minLen);
    ReadCode(d.limit, d.base, d.perm, bits, d.minLen)
  }

  lemma {:induction false} ReadShrinks(d: Decoder, bits: seq<bit>, zn: nat)
    requires Sized(d) && 1 <= zn <= MAX_LEN + 1
    ensures var r := ReadCode(d.limit, d.base, d.perm, bits, zn); r.Done? ==> |r.rest| < |bits|
    decreases MAX_LEN + 1 - zn
  {
    if |bits| >= zn && zn <= MAX_LEN && ValueOf(bits[..zn]) > d.limit[zn] {
      ReadShrinks(d, bits, zn + 1);
    }
  }

  /** Symbols from number i on, up to the end-of-block symbol, as the tables read them. */
  ghost function ParseSymbols(ds: seq<Decoder>, sel: seq<byte>, EOB: int, bits: seq<bit>, i: nat): Parsed<seq<int>>
    requires AllSized(ds) && forall k :: 0 <= k < |sel| ==> sel[k] < |ds|
    decreases |bits|
  {
    if i / G_SIZE >= |sel| then Bad(Malformed)
    else match ReadSymbol(ds[sel[i / G_SIZE]], bits)
      case Done(s, rest) =>
        if s == EOB then Done([s], rest)
        else
          (match ParseSymbols(ds, sel, EOB, rest, i + 1)
           case Done(v, rest') => Done([s] + v, rest')
           case More => More
           case Bad(why) => Bad(why))
      case More => More
      case Bad(why) => Bad(why)
  }
}
