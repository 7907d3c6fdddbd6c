/** Writing a block: the mapping table, the selectors, the code lengths and the coded symbols. */
module BlockSender {
  import opened Arith
  import opened Bits
  import opened BitStream
  import opened BlockFormat
  import opened BlockSyntax
  import opened Bytes
  import opened Closing
  import opened Canonical
  import opened MtfRuns
  import opened MtfWindow
  import opened SymbolMaps

  // ---- the mapping table ----

  method PutFlag(w: BitWriter, b: bool)
    requires w.Valid()
    modifies w
    ensures w.Valid() && w.Written() == old(w.Written()) + [if b then 1 else 0]
  {
    assert Pow2(1) == 2 * Pow2(0);
    assert BitsOf(1, 1) == [1] && BitsOf(0, 1) == [0];
    if b {
      w.Put(1, 1);
    } else {
      w.Put(1, 0);
    }
  }

  method PutFlags(w: BitWriter, a: array<bool>, lo: nat, n: nat)
    requires w.Valid() && lo + n <= a.Length
    modifies w
    ensures w.Valid() && w.Written() == old(w.Written()) + BoolBits(a[lo..lo + n])
  {
    ghost var s := a[lo..lo + n];
    ghost var goal := w.Written() + BoolBits(s);
    var j := 0;
    assert s[0..] == s;
    while j < n
      invariant 0 <= j <= n && w.Valid() && w.Written() + BoolBits(s[j..]) == goal
    {
      BoolBitsNext(w.Written(), s, j);
      PutFlag(w, a[lo + j]);
      j := j + 1;
    }
    assert w.Written() + [] == w.Written();
  }

  lemma {:induction false} BoolBitsNext(done: seq<bit>, s: seq<bool>, j: nat)
    requires j < |s|
    ensures done + BoolBits(s[j..]) == (done + [if s[j] then 1 else 0]) + BoolBits(s[j + 1..])
  {
    assert s[j..][1..] == s[j + 1..];
  }

  lemma {:induction false} SliceOn(u: seq<bool>, a: nat, b: nat, n: nat)
    requires a + b + n <= |u|
    ensures u[a..][b..b + n] == u[a + b..a + b + n]
  {
  }

  lemma {:induction false} GroupFlagsAt(u: seq<bool>, i: nat)
    requires |u| % GROUP == 0 && i < |u| / GROUP
    ensures GroupFlags(u)[i] == (true in u[GROUP * i..GROUP * i + GROUP])
    decreases |u|
  {
    if i > 0 {
      GroupFlagsAt(u[GROUP..], i - 1);
      SliceOn(u, GROUP, GROUP * (i - 1), GROUP);
    }
  }

  /** Whether one of the sixteen flags from lo on is set. */
  method AnySet(inUse: array<bool>, lo: nat) returns (r: bool)
    requires lo + GROUP <= inUse.Length
    ensures r == (true in inUse[lo..lo + GROUP])
  {
    ghost var x := inUse[lo..lo + GROUP];
    r := false;
    var j := 0;
    while j < GROUP
      invariant 0 <= j <= GROUP && r == (true in x[..j])
    {
      assert x[..j + 1] == x[..j] + [x[j]];
      if inUse[lo + j] {
        r := true;
      }
      j := j + 1;
    }
    assert x[..GROUP] == x;
  }

  method MarkGroups(inUse: array<bool>) returns (inUse16: array<bool>)
    requires inUse.Length == 256
    ensures fresh(inUse16) && inUse16[..] == GroupFlags(inUse[..])
  {
    inUse16 := new bool[16];
    var i := 0;
    while i < 16
      invariant 0 <= i <= 16
      invariant forall k :: 0 <= k < i ==> inUse16[k] == GroupFlags(inUse[..])[k]
    {
      var r := AnySet(inUse, i * 16);
      GroupFlagsAt(inUse[..], i);
      assert inUse[..][GROUP * i..GROUP * i + GROUP] == inUse[i * 16..i * 16 + GROUP];
      inUse16[i] := r;
      i := i + 1;
    }
  }

  method SendMap(w: BitWriter, inUse: array<bool>)
    requires w.Valid() && inUse.Length == 256
    modifies w
    ensures w.Valid() && w.Written() == old(w.Written()) + MapBits(inUse[..])
  {
    ghost var u, start := inUse[..], w.Written();
    var inUse16 := MarkGroups(inUse);
    PutFlags(w, inUse16, 0, 16);
    assert inUse16[0..16] == inUse16[..];
    Assoc(start, BoolBits(GroupFlags(u)), GroupBits(u));
    SendGroups(w, inUse, inUse16);
  }

  method SendGroups(w: BitWriter, inUse: array<bool>, inUse16: array<bool>)
    requires w.Valid() && inUse.Length == 256 && inUse16[..] == GroupFlags(inUse[..])
    modifies w
    ensures w.Valid() && w.Written() == old(w.Written()) + GroupBits(inUse[..])
  {
    ghost var u := inUse[..];
    ghost var goal := w.Written() + GroupBits(u);
    assert u[0..] == u;
    var i := 0;
    while i < 16
      invariant 0 <= i <= 16 && w.Valid()
      invariant w.Written() + GroupBits(u[16 * i..]) == goal
    {
      GroupFlagsAt(u, i);
      GroupBitsNext(w.Written(), u, i);
      assert inUse16[..][i] == inUse16[i];
      SendGroupFlags(w, inUse, i, inUse16[i]);
      i := i + 1;
    }
    assert w.Written() + [] == w.Written();
  }

  method SendGroupFlags(w: BitWriter, inUse: array<bool>, i: nat, any: bool)
    requires w.Valid() && inUse.Length == 256 && i < 16 && any == (true in inUse[..][GROUP * i..GROUP * i + GROUP])
    modifies w
    ensures w.Valid() && w.Written() == old(w.Written()) + OneGroupBits(inUse[..][GROUP * i..GROUP * i + GROUP])
  {
    if any {
      PutFlags(w, inUse, i * 16, 16);
      assert inUse[i * 16..i * 16 + 16] == inUse[..][GROUP * i..GROUP * i + GROUP];
    } else {
      assert w.Written() + [] == w.Written();
    }
  }

  lemma {:induction false} GroupBitsNext(done: seq<bit>, u: seq<bool>, i: nat)
    requires |u| == 256 && i < 16
    ensures done + GroupBits(u[16 * i..])
         == (done + OneGroupBits(u[GROUP * i..GROUP * i + GROUP])) + GroupBits(u[16 * (i + 1)..])
  {
    var v := u[16 * i..];
    assert v[..GROUP] == u[GROUP * i..GROUP * i + GROUP];
    assert v[GROUP..] == u[16 * (i + 1)..];
    Assoc(done, OneGroupBits(v[..GROUP]), GroupBits(v[GROUP..]));
  }

  // ---- selectors ----

  /** Moves the entry with value v to the front of pos, and says where it was. */
  method RankOne(pos: array<byte>, nGroups: nat, v: byte) returns (j: nat)
    requires 0 < nGroups <= pos.Length && v in pos[..nGroups]
    modifies pos
    ensures j == IndexOf(old(pos[..nGroups]), v)
    ensures pos[..nGroups] == MoveToFront(old(pos[..nGroups]), j)
  {
    ghost var p := pos[..nGroups];
    ghost var k := IndexOf(p, v);
    j := 0;
    var tmp := pos[0];
    while v != tmp
      invariant 0 <= j <= k && tmp == p[j]
      invariant forall i :: 0 <= i < j ==> p[i] != v
      invariant forall i :: 1 <= i <= j ==> pos[i] == p[i - 1]
      invariant forall i :: j < i < nGroups ==> pos[i] == p[i]
      decreases k - j
    {
      j := j + 1;
      var tmp2 := tmp;
      tmp := pos[j];
      pos[j] := tmp2;
    }
    IndexOfFirst(p, v, j);
    pos[0] := tmp;
    assert pos[..nGroups] == MoveToFront(p, j);
  }

  method FirstPositions(nGroups: nat) returns (pos: array<byte>)
    requires nGroups <= 6
    ensures fresh(pos) && pos.Length == 6 && pos[..nGroups] == Iota(nGroups)
  {
    pos := new byte[6];
    var i := 0;
    while i < nGroups
      invariant 0 <= i <= nGroups
      invariant forall k :: 0 <= k < i ==> pos[k] == k
    {
      pos[i] := i;
      i := i + 1;
    }
    assert pos[..nGroups] == Iota(nGroups);
  }

  method RankNext(pos: array<byte>, nGroups: nat, selector: seq<byte>, i: nat, done: seq<nat>) returns (more: seq<nat>)
    requires 0 < nGroups <= pos.Length && i < |selector| && Among(selector[i..], pos[..nGroups])
    modifies pos
    ensures Among(selector[i + 1..], pos[..nGroups]) && |more| == |done| + 1
    ensures more + Ranked(pos[..nGroups], selector[i + 1..]) == done + old(Ranked(pos[..nGroups], selector[i..]))
  {
    RankedNext(done, pos[..nGroups], selector, i);
    var j := RankOne(pos, nGroups, selector[i]);
    more := done + [j];
  }

  method RankSelectors(selector: seq<byte>, nGroups: nat) returns (selectorMtf: seq<nat>)
    requires 0 < nGroups <= 6 && forall i :: 0 <= i < |selector| ==> selector[i] < nGroups
    ensures Among(selector, Iota(nGroups)) && selectorMtf == Ranked(Iota(nGroups), selector)
  {
    var pos := FirstPositions(nGroups);
    selectorMtf := [];
    var i := 0;
    AllAmong(selector, nGroups);
    assert selector[0..] == selector;
    while i < |selector|
      invariant 0 <= i <= |selector| && pos.Length == 6 && |selectorMtf| == i
      invariant Among(selector[i..], pos[..nGroups])
      invariant selectorMtf + Ranked(pos[..nGroups], selector[i..]) == Ranked(Iota(nGroups), selector)
    {
      selectorMtf := RankNext(pos, nGroups, selector, i, selectorMtf);
      i := i + 1;
    }
    assert selectorMtf + [] == selectorMtf;
  }

  lemma {:induction false} RankedNext(done: seq<nat>, pos: seq<byte>, sel: seq<byte>, i: nat)
    requires i < |sel| && Among(sel[i..], pos)
    ensures sel[i] in pos
    ensures var pos' := MoveToFront(pos, IndexOf(pos, sel[i]));
      && Among(sel[i + 1..], pos')
      && done + Ranked(pos, sel[i..]) == (done + [IndexOf(pos, sel[i])]) + Ranked(pos', sel[i + 1..])
  {
    var t := sel[i..];
    assert t[0] == sel[i] && t[1..] == sel[i + 1..];
    StillIn(pos, IndexOf(pos, sel[i]), t[1..]);
  }

  method SendUnary(w: BitWriter, n: nat)
    requires w.Valid()
    modifies w
    ensures w.Valid() && w.Written() == old(w.Written()) + UnaryBits(n)
  {
    ghost var goal := w.Written() + UnaryBits(n);
    var j := 0;
    while j < n
      invariant 0 <= j <= n && w.Valid() && w.Written() + UnaryBits(n - j) == goal
    {
      Assoc(w.Written(), [1], UnaryBits(n - j - 1));
      PutFlag(w, true);
      j := j + 1;
    }
    PutFlag(w, false);
  }

  method SendUnaries(w: BitWriter, js: seq<nat>)
    requires w.Valid()
    modifies w
    ensures w.Valid() && w.Written() == old(w.Written()) + UnariesBits(js)
  {
    ghost var goal := w.Written() + UnariesBits(js);
    var i := 0;
    assert js[0..] == js;
    while i < |js|
      invariant 0 <= i <= |js| && w.Valid() && w.Written() + UnariesBits(js[i..]) == goal
    {
      assert js[i..][1..] == js[i + 1..];
      Assoc(w.Written(), UnaryBits(js[i]), UnariesBits(js[i + 1..]));
      SendUnary(w, js[i]);
      i := i + 1;
    }
    assert w.Written() + [] == w.Written();
  }

  // ---- code lengths ----

  method SendDelta(w: BitWriter, from: int, to: int)
    requires w.Valid()
    modifies w
    ensures w.Valid() && w.Written() == old(w.Written()) + DeltaBits(from, to)
  {
    ghost var goal := w.Written() + DeltaBits(from, to);
    assert Remains(w.Written(), from, to, goal);
    var curr := StepUp(w, from, to, goal);
    curr := StepDown(w, curr, to, goal);
    assert Look(0);
    PutFlag(w, false);
  }

  /** What remains of the bits to be sent: those from curr to to. */
  ghost predicate Remains(done: seq<bit>, curr: int, to: int, goal: seq<bit>) {
    forall u {:trigger Look(u)} :: Look(u) ==> Same(done + DeltaBits(curr, to), goal)
  }

  ghost predicate Same(a: seq<bit>, b: seq<bit>) {
    a == b
  }

  method StepUp(w: BitWriter, from: int, to: int, ghost goal: seq<bit>) returns (curr: int)
    requires w.Valid() && Remains(w.Written(), from, to, goal)
    modifies w
    ensures w.Valid() && Remains(w.Written(), curr, to, goal) && curr >= to
  {
    curr := from;
    while curr < to
      invariant w.Valid() && Remains(w.Written(), curr, to, goal)
    {
      PutUp(w, curr, to, goal);
      curr := curr + 1;
    }
  }

  method StepDown(w: BitWriter, from: int, to: int, ghost goal: seq<bit>) returns (curr: int)
    requires w.Valid() && Remains(w.Written(), from, to, goal) && from >= to
    modifies w
    ensures w.Valid() && Remains(w.Written(), curr, to, goal) && curr == to
  {
    curr := from;
    while curr > to
      invariant curr >= to && w.Valid() && Remains(w.Written(), curr, to, goal)
    {
      PutDown(w, curr, to, goal);
      curr := curr - 1;
    }
  }

  method PutUp(w: BitWriter, ghost curr: int, ghost to: int, ghost goal: seq<bit>)
    requires w.Valid() && Remains(w.Written(), curr, to, goal) && curr < to
    modifies w
    ensures w.Valid() && Remains(w.Written(), curr + 1, to, goal)
  {
    assert Look(0);
    DeltaUp(w.Written(), curr, to);
    PutTwo(w, 2);
  }

  method PutDown(w: BitWriter, ghost curr: int, ghost to: int, ghost goal: seq<bit>)
    requires w.Valid() && Remains(w.Written(), curr, to, goal) && curr > to
    modifies w
    ensures w.Valid() && Remains(w.Written(), curr - 1, to, goal)
  {
    assert Look(0);
    DeltaDown(w.Written(), curr, to);
    PutTwo(w, 3);
  }

  method PutTwo(w: BitWriter, v: nat)
    requires w.Valid() && 2 <= v < 4
    modifies w
    ensures w.Valid() && w.Written() == old(w.Written()) + [1, v - 2]
  {
    TwoBits();
    w.Put(2, v);
  }

  lemma {:induction false} DeltaUp(done: seq<bit>, curr: int, to: int)
    requires curr < to
    ensures done + DeltaBits(curr, to) == (done + [1, 0]) + DeltaBits(curr + 1, to)
  {
  }

  lemma {:induction false} DeltaDown(done: seq<bit>, curr: int, to: int)
    requires curr > to
    ensures done + DeltaBits(curr, to) == (done + [1, 1]) + DeltaBits(curr - 1, to)
  {
  }

  lemma {:induction false} TwoBits()
    ensures Pow2(2) == 4 && BitsOf(2, 2) == [1, 0] && BitsOf(3, 2) == [1, 1]
  {
    assert BitsOf(1, 1) == BitsOf(0, 0) + [1];
  }

  method SendTable(w: BitWriter, len: seq<int>)
    requires w.Valid() && Lengths(len)
    modifies w
    ensures w.Valid() && w.Written() == old(w.Written()) + TableBits(len)
  {
    var curr := len[0];
    assert Pow2(5) == 32;
    ghost var goal := w.Written() + TableBits(len);
    Assoc(w.Written(), BitsOf(curr, 5), LengthsBits(curr, len));
    w.Put(5, curr);
    var i := 0;
    assert len[0..] == len;
    while i < |len|
      invariant 0 <= i <= |len| && w.Valid() && w.Written() + LengthsBits(curr, len[i..]) == goal
    {
      assert len[i..][1..] == len[i + 1..];
      Assoc(w.Written(), DeltaBits(curr, len[i]), LengthsBits(len[i], len[i + 1..]));
      SendDelta(w, curr, len[i]);
      curr := len[i];
      i := i + 1;
    }
    assert w.Written() + [] == w.Written();
  }

  method SendTables(w: BitWriter, ts: seq<seq<int>>, ghost alphaSize: nat)
    requires w.Valid() && AllLengths(ts, alphaSize)
    modifies w
    ensures w.Valid() && w.Written() == old(w.Written()) + TablesBits(ts, alphaSize)
  {
    ghost var goal := w.Written() + TablesBits(ts, alphaSize);
    var t := 0;
    assert ts[0..] == ts;
    while t < |ts|
      invariant 0 <= t <= |ts| && w.Valid() && w.Written() + TablesBits(ts[t..], alphaSize) == goal
    {
      assert ts[t..][1..] == ts[t + 1..];
      Assoc(w.Written(), TableBits(ts[t]), TablesBits(ts[t + 1..], alphaSize));
      SendTable(w, ts[t]);
      t := t + 1;
    }
    assert w.Written() + [] == w.Written();
  }

  // ---- symbols ----

  ghost predicate Codes(code: seq<int>, len: seq<int>) {
    |code| == |len| && Lengths(len) && forall s :: 0 <= s < |len| ==> code[s] == Code(len, s)
  }

  ghost predicate AllCodes(codes: seq<seq<int>>, ts: seq<seq<int>>) {
    |codes| == |ts| && forall t {:trigger Codes(codes[t], ts[t])} :: 0 <= t < |ts| ==> Codes(codes[t], ts[t])
  }

  /** The smallest and the largest code length. */
  method LengthRange(len: array<int>, alphaSize: nat) returns (minLen: nat, maxLen: nat)
    requires alphaSize <= len.Length && Lengths(len[..alphaSize])
    ensures Spans(len[..alphaSize], minLen, maxLen) && minLen <= maxLen
    ensures minLen in len[..alphaSize] && maxLen in len[..alphaSize]
  {
    ghost var ls := len[..alphaSize];
    assert forall k | 0 <= k < alphaSize :: len[k] == ls[k];
    minLen, maxLen := 32, 0;
    var i := 0;
    while i < alphaSize
      invariant 0 <= i <= alphaSize
      invariant i == 0 ==> minLen == 32 && maxLen == 0
      invariant i > 0 ==> 1 <= minLen <= maxLen <= MAX_LEN && minLen in ls && maxLen in ls
      invariant forall k :: 0 <= k < i ==> minLen <= ls[k] <= maxLen
    {
      if len[i] > maxLen {
        maxLen := len[i];
      }
      if len[i] < minLen {
        minLen := len[i];
      }
      i := i + 1;
    }
  }

  method ToArray(s: seq<int>) returns (a: array<int>)
    ensures fresh(a) && a[..] == s
  {
    a := new int[|s|];
    var i := 0;
    while i < |s|
      invariant 0 <= i <= |s| && forall k :: 0 <= k < i ==> a[k] == s[k]
    {
      a[i] := s[i];
      i := i + 1;
    }
  }

  method AssignOne(len: seq<int>) returns (code: seq<int>)
    requires Lengths(len)
    ensures Codes(code, len)
  {
    var a := ToArray(len);
    var c := new int[|len|];
    assert a[..|len|] == len;
    var minLen, maxLen := LengthRange(a, |len|);
    AssignCodes(c, a, minLen, maxLen, |len|);
    code := c[..];
  }

  method AssignAll(ts: seq<seq<int>>) returns (codes: seq<seq<int>>)
    requires forall t :: 0 <= t < |ts| ==> Lengths(ts[t])
    ensures AllCodes(codes, ts)
  {
    codes := [];
    var t := 0;
    while t < |ts|
      invariant 0 <= t <= |ts| && |codes| == t
      invariant forall k {:trigger Codes(codes[k], ts[k])} :: 0 <= k < t ==> Codes(codes[k], ts[k])
    {
      var code := AssignOne(ts[t]);
      codes := codes + [code];
      t := t + 1;
    }
  }

  method SendSymbol(w: BitWriter, len: seq<int>, code: seq<int>, s: nat)
    requires w.Valid() && s < |len| && Codes(code, len) && Kraft(len, MAX_LEN) <= Pow2(MAX_LEN)
    modifies w
    ensures w.Valid() && w.Written() == old(w.Written()) + SymbolBits(len, s)
  {
    CodeFits(len, s);
    w.Put(len[s], code[s]);
  }

  /** Each group of fifty symbols is sent with the code its selector names. */
  method SendSymbols(w: BitWriter, ts: seq<seq<int>>, codes: seq<seq<int>>, sel: seq<byte>, mtfv: seq<int>)
    requires w.Valid() && Choices(ts, sel, mtfv) && AllCodes(codes, ts) && AllKraft(ts)
    modifies w
    ensures w.Valid() && w.Written() == old(w.Written()) + SymbolsBits(ts, sel, mtfv, 0)
  {
    ghost var goal := w.Written() + SymbolsBits(ts, sel, mtfv, 0);
    var selCtr, gs := 0, 0;
    while gs < |mtfv|
      invariant 0 <= gs <= |mtfv| && (gs < |mtfv| ==> gs == selCtr * G_SIZE)
      invariant w.Valid() && w.Written() + SymbolsBits(ts, sel, mtfv, gs) == goal
    {
      var ge := gs + G_SIZE - 1;
      if ge >= |mtfv| {
        ge := |mtfv| - 1;
      }
      SendGroup(w, ts, codes, sel, mtfv, selCtr, gs, ge, goal);
      gs := ge + 1;
      selCtr := selCtr + 1;
    }
    assert SymbolsBits(ts, sel, mtfv, gs) == [];
    assert w.Written() + [] == w.Written();
  }

  method SendGroup(w: BitWriter, ts: seq<seq<int>>, codes: seq<seq<int>>, sel: seq<byte>, mtfv: seq<int>,
                   selCtr: nat, gs: nat, ge: nat, ghost goal: seq<bit>)
    requires w.Valid() && Choices(ts, sel, mtfv) && AllCodes(codes, ts) && AllKraft(ts)
    requires gs <= ge < |mtfv| && gs == selCtr * G_SIZE && ge < gs + G_SIZE
    requires w.Written() + SymbolsBits(ts, sel, mtfv, gs) == goal
    modifies w
    ensures w.Valid() && w.Written() + SymbolsBits(ts, sel, mtfv, ge + 1) == goal
  {
    var i := gs;
    while i <= ge
      invariant gs <= i <= ge + 1
      invariant w.Valid() && w.Written() + SymbolsBits(ts, sel, mtfv, i) == goal
    {
      InGroup(i, selCtr);
      var t := sel[selCtr];
      assert Coded(ts[t], mtfv[i]) && Codes(codes[t], ts[t]);
      SymbolsNext(w.Written(), ts, sel, mtfv, i);
      SendSymbol(w, ts[t], codes[t], mtfv[i]);
      i := i + 1;
    }
  }

  lemma {:induction false} InGroup(i: nat, c: nat)
    requires c * G_SIZE <= i < c * G_SIZE + G_SIZE
    ensures i / G_SIZE == c
  {
  }

  lemma {:induction false} SymbolsNext(done: seq<bit>, ts: seq<seq<int>>, sel: seq<byte>, syms: seq<int>, i: nat)
    requires Choices(ts, sel, syms) && i < |syms| && Coded(ts[sel[i / G_SIZE]], syms[i])
    ensures done + SymbolsBits(ts, sel, syms, i)
         == (done + SymbolBits(ts[sel[i / G_SIZE]], syms[i])) + SymbolsBits(ts, sel, syms, i + 1)
  {
    Assoc(done, SymbolBits(ts[sel[i / G_SIZE]], syms[i]), SymbolsBits(ts, sel, syms, i + 1));
  }

  // ---- the header ----

  /** bsPutUChar. */
  method PutByte(w: BitWriter, x: byte)
    requires w.Valid()
    modifies w
    ensures w.Valid() && w.Written() == old(w.Written()) + BitsOf(x, OCTET)
  {
    assert Pow2(8) == 256;
    w.Put(8, x);
  }

  /** bsPutUChar for each byte of a string. */
  method PutBytes(w: BitWriter, s: seq<byte>)
    requires w.Valid()
    modifies w
    ensures w.Valid() && w.Written() == old(w.Written()) + ByteBits(s)
  {
    ghost var start := w.Written();
    assert start + [] == start;
    var i := 0;
    while i < |s|
      invariant 0 <= i <= |s| && w.Valid() && w.Written() == start + ByteBits(s[..i])
    {
      assert s[..i + 1] == s[..i] + [s[i]];
      ByteBitsSnoc(s[..i], s[i]);
      Assoc(start, ByteBits(s[..i]), BitsOf(s[i], OCTET));
      PutByte(w, s[i]);
      i := i + 1;
    }
    assert s[..|s|] == s;
  }

  method PutUInt32(w: BitWriter, u: nat)
    requires w.Valid()
    modifies w
    ensures w.Valid() && w.Written() == old(w.Written()) + ByteBits(BytesOf(u, CRC_LEN))
  {
    FourBytes(u);
    PutBytes(w, [(u / 0x100_0000) % 256, (u / 0x1_0000) % 256, (u / 256) % 256, u % 256]);
  }

  lemma {:induction false} FourBytes(u: nat)
    ensures BytesOf(u, CRC_LEN) == [(u / 0x100_0000) % 256, (u / 0x1_0000) % 256, (u / 256) % 256, u % 256]
  {
    ThreeBytes(u / 256);
    DivideOn(u, 0x100);
    DivideOn(u, 0x1_0000);
    assert BytesOf(u, CRC_LEN) == BytesOf(u / 256, 3) + [u % 256];
  }

  lemma {:induction false} ThreeBytes(v: nat)
    ensures BytesOf(v, 3) == [(v / 0x1_0000) % 256, (v / 256) % 256, v % 256]
  {
    var w := v / 256;
    DivideOn(v, 0x100);
    assert BytesOf(w / 256, 1) == BytesOf(w / 256 / 256, 0) + [w / 256 % 256];
    assert BytesOf(w, 2) == BytesOf(w / 256, 1) + [w % 256];
    assert BytesOf(v, 3) == BytesOf(w, 2) + [v % 256];
  }

  /** Dividing in two steps. */
  lemma {:induction false} DivideOn(u: nat, p: nat)
    requires p > 0
    ensures (u / 256) / p == u / (256 * p)
  {
    var q, r := (u / 256) / p, (u / 256) % p;
    assert u / 256 == p * q + r;
    assert u == 256 * (u / 256) + u % 256;
    Regroup(p, q);
    ModUnique(u, 256 * p, q, 256 * r + u % 256);
  }

  lemma {:induction false} Regroup(p: int, q: int)
    ensures 256 * (p * q) == (256 * p) * q
  {
  }

  method SendStart(w: BitWriter, crc: nat, origPtr: nat)
    requires w.Valid() && origPtr < PTR_LIMIT
    modifies w
    ensures w.Valid() && w.Written() == old(w.Written()) + StartBits(crc, false, origPtr)
  {
    ghost var c, o := ByteBits(BytesOf(crc, CRC_LEN)), ByteBits(BytesOf(origPtr, PTR_LEN));
    ghost var start := w.Written();
    PutUInt32(w, crc);
    PutFlag(w, false);
    Limits();
    BytesOfBack(origPtr, PTR_LEN);
    BigEndianBits(BytesOf(origPtr, PTR_LEN), 24);
    w.Put(24, origPtr);
    Assoc(start, c, [0]);
    Assoc(start, c + [0], o);
    Assoc(c, [0], o);
  }

  method SendSelectors(w: BitWriter, x: Selectors)
    requires w.Valid() && SelectorsOk(x)
    modifies w
    ensures w.Valid() && w.Written() == old(w.Written()) + SelectorsBits(x)
  {
    ghost var start := w.Written();
    AllAmong(x.list, x.nGroups);
    var selectorMtf := RankSelectors(x.list, x.nGroups);
    assert Pow2(3) == 8;
    Limits();
    w.Put(3, x.nGroups);
    w.Put(SELECTOR_BITS, |x.list|);
    SendUnaries(w, selectorMtf);
    Assoc(start, BitsOf(x.nGroups, 3), BitsOf(|x.list|, SELECTOR_BITS));
    Assoc(start, BitsOf(x.nGroups, 3) + BitsOf(|x.list|, SELECTOR_BITS), UnariesBits(selectorMtf));
    Assoc(BitsOf(x.nGroups, 3), BitsOf(|x.list|, SELECTOR_BITS), UnariesBits(selectorMtf));
  }

  /** sendMTFValues after the codes have been chosen, with the block header before it. */
  method SendHead(w: BitWriter, crc: nat, origPtr: nat, inUse: array<bool>, x: Selectors, tables: seq<seq<int>>)
    requires w.Valid() && origPtr < PTR_LIMIT && inUse.Length == 256
    requires SelectorsOk(x) && AllLengths(tables, AlphaSize(inUse[..]))
    modifies w
    ensures w.Valid()
    ensures w.Written() == old(w.Written()) + HeadBits(Head(crc, false, origPtr, inUse[..], x, tables))
  {
    ghost var u, start := inUse[..], w.Written();
    ghost var alphaSize := AlphaSize(u);
    SendStart(w, crc, origPtr);
    SendMap(w, inUse);
    SendSelectors(w, x);
    SendTables(w, tables, alphaSize);
    Pieces(start, StartBits(crc, false, origPtr), MapBits(u), SelectorsBits(x), TablesBits(tables, alphaSize));
  }

  lemma {:induction false} Pieces(a: seq<bit>, b: seq<bit>, c: seq<bit>, d: seq<bit>, e: seq<bit>)
    ensures a + b + c + d + e == a + (b + (c + (d + e)))
  {
  }
}
