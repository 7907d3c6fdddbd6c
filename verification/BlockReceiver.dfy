/** Reading a block, with every way the input can be short or wrong. */
module BlockReceiver {
  import opened Arith
  import opened Bits
  import opened BitStream
  import opened BlockFormat
  import opened BlockSender
  import opened BlockSyntax
  import opened Bytes
  import opened Canonical
  import opened MtfRuns
  import opened MtfWindow
  import opened SymbolMaps

  /** How a reading method ended; OutOfArray stands for a write behind the end of an array. */
  datatype Status = Fine | OutOfInput | DataError | OutOfArray

  /** What a reading method did is what the grammar says. */
  ghost predicate Agrees<T>(st: Status, value: T, after: seq<bit>, p: Parsed<T>) {
    match p
    case Done(v, rest) => st.Fine? && value == v && after == rest
    case More => st.OutOfInput?
    case Bad(Malformed) => st.DataError?
    case Bad(TooMany) => st.OutOfArray?
  }

  /** The grammar's value when some of it has been read already. */
  ghost function After<T>(done: seq<T>, p: Parsed<seq<T>>): Parsed<seq<T>> {
    match p
    case Done(v, rest) => Done(done + v, rest)
    case More => More
    case Bad(why) => Bad(why)
  }

  lemma {:induction false} AfterNothing<T>(p: Parsed<seq<T>>)
    ensures After([], p) == p
  {
    if p.Done? {
      assert [] + p.value == p.value;
    }
  }

  lemma {:induction false} AfterAll<T>(done: seq<T>, bits: seq<bit>)
    ensures After(done, Done([], bits)) == Done(done, bits)
  {
    assert done + [] == done;
  }

  method GetBits(r: BitReader, n: nat) returns (st: Status, v: nat)
    requires r.Valid() && n <= 24
    modifies r
    ensures r.Valid() && Agrees(st, v, r.Unread(), ParseBits(old(r.Unread()), n)) && (st.Fine? ==> v < Pow2(n))
  {
    var x := r.Get(n);
    match x
    case None => return OutOfInput, 0;
    case Some(y) => return Fine, y;
  }

  method GetBit(r: BitReader) returns (st: Status, b: bool)
    requires r.Valid()
    modifies r
    ensures r.Valid()
    ensures old(r.Unread()) == [] ==> st.OutOfInput?
    ensures old(r.Unread()) != [] ==> st.Fine? && b == (old(r.Unread())[0] == 1) && r.Unread() == old(r.Unread())[1..]
  {
    ghost var bits := r.Unread();
    var v;
    st, v := GetBits(r, 1);
    if bits != [] {
      assert bits[..1] == [] + [bits[0]];
      ValueSnoc([], bits[0]);
    }
    b := v == 1;
  }

  // ---- the mapping table ----

  lemma {:induction false} BoolsNext(done: seq<bool>, bits: seq<bit>, n: nat)
    requires n > 0 && bits != []
    ensures After(done, ParseBools(bits, n)) == After(done + [bits[0] == 1], ParseBools(bits[1..], n - 1))
  {
    var p := ParseBools(bits[1..], n - 1);
    if p.Done? {
      Assoc(done, [bits[0] == 1], p.value);
    }
  }

  /** The flags from lo to k hold done, and those above are still clear. */
  ghost predicate FlagsRead(a: seq<bool>, below: seq<bool>, done: seq<bool>) {
    && |below| + |done| <= |a|
    && a[..|below|] == below
    && a[|below|..|below| + |done|] == done
    && (forall k :: |below| + |done| <= k < |a| ==> !a[k])
  }

  /** Reads the next flag, which was false before: a zero leaves it so. */
  method GetFlag(r: BitReader, a: array<bool>, k: nat, ghost below: seq<bool>, ghost done: seq<bool>) returns (st: Status)
    requires r.Valid() && k < a.Length && FlagsRead(a[..], below, done) && k == |below| + |done|
    modifies r, a
    ensures r.Valid()
    ensures old(r.Unread()) == [] ==> st.OutOfInput? && FlagsRead(a[..], below, done)
    ensures old(r.Unread()) != [] ==>
      && st.Fine? && r.Unread() == old(r.Unread())[1..]
      && FlagsRead(a[..], below, done + [old(r.Unread())[0] == 1])
  {
    var b;
    st, b := GetBit(r);
    if st == Fine && b {
      a[k] := true;
    }
    assert a[..][|below|..k + 1] == a[..][|below|..k] + [a[k]];
  }

  /** The same, when n flags are still to be read. */
  method NextFlag(r: BitReader, a: array<bool>, k: nat, ghost below: seq<bool>, ghost done: seq<bool>, ghost n: nat)
    returns (st: Status, ghost more: seq<bool>)
    requires r.Valid() && k < a.Length && FlagsRead(a[..], below, done) && k == |below| + |done| && n > 0
    modifies r, a
    ensures r.Valid() && FlagsRead(a[..], below, more)
    ensures match st
      case Fine => |more| == |done| + 1 && After(more, ParseBools(r.Unread(), n - 1)) == After(done, ParseBools(old(r.Unread()), n))
      case OutOfInput => more == done && After(done, ParseBools(old(r.Unread()), n)).More?
      case _ => false
  {
    ghost var bits := r.Unread();
    if bits != [] {
      BoolsNext(done, bits, n);
    }
    st := GetFlag(r, a, k, below, done);
    more := if st.Fine? then done + [bits[0] == 1] else done;
  }

  /** Reads n flags into a[lo..lo + n]; they were false before, and a zero leaves one so. */
  method GetFlags(r: BitReader, a: array<bool>, lo: nat, n: nat) returns (st: Status)
    requires r.Valid() && lo + n <= a.Length && forall k :: lo <= k < a.Length ==> !a[k]
    modifies r, a
    ensures r.Valid() && Agrees(st, a[lo..lo + n], r.Unread(), ParseBools(old(r.Unread()), n))
    ensures a[..lo] == old(a[..lo]) && forall k :: lo + n <= k < a.Length ==> !a[k]
  {
    ghost var p, below, done := ParseBools(r.Unread(), n), a[..lo], [];
    AfterNothing(p);
    var j := 0;
    while j < n
      invariant 0 <= j <= n && r.Valid() && |done| == j && FlagsRead(a[..], below, done)
      invariant p == After(done, ParseBools(r.Unread(), n - j))
    {
      st, done := NextFlag(r, a, lo + j, below, done, n - j);
      if st != Fine {
        return;
      }
      j := j + 1;
    }
    AfterAll(done, r.Unread());
    assert a[lo..lo + n] == done;
    st := Fine;
  }

  lemma {:induction false} GroupsNext(done: seq<bool>, g: seq<bool>, i: nat, bits: seq<bit>)
    requires i < |g|
    ensures var p := ParseOneGroup(g[i], bits);
      After(done, ParseGroups(g[i..], bits))
        == (match p case Done(x, rest) => After(done + x, ParseGroups(g[i + 1..], rest)) case More => More case Bad(why) => Bad(why))
  {
    assert g[i..][0] == g[i] && g[i..][1..] == g[i + 1..];
    var p := ParseOneGroup(g[i], bits);
    if p.Done? {
      var q := ParseGroups(g[i + 1..], p.rest);
      if q.Done? {
        Assoc(done, p.value, q.value);
      }
    }
  }

  method GetGroup(r: BitReader, inUse: array<bool>, i: nat, flag: bool) returns (st: Status)
    requires r.Valid() && inUse.Length == 256 && i < 16 && forall k :: 16 * i <= k < 256 ==> !inUse[k]
    modifies r, inUse
    ensures r.Valid() && Agrees(st, inUse[16 * i..16 * i + 16], r.Unread(), ParseOneGroup(flag, old(r.Unread())))
    ensures inUse[..16 * i + 16] == old(inUse[..16 * i]) + inUse[16 * i..16 * i + 16]
    ensures forall k :: 16 * i + 16 <= k < 256 ==> !inUse[k]
  {
    if flag {
      st := GetFlags(r, inUse, 16 * i, 16);
    } else {
      assert inUse[16 * i..16 * i + 16] == NoneSet(GROUP);
      st := Fine;
    }
  }

  method GetGroups(r: BitReader, inUse: array<bool>, inUse16: array<bool>) returns (st: Status)
    requires r.Valid() && inUse.Length == 256 && inUse16.Length == 16 && inUse != inUse16 && forall k :: 0 <= k < 256 ==> !inUse[k]
    modifies r, inUse
    ensures r.Valid() && Agrees(st, inUse[..], r.Unread(), ParseGroups(inUse16[..], old(r.Unread())))
  {
    ghost var g := inUse16[..];
    ghost var p := ParseGroups(g, r.Unread());
    AfterNothing(p);
    assert g[0..] == g;
    var i := 0;
    while i < 16
      invariant 0 <= i <= 16 && r.Valid() && p == After(inUse[..16 * i], ParseGroups(g[i..], r.Unread()))
      invariant forall k :: 16 * i <= k < 256 ==> !inUse[k]
    {
      ghost var done := inUse[..16 * i];
      GroupsNext(done, g, i, r.Unread());
      st := GetGroup(r, inUse, i, inUse16[i]);
      if st != Fine {
        return;
      }
      assert 16 * (i + 1) == 16 * i + 16;
      i := i + 1;
    }
    AfterAll(inUse[..], r.Unread());
    assert inUse[..256] == inUse[..];
    st := Fine;
  }

  method Cleared(n: nat) returns (a: array<bool>)
    ensures fresh(a) && a.Length == n && forall k :: 0 <= k < n ==> !a[k]
  {
    a := new bool[n];
    var i := 0;
    while i < n
      invariant 0 <= i <= n && forall k :: 0 <= k < i ==> !a[k]
    {
      a[i] := false;
      i := i + 1;
    }
  }

  method ReceiveMap(r: BitReader) returns (st: Status, inUse: array<bool>)
    requires r.Valid()
    modifies r
    ensures r.Valid() && inUse.Length == 256 && fresh(inUse)
    ensures Agrees(st, inUse[..], r.Unread(), ParseMap(old(r.Unread())))
  {
    var inUse16 := Cleared(16);
    inUse := Cleared(256);
    st := GetFlags(r, inUse16, 0, 16);
    assert inUse16[0..16] == inUse16[..];
    if st == Fine {
      st := GetGroups(r, inUse, inUse16);
    }
  }

  // ---- selectors ----

  method GetUnary(r: BitReader, nGroups: nat) returns (st: Status, j: nat)
    requires r.Valid() && nGroups > 0
    modifies r
    ensures r.Valid() && Agrees(st, j, r.Unread(), ParseUnary(old(r.Unread()), nGroups, 0)) && st != OutOfArray
  {
    ghost var p := ParseUnary(r.Unread(), nGroups, 0);
    j := 0;
    while true
      invariant r.Valid() && j < nGroups && p == ParseUnary(r.Unread(), nGroups, j)
      decreases nGroups - j
    {
      var b;
      st, b := GetBit(r);
      if st != Fine || !b {
        return;
      }
      if j + 1 >= nGroups {
        return DataError, 0;
      }
      j := j + 1;
    }
  }

  lemma {:induction false} UnariesNext(done: seq<nat>, bits: seq<bit>, nGroups: nat, n: nat)
    requires n > 0
    ensures After(done, ParseUnaries(bits, nGroups, n))
         == (match ParseUnary(bits, nGroups, 0)
             case Done(j, rest) => After(done + [j], ParseUnaries(rest, nGroups, n - 1))
             case More => More
             case Bad(why) => Bad(why))
  {
    var p := ParseUnary(bits, nGroups, 0);
    if p.Done? {
      var q := ParseUnaries(p.rest, nGroups, n - 1);
      if q.Done? {
        Assoc(done, [p.value], q.value);
      }
    }
  }

  /** Reads the number for place i and stores it, if there is such a place. */
  method StoreUnary(r: BitReader, selectorMtf: array<nat>, nGroups: nat, i: nat, ghost left: nat, ghost p: Parsed<seq<nat>>) returns (st: Status)
    requires r.Valid() && nGroups > 0 && i <= selectorMtf.Length && 0 < left && (i == selectorMtf.Length ==> left == 1)
    requires p == After(selectorMtf[..i], ParseUnaries(r.Unread(), nGroups, left))
    modifies r, selectorMtf
    ensures r.Valid() && (st == OutOfInput ==> p == More) && (st == DataError ==> p == Bad(Malformed))
    ensures st == OutOfArray ==> i == selectorMtf.Length && p.Done?
    ensures st == Fine ==> i < selectorMtf.Length && p == After(selectorMtf[..i + 1], ParseUnaries(r.Unread(), nGroups, left - 1))
  {
    ghost var done := selectorMtf[..i];
    UnariesNext(done, r.Unread(), nGroups, left);
    var j;
    st, j := GetUnary(r, nGroups);
    if st != Fine {
      return;
    }
    if i >= selectorMtf.Length {
      return OutOfArray;
    }
    selectorMtf[i] := j;
    assert selectorMtf[..i + 1] == done + [j];
  }

  /** Reads n numbers into selectorMtf; the one that does not fit is read before it is stored. */
  method GetUnaries(r: BitReader, selectorMtf: array<nat>, nGroups: nat, n: nat) returns (st: Status)
    requires r.Valid() && nGroups > 0 && selectorMtf.Length == MAX_SELECTORS
    modifies r, selectorMtf
    ensures r.Valid() && Agrees(st, Front(selectorMtf[..], n), r.Unread(), ParseStored(old(r.Unread()), nGroups, n))
  {
    ghost var bits, m := r.Unread(), if n <= MAX_SELECTORS then n else MAX_SELECTORS + 1;
    ghost var p := ParseUnaries(bits, nGroups, m);
    AfterNothing(p);
    var i := 0;
    while i < n
      invariant 0 <= i <= n && i <= MAX_SELECTORS && r.Valid()
      invariant p == After(selectorMtf[..i], ParseUnaries(r.Unread(), nGroups, m - i))
    {
      st := StoreUnary(r, selectorMtf, nGroups, i, m - i, p);
      if st != Fine {
        StoredFails(bits, nGroups, n, st);
        return;
      }
      i := i + 1;
    }
    AfterAll(selectorMtf[..n], r.Unread());
    st := Fine;
  }

  lemma {:induction false} StoredFails(bits: seq<bit>, nGroups: nat, n: nat, st: Status)
    requires var p := ParseUnaries(bits, nGroups, if n <= MAX_SELECTORS then n else MAX_SELECTORS + 1);
      match st
      case Fine => false
      case OutOfInput => p == More
      case DataError => p == Bad(Malformed)
      case OutOfArray => n > MAX_SELECTORS && p.Done?
    ensures var q := ParseStored(bits, nGroups, n); q == (match st case OutOfInput => More case DataError => Bad(Malformed) case _ => Bad(TooMany))
  {
  }

  /** The first n entries, or all if there are fewer. */
  ghost function Front<T>(s: seq<T>, n: nat): seq<T> {
    if n <= |s| then s[..n] else s
  }

  /** Takes entry v of pos and moves it to the front. */
  method UnrankOne(pos: array<byte>, nGroups: nat, rank: nat) returns (tmp: byte)
    requires nGroups <= pos.Length && rank < nGroups
    modifies pos
    ensures tmp == old(pos[rank]) && pos[..nGroups] == MoveToFront(old(pos[..nGroups]), rank)
  {
    ghost var p := pos[..nGroups];
    var v := rank;
    tmp := pos[v];
    while v > 0
      invariant 0 <= v <= rank
      invariant forall i :: v < i <= rank ==> pos[i] == p[i - 1]
      invariant forall i :: 0 <= i <= v ==> pos[i] == p[i]
      invariant forall i :: rank < i < nGroups ==> pos[i] == p[i]
    {
      pos[v] := pos[v - 1];
      v := v - 1;
    }
    pos[0] := tmp;
    assert pos[..nGroups] == MoveToFront(p, rank);
  }

  ghost predicate AllBelow(js: seq<nat>, n: nat) {
    forall i :: 0 <= i < |js| ==> js[i] < n
  }

  method UnrankSelectors(selectorMtf: array<nat>, selector: array<byte>, nGroups: nat, n: nat)
    requires 0 < nGroups <= 6 && n <= selectorMtf.Length && n <= selector.Length && AllBelow(selectorMtf[..n], nGroups)
    modifies selector
    ensures selector[..n] == Unranked(Iota(nGroups), selectorMtf[..n])
  {
    var pos := FirstPositions(nGroups);
    ghost var js := selectorMtf[..n];
    assert js[0..] == js;
    assert [] + Unranked(pos[..nGroups], js) == Unranked(pos[..nGroups], js);
    var i := 0;
    while i < n
      invariant 0 <= i <= n && pos.Length == 6 && js == selectorMtf[..n]
      invariant selector[..i] + Unranked(pos[..nGroups], js[i..]) == Unranked(Iota(nGroups), js)
    {
      ghost var done := selector[..i];
      UnrankedNext(done, pos[..nGroups], js, i);
      var tmp := UnrankOne(pos, nGroups, selectorMtf[i]);
      selector[i] := tmp;
      assert selector[..i + 1] == done + [tmp];
      i := i + 1;
    }
    assert selector[..n] + [] == selector[..n];
  }

  lemma {:induction false} UnrankedNext(done: seq<byte>, pos: seq<byte>, js: seq<nat>, i: nat)
    requires i < |js| && AllBelow(js, |pos|)
    ensures done + Unranked(pos, js[i..]) == (done + [pos[js[i]]]) + Unranked(MoveToFront(pos, js[i]), js[i + 1..])
  {
    var t := js[i..];
    assert t[0] == js[i] && t[1..] == js[i + 1..];
    Assoc(done, [pos[t[0]]], Unranked(MoveToFront(pos, t[0]), t[1..]));
  }

  method ReceiveSelectors(r: BitReader) returns (st: Status, x: Selectors)
    requires r.Valid()
    modifies r
    ensures r.Valid() && Agrees(st, x, r.Unread(), ParseSelectors(old(r.Unread())))
  {
    x := Selectors(0, []);
    var nGroups, nSelectors;
    st, nGroups := GetBits(r, 3);
    if st != Fine {
      return;
    }
    if nGroups < 2 || nGroups > 6 {
      return DataError, x;
    }
    st, nSelectors := GetBits(r, SELECTOR_BITS);
    if st != Fine {
      return;
    }
    if nSelectors < 1 {
      return DataError, x;
    }
    st, x := GetRanks(r, nGroups, nSelectors);
  }

  /** The selectors, by way of the two arrays of fixed size. */
  method GetRanks(r: BitReader, nGroups: nat, nSelectors: nat) returns (st: Status, x: Selectors)
    requires r.Valid() && 0 < nGroups <= 6
    modifies r
    ensures r.Valid() && Agrees(st, x, r.Unread(), ParseRanks(old(r.Unread()), nGroups, nSelectors))
  {
    x := Selectors(0, []);
    UnariesBelow(r.Unread(), nGroups, nSelectors);
    var selectorMtf, selector := new nat[MAX_SELECTORS], new byte[MAX_SELECTORS];
    st := GetUnaries(r, selectorMtf, nGroups, nSelectors);
    if st == Fine {
      UnrankSelectors(selectorMtf, selector, nGroups, nSelectors);
      x := Selectors(nGroups, selector[..nSelectors]);
    }
  }

  // ---- code lengths ----

  method GetDelta(r: BitReader, from: int) returns (st: Status, curr: int)
    requires r.Valid()
    modifies r
    ensures r.Valid() && Agrees(st, curr, r.Unread(), ParseDelta(old(r.Unread()), from))
  {
    ghost var p := ParseDelta(r.Unread(), from);
    curr := from;
    while true
      invariant r.Valid() && p == ParseDelta(r.Unread(), curr)
      decreases |r.Unread()|
    {
      if curr < 1 || curr > 20 {
        return DataError, curr;
      }
      var uc;
      ghost var bits := r.Unread();
      st, uc := GetBit(r);
      if st != Fine || !uc {
        return;
      }
      st, uc := GetBit(r);
      if st != Fine {
        return;
      }
      DeltaStep(bits, curr);
      curr := if uc then curr - 1 else curr + 1;
    }
  }

  lemma {:induction false} DeltaStep(bits: seq<bit>, curr: int)
    requires |bits| >= 2 && 1 <= curr <= MAX_LEN && bits[0] == 1
    ensures ParseDelta(bits, curr) == ParseDelta(bits[1..][1..], if bits[1] == 1 then curr - 1 else curr + 1)
    ensures bits[1..][0] == bits[1]
  {
    assert bits[1..][1..] == bits[2..];
  }

  lemma {:induction false} LengthsNext(done: seq<int>, bits: seq<bit>, curr: int, n: nat)
    requires n > 0
    ensures After(done, ParseLengths(bits, curr, n))
         == (match ParseDelta(bits, curr)
             case Done(l, rest) => After(done + [l], ParseLengths(rest, l, n - 1))
             case More => More
             case Bad(why) => Bad(why))
  {
    var p := ParseDelta(bits, curr);
    if p.Done? {
      var q := ParseLengths(p.rest, p.value, n - 1);
      if q.Done? {
        Assoc(done, [p.value], q.value);
      }
    }
  }

  method GetTable(r: BitReader, alphaSize: nat) returns (st: Status, len: seq<int>)
    requires r.Valid()
    modifies r
    ensures r.Valid() && Agrees(st, len, r.Unread(), ParseTable(old(r.Unread()), alphaSize))
  {
    len := [];
    var curr;
    st, curr := GetBits(r, 5);
    if st == Fine {
      st, len := GetLengths(r, curr, alphaSize);
    }
  }

  method GetLengths(r: BitReader, first: int, alphaSize: nat) returns (st: Status, len: seq<int>)
    requires r.Valid()
    modifies r
    ensures r.Valid() && Agrees(st, len, r.Unread(), ParseLengths(old(r.Unread()), first, alphaSize))
  {
    ghost var p := ParseLengths(r.Unread(), first, alphaSize);
    AfterNothing(p);
    len := [];
    var curr: int := first;
    var i := 0;
    while i < alphaSize
      invariant 0 <= i <= alphaSize && r.Valid() && p == After(len, ParseLengths(r.Unread(), curr, alphaSize - i))
    {
      LengthsNext(len, r.Unread(), curr, alphaSize - i);
      st, curr := GetDelta(r, curr);
      if st != Fine {
        return;
      }
      len := len + [curr];
      i := i + 1;
    }
    AfterAll(len, r.Unread());
    st := Fine;
  }

  lemma {:induction false} TablesNext(done: seq<seq<int>>, bits: seq<bit>, n: nat, alphaSize: nat)
    requires n > 0
    ensures After(done, ParseTables(bits, n, alphaSize))
         == (match ParseTable(bits, alphaSize)
             case Done(l, rest) => After(done + [l], ParseTables(rest, n - 1, alphaSize))
             case More => More
             case Bad(why) => Bad(why))
  {
    var p := ParseTable(bits, alphaSize);
    if p.Done? {
      var q := ParseTables(p.rest, n - 1, alphaSize);
      if q.Done? {
        Assoc(done, [p.value], q.value);
      }
    }
  }

  /** One more table, when left are still to come. */
  method GetNextTable(r: BitReader, ts: seq<seq<int>>, ghost left: nat, alphaSize: nat, ghost p: Parsed<seq<seq<int>>>)
    returns (st: Status, ts': seq<seq<int>>)
    requires r.Valid() && left > 0 && p == After(ts, ParseTables(r.Unread(), left, alphaSize))
    modifies r
    ensures r.Valid() && (st != Fine ==> Agrees(st, ts', r.Unread(), p))
    ensures st == Fine ==> p == After(ts', ParseTables(r.Unread(), left - 1, alphaSize))
  {
    TablesNext(ts, r.Unread(), left, alphaSize);
    var len;
    st, len := GetTable(r, alphaSize);
    ts' := ts + [len];
  }

  method ReceiveTables(r: BitReader, nGroups: nat, alphaSize: nat) returns (st: Status, ts: seq<seq<int>>)
    requires r.Valid()
    modifies r
    ensures r.Valid() && Agrees(st, ts, r.Unread(), ParseTables(old(r.Unread()), nGroups, alphaSize))
  {
    ghost var p := ParseTables(r.Unread(), nGroups, alphaSize);
    AfterNothing(p);
    ts := [];
    var t := 0;
    while t < nGroups
      invariant 0 <= t <= nGroups && r.Valid() && p == After(ts, ParseTables(r.Unread(), nGroups - t, alphaSize))
    {
      st, ts := GetNextTable(r, ts, nGroups - t, alphaSize, p);
      if st != Fine {
        return;
      }
      t := t + 1;
    }
    AfterAll(ts, r.Unread());
    st := Fine;
  }

  // ---- the header ----

  lemma {:induction false} BytesNext(done: seq<byte>, bits: seq<bit>, n: nat)
    requires n > 0
    ensures After(done, ParseBytes(bits, n))
         == (match ParseBits(bits, OCTET)
             case Done(x, rest) => if x >= 256 then Bad(Malformed) else After(done + [x], ParseBytes(rest, n - 1))
             case More => More
             case Bad(why) => Bad(why))
  {
    var p := ParseBits(bits, OCTET);
    if p.Done? && p.value < 256 {
      var q := ParseBytes(p.rest, n - 1);
      if q.Done? {
        Assoc(done, [p.value], q.value);
      }
    }
  }

  /** Shifts in one more byte, when left are still to come. */
  method GetNextByte(r: BitReader, v0: nat, ghost s0: seq<byte>, ghost left: nat, ghost p: Parsed<seq<byte>>)
    returns (st: Status, v: nat, ghost s: seq<byte>)
    requires r.Valid() && left > 0 && p == After(s0, ParseBytes(r.Unread(), left)) && v0 == BigEndian(s0)
    modifies r
    ensures r.Valid() && v == BigEndian(s) && (st != Fine ==> Agrees(st, s, r.Unread(), p))
    ensures st == Fine ==> p == After(s, ParseBytes(r.Unread(), left - 1))
  {
    v, s := v0, s0;
    assert Pow2(8) == 256;
    BytesNext(s0, r.Unread(), left);
    var uc;
    st, uc := GetBits(r, 8);
    if st == Fine {
      v := 256 * v0 + uc;
      assert (s0 + [uc])[..|s0|] == s0;
      s := s0 + [uc];
    }
  }

  /** A number of n bytes, shifted in one by one. */
  method GetNumber(r: BitReader, n: nat) returns (st: Status, v: nat, ghost s: seq<byte>)
    requires r.Valid()
    modifies r
    ensures r.Valid() && Agrees(st, s, r.Unread(), ParseBytes(old(r.Unread()), n)) && v == BigEndian(s)
  {
    ghost var p := ParseBytes(r.Unread(), n);
    AfterNothing(p);
    s, v := [], 0;
    var i := 0;
    while i < n
      invariant 0 <= i <= n && r.Valid() && p == After(s, ParseBytes(r.Unread(), n - i)) && v == BigEndian(s)
    {
      st, v, s := GetNextByte(r, v, s, n - i, p);
      if st != Fine {
        return;
      }
      i := i + 1;
    }
    AfterAll(s, r.Unread());
    st := Fine;
  }

  /** The magic bytes, one by one. */
  method GetMagic(r: BitReader, magic: seq<byte>) returns (st: Status)
    requires r.Valid()
    modifies r
    ensures r.Valid() && Agrees(st, (), r.Unread(), ParseMagic(old(r.Unread()), magic))
  {
    ghost var p := ParseMagic(r.Unread(), magic);
    assert magic[0..] == magic;
    var i := 0;
    while i < |magic|
      invariant 0 <= i <= |magic| && r.Valid() && p == ParseMagic(r.Unread(), magic[i..])
    {
      assert magic[i..][1..] == magic[i + 1..];
      var uc;
      st, uc := GetBits(r, 8);
      if st != Fine {
        return;
      }
      if uc != magic[i] {
        return DataError;
      }
      i := i + 1;
    }
    st := Fine;
  }

  method ReceiveStart(r: BitReader, nblockMAX: nat) returns (st: Status, x: Start)
    requires r.Valid()
    modifies r
    ensures r.Valid() && Agrees(st, x, r.Unread(), ParseStart(old(r.Unread()), nblockMAX))
  {
    x := Start(0, false, 0);
    var crc, rand, origPtr;
    ghost var c, o;
    st, crc, c := GetNumber(r, 4);
    if st != Fine {
      return;
    }
    st, rand := GetBits(r, 1);
    if st != Fine {
      return;
    }
    st, origPtr, o := GetNumber(r, 3);
    if st != Fine {
      return;
    }
    if origPtr > 10 + nblockMAX {
      return DataError, x;
    }
    x := Start(crc, rand == 1, origPtr);
  }

  method ReceiveTail(r: BitReader, alphaSize: nat) returns (st: Status, x: Tail)
    requires r.Valid()
    modifies r
    ensures r.Valid() && Agrees(st, x, r.Unread(), ParseTail(old(r.Unread()), alphaSize))
  {
    var selectors, tables;
    x := Tail(Selectors(0, []), []);
    st, selectors := ReceiveSelectors(r);
    if st != Fine {
      return;
    }
    st, tables := ReceiveTables(r, selectors.nGroups, alphaSize);
    x := Tail(selectors, tables);
  }

  method CountInUse(inUse: array<bool>) returns (n: nat)
    ensures n == Used(inUse[..], inUse.Length)
  {
    n := 0;
    var i := 0;
    while i < inUse.Length
      invariant 0 <= i <= inUse.Length && n == Used(inUse[..], i)
    {
      if inUse[i] {
        n := n + 1;
      }
      i := i + 1;
    }
  }

  /** The header from the mapping table on. */
  ghost function ParseRest(s: Start, bits: seq<bit>): Parsed<Head> {
    match ParseMap(bits)
    case Done(u, rest) => ParseLast(s, u, rest)
    case More => More
    case Bad(why) => Bad(why)
  }

  ghost function ParseLast(s: Start, u: seq<bool>, bits: seq<bit>): Parsed<Head> {
    if |u| != 256 || AlphaSize(u) == 2 then Bad(Malformed)
    else
      match ParseTail(bits, AlphaSize(u))
      case Done(t, rest) => Done(Head(s.crc, s.randomised, s.origPtr, u, t.selectors, t.tables), rest)
      case More => More
      case Bad(why) => Bad(why)
  }

  method ReceiveLast(r: BitReader, s: Start, inUse: array<bool>) returns (st: Status, h: Head)
    requires r.Valid() && inUse.Length == 256
    modifies r
    ensures r.Valid() && Agrees(st, h, r.Unread(), ParseLast(s, inUse[..], old(r.Unread())))
  {
    h := Head(0, false, 0, [], Selectors(0, []), []);
    ghost var u, bits := inUse[..], r.Unread();
    var nInUse := CountInUse(inUse);
    assert AlphaSize(u) == nInUse + 2;
    if nInUse == 0 {
      NoneInUse(s, u, bits);
      return DataError, h;
    }
    var tail;
    st, tail := ReceiveTail(r, nInUse + 2);
    assert inUse[..] == u;
    h := Head(s.crc, s.randomised, s.origPtr, inUse[..], tail.selectors, tail.tables);
    LastAgrees(st, tail, r.Unread(), s, u, bits);
  }

  lemma {:induction false} NoneInUse(s: Start, u: seq<bool>, bits: seq<bit>)
    requires AlphaSize(u) == 2
    ensures ParseLast(s, u, bits) == Bad(Malformed)
  {
  }

  lemma {:induction false} LastAgrees(st: Status, t: Tail, after: seq<bit>, s: Start, u: seq<bool>, bits: seq<bit>)
    requires |u| == 256 && AlphaSize(u) > 2 && Agrees(st, t, after, ParseTail(bits, AlphaSize(u)))
    ensures Agrees(st, Head(s.crc, s.randomised, s.origPtr, u, t.selectors, t.tables), after, ParseLast(s, u, bits))
  {
  }

  method ReceiveRest(r: BitReader, s: Start) returns (st: Status, h: Head)
    requires r.Valid()
    modifies r
    ensures r.Valid() && Agrees(st, h, r.Unread(), ParseRest(s, old(r.Unread())))
  {
    h := Head(0, false, 0, [], Selectors(0, []), []);
    var inUse;
    st, inUse := ReceiveMap(r);
    if st == Fine {
      st, h := ReceiveLast(r, s, inUse);
    }
  }

  lemma {:induction false} ParseHeadParts(bits: seq<bit>, nblockMAX: nat)
    ensures ParseHead(bits, nblockMAX)
         == (match ParseStart(bits, nblockMAX)
             case Done(s, rest) => ParseRest(s, rest)
             case More => More
             case Bad(why) => Bad(why))
  {
  }

  /** The header of a block, in the order and with the checks of BZ2_decompress. */
  method ReceiveHead(r: BitReader, nblockMAX: nat) returns (st: Status, h: Head)
    requires r.Valid()
    modifies r
    ensures r.Valid() && Agrees(st, h, r.Unread(), ParseHead(old(r.Unread()), nblockMAX))
  {
    ParseHeadParts(r.Unread(), nblockMAX);
    h := Head(0, false, 0, [], Selectors(0, []), []);
    var start;
    st, start := ReceiveStart(r, nblockMAX);
    if st == Fine {
      st, h := ReceiveRest(r, start);
    }
  }

  // ---- the decoding tables and the symbols ----

  /** d was built from the lengths len. */
  ghost predicate BuiltFrom(d: Decoder, len: seq<int>) {
    Sized(d) && Lengths(len) && exists maxLen: nat :: BuiltWith(d, len, maxLen)
  }

  ghost predicate BuiltWith(d: Decoder, len: seq<int>, maxLen: nat) {
    d.minLen <= maxLen && maxLen in len && Tables(d.limit, d.base, d.perm, len, d.minLen, maxLen)
  }

  method BuildOne(len: seq<int>) returns (d: Decoder)
    requires Lengths(len) && |len| <= MAX_ALPHA_SIZE
    ensures BuiltFrom(d, len)
  {
    var a := ToArray(len);
    var limit, base, perm := new int[MAX_ALPHA_SIZE], new int[MAX_ALPHA_SIZE], new int[MAX_ALPHA_SIZE];
    assert a[..|len|] == len;
    var minLen, maxLen := LengthRange(a, |len|);
    CreateDecodeTables(limit, base, perm, a, minLen, maxLen, |len|);
    d := Decoder(limit[..], base[..], perm[..], minLen);
    assert BuiltWith(d, len, maxLen);
  }

  ghost predicate AllBuilt(ds: seq<Decoder>, ts: seq<seq<int>>) {
    |ds| == |ts| && forall t {:trigger BuiltFrom(ds[t], ts[t])} :: 0 <= t < |ts| ==> BuiltFrom(ds[t], ts[t])
  }

  lemma {:induction false} BuiltMore(ds: seq<Decoder>, ts: seq<seq<int>>, d: Decoder, t: nat)
    requires t < |ts| && AllBuilt(ds, ts[..t]) && BuiltFrom(d, ts[t])
    ensures AllBuilt(ds + [d], ts[..t + 1])
  {
    forall k | 0 <= k <= t
      ensures BuiltFrom((ds + [d])[k], ts[..t + 1][k])
    {
      assert k < t ==> BuiltFrom(ds[k], ts[..t][k]);
    }
  }

  method BuildAll(ts: seq<seq<int>>, ghost alphaSize: nat) returns (ds: seq<Decoder>)
    requires AllLengths(ts, alphaSize) && alphaSize <= MAX_ALPHA_SIZE
    ensures AllBuilt(ds, ts)
  {
    ds := [];
    var t := 0;
    while t < |ts|
      invariant 0 <= t <= |ts| && AllBuilt(ds, ts[..t])
    {
      var d := BuildOne(ts[t]);
      BuiltMore(ds, ts, d, t);
      ds := ds + [d];
      t := t + 1;
    }
    assert ts[..|ts|] == ts;
  }

  /** GET_MTF_VAL. */
  method GetSymbol(r: BitReader, d: Decoder) returns (st: Status, s: int)
    requires r.Valid() && Sized(d)
    modifies r
    ensures r.Valid() && Agrees(st, s, r.Unread(), ReadSymbol(d, old(r.Unread())))
  {
    ghost var bits := r.Unread();
    s := 0;
    var zn, zvec := d.minLen, 0;
    st, zvec := GetBits(r, zn);
    if st != Fine {
      return;
    }
    while true
      invariant r.Valid() && d.minLen <= zn <= MAX_LEN + 1 && zn <= |bits| && r.Unread() == bits[zn..] && zvec == ValueOf(bits[..zn])
      invariant ReadSymbol(d, bits) == ReadCode(d.limit, d.base, d.perm, bits, zn)
      decreases MAX_LEN + 1 - zn
    {
      if zn > 20 {
        return DataError, 0;
      }
      if zvec <= d.limit[zn] {
        break;
      }
      var zj;
      NextBit(bits, zn);
      st, zj := GetBits(r, 1);
      zn := zn + 1;
      if st != Fine {
        return;
      }
      zvec := 2 * zvec + zj;
    }
    if zvec - d.base[zn] < 0 || zvec - d.base[zn] >= MAX_ALPHA_SIZE {
      return DataError, 0;
    }
    s := d.perm[zvec - d.base[zn]];
    st := Fine;
  }

  lemma {:induction false} NextBit(bits: seq<bit>, n: nat)
    requires n <= |bits|
    ensures n < |bits| ==> ValueOf(bits[..n + 1]) == 2 * ValueOf(bits[..n]) + ValueOf(bits[n..][..1]) && bits[n..][1..] == bits[n + 1..]
  {
    if n < |bits| {
      assert bits[..n + 1] == bits[..n] + [bits[n]];
      ValueSnoc(bits[..n], bits[n]);
      assert bits[n..][..1] == [] + [bits[n]];
      ValueSnoc([], bits[n]);
    }
  }

  ghost predicate SelectsFrom(sel: seq<byte>, n: nat) {
    forall k :: 0 <= k < |sel| ==> sel[k] < n
  }

  lemma {:induction false} ParseSymbolsNext(done: seq<int>, ds: seq<Decoder>, sel: seq<byte>, EOB: int, bits: seq<bit>, i: nat)
    requires AllSized(ds) && SelectsFrom(sel, |ds|)
    ensures After(done, ParseSymbols(ds, sel, EOB, bits, i))
         == (if i / G_SIZE >= |sel| then Bad(Malformed)
             else match ReadSymbol(ds[sel[i / G_SIZE]], bits)
               case Done(s, rest) =>
                 if s == EOB then Done(done + [s], rest) else After(done + [s], ParseSymbols(ds, sel, EOB, rest, i + 1))
               case More => More
               case Bad(why) => Bad(why))
  {
    if i / G_SIZE < |sel| {
      var p := ReadSymbol(ds[sel[i / G_SIZE]], bits);
      if p.Done? && p.value != EOB {
        var q := ParseSymbols(ds, sel, EOB, p.rest, i + 1);
        if q.Done? {
          Assoc(done, [p.value], q.value);
        }
      }
    }
  }

  /** groupPos symbols of group groupNo are still to come when n have been read. */
  ghost predicate AtGroup(n: nat, groupNo: int, groupPos: int) {
    0 <= groupPos < G_SIZE && -1 <= groupNo && n == (groupNo + 1) * G_SIZE - groupPos && (groupPos > 0 ==> 0 <= groupNo)
  }

  /** Moves to the next group every fifty symbols, if there is a selector for it. */
  method NextInGroup(groupNo0: int, groupPos0: int, nSelectors: nat, ghost n: nat) returns (more: bool, groupNo: int, groupPos: int)
    requires AtGroup(n, groupNo0, groupPos0) && (groupPos0 > 0 ==> groupNo0 < nSelectors)
    ensures more <==> n / G_SIZE < nSelectors
    ensures more ==> groupNo == n / G_SIZE && AtGroup(n + 1, groupNo, groupPos)
  {
    groupNo, groupPos := groupNo0, groupPos0;
    if groupPos == 0 {
      groupNo := groupNo + 1;
      if groupNo >= nSelectors {
        return false, groupNo, groupPos;
      }
      groupPos := G_SIZE;
    }
    groupPos := groupPos - 1;
    more := true;
  }

  /** One symbol; done says that it is the end mark. */
  method NextSymbol(r: BitReader, ds: seq<Decoder>, sel: seq<byte>, EOB: int, groupNo: nat, syms: seq<int>, ghost p: Parsed<seq<int>>)
    returns (st: Status, done: bool, syms': seq<int>)
    requires r.Valid() && AllSized(ds) && SelectsFrom(sel, |ds|) && groupNo == |syms| / G_SIZE < |sel|
    requires p == After(syms, ParseSymbols(ds, sel, EOB, r.Unread(), |syms|))
    modifies r
    ensures r.Valid() && (done <==> st == Fine && Agrees(st, syms', r.Unread(), p)) && (st != Fine ==> Agrees(st, syms', r.Unread(), p))
    ensures st == Fine && !done ==> p == After(syms', ParseSymbols(ds, sel, EOB, r.Unread(), |syms'|))
    ensures st == Fine ==> |syms'| == |syms| + 1 && |r.Unread()| < |old(r.Unread())|
  {
    ParseSymbolsNext(syms, ds, sel, EOB, r.Unread(), |syms|);
    var s;
    st, s := GetSymbol(r, ds[sel[groupNo]]);
    syms' := syms + [s];
    done := st == Fine && s == EOB;
  }

  /** The symbols of a block up to its end mark, changing to the next selector every fifty. */
  method ReceiveSymbols(r: BitReader, ds: seq<Decoder>, sel: seq<byte>, EOB: int) returns (st: Status, syms: seq<int>)
    requires r.Valid() && AllSized(ds) && SelectsFrom(sel, |ds|)
    modifies r
    ensures r.Valid() && Agrees(st, syms, r.Unread(), ParseSymbols(ds, sel, EOB, old(r.Unread()), 0))
  {
    ghost var p := ParseSymbols(ds, sel, EOB, r.Unread(), 0);
    AfterNothing(p);
    syms := [];
    var groupNo, groupPos := -1, 0;
    while true
      invariant r.Valid() && p == After(syms, ParseSymbols(ds, sel, EOB, r.Unread(), |syms|))
      invariant AtGroup(|syms|, groupNo, groupPos) && (groupPos > 0 ==> groupNo < |sel|)
      decreases |r.Unread()|
    {
      var more, done;
      more, groupNo, groupPos := NextInGroup(groupNo, groupPos, |sel|, |syms|);
      if !more {
        ParseSymbolsNext(syms, ds, sel, EOB, r.Unread(), |syms|);
        return DataError, syms;
      }
      st, done, syms := NextSymbol(r, ds, sel, EOB, groupNo, syms, p);
      if st != Fine || done {
        return;
      }
    }
  }
}
