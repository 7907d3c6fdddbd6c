/** Whether the selectors of a block fit the arrays of the decoder, which takes any count of fifteen bits. */
module SelectorRoom {
  import opened Arith
  import opened Bits
  import opened BlockFormat
  import opened BlockSyntax
  import opened Bytes
  import opened Canonical
  import opened SymbolMaps

  /** Not the fault that the decoder does not see. */
  ghost predicate Seen<T>(p: Parsed<T>) {
    p != Bad(TooMany)
  }

  lemma {:induction false} BytesSeen(bits: seq<bit>, n: nat)
    ensures Seen(ParseBytes(bits, n))
    decreases n
  {
    var p := ParseBits(bits, OCTET);
    if n > 0 && p.Done? {
      BytesSeen(p.rest, n - 1);
    }
  }

  lemma {:induction false} StartSeen(bits: seq<bit>, nblockMAX: nat)
    ensures Seen(ParseStart(bits, nblockMAX))
  {
    BytesSeen(bits, CRC_LEN);
    var p := ParseBytes(bits, CRC_LEN);
    if p.Done? && |p.rest| >= 1 {
      BytesSeen(p.rest[1..], PTR_LEN);
    }
  }

  lemma {:induction false} BoolsSeen(bits: seq<bit>, n: nat)
    ensures Seen(ParseBools(bits, n))
    decreases n
  {
    if n > 0 && bits != [] {
      BoolsSeen(bits[1..], n - 1);
    }
  }

  lemma {:induction false} GroupsSeen(g: seq<bool>, bits: seq<bit>)
    ensures Seen(ParseGroups(g, bits))
  {
    if g != [] {
      BoolsSeen(bits, GROUP);
      var p := ParseOneGroup(g[0], bits);
      if p.Done? {
        GroupsSeen(g[1..], p.rest);
      }
    }
  }

  lemma {:induction false} MapSeen(bits: seq<bit>)
    ensures Seen(ParseMap(bits))
  {
    BoolsSeen(bits, GROUP);
    var p := ParseBools(bits, GROUP);
    if p.Done? {
      GroupsSeen(p.value, p.rest);
    }
  }

  lemma {:induction false} UnarySeen(bits: seq<bit>, nGroups: nat, j: nat)
    ensures Seen(ParseUnary(bits, nGroups, j))
    decreases |bits|
  {
    if bits != [] {
      UnarySeen(bits[1..], nGroups, j + 1);
    }
  }

  lemma {:induction false} UnariesSeen(bits: seq<bit>, nGroups: nat, n: nat)
    ensures Seen(ParseUnaries(bits, nGroups, n))
    decreases n
  {
    if n > 0 {
      UnarySeen(bits, nGroups, 0);
      var p := ParseUnary(bits, nGroups, 0);
      if p.Done? {
        UnariesSeen(p.rest, nGroups, n - 1);
      }
    }
  }

  lemma {:induction false} DeltaSeen(bits: seq<bit>, curr: int)
    ensures Seen(ParseDelta(bits, curr))
    decreases |bits|
  {
    if |bits| >= 2 {
      DeltaSeen(bits[2..], if bits[1] == 0 then curr + 1 else curr - 1);
    }
  }

  lemma {:induction false} LengthsSeen(bits: seq<bit>, curr: int, n: nat)
    ensures Seen(ParseLengths(bits, curr, n))
    decreases n
  {
    if n > 0 {
      DeltaSeen(bits, curr);
      var p := ParseDelta(bits, curr);
      if p.Done? {
        LengthsSeen(p.rest, p.value, n - 1);
      }
    }
  }

  lemma {:induction false} TablesSeen(bits: seq<bit>, nGroups: nat, alphaSize: nat)
    ensures Seen(ParseTables(bits, nGroups, alphaSize))
    decreases nGroups
  {
    if nGroups > 0 {
      var b := ParseBits(bits, 5);
      if b.Done? {
        LengthsSeen(b.rest, b.value, alphaSize);
      }
      var p := ParseTable(bits, alphaSize);
      if p.Done? {
        TablesSeen(p.rest, nGroups - 1, alphaSize);
      }
    }
  }

  /** The count says more selectors than there is room for, and one more than there is room for does come. */
  ghost predicate SelectorsOverrun(bits: seq<bit>) {
    var g := ParseBits(bits, 3);
    && g.Done? && 2 <= g.value <= N_GROUPS
    && var n := ParseBits(g.rest, SELECTOR_BITS);
    && n.Done? && n.value > MAX_SELECTORS && ParseUnaries(n.rest, g.value, MAX_SELECTORS + 1).Done?
  }

  lemma {:induction false} SelectorsFit(bits: seq<bit>)
    ensures ParseSelectors(bits) == Bad(TooMany) <==> SelectorsOverrun(bits)
  {
    var g := ParseBits(bits, 3);
    if g.Done? && 2 <= g.value <= N_GROUPS {
      var n := ParseBits(g.rest, SELECTOR_BITS);
      if n.Done? && n.value >= 1 {
        UnariesSeen(n.rest, g.value, if n.value <= MAX_SELECTORS then n.value else MAX_SELECTORS + 1);
      }
    }
  }

  ghost predicate HeadOverruns(bits: seq<bit>, nblockMAX: nat) {
    var s := ParseStart(bits, nblockMAX);
    && s.Done?
    && var u := ParseMap(s.rest);
    && u.Done? && |u.value| == 256 && AlphaSize(u.value) > 2 && SelectorsOverrun(u.rest)
  }

  /**
   * Reading a header stays inside the selector arrays exactly if the count it states is at most what they
   * hold, or the input ends or is found wrong before one selector too many has come.
   */
  lemma {:induction false} HeadFits(bits: seq<bit>, nblockMAX: nat)
    ensures ParseHead(bits, nblockMAX) == Bad(TooMany) <==> HeadOverruns(bits, nblockMAX)
  {
    StartSeen(bits, nblockMAX);
    var s := ParseStart(bits, nblockMAX);
    if s.Done? {
      MapSeen(s.rest);
      var u := ParseMap(s.rest);
      if u.Done? && |u.value| == 256 && AlphaSize(u.value) > 2 {
        SelectorsFit(u.rest);
        TailFits(u.rest, AlphaSize(u.value));
      }
    }
  }

  lemma {:induction false} TailFits(bits: seq<bit>, alphaSize: nat)
    ensures ParseTail(bits, alphaSize) == Bad(TooMany) <==> ParseSelectors(bits) == Bad(TooMany)
  {
    var x := ParseSelectors(bits);
    if x.Done? {
      TablesSeen(x.rest, x.value.nGroups, alphaSize);
    }
  }

  /** n selectors, all of them zero, for two tables. */
  ghost function LongSelectors(n: nat): seq<bit> {
    BitsOf(2, 3) + (BitsOf(n, SELECTOR_BITS) + UnariesBits(seq(n, _ => 0)))
  }

  lemma {:induction false} LongSelectorsOverrun(n: nat)
    requires MAX_SELECTORS < n < SELECTOR_LIMIT
    ensures SelectorsOverrun(LongSelectors(n))
  {
    var js := seq(n, _ => 0);
    var b2 := UnariesBits(js);
    assert Pow2(3) == 8;
    BitsBack(2, 3, BitsOf(n, SELECTOR_BITS) + b2);
    Limits();
    BitsBack(n, SELECTOR_BITS, b2);
    var m := MAX_SELECTORS + 1;
    assert js == js[..m] + js[m..];
    UnariesCut(js[..m], js[m..]);
    UnariesBack(js[..m], 2, UnariesBits(js[m..]));
  }

  /** A whole header that goes wrong, with one byte in use. */
  ghost function LongHead(n: nat): seq<bit> {
    StartBits(0, false, 0) + (MapBits([true] + NoneSet(255)) + LongSelectors(n))
  }

  /** Every count that the field can hold and the arrays cannot is a way to get there. */
  lemma {:induction false} LongHeadOverruns(n: nat, nblockMAX: nat)
    requires MAX_SELECTORS < n < SELECTOR_LIMIT
    ensures ParseHead(LongHead(n), nblockMAX) == Bad(TooMany)
  {
    var u := [true] + NoneSet(255);
    StartBack(0, false, 0, nblockMAX, MapBits(u) + LongSelectors(n));
    MapBack(u, LongSelectors(n));
    OneInUse(u);
    LongSelectorsOverrun(n);
    HeadFits(LongHead(n), nblockMAX);
  }

  lemma {:induction false} UnariesCut(a: seq<nat>, b: seq<nat>)
    ensures UnariesBits(a + b) == UnariesBits(a) + UnariesBits(b)
  {
    if a == [] {
      assert [] + b == b && [] + UnariesBits(b) == UnariesBits(b);
    } else {
      UnariesCut(a[1..], b);
      assert (a + b)[1..] == a[1..] + b;
      Assoc(UnaryBits(a[0]), UnariesBits(a[1..]), UnariesBits(b));
    }
  }

  lemma {:induction false} OneInUse(u: seq<bool>)
    requires |u| > 0 && u[0]
    ensures AlphaSize(u) > 2
  {
    UsedMono(u, 1, |u|);
    assert Used(u, 1) == Used(u, 0) + 1;
  }
}
