/** Reading never gives bits back, whatever the input: this is why decoding any input ends. */
module ParseShrinks {
  import opened Bits
  import opened BlockFormat
  import opened BlockSyntax
  import opened Bytes
  import opened Canonical

  ghost predicate Shrinks<T>(p: Parsed<T>, bits: seq<bit>) {
    p.Done? ==> |p.rest| <= |bits|
  }

  lemma {:induction false} BoolsShrink(bits: seq<bit>, n: nat)
    ensures Shrinks(ParseBools(bits, n), bits)
    decreases n
  {
    if n > 0 && bits != [] {
      BoolsShrink(bits[1..], n - 1);
    }
  }

  lemma {:induction false} GroupsShrink(g: seq<bool>, bits: seq<bit>)
    ensures Shrinks(ParseGroups(g, bits), bits)
  {
    if g != [] {
      BoolsShrink(bits, GROUP);
      var p := ParseOneGroup(g[0], bits);
      if p.Done? {
        GroupsShrink(g[1..], p.rest);
      }
    }
  }

  lemma {:induction false} MapShrinks(bits: seq<bit>)
    ensures Shrinks(ParseMap(bits), bits)
  {
    BoolsShrink(bits, GROUP);
    var p := ParseBools(bits, GROUP);
    if p.Done? {
      GroupsShrink(p.value, p.rest);
    }
  }

  lemma {:induction false} UnaryShrinks(bits: seq<bit>, nGroups: nat, j: nat)
    ensures Shrinks(ParseUnary(bits, nGroups, j), bits)
    decreases |bits|
  {
    if bits != [] {
      UnaryShrinks(bits[1..], nGroups, j + 1);
    }
  }

  lemma {:induction false} UnariesShrink(bits: seq<bit>, nGroups: nat, n: nat)
    ensures Shrinks(ParseUnaries(bits, nGroups, n), bits)
    decreases n
  {
    if n > 0 {
      UnaryShrinks(bits, nGroups, 0);
      var p := ParseUnary(bits, nGroups, 0);
      if p.Done? {
        UnariesShrink(p.rest, nGroups, n - 1);
      }
    }
  }

  lemma {:induction false} SelectorsShrink(bits: seq<bit>)
    ensures Shrinks(ParseSelectors(bits), bits)
  {
    var p := ParseBits(bits, 3);
    if p.Done? && 2 <= p.value <= N_GROUPS {
      var q := ParseBits(p.rest, SELECTOR_BITS);
      if q.Done? {
        UnariesShrink(q.rest, p.value, q.value);
      }
    }
  }

  lemma {:induction false} DeltaShrinks(bits: seq<bit>, curr: int)
    ensures Shrinks(ParseDelta(bits, curr), bits)
    decreases |bits|
  {
    if |bits| >= 2 {
      DeltaShrinks(bits[2..], if bits[1] == 0 then curr + 1 else curr - 1);
    }
  }

  lemma {:induction false} LengthsShrink(bits: seq<bit>, curr: int, n: nat)
    ensures Shrinks(ParseLengths(bits, curr, n), bits)
    decreases n
  {
    if n > 0 {
      DeltaShrinks(bits, curr);
      var p := ParseDelta(bits, curr);
      if p.Done? {
        LengthsShrink(p.rest, p.value, n - 1);
      }
    }
  }

  lemma {:induction false} TablesShrink(bits: seq<bit>, nGroups: nat, alphaSize: nat)
    ensures Shrinks(ParseTables(bits, nGroups, alphaSize), bits)
    decreases nGroups
  {
    if nGroups > 0 {
      var b := ParseBits(bits, 5);
      if b.Done? {
        LengthsShrink(b.rest, b.value, alphaSize);
        var p := ParseTable(bits, alphaSize);
        if p.Done? {
          TablesShrink(p.rest, nGroups - 1, alphaSize);
        }
      }
    }
  }

  lemma {:induction false} BytesShrink(bits: seq<bit>, n: nat)
    ensures Shrinks(ParseBytes(bits, n), bits)
    decreases n
  {
    if n > 0 {
      var p := ParseBits(bits, OCTET);
      if p.Done? {
        BytesShrink(p.rest, n - 1);
      }
    }
  }

  lemma {:induction false} MagicShrinks(bits: seq<bit>, magic: seq<byte>)
    ensures Shrinks(ParseMagic(bits, magic), bits)
    decreases |magic|
  {
    if magic != [] {
      var p := ParseBits(bits, OCTET);
      if p.Done? {
        MagicShrinks(p.rest, magic[1..]);
      }
    }
  }

  lemma {:induction false} StartShrinks(bits: seq<bit>, nblockMAX: nat)
    ensures Shrinks(ParseStart(bits, nblockMAX), bits)
  {
    BytesShrink(bits, CRC_LEN);
    var p := ParseBytes(bits, CRC_LEN);
    if p.Done? {
      var q := ParseBits(p.rest, 1);
      if q.Done? {
        BytesShrink(q.rest, PTR_LEN);
      }
    }
  }

  lemma {:induction false} HeadShrinks(bits: seq<bit>, nblockMAX: nat)
    ensures Shrinks(ParseHead(bits, nblockMAX), bits)
  {
    StartShrinks(bits, nblockMAX);
    var p := ParseStart(bits, nblockMAX);
    if p.Done? {
      MapShrinks(p.rest);
      var q := ParseMap(p.rest);
      if q.Done? && |q.value| == 256 && AlphaSize(q.value) != 2 {
        SelectorsShrink(q.rest);
        var s := ParseSelectors(q.rest);
        if s.Done? {
          TablesShrink(s.rest, s.value.nGroups, AlphaSize(q.value));
        }
      }
    }
  }
}
