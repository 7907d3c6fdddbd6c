/** unecmify: reads runs, rebuilds their sectors and verifies the whole. */
module EcmDecoder {
  import opened Bits
  import opened Bytes
  import opened Closing
  import opened EcmCount
  import opened EcmEncoder
  import opened EcmFormat
  import opened Edc
  import opened Galois
  import opened ProductCode
  import opened SectorRebuild
  import opened Sectors

  /** One sector: its payload is read into the buffer, which may hold anything else, and it is rebuilt there. */
  method RebuildItem(t: Luts, kind: nat, payload: seq<octet>, buffer: seq<octet>, ghost item: seq<octet>, ghost k: Checks)
    returns (sector: seq<octet>, buffer': seq<octet>)
    requires LutsOk(t) && ChecksOk(k) && 1 <= kind <= 3 && |payload| == PayloadLen(kind) && |buffer| == SECTOR_LEN
    ensures |sector| == SizeOf(kind) && |buffer'| == SECTOR_LEN
    ensures IsSector(k, kind, item) && payload == Payload(kind, item) ==> sector == item
  {
    if kind == 1 {
      var b := buffer[..12] + payload[..3] + buffer[15..16] + payload[3..] + buffer[0x810..];
      assert b[12..15] == payload[..3] && b[16..0x810] == payload[3..];
      assert payload[..3] + payload[3..] == payload;
      sector := RebuildMode1(t, b, k);
      buffer' := sector;
    } else if kind == 2 {
      var b := buffer[..20] + payload + buffer[0x818..];
      assert b[20..0x818] == payload;
      sector := RebuildForm1(t, b, k);
      buffer' := b[..16] + sector;
    } else {
      var b := buffer[..20] + payload + buffer[0x92C..];
      assert b[20..0x92C] == payload;
      sector := RebuildForm2(t, b, k);
      buffer' := b[..16] + sector;
    }
    if IsSector(k, kind, item) && payload == Payload(kind, item) {
      PayloadDetermines(k, kind, item, sector);
    }
  }

  lemma {:induction false} PayloadSize(kind: nat, item: seq<octet>)
    requires 1 <= kind <= 3 && |item| == SizeOf(kind)
    ensures |Payload(kind, item)| == PayloadLen(kind)
  {
  }

  /** What the input holds if it was written for these items. */
  ghost predicate Holds(s: seq<octet>, kind: nat, items: seq<seq<octet>>, i: nat, rest: seq<octet>) {
    i <= |items| && s == Stored(kind, items[i..]) + rest
  }

  lemma {:induction false} StoredAppend(kind: nat, xs: seq<seq<octet>>, ys: seq<seq<octet>>)
    ensures Stored(kind, xs + ys) == Stored(kind, xs) + Stored(kind, ys)
    decreases |ys|
  {
    if ys == [] {
      assert xs + ys == xs;
      assert Stored(kind, xs) + [] == Stored(kind, xs);
    } else {
      var u, y := ys[..|ys| - 1], ys[|ys| - 1];
      assert ys == u + [y] && xs + ys == (xs + u) + [y];
      StoredAppend(kind, xs, u);
      StoredSnoc(kind, xs + u, y);
      StoredSnoc(kind, u, y);
      Assoc(Stored(kind, xs), Stored(kind, u), StoredItem(kind, y));
    }
  }

  lemma {:induction false} HoldsNext(s: seq<octet>, kind: nat, items: seq<seq<octet>>, i: nat, rest: seq<octet>)
    requires Holds(s, kind, items, i, rest) && i < |items|
    ensures var x := StoredItem(kind, items[i]); |x| <= |s| && s[..|x|] == x && Holds(s[|x|..], kind, items, i + 1, rest)
  {
    var x := StoredItem(kind, items[i]);
    assert items[i..] == [items[i]] + items[i + 1..];
    StoredAppend(kind, [items[i]], items[i + 1..]);
    StoredSnoc(kind, [], items[i]);
    assert [] + [items[i]] == [items[i]] && [] + x == x;
    Assoc(x, Stored(kind, items[i + 1..]), rest);
  }

  /** A run of sectors. */
  method DecodeSectors(t: Luts, kind: nat, num: nat, s: seq<octet>, buffer0: seq<octet>, ghost items: seq<seq<octet>>, ghost rest: seq<octet>, ghost k: Checks)
    returns (ok: bool, out: seq<octet>, s': seq<octet>, buffer: seq<octet>)
    requires LutsOk(t) && ChecksOk(k) && 1 <= kind <= 3 && |buffer0| == SECTOR_LEN
    ensures |buffer| == SECTOR_LEN && |s'| <= |s|
    ensures ItemsOk(k, kind, items) && num == |items| && Holds(s, kind, items, 0, rest) ==> ok && out == Raw(items) && s' == rest
  {
    ghost var coded := ItemsOk(k, kind, items) && num == |items| && Holds(s, kind, items, 0, rest);
    out, s', buffer := [], s, buffer0;
    var i := 0;
    assert coded ==> items[..0] == [];
    while i < num
      invariant 0 <= i <= num && |buffer| == SECTOR_LEN && |s'| <= |s|
      invariant coded ==> Holds(s', kind, items, i, rest) && out == Raw(items[..i])
    {
      if coded {
        NextItem(k, s', kind, items, i, rest);
      }
      if |s'| < PayloadLen(kind) {
        return false, out, s', buffer;
      }
      var sector;
      sector, buffer := RebuildItem(t, kind, s'[..PayloadLen(kind)], buffer, if coded then items[i] else [], k);
      out := out + sector;
      s' := s'[PayloadLen(kind)..];
      i := i + 1;
    }
    if coded {
      assert items[..num] == items;
      assert [] + rest == rest;
    }
    ok := true;
  }

  lemma {:induction false} NextItem(k: Checks, s: seq<octet>, kind: nat, items: seq<seq<octet>>, i: nat, rest: seq<octet>)
    requires 1 <= kind <= 3 && ItemsOk(k, kind, items) && i < |items| && Holds(s, kind, items, i, rest)
    ensures IsSector(k, kind, items[i]) && |items[i]| == SizeOf(kind) && PayloadLen(kind) <= |s|
    ensures s[..PayloadLen(kind)] == Payload(kind, items[i]) && Holds(s[PayloadLen(kind)..], kind, items, i + 1, rest)
    ensures Raw(items[..i + 1]) == Raw(items[..i]) + items[i]
  {
    ItemSize(k, kind, items, i);
    PayloadSize(kind, items[i]);
    HoldsNext(s, kind, items, i, rest);
    RawNext(items, i);
  }

  lemma {:induction false} LiteralSize(k: Checks, items: seq<seq<octet>>)
    requires ItemsOk(k, 0, items)
    ensures |Raw(items)| == |items|
  {
    if items != [] {
      var n := |items| - 1;
      ItemSize(k, 0, items, n);
      var xs := items[..n];
      forall i | 0 <= i < |xs|
        ensures ItemOk(k, 0, xs[i])
      {
        assert ItemOk(k, 0, items[i]);
      }
      LiteralSize(k, xs);
    }
  }

  /** A run of literal bytes, copied a buffer at a time. */
  method DecodeLiterals(num0: nat, s: seq<octet>) returns (ok: bool, out: seq<octet>, s': seq<octet>)
    ensures ok <==> num0 <= |s|
    ensures |s'| <= |s| && (ok ==> out == s[..num0] && s' == s[num0..])
  {
    out, s' := [], s;
    var num := num0;
    while num > 0
      invariant 0 <= num <= num0 && num0 - num <= |s| && out == s[..num0 - num] && s' == s[num0 - num..]
    {
      var b := num;
      if b > SECTOR_LEN {
        b := SECTOR_LEN;
      }
      if |s'| < b {
        return false, out, s';
      }
      assert s[..num0 - num + b] == s[..num0 - num] + s'[..b];
      assert s'[b..] == s[num0 - num + b..];
      out := out + s'[..b];
      s' := s'[b..];
      num := num - b;
    }
    ok := true;
  }

  /** One record after its header. */
  method DecodeRun(t: Luts, kind: nat, num: nat, s: seq<octet>, buffer0: seq<octet>, ghost items: seq<seq<octet>>, ghost rest: seq<octet>, ghost k: Checks)
    returns (ok: bool, out: seq<octet>, s': seq<octet>, buffer: seq<octet>)
    requires LutsOk(t) && ChecksOk(k) && kind <= 3 && |buffer0| == SECTOR_LEN
    ensures |buffer| == SECTOR_LEN && |s'| <= |s|
    ensures ItemsOk(k, kind, items) && num == |items| && Holds(s, kind, items, 0, rest) ==> ok && out == Raw(items) && s' == rest
  {
    buffer := buffer0;
    if kind == 0 {
      if ItemsOk(k, kind, items) && num == |items| && Holds(s, kind, items, 0, rest) {
        LiteralSize(k, items);
        LiteralsStored(items);
        assert items[0..] == items;
      }
      ok, out, s' := DecodeLiterals(num, s);
    } else {
      ok, out, s', buffer := DecodeSectors(t, kind, num, s, buffer0, items, rest, k);
    }
  }

  // ---- the whole file ----

  /** i runs have been decoded; s holds the rest of the file. */
  ghost predicate Stands(k: Checks, rs: seq<Run>, i: nat, s: seq<octet>, out: seq<octet>) {
    && RunsOk(k, rs) && i <= |rs| && out == AllRaw(rs[..i])
    && s == RunsFrom(rs, i) + EndBytes(k, AllRaw(rs))
  }

  lemma {:induction false} AtRun(k: Checks, rs: seq<Run>, i: nat, s: seq<octet>, out: seq<octet>)
    requires Stands(k, rs, i, s, out) && i < |rs|
    ensures var items := rs[i].items; var next := RunsFrom(rs, i + 1) + EndBytes(k, AllRaw(rs));
      && RunOk(k, rs[i])
      && ReadHeader(s) == Some(Header(rs[i].kind, |items| - 1, Stored(rs[i].kind, items) + next))
      && Stands(k, rs, i + 1, next, out + Raw(items))
  {
    assert RunOk(k, rs[i]);
    var r := rs[i];
    NextStands(k, rs, i, s, out);
    Record(r.kind, r.items, r.bytes, RunsFrom(rs, i + 1), EndBytes(k, AllRaw(rs)));
  }

  lemma {:induction false} NextStands(k: Checks, rs: seq<Run>, i: nat, s: seq<octet>, out: seq<octet>)
    requires Stands(k, rs, i, s, out) && i < |rs|
    ensures Stands(k, rs, i + 1, RunsFrom(rs, i + 1) + EndBytes(k, AllRaw(rs)), out + Raw(rs[i].items))
  {
    assert rs[..i + 1][..i] == rs[..i];
  }

  lemma {:induction false} Record(kind: nat, items: seq<seq<octet>>, bytes: seq<octet>, more: seq<octet>, end: seq<octet>)
    requires kind <= 3 && 1 <= |items| <= MAX_RUN && bytes == RecordBytes(kind, items)
    ensures ReadHeader(bytes + more + end) == Some(Header(kind, |items| - 1, Stored(kind, items) + (more + end)))
  {
    HeaderBack(kind, |items| - 1, Stored(kind, items) + (more + end));
    Three(TypeCount(kind, |items| - 1), Stored(kind, items), more, end);
  }

  lemma {:induction false} Three(a: seq<octet>, b: seq<octet>, c: seq<octet>, d: seq<octet>)
    ensures a + b + c + d == a + (b + (c + d))
  {
  }

  lemma {:induction false} AtEnd(k: Checks, rs: seq<Run>, i: nat, s: seq<octet>, out: seq<octet>)
    requires Stands(k, rs, i, s, out) && i == |rs|
    ensures out == AllRaw(rs) && ReadHeader(s) == Some(Header(0, END_MARK, k.det(out)))
  {
    assert rs[..i] == rs;
    assert [] + EndBytes(k, AllRaw(rs)) == EndBytes(k, AllRaw(rs));
    HeaderBack(0, END_MARK, k.det(out));
  }

  /** The items of run i, if there is one. */
  ghost function ItemsOf(rs: seq<Run>, i: nat): seq<seq<octet>> {
    if i < |rs| then rs[i].items else []
  }

  ghost function After(k: Checks, rs: seq<Run>, i: nat): seq<octet> {
    if i < |rs| then RunsFrom(rs, i + 1) + EndBytes(k, AllRaw(rs)) else []
  }

  lemma {:induction false} ReadShrinks(c: nat, num: nat, j: nat, s: seq<octet>)
    ensures var r := ReadGroups(c, num, j, s); r.Some? ==> |r.value.1| <= |s|
    decreases |s|
  {
    if c >= 128 && s != [] {
      var x := Dec(s[0]);
      if j <= 3 && x % 128 < Limit(j) {
        ReadShrinks(x, num + Weighed(x % 128, j), j + 1, s[1..]);
      }
    }
  }

  lemma {:induction false} HeaderShrinks(s: seq<octet>)
    ensures var r := ReadHeader(s); r.Some? ==> |r.value.rest| < |s| && r.value.kind <= 3
  {
    if s != [] {
      var c := Dec(s[0]);
      ReadShrinks(c, c / 4 % 32, 0, s[1..]);
    }
  }

  /** One record, or the end mark. */
  method Turn(t: Luts, s: seq<octet>, buffer0: seq<octet>, out0: seq<octet>, edc0: word, ghost rs: seq<Run>, ghost i: nat, ghost k: Checks)
    returns (st: Option<bool>, s': seq<octet>, buffer: seq<octet>, out: seq<octet>, edc: word)
    requires LutsOk(t) && ChecksOk(k) && |buffer0| == SECTOR_LEN && EdcIs(edc0, out0)
    ensures |buffer| == SECTOR_LEN && EdcIs(edc, out) && (st == Some(false) ==> |s'| < |s|)
    ensures Stands(k, rs, i, s, out0) ==>
              if i < |rs| then st == Some(false) && Stands(k, rs, i + 1, s', out)
              else st == Some(true) && out == AllRaw(rs) && s' == k.det(out)
  {
    s', buffer, out, edc := s, buffer0, out0, edc0;
    ghost var coded := Stands(k, rs, i, s, out0);
    if coded {
      if i < |rs| {
        AtRun(k, rs, i, s, out0);
      } else {
        AtEnd(k, rs, i, s, out0);
      }
    }
    HeaderShrinks(s);
    var h := ReadTypeCount(s);
    if h == None {
      return None, s', buffer, out, edc;
    }
    var kind, num, rest := h.value.kind, h.value.n, h.value.rest;
    if num == END_MARK {
      return Some(true), rest, buffer, out, edc;
    }
    ghost var items, next := ItemsOf(rs, i), After(k, rs, i);
    assert items[0..] == items;
    var ok, more;
    ok, more, s', buffer := DecodeRun(t, kind, num + 1, rest, buffer0, items, next, k);
    if !ok {
      return None, s', buffer, out, edc;
    }
    edc := EdcFeed(t, edc, more, out);
    out := out + more;
    st := Some(false);
  }

  /** Whatever ecmify wrote decodes to its input, and the final check passes. */
  method Unecmify(t: Luts, file: seq<octet>, ghost rs: seq<Run>, ghost k: Checks) returns (r: Result<seq<octet>>)
    requires LutsOk(t) && ChecksOk(k)
    ensures RunsOk(k, rs) && file == EcmBytes(k, rs) ==> r == Ok(AllRaw(rs))
  {
    ghost var coded := RunsOk(k, rs) && file == EcmBytes(k, rs);
    if |file| < 4 || file[..4] != ECM_MAGIC {
      return Corrupt;
    }
    var s := file[4..];
    var buffer: seq<octet> := seq(SECTOR_LEN, _ => 0);
    var out: seq<octet>, edc: word := [], 0;
    EdcStart();
    if coded {
      Begins(k, rs);
    }
    ghost var i := 0;
    var done := false;
    while !done
      invariant |buffer| == SECTOR_LEN && EdcIs(edc, out)
      invariant coded ==> if done then out == AllRaw(rs) && s == k.det(out) else Stands(k, rs, i, s, out)
      decreases !done, |s|
    {
      var st;
      st, s, buffer, out, edc := Turn(t, s, buffer, out, edc, rs, i, k);
      if st == None {
        return Corrupt;
      }
      done := st.value;
      i := i + 1;
    }
    if |s| < 4 {
      return Corrupt;
    }
    FinalCheck(k, edc, out, s[..4]);
    assert coded ==> s[..4] == s;
    r := if GetLsb(s[..4]) == edc then Ok(out) else Corrupt;
  }

  lemma {:induction false} Begins(k: Checks, rs: seq<Run>)
    requires RunsOk(k, rs)
    ensures Stands(k, rs, 0, EcmBytes(k, rs)[4..], []) && EcmBytes(k, rs)[..4] == ECM_MAGIC
  {
    RunsFromStart(rs);
    assert rs[..0] == [];
    assert EcmBytes(k, rs)[4..] == RunsBytes(rs) + EndBytes(k, AllRaw(rs));
  }

  lemma {:induction false} FinalCheck(k: Checks, edc: word, out: seq<octet>, stored: seq<octet>)
    requires ChecksOk(k) && EdcIs(edc, out) && |stored| == 4
    ensures GetLsb(stored) == edc <==> stored == k.det(out)
  {
    assert Look(0);
    DetectionBytes(k, out, edc, stored);
  }

  /** Encoding and decoding any input, with any queue size, gives the input back. */
  method EcmRoundTrip(data: seq<octet>, queue_size: nat) returns (r: Result<seq<octet>>)
    requires SECTOR_LEN <= queue_size
    ensures r == Ok(data)
  {
    var t := Init();
    ghost var k := TheChecks();
    var file;
    ghost var runs;
    file, runs := Ecmify(t, data, queue_size, k);
    r := Unecmify(t, file, runs, k);
  }
}
