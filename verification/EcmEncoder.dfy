/** ecmify: classifies the input from a refilled queue and writes runs. */
module EcmEncoder {
  import opened Bits
  import opened Closing
  import opened EcmCount
  import opened EcmFormat
  import opened EcmKinds
  import opened Edc
  import opened Galois
  import opened ProductCode
  import opened SectorRebuild
  import opened Sectors

  /** w is the running detection code of s. */
  ghost predicate EdcIs(w: word, s: seq<octet>) {
    forall u {:trigger Look(u)} :: Look(u) ==> w == Remainder(0, s)
  }

  lemma {:induction false} EdcStart()
    ensures EdcIs(0, [])
  {
  }

  lemma {:induction false} EdcMore(w: word, s: seq<octet>, more: seq<octet>, w': word)
    requires EdcIs(w, s) && w' == Remainder(w, more)
    ensures EdcIs(w', s + more)
  {
    assert Look(0);
    RemainderAppend(0, s, more);
  }

  method EdcFeed(t: Luts, w: word, more: seq<octet>, ghost s: seq<octet>) returns (w': word)
    requires LutsOk(t) && EdcIs(w, s)
    ensures EdcIs(w', s + more)
  {
    w' := Compute(t.edc, w, more);
    EdcMore(w, s, more, w');
  }

  lemma {:induction false} EdcStored(k: Checks, w: word, s: seq<octet>)
    requires ChecksOk(k) && EdcIs(w, s)
    ensures PutLsb(w) == k.det(s)
  {
    assert Look(0);
    DetectionIs(k, s, w);
  }

  // ---- writing one run ----

  /** What is written of one sector. */
  function Stripped(kind: nat, s: seq<octet>): seq<octet>
    requires 1 <= kind <= 3 && |s| == SizeOf(kind)
  {
    if kind == 1 then s[0x00C..0x00C + 0x003] + s[0x010..0x010 + 0x800]
    else if kind == 2 then s[0x004..0x004 + 0x804]
    else s[0x004..0x004 + 0x918]
  }

  lemma {:induction false} ItemSize(k: Checks, kind: nat, items: seq<seq<octet>>, i: nat)
    requires ItemsOk(k, kind, items) && i < |items|
    ensures |items[i]| == SizeOf(kind) && ItemOk(k, kind, items[i])
  {
    assert ItemOk(k, kind, items[i]);
  }

  lemma {:induction false} RawNext(items: seq<seq<octet>>, i: nat)
    requires i < |items|
    ensures Raw(items[..i + 1]) == Raw(items[..i]) + items[i]
  {
    assert items[..i + 1] == items[..i] + [items[i]];
    RawSnoc(items[..i], items[i]);
  }

  lemma {:induction false} RawPrefix(items: seq<seq<octet>>, i: nat, j: nat)
    requires i <= j <= |items|
    ensures |Raw(items[..i])| <= |Raw(items[..j])| && Raw(items[..j])[..|Raw(items[..i])|] == Raw(items[..i])
    decreases j
  {
    if i < j {
      RawPrefix(items, i, j - 1);
      RawNext(items, j - 1);
    }
  }

  /** The bytes of item i stand at the end of those of the items up to it. */
  lemma {:induction false} ItemAt(items: seq<seq<octet>>, raw: seq<octet>, i: nat)
    requires i < |items| && raw == Raw(items)
    ensures var n := |Raw(items[..i])|; n + |items[i]| <= |raw| && raw[n..n + |items[i]|] == items[i]
  {
    var n := |Raw(items[..i])|;
    RawNext(items, i);
    RawPrefix(items, i + 1, |items|);
    assert items[..|items|] == items;
    assert raw[n..n + |items[i]|] == raw[..n + |items[i]|][n..];
  }

  lemma {:induction false} StoredNext(kind: nat, items: seq<seq<octet>>, i: nat)
    requires i < |items|
    ensures Stored(kind, items[..i + 1]) == Stored(kind, items[..i]) + StoredItem(kind, items[i])
  {
    assert items[..i + 1] == items[..i] + [items[i]];
    StoredSnoc(kind, items[..i], items[i]);
  }

  lemma {:induction false} LiteralsStored(items: seq<seq<octet>>)
    ensures Stored(0, items) == Raw(items)
  {
    if items != [] {
      LiteralsStored(items[..|items| - 1]);
    }
  }

  /** The sectors of a run, stripped to their payload. */
  method StripSectors(kind: nat, raw: seq<octet>, count: nat, ghost items: seq<seq<octet>>, ghost k: Checks) returns (out: seq<octet>)
    requires 1 <= kind <= 3 && ItemsOk(k, kind, items) && count == |items| && raw == Raw(items)
    ensures out == Stored(kind, items)
  {
    out := [];
    var i, n := 0, 0;
    assert items[..0] == [];
    while i < count
      invariant 0 <= i <= count && n == |Raw(items[..i])| && out == Stored(kind, items[..i])
    {
      ItemSize(k, kind, items, i);
      ItemAt(items, raw, i);
      RawNext(items, i);
      StoredNext(kind, items, i);
      var sector := raw[n..n + SizeOf(kind)];
      out := out + Stripped(kind, sector);
      n := n + SizeOf(kind);
      i := i + 1;
    }
    assert items[..count] == items;
  }

  /** write_sectors. */
  method WriteSectors(kind: nat, count: nat, raw: seq<octet>, ghost items: seq<seq<octet>>, ghost k: Checks) returns (out: seq<octet>)
    requires ItemsOk(k, kind, items) && 1 <= count == |items| <= MAX_RUN && raw == Raw(items)
    ensures out == RecordBytes(kind, items)
  {
    out := WriteTypeCount(kind, count);
    if kind == 0 {
      LiteralsStored(items);
      out := out + raw;
    } else {
      var body := StripSectors(kind, raw, count, items, k);
      out := out + body;
    }
  }

  // ---- the loop ----

  class Ecmifier {
    const t: Luts
    const data: seq<octet>
    const queue_size: nat
    ghost const k: Checks
    var queue: seq<octet>
    var input_bytes_queued: nat
    var input_bytes_checked: nat
    var input_edc: word
    var curtype: int
    var curtype_count: nat
    var curtype_in_start: nat
    var literal_skip: nat
    var out: seq<octet>
    ghost var runs: seq<Run>
    /** The items of the current run. */
    ghost var items: seq<seq<octet>>
    /** The kinds of all items so far. */
    ghost var kinds: seq<int>

    ghost predicate Queued()
      reads this
    {
      && LutsOk(t) && ChecksOk(k) && SECTOR_LEN <= queue_size
      && input_bytes_checked <= input_bytes_queued <= |data|
      && queue == data[input_bytes_checked..input_bytes_queued] && EdcIs(input_edc, data[..input_bytes_queued])
    }

    /** The runs written and the current one are what has been looked at. */
    ghost predicate Covered()
      reads this
    {
      && RunsOk(k, runs) && out == ECM_MAGIC + RunsBytes(runs)
      && curtype_in_start <= input_bytes_checked <= |data| && AllRaw(runs) == data[..curtype_in_start]
      && Raw(items) == data[curtype_in_start..input_bytes_checked] && -1 <= curtype <= 3 && |items| <= MAX_RUN
      && (if curtype < 0 then items == [] else ItemsOk(k, curtype, items) && curtype_count == |items| > 0)
    }

    ghost function State(): Scan
      reads this
    {
      Scan(input_bytes_checked, input_bytes_queued, curtype, literal_skip)
    }

    /** The runs have the kinds, each as long as it can be. */
    ghost predicate Spelled()
      reads this
    {
      Spells(kinds, runs, curtype, |items|)
    }

    constructor (luts: Luts, input: seq<octet>, size: nat, ghost checks: Checks)
      requires LutsOk(luts) && ChecksOk(checks) && SECTOR_LEN <= size
      ensures Queued() && Covered() && data == input && k == checks && queue_size == size
      ensures State() == START && curtype_count == 0 && curtype_in_start == 0 && Spelled() && kinds == [] && runs == []
    {
      t, data, queue_size, k := luts, input, size, checks;
      queue, input_bytes_queued, input_bytes_checked, input_edc := [], 0, 0, 0;
      curtype, curtype_count, curtype_in_start, literal_skip := -1, 0, 0, 0;
      out, runs, items, kinds := ECM_MAGIC, [], [], [];
      new;
      EdcStart();
      assert ECM_MAGIC + [] == ECM_MAGIC && data[0..0] == [] && data[..0] == [];
    }

    /** Reads more input if the queue runs low. */
    method Refill()
      requires Queued()
      modifies this`queue, this`input_bytes_queued, this`input_edc
      ensures Queued() && (queue == [] ==> input_bytes_checked == |data|)
      ensures input_bytes_queued == Refilled(|data|, queue_size, old(State()))
    {
      if |queue| < SECTOR_LEN && |queue| < |data| - input_bytes_queued {
        var willread := |data| - input_bytes_queued;
        var maxread := queue_size - |queue|;
        if willread > maxread {
          willread := maxread;
        }
        if willread > 0 {
          var more := data[input_bytes_queued..input_bytes_queued + willread];
          input_edc := EdcFeed(t, input_edc, more, data[..input_bytes_queued]);
          QueueGrows(data, input_bytes_checked, input_bytes_queued, willread);
          input_bytes_queued := input_bytes_queued + willread;
          queue := queue + more;
        }
      }
    }

    /** The type of what comes next; -1 at the end of the input. z is where the loop stood before the queue was refilled. */
    method Classify(ghost z: Scan) returns (detecttype: int)
      requires Queued() && (queue == [] ==> input_bytes_checked == |data|) && -1 <= curtype <= 3
      requires Within(data, queue_size, z) && State() == z.(queued := Refilled(|data|, queue_size, z))
      modifies this`literal_skip
      ensures -1 <= detecttype <= 3 && (detecttype == -1 <==> input_bytes_checked == |data|)
      ensures detecttype >= 0 ==> detecttype == KindAt(k, data, queue_size, z) && literal_skip == NextScan(k, data, queue_size, z).skip
      ensures detecttype >= 0 ==> SizeOf(detecttype) <= |queue| && ItemOk(k, detecttype, queue[..SizeOf(detecttype)])
    {
      if queue == [] {
        return -1;
      }
      if literal_skip > 0 {
        literal_skip := literal_skip - 1;
        return 0;
      }
      if curtype >= 2 && |queue| >= 0x10 && queue[..12] == SYNC && queue[0xF] == 0x02 {
        literal_skip := 15;
        return 0;
      }
      detecttype := DetectSector(t, queue, k);
    }

    /** Writes out the current run. */
    method Flush()
      requires Queued() && Covered() && curtype >= 0
      modifies this`out, this`runs, this`items, this`curtype_in_start
      ensures |runs| > 0 && runs[..|runs| - 1] == old(runs) && runs[|runs| - 1].kind == curtype && runs[|runs| - 1].items == old(items)
      ensures Queued() && RunsOk(k, runs) && out == ECM_MAGIC + RunsBytes(runs) && items == []
      ensures curtype_in_start == input_bytes_checked && AllRaw(runs) == data[..input_bytes_checked]
    {
      var raw := data[curtype_in_start..input_bytes_checked];
      var more := WriteSectors(curtype, curtype_count, raw, items, k);
      ghost var r := Run(curtype, items, more);
      RunsSnoc(k, runs, r);
      Assoc(ECM_MAGIC, RunsBytes(runs), more);
      assert data[..input_bytes_checked] == data[..curtype_in_start] + raw;
      out := out + more;
      runs := runs + [r];
      items := [];
      curtype_in_start := input_bytes_checked;
    }

    /** Extends the current run or begins another; at the end only flushes. */
    method Accept(detecttype: int)
      requires Queued() && Covered() && -1 <= detecttype <= 3 && (curtype < 0 ==> curtype_in_start == input_bytes_checked)
      requires curtype < 0 && detecttype >= 0 ==> curtype_count == 0 && runs == []
      requires Spelled()
      modifies this`out, this`runs, this`items, this`curtype_in_start, this`curtype, this`curtype_count
      ensures Queued() && RunsOk(k, runs) && out == ECM_MAGIC + RunsBytes(runs) && curtype == detecttype
      ensures curtype_in_start <= input_bytes_checked && AllRaw(runs) == data[..curtype_in_start]
      ensures Raw(items) == data[curtype_in_start..input_bytes_checked]
      ensures detecttype < 0 ==> items == [] && curtype_in_start == input_bytes_checked
      ensures detecttype >= 0 ==> ItemsOk(k, detecttype, items) && curtype_count == |items| + 1 <= MAX_RUN
      ensures Spelled()
    {
      if detecttype == curtype && curtype_count <= 0x7FFF_FFFF {
        curtype_count := curtype_count + 1;
      } else {
        if curtype_count > 0 && curtype >= 0 {
          Flush();
          RunsLonger(old(runs), runs, curtype, old(items), kinds, detecttype);
        }
        curtype := detecttype;
        curtype_in_start := input_bytes_checked;
        curtype_count := 1;
        assert data[curtype_in_start..input_bytes_checked] == [];
      }
    }

    /** Moves past the item just accepted. */
    method Advance(kind: nat)
      requires Queued() && kind <= 3 && SizeOf(kind) <= |queue| && ItemOk(k, kind, queue[..SizeOf(kind)]) && curtype == kind
      requires RunsOk(k, runs) && out == ECM_MAGIC + RunsBytes(runs)
      requires curtype_in_start <= input_bytes_checked && AllRaw(runs) == data[..curtype_in_start]
      requires Raw(items) == data[curtype_in_start..input_bytes_checked]
      requires ItemsOk(k, kind, items) && curtype_count == |items| + 1 <= MAX_RUN
      modifies this`queue, this`input_bytes_checked, this`items
      ensures Queued() && Covered() && input_bytes_checked == old(input_bytes_checked) + SizeOf(kind)
      ensures |items| == |old(items)| + 1
    {
      ghost var item := queue[..SizeOf(kind)];
      ItemsSnoc(k, kind, items, item);
      RawSnoc(items, item);
      QueueShrinks(data, input_bytes_checked, input_bytes_queued, SizeOf(kind), curtype_in_start);
      items := items + [item];
      input_bytes_checked := input_bytes_checked + SizeOf(kind);
      queue := queue[SizeOf(kind)..];
    }

    /** One more item, of the kind it should have, or none if nothing was left. */
    ghost predicate KeepsKinds(done: bool, z: Scan, before: seq<int>)
      reads this
    {
      && Within(data, queue_size, z) && (done <==> z.pos == |data|)
      && if done then kinds == before && items == []
         else kinds == before + [KindAt(k, data, queue_size, z)] && State() == NextScan(k, data, queue_size, z)
    }

    /** Nothing has been looked at yet, or a run is being counted. */
    ghost predicate Begun()
      reads this
    {
      curtype < 0 ==> curtype_in_start == input_bytes_checked && curtype_count == 0 && runs == []
    }

    /** Takes in what was detected. */
    method Take(detecttype: int) returns (done: bool)
      requires Queued() && Covered() && Begun() && Spelled() && -1 <= detecttype <= 3
      requires detecttype >= 0 ==> SizeOf(detecttype) <= |queue| && ItemOk(k, detecttype, queue[..SizeOf(detecttype)])
      modifies this`out, this`runs, this`items, this`curtype_in_start, this`curtype, this`curtype_count, this`queue,
        this`input_bytes_checked, this`kinds
      ensures Queued() && RunsOk(k, runs) && out == ECM_MAGIC + RunsBytes(runs) && Spelled() && curtype == detecttype
      ensures done <==> detecttype < 0
      ensures done ==> AllRaw(runs) == data[..input_bytes_checked] && items == [] && kinds == old(kinds) && input_bytes_checked == old(input_bytes_checked)
      ensures !done ==> Covered() && kinds == old(kinds) + [detecttype] && input_bytes_checked == old(input_bytes_checked) + SizeOf(detecttype)
    {
      Accept(detecttype);
      if curtype < 0 {
        return true;
      }
      Advance(detecttype);
      SpellsMore(kinds, runs, curtype, |items| - 1);
      kinds := kinds + [curtype];
      return false;
    }

    /** One turn of the loop. */
    method Turn() returns (done: bool)
      requires Queued() && Covered() && Begun() && Spelled()
      modifies this
      ensures Spelled() && KeepsKinds(done, old(State()), old(kinds))
      ensures Queued() && RunsOk(k, runs) && out == ECM_MAGIC + RunsBytes(runs)
      ensures done ==> AllRaw(runs) == data && input_bytes_queued == |data|
      ensures !done ==> Covered() && curtype >= 0 && input_bytes_checked > old(input_bytes_checked)
    {
      ghost var z := State();
      Refill();
      var detecttype := Classify(z);
      done := Take(detecttype);
      assert data[..|data|] == data;
    }
  }

  /** The runs have the kinds, each as long as it can be, and so has the current one with n items. */
  ghost predicate Spells(kinds: seq<int>, rs: seq<Run>, kind: int, n: nat) {
    && kinds == KindsOf(rs) + Copies(kind, n) && Maximal(rs)
    && (rs != [] && kind >= 0 ==> Parts(rs[|rs| - 1], kind))
  }

  /** The current run is written; it must end there. */
  lemma {:induction false} RunsLonger(was: seq<Run>, rs: seq<Run>, kind: int, items: seq<seq<octet>>, kinds: seq<int>, next: int)
    requires Spells(kinds, was, kind, |items|) && kind >= 0 && (next != kind || |items| == MAX_RUN)
    requires |rs| > 0 && rs[..|rs| - 1] == was && rs[|rs| - 1].kind == kind && rs[|rs| - 1].items == items
    ensures Spells(kinds, rs, next, 0)
  {
    forall i {:trigger rs[i]} | 0 <= i < |rs| - 1
      ensures Parts(rs[i], rs[i + 1].kind)
    {
      assert rs[i] == was[i];
      assert i + 1 < |was| ==> rs[i + 1] == was[i + 1];
    }
    assert KindsOf(rs) == kinds;
  }

  lemma {:induction false} SpellsMore(kinds: seq<int>, rs: seq<Run>, kind: int, n: nat)
    requires Spells(kinds, rs, kind, n)
    ensures Spells(kinds + [kind], rs, kind, n + 1)
  {
    assert Copies(kind, n + 1) == Copies(kind, n) + [kind];
  }

  lemma {:induction false} OneMoreKind(k: Checks, data: seq<octet>, size: nat, z: Scan, before: seq<int>)
    requires Within(data, size, z)
    ensures before + KindsFrom(k, data, size, z)
         == if z.pos == |data| then before
            else before + [KindAt(k, data, size, z)] + KindsFrom(k, data, size, NextScan(k, data, size, z))
  {
  }

  lemma {:induction false} QueueGrows(data: seq<octet>, a: nat, b: nat, n: nat)
    requires a <= b && b + n <= |data|
    ensures data[a..b] + data[b..b + n] == data[a..b + n] && data[..b] + data[b..b + n] == data[..b + n]
  {
  }

  lemma {:induction false} QueueShrinks(data: seq<octet>, a: nat, b: nat, n: nat, start: nat)
    requires start <= a <= b <= |data| && n <= b - a
    ensures data[a..b][n..] == data[a + n..b] && data[start..a] + data[a..b][..n] == data[start..a + n]
  {
  }

  /** For every input and every queue size the output is a container of runs that make up the input. */
  method Ecmify(t: Luts, data: seq<octet>, queue_size: nat, ghost k: Checks) returns (out: seq<octet>, ghost runs: seq<Run>)
    requires LutsOk(t) && ChecksOk(k) && SECTOR_LEN <= queue_size
    ensures RunsOk(k, runs) && AllRaw(runs) == data && out == EcmBytes(k, runs)
    ensures KindsOf(runs) == KindsFrom(k, data, queue_size, START) && Maximal(runs)
  {
    var e := new Ecmifier(t, data, queue_size, k);
    var done := false;
    while !done
      invariant fresh(e) && e.data == data && e.k == k && e.Queued() && RunsOk(k, e.runs) && e.out == ECM_MAGIC + RunsBytes(e.runs)
      invariant if done then AllRaw(e.runs) == data && e.input_bytes_queued == |data|
                else e.Covered() && e.Begun()
      invariant e.queue_size == queue_size && e.Spelled() && (done ==> e.items == [])
      invariant KindsFrom(k, data, queue_size, START) == e.kinds + if done then [] else KindsFrom(k, data, queue_size, e.State())
      decreases !done, |data| - e.input_bytes_checked
    {
      ghost var z, before := e.State(), e.kinds;
      done := e.Turn();
      OneMoreKind(k, data, queue_size, z, before);
    }
    runs := e.runs;
    assert data[..|data|] == data;
    out := Finish(e.out, e.input_edc, data, runs, k);
  }

  /** The end mark and the detection code. */
  method Finish(head: seq<octet>, input_edc: word, ghost data: seq<octet>, ghost runs: seq<Run>, ghost k: Checks) returns (out: seq<octet>)
    requires ChecksOk(k) && EdcIs(input_edc, data) && AllRaw(runs) == data && head == ECM_MAGIC + RunsBytes(runs)
    ensures out == EcmBytes(k, runs)
  {
    EdcStored(k, input_edc, data);
    var mark := WriteTypeCount(0, 0);
    out := head + mark + PutLsb(input_edc);
    Joined(ECM_MAGIC, RunsBytes(runs), mark, k.det(data));
  }

  lemma {:induction false} Joined(a: seq<octet>, b: seq<octet>, c: seq<octet>, d: seq<octet>)
    ensures a + b + c + d == a + (b + (c + d))
  {
  }
}
