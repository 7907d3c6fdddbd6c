/** The ECM container: runs of items of one kind, an end mark and the detection code of the whole input. */
module EcmFormat {
  import opened Bits
  import opened EcmCount
  import opened Galois
  import opened Sectors

  const ECM_MAGIC: seq<octet> := [0x45, 0x43, 0x4D, 0x00]
  const MAX_RUN: nat := 0x8000_0000
  const END_MARK: nat := 0xFFFF_FFFF

  /** Literal bytes (kind 0) or sectors, all of one kind, and the record for them. */
  datatype Run = Run(kind: nat, items: seq<seq<octet>>, bytes: seq<octet>)

  ghost predicate ItemOk(k: Checks, kind: nat, item: seq<octet>) {
    if kind == 0 then |item| == 1 else IsSector(k, kind, item)
  }

  ghost predicate ItemsOk(k: Checks, kind: nat, items: seq<seq<octet>>) {
    kind <= 3 && forall i {:trigger ItemOk(k, kind, items[i])} :: 0 <= i < |items| ==> ItemOk(k, kind, items[i])
  }

  ghost predicate RunOk(k: Checks, r: Run) {
    ItemsOk(k, r.kind, r.items) && 1 <= |r.items| <= MAX_RUN && r.bytes == RecordBytes(r.kind, r.items)
  }

  ghost predicate RunsOk(k: Checks, rs: seq<Run>) {
    forall i {:trigger RunOk(k, rs[i])} :: 0 <= i < |rs| ==> RunOk(k, rs[i])
  }

  /** The input bytes of some items. */
  ghost function Raw(items: seq<seq<octet>>): seq<octet> {
    if items == [] then [] else Raw(items[..|items| - 1]) + items[|items| - 1]
  }

  /** What is stored for one item. */
  ghost function StoredItem(kind: nat, item: seq<octet>): seq<octet> {
    if kind == 0 || kind > 3 || |item| != SizeOf(kind) then item else Payload(kind, item)
  }

  ghost function Stored(kind: nat, items: seq<seq<octet>>): seq<octet> {
    if items == [] then [] else Stored(kind, items[..|items| - 1]) + StoredItem(kind, items[|items| - 1])
  }

  lemma {:induction false} RawSnoc(items: seq<seq<octet>>, x: seq<octet>)
    ensures Raw(items + [x]) == Raw(items) + x
  {
    assert (items + [x])[..|items|] == items;
  }

  lemma {:induction false} StoredSnoc(kind: nat, items: seq<seq<octet>>, x: seq<octet>)
    ensures Stored(kind, items + [x]) == Stored(kind, items) + StoredItem(kind, x)
  {
    assert (items + [x])[..|items|] == items;
  }

  lemma {:induction false} ItemsSnoc(k: Checks, kind: nat, items: seq<seq<octet>>, x: seq<octet>)
    requires ItemsOk(k, kind, items) && ItemOk(k, kind, x)
    ensures ItemsOk(k, kind, items + [x])
  {
    var ys := items + [x];
    forall i | 0 <= i < |ys|
      ensures ItemOk(k, kind, ys[i])
    {
      assert i < |items| ==> ItemOk(k, kind, items[i]);
    }
  }

  ghost function RecordBytes(kind: nat, items: seq<seq<octet>>): seq<octet>
    requires kind <= 3 && items != []
  {
    TypeCount(kind, |items| - 1) + Stored(kind, items)
  }

  ghost function RunsBytes(rs: seq<Run>): seq<octet> {
    if rs == [] then [] else RunsBytes(rs[..|rs| - 1]) + rs[|rs| - 1].bytes
  }

  ghost function AllRaw(rs: seq<Run>): seq<octet> {
    if rs == [] then [] else AllRaw(rs[..|rs| - 1]) + Raw(rs[|rs| - 1].items)
  }

  lemma {:induction false} RunsSnoc(k: Checks, rs: seq<Run>, r: Run)
    requires RunsOk(k, rs) && RunOk(k, r)
    ensures RunsOk(k, rs + [r]) && RunsBytes(rs + [r]) == RunsBytes(rs) + r.bytes && AllRaw(rs + [r]) == AllRaw(rs) + Raw(r.items)
  {
    var ss := rs + [r];
    forall i | 0 <= i < |ss|
      ensures RunOk(k, ss[i])
    {
      assert i < |rs| ==> RunOk(k, rs[i]);
    }
    assert ss[..|rs|] == rs;
  }

  /** Everything after the records. */
  ghost function EndBytes(k: Checks, data: seq<octet>): seq<octet> {
    TypeCount(0, END_MARK) + k.det(data)
  }

  ghost function EcmBytes(k: Checks, rs: seq<Run>): seq<octet> {
    ECM_MAGIC + (RunsBytes(rs) + EndBytes(k, AllRaw(rs)))
  }

  /** The records from number i on. */
  ghost function RunsFrom(rs: seq<Run>, i: nat): seq<octet>
    requires i <= |rs|
    decreases |rs| - i
  {
    if i == |rs| then [] else rs[i].bytes + RunsFrom(rs, i + 1)
  }

  lemma {:induction false} RunsSplit(rs: seq<Run>, i: nat)
    requires i <= |rs|
    ensures RunsBytes(rs) == RunsBytes(rs[..i]) + RunsFrom(rs, i)
    decreases |rs| - i
  {
    if i == |rs| {
      assert rs[..i] == rs;
      assert RunsBytes(rs) + [] == RunsBytes(rs);
    } else {
      RunsSplit(rs, i + 1);
      assert rs[..i + 1][..i] == rs[..i];
      Assoc(RunsBytes(rs[..i]), rs[i].bytes, RunsFrom(rs, i + 1));
    }
  }

  lemma {:induction false} RunsFromStart(rs: seq<Run>)
    ensures RunsFrom(rs, 0) == RunsBytes(rs)
  {
    RunsSplit(rs, 0);
    assert [] + RunsFrom(rs, 0) == RunsFrom(rs, 0);
  }
}
