/** What ecmify makes of its input: the kind of each item, by what the queue holds when it is looked at. */
module EcmKinds {
  import opened EcmFormat
  import opened Galois
  import opened ProductCode
  import opened Sectors

  /** pos bytes have been looked at and queued bytes read; the last kind, and how many literals are still to be skipped. */
  datatype Scan = Scan(pos: nat, queued: nat, kind: int, skip: nat)

  const START := Scan(0, 0, -1, 0)
  const SKIP: nat := 15

  /** How far has been read after the queue had its chance to be refilled. */
  function Refilled(n: nat, size: nat, z: Scan): nat
    requires z.pos <= z.queued <= n
  {
    var held, left := z.queued - z.pos, n - z.queued;
    if held < SECTOR_LEN && held < left then z.queued + (if left > size - held then size - held else left) else z.queued
  }

  ghost predicate Within(data: seq<octet>, size: nat, z: Scan) {
    z.pos <= z.queued <= |data| && SECTOR_LEN <= size
  }

  /** The start of a mode 2 sector's sync, after a mode 2 sector. */
  ghost predicate SyncAhead(s: seq<octet>, kind: int) {
    kind >= 2 && |s| >= 0x10 && s[..12] == SYNC && s[0xF] == 0x02
  }

  /** What is in the queue. */
  ghost function Ahead(data: seq<octet>, size: nat, z: Scan): seq<octet>
    requires Within(data, size, z)
  {
    data[z.pos..Refilled(|data|, size, z)]
  }

  ghost function KindAt(k: Checks, data: seq<octet>, size: nat, z: Scan): (kind: nat)
    requires Within(data, size, z)
    ensures kind <= 3
  {
    if z.skip > 0 || SyncAhead(Ahead(data, size, z), z.kind) then 0 else Detected(k, Ahead(data, size, z))
  }

  ghost function NextScan(k: Checks, data: seq<octet>, size: nat, z: Scan): (z': Scan)
    requires Within(data, size, z) && z.pos < |data|
    ensures Within(data, size, z') && z.pos < z'.pos
  {
    DetectedFits(k, Ahead(data, size, z));
    var kind := KindAt(k, data, size, z);
    var skip := if z.skip > 0 then z.skip - 1 else if SyncAhead(Ahead(data, size, z), z.kind) then SKIP else 0;
    Scan(z.pos + SizeOf(kind), Refilled(|data|, size, z), kind, skip)
  }

  lemma {:induction false} DetectedFits(k: Checks, s: seq<octet>)
    ensures Detected(k, s) > 0 ==> SizeOf(Detected(k, s)) <= |s|
  {
  }

  /** The kinds of all items from there on. */
  ghost function KindsFrom(k: Checks, data: seq<octet>, size: nat, z: Scan): seq<int>
    requires Within(data, size, z)
    decreases |data| - z.pos
  {
    if z.pos == |data| then [] else [KindAt(k, data, size, z)] + KindsFrom(k, data, size, NextScan(k, data, size, z))
  }

  // ---- runs ----

  function Copies(kind: int, n: nat): (s: seq<int>)
    ensures |s| == n && forall i :: 0 <= i < n ==> s[i] == kind
  {
    seq(n, _ => kind)
  }

  /** The kinds of the items in some runs. */
  ghost function KindsOf(rs: seq<Run>): seq<int> {
    if rs == [] then [] else KindsOf(rs[..|rs| - 1]) + Copies(rs[|rs| - 1].kind, |rs[|rs| - 1].items|)
  }

  ghost predicate Parts(r: Run, kind: int) {
    r.kind != kind || |r.items| == MAX_RUN
  }

  /** A run ends only where the kind changes, or when it is as long as it can be. */
  ghost predicate Maximal(rs: seq<Run>) {
    forall i {:trigger rs[i]} :: 0 <= i < |rs| - 1 ==> Parts(rs[i], rs[i + 1].kind)
  }

  // ---- what the queue hides ----

  /** Looking at the first n bytes only is right unless a sector does not fit into them. */
  lemma {:induction false} LookIsRight(k: Checks, s: seq<octet>, n: nat)
    requires n <= |s|
    ensures Detected(k, s[..n]) == Detected(k, s) <==> Detected(k, s) == 0 || SizeOf(Detected(k, s)) <= n
  {
    DetectedFits(k, s[..n]);
    if n >= SECTOR_LEN {
      SameFrame1(s, n);
    }
    if n >= VIEW_LEN {
      SameFrame2(s, n);
      if |s| >= SECTOR_LEN && Mode1Frame(s) {
        NotBoth(s);
      }
    }
  }

  lemma {:induction false} SameFrame1(s: seq<octet>, n: nat)
    requires SECTOR_LEN <= n <= |s|
    ensures Mode1Frame(s[..n]) <==> Mode1Frame(s)
    ensures s[..n][..SECTOR_LEN] == s[..SECTOR_LEN]
  {
    assert s[..n][..12] == s[..12] && s[..n][0x814..0x81C] == s[0x814..0x81C];
  }

  lemma {:induction false} SameFrame2(s: seq<octet>, n: nat)
    requires VIEW_LEN <= n <= |s|
    ensures Mode2Frame(s[..n]) <==> Mode2Frame(s)
    ensures s[..n][..VIEW_LEN] == s[..VIEW_LEN]
  {
    assert s[..n][..4] == s[..4] && s[..n][4..8] == s[4..8];
  }

  /** A sync cannot be taken for the flags of a mode 2 sector. */
  lemma {:induction false} NotBoth(s: seq<octet>)
    requires |s| >= SECTOR_LEN && Mode1Frame(s)
    ensures !Mode2Frame(s)
  {
    assert s[..12][0] == SYNC[0] && s[..12][4] == SYNC[4];
    assert s[..4][0] == 0x00 && s[4..8][0] == 0xFF;
  }

  /** The kind taken is the one that the input has there, exactly if what it has fits into the queue. */
  lemma {:induction false} KindIsRight(k: Checks, data: seq<octet>, size: nat, z: Scan)
    requires Within(data, size, z) && z.skip == 0 && !SyncAhead(Ahead(data, size, z), z.kind)
    ensures var found := Detected(k, data[z.pos..]);
      KindAt(k, data, size, z) == found <==> found == 0 || SizeOf(found) <= Refilled(|data|, size, z) - z.pos
  {
    var n := Refilled(|data|, size, z) - z.pos;
    assert data[z.pos..][..n] == Ahead(data, size, z);
    LookIsRight(k, data[z.pos..], n);
  }

  /**
   * The queue holds a whole sector or all that is left, exactly if it does not run low with no more left to read
   * than it still holds.
   */
  lemma {:induction false} QueueRunsLow(n: nat, size: nat, z: Scan)
    requires z.pos <= z.queued <= n && SECTOR_LEN <= size
    ensures var held, left := z.queued - z.pos, n - z.queued;
      Refilled(n, size, z) - z.pos >= SECTOR_LEN || Refilled(n, size, z) == n <==> !(held < SECTOR_LEN && 0 < left <= held)
  {
  }

  lemma {:induction false} SectorDetected(k: Checks, s: seq<octet>, more: seq<octet>)
    requires Mode1(k, s)
    ensures Detected(k, s + more) == 1
  {
    var r := s + more;
    assert r[..SECTOR_LEN] == s;
    assert r[..12] == s[..12] && r[0x814..0x81C] == s[0x814..0x81C] && r[15] == s[15];
  }

  /** A mode 1 sector by itself is one item. */
  lemma {:induction false} OneSector(k: Checks, s: seq<octet>, size: nat)
    requires Mode1(k, s) && SECTOR_LEN <= size
    ensures KindsFrom(k, s, size, START) == [1]
  {
    SectorDetected(k, s, []);
    assert s + [] == s && Ahead(s, size, START) == s;
    assert KindsFrom(k, s, size, NextScan(k, s, size, START)) == [];
  }

  // ---- an input on which it does ----

  const QUEUE_SIZE: nat := 0x40000
  const LEAD: nat := 1424
  const COPIES: nat := 111

  /** No sector begins in these bytes. */
  function Lead(): (s: seq<octet>)
    ensures |s| == LEAD && forall i :: 0 <= i < LEAD ==> s[i] == if i / 4 % 2 == 0 then 0x11 else 0x22
  {
    seq(LEAD, i => if i / 4 % 2 == 0 then 0x11 else 0x22)
  }

  ghost function Repeats(s: seq<octet>, n: nat): (r: seq<octet>)
    ensures |r| == n * |s|
  {
    if n == 0 then [] else s + Repeats(s, n - 1)
  }

  ghost function Sample(s: seq<octet>): (data: seq<octet>)
    requires |s| == SECTOR_LEN
    ensures |data| == LEAD + COPIES * SECTOR_LEN
  {
    Lead() + Repeats(s, COPIES)
  }

  lemma {:induction false} RepeatsAt(s: seq<octet>, n: nat, j: nat)
    requires |s| == SECTOR_LEN && j <= n
    ensures Repeats(s, n)[j * SECTOR_LEN..] == Repeats(s, n - j)
    decreases j
  {
    if j > 0 {
      RepeatsAt(s, n - 1, j - 1);
      assert Repeats(s, n)[j * SECTOR_LEN..] == Repeats(s, n - 1)[(j - 1) * SECTOR_LEN..];
    }
  }

  lemma {:induction false} SampleAt(s: seq<octet>, j: nat)
    requires |s| == SECTOR_LEN && j < COPIES
    ensures Sample(s)[LEAD + j * SECTOR_LEN..] == s + Repeats(s, COPIES - j - 1)
  {
    RepeatsAt(s, COPIES, j);
    assert Sample(s)[LEAD + j * SECTOR_LEN..] == Repeats(s, COPIES)[j * SECTOR_LEN..];
  }

  /** Where the scan stands after i bytes of the lead, or after j sectors. */
  function InLead(i: nat): Scan {
    if i == 0 then START else Scan(i, QUEUE_SIZE, 0, 0)
  }

  function AtSector(j: nat): Scan {
    Scan(LEAD + j * SECTOR_LEN, QUEUE_SIZE, if j == 0 then 0 else 1, 0)
  }

  lemma {:induction false} FirstOctets(k: Checks, s: seq<octet>)
    requires Mode1(k, s)
    ensures s[0] == 0 && s[4] == 0xFF
  {
    assert s[..12][0] == SYNC[0] && s[..12][4] == SYNC[4];
  }

  lemma {:induction false} SampleByte(s: seq<octet>, p: nat)
    requires |s| == SECTOR_LEN && p < LEAD + SECTOR_LEN
    ensures Sample(s)[p] == if p < LEAD then Lead()[p] else s[p - LEAD]
  {
    assert Repeats(s, COPIES) == s + Repeats(s, COPIES - 1);
  }

  lemma {:induction false} NoFlagsInLead(k: Checks, s: seq<octet>, i: nat, n: nat)
    requires Mode1(k, s) && i < LEAD && i + VIEW_LEN <= n <= |Sample(s)|
    ensures !Mode2Frame(Sample(s)[i..n])
  {
    var v := Sample(s)[i..n];
    FirstOctets(k, s);
    var j := if i + 4 <= LEAD then 0 else LEAD - i;
    SampleByte(s, i + j);
    SampleByte(s, i + j + 4);
    assert v[..4][j] == Sample(s)[i + j] && v[4..8][j] == Sample(s)[i + j + 4];
  }

  lemma {:induction false} NoSyncInLead(s: seq<octet>, i: nat, n: nat)
    requires |s| == SECTOR_LEN && i < LEAD && i + SECTOR_LEN <= n <= |Sample(s)|
    ensures !Mode1Frame(Sample(s)[i..n])
  {
    var v := Sample(s)[i..n];
    SampleByte(s, i);
    assert v[..12][0] == Sample(s)[i];
    assert SYNC[0] == 0;
  }

  lemma {:induction false} NothingInLead(k: Checks, s: seq<octet>, i: nat, n: nat)
    requires Mode1(k, s) && i < LEAD && i <= n <= |Sample(s)|
    ensures Detected(k, Sample(s)[i..n]) == 0
  {
    var v := Sample(s)[i..n];
    if |v| >= SECTOR_LEN {
      NoSyncInLead(s, i, n);
    }
    if |v| >= VIEW_LEN {
      NoFlagsInLead(k, s, i, n);
    }
  }

  lemma {:induction false} LeadStep(k: Checks, s: seq<octet>, i: nat)
    requires Mode1(k, s) && i < LEAD
    ensures KindAt(k, Sample(s), QUEUE_SIZE, InLead(i)) == 0
    ensures NextScan(k, Sample(s), QUEUE_SIZE, InLead(i)) == InLead(i + 1)
  {
    NothingInLead(k, s, i, QUEUE_SIZE);
  }

  lemma {:induction false} SectorStep(k: Checks, s: seq<octet>, j: nat)
    requires Mode1(k, s) && j < COPIES - 1
    ensures KindAt(k, Sample(s), QUEUE_SIZE, AtSector(j)) == 1
    ensures NextScan(k, Sample(s), QUEUE_SIZE, AtSector(j)) == AtSector(j + 1)
  {
    var data, p := Sample(s), LEAD + j * SECTOR_LEN;
    SampleAt(s, j);
    SectorDetected(k, s, Repeats(s, COPIES - j - 1));
    LookIsRight(k, data[p..], QUEUE_SIZE - p);
    assert data[p..][..QUEUE_SIZE - p] == data[p..QUEUE_SIZE];
  }

  /** What follows when n items have been taken. */
  ghost predicate ComesTo(k: Checks, data: seq<octet>, n: nat, z: Scan) {
    && Within(data, QUEUE_SIZE, z)
    && exists done {:trigger done + KindsFrom(k, data, QUEUE_SIZE, z)} ::
         |done| == n && KindsFrom(k, data, QUEUE_SIZE, START) == done + KindsFrom(k, data, QUEUE_SIZE, z)
  }

  lemma {:induction false} ComesFurther(k: Checks, data: seq<octet>, n: nat, z: Scan)
    requires ComesTo(k, data, n, z) && z.pos < |data|
    ensures ComesTo(k, data, n + 1, NextScan(k, data, QUEUE_SIZE, z))
    ensures n < |KindsFrom(k, data, QUEUE_SIZE, START)| && KindsFrom(k, data, QUEUE_SIZE, START)[n] == KindAt(k, data, QUEUE_SIZE, z)
  {
    var done :| |done| == n && KindsFrom(k, data, QUEUE_SIZE, START) == done + KindsFrom(k, data, QUEUE_SIZE, z);
    var next := NextScan(k, data, QUEUE_SIZE, z);
    assert done + KindsFrom(k, data, QUEUE_SIZE, z)
        == (done + [KindAt(k, data, QUEUE_SIZE, z)]) + KindsFrom(k, data, QUEUE_SIZE, next);
  }

  lemma {:induction false} ThroughLead(k: Checks, s: seq<octet>, i: nat)
    requires Mode1(k, s) && i <= LEAD
    ensures ComesTo(k, Sample(s), i, InLead(i))
  {
    if i == 0 {
      assert KindsFrom(k, Sample(s), QUEUE_SIZE, START) == [] + KindsFrom(k, Sample(s), QUEUE_SIZE, START);
    } else {
      ThroughLead(k, s, i - 1);
      LeadStep(k, s, i - 1);
      ComesFurther(k, Sample(s), i - 1, InLead(i - 1));
    }
  }

  lemma {:induction false} ThroughSectors(k: Checks, s: seq<octet>, j: nat)
    requires Mode1(k, s) && j < COPIES
    ensures ComesTo(k, Sample(s), LEAD + j, AtSector(j))
  {
    if j == 0 {
      ThroughLead(k, s, LEAD);
    } else {
      ThroughSectors(k, s, j - 1);
      SectorStep(k, s, j - 1);
      ComesFurther(k, Sample(s), LEAD + j - 1, AtSector(j - 1));
    }
  }

  /** The last of these sectors is not found, because the queue holds 2000 bytes of it and 352 are left to read. */
  lemma {:induction false} LastSectorMissed(k: Checks, s: seq<octet>)
    requires Mode1(k, s)
    ensures var data, i := Sample(s), LEAD + COPIES - 1;
      && Detected(k, data[LEAD + (COPIES - 1) * SECTOR_LEN..]) == 1
      && i < |KindsFrom(k, data, QUEUE_SIZE, START)| && KindsFrom(k, data, QUEUE_SIZE, START)[i] == 0
  {
    var j := COPIES - 1;
    SampleAt(s, j);
    SectorDetected(k, s, Repeats(s, 0));
    ThroughSectors(k, s, j);
    ComesFurther(k, Sample(s), LEAD + j, AtSector(j));
  }
}
