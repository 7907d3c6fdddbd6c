/** Recognising CD sectors and rebuilding them from their payload. */
module Sectors {
  import opened Closing
  import opened Edc
  import opened Galois
  import opened ProductCode
  import opened SectorParity

  const SECTOR_LEN: nat := 2352
  const SYNC: seq<octet> := [0x00, 0xFF, 0xFF, 0xFF, 0xFF, 0xFF, 0xFF, 0xFF, 0xFF, 0xFF, 0xFF, 0x00]
  const ZERO4: seq<octet> := [0, 0, 0, 0]
  const ZERO8: seq<octet> := [0, 0, 0, 0, 0, 0, 0, 0]

  /** The parity and the detection code, as far as sectors need to know them. */
  datatype Checks = Checks(par: (seq<octet>, octet, octet) -> bool, det: seq<octet> -> seq<octet>)

  ghost function Detection(s: seq<octet>): seq<octet> {
    PutLsb(Remainder(0, s))
  }

  ghost predicate OctetDet(det: seq<octet> -> seq<octet>) {
    forall u {:trigger Look(u)} :: Look(u) ==> det == Detection
  }

  ghost predicate ChecksOk(k: Checks) {
    OctetPar(k.par) && Determines(k.par) && OctetDet(k.det) && forall s {:trigger k.det(s)} :: |k.det(s)| == 4
  }

  lemma {:induction false} TheChecks() returns (k: Checks)
    ensures ChecksOk(k)
  {
    var par := TheParity();
    k := Checks(par, Detection);
  }

  /** The lookup tables, filled by eccedc_init. */
  datatype Luts = Luts(f: seq<octet>, b: seq<octet>, edc: seq<word>)

  ghost predicate LutsOk(t: Luts) {
    Tables(t.f, t.b) && EdcTable(t.edc)
  }

  method Init() returns (t: Luts)
    ensures LutsOk(t)
  {
    var f, b := InitEcc();
    var e := InitEdc();
    t := Luts(f, b, e);
  }

  // ---- what each kind of sector looks like ----

  ghost predicate EccRight(k: Checks, address: seq<octet>, v: seq<octet>) {
    && View(address, v) && CodeOk(P_CODE) && CodeOk(Q_CODE)
    && AllRight(k.par, P_CODE, address, v, P_CODE.majors) && AllRight(k.par, Q_CODE, address, v, Q_CODE.majors)
  }

  /** Sync, mode and reserved bytes of a mode 1 sector. */
  ghost predicate Mode1Frame(s: seq<octet>)
    requires |s| >= SECTOR_LEN
  {
    s[..12] == SYNC && s[15] == 1 && s[0x814..0x81C] == ZERO8
  }

  ghost predicate Mode1(k: Checks, s: seq<octet>) {
    && |s| == SECTOR_LEN && Mode1Frame(s)
    && s[0x810..0x814] == k.det(s[..0x810]) && EccRight(k, s[12..16], s[16..])
  }

  /** The flags are repeated. */
  ghost predicate Mode2Frame(s: seq<octet>)
    requires |s| >= VIEW_LEN
  {
    s[..4] == s[4..8]
  }

  ghost predicate Form1(k: Checks, s: seq<octet>) {
    && |s| == VIEW_LEN && Mode2Frame(s)
    && s[0x808..0x80C] == k.det(s[..0x808]) && EccRight(k, ZERO4, s)
  }

  ghost predicate Form2(k: Checks, s: seq<octet>) {
    |s| == VIEW_LEN && Mode2Frame(s) && s[0x91C..0x920] == k.det(s[..0x91C])
  }

  function SizeOf(kind: nat): nat {
    if kind == 0 then 1 else if kind == 1 then 2352 else 2336
  }

  ghost predicate IsSector(k: Checks, kind: nat, s: seq<octet>) {
    (kind == 1 && Mode1(k, s)) || (kind == 2 && Form1(k, s)) || (kind == 3 && Form2(k, s))
  }

  /** The bytes of a sector that are stored. */
  function Payload(kind: nat, s: seq<octet>): seq<octet>
    requires 1 <= kind <= 3 && |s| == SizeOf(kind)
  {
    if kind == 1 then s[12..15] + s[16..0x810] else if kind == 2 then s[4..0x808] else s[4..0x91C]
  }

  function PayloadLen(kind: nat): nat {
    if kind == 1 then 0x803 else if kind == 2 then 0x804 else 0x918
  }

  // ---- a sector is determined by its payload ----

  lemma {:induction false} EccDetermines(k: Checks, address: seq<octet>, v: seq<octet>, w: seq<octet>)
    requires ChecksOk(k) && EccRight(k, address, v) && EccRight(k, address, w) && v[..0x80C] == w[..0x80C]
    ensures v == w
  {
    RightDetermines(k.par, P_CODE, address, v, w);
    RightDetermines(k.par, Q_CODE, address, v, w);
    assert v[..VIEW_LEN] == v && w[..VIEW_LEN] == w;
  }

  lemma {:induction false} Mode1Same(k: Checks, s: seq<octet>, r: seq<octet>)
    requires ChecksOk(k) && Mode1(k, s) && Mode1(k, r) && Payload(1, s) == Payload(1, r)
    ensures s == r
  {
    PayloadParts(s, r);
    assert s[..0x810] == s[..12] + s[12..15] + [s[15]] + s[16..0x810];
    assert r[..0x810] == r[..12] + r[12..15] + [r[15]] + r[16..0x810];
    assert s[12..16] == s[12..15] + [s[15]] && r[12..16] == r[12..15] + [r[15]];
    Mode1Front(s, r);
    EccDetermines(k, s[12..16], s[16..], r[16..]);
    assert s == s[..16] + s[16..] && r == r[..16] + r[16..];
    assert s[..16] == s[..0x810][..16] && r[..16] == r[..0x810][..16];
  }

  lemma {:induction false} PayloadParts(s: seq<octet>, r: seq<octet>)
    requires |s| == |r| == SECTOR_LEN && Payload(1, s) == Payload(1, r)
    ensures s[12..15] == r[12..15] && s[16..0x810] == r[16..0x810]
  {
    assert s[12..15] == Payload(1, s)[..3] && r[12..15] == Payload(1, r)[..3];
    assert s[16..0x810] == Payload(1, s)[3..] && r[16..0x810] == Payload(1, r)[3..];
  }

  lemma {:induction false} Mode1Front(s: seq<octet>, r: seq<octet>)
    requires |s| == |r| == SECTOR_LEN && s[..0x810] == r[..0x810] && s[0x810..0x814] == r[0x810..0x814] && s[0x814..0x81C] == r[0x814..0x81C]
    ensures s[16..][..0x80C] == r[16..][..0x80C]
  {
    assert s[..0x81C] == s[..0x810] + s[0x810..0x814] + s[0x814..0x81C];
    assert r[..0x81C] == r[..0x810] + r[0x810..0x814] + r[0x814..0x81C];
    assert s[16..][..0x80C] == s[..0x81C][16..] && r[16..][..0x80C] == r[..0x81C][16..];
  }

  lemma {:induction false} FrontOf(s: seq<octet>, r: seq<octet>, n: nat)
    requires |s| == |r| == VIEW_LEN && 8 <= n <= VIEW_LEN - 4 && s[..4] == s[4..8] && r[..4] == r[4..8] && s[4..n] == r[4..n]
    ensures s[..n] == r[..n]
    ensures s[n..n + 4] == r[n..n + 4] ==> s[..n + 4] == r[..n + 4]
  {
    assert s[4..8] == s[4..n][..4] && r[4..8] == r[4..n][..4];
    assert s[..n] == s[..4] + s[4..n] && r[..n] == r[..4] + r[4..n];
    assert s[..n + 4] == s[..n] + s[n..n + 4] && r[..n + 4] == r[..n] + r[n..n + 4];
  }

  lemma {:induction false} Form1Same(k: Checks, s: seq<octet>, r: seq<octet>)
    requires ChecksOk(k) && Form1(k, s) && Form1(k, r) && Payload(2, s) == Payload(2, r)
    ensures s == r
  {
    FrontOf(s, r, 0x808);
    EccDetermines(k, ZERO4, s, r);
  }

  lemma {:induction false} Form2Same(k: Checks, s: seq<octet>, r: seq<octet>)
    requires ChecksOk(k) && Form2(k, s) && Form2(k, r) && Payload(3, s) == Payload(3, r)
    ensures s == r
  {
    FrontOf(s, r, 0x91C);
    assert s[..VIEW_LEN] == s && r[..VIEW_LEN] == r;
  }

  /** Two sectors of one kind with the same payload are the same. */
  lemma {:induction false} PayloadDetermines(k: Checks, kind: nat, s: seq<octet>, r: seq<octet>)
    requires ChecksOk(k) && IsSector(k, kind, s) && IsSector(k, kind, r) && Payload(kind, s) == Payload(kind, r)
    ensures s == r
  {
    if kind == 1 {
      Mode1Same(k, s, r);
    } else if kind == 2 {
      Form1Same(k, s, r);
    } else {
      Form2Same(k, s, r);
    }
  }

  // ---- recognising ----

  method CheckEcc(t: Luts, address: seq<octet>, v: seq<octet>, ghost k: Checks) returns (ok: bool)
    requires LutsOk(t) && ChecksOk(k) && View(address, v)
    ensures ok <==> EccRight(k, address, v)
  {
    CodesOk();
    ok := CheckPq(t.f, t.b, P_CODE, address, v, k.par);
    if ok {
      ok := CheckPq(t.f, t.b, Q_CODE, address, v, k.par);
    }
  }

  lemma {:induction false} DetectionBytes(k: Checks, s: seq<octet>, w: word, stored: seq<octet>)
    requires ChecksOk(k) && w == Remainder(0, s) && |stored| == 4
    ensures GetLsb(stored) == w <==> stored == k.det(s)
  {
    assert Look(0);
    GetThenPut(stored);
    PutThenGet(w);
  }

  method CheckEdc(t: Luts, s: seq<octet>, stored: seq<octet>, ghost k: Checks) returns (ok: bool)
    requires LutsOk(t) && ChecksOk(k) && |stored| == 4
    ensures ok <==> stored == k.det(s)
  {
    var w := Compute(t.edc, 0, s);
    DetectionBytes(k, s, w, stored);
    ok := GetLsb(stored) == w;
  }

  /** What detect_sector says about the bytes that are available. */
  ghost function Detected(k: Checks, s: seq<octet>): nat {
    if |s| >= SECTOR_LEN && Mode1Frame(s) then if Mode1(k, s[..SECTOR_LEN]) then 1 else 0
    else if |s| >= VIEW_LEN && Mode2Frame(s) then
      if Form1(k, s[..VIEW_LEN]) then 2 else if Form2(k, s[..VIEW_LEN]) then 3 else 0
    else 0
  }

  method DetectMode1(t: Luts, s: seq<octet>, ghost k: Checks) returns (ok: bool)
    requires LutsOk(t) && ChecksOk(k) && |s| == SECTOR_LEN && Mode1Frame(s)
    ensures ok <==> Mode1(k, s)
  {
    ok := CheckEcc(t, s[12..16], s[16..], k);
    if ok {
      ok := CheckEdc(t, s[..0x810], s[0x810..0x814], k);
    }
  }

  method DetectMode2(t: Luts, s: seq<octet>, ghost k: Checks) returns (kind: nat)
    requires LutsOk(t) && ChecksOk(k) && |s| == VIEW_LEN && Mode2Frame(s)
    ensures kind == if Form1(k, s) then 2 else if Form2(k, s) then 3 else 0
  {
    var ok := CheckEcc(t, ZERO4, s, k);
    if ok {
      ok := CheckEdc(t, s[..0x808], s[0x808..0x80C], k);
      if ok {
        return 2;
      }
    }
    ok := CheckEdc(t, s[..0x91C], s[0x91C..0x920], k);
    kind := if ok then 3 else 0;
  }

  /** detect_sector. */
  method DetectSector(t: Luts, s: seq<octet>, ghost k: Checks) returns (kind: nat)
    requires LutsOk(t) && ChecksOk(k)
    ensures kind == Detected(k, s) && kind <= 3
    ensures kind > 0 ==> SizeOf(kind) <= |s| && IsSector(k, kind, s[..SizeOf(kind)])
  {
    if |s| >= SECTOR_LEN && s[..12] == SYNC && s[15] == 1 && s[0x814..0x81C] == ZERO8 {
      FramePrefix(s);
      var ok := DetectMode1(t, s[..SECTOR_LEN], k);
      return if ok then 1 else 0;
    }
    if |s| >= VIEW_LEN && s[..4] == s[4..8] {
      assert s[..VIEW_LEN][..4] == s[..4] && s[..VIEW_LEN][4..8] == s[4..8];
      kind := DetectMode2(t, s[..VIEW_LEN], k);
      return;
    }
    return 0;
  }

  lemma {:induction false} FramePrefix(s: seq<octet>)
    requires |s| >= SECTOR_LEN && Mode1Frame(s)
    ensures Mode1Frame(s[..SECTOR_LEN])
  {
    var r := s[..SECTOR_LEN];
    assert r[..12] == s[..12] && r[0x814..0x81C] == s[0x814..0x81C];
  }
}
