/** reconstruct_sector: a full sector from its payload. */
module SectorRebuild {
  import opened Edc
  import opened Galois
  import opened ProductCode
  import opened SectorParity
  import opened Sectors

  /** Parity bytes stay right when only bytes after them change. */
  lemma {:induction false} StillRight(k: Checks, c: Code, address: seq<octet>, v: seq<octet>, w: seq<octet>)
    requires CodeOk(c) && View(address, v) && View(address, w) && AllRight(k.par, c, address, v, c.majors)
    requires v[..ParityAt(c) + 2 * c.majors] == w[..ParityAt(c) + 2 * c.majors]
    ensures AllRight(k.par, c, address, w, c.majors)
  {
    var n := ParityAt(c) + 2 * c.majors;
    assert v[..ParityAt(c)] == v[..n][..ParityAt(c)] && w[..ParityAt(c)] == w[..n][..ParityAt(c)];
    forall m | 0 <= m < c.majors
      ensures Right(k.par, c, address, w, m)
    {
      assert Right(k.par, c, address, v, m);
      SameVector(c, address, v, w, m);
      assert v[..n][ParityAt(c) + m] == w[..n][ParityAt(c) + m];
      assert v[..n][ParityAt(c) + c.majors + m] == w[..n][ParityAt(c) + c.majors + m];
    }
  }

  /** ecc_writesector: P first, then Q, which covers P as well. */
  method WriteEcc(t: Luts, address: seq<octet>, v: seq<octet>, ghost k: Checks) returns (w: seq<octet>)
    requires LutsOk(t) && ChecksOk(k) && View(address, v)
    ensures EccRight(k, address, w) && w[..0x80C] == v[..0x80C]
  {
    CodesOk();
    var u := WritePq(t.f, t.b, P_CODE, address, v, k.par);
    w := WritePq(t.f, t.b, Q_CODE, address, u, k.par);
    StillRight(k, P_CODE, address, u, w);
    assert w[..0x80C] == w[..0x8B8][..0x80C] && u[..0x80C] == u[..0x8B8][..0x80C];
  }

  lemma {:induction false} DetectionIs(k: Checks, s: seq<octet>, w: word)
    requires ChecksOk(k) && w == Remainder(0, s)
    ensures PutLsb(w) == k.det(s)
  {
    DetectionBytes(k, s, w, PutLsb(w));
    PutThenGet(w);
  }

  /** Puts the detection code for the bytes before n at n. */
  method WriteEdc(t: Luts, s: seq<octet>, from: nat, n: nat, ghost k: Checks) returns (r: seq<octet>)
    requires LutsOk(t) && ChecksOk(k) && from <= n && n + 4 <= |s|
    ensures |r| == |s| && r[..n] == s[..n] && r[n..n + 4] == k.det(r[from..n]) && r[n + 4..] == s[n + 4..]
  {
    var w := Compute(t.edc, 0, s[from..n]);
    DetectionIs(k, s[from..n], w);
    r := s[..n] + PutLsb(w) + s[n + 4..];
    assert r[..n] == s[..n] && r[n..n + 4] == PutLsb(w) && r[n + 4..] == s[n + 4..];
    assert r[from..n] == s[from..n];
  }

  /** A buffer with sync, mode and reserved bytes set. */
  function Framed1(b: seq<octet>): (r: seq<octet>)
    requires |b| == SECTOR_LEN
    ensures |r| == SECTOR_LEN && r[..12] == SYNC && r[12..15] == b[12..15] && r[15] == 1
    ensures r[16..0x814] == b[16..0x814] && r[0x814..0x81C] == ZERO8
  {
    SYNC + b[12..15] + [1] + b[16..0x814] + ZERO8 + b[0x81C..]
  }

  method RebuildMode1(t: Luts, buffer: seq<octet>, ghost k: Checks) returns (r: seq<octet>)
    requires LutsOk(t) && ChecksOk(k) && |buffer| == SECTOR_LEN
    ensures Mode1(k, r) && Payload(1, r) == buffer[12..15] + buffer[16..0x810]
  {
    var a := Framed1(buffer);
    var b := WriteEdc(t, a, 0, 0x810, k);
    var v := WriteEcc(t, b[12..16], b[16..], k);
    r := b[..16] + v;
    Assembled(a, b, v, r);
    assert a[16..0x814][..0x800] == a[16..0x810] && buffer[16..0x814][..0x800] == buffer[16..0x810];
  }

  lemma {:induction false} Assembled(a: seq<octet>, b: seq<octet>, v: seq<octet>, r: seq<octet>)
    requires |a| == |b| == SECTOR_LEN && b[..0x810] == a[..0x810] && b[0x814..] == a[0x814..]
    requires |v| == VIEW_LEN && v[..0x80C] == b[16..][..0x80C] && r == b[..16] + v
    ensures r[..16] == b[..16] && r[16..] == v && r[12..16] == b[12..16]
    ensures r[..12] == a[..12] && r[12..15] == a[12..15] && r[15] == a[15] && r[16..0x810] == a[16..0x810]
    ensures r[0x814..0x81C] == a[0x814..0x81C] && r[0x810..0x814] == b[0x810..0x814] && r[..0x810] == b[..0x810]
  {
    assert forall i | 0 <= i < 0x81C :: r[i] == b[i] by {
      forall i | 0 <= i < 0x81C
        ensures r[i] == b[i]
      {
        if i >= 16 {
          assert v[..0x80C][i - 16] == b[16..][..0x80C][i - 16];
        }
      }
    }
    assert r[..0x81C] == b[..0x81C];
    assert forall i | 0 <= i < 0x810 :: b[..0x810][i] == a[..0x810][i];
    assert forall i | 0 <= i < 8 :: b[0x814..][i] == a[0x814..][i];
    assert r[..0x810] == r[..0x81C][..0x810] && b[..0x810] == b[..0x81C][..0x810];
    assert r[0x810..0x814] == r[..0x81C][0x810..0x814] && b[0x810..0x814] == b[..0x81C][0x810..0x814];
    assert r[0x814..0x81C] == r[..0x81C][0x814..0x81C] && b[0x814..0x81C] == b[..0x81C][0x814..0x81C];
    assert b[0x814..0x81C] == b[0x814..][..8] && a[0x814..0x81C] == a[0x814..][..8];
    assert r[16..0x810] == r[..0x810][16..] && a[16..0x810] == a[..0x810][16..];
    assert r[12..15] == r[..0x810][12..15] && a[12..15] == a[..0x810][12..15];
    assert r[..12] == r[..0x810][..12] && a[..12] == a[..0x810][..12];
  }

  /** The flags copied from their repetition, in the bytes that are written out. */
  function Framed2(v: seq<octet>): (r: seq<octet>)
    requires |v| == VIEW_LEN
    ensures |r| == VIEW_LEN && r[..4] == r[4..8] && r[4..] == v[4..]
  {
    v[4..8] + v[4..]
  }

  method RebuildForm1(t: Luts, buffer: seq<octet>, ghost k: Checks) returns (r: seq<octet>)
    requires LutsOk(t) && ChecksOk(k) && |buffer| == SECTOR_LEN
    ensures Form1(k, r) && Payload(2, r) == buffer[20..0x818]
  {
    var a := Framed2(buffer[16..]);
    var b := WriteEdc(t, a, 0, 0x808, k);
    r := WriteEcc(t, ZERO4, b, k);
    Kept(a, b, r, 0x808, 0x80C);
    assert a[4..0x808] == a[4..][..0x804] && buffer[20..0x818] == buffer[16..][4..][..0x804];
  }

  method RebuildForm2(t: Luts, buffer: seq<octet>, ghost k: Checks) returns (r: seq<octet>)
    requires LutsOk(t) && ChecksOk(k) && |buffer| == SECTOR_LEN
    ensures Form2(k, r) && Payload(3, r) == buffer[20..0x92C]
  {
    var a := Framed2(buffer[16..]);
    r := WriteEdc(t, a, 0, 0x91C, k);
    Kept(a, r, r, 0x91C, 0x920);
    assert a[4..0x91C] == a[4..][..0x918] && buffer[20..0x92C] == buffer[16..][4..][..0x918];
  }

  lemma {:induction false} Kept(a: seq<octet>, b: seq<octet>, r: seq<octet>, n: nat, m: nat)
    requires |a| == |b| == |r| == VIEW_LEN && 8 <= n && n + 4 == m <= VIEW_LEN && b[..n] == a[..n] && r[..m] == b[..m] && a[..4] == a[4..8]
    ensures r[..4] == r[4..8] && r[4..n] == a[4..n] && r[..n] == b[..n] && r[n..m] == b[n..m] && r[0..n] == b[0..n]
  {
    assert r[..n] == r[..m][..n] && b[..n] == b[..m][..n];
    assert r[n..m] == r[..m][n..] && b[n..m] == b[..m][n..];
    assert r[4..n] == r[..n][4..] && a[4..n] == a[..n][4..];
    assert r[..4] == r[..n][..4] && a[..4] == a[..n][..4];
    assert r[4..8] == r[..n][4..8] && a[4..8] == a[..n][4..8];
  }
}
