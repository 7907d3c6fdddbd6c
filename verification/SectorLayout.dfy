/** Sectors part after part, and the field of their parity. */
module SectorLayout {
  import opened EdcPolynomial
  import opened Galois
  import opened ProductCode
  import opened Sectors
  import opened ShiftRegister

  const PARITY_LEN: nat := 172 + 104

  /** Sync, address, mode, 2048 bytes of data, their detection code, eight zero bytes, and the P and Q parity. */
  ghost predicate Mode1Parts(k: Checks, s: seq<octet>, a: seq<octet>, d: seq<octet>, p: seq<octet>) {
    && |a| == 3 && |d| == 2048 && |p| == PARITY_LEN
    && var front := SYNC + a + [1] + d;
       s == front + k.det(front) + ZERO8 + p && EccRight(k, a + [1], d + k.det(front) + ZERO8 + p)
  }

  /** Subheader twice, 2048 bytes of data, the detection code, and the P and Q parity with a zero address. */
  ghost predicate Form1Parts(k: Checks, s: seq<octet>, h: seq<octet>, d: seq<octet>, p: seq<octet>) {
    && |h| == 4 && |d| == 2048 && |p| == PARITY_LEN
    && var front := h + h + d; s == front + k.det(front) + p && EccRight(k, ZERO4, s)
  }

  /** Subheader twice, 2324 bytes of data, the detection code. */
  ghost predicate Form2Parts(k: Checks, s: seq<octet>, h: seq<octet>, d: seq<octet>) {
    && |h| == 4 && |d| == 2324 && var front := h + h + d; s == front + k.det(front)
  }

  /** The parts of a sector of 2352 bytes. */
  lemma {:induction false} Cut1(s: seq<octet>)
    requires |s| == SECTOR_LEN
    ensures s[..12] + s[12..15] + [s[15]] + s[16..0x810] == s[..0x810]
    ensures s == s[..0x810] + s[0x810..0x814] + s[0x814..0x81C] + s[0x81C..]
    ensures s[16..] == s[16..0x810] + s[0x810..0x814] + s[0x814..0x81C] + s[0x81C..]
    ensures s[12..16] == s[12..15] + [s[15]]
  {
  }

  lemma {:induction false} Mode1IsLaid(k: Checks, s: seq<octet>)
    requires Mode1(k, s)
    ensures Mode1Parts(k, s, s[12..15], s[16..0x810], s[0x81C..])
  {
    Cut1(s);
  }

  lemma {:induction false} Glued1(a: seq<octet>, d: seq<octet>, e: seq<octet>, p: seq<octet>, front: seq<octet>, s: seq<octet>)
    requires |a| == 3 && |d| == 2048 && |e| == 4 && |p| == PARITY_LEN && front == SYNC + a + [1] + d && s == front + e + ZERO8 + p
    ensures |s| == SECTOR_LEN && s[..12] == SYNC && s[15] == 1 && s[..0x810] == front && s[0x810..0x814] == e && s[0x814..0x81C] == ZERO8
    ensures s[12..16] == a + [1] && s[16..] == d + e + ZERO8 + p
  {
  }

  /** A mode 1 sector is exactly one that has these parts. */
  lemma {:induction false} Mode1Layout(k: Checks, s: seq<octet>)
    requires ChecksOk(k)
    ensures Mode1(k, s) <==> exists a, d, p :: Mode1Parts(k, s, a, d, p)
  {
    if Mode1(k, s) {
      Mode1IsLaid(k, s);
    }
    if a, d, p :| Mode1Parts(k, s, a, d, p) {
      var front := SYNC + a + [1] + d;
      Glued1(a, d, k.det(front), p, front, s);
    }
  }

  lemma {:induction false} Cut2(s: seq<octet>, n: nat)
    requires |s| == VIEW_LEN && 8 <= n <= VIEW_LEN - 4
    ensures s[..4] + s[4..8] + s[8..n] == s[..n]
    ensures s == s[..n] + s[n..n + 4] + s[n + 4..]
  {
  }

  lemma {:induction false} Glued2(h: seq<octet>, d: seq<octet>, e: seq<octet>, p: seq<octet>, front: seq<octet>, s: seq<octet>, n: nat)
    requires |h| == 4 && |e| == 4 && front == h + h + d && s == front + e + p && n == |front|
    ensures s[..4] == h && s[4..8] == h && s[..n] == front && s[n..n + 4] == e
  {
  }

  lemma {:induction false} Form1Layout(k: Checks, s: seq<octet>)
    requires ChecksOk(k)
    ensures Form1(k, s) <==> exists h, d, p :: Form1Parts(k, s, h, d, p)
  {
    if Form1(k, s) {
      Cut2(s, 0x808);
      assert Form1Parts(k, s, s[..4], s[8..0x808], s[0x80C..]);
    }
    if h, d, p :| Form1Parts(k, s, h, d, p) {
      Glued2(h, d, k.det(h + h + d), p, h + h + d, s, 0x808);
    }
  }

  lemma {:induction false} Form2Layout(k: Checks, s: seq<octet>)
    requires ChecksOk(k)
    ensures Form2(k, s) <==> exists h, d :: Form2Parts(k, s, h, d)
  {
    if Form2(k, s) {
      Cut2(s, 0x91C);
      assert s[..4] + s[4..8] + s[8..0x91C] + s[0x91C..0x920] == s;
      assert Form2Parts(k, s, s[..4], s[8..0x91C]);
    }
    if h, d :| Form2Parts(k, s, h, d) {
      assert s == h + h + d + k.det(h + h + d) + [];
      Glued2(h, d, k.det(h + h + d), [], h + h + d, s, 0x91C);
    }
  }

  // ---- the field of the parity ----

  /** An element as a polynomial of degree seven. */
  ghost function Element(x: octet): (p: Poly)
    ensures |p| == 8
  {
    [x & 0x80 != 0, x & 0x40 != 0, x & 0x20 != 0, x & 0x10 != 0, x & 8 != 0, x & 4 != 0, x & 2 != 0, x & 1 != 0]
  }

  /** x^8 + x^4 + x^3 + x^2 + 1 */
  ghost function FieldModulus(): (p: Poly)
    ensures |p| == 9
  {
    Powers(8, {8, 4, 3, 2, 0})
  }

  lemma {:induction false} TwiceBits(x: octet)
    ensures var y := Twice(x); var top := x & 0x80 != 0;
      && (y & 0x80 != 0) == (x & 0x40 != 0) && (y & 0x40 != 0) == (x & 0x20 != 0) && (y & 0x20 != 0) == (x & 0x10 != 0)
      && (y & 0x10 != 0) == ((x & 8 != 0) != top) && (y & 8 != 0) == ((x & 4 != 0) != top) && (y & 4 != 0) == ((x & 2 != 0) != top)
      && (y & 2 != 0) == (x & 1 != 0) && (y & 1 != 0) == top
  {
  }

  lemma {:induction false} RestOf(p: Poly)
    requires |p| == 8
    ensures NextRest(FieldModulus(), p, false)
         == [p[1], p[2], p[3], p[4] != p[0], p[5] != p[0], p[6] != p[0], p[7], p[0]]
  {
    var q := [p[1], p[2], p[3], p[4] != p[0], p[5] != p[0], p[6] != p[0], p[7], p[0]];
    forall i | 0 <= i < 8
      ensures NextRest(FieldModulus(), p, false)[i] == q[i]
    {
      assert FieldModulus()[1..][i] == (7 - i in {8, 4, 3, 2, 0});
    }
  }

  /** Doubling is multiplying by x and taking the remainder. */
  lemma {:induction false} TwiceIsTimesX(x: octet)
    ensures Element(Twice(x)) == NextRest(FieldModulus(), Element(x), false)
  {
    TwiceBits(x);
    RestOf(Element(x));
  }
}
