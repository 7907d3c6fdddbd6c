/** Polynomials with bits as coefficients, and a shift register that divides by one. */
module ShiftRegister {

  /** Coefficients, that of the highest power first. */
  type Poly = seq<bool>

  ghost function Nulls(n: nat): (p: Poly)
    ensures |p| == n && forall i :: 0 <= i < n ==> !p[i]
  {
    seq(n, _ => false)
  }

  ghost function Added(a: Poly, b: Poly): (p: Poly)
    requires |a| == |b|
    ensures |p| == |a| && forall i :: 0 <= i < |p| ==> p[i] == (a[i] != b[i])
  {
    seq(|a|, i requires 0 <= i < |a| => a[i] != b[i])
  }

  ghost function Scaled(b: bool, g: Poly): (p: Poly)
    ensures |p| == |g| && forall i :: 0 <= i < |p| ==> p[i] == (b && g[i])
  {
    if b then g else Nulls(|g|)
  }

  /** Coefficient by coefficient of q. */
  ghost function Product(q: Poly, g: Poly): (p: Poly)
    requires |g| > 0
    ensures |p| == |q| + |g| - 1
  {
    if q == [] then Nulls(|g| - 1)
    else
      var k := |q| - 1;
      Added(Product(q[..k], g) + [false], Nulls(k) + Scaled(q[k], g))
  }

  /** With as many places behind it as r has, m is q times g and the remainder r. */
  ghost predicate Divided(m: Poly, g: Poly, q: Poly, r: Poly) {
    && |g| > 0 && |q| == |m| && |r| == |g| - 1
    && m + Nulls(|r|) == Added(Product(q, g), Nulls(|m|) + r)
  }

  /** One step of the division, with the next coefficient b. */
  ghost function NextRest(g: Poly, r: Poly, b: bool): (r': Poly)
    requires |r| == |g| - 1 > 0
    ensures |r'| == |r|
  {
    Added(r[1..] + [false], Scaled(r[0] != b, g[1..]))
  }

  lemma {:induction false} ProductSnoc(q: Poly, c: bool, g: Poly)
    requires |g| > 0
    ensures Product(q + [c], g) == Added(Product(q, g) + [false], Nulls(|q|) + Scaled(c, g))
  {
    assert (q + [c])[..|q|] == q;
  }

  lemma {:induction false} DivideAt(m: Poly, g: Poly, p: Poly, r: Poly, b: bool, i: nat)
    requires |g| > 1 && g[0] && |r| == |g| - 1 && |p| == |m| + |r| && i < |m| + |g|
    requires m + Nulls(|r|) == Added(p, Nulls(|m|) + r)
    ensures (m + [b] + Nulls(|r|))[i]
         == Added(Added(p + [false], Nulls(|m|) + Scaled(r[0] != b, g)), Nulls(|m| + 1) + NextRest(g, r, b))[i]
  {
    if i < |p| {
      assert (m + Nulls(|r|))[i] == (p[i] != (Nulls(|m|) + r)[i]);
    }
  }

  lemma {:induction false} DivideOn(m: Poly, g: Poly, q: Poly, r: Poly, b: bool)
    requires Divided(m, g, q, r) && |r| > 0 && g[0]
    ensures Divided(m + [b], g, q + [r[0] != b], NextRest(g, r, b))
  {
    ProductSnoc(q, r[0] != b, g);
    var s, t := m + [b] + Nulls(|r|), Added(Product(q + [r[0] != b], g), Nulls(|m| + 1) + NextRest(g, r, b));
    forall i | 0 <= i < |s|
      ensures s[i] == t[i]
    {
      DivideAt(m, g, Product(q, g), r, b, i);
    }
    assert s == t;
  }

  // ---- the register ----

  const REG: nat := 32

  /** A register whose first bit is the odd one, whatever it is made of; bit is one bit of its work. */
  datatype Register<!T> = Register(odd: T -> bool, half: T -> T, sum: (T, T) -> T, bit: T -> T, zero: T, one: T, poly: T)

  ghost function Low<T>(d: Register<T>, b: bool): T {
    if b then d.one else d.zero
  }

  ghost function Down<T>(d: Register<T>, w: T, n: nat): T {
    if n == 0 then w else Down(d, d.half(w), n - 1)
  }

  ghost predicate SumLaw<T(!new)>(d: Register<T>, x: T, y: T) {
    d.odd(d.sum(x, y)) == (d.odd(x) != d.odd(y)) && d.half(d.sum(x, y)) == d.sum(d.half(x), d.half(y))
  }

  /** A bit of data is added to the first bit; if that makes one, the polynomial is added to what is shifted. */
  ghost predicate StepLaw<T(!new)>(d: Register<T>, x: T, b: bool) {
    d.bit(d.sum(x, Low(d, b))) == d.sum(d.half(x), if d.odd(x) != b then d.poly else d.zero)
  }

  /** Further bits of data can be added before or after a bit of work. */
  ghost predicate FeedLaw<T(!new)>(d: Register<T>, x: T, w: T) {
    d.bit(d.sum(x, w)) == d.sum(d.bit(d.sum(x, Low(d, d.odd(w)))), d.half(w))
  }

  ghost predicate EndLaw<T(!new)>(d: Register<T>, x: T) {
    Down(d, x, REG) == d.zero && d.sum(x, d.zero) == x
  }

  ghost predicate Laws<T(!new)>(d: Register<T>) {
    && (forall x, y {:trigger SumLaw(d, x, y)} :: SumLaw(d, x, y))
    && (forall x, b {:trigger StepLaw(d, x, b)} :: StepLaw(d, x, b))
    && (forall x, w {:trigger FeedLaw(d, x, w)} :: FeedLaw(d, x, w))
    && (forall x {:trigger EndLaw(d, x)} :: EndLaw(d, x))
    && !d.odd(d.zero) && d.half(d.zero) == d.zero
  }

  /** The first n bits. */
  ghost function RegBits<T>(d: Register<T>, w: T, n: nat): (p: Poly)
    ensures |p| == n
  {
    if n == 0 then [] else [d.odd(w)] + RegBits(d, d.half(w), n - 1)
  }

  lemma {:induction false} RegSnoc<T>(d: Register<T>, w: T, n: nat)
    ensures RegBits(d, w, n + 1) == RegBits(d, w, n) + [d.odd(Down(d, w, n))]
    decreases n
  {
    if n > 0 {
      RegSnoc(d, d.half(w), n - 1);
    }
  }

  /** Shifting the register drops its first bit. */
  lemma {:induction false} RegShift<T(!new)>(d: Register<T>, w: T)
    requires Laws(d)
    ensures RegBits(d, d.half(w), REG) == RegBits(d, w, REG)[1..] + [false]
  {
    RegSnoc(d, d.half(w), REG - 1);
    assert EndLaw(d, w);
    assert Down(d, d.half(w), REG - 1) == Down(d, w, REG);
    assert RegBits(d, w, REG)[1..] == RegBits(d, d.half(w), REG - 1);
  }

  lemma {:induction false} RegSum<T(!new)>(d: Register<T>, x: T, y: T, n: nat)
    requires Laws(d)
    ensures RegBits(d, d.sum(x, y), n) == Added(RegBits(d, x, n), RegBits(d, y, n))
    decreases n
  {
    if n > 0 {
      assert SumLaw(d, x, y);
      RegSum(d, d.half(x), d.half(y), n - 1);
    }
  }

  lemma {:induction false} RegNull<T(!new)>(d: Register<T>, n: nat)
    requires Laws(d)
    ensures RegBits(d, d.zero, n) == Nulls(n)
  {
    if n > 0 {
      RegNull(d, n - 1);
    }
  }

  /** What the register divides by: its polynomial behind the highest power. */
  ghost function Generator<T>(d: Register<T>): (g: Poly)
    ensures |g| == REG + 1 && g[0]
  {
    [true] + RegBits(d, d.poly, REG)
  }

  /** One bit of the register's work is one step of the division. */
  lemma {:induction false} RegStep<T(!new)>(d: Register<T>, x: T, b: bool)
    requires Laws(d)
    ensures RegBits(d, d.bit(d.sum(x, Low(d, b))), REG) == NextRest(Generator(d), RegBits(d, x, REG), b)
  {
    assert StepLaw(d, x, b);
    var y := if d.odd(x) != b then d.poly else d.zero;
    RegSum(d, d.half(x), y, REG);
    RegShift(d, x);
    RegNull(d, REG);
    assert Generator(d)[1..] == RegBits(d, d.poly, REG);
  }

  // ---- several bits at once ----

  /** The first n bits of w one after the other. */
  ghost function Fed<T>(d: Register<T>, x: T, w: T, n: nat): T
    decreases n
  {
    if n == 0 then x else Fed(d, d.bit(d.sum(x, Low(d, d.odd(w)))), d.half(w), n - 1)
  }

  ghost function Worked<T>(d: Register<T>, x: T, n: nat): T
    decreases n
  {
    if n == 0 then x else Worked(d, d.bit(x), n - 1)
  }

  /** All at once is one after the other. */
  lemma {:induction false} AtOnce<T(!new)>(d: Register<T>, x: T, w: T, n: nat)
    requires Laws(d) && Down(d, w, n) == d.zero
    ensures Worked(d, d.sum(x, w), n) == Fed(d, x, w, n)
    decreases n
  {
    if n == 0 {
      assert EndLaw(d, x);
    } else {
      assert FeedLaw(d, x, w);
      AtOnce(d, d.bit(d.sum(x, Low(d, d.odd(w)))), d.half(w), n - 1);
    }
  }

  lemma {:induction false} DivideBit<T(!new)>(d: Register<T>, m: Poly, q: Poly, x: T, b: bool) returns (q': Poly)
    requires Laws(d) && Divided(m, Generator(d), q, RegBits(d, x, REG))
    ensures Divided(m + [b], Generator(d), q', RegBits(d, d.bit(d.sum(x, Low(d, b))), REG))
  {
    DivideOn(m, Generator(d), q, RegBits(d, x, REG), b);
    RegStep(d, x, b);
    q' := q + [RegBits(d, x, REG)[0] != b];
  }

  lemma {:induction false} Regroup(m: Poly, b: bool, t: Poly)
    ensures m + ([b] + t) == m + [b] + t
  {
  }

  lemma {:induction false} DivideBits<T(!new)>(d: Register<T>, m: Poly, q: Poly, x: T, w: T, n: nat) returns (q': Poly)
    requires Laws(d) && Divided(m, Generator(d), q, RegBits(d, x, REG))
    ensures Divided(m + RegBits(d, w, n), Generator(d), q', RegBits(d, Fed(d, x, w, n), REG))
    decreases n
  {
    if n == 0 {
      q' := q;
      assert m + [] == m;
    } else {
      var b := d.odd(w);
      q' := DivideBit(d, m, q, x, b);
      q' := DivideBits(d, m + [b], q', d.bit(d.sum(x, Low(d, b))), d.half(w), n - 1);
      Regroup(m, b, RegBits(d, d.half(w), n - 1));
    }
  }

  /** The bits of some pieces of n bits each. */
  ghost function DataBits<T>(d: Register<T>, s: seq<T>, n: nat): Poly {
    if s == [] then [] else DataBits(d, s[..|s| - 1], n) + RegBits(d, s[|s| - 1], n)
  }

  ghost function Registered<T>(d: Register<T>, s: seq<T>, n: nat): T {
    if s == [] then d.zero else Worked(d, d.sum(Registered(d, s[..|s| - 1], n), s[|s| - 1]), n)
  }

  lemma {:induction false} DividePiece<T(!new)>(d: Register<T>, m: Poly, q: Poly, x: T, w: T, n: nat) returns (q': Poly)
    requires Laws(d) && Divided(m, Generator(d), q, RegBits(d, x, REG)) && Down(d, w, n) == d.zero
    ensures Divided(m + RegBits(d, w, n), Generator(d), q', RegBits(d, Worked(d, d.sum(x, w), n), REG))
  {
    AtOnce(d, x, w, n);
    q' := DivideBits(d, m, q, x, w, n);
  }

  /** What the register holds in the end is the remainder of the data, with null coefficients behind it. */
  lemma {:induction false} RemainderDivides<T(!new)>(d: Register<T>, s: seq<T>, n: nat) returns (q: Poly)
    requires Laws(d) && forall i :: 0 <= i < |s| ==> Down(d, s[i], n) == d.zero
    ensures Divided(DataBits(d, s, n), Generator(d), q, RegBits(d, Registered(d, s, n), REG))
  {
    if s == [] {
      q := [];
      RegNull(d, REG);
    } else {
      var k := |s| - 1;
      q := RemainderDivides(d, s[..k], n);
      q := DividePiece(d, DataBits(d, s[..k], n), q, Registered(d, s[..k], n), s[k], n);
    }
  }

  /** With the remainder in the place of those, the data is a multiple of the generator. */
  lemma {:induction false} DataAndRest(m: Poly, g: Poly, q: Poly, r: Poly)
    requires Divided(m, g, q, r)
    ensures m + r == Product(q, g)
  {
    var p := Product(q, g);
    forall i | 0 <= i < |p|
      ensures (m + r)[i] == p[i]
    {
      assert (m + Nulls(|r|))[i] == (p[i] != (Nulls(|m|) + r)[i]);
    }
  }
}
