/**
 * The detection code as section 14.3 of ECMA-130 gives it: the bits of the data and of the code, each byte from the
 * least significant bit on, are a multiple of the product of two polynomials.
 */
module EdcPolynomial {
  import opened Edc
  import opened Folds
  import opened Galois
  import opened ShiftRegister

  const POLY: word := 0xD8018001

  function Odd(w: word): bool {
    w & 1 != 0
  }

  function Half(w: word): word {
    w >> 1
  }

  function Xor(x: word, y: word): word {
    x ^ y
  }

  function TheRegister(): Register<word> {
    Register(Odd, Half, Xor, Bit, 0, 1, POLY)
  }

  lemma {:induction false} SumHolds(x: word, y: word)
    ensures Odd(Xor(x, y)) == (Odd(x) != Odd(y))
    ensures Half(Xor(x, y)) == Xor(Half(x), Half(y))
  {
  }

  lemma {:induction false} StepPlain(x: word)
    requires !Odd(x)
    ensures Bit(Xor(x, 0)) == Xor(Half(x), 0)
  {
  }

  lemma {:induction false} StepOdd(x: word)
    requires Odd(x)
    ensures Bit(Xor(x, 0)) == Xor(Half(x), POLY)
  {
  }

  lemma {:induction false} StepBit(x: word)
    requires !Odd(x)
    ensures Bit(Xor(x, 1)) == Xor(Half(x), POLY)
  {
  }

  lemma {:induction false} StepBoth(x: word)
    requires Odd(x)
    ensures Bit(Xor(x, 1)) == Xor(Half(x), 0)
  {
  }

  lemma {:induction false} StepHolds(x: word, b: bool)
    ensures StepLaw(TheRegister(), x, b)
  {
    if !b && !Odd(x) {
      StepPlain(x);
    } else if !b {
      StepOdd(x);
    } else if !Odd(x) {
      StepBit(x);
    } else {
      StepBoth(x);
    }
  }

  const BUT_ONE: word := 0xFFFF_FFFE

  function But(w: word): word {
    w & BUT_ONE
  }

  lemma {:induction false} WithLow(x: word, w: word)
    requires Odd(w)
    ensures IsSum(Xor(x, w), Xor(x, 1), But(w))
  {
  }

  lemma {:induction false} WithoutLow(x: word, w: word)
    requires !Odd(w)
    ensures IsSum(Xor(x, w), Xor(x, 0), But(w))
  {
  }

  lemma {:induction false} ButEven(w: word)
    ensures But(w) & 1 == 0
  {
  }

  lemma {:induction false} ButHalf(w: word)
    ensures But(w) >> 1 == Half(w)
  {
  }

  lemma {:induction false} ButDown(w: word)
    ensures Bit(But(w)) == Half(w)
  {
    ButEven(w);
    ButHalf(w);
    BitDown(But(w));
  }

  lemma {:induction false} FeedSum(z: word, y: word, w: word)
    requires IsSum(z, y, But(w))
    ensures Bit(z) == Xor(Bit(y), Half(w))
  {
    BitOfSum(y, But(w), z);
    OpenSum(Bit(z), Bit(y), Bit(But(w)));
    ButDown(w);
  }

  lemma {:induction false} FeedHolds(x: word, w: word)
    ensures FeedLaw(TheRegister(), x, w)
  {
    if Odd(w) {
      WithLow(x, w);
      FeedSum(Xor(x, w), Xor(x, 1), w);
    } else {
      WithoutLow(x, w);
      FeedSum(Xor(x, w), Xor(x, 0), w);
    }
  }

  lemma {:induction false} DownJoin<T>(d: Register<T>, w: T, m: nat, n: nat)
    ensures Down(d, w, m + n) == Down(d, Down(d, w, m), n)
    decreases m
  {
    if m > 0 {
      DownJoin(d, d.half(w), m - 1, n);
      assert m + n - 1 == m - 1 + n;
    }
  }

  lemma {:induction false} DownTwice<T>(d: Register<T>, w: T, v: T, u: T, n: nat)
    requires Down(d, w, n) == v && Down(d, v, n) == u
    ensures Down(d, w, n + n) == u
  {
    DownJoin(d, w, n, n);
  }

  function By2(w: word): word {
    w >> 2
  }

  function By4(w: word): word {
    w >> 4
  }

  function By8(w: word): word {
    w >> 8
  }

  function By16(w: word): word {
    w >> 16
  }

  lemma {:induction false} HalfTwice(w: word)
    ensures Half(Half(w)) == By2(w)
  {
  }

  lemma {:induction false} By2Twice(w: word)
    ensures By2(By2(w)) == By4(w)
  {
  }

  lemma {:induction false} By4Twice(w: word)
    ensures By4(By4(w)) == By8(w)
  {
  }

  lemma {:induction false} By8Twice(w: word)
    ensures By8(By8(w)) == By16(w)
  {
  }

  lemma {:induction false} By16Twice(w: word)
    ensures By16(By16(w)) == 0
  {
  }

  lemma {:induction false} DownOne<T>(d: Register<T>, w: T)
    ensures Down(d, w, 1) == d.half(w)
  {
  }

  lemma {:induction false} DownTwo(w: word)
    ensures Down(TheRegister(), w, 2) == By2(w)
  {
    DownOne(TheRegister(), w);
    DownOne(TheRegister(), Half(w));
    HalfTwice(w);
    DownTwice(TheRegister(), w, Half(w), By2(w), 1);
  }

  lemma {:induction false} DownFour(w: word)
    ensures Down(TheRegister(), w, 4) == By4(w)
  {
    DownTwo(w);
    DownTwo(By2(w));
    By2Twice(w);
    DownTwice(TheRegister(), w, By2(w), By4(w), 2);
  }

  lemma {:induction false} DownEight(w: word)
    ensures Down(TheRegister(), w, 8) == By8(w)
  {
    DownFour(w);
    DownFour(By4(w));
    By4Twice(w);
    DownTwice(TheRegister(), w, By4(w), By8(w), 4);
  }

  lemma {:induction false} DownSixteen(w: word)
    ensures Down(TheRegister(), w, 16) == By16(w)
  {
    DownEight(w);
    DownEight(By8(w));
    By8Twice(w);
    DownTwice(TheRegister(), w, By8(w), By16(w), 8);
  }

  lemma {:induction false} EndHolds(w: word)
    ensures EndLaw(TheRegister(), w)
  {
    DownSixteen(w);
    DownSixteen(By16(w));
    By16Twice(w);
    DownTwice(TheRegister(), w, By16(w), 0, 16);
    assert Xor(w, 0) == w;
  }

  lemma {:induction false} LawsHold()
    ensures Laws(TheRegister())
  {
    forall x, y
      ensures SumLaw(TheRegister(), x, y)
    {
      SumHolds(x, y);
    }
    forall x, b
      ensures StepLaw(TheRegister(), x, b)
    {
      StepHolds(x, b);
    }
    forall x, w
      ensures FeedLaw(TheRegister(), x, w)
    {
      FeedHolds(x, w);
    }
    forall x
      ensures EndLaw(TheRegister(), x)
    {
      EndHolds(x);
    }
  }

  // ---- the polynomial ----

  /** Coefficients of the powers in a set, up to the nth. */
  ghost function Powers(n: nat, s: set<nat>): (p: Poly)
    ensures |p| == n + 1 && forall i :: 0 <= i <= n ==> p[i] == (n - i in s)
  {
    seq(n + 1, i requires 0 <= i <= n => n - i in s)
  }

  /** x^16 + x^15 + x^2 + 1 */
  ghost function Factor1(): Poly {
    Powers(16, {16, 15, 2, 0})
  }

  /** x^16 + x^2 + x + 1 */
  ghost function Factor2(): (p: Poly)
    ensures |p| == 17
  {
    Powers(16, {16, 2, 1, 0})
  }

  lemma {:induction false} TimesX(q: Poly, g: Poly)
    requires |g| > 0
    ensures Product(q + [false], g) == Product(q, g) + [false]
  {
    ProductSnoc(q, false, g);
    var p := Added(Product(q, g) + [false], Nulls(|q|) + Scaled(false, g));
    assert p == Product(q, g) + [false];
  }

  lemma {:induction false} OneMoreNull(p: Poly, k: nat)
    ensures p + Nulls(k) + [false] == p + Nulls(k + 1)
  {
  }

  lemma {:induction false} ProductNulls(q: Poly, g: Poly, k: nat)
    requires |g| > 0
    ensures Product(q + Nulls(k), g) == Product(q, g) + Nulls(k)
  {
    if k == 0 {
      assert q + Nulls(0) == q;
      assert Product(q, g) + Nulls(0) == Product(q, g);
    } else {
      ProductNulls(q, g, k - 1);
      TimesX(q + Nulls(k - 1), g);
      OneMoreNull(q, k - 1);
      OneMoreNull(Product(q, g), k - 1);
    }
  }

  lemma {:induction false} ProductOne(g: Poly)
    requires |g| > 0
    ensures Product([true], g) == g
  {
    assert Product([], g) == Nulls(|g| - 1);
    ProductSnoc([], true, g);
    assert [] + [true] == [true];
  }

  /** A sum of powers times x, and g on top if c. */
  lemma {:induction false} TimesXAnd(q: Poly, c: bool, n: nat, s: set<nat>, t: set<nat>)
    requires Product(q, Factor2()) == Powers(n, s) && n == |q| + 15
    requires forall i: nat :: i <= n + 1 ==> (i in t <==> ((i > 0 && i - 1 in s) != (c && i in {16, 2, 1, 0})))
    ensures Product(q + [c], Factor2()) == Powers(n + 1, t)
  {
    ProductSnoc(q, c, Factor2());
    var p := Added(Powers(n, s) + [false], Nulls(|q|) + Scaled(c, Factor2()));
    forall i | 0 <= i <= n + 1
      ensures p[i] == Powers(n + 1, t)[i]
    {
    }
    assert p == Powers(n + 1, t);
  }

  lemma {:induction false} TimesXs(q: Poly, k: nat, n: nat, s: set<nat>, t: set<nat>)
    requires Product(q, Factor2()) == Powers(n, s)
    requires forall i: nat :: i <= n + k ==> (i in t <==> i >= k && i - k in s)
    ensures Product(q + Nulls(k), Factor2()) == Powers(n + k, t)
  {
    ProductNulls(q, Factor2(), k);
    assert Powers(n, s) + Nulls(k) == Powers(n + k, t);
  }

  /** The highest coefficients of the first factor: those of x^16 and x^15 before twelve nulls. */
  ghost function Front(): (q: Poly)
    ensures |q| == 14
  {
    [true] + [true] + Nulls(12)
  }

  lemma {:induction false} FirstTerms()
    ensures Product(Front(), Factor2()) == Powers(29, {29, 28, 15, 12})
  {
    ProductOne(Factor2());
    TimesXAnd([true], true, 16, {16, 2, 1, 0}, {17, 16, 3, 0});
    TimesXs([true] + [true], 12, 17, {17, 16, 3, 0}, {29, 28, 15, 12});
  }

  lemma {:induction false} MiddleTerms()
    requires Product(Front(), Factor2()) == Powers(29, {29, 28, 15, 12})
    ensures Product(Front() + [true], Factor2()) == Powers(30, {30, 29, 13, 2, 1, 0})
  {
    TimesXAnd(Front(), true, 29, {29, 28, 15, 12}, {30, 29, 13, 2, 1, 0});
  }

  lemma {:induction false} LastTerms()
    requires Product(Front() + [true], Factor2()) == Powers(30, {30, 29, 13, 2, 1, 0})
    ensures Product(Factor1(), Factor2()) == Powers(32, {32, 31, 16, 15, 4, 3, 1, 0})
  {
    TimesXAnd(Front() + [true], false, 30, {30, 29, 13, 2, 1, 0}, {31, 30, 14, 3, 2, 1});
    TimesXAnd(Front() + [true] + [false], true, 31, {31, 30, 14, 3, 2, 1}, {32, 31, 16, 15, 4, 3, 1, 0});
    AllTerms();
  }

  lemma {:induction false} AllTerms()
    ensures Factor1() == Front() + [true] + [false] + [true]
  {
    var p, q := Factor1(), Front() + [true] + [false] + [true];
    forall i | 0 <= i < 17
      ensures p[i] == q[i]
    {
      assert p[i] == (16 - i in {16, 15, 2, 0});
    }
  }

  /** The product of the two factors. */
  lemma {:induction false} TheProduct()
    ensures Product(Factor1(), Factor2()) == Powers(32, {32, 31, 16, 15, 4, 3, 1, 0})
  {
    FirstTerms();
    MiddleTerms();
    LastTerms();
  }

  // ---- the register's polynomial ----

  lemma {:induction false} RegJoin<T>(d: Register<T>, w: T, m: nat, n: nat)
    ensures RegBits(d, w, m + n) == RegBits(d, w, m) + RegBits(d, Down(d, w, m), n)
    decreases m
  {
    if m > 0 {
      RegJoin(d, d.half(w), m - 1, n);
      assert m + n - 1 == m - 1 + n;
    }
  }

  /** A word by its four bytes. */
  lemma {:induction false} FourBytes(w: word)
    ensures var d := TheRegister();
      RegBits(d, w, REG) == RegBits(d, w, 8) + RegBits(d, By8(w), 8) + (RegBits(d, By16(w), 8) + RegBits(d, By8(By16(w)), 8))
  {
    DownSixteen(w);
    RegJoin(TheRegister(), w, 16, 16);
    TwoBytes(w);
    TwoBytes(By16(w));
  }

  lemma {:induction false} TwoBytes(w: word)
    ensures RegBits(TheRegister(), w, 16) == RegBits(TheRegister(), w, 8) + RegBits(TheRegister(), By8(w), 8)
  {
    DownEight(w);
    RegJoin(TheRegister(), w, 8, 8);
  }

  lemma {:induction false} Nibble(w: word, v: word)
    requires v == By4(w)
    ensures RegBits(TheRegister(), w, 8) == RegBits(TheRegister(), w, 4) + RegBits(TheRegister(), v, 4)
  {
    DownFour(w);
    RegJoin(TheRegister(), w, 4, 4);
  }

  lemma {:induction false} FourBits(w: word, x: word, y: word, z: word)
    requires x == Half(w) && y == Half(x) && z == Half(y)
    ensures RegBits(TheRegister(), w, 4) == [Odd(w), Odd(x), Odd(y), Odd(z)]
  {
    var d := TheRegister();
    assert RegBits(d, z, 1) == [Odd(z)] + RegBits(d, Half(z), 0);
    assert RegBits(d, y, 2) == [Odd(y)] + RegBits(d, z, 1);
    assert RegBits(d, x, 3) == [Odd(x)] + RegBits(d, y, 2);
    assert RegBits(d, w, 4) == [Odd(w)] + RegBits(d, x, 3);
  }

  /** The last four coefficients that a word w has in it. */
  lemma {:induction false} PolyNibble(w: word, a: bool, b: bool, c: bool, e: bool)
    requires Odd(w) == a && Odd(Half(w)) == b && Odd(Half(Half(w))) == c && Odd(Half(Half(Half(w)))) == e
    ensures RegBits(TheRegister(), w, 4) == [a, b, c, e]
  {
    FourBits(w, Half(w), Half(Half(w)), Half(Half(Half(w))));
  }

  lemma {:induction false} LowHalf()
    ensures RegBits(TheRegister(), POLY, 16) == [true] + Nulls(14) + [true]
  {
    var d := TheRegister();
    PolyNibble(POLY, true, false, false, false);
    PolyNibble(0x0D80_1800, false, false, false, false);
    PolyNibble(0x00D8_0180, false, false, false, false);
    PolyNibble(0x000D_8018, false, false, false, true);
    Nibble(POLY, 0x0D80_1800);
    Nibble(0x00D8_0180, 0x000D_8018);
    DownEight(POLY);
    RegJoin(d, POLY, 8, 8);
  }

  lemma {:induction false} HighHalf()
    ensures RegBits(TheRegister(), 0xD801, 16) == [true] + Nulls(10) + [true, true, false, true, true]
  {
    var d := TheRegister();
    PolyNibble(0xD801, true, false, false, false);
    PolyNibble(0x0D80, false, false, false, false);
    PolyNibble(0x00D8, false, false, false, true);
    PolyNibble(0x000D, true, false, true, true);
    Nibble(0xD801, 0x0D80);
    Nibble(0x00D8, 0x000D);
    DownEight(0xD801);
    RegJoin(d, 0xD801, 8, 8);
  }

  const PRODUCT: set<nat> := {32, 31, 16, 15, 4, 3, 1, 0}

  lemma {:induction false} HighPowers(i: nat)
    requires i < 16
    ensures ([true] + Nulls(14) + [true])[i] == (31 - i in PRODUCT)
  {
  }

  lemma {:induction false} LowPowers(i: nat)
    requires i < 16
    ensures ([true] + Nulls(10) + [true, true, false, true, true])[i] == (15 - i in PRODUCT)
  {
  }

  /** The register divides by the product of the two factors. */
  lemma {:induction false} GeneratorIs()
    ensures Generator(TheRegister()) == Product(Factor1(), Factor2())
  {
    var d := TheRegister();
    TheProduct();
    LowHalf();
    HighHalf();
    DownSixteen(POLY);
    RegJoin(d, POLY, 16, 16);
    var g, p := Generator(d), Powers(32, PRODUCT);
    ListedPowers(RegBits(d, POLY, 16), RegBits(d, By16(POLY), 16));
    assert g == [true] + (RegBits(d, POLY, 16) + RegBits(d, By16(POLY), 16));
    assert g == p;
  }

  lemma {:induction false} ListedPowers(a: Poly, b: Poly)
    requires a == [true] + Nulls(14) + [true] && b == [true] + Nulls(10) + [true, true, false, true, true]
    ensures [true] + (a + b) == Powers(32, PRODUCT)
  {
    var g, p := [true] + (a + b), Powers(32, PRODUCT);
    forall i | 0 <= i <= 32
      ensures g[i] == p[i]
    {
      if 0 < i <= 16 {
        HighPowers(i - 1);
      } else if i > 16 {
        LowPowers(i - 17);
      }
    }
  }

  // ---- data with its code ----

  function Wide(b: octet): word {
    b as word
  }

  function Words(s: seq<octet>): (w: seq<word>)
    ensures |w| == |s| && forall i :: 0 <= i < |s| ==> w[i] == Wide(s[i])
  {
    seq(|s|, i requires 0 <= i < |s| => Wide(s[i]))
  }

  /** The bits of bytes, each from the least significant one on. */
  ghost function CodeBits(s: seq<octet>): Poly {
    DataBits(TheRegister(), Words(s), 8)
  }

  lemma {:induction false} WordsSnoc(s: seq<octet>, b: octet)
    ensures Words(s + [b])[..|s|] == Words(s) && Words(s + [b])[|s|] == Wide(b)
  {
  }

  lemma {:induction false} CodeBitsSnoc(s: seq<octet>, b: octet)
    ensures CodeBits(s + [b]) == CodeBits(s) + RegBits(TheRegister(), Wide(b), 8)
  {
    WordsSnoc(s, b);
  }

  lemma {:induction false} WorkedSnoc<T>(d: Register<T>, x: T, n: nat)
    ensures Worked(d, x, n + 1) == d.bit(Worked(d, x, n))
    decreases n
  {
    if n > 0 {
      WorkedSnoc(d, d.bit(x), n - 1);
    }
  }

  lemma {:induction false} StepsWorked(x: word, n: nat)
    ensures Steps(x, n) == Worked(TheRegister(), x, n)
  {
    if n > 0 {
      StepsWorked(x, n - 1);
      WorkedSnoc(TheRegister(), x, n - 1);
    }
  }

  /** The code as the register computes it. */
  lemma {:induction false} RegisteredIs(s: seq<octet>)
    ensures Registered(TheRegister(), Words(s), 8) == Remainder(0, s)
  {
    if s != [] {
      var k := |s| - 1;
      RegisteredIs(s[..k]);
      assert s == s[..k] + [s[k]];
      WordsSnoc(s[..k], s[k]);
      FoldSnoc(ByteStep, 0, s[..k], s[k]);
      StepsWorked(Mixed(Remainder(0, s[..k]), s[k]), 8);
    }
  }

  lemma {:induction false} OctetShort(b: octet)
    ensures By8(Wide(b)) == 0
  {
  }

  function And(x: word, y: word): word {
    x & y
  }

  lemma {:induction false} AndHolds(x: word, y: word)
    ensures Odd(And(x, y)) == (Odd(x) && Odd(y)) && Half(And(x, y)) == And(Half(x), Half(y))
  {
  }

  lemma {:induction false} Masked(w: word, m: word, n: nat)
    requires forall i :: 0 <= i < n ==> RegBits(TheRegister(), m, n)[i]
    ensures RegBits(TheRegister(), And(w, m), n) == RegBits(TheRegister(), w, n)
    decreases n
  {
    if n > 0 {
      var b := RegBits(TheRegister(), m, n);
      assert b[0] && b[1..] == RegBits(TheRegister(), Half(m), n - 1);
      AndHolds(w, m);
      Masked(Half(w), Half(m), n - 1);
    }
  }

  function Byte0(w: word): octet {
    And(w, 0xFF) as octet
  }

  lemma {:induction false} LowByte(w: word)
    ensures RegBits(TheRegister(), Wide(Byte0(w)), 8) == RegBits(TheRegister(), w, 8)
  {
    PolyNibble(0xFF, true, true, true, true);
    PolyNibble(0xF, true, true, true, true);
    Nibble(0xFF, 0xF);
    Masked(w, 0xFF, 8);
    LowPart(w);
  }

  lemma {:induction false} By24(w: word)
    ensures By8(By16(w)) == w >> 24
  {
  }

  lemma {:induction false} FourTogether(a: Poly, b: Poly, c: Poly, e: Poly)
    ensures [] + a + b + c + e == a + b + (c + e)
  {
  }

  lemma {:induction false} FourOctets(a: octet, b: octet, c: octet, e: octet, s: seq<octet>)
    requires s == [a, b, c, e]
    ensures var d := TheRegister();
      CodeBits(s) == RegBits(d, Wide(a), 8) + RegBits(d, Wide(b), 8) + (RegBits(d, Wide(c), 8) + RegBits(d, Wide(e), 8))
  {
    var d := TheRegister();
    FourTogether(RegBits(d, Wide(a), 8), RegBits(d, Wide(b), 8), RegBits(d, Wide(c), 8), RegBits(d, Wide(e), 8));
    var p: seq<octet> := [];
    CodeBitsSnoc(p, a);
    CodeBitsSnoc(p + [a], b);
    CodeBitsSnoc(p + [a] + [b], c);
    CodeBitsSnoc(p + [a] + [b] + [c], e);
    assert p + [a] + [b] + [c] + [e] == s;
    assert CodeBits(p) == [];
  }

  lemma {:induction false} StoredOctets(w: word)
    ensures PutLsb(w) == [Byte0(w), Byte0(By8(w)), Byte0(By16(w)), Byte0(By8(By16(w)))]
  {
    By24(w);
  }

  /** A stored code has the bits of its register. */
  lemma {:induction false} StoredBits(w: word)
    ensures CodeBits(PutLsb(w)) == RegBits(TheRegister(), w, REG)
  {
    FourBytes(w);
    LowByte(w);
    LowByte(By8(w));
    LowByte(By16(w));
    LowByte(By8(By16(w)));
    StoredOctets(w);
    FourOctets(Byte0(w), Byte0(By8(w)), Byte0(By16(w)), Byte0(By8(By16(w))), PutLsb(w));
  }

  lemma {:induction false} CodeBitsAppend(s: seq<octet>, t: seq<octet>)
    ensures CodeBits(s + t) == CodeBits(s) + CodeBits(t)
  {
    if t == [] {
      assert s + t == s && CodeBits(t) == [];
    } else {
      var u, b := t[..|t| - 1], t[|t| - 1];
      CodeBitsAppend(s, u);
      assert t == u + [b];
      AppendOne(s, u, b);
    }
  }

  lemma {:induction false} AppendOne(s: seq<octet>, u: seq<octet>, b: octet)
    requires CodeBits(s + u) == CodeBits(s) + CodeBits(u)
    ensures CodeBits(s + (u + [b])) == CodeBits(s) + CodeBits(u + [b])
  {
    CodeBitsSnoc(s + u, b);
    CodeBitsSnoc(u, b);
    assert s + u + [b] == s + (u + [b]);
    Together(CodeBits(s), CodeBits(u), RegBits(TheRegister(), Wide(b), 8));
  }

  lemma {:induction false} Together(a: Poly, b: Poly, c: Poly)
    ensures a + b + c == a + (b + c)
  {
  }

  /** Any data with its detection code behind it is a multiple of the product of the two factors. */
  lemma {:induction false} Codeword(s: seq<octet>) returns (q: Poly)
    ensures CodeBits(s + PutLsb(Remainder(0, s))) == Product(q, Product(Factor1(), Factor2()))
  {
    var d := TheRegister();
    LawsHold();
    forall i | 0 <= i < |s|
      ensures Down(d, Words(s)[i], 8) == 0
    {
      DownEight(Wide(s[i]));
      OctetShort(s[i]);
    }
    q := RemainderDivides(d, Words(s), 8);
    RegisteredIs(s);
    DataAndRest(CodeBits(s), Generator(d), q, RegBits(d, Remainder(0, s), REG));
    StoredBits(Remainder(0, s));
    CodeBitsAppend(s, PutLsb(Remainder(0, s)));
    GeneratorIs();
  }
}
