/** The field of 256 elements that sector parity is computed in (modulo x^8 + x^4 + x^3 + x^2 + 1). */
module Galois {
  import opened Closing
  import opened Folds

  type octet = bv8

  /** Multiplication by two: a shift, and the modulus added if a bit fell out. */
  function Twice(x: octet): octet {
    (x << 1) ^ (if x & 0x80 != 0 then 0x1D else 0)
  }

  /** The element that three times gives v: v times 0xF4. */
  function Third(v: octet): octet {
    var v2 := Twice(Twice(v));
    var v4 := Twice(Twice(v2));
    var v5 := Twice(v4);
    var v6 := Twice(v5);
    v2 ^ v4 ^ v5 ^ v6 ^ Twice(v6)
  }

  lemma {:induction false} ThirdThenThrice(v: octet)
    ensures Third(v) ^ Twice(Third(v)) == v
  {
  }

  lemma {:induction false} ThriceThenThird(v: octet)
    ensures Third(v ^ Twice(v)) == v
  {
  }

  /** Twice without a condition: the top bit goes where the modulus has its bits. */
  function Shifted(x: octet): octet {
    (x << 1) ^ (x >> 7) ^ ((x >> 7) << 2) ^ ((x >> 7) << 3) ^ ((x >> 7) << 4)
  }

  lemma {:induction false} TwiceIsShifted(x: octet)
    ensures Twice(x) == Shifted(x)
  {
  }

  lemma {:induction false} ShiftedSum(x: octet, y: octet)
    ensures Shifted(x ^ y) == Shifted(x) ^ Shifted(y)
  {
  }

  /** Twice a sum is the sum of the doubles. */
  lemma {:induction false} TwiceSum(x: octet, y: octet)
    ensures Twice(x ^ y) == Twice(x) ^ Twice(y)
  {
    TwiceIsShifted(x);
    TwiceIsShifted(y);
    TwiceIsShifted(x ^ y);
    ShiftedSum(x, y);
  }

  lemma {:induction false} TwiceZero(x: octet)
    ensures Twice(x) == 0 <==> x == 0
  {
  }

  // ---- vectors and their two parity bytes ----

  /** The sum of a vector, and its polynomial at two, times two. */
  datatype Sums = Sums(value: octet, sum: octet)

  function ValueStep(value: octet, t: octet): octet {
    Twice(value ^ t)
  }

  function Plus(sum: octet, t: octet): octet {
    sum ^ t
  }

  function SumStep(s: Sums, t: octet): Sums {
    Sums(ValueStep(s.value, t), Plus(s.sum, t))
  }

  ghost function SumsOf(d: seq<octet>): Sums {
    Fold(SumStep, Sums(0, 0), d)
  }

  /** The parity bytes of a vector with value a and sum b. */
  ghost predicate Parity(a: octet, b: octet, p: octet, q: octet) {
    p == Third(Plus(Twice(a), b)) && q == Plus(p, b)
  }

  /** Both check equations hold: followed by p and q, the vector has sum zero and value zero at two. */
  ghost predicate Codeword(a: octet, b: octet, p: octet, q: octet) {
    Plus(Plus(b, p), q) == 0 && ValueStep(ValueStep(a, p), q) == 0
  }

  /** The sums of the vector with its parity bytes. */
  lemma {:induction false} WholeVector(d: seq<octet>, p: octet, q: octet)
    ensures SumsOf(d + [p] + [q]) == SumStep(SumStep(SumsOf(d), p), q)
  {
    FoldSnoc(SumStep, Sums(0, 0), d, p);
    FoldSnoc(SumStep, Sums(0, 0), d + [p], q);
  }

  /** z is the sum of x and y; closed, so that sums of different things do not meet in one proof. */
  ghost predicate Adds(z: octet, x: octet, y: octet) {
    forall u {:trigger Look(u)} :: Look(u) ==> z == x ^ y
  }

  lemma {:induction false} PlusAdds(x: octet, y: octet)
    ensures Adds(Plus(x, y), x, y)
  {
  }

  lemma {:induction false} PlusCommutes(x: octet, y: octet)
    ensures Plus(x, y) == Plus(y, x)
  {
  }

  lemma {:induction false} XorZero(x: octet, y: octet)
    ensures x ^ y == 0 <==> x == y
  {
  }

  lemma {:induction false} Swapped(ta: octet, tp: octet, b: octet, p: octet)
    ensures ta ^ tp == b ^ p <==> ta ^ b == p ^ tp
  {
  }

  /** Four summands of two equal sums can change sides. */
  lemma {:induction false} Exchange(ta: octet, tp: octet, b: octet, p: octet, v: octet, w: octet, x: octet)
    requires Adds(v, ta, tp) && Adds(w, b, p) && Adds(x, ta, b)
    ensures v == w <==> Adds(x, p, tp)
  {
    assert Look(0);
    Swapped(ta, tp, b, p);
  }

  lemma {:induction false} ValueZero(v: octet, q: octet)
    ensures ValueStep(v, q) == 0 <==> v == q
  {
    TwiceZero(v ^ q);
    XorZero(v, q);
  }

  lemma {:induction false} SumZero(w: octet, q: octet)
    ensures Plus(w, q) == 0 <==> w == q
  {
    XorZero(w, q);
  }

  lemma {:induction false} ValueAdds(a: octet, p: octet)
    ensures Adds(ValueStep(a, p), Twice(a), Twice(p))
  {
    TwiceSum(a, p);
  }

  lemma {:induction false} ThirdAdds(p: octet, x: octet)
    ensures Adds(x, p, Twice(p)) <==> p == Third(x)
  {
    AddsIs(x, p, Twice(p));
    Thrice(p, x);
  }

  lemma {:induction false} AddsIs(z: octet, x: octet, y: octet)
    ensures Adds(z, x, y) <==> x ^ y == z
  {
    assert Look(0);
  }

  lemma {:induction false} ValueIs(value: octet, t: octet)
    ensures ValueStep(value, t) == Twice(Plus(value, t))
  {
  }

  /** What the first byte makes of value and sum are the same exactly for the byte that the encoder writes. */
  lemma {:induction false} FirstByte(a: octet, b: octet, p: octet)
    ensures ValueStep(a, p) == Plus(b, p) <==> p == Third(Plus(Twice(a), b))
  {
    ValueAdds(a, p);
    PlusAdds(b, p);
    PlusAdds(Twice(a), b);
    Exchange(Twice(a), Twice(p), b, p, ValueStep(a, p), Plus(b, p), Plus(Twice(a), b));
    ThirdAdds(p, Plus(Twice(a), b));
  }

  /** The parity bytes are the only two that make a codeword. */
  lemma {:induction false} ParityUnique(a: octet, b: octet, p: octet, q: octet)
    ensures Codeword(a, b, p, q) <==> Parity(a, b, p, q)
  {
    ValueZero(ValueStep(a, p), q);
    SumZero(Plus(b, p), q);
    FirstByte(a, b, p);
    PlusCommutes(b, p);
  }

  /** p and q are the parity bytes of the vector d. */
  ghost predicate VectorParity(d: seq<octet>, p: octet, q: octet) {
    Parity(SumsOf(d).value, SumsOf(d).sum, p, q)
  }

  /** The whole vector, parity bytes included, has sum zero and value zero at two. */
  ghost predicate VectorCodeword(d: seq<octet>, p: octet, q: octet) {
    SumsOf(d + [p] + [q]) == Sums(0, 0)
  }

  lemma {:induction false} ZeroIsCodeword(s: Sums, p: octet, q: octet)
    ensures SumStep(SumStep(s, p), q) == Sums(0, 0) <==> Codeword(s.value, s.sum, p, q)
  {
  }

  lemma {:induction false} VectorParityUnique(d: seq<octet>, p: octet, q: octet)
    ensures VectorCodeword(d, p, q) <==> VectorParity(d, p, q)
  {
    WholeVector(d, p, q);
    ZeroIsCodeword(SumsOf(d), p, q);
    ParityUnique(SumsOf(d).value, SumsOf(d).sum, p, q);
  }

  /** Three times p is v just when p is a third of v. */
  lemma {:induction false} Thrice(p: octet, v: octet)
    ensures p ^ Twice(p) == v <==> p == Third(v)
  {
    ThirdThenThrice(v);
    ThriceThenThird(p);
  }

  // ---- octets and numbers ----

  lemma {:induction false} NextOctet(v: octet)
    requires v as int < 255
    ensures (v + 1) as int == v as int + 1
  {
    assert v != 0xFF;
  }

  lemma {:induction false} OctetBack(v: octet)
    ensures (v as int) as octet == v
  {
  }

  /** Every number below 256 is that of an octet. */
  lemma {:induction false} OctetOf(i: nat) returns (v: octet)
    requires i < 256
    ensures v as int == i && i as octet == v
  {
    v := 0;
    var k := 0;
    while k < i
      invariant 0 <= k <= i && v as int == k
    {
      NextOctet(v);
      v, k := v + 1, k + 1;
    }
    OctetBack(v);
  }

  lemma {:induction false} SameOctet(x: octet, y: octet)
    requires x as int == y as int
    ensures x == y
  {
    OctetBack(x);
    OctetBack(y);
  }

  // ---- the lookup tables ----

  /** ecc_f_lut doubles; ecc_b_lut divides by three. */
  ghost predicate Tables(f: seq<octet>, b: seq<octet>) {
    && |f| == |b| == 256
    && (forall x: octet {:trigger Twice(x)} :: f[x as int] == Twice(x))
    && (forall x: octet {:trigger Third(x)} :: b[x as int] == Third(x))
  }

  /** The entries for x are right. */
  ghost predicate Entered(f: seq<octet>, b: seq<octet>, x: octet) {
    |f| == |b| == 256 && f[x as int] == Twice(x) && b[(x ^ Twice(x)) as int] == x
  }

  ghost predicate Filled(f: seq<octet>, b: seq<octet>, n: int) {
    |f| == |b| == 256 && forall x: octet {:trigger Entered(f, b, x)} :: x as int < n ==> Entered(f, b, x)
  }

  lemma {:induction false} FillOne(f: seq<octet>, b: seq<octet>, v: octet)
    requires Filled(f, b, v as int)
    ensures Filled(f[v as int := Twice(v)], b[(v ^ Twice(v)) as int := v], v as int + 1)
  {
    var f', b' := f[v as int := Twice(v)], b[(v ^ Twice(v)) as int := v];
    forall x: octet | x as int < v as int + 1
      ensures Entered(f', b', x)
    {
      if x as int == v as int {
        SameOctet(x, v);
      } else {
        assert Entered(f, b, x);
        OtherThrice(x, v);
      }
    }
  }

  /** Three times another octet is another octet. */
  lemma {:induction false} OtherThrice(x: octet, v: octet)
    requires x as int != v as int
    ensures (x ^ Twice(x)) as int != (v ^ Twice(v)) as int
  {
    if (x ^ Twice(x)) as int == (v ^ Twice(v)) as int {
      SameThrice(x, v);
    }
  }

  lemma {:induction false} SameThrice(x: octet, y: octet)
    requires (x ^ Twice(x)) as int == (y ^ Twice(y)) as int
    ensures x == y
  {
    SameOctet(x ^ Twice(x), y ^ Twice(y));
    ThriceThenThird(x);
    ThriceThenThird(y);
  }

  lemma {:induction false} FilledAll(f: seq<octet>, b: seq<octet>)
    requires Filled(f, b, 256)
    ensures Tables(f, b)
  {
    forall x: octet
      ensures b[x as int] == Third(x)
    {
      ThirdThenThrice(x);
      assert Entered(f, b, Third(x));
    }
    forall x: octet
      ensures f[x as int] == Twice(x)
    {
      assert Entered(f, b, x);
    }
  }

  /** eccedc_init, the part for parity. */
  method InitEcc() returns (f: seq<octet>, b: seq<octet>)
    ensures Tables(f, b)
  {
    f, b := seq(256, _ => 0), seq(256, _ => 0);
    var i: nat, v: octet := 0, 0;
    while i < 256
      invariant 0 <= i <= 256 && Filled(f, b, i) && (i < 256 ==> v as int == i)
    {
      FillOne(f, b, v);
      var j := Twice(v);
      f := f[i := j];
      b := b[(v ^ j) as int := v];
      if i < 255 {
        NextOctet(v);
      }
      i, v := i + 1, v + 1;
    }
    FilledAll(f, b);
  }
}
