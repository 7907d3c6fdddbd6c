/** Bit strings, most significant bit first, and the numbers they stand for. */
module Bits {
  import opened Arith
  import opened Bytes

  type bit = x: int | 0 <= x < 2

  const OCTET: nat := 8

  /** The n low bits of v. */
  ghost function BitsOf(v: nat, n: nat): (s: seq<bit>)
    ensures |s| == n
    decreases n
  {
    if n == 0 then [] else BitsOf(v / 2, n - 1) + [v % 2]
  }

  ghost function ValueOf(s: seq<bit>): (v: nat)
    ensures v < Pow2(|s|)
  {
    if s == [] then 0 else 2 * ValueOf(s[..|s| - 1]) + s[|s| - 1]
  }

  lemma {:induction false} BitsThenValue(v: nat, n: nat)
    requires v < Pow2(n)
    ensures ValueOf(BitsOf(v, n)) == v
    decreases n
  {
    if n > 0 {
      BitsThenValue(v / 2, n - 1);
      assert BitsOf(v, n)[..n - 1] == BitsOf(v / 2, n - 1);
    }
  }

  lemma {:induction false} ValueThenBits(s: seq<bit>)
    ensures BitsOf(ValueOf(s), |s|) == s
  {
    if s != [] {
      ValueThenBits(s[..|s| - 1]);
      assert s == s[..|s| - 1] + [s[|s| - 1]];
    }
  }

  lemma {:induction false} ValueSnoc(s: seq<bit>, b: bit)
    ensures ValueOf(s + [b]) == 2 * ValueOf(s) + b
  {
    assert (s + [b])[..|s|] == s;
  }

  lemma {:induction false} ValueAppend(s: seq<bit>, t: seq<bit>)
    ensures ValueOf(s + t) == ValueOf(s) * Pow2(|t|) + ValueOf(t)
    decreases |t|
  {
    if t == [] {
      assert s + t == s;
    } else {
      var u, b := t[..|t| - 1], t[|t| - 1];
      assert t == u + [b] && s + t == (s + u) + [b];
      ValueAppend(s, u);
      ValueSnoc(s + u, b);
      ValueSnoc(u, b);
      DoubleSum(ValueOf(s), Pow2(|u|), ValueOf(u), b);
    }
  }

  lemma {:induction false} DoubleSum(a: int, p: int, b: int, c: int)
    ensures 2 * (a * p + b) + c == a * (2 * p) + (2 * b + c)
  {
  }

  /** The first k of n bits are the number shifted right by n - k. */
  lemma {:induction false} BitsPrefix(v: nat, n: nat, k: nat)
    requires k <= n
    ensures BitsOf(v, n)[..k] == BitsOf(v / Pow2(n - k), k)
    decreases n
  {
    Pow2Mono(0, n - k);
    if k == n {
      assert v / 1 == v;
    } else {
      BitsPrefix(v / 2, n - 1, k);
      assert BitsOf(v, n)[..k] == BitsOf(v / 2, n - 1)[..k];
      DivTwice(v, Pow2(n - 1 - k));
      assert Pow2(n - k) == 2 * Pow2(n - 1 - k);
    }
  }

  lemma {:induction false} DivTwice(v: nat, p: nat)
    requires p > 0
    ensures (v / 2) / p == v / (2 * p)
  {
    var q := (v / 2) / p;
    var r := (v / 2) % p;
    assert v == 2 * (v / 2) + v % 2;
    assert v / 2 == p * q + r;
    assert v == (2 * p) * q + (2 * r + v % 2) by {
      assert 2 * (p * q) == (2 * p) * q;
    }
    ModUnique(v, 2 * p, q, 2 * r + v % 2);
  }

  /** Bits of a number that splits into a high and a low part. */
  lemma {:induction false} BitsSplit(hi: nat, lo: nat, m: nat, n: nat)
    requires lo < Pow2(n)
    ensures BitsOf(hi * Pow2(n) + lo, m + n) == BitsOf(hi, m) + BitsOf(lo, n)
    decreases n
  {
    if n == 0 {
      assert BitsOf(hi, m) + [] == BitsOf(hi, m);
      assert m + n == m && hi * 1 + 0 == hi;
    } else {
      var v := hi * Pow2(n) + lo;
      assert hi * Pow2(n) == 2 * (hi * Pow2(n - 1));
      assert v / 2 == hi * Pow2(n - 1) + lo / 2 && v % 2 == lo % 2;
      BitsSplit(hi, lo / 2, m, n - 1);
      assert m + n - 1 == m + (n - 1);
      assert BitsOf(hi, m) + BitsOf(lo / 2, n - 1) + [lo % 2] == BitsOf(hi, m) + BitsOf(lo, n);
    }
  }

  /** The bits of a byte string. */
  ghost function ByteBits(s: seq<byte>): (r: seq<bit>)
    ensures |r| == 8 * |s|
  {
    if s == [] then [] else ByteBits(s[..|s| - 1]) + BitsOf(s[|s| - 1], OCTET)
  }

  lemma {:induction false} ByteBitsSnoc(s: seq<byte>, b: byte)
    ensures ByteBits(s + [b]) == ByteBits(s) + BitsOf(b, OCTET)
  {
    assert (s + [b])[..|s|] == s;
  }

  lemma {:induction false} ByteBitsCons(s: seq<byte>)
    requires s != []
    ensures ByteBits(s) == BitsOf(s[0], OCTET) + ByteBits(s[1..])
  {
    assert s == [s[0]] + s[1..] && [s[0]] == [] + [s[0]];
    ByteBitsAppend([s[0]], s[1..]);
    ByteBitsSnoc([], s[0]);
    assert [] + BitsOf(s[0], OCTET) == BitsOf(s[0], OCTET);
  }

  lemma {:induction false} ByteBitsAppend(s: seq<byte>, t: seq<byte>)
    ensures ByteBits(s + t) == ByteBits(s) + ByteBits(t)
    decreases |t|
  {
    if t == [] {
      assert s + t == s;
      assert ByteBits(s) + [] == ByteBits(s);
    } else {
      var u, b := t[..|t| - 1], t[|t| - 1];
      assert t == u + [b] && s + t == (s + u) + [b];
      ByteBitsAppend(s, u);
      ByteBitsSnoc(s + u, b);
      ByteBitsSnoc(u, b);
      Assoc(ByteBits(s), ByteBits(u), BitsOf(b, OCTET));
    }
  }

  lemma {:induction false} HeadTail<T>(s: seq<T>)
    requires s != []
    ensures [s[0]] + s[1..] == s
  {
  }

  lemma {:induction false} Assoc<T>(a: seq<T>, b: seq<T>, c: seq<T>)
    ensures a + b + c == a + (b + c)
  {
  }
}
