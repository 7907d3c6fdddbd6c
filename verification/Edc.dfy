/** The error detection code: a 32-bit remainder, bit by bit and by table. */
module Edc {
  import opened Closing
  import opened Folds
  import opened Galois

  type word = bv32

  /** One bit of the division. */
  function Bit(x: word): word {
    (x >> 1) ^ (if x & 1 != 0 then 0xD8018001 else 0)
  }

  const BITS: nat := 8

  function Steps(x: word, n: nat): word {
    if n == 0 then x else Bit(Steps(x, n - 1))
  }

  /** Eight bits of it. */
  function Byte(x: word): word {
    Steps(x, BITS)
  }

  function Mixed(edc: word, b: octet): word {
    edc ^ (b as word)
  }

  function High(x: word): word {
    x >> 8
  }

  function Low(x: word): word {
    x & 0xFF
  }

  function ByteStep(edc: word, b: octet): word {
    Byte(Mixed(edc, b))
  }

  /** The remainder after the bytes of s, begun at edc. */
  ghost function Remainder(edc: word, s: seq<octet>): word {
    Fold(ByteStep, edc, s)
  }

  /** However a message is split, the remainder is the same. */
  lemma {:induction false} RemainderAppend(edc: word, s: seq<octet>, t: seq<octet>)
    ensures Remainder(edc, s + t) == Remainder(Remainder(edc, s), t)
  {
    FoldAppend(ByteStep, edc, s, t);
  }

  // ---- the table ----

  /** The entries of t up to n are those of f. */
  ghost predicate Lists(t: seq<word>, f: octet -> word, n: int) {
    |t| == 256 && forall x: octet {:trigger f(x)} :: x as int < n ==> t[x as int] == f(x)
  }

  function ByteOf(x: octet): word {
    Byte(x as word)
  }

  ghost predicate EdcTable(t: seq<word>) {
    Lists(t, ByteOf, 256)
  }

  lemma {:induction false} ListOne(t: seq<word>, f: octet -> word, v: octet)
    requires Lists(t, f, v as int)
    ensures Lists(t[v as int := f(v)], f, v as int + 1)
  {
    var t' := t[v as int := f(v)];
    forall x: octet {:trigger f(x)} | x as int < v as int + 1
      ensures t'[x as int] == f(x)
    {
      if x as int == v as int {
        SameOctet(x, v);
      }
    }
  }

  /** eccedc_init, the part for the detection code. */
  method InitEdc() returns (t: seq<word>)
    ensures EdcTable(t)
  {
    t := seq(256, _ => 0);
    var i: nat, v: octet := 0, 0;
    while i < 256
      invariant 0 <= i <= 256 && Lists(t, ByteOf, i) && (i < 256 ==> v as int == i)
    {
      var edc := EightBits(v as word);
      ListOne(t, ByteOf, v);
      t := t[i := edc];
      if i < 255 {
        NextOctet(v);
      }
      i, v := i + 1, v + 1;
    }
  }

  method EightBits(x: word) returns (edc: word)
    ensures edc == Byte(x)
  {
    edc := x;
    var j := 0;
    while j < BITS
      invariant 0 <= j <= BITS && Steps(x, j) == edc
    {
      edc := (edc >> 1) ^ (if edc & 1 != 0 then 0xD8018001 else 0);
      j := j + 1;
    }
  }

  lemma {:induction false} EvenEven(x: word, y: word)
    requires x & 1 == 0 && y & 1 == 0
    ensures Bit(x ^ y) == Bit(x) ^ Bit(y)
  {
  }

  lemma {:induction false} EvenOdd(x: word, y: word)
    requires x & 1 == 0 && y & 1 != 0
    ensures Bit(x ^ y) == Bit(x) ^ Bit(y)
  {
  }

  lemma {:induction false} OddEven(x: word, y: word)
    requires x & 1 != 0 && y & 1 == 0
    ensures Bit(x ^ y) == Bit(x) ^ Bit(y)
  {
  }

  lemma {:induction false} OddOdd(x: word, y: word)
    requires x & 1 != 0 && y & 1 != 0
    ensures Bit(x ^ y) == Bit(x) ^ Bit(y)
  {
  }

  /** One bit of the division is linear. */
  lemma {:induction false} BitSum(x: word, y: word)
    ensures Bit(x ^ y) == Bit(x) ^ Bit(y)
  {
    if x & 1 == 0 && y & 1 == 0 {
      EvenEven(x, y);
    } else if x & 1 == 0 {
      EvenOdd(x, y);
    } else if y & 1 == 0 {
      OddEven(x, y);
    } else {
      OddOdd(x, y);
    }
  }

  /** x is the sum of y and l; closed, so that sums of different things do not meet in one proof. */
  ghost predicate IsSum(x: word, y: word, l: word) {
    forall u {:trigger Look(u)} :: Look(u) ==> x == y ^ l
  }

  lemma {:induction false} OpenSum(x: word, y: word, l: word)
    requires IsSum(x, y, l)
    ensures x == y ^ l
  {
    assert Look(0);
  }

  lemma {:induction false} BitOfSum(x: word, y: word, z: word)
    requires IsSum(z, x, y)
    ensures IsSum(Bit(z), Bit(x), Bit(y))
  {
    OpenSum(z, x, y);
    BitSum(x, y);
  }

  /** So are any number of them. */
  lemma {:induction false} StepsSum(x: word, y: word, z: word, n: nat)
    requires IsSum(z, x, y)
    ensures IsSum(Steps(z, n), Steps(x, n), Steps(y, n))
  {
    if n > 0 {
      StepsSum(x, y, z, n - 1);
      BitOfSum(Steps(x, n - 1), Steps(y, n - 1), Steps(z, n - 1));
    }
  }

  /** A zero bit is only shifted out. */
  lemma {:induction false} BitDown(x: word)
    requires x & 1 == 0
    ensures Bit(x) == x >> 1
  {
  }

  lemma {:induction false} DownTwo(x: word)
    requires x & 3 == 0
    ensures Bit(Bit(x)) == x >> 2
  {
    assert x & 1 == 0 && (x >> 1) & 1 == 0;
    BitDown(x);
    BitDown(x >> 1);
    assert (x >> 1) >> 1 == x >> 2;
  }

  lemma {:induction false} DownFour(x: word)
    requires x & 15 == 0
    ensures Steps(x, 4) == x >> 4
  {
    assert x & 3 == 0 && (x >> 2) & 3 == 0;
    DownTwo(x);
    DownTwo(x >> 2);
    assert (x >> 2) >> 2 == x >> 4;
    StepsTwo(x, 0);
    StepsTwo(x, 2);
  }

  lemma {:induction false} StepsTwo(x: word, n: nat)
    ensures Steps(x, n + 2) == Bit(Bit(Steps(x, n)))
  {
    assert Steps(x, n + 1) == Bit(Steps(x, n));
  }

  lemma {:induction false} StepsJoin(x: word, m: nat, n: nat)
    ensures Steps(x, m + n) == Steps(Steps(x, m), n)
    decreases n
  {
    if n > 0 {
      StepsJoin(x, m, n - 1);
      assert m + n - 1 == m + (n - 1);
    }
  }

  /** Eight zero bits, likewise. */
  lemma {:induction false} DownEight(x: word)
    requires x & 0xFF == 0
    ensures Byte(x) == x >> 8
  {
    assert x & 15 == 0 && (x >> 4) & 15 == 0;
    DownFour(x);
    DownFour(x >> 4);
    assert (x >> 4) >> 4 == x >> 8;
    StepsJoin(x, 4, 4);
  }

  lemma {:induction false} ByteSum(y: word, l: word, x: word)
    requires IsSum(x, y, l)
    ensures Byte(x) == Byte(y) ^ Byte(l)
  {
    StepsSum(y, l, x, BITS);
    OpenSum(Byte(x), Byte(y), Byte(l));
  }

  lemma {:induction false} ByteOfSum(y: word, l: word, x: word, h: word)
    requires IsSum(x, y, l) && Byte(y) == h
    ensures Byte(x) == h ^ Byte(l)
  {
    ByteSum(y, l, x);
  }

  lemma {:induction false} HighAndLow(x: word)
    ensures IsSum(x, x & 0xFFFF_FF00, Low(x))
  {
  }

  lemma {:induction false} LowCleared(x: word)
    ensures (x & 0xFFFF_FF00) & 0xFF == 0
  {
  }

  lemma {:induction false} HighKept(x: word)
    ensures (x & 0xFFFF_FF00) >> 8 == High(x)
  {
  }

  lemma {:induction false} HighByte(x: word)
    ensures Byte(x & 0xFFFF_FF00) == High(x)
  {
    LowCleared(x);
    HighKept(x);
    DownEight(x & 0xFFFF_FF00);
  }

  /** The division is linear: the high bytes shift down, the low byte is looked up. */
  lemma {:induction false} ByteSplits(x: word)
    ensures Byte(x) == High(x) ^ Byte(Low(x))
  {
    HighAndLow(x);
    HighByte(x);
    ByteOfSum(x & 0xFFFF_FF00, Low(x), x, High(x));
  }

  lemma {:induction false} HighPart(edc: word, b: octet)
    ensures High(Mixed(edc, b)) == High(edc)
  {
  }

  lemma {:induction false} LowPart(x: word)
    ensures (Low(x) as octet) as word == Low(x)
  {
  }

  /** edc_compute: by table, and still the remainder bit by bit. */
  method Compute(t: seq<word>, start: word, src: seq<octet>) returns (edc: word)
    requires EdcTable(t)
    ensures edc == Remainder(start, src)
  {
    edc := start;
    var i := 0;
    assert src[..0] == [];
    while i < |src|
      invariant 0 <= i <= |src| && edc == Fold(ByteStep, start, src[..i])
    {
      assert src[..i + 1] == src[..i] + [src[i]];
      FoldSnoc(ByteStep, start, src[..i], src[i]);
      edc := ComputeOne(t, edc, src[i]);
      i := i + 1;
    }
    assert src[..|src|] == src;
  }

  method ComputeOne(t: seq<word>, edc: word, b: octet) returns (r: word)
    requires EdcTable(t)
    ensures r == ByteStep(edc, b)
  {
    LowPart(Mixed(edc, b));
    var k: octet := Low(Mixed(edc, b)) as octet;
    EntryOf(t, k);
    Combined(edc, b, k, t[k as int]);
    r := High(edc) ^ t[k as int];
  }

  lemma {:induction false} Combined(edc: word, b: octet, k: octet, m: word)
    requires k as word == Low(Mixed(edc, b)) && m == ByteOf(k)
    ensures High(edc) ^ m == ByteStep(edc, b)
  {
    ByteSplits(Mixed(edc, b));
    HighPart(edc, b);
  }

  lemma {:induction false} EntryOf(t: seq<word>, k: octet)
    requires EdcTable(t)
    ensures t[k as int] == ByteOf(k)
  {
    var f := ByteOf;
    assert f(k) == ByteOf(k);
  }

  // ---- words as four bytes, least significant first ----

  function PutLsb(w: word): (s: seq<octet>)
    ensures |s| == 4
  {
    [(w & 0xFF) as octet, ((w >> 8) & 0xFF) as octet, ((w >> 16) & 0xFF) as octet, ((w >> 24) & 0xFF) as octet]
  }

  function GetLsb(s: seq<octet>): word
    requires |s| == 4
  {
    (s[0] as word) | ((s[1] as word) << 8) | ((s[2] as word) << 16) | ((s[3] as word) << 24)
  }

  lemma {:induction false} JoinedParts(a: octet, b: octet, c: octet, d: octet)
    ensures var w := (a as word) | ((b as word) << 8) | ((c as word) << 16) | ((d as word) << 24);
      && (w & 0xFF) as octet == a && ((w >> 8) & 0xFF) as octet == b
      && ((w >> 16) & 0xFF) as octet == c && ((w >> 24) & 0xFF) as octet == d
  {
  }

  lemma {:induction false} GetThenPut(s: seq<octet>)
    requires |s| == 4
    ensures PutLsb(GetLsb(s)) == s
  {
    JoinedParts(s[0], s[1], s[2], s[3]);
  }

  lemma {:induction false} PutThenGet(w: word)
    ensures GetLsb(PutLsb(w)) == w
  {
  }
}
