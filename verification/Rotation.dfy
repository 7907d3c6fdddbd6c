/** The cyclic order of the rotations of a block, the order that the block sorter promises. */
module Rotation {
  import opened Arith
  import opened Bytes
  import opened Permutations

  ghost function At(b: seq<byte>, i: int): byte
    requires |b| > 0
  {
    b[i % |b|]
  }

  /** Compare h bytes of the rotations starting at x and y: negative, zero or positive. */
  ghost function Cmp(b: seq<byte>, x: int, y: int, h: nat): int
    requires |b| > 0
    decreases h
  {
    if h == 0 then 0
    else if At(b, x) != At(b, y) then At(b, x) - At(b, y)
    else Cmp(b, x + 1, y + 1, h - 1)
  }

  ghost predicate RotSorted(b: seq<byte>, p: seq<int>)
    requires |b| > 0
  {
    forall i, j :: 0 <= i < j < |p| ==> Cmp(b, p[i], p[j], |b|) <= 0
  }

  lemma {:induction false} AtWrap(b: seq<byte>, i: int)
    requires |b| > 0
    ensures At(b, i + |b|) == At(b, i)
  {
    ModWrap(i, |b|);
  }

  lemma {:induction false} CmpWrap(b: seq<byte>, x: int, y: int, h: nat)
    requires |b| > 0
    ensures Cmp(b, x + |b|, y, h) == Cmp(b, x, y, h)
    ensures Cmp(b, x, y + |b|, h) == Cmp(b, x, y, h)
    decreases h
  {
    AtWrap(b, x);
    AtWrap(b, y);
    if h > 0 {
      CmpWrap(b, x + 1, y + 1, h - 1);
      assert x + 1 + |b| == x + |b| + 1 && y + 1 + |b| == y + |b| + 1;
    }
  }

  lemma {:induction false} CmpAntisym(b: seq<byte>, x: int, y: int, h: nat)
    requires |b| > 0
    ensures Cmp(b, y, x, h) == -Cmp(b, x, y, h)
    decreases h
  {
    if h > 0 {
      CmpAntisym(b, x + 1, y + 1, h - 1);
    }
  }

  lemma {:induction false} CmpTrans(b: seq<byte>, x: int, y: int, z: int, h: nat)
    requires |b| > 0
    requires Cmp(b, x, y, h) <= 0 && Cmp(b, y, z, h) <= 0
    ensures Cmp(b, x, z, h) <= 0
    ensures Cmp(b, x, z, h) == 0 <==> Cmp(b, x, y, h) == 0 && Cmp(b, y, z, h) == 0
    decreases h
  {
    if h > 0 && At(b, x) == At(b, y) == At(b, z) {
      CmpTrans(b, x + 1, y + 1, z + 1, h - 1);
    }
  }

  /** Comparing g + h bytes is comparing g bytes and, on a tie, the next h. */
  lemma {:induction false} CmpSplit(b: seq<byte>, x: int, y: int, g: nat, h: nat)
    requires |b| > 0
    ensures Cmp(b, x, y, g + h) == if Cmp(b, x, y, g) != 0 then Cmp(b, x, y, g) else Cmp(b, x + g, y + g, h)
    decreases g
  {
    if g > 0 {
      CmpSplit(b, x + 1, y + 1, g - 1, h);
      assert x + 1 + (g - 1) == x + g && y + 1 + (g - 1) == y + g;
    }
  }

  lemma {:induction false} CmpZeroAt(b: seq<byte>, x: int, y: int, h: nat, k: nat)
    requires |b| > 0
    requires Cmp(b, x, y, h) == 0
    requires k < h
    ensures At(b, x + k) == At(b, y + k)
  {
    CmpSplit(b, x, y, k, h - k);
  }

  /** Rotations that agree on the whole block agree for ever. */
  lemma {:induction false} CmpTie(b: seq<byte>, x: int, y: int, h: nat)
    requires |b| > 0
    requires Cmp(b, x, y, |b|) == 0
    ensures Cmp(b, x, y, h) == 0
    decreases h
  {
    if h <= |b| {
      CmpSplit(b, x, y, h, |b| - h);
    } else {
      CmpTie(b, x, y, h - |b|);
      CmpSplit(b, x, y, |b|, h - |b|);
      CmpWrap(b, x, y, h - |b|);
      CmpWrap(b, x + |b|, y, h - |b|);
    }
  }

  /** A comparison of at least the block length settles the order of the rotations. */
  lemma {:induction false} CmpLong(b: seq<byte>, x: int, y: int, h: nat)
    requires |b| > 0
    requires h >= |b|
    ensures Cmp(b, x, y, h) == Cmp(b, x, y, |b|)
  {
    CmpSplit(b, x, y, |b|, h - |b|);
    if Cmp(b, x, y, |b|) == 0 {
      CmpTie(b, x, y, h);
    }
  }

  /** A comparison that fewer bytes settle is the comparison of the rotations. */
  lemma {:induction false} CmpShort(b: seq<byte>, x: int, y: int, h: nat)
    requires |b| > 0
    requires Cmp(b, x, y, h) != 0
    ensures Cmp(b, x, y, |b|) == Cmp(b, x, y, h)
  {
    if h <= |b| {
      CmpSplit(b, x, y, h, |b| - h);
    } else {
      CmpLong(b, x, y, h);
    }
  }

  /**
   * Two orders of the same rotations, both sorted, hold equal rotations at every place; which of
   * several equal rotations stands there is free.
   */
  lemma {:induction false} SortedOrdersAgree(b: seq<byte>, p: seq<int>, q: seq<int>, k: nat)
    requires |b| > 0
    requires IsPerm(p, |b|) && RotSorted(b, p)
    requires IsPerm(q, |b|) && RotSorted(b, q)
    requires k < |b|
    ensures Cmp(b, p[k], q[k], |b|) == 0
  {
    NotBelow(b, p, q, k);
    NotBelow(b, q, p, k);
    CmpAntisym(b, p[k], q[k], |b|);
  }

  /** p[k] below q[k] would put k + 1 rotations of p below q[k], but q has only k places for them. */
  lemma {:induction false} NotBelow(b: seq<byte>, p: seq<int>, q: seq<int>, k: nat)
    requires |b| > 0
    requires IsPerm(p, |b|) && RotSorted(b, p)
    requires IsPerm(q, |b|) && RotSorted(b, q)
    requires k < |b|
    ensures Cmp(b, p[k], q[k], |b|) >= 0
  {
    var i, j := PrefixEscapes(p, q, |b|, k);
    CmpRefl(b, p[i], |b|);
    // q[k] <= q[j] == p[i] <= p[k]
    CmpTrans(b, q[k], p[i], p[k], |b|);
    CmpAntisym(b, p[k], q[k], |b|);
  }

  lemma {:induction false} CmpRefl(b: seq<byte>, x: int, h: nat)
    requires |b| > 0
    ensures Cmp(b, x, x, h) == 0
    decreases h
  {
    if h > 0 {
      CmpRefl(b, x + 1, h - 1);
    }
  }
}
