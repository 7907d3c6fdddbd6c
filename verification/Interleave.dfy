/** Which bytes the parity vectors cover, as Annex A of ECMA-130 says it: by 16-bit words, without walking. */
module Interleave {
  import opened Arith
  import opened ProductCode
  import opened SectorParity

  /** P vector m: every 86th byte. */
  lemma {:induction false} PIndex(m: nat, k: nat)
    requires CodeOk(P_CODE) && m < 86 && k < 24
    ensures Index(P_CODE, m, k) == 2 * (43 * k + m / 2) + m % 2 == m + 86 * k
    decreases k
  {
    if k == 0 {
      TimesIs(m / 2, P_CODE.mult);
    } else {
      PIndex(m, k - 1);
    }
  }

  /** Q vector m: a diagonal, 44 words on each time. */
  lemma {:induction false} QIndex(m: nat, k: nat)
    requires CodeOk(Q_CODE) && m < 52 && k < 43
    ensures Index(Q_CODE, m, k) == 2 * ((44 * k + 43 * (m / 2)) % 1118) + m % 2
    decreases k
  {
    if k == 0 {
      TimesIs(m / 2, Q_CODE.mult);
    } else {
      QIndex(m, k - 1);
      NextWord(44 * (k - 1) + 43 * (m / 2));
    }
  }

  lemma {:induction false} NextWord(n: nat)
    ensures var w := n % 1118; (n + 44) % 1118 == if w + 44 >= 1118 then w + 44 - 1118 else w + 44
  {
  }

  /** A place on a vector. */
  datatype Place = Place(vector: nat, element: nat)

  function PPlace(i: nat): Place {
    Place(i % 86, i / 86)
  }

  function QPlace(i: nat): Place {
    var w := i / 2;
    Place(2 * ((w / 43 - w % 43 + 52) % 26) + i % 2, w % 43)
  }

  /** Every byte before the P parity is on exactly one P vector, once. */
  lemma {:induction false} PPartition(i: nat, m: nat, k: nat)
    requires CodeOk(P_CODE) && i < 2064 && m < 86 && k < 24
    ensures PPlace(i).vector < 86 && PPlace(i).element < 24
    ensures Index(P_CODE, m, k) == i <==> Place(m, k) == PPlace(i)
  {
    PIndex(m, k);
    Columns(i, m, k);
  }

  lemma {:induction false} Columns(i: nat, m: nat, k: nat)
    requires i < 2064 && m < 86 && k < 24
    ensures i % 86 < 86 && i / 86 < 24
    ensures m + 86 * k == i <==> m == i % 86 && k == i / 86
  {
    if m + 86 * k == i {
      ModUnique(i, 86, k, m);
    }
  }

  /** Every byte before the Q parity, the P parity included, is on exactly one Q vector, once. */
  lemma {:induction false} QPartition(i: nat, m: nat, k: nat)
    requires CodeOk(Q_CODE) && i < 2236 && m < 52 && k < 43
    ensures QPlace(i).vector < 52 && QPlace(i).element < 43
    ensures Index(Q_CODE, m, k) == i <==> Place(m, k) == QPlace(i)
  {
    QIndex(m, k);
    Diagonal(i / 2, m / 2, k);
  }

  /** Words by diagonals: k is what is left modulo 43, then a what is left modulo 26. */
  lemma {:induction false} Diagonal(w: nat, a: nat, k: nat)
    requires w < 1118 && a < 26 && k < 43
    ensures (44 * k + 43 * a) % 1118 == w <==> k == w % 43 && a == (w / 43 - w % 43 + 52) % 26
  {
    var n := 44 * k + 43 * a;
    var q, r := n / 1118, n % 1118;
    assert n == 1118 * q + r && 0 <= r < 1118;
    assert n == 43 * (k + a) + k;
    assert r == 43 * (k + a - 26 * q) + k;
    assert r / 43 == k + a - 26 * q && r % 43 == k;
    assert (r / 43 - r % 43 + 52) % 26 == (a - 26 * q + 52) % 26;
    assert (a - 26 * q + 52) % 26 == a;
  }
}
