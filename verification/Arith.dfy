/** The few facts about products, remainders and powers of two that the solver does not find by itself. */
module Arith {

  lemma {:induction false} MulMono(a: int, b: int, c: int)
    requires a <= b && 0 <= c
    ensures a * c <= b * c
  {
  }

  lemma {:induction false} ModUnique(a: int, n: int, q: int, r: int)
    requires n > 0 && a == n * q + r && 0 <= r < n
    ensures a / n == q && a % n == r
  {
    var q' := a / n;
    assert n * (q - q') == a % n - r by {
      assert a == n * q' + a % n;
    }
    if q - q' >= 1 {
      MulMono(1, q - q', n);
    } else if q - q' <= -1 {
      MulMono(q - q', -1, n);
    }
  }

  lemma {:induction false} ModWrap(i: int, n: int)
    requires n > 0
    ensures (i + n) % n == i % n
  {
    assert i + n == n * (i / n + 1) + i % n;
    ModUnique(i + n, n, i / n + 1, i % n);
  }

  /** Division as C does it, which truncates toward zero. */
  function Quotient(a: int, b: int): int
    requires b > 0
  {
    if a >= 0 then a / b else -((-a) / b)
  }

  function Pow2(n: nat): (p: nat)
    ensures p > 0
  {
    if n == 0 then 1 else 2 * Pow2(n - 1)
  }

  lemma {:induction false} Pow2Mono(m: nat, n: nat)
    requires m <= n
    ensures 1 <= Pow2(m) <= Pow2(n)
    decreases n
  {
    if m < n {
      Pow2Mono(m, n - 1);
    } else if m > 0 {
      Pow2Mono(m - 1, n - 1);
    }
  }

  lemma {:induction false} Pow2Add(m: nat, n: nat)
    ensures Pow2(m + n) == Pow2(m) * Pow2(n)
    decreases n
  {
    if n > 0 {
      Pow2Add(m, n - 1);
      assert m + n - 1 == m + (n - 1);
    }
  }

  lemma {:induction false} Pow2Split(n: nat, m: nat)
    requires n <= m
    ensures Pow2(m) == Pow2(n) * Pow2(m - n)
  {
    Pow2Add(n, m - n);
  }
}
