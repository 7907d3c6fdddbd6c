/** How parity vectors wind through a sector, for any kind of parity. */
module ProductCode {
  import opened Arith

  /** How many vectors, how long, and how one winds through the sector. */
  datatype Code = Code(majors: nat, minors: nat, mult: nat, inc: nat, size: nat)

  const ADDRESS_LEN: nat := 4
  const VIEW_LEN: nat := 2336

  /** The parity elements follow those that the vectors cover. */
  function ParityAt(c: Code): int {
    c.size - ADDRESS_LEN
  }

  ghost predicate CodeOk(c: Code) {
    && ADDRESS_LEN <= c.size && c.inc <= c.size && ParityAt(c) + 2 * c.majors <= VIEW_LEN
    && forall m {:trigger Start(c, m)} :: 0 <= m < c.majors ==> Start(c, m) < c.size
  }

  /** n times k, by addition. */
  ghost function Times(n: nat, k: nat): nat {
    if n == 0 then 0 else Times(n - 1, k) + k
  }

  lemma {:induction false} TimesIs(n: nat, k: nat)
    ensures Times(n, k) == n * k
  {
    if n > 0 {
      TimesIs(n - 1, k);
    }
  }

  ghost function Start(c: Code, major: nat): nat {
    Times(major / 2, c.mult) + major % 2
  }

  /** Vectors start inside the sector if the last pair does. */
  lemma {:induction false} StartsInside(c: Code, m: nat)
    requires m < c.majors && Times((c.majors - 1) / 2, c.mult) + 1 < c.size
    ensures Start(c, m) < c.size
  {
    TimesIs(m / 2, c.mult);
    TimesIs((c.majors - 1) / 2, c.mult);
    MulMono(m / 2, (c.majors - 1) / 2, c.mult);
  }

  function Next(c: Code, i: int): int {
    if i + c.inc >= c.size then i + c.inc - c.size else i + c.inc
  }

  ghost function Index(c: Code, major: nat, minor: nat): (i: nat)
    requires CodeOk(c) && major < c.majors
    ensures i < c.size
    decreases minor
  {
    if minor == 0 then Start(c, major) else Next(c, Index(c, major, minor - 1))
  }

  /** An address and the sector's elements after it. */
  ghost predicate View<T>(address: seq<T>, v: seq<T>) {
    |address| == ADDRESS_LEN && |v| == VIEW_LEN
  }

  /** The elements as the code counts them: the address first. */
  function At<T>(address: seq<T>, v: seq<T>, i: int): T
    requires View(address, v) && 0 <= i < ADDRESS_LEN + VIEW_LEN
  {
    if i < ADDRESS_LEN then address[i] else v[i - ADDRESS_LEN]
  }

  ghost function Vector<T>(c: Code, address: seq<T>, v: seq<T>, major: nat): (d: seq<T>)
    requires CodeOk(c) && major < c.majors && View(address, v)
    ensures |d| == c.minors && forall k {:trigger d[k]} :: 0 <= k < c.minors ==> d[k] == At(address, v, Index(c, major, k))
  {
    seq(c.minors, k requires 0 <= k < c.minors => At(address, v, Index(c, major, k)))
  }

  /** The parity elements of one vector are the right ones. */
  ghost predicate Right<T(!new)>(par: (seq<T>, T, T) -> bool, c: Code, address: seq<T>, v: seq<T>, major: nat)
    requires CodeOk(c) && major < c.majors && View(address, v)
  {
    par(Vector(c, address, v, major), v[ParityAt(c) + major], v[ParityAt(c) + c.majors + major])
  }

  ghost predicate AllRight<T(!new)>(par: (seq<T>, T, T) -> bool, c: Code, address: seq<T>, v: seq<T>, n: nat)
    requires CodeOk(c) && n <= c.majors && View(address, v)
  {
    forall m {:trigger Right(par, c, address, v, m)} :: 0 <= m < n ==> Right(par, c, address, v, m)
  }

  /** A vector has only one pair of parity elements. */
  ghost predicate Determines<T(!new)>(par: (seq<T>, T, T) -> bool) {
    forall d, p, q, p', q' {:trigger par(d, p, q), par(d, p', q')} :: par(d, p, q) && par(d, p', q') ==> p == p' && q == q'
  }

  /** Vectors read nothing from the parity elements on. */
  lemma {:induction false} SameVector<T>(c: Code, address: seq<T>, v: seq<T>, w: seq<T>, major: nat)
    requires CodeOk(c) && major < c.majors && View(address, v) && View(address, w)
    requires v[..ParityAt(c)] == w[..ParityAt(c)]
    ensures Vector(c, address, v, major) == Vector(c, address, w, major)
  {
    var d, e := Vector(c, address, v, major), Vector(c, address, w, major);
    forall k | 0 <= k < c.minors
      ensures d[k] == e[k]
    {
      var i := Index(c, major, k);
      if i >= ADDRESS_LEN {
        assert v[..ParityAt(c)][i - ADDRESS_LEN] == w[..ParityAt(c)][i - ADDRESS_LEN];
      }
    }
  }

  lemma {:induction false} OneRight<T(!new)>(par: (seq<T>, T, T) -> bool, c: Code, address: seq<T>, v: seq<T>, w: seq<T>, m: nat)
    requires CodeOk(c) && View(address, v) && View(address, w) && m < c.majors && Determines(par)
    requires v[..ParityAt(c)] == w[..ParityAt(c)] && Right(par, c, address, v, m) && Right(par, c, address, w, m)
    ensures v[ParityAt(c) + m] == w[ParityAt(c) + m] && v[ParityAt(c) + c.majors + m] == w[ParityAt(c) + c.majors + m]
  {
    SameVector(c, address, v, w, m);
  }

  /** Two sectors that agree up to the parity elements and have the right ones agree on them too. */
  lemma {:induction false} RightDetermines<T(!new)>(par: (seq<T>, T, T) -> bool, c: Code, address: seq<T>, v: seq<T>, w: seq<T>)
    requires CodeOk(c) && View(address, v) && View(address, w) && Determines(par)
    requires v[..ParityAt(c)] == w[..ParityAt(c)] && AllRight(par, c, address, v, c.majors) && AllRight(par, c, address, w, c.majors)
    ensures v[..ParityAt(c) + 2 * c.majors] == w[..ParityAt(c) + 2 * c.majors]
  {
    forall i | 0 <= i < ParityAt(c) + 2 * c.majors
      ensures v[i] == w[i]
    {
      var m := i - ParityAt(c);
      if m < 0 {
        assert v[..ParityAt(c)][i] == w[..ParityAt(c)][i];
      } else {
        var k := if m < c.majors then m else m - c.majors;
        assert Right(par, c, address, v, k) && Right(par, c, address, w, k);
        OneRight(par, c, address, v, w, k);
      }
    }
  }

  lemma {:induction false} PutRight<T(!new)>(par: (seq<T>, T, T) -> bool, c: Code, address: seq<T>, w: seq<T>, major: nat, p: T, q: T)
    requires CodeOk(c) && View(address, w) && major < c.majors && AllRight(par, c, address, w, major)
    requires par(Vector(c, address, w, major), p, q)
    ensures var w' := w[ParityAt(c) + major := p][ParityAt(c) + c.majors + major := q];
      && AllRight(par, c, address, w', major + 1) && w'[..ParityAt(c)] == w[..ParityAt(c)]
      && w'[ParityAt(c) + 2 * c.majors..] == w[ParityAt(c) + 2 * c.majors..]
  {
    var w' := w[ParityAt(c) + major := p][ParityAt(c) + c.majors + major := q];
    assert w'[..ParityAt(c)] == w[..ParityAt(c)];
    forall m | 0 <= m < major + 1
      ensures Right(par, c, address, w', m)
    {
      SameVector(c, address, w, w', m);
      assert m < major ==> Right(par, c, address, w, m);
    }
  }
}
