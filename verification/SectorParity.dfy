/** The P and Q parity of a sector: checking and writing. */
module SectorParity {
  import opened Closing
  import opened Folds
  import opened Galois
  import opened ProductCode

  const P_CODE := Code(86, 24, 2, 86, 2064)
  const Q_CODE := Code(52, 43, 86, 88, 2236)

  lemma {:induction false} CodesOk()
    ensures CodeOk(P_CODE) && CodeOk(Q_CODE)
    ensures P_CODE.size == P_CODE.majors * P_CODE.minors && Q_CODE.size == Q_CODE.majors * Q_CODE.minors
  {
    TimesIs(42, 2);
    TimesIs(25, 86);
    forall m {:trigger Start(P_CODE, m)} | 0 <= m < P_CODE.majors
      ensures Start(P_CODE, m) < P_CODE.size
    {
      StartsInside(P_CODE, m);
    }
    forall m {:trigger Start(Q_CODE, m)} | 0 <= m < Q_CODE.majors
      ensures Start(Q_CODE, m) < Q_CODE.size
    {
      StartsInside(Q_CODE, m);
    }
  }

  lemma {:induction false} ParityDetermines()
    ensures Determines(VectorParity)
  {
  }

  /** Right parity bytes are exactly those with which the whole vector satisfies both check equations. */
  lemma {:induction false} RightIsCodeword(c: Code, address: seq<octet>, v: seq<octet>, major: nat)
    requires CodeOk(c) && major < c.majors && View(address, v)
    ensures Right(VectorParity, c, address, v, major) <==> Right(VectorCodeword, c, address, v, major)
  {
    VectorParityUnique(Vector(c, address, v, major), v[ParityAt(c) + major], v[ParityAt(c) + c.majors + major]);
  }

  // ---- computing ----

  /** par is the parity of octet vectors; most proofs need only that it determines its bytes. */
  ghost predicate OctetPar(par: (seq<octet>, octet, octet) -> bool) {
    forall u {:trigger Look(u)} :: Look(u) ==> par == VectorParity
  }

  ghost predicate OctetStep(step: (Sums, octet) -> Sums) {
    forall u {:trigger Look(u)} :: Look(u) ==> step == SumStep
  }

  lemma {:induction false} TheParity() returns (par: (seq<octet>, octet, octet) -> bool)
    ensures OctetPar(par) && Determines(par)
  {
    par := VectorParity;
    ParityDetermines();
  }

  lemma {:induction false} TheStep() returns (step: (Sums, octet) -> Sums)
    ensures OctetStep(step)
  {
    step := SumStep;
  }

  lemma {:induction false} DoubleEntry(f: seq<octet>, b: seq<octet>, x: octet)
    requires Tables(f, b)
    ensures f[x as int] == Twice(x) && b[x as int] == Third(x)
  {
    assert Twice(x) == Twice(x) && Third(x) == Third(x);
  }

  method OneStep(f: seq<octet>, ghost b: seq<octet>, s: Sums, temp: octet, ghost step: (Sums, octet) -> Sums) returns (s': Sums)
    requires Tables(f, b) && OctetStep(step)
    ensures s' == step(s, temp)
  {
    ValueIs(s.value, temp);
    DoubleEntry(f, b, Plus(s.value, temp));
    s' := Sums(f[Plus(s.value, temp) as int], Plus(s.sum, temp));
    assert Look(0);
  }

  method FirstIndex(c: Code, major: nat) returns (index: nat)
    ensures index == Start(c, major)
  {
    TimesIs(major / 2, c.mult);
    index := (major / 2) * c.mult + major % 2;
  }

  /** The inner loop over one vector. */
  method SumVector(f: seq<octet>, ghost b: seq<octet>, c: Code, address: seq<octet>, v: seq<octet>, major: nat,
                   ghost step: (Sums, octet) -> Sums) returns (s: Sums)
    requires Tables(f, b) && CodeOk(c) && major < c.majors && View(address, v) && OctetStep(step)
    ensures s == Fold(step, Sums(0, 0), Vector(c, address, v, major))
  {
    ghost var d, zero := Vector(c, address, v, major), Sums(0, 0);
    var index := FirstIndex(c, major);
    s := Sums(0, 0);
    var minor := 0;
    assert d[..0] == [];
    while minor < c.minors
      invariant 0 <= minor <= c.minors && index == Index(c, major, minor) && s == Fold(step, zero, d[..minor])
    {
      FoldNext(step, zero, d, minor);
      s := OneStep(f, b, s, At(address, v, index), step);
      index := Next(c, index);
      minor := minor + 1;
    }
    assert d[..c.minors] == d;
  }

  lemma {:induction false} FoldNext<S, T>(step: (S, T) -> S, s: S, d: seq<T>, i: nat)
    requires i < |d|
    ensures Fold(step, s, d[..i + 1]) == step(Fold(step, s, d[..i]), d[i])
  {
    assert d[..i + 1] == d[..i] + [d[i]];
    FoldSnoc(step, s, d[..i], d[i]);
  }

  /** The two parity bytes from the sums. */
  method ParityBytes(f: seq<octet>, b: seq<octet>, s: Sums) returns (p: octet, q: octet)
    requires Tables(f, b)
    ensures Parity(s.value, s.sum, p, q)
  {
    DoubleEntry(f, b, s.value);
    var x := Plus(f[s.value as int], s.sum);
    DoubleEntry(f, b, x);
    p := b[x as int];
    q := Plus(p, s.sum);
  }

  lemma {:induction false} ParityHolds(par: (seq<octet>, octet, octet) -> bool, step: (Sums, octet) -> Sums, d: seq<octet>, s: Sums, p: octet, q: octet)
    requires OctetPar(par) && OctetStep(step) && s == Fold(step, Sums(0, 0), d) && Parity(s.value, s.sum, p, q)
    ensures par(d, p, q)
  {
    assert Look(0);
  }

  method VectorParityBytes(f: seq<octet>, b: seq<octet>, c: Code, address: seq<octet>, v: seq<octet>, major: nat,
                           ghost par: (seq<octet>, octet, octet) -> bool) returns (p: octet, q: octet)
    requires Tables(f, b) && CodeOk(c) && major < c.majors && View(address, v) && OctetPar(par)
    ensures par(Vector(c, address, v, major), p, q)
  {
    ghost var step := TheStep();
    var s := SumVector(f, b, c, address, v, major, step);
    p, q := ParityBytes(f, b, s);
    ParityHolds(par, step, Vector(c, address, v, major), s, p, q);
  }

  /** ecc_checkpq: accepts exactly if every vector has the right parity. */
  method CheckPq(f: seq<octet>, b: seq<octet>, c: Code, address: seq<octet>, v: seq<octet>, ghost par: (seq<octet>, octet, octet) -> bool)
    returns (ok: bool)
    requires Tables(f, b) && CodeOk(c) && View(address, v) && OctetPar(par) && Determines(par)
    ensures ok <==> AllRight(par, c, address, v, c.majors)
  {
    var major := 0;
    while major < c.majors
      invariant 0 <= major <= c.majors && AllRight(par, c, address, v, major)
    {
      var p, q := VectorParityBytes(f, b, c, address, v, major, par);
      RightOrNot(par, c, address, v, major, p, q);
      if v[ParityAt(c) + major] != p || v[ParityAt(c) + c.majors + major] != q {
        return false;
      }
      major := major + 1;
    }
    return true;
  }

  lemma {:induction false} RightOrNot<T(!new)>(par: (seq<T>, T, T) -> bool, c: Code, address: seq<T>, v: seq<T>, major: nat, p: T, q: T)
    requires CodeOk(c) && major < c.majors && View(address, v) && Determines(par) && par(Vector(c, address, v, major), p, q)
    ensures Right(par, c, address, v, major) <==> v[ParityAt(c) + major] == p && v[ParityAt(c) + c.majors + major] == q
  {
  }

  /** ecc_writepq: puts the right parity bytes in place and touches nothing else. */
  method WritePq(f: seq<octet>, b: seq<octet>, c: Code, address: seq<octet>, v: seq<octet>, ghost par: (seq<octet>, octet, octet) -> bool)
    returns (w: seq<octet>)
    requires Tables(f, b) && CodeOk(c) && View(address, v) && OctetPar(par)
    ensures |w| == VIEW_LEN && AllRight(par, c, address, w, c.majors)
    ensures w[..ParityAt(c)] == v[..ParityAt(c)] && w[ParityAt(c) + 2 * c.majors..] == v[ParityAt(c) + 2 * c.majors..]
  {
    w := v;
    var major := 0;
    while major < c.majors
      invariant 0 <= major <= c.majors && |w| == VIEW_LEN && AllRight(par, c, address, w, major)
      invariant w[..ParityAt(c)] == v[..ParityAt(c)] && w[ParityAt(c) + 2 * c.majors..] == v[ParityAt(c) + 2 * c.majors..]
    {
      var p, q := VectorParityBytes(f, b, c, address, w, major, par);
      PutRight(par, c, address, w, major, p, q);
      w := w[ParityAt(c) + major := p][ParityAt(c) + c.majors + major := q];
      major := major + 1;
    }
  }

  /** Checking is asking whether writing would change anything: w is what writing makes of v. */
  lemma {:induction false} CheckIsNoChange(par: (seq<octet>, octet, octet) -> bool, c: Code, address: seq<octet>, v: seq<octet>, w: seq<octet>)
    requires CodeOk(c) && View(address, v) && View(address, w) && Determines(par) && AllRight(par, c, address, w, c.majors)
    requires w[..ParityAt(c)] == v[..ParityAt(c)] && w[ParityAt(c) + 2 * c.majors..] == v[ParityAt(c) + 2 * c.majors..]
    ensures AllRight(par, c, address, v, c.majors) <==> w == v
  {
    if AllRight(par, c, address, v, c.majors) {
      RightDetermines(par, c, address, v, w);
      var n := ParityAt(c) + 2 * c.majors;
      assert v == v[..n] + v[n..] && w == w[..n] + w[n..];
    }
  }
}
