/** Groups of suffixes while they are sorted by doubling: what is kept, and the short sort of one group. */
module SuffixGroups {
  import opened Bytes
  import opened Closing
  import opened Matches
  import opened Permutations

  // ---- groups ----

  /** Slots k and l, k first: in one group and alike for h bytes, or in groups whose order is that of the suffixes. */
  ghost predicate Step(src: seq<byte>, P: seq<int>, V: seq<int>, h: nat, k: int, l: int)
    requires 0 <= k < |P| && 0 <= l < |P| && Within(P, |V|)
  {
    || (V[P[k]] == V[P[l]] && Match(src, P[k], src, P[l], h))
    || (V[P[k]] < V[P[l]] && Smaller(src, P[k], src, P[l]))
  }

  /** P places the suffixes in slots; V numbers the group of each, no lower than its slot. */
  ghost predicate Ranked(src: seq<byte>, P: seq<int>, V: seq<int>, h: nat) {
    && IsPerm(P, |src| + 1) && |V| == |src| + 1
    && (forall k {:trigger P[k]} :: 0 <= k < |P| ==> k <= V[P[k]] <= |src|)
    && (forall k, l {:trigger Step(src, P, V, h, k, l)} :: 0 <= k < l < |P| ==> Step(src, P, V, h, k, l))
  }

  /** Slots a..b share the group number G and wait to be split; every slot before them has been numbered. */
  ghost predicate Pending(src: seq<byte>, P: seq<int>, V: seq<int>, h: nat, a: int, b: int, G: int)
    requires |P| == |V| == |src| + 1 && Within(P, |V|)
  {
    && 0 <= a <= b <= |P| && b - 1 <= G < |P|
    && (forall k {:trigger P[k]} :: 0 <= k < a ==> V[P[k]] < a)
    && (forall k {:trigger P[k]} :: a <= k < b ==> V[P[k]] == G && P[k] + h <= |src|)
    && (forall k, l {:trigger Smaller(src, P[k], src, P[l])} :: a <= k < b <= l < |P| && V[P[l]] == G ==> Smaller(src, P[k], src, P[l]))
  }

  /** All suffixes in slots a..b come before all those in slots c..d. */
  ghost predicate AllSmaller(src: seq<byte>, P: seq<int>, a: int, b: int, c: int, d: int)
    requires 0 <= a <= b <= |P| && 0 <= c <= d <= |P|
  {
    forall k, l {:trigger Smaller(src, P[k], src, P[l])} :: a <= k < b && c <= l < d ==> Smaller(src, P[k], src, P[l])
  }

  ghost predicate AllMatch(src: seq<byte>, P: seq<int>, a: int, b: int, h: nat)
    requires 0 <= a <= b <= |P|
  {
    forall k, l {:trigger Match(src, P[k], src, P[l], h)} :: a <= k < b && a <= l < b && k != l ==> Match(src, P[k], src, P[l], h)
  }

  /** A group of one. */
  ghost predicate Alone(P: seq<int>, V: seq<int>, k: int)
    requires 0 <= k < |P| && Within(P, |V|)
  {
    V[P[k]] == k && (k > 0 ==> V[P[k - 1]] < k)
  }

  /** The number of a group is its last slot. */
  ghost predicate Tail(P: seq<int>, V: seq<int>, k: int)
    requires 0 <= k < |P| && Within(P, |V|)
  {
    0 <= V[P[k]] < |P| && V[P[V[P[k]]]] == V[P[k]]
  }

  /** Where the sort stands: the suffix in each slot, the group of each suffix, and the working array. */
  datatype Slots = Slots(P: seq<int>, V: seq<int>, I: seq<int>)

  ghost predicate Sized(src: seq<byte>, z: Slots) {
    |z.P| == |z.V| == |z.I| == |src| + 1 && Within(z.P, |src| + 1)
  }

  /** A slot of I holds its suffix, which is long enough to be split further, or the length of a run of sorted slots. */
  ghost predicate Marked(src: seq<byte>, z: Slots, h: nat, k: int)
    requires Sized(src, z) && 0 <= k <= |src|
  {
    if z.I[k] >= 0 then z.I[k] == z.P[k] && z.P[k] + h <= |src|
    else k - z.I[k] <= |z.P| && forall m {:trigger Alone(z.P, z.V, m)} :: k <= m < k - z.I[k] ==> Alone(z.P, z.V, m) && z.I[m] < 0
  }

  /** Slots a..b have been split by their first h bytes. */
  ghost predicate Finished(src: seq<byte>, z: Slots, h: nat, a: int, b: int)
    requires Sized(src, z) && 0 <= a <= b <= |src| + 1
  {
    && (forall k {:trigger z.P[k]} :: a <= k < b ==> z.V[z.P[k]] < b)
    && (forall k {:trigger Tail(z.P, z.V, k)} :: a <= k < b ==> Tail(z.P, z.V, k))
    && (forall k {:trigger Marked(src, z, h, k)} :: a <= k < b ==> Marked(src, z, h, k))
    && (forall k, l {:trigger Match(src, z.P[k], src, z.P[l], h)} ::
          a <= k < l < b && z.V[z.P[k]] == z.V[z.P[l]] ==> Match(src, z.P[k], src, z.P[l], h))
  }

  /** Only slots a..b may differ. */
  ghost predicate Kept(src: seq<byte>, y: Slots, z: Slots, a: int, b: int)
    requires Sized(src, y) && Sized(src, z)
  {
    forall u {:trigger Look(u)} :: Look(u) ==> KeptOutside(src, y, z, a, b)
  }

  ghost predicate KeptOutside(src: seq<byte>, y: Slots, z: Slots, a: int, b: int)
    requires Sized(src, y) && Sized(src, z)
  {
    forall k {:trigger y.P[k]} {:trigger z.P[k]} {:trigger z.I[k]} :: 0 <= k <= |src| && !(a <= k < b) ==>
      z.P[k] == y.P[k] && z.V[y.P[k]] == y.V[y.P[k]] && z.I[k] == y.I[k]
  }

  /** Group numbers follow the order of the suffixes. */
  lemma {:induction false} NumbersOrder(src: seq<byte>, P: seq<int>, V: seq<int>, h: nat, x: int, y: int)
    requires Ranked(src, P, V, h) && 0 <= x <= |src| && 0 <= y <= |src| && x != y
    ensures V[x] < V[y] ==> Smaller(src, x, src, y)
    ensures V[x] == V[y] ==> Match(src, x, src, y, h)
  {
    var s := PermOnto(P, |P|, x);
    var t := PermOnto(P, |P|, y);
    if s < t {
      assert Step(src, P, V, h, s, t);
    } else {
      assert Step(src, P, V, h, t, s);
    }
  }

  /** The groups h bytes on decide the order within a group, even while they are being split. */
  lemma {:induction false} KeysDecide(src: seq<byte>, P: seq<int>, V: seq<int>, h: nat, k: int, l: int)
    requires Ranked(src, P, V, h) && 0 <= k < |P| && 0 <= l < |P| && k != l
    requires V[P[k]] == V[P[l]] && P[k] + h <= |src| && P[l] + h <= |src|
    ensures V[P[k] + h] < V[P[l] + h] ==> Smaller(src, P[k], src, P[l])
    ensures V[P[k] + h] == V[P[l] + h] ==> Match(src, P[k], src, P[l], 2 * h)
  {
    var a, b := P[k], P[l];
    assert a != b by {
      PermDistinct(P, |P|);
    }
    NumbersOrder(src, P, V, h, a, b);
    NumbersOrder(src, P, V, h, a + h, b + h);
    if V[a + h] < V[b + h] {
      SmallerAfter(src, a, src, b, h);
    } else if V[a + h] == V[b + h] {
      MatchJoin(src, a, src, b, h, h);
    }
  }

  ghost function Swap(P: seq<int>, i: int, j: int): (Q: seq<int>)
    requires 0 <= i < |P| && 0 <= j < |P|
    ensures |Q| == |P|
  {
    P[i := P[j]][j := P[i]]
  }

  lemma {:induction false} SwapPerm(P: seq<int>, n: nat, i: int, j: int)
    requires IsPerm(P, n) && 0 <= i < n && 0 <= j < n
    ensures IsPerm(Swap(P, i, j), n)
  {
    PermDistinct(P, n);
    DistinctPerm(Swap(P, i, j), n);
  }

  /** Slots of one group may be exchanged. */
  lemma {:induction false} SwapStep(src: seq<byte>, P: seq<int>, V: seq<int>, h: nat, i: int, j: int, k: int, l: int)
    requires Ranked(src, P, V, h) && 0 <= i < j < |P| && 0 <= k < l < |P|
    requires forall m {:trigger P[m]} :: i <= m <= j ==> V[P[m]] == V[P[i]]
    ensures var Q := Swap(P, i, j); Within(Q, |V|) && Step(src, Q, V, h, k, l)
  {
    var k' := if k == i then j else if k == j then i else k;
    var l' := if l == i then j else if l == j then i else l;
    var Q := Swap(P, i, j);
    assert Q[k] == P[k'] && Q[l] == P[l'];
    if k' < l' {
      assert Step(src, P, V, h, k', l');
    } else {
      assert Step(src, P, V, h, l', k');
      assert i <= l' && k' <= j;
    }
  }

  lemma {:induction false} SwapRanked(src: seq<byte>, P: seq<int>, V: seq<int>, h: nat, i: int, j: int, a: int, b: int, G: int)
    requires Ranked(src, P, V, h) && Pending(src, P, V, h, a, b, G) && a <= i < b && a <= j < b
    ensures var Q := Swap(P, i, j); Ranked(src, Q, V, h) && Pending(src, Q, V, h, a, b, G)
  {
    var Q := Swap(P, i, j);
    if i == j {
      assert Q == P;
    } else {
      var i', j' := if i < j then i else j, if i < j then j else i;
      assert Q == Swap(P, i', j');
      SwapPerm(P, |P|, i, j);
      forall k, l | 0 <= k < l < |P|
        ensures Step(src, Q, V, h, k, l)
      {
        SwapStep(src, P, V, h, i', j', k, l);
      }
    }
  }

  // ---- numbering a group ----

  /** Gives slots a..b the number b - 1; what comes after them in the group goes on waiting. */
  lemma {:induction false} Renumbered(src: seq<byte>, P: seq<int>, V: seq<int>, W: seq<int>, h: nat, a: int, b: int, e: int, G: int)
    requires Ranked(src, P, V, h) && Pending(src, P, V, h, a, e, G) && a < b <= e && AllSmaller(src, P, a, b, b, e)
    requires |W| == |V| && forall k {:trigger P[k]} :: 0 <= k < |P| ==> W[P[k]] == if a <= k < b then b - 1 else V[P[k]]
    ensures Ranked(src, P, W, h) && Pending(src, P, W, h, b, e, G)
  {
    forall k, l | 0 <= k < l < |P|
      ensures Step(src, P, W, h, k, l)
    {
      assert Step(src, P, V, h, k, l);
      assert P[k] == P[k] && P[l] == P[l];
      if a <= k < b && b <= l < e {
        assert Smaller(src, P[k], src, P[l]);
      }
    }
  }

  /** A group of one stays one whatever is split. */
  lemma {:induction false} AloneStays(src: seq<byte>, y: Slots, z: Slots, h: nat, a: int, b: int, G: int, m: int)
    requires Sized(src, y) && Sized(src, z) && Ranked(src, y.P, y.V, h) && Ranked(src, z.P, z.V, h)
    requires Pending(src, y.P, y.V, h, a, b, G) && Kept(src, y, z, a, b)
    requires forall k {:trigger z.P[k]} :: a <= k < b ==> z.V[z.P[k]] < b
    requires 0 <= m <= |src| && Alone(y.P, y.V, m)
    ensures Alone(z.P, z.V, m)
  {
    assert Look(0);
    if a <= m < b {
      assert y.P[m] == y.P[m] && z.P[m] == z.P[m];
      assert m == b - 1 == a;
    }
    if m > 0 {
      assert y.P[m - 1] == y.P[m - 1] && z.P[m - 1] == z.P[m - 1];
    }
  }

  lemma {:induction false} MarkedStays(src: seq<byte>, y: Slots, z: Slots, h: nat, d: nat, a: int, b: int, G: int, k: int)
    requires Sized(src, y) && Sized(src, z) && Ranked(src, y.P, y.V, h) && Ranked(src, z.P, z.V, h)
    requires Pending(src, y.P, y.V, h, a, b, G) && Kept(src, y, z, a, b)
    requires forall k {:trigger z.P[k]} :: a <= k < b ==> z.V[z.P[k]] < b
    requires forall m {:trigger y.I[m]} :: 0 <= m <= |src| && a <= m < b ==> y.I[m] >= 0
    requires 0 <= k <= |src| && !(a <= k < b) && Marked(src, y, d, k)
    ensures Marked(src, z, d, k)
  {
    assert Look(0);
    assert y.P[k] == z.P[k] && y.I[k] == z.I[k];
    if z.I[k] < 0 {
      forall m | k <= m < k - z.I[k]
        ensures Alone(z.P, z.V, m) && z.I[m] < 0
      {
        assert Alone(y.P, y.V, m);
        assert y.I[m] < 0 && y.P[m] == y.P[m];
        AloneStays(src, y, z, h, a, b, G, m);
      }
    }
  }

  lemma {:induction false} RunAt(src: seq<byte>, z: Slots, d: nat, k: int, m: int)
    requires Sized(src, z) && 0 <= k <= |src| && k <= m < k - z.I[k] && Marked(src, z, d, k)
    ensures m <= |src| && Alone(z.P, z.V, m) && z.I[m] < 0
  {
  }

  /** A run of sorted slots before a group that waits stays one while the group is split. */
  lemma {:induction false} RunStays(src: seq<byte>, y: Slots, z: Slots, d: nat, a: int, b: int, k: int)
    requires Sized(src, y) && Sized(src, z) && Kept(src, y, z, a, b)
    requires forall m {:trigger y.I[m]} :: 0 <= m <= |src| && a <= m < b ==> y.I[m] >= 0
    requires 0 <= k <= |src| && k < a <= |src| + 1 && Marked(src, y, d, k)
    ensures Marked(src, z, d, k)
  {
    assert Look(0);
    assert y.P[k] == z.P[k] && y.I[k] == z.I[k];
    forall m | k <= m < k - z.I[k]
      ensures Alone(z.P, z.V, m) && z.I[m] < 0
    {
      assert Alone(y.P, y.V, m);
      if a <= m && a < b {
        RunAt(src, y, d, k, a);
        assert false;
      }
      assert y.P[m] == z.P[m];
      if m > 0 {
        assert y.P[m - 1] == z.P[m - 1];
      }
    }
  }

  /** What has been split stays so while later slots are. */
  lemma {:induction false} FinishedStays(src: seq<byte>, y: Slots, z: Slots, d: nat, s: int, a: int, b: int)
    requires Sized(src, y) && Sized(src, z) && Kept(src, y, z, a, b)
    requires forall m {:trigger y.I[m]} :: 0 <= m <= |src| && a <= m < b ==> y.I[m] >= 0
    requires 0 <= s <= a <= |src| + 1 && Finished(src, y, d, s, a)
    ensures Finished(src, z, d, s, a)
  {
    assert Look(0);
    forall k | s <= k < a
      ensures z.V[z.P[k]] < a && Tail(z.P, z.V, k) && Marked(src, z, d, k)
    {
      assert y.P[k] == z.P[k] && y.I[k] == z.I[k];
      assert Tail(y.P, y.V, k) && Marked(src, y, d, k);
      var t := y.V[y.P[k]];
      assert y.P[t] == z.P[t];
      RunStays(src, y, z, d, a, b, k);
    }
    forall k, l | s <= k < l < a && z.V[z.P[k]] == z.V[z.P[l]]
      ensures Match(src, z.P[k], src, z.P[l], d)
    {
      assert y.P[k] == z.P[k] && y.P[l] == z.P[l];
    }
  }

  lemma {:induction false} FinishedJoin(src: seq<byte>, z: Slots, h: nat, d: nat, s: int, a: int, b: int)
    requires Sized(src, z) && Ranked(src, z.P, z.V, h) && 0 <= s <= a <= b <= |src| + 1
    requires Finished(src, z, d, s, a) && Finished(src, z, d, a, b)
    ensures Finished(src, z, d, s, b)
  {
    forall k, l | s <= k < l < b && z.V[z.P[k]] == z.V[z.P[l]]
      ensures Match(src, z.P[k], src, z.P[l], d)
    {
      assert z.P[k] == z.P[k] && z.P[l] == z.P[l];
    }
  }

  lemma {:induction false} KeptTrans(src: seq<byte>, x: Slots, y: Slots, z: Slots, s: int, e: int, a: int, b: int)
    requires Sized(src, x) && Sized(src, y) && Sized(src, z) && s <= a <= b <= e
    requires Kept(src, x, y, s, e) && Kept(src, y, z, a, b)
    ensures Kept(src, x, z, s, e)
  {
    assert Look(0);
    assert KeptOutside(src, x, y, s, e);
    forall k | 0 <= k <= |src| && !(s <= k < e)
      ensures z.P[k] == x.P[k] && z.V[x.P[k]] == x.V[x.P[k]] && z.I[k] == x.I[k]
    {
      assert x.P[k] == y.P[k];
    }
  }

  lemma {:induction false} SettledGroup(src: seq<byte>, z: Slots, h: nat, a: int, b: int)
    requires Sized(src, z) && 0 <= a < b <= |src| + 1 && AllMatch(src, z.P, a, b, 2 * h)
    requires forall k {:trigger z.P[k]} :: 0 <= k < a ==> z.V[z.P[k]] < a
    requires forall k {:trigger z.P[k]} :: a <= k < b ==> z.V[z.P[k]] == b - 1
    requires if b == a + 1 then z.I[a] == -1 else forall k {:trigger z.P[k]} :: a <= k < b ==> z.I[k] == z.P[k]
    ensures Finished(src, z, 2 * h, a, b)
  {
    forall k | a <= k < b
      ensures Tail(z.P, z.V, k) && Marked(src, z, 2 * h, k)
    {
      assert z.P[k] == z.P[k];
      if b == a + 1 {
        assert Alone(z.P, z.V, a) by {
          if a > 0 {
            assert z.V[z.P[a - 1]] < a;
          }
        }
      } else {
        var l := if k == a then a + 1 else a;
        assert Match(src, z.P[k], src, z.P[l], 2 * h);
      }
    }
  }

  // ---- splitting a group ----

  ghost predicate Grouped(src: seq<byte>, z: Slots, h: nat, a: int, b: int, G: int)
    requires Sized(src, z)
  {
    && Ranked(src, z.P, z.V, h) && Pending(src, z.P, z.V, h, a, b, G)
    && forall k {:trigger z.P[k]} {:trigger z.I[k]} :: a <= k < b ==> z.I[k] == z.P[k]
  }

  /** Slots a..b of I hold a group that waits to be split. */
  ghost predicate Waiting(src: seq<byte>, z: Slots, h: nat, a: int, b: int, G: int) {
    Sized(src, z) && 0 <= a <= b <= |src| + 1 && forall u {:trigger Look(u)} :: Look(u) ==> Grouped(src, z, h, a, b, G)
  }

  /** What a suffix is compared by: the group of the suffix h bytes on. */
  ghost function Key(z: Slots, h: nat, k: int): int {
    if 0 <= k < |z.P| && 0 <= z.P[k] + h < |z.V| then z.V[z.P[k] + h] else 0
  }

  function Sign(d: int): int {
    if d < 0 then -1 else if d == 0 then 0 else 1
  }

  /** The keys of slots a..b compare with x as c says. */
  ghost predicate Keys(z: Slots, h: nat, a: int, b: int, x: int, c: int) {
    forall k {:trigger Key(z, h, k)} :: a <= k < b ==> Sign(Key(z, h, k) - x) == c
  }

  /** Reads one key. */
  method KeyAt(I: array<int>, V: array<int>, k: nat, h: nat, ghost src: seq<byte>, ghost z: Slots, ghost a: nat, ghost b: nat, ghost G: int)
    returns (x: int)
    requires Waiting(src, z, h, a, b, G) && z.I == I[..] && z.V == V[..] && a <= k < b
    ensures x == Key(z, h, k)
  {
    assert Look(0);
    assert z.P[k] == z.I[k] == I[k];
    x := V[I[k] + h];
  }

  lemma {:induction false} KeysSmaller(src: seq<byte>, z: Slots, h: nat, a: int, b: int, G: int, i: int, j: int, k: int, l: int, x: int, c: int, d: int)
    requires Waiting(src, z, h, a, b, G) && a <= i <= j <= k <= l <= b
    requires Keys(z, h, i, j, x, c) && Keys(z, h, k, l, x, d) && c < d
    ensures AllSmaller(src, z.P, i, j, k, l)
  {
    assert Look(0);
    forall m, n | i <= m < j && k <= n < l
      ensures Smaller(src, z.P[m], src, z.P[n])
    {
      assert Sign(Key(z, h, m) - x) == c && Sign(Key(z, h, n) - x) == d;
      assert z.P[m] == z.P[m] && z.P[n] == z.P[n];
      KeysDecide(src, z.P, z.V, h, m, n);
    }
  }

  lemma {:induction false} KeysMatch(src: seq<byte>, z: Slots, h: nat, a: int, b: int, G: int, i: int, j: int, x: int)
    requires Waiting(src, z, h, a, b, G) && a <= i <= j <= b && Keys(z, h, i, j, x, 0)
    ensures AllMatch(src, z.P, i, j, 2 * h)
  {
    assert Look(0);
    forall m, n | i <= m < j && i <= n < j && m != n
      ensures Match(src, z.P[m], src, z.P[n], 2 * h)
    {
      assert Sign(Key(z, h, m) - x) == 0 && Sign(Key(z, h, n) - x) == 0;
      assert z.P[m] == z.P[m] && z.P[n] == z.P[n];
      KeysDecide(src, z.P, z.V, h, m, n);
    }
  }

  function Other(i: int, j: int, k: int): int {
    if k == i then j else if k == j then i else k
  }

  /** Slots a..b come before b..e and are alike for 2h bytes. */
  ghost predicate Apart(src: seq<byte>, P: seq<int>, h: nat, a: int, b: int, e: int) {
    0 <= a <= b <= e <= |P| && forall u {:trigger Look(u)} :: Look(u) ==> AllSmaller(src, P, a, b, b, e) && AllMatch(src, P, a, b, 2 * h)
  }

  method Exchange(I: array<int>, i: nat, j: nat, ghost src: seq<byte>, ghost z: Slots, ghost h: nat, ghost a: nat, ghost b: nat, ghost G: int)
    returns (ghost y: Slots)
    requires Waiting(src, z, h, a, b, G) && z.I == I[..] && a <= i < b && a <= j < b
    modifies I
    ensures y.V == z.V && y.I == I[..] && Waiting(src, y, h, a, b, G) && Kept(src, z, y, a, b)
    ensures forall k {:trigger Key(y, h, k)} :: Key(y, h, k) == Key(z, h, Other(i, j, k))
  {
    assert Look(0);
    SwapRanked(src, z.P, z.V, h, i, j, a, b, G);
    assert I[i] == z.I[i] && I[j] == z.I[j];
    I[i], I[j] := I[j], I[i];
    y := Slots(Swap(z.P, i, j), z.V, I[..]);
    assert KeptOutside(src, z, y, a, b);
    assert Grouped(src, y, h, a, b, G);
  }

  /** Compares slot k + i with the least key so far; a slot with that key joins those in front. */
  method Consider(I: array<int>, V: array<int>, k: nat, e: nat, h: nat, i: nat, j0: nat, x0: int,
                  ghost src: seq<byte>, ghost z: Slots, ghost G: int)
    returns (j: nat, x: int, ghost y: Slots)
    requires I != V && V[..] == z.V && I[..] == z.I && Waiting(src, z, h, k, e, G) && 1 <= j0 <= i < e - k
    requires Keys(z, h, k, k + j0, x0, 0) && Keys(z, h, k + j0, k + i, x0, 1)
    modifies I
    ensures 1 <= j <= i + 1 && y.V == z.V && I[..] == y.I && Waiting(src, y, h, k, e, G) && Kept(src, z, y, k, e)
    ensures Keys(y, h, k, k + j, x, 0) && Keys(y, h, k + j, k + i + 1, x, 1)
  {
    j, x, y := j0, x0, z;
    var v := KeyAt(I, V, k + i, h, src, z, k, e, G);
    if v < x {
      x := v;
      j := 0;
    }
    if v == x {
      y := Exchange(I, k + j, k + i, src, z, h, k, e, G);
      j := j + 1;
    } else {
      KeptSame(src, z, k, e);
    }
  }

  /** One round of selection: the suffixes with the least key come first. */
  method LeastFirst(I: array<int>, V: array<int>, k: nat, e: nat, h: nat, ghost src: seq<byte>, ghost z: Slots, ghost G: int)
    returns (j: nat, ghost y: Slots)
    requires I != V && V[..] == z.V && I[..] == z.I && Waiting(src, z, h, k, e, G) && k < e
    modifies I
    ensures 1 <= j <= e - k && y.V == z.V && I[..] == y.I && Waiting(src, y, h, k, e, G) && Kept(src, z, y, k, e)
    ensures Apart(src, y.P, h, k, k + j, e)
  {
    y := z;
    KeptSame(src, z, k, e);
    j := 1;
    var x := KeyAt(I, V, k, h, src, y, k, e, G);
    var i := 1;
    while k + i < e
      invariant 1 <= i <= e - k && 1 <= j <= i
      invariant y.V == z.V && I[..] == y.I && Waiting(src, y, h, k, e, G) && Kept(src, z, y, k, e)
      invariant Keys(y, h, k, k + j, x, 0) && Keys(y, h, k + j, k + i, x, 1)
    {
      ghost var was := y;
      j, x, y := Consider(I, V, k, e, h, i, j, x, src, was, G);
      KeptTrans(src, z, was, y, k, e, k, e);
      i := i + 1;
    }
    LeastApart(src, y, h, k, e, G, k + j, x);
  }

  lemma {:induction false} LeastApart(src: seq<byte>, y: Slots, h: nat, k: int, e: int, G: int, b: int, x: int)
    requires Waiting(src, y, h, k, e, G) && 0 <= k <= b <= e && Keys(y, h, k, b, x, 0) && Keys(y, h, b, e, x, 1)
    ensures Apart(src, y.P, h, k, b, e)
  {
    assert Look(0);
    KeysSmaller(src, y, h, k, e, G, k, b, b, e, x, 0, 1);
    KeysMatch(src, y, h, k, e, G, k, b, x);
  }

  /** Numbers slots a..b as one group, and marks it if it is alone. */
  method Settle(I: array<int>, V: array<int>, a: nat, b: nat, ghost src: seq<byte>, ghost z: Slots, ghost h: nat, ghost e: nat, ghost G: int)
    returns (ghost y: Slots)
    requires I != V && V[..] == z.V && I[..] == z.I && Waiting(src, z, h, a, e, G) && a < b <= e
    requires Apart(src, z.P, h, a, b, e)
    modifies I, V
    ensures y == Slots(z.P, V[..], I[..]) && Waiting(src, y, h, b, e, G) && Sofar(src, z, y, h, a, b, b)
  {
    ghost var P := z.P;
    assert Look(0);
    assert Distinct(P) by {
      PermDistinct(P, |P|);
    }
    for i := 0 to b - a
      invariant I[..] == z.I
      invariant forall k {:trigger P[k]} :: 0 <= k < |P| ==> V[P[k]] == if a <= k < a + i then b - 1 else z.V[P[k]]
    {
      assert I[a + i] == z.I[a + i] == P[a + i];
      V[I[a + i]] := b - 1;
    }
    if b == a + 1 {
      I[a] := -1;
    }
    y := Slots(P, V[..], I[..]);
    Renumbered(src, P, z.V, y.V, h, a, b, e, G);
    SettledGroup(src, y, h, a, b);
    assert KeptOutside(src, z, y, a, b);
    assert Grouped(src, y, h, b, e, G);
  }

  /** Slots s..a have been split and a..e still wait. */
  ghost predicate Sofar(src: seq<byte>, z: Slots, y: Slots, h: nat, s: int, a: int, e: int) {
    && Sized(src, z) && Sized(src, y) && 0 <= s <= a <= e <= |src| + 1
    && forall u {:trigger Look(u)} :: Look(u) ==> KeptOutside(src, z, y, s, e) && Finished(src, y, 2 * h, s, a)
  }

  /** Slots a..b of z have become y: still ranked, now by twice as many bytes within a..b. */
  ghost predicate Parted(src: seq<byte>, z: Slots, y: Slots, h: nat, a: int, b: int) {
    Sofar(src, z, y, h, a, b, b) && forall u {:trigger Look(u)} :: Look(u) ==> Ranked(src, y.P, y.V, h)
  }

  lemma {:induction false} SofarStart(src: seq<byte>, z: Slots, y: Slots, h: nat, s: int, e: int)
    requires Sized(src, z) && Sized(src, y) && Kept(src, z, y, s, e) && 0 <= s <= e <= |src| + 1
    ensures Sofar(src, z, y, h, s, s, e)
  {
    assert Look(0);
    assert Finished(src, y, 2 * h, s, s);
  }

  lemma {:induction false} KeptSame(src: seq<byte>, z: Slots, a: int, b: int)
    requires Sized(src, z)
    ensures Kept(src, z, z, a, b)
  {
    assert KeptOutside(src, z, z, a, b);
  }

  lemma {:induction false} SofarMore(src: seq<byte>, z: Slots, x: Slots, w: Slots, y: Slots, h: nat, s: int, a: int, b: int, e: int, G: int)
    requires Sofar(src, z, x, h, s, a, e) && Waiting(src, x, h, a, e, G)
    requires Sized(src, w) && Kept(src, x, w, a, e) && b <= e && Sofar(src, w, y, h, a, b, b) && Waiting(src, y, h, b, e, G)
    ensures Sofar(src, z, y, h, s, b, e)
  {
    assert Look(0);
    assert Kept(src, w, y, a, b);
    KeptTrans(src, x, w, y, a, e, a, b);
    assert KeptOutside(src, z, x, s, e);
    assert Kept(src, z, x, s, e);
    KeptTrans(src, z, x, y, s, e, a, e);
    FinishedStays(src, x, y, 2 * h, s, a, e);
    FinishedJoin(src, y, h, 2 * h, s, a, b);
  }

  lemma {:induction false} SofarAll(src: seq<byte>, z: Slots, y: Slots, h: nat, s: int, e: int, G: int)
    requires Sofar(src, z, y, h, s, e, e) && Waiting(src, y, h, e, e, G)
    ensures Parted(src, z, y, h, s, e)
  {
    assert Look(0);
  }

  /** Selects and settles one group of those that wait. */
  method NextGroup(I: array<int>, V: array<int>, k: nat, e: nat, h: nat,
                   ghost src: seq<byte>, ghost z: Slots, ghost x: Slots, ghost s: nat, ghost G: int)
    returns (j: nat, ghost y: Slots)
    requires I != V && V[..] == x.V && I[..] == x.I && k < e && Waiting(src, x, h, k, e, G) && Sofar(src, z, x, h, s, k, e)
    modifies I, V
    ensures 1 <= j <= e - k && y.V == V[..] && y.I == I[..] && Waiting(src, y, h, k + j, e, G) && Sofar(src, z, y, h, s, k + j, e)
  {
    ghost var w;
    j, w := LeastFirst(I, V, k, e, h, src, x, G);
    y := Settle(I, V, k, k + j, src, w, h, e, G);
    assert y.V == V[..] && y.I == I[..];
    SofarMore(src, z, x, w, y, h, s, k, k + j, e, G);
  }

  /** The short sort: one group after the other. */
  method SelectGroups(I: array<int>, V: array<int>, start: nat, len: nat, h: nat, ghost src: seq<byte>, ghost z: Slots, ghost G: int)
    returns (ghost y: Slots)
    requires I != V && V[..] == z.V && I[..] == z.I && Waiting(src, z, h, start, start + len, G)
    modifies I, V
    ensures y.V == V[..] && y.I == I[..] && Parted(src, z, y, h, start, start + len)
  {
    y := z;
    var k, end := start, start + len;
    KeptSame(src, z, start, end);
    SofarStart(src, z, z, h, start, end);
    while k < end
      invariant start <= k <= end && y.V == V[..] && y.I == I[..]
      invariant Waiting(src, y, h, k, end, G) && Sofar(src, z, y, h, start, k, end)
    {
      var j;
      j, y := NextGroup(I, V, k, end, h, src, z, y, start, G);
      k := k + j;
    }
    SofarAll(src, z, y, h, start, end, G);
  }
}
