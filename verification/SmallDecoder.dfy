/** The SMALL decoder: 20-bit links packed in two arrays, reversed in place, bytes found by binary search. */
module SmallDecoder {
  import opened Bytes
  import opened Counting
  import opened InverseBwt
  import opened Permutations

  /** The half of a shared byte that belongs to link i: low for even i, high for odd. */
  function Nibble(x: int, i: nat): int {
    if i % 2 == 0 then x % 16 else x / 16
  }

  function WithNibble(x: int, i: nat, v: int): (y: int)
    requires 0 <= x < 256 && 0 <= v < 16
    ensures 0 <= y < 256
    ensures Nibble(y, i) == v
    ensures forall j: nat :: j % 2 != i % 2 ==> Nibble(y, j) == Nibble(x, j)
  {
    if i % 2 == 0 then x / 16 * 16 + v else x % 16 + v * 16
  }

  /** ll16 holds the low 16 bits of each link, ll4 the high 4 bits, two links to a byte. */
  class PackedLinks {
    const ll16: array<int>
    const ll4: array<int>

    constructor (size: nat)
      ensures fresh(ll16) && fresh(ll4)
      ensures ll16.Length == size && Valid()
    {
      ll16 := new int[size](_ => 0);
      ll4 := new int[(1 + size) / 2](_ => 0);
    }

    ghost predicate Valid()
      reads ll16, ll4
    {
      && ll16 != ll4
      && ll4.Length == (1 + ll16.Length) / 2
      && (forall i :: 0 <= i < ll16.Length ==> 0 <= ll16[i] < 0x10000)
      && (forall i :: 0 <= i < ll4.Length ==> 0 <= ll4[i] < 0x100)
    }

    function High(i: nat): int
      requires i < ll16.Length && (1 + ll16.Length) / 2 == ll4.Length
      reads ll4
    {
      Nibble(ll4[i / 2], i)
    }

    /** GET_LL */
    function Link(i: nat): int
      requires i < ll16.Length && (1 + ll16.Length) / 2 == ll4.Length
      reads ll16, ll4
    {
      ll16[i] + High(i) * 0x10000
    }

    /** All links, unpacked. */
    ghost function All(): (s: seq<int>)
      requires (1 + ll16.Length) / 2 == ll4.Length
      reads ll16, ll4
      ensures |s| == ll16.Length
    {
      seq(ll16.Length, i requires 0 <= i < ll16.Length reads ll16, ll4 => Link(i))
    }

    method Get(i: nat) returns (v: int)
      requires Valid() && i < ll16.Length
      ensures v == All()[i]
    {
      v := Link(i);
    }

    /** SET_LL: a link is stored without disturbing its neighbour in the shared byte. */
    method Set(i: nat, v: nat)
      requires Valid() && i < ll16.Length && v < 0x100000
      modifies ll16, ll4
      ensures Valid()
      ensures All() == old(All())[i := v]
      ensures forall j :: 0 <= j < ll16.Length && j != i ==> ll16[j] == old(ll16[j])
    {
      ll16[i] := v % 0x10000;
      ll4[i / 2] := WithNibble(ll4[i / 2], i, v / 0x10000);
      forall j | 0 <= j < ll16.Length
        ensures Link(j) == if j == i then v else old(Link(j))
      {
        assert j / 2 == i / 2 && j != i ==> j % 2 != i % 2;
      }
      assert All() == old(All())[i := v];
    }

    /** The same, seen in the first n links. */
    method SetAmong(i: nat, v: nat, ghost n: nat)
      requires Valid() && i < n <= ll16.Length && v < 0x100000
      modifies ll16, ll4
      ensures Valid()
      ensures All()[..n] == old(All()[..n])[i := v]
    {
      Set(i, v);
    }

    /** Replaces each byte of the last column by its rank. */
    method StoreRanks(cftabCopy: array<int>, nblock: nat, ghost l: seq<byte>)
      requires Valid() && nblock == |l| <= ll16.Length && nblock <= 0x100000
      requires cftabCopy.Length == 257 && cftabCopy != ll16 && cftabCopy != ll4
      requires forall c :: 0 <= c < 256 ==> cftabCopy[c] == Below(l, c)
      requires forall i :: 0 <= i < nblock ==> ll16[i] == l[i]
      modifies ll16, ll4, cftabCopy
      ensures Valid()
      ensures All()[..nblock] == Ranks(l)
    {
      RanksInRange(l);
      var i := 0;
      while i < nblock
        invariant Valid() && 0 <= i <= nblock
        invariant forall c :: 0 <= c < 256 ==> cftabCopy[c] == Below(l, c) + Count(l[..i], c)
        invariant forall j :: i <= j < nblock ==> ll16[j] == l[j]
        invariant All()[..i] == Ranks(l)[..i]
      {
        CountsAfter(l, i);
        var uc := ll16[i] % 256;
        assert cftabCopy[uc] == Rank(l, i);
        Set(i, cftabCopy[uc]);
        assert All()[..i + 1] == All()[..i] + [Rank(l, i)];
        cftabCopy[uc] := cftabCopy[uc] + 1;
        i := i + 1;
      }
    }

    /**
     * Reverses the links on the cycle of ranks through origPtr, in place. Rows off that cycle (there
     * are some when the block is periodic) keep their old links and are never read again.
     */
    method ReverseCycle(origPtr: nat, ghost l: seq<byte>) returns (ghost cycle: set<int>)
      requires Valid() && origPtr < |l| <= ll16.Length && |l| <= 0x100000
      requires All()[..|l|] == Ranks(l)
      modifies ll16, ll4
      ensures Valid()
      ensures origPtr in cycle && Reversed(All()[..|l|], l, cycle)
    {
      ghost var r := Ranks(l);
      ghost var s, c := r, [origPtr];
      RanksArePerm(l);
      var i := origPtr;
      var j := Get(i);
      assert All()[..|l|][i] == j;
      while true
        invariant Valid()
        invariant All()[..|l|] == s
        invariant OnPath(s, r, c) && c[0] == origPtr
        invariant i == c[|c| - 1] && j == r[i]
        decreases |l| - |c|
      {
        PathStep(s, r, c);
        var tmp := Get(j);
        assert All()[..|l|][j] == tmp;
        SetAmong(j, i, |l|);
        s := s[j := i];
        i := j;
        j := tmp;
        if i == origPtr {
          break;
        }
        c := c + [i];
      }
      cycle := set x | x in c;
      CycleReversed(s, l, c);
    }

    /** One byte by BZ_GET_SMALL. */
    method GetSmall(tPos: nat, cftab: array<int>, ghost l: seq<byte>) returns (c: byte, next: int)
      requires Valid() && cftab.Length == 257
      requires tPos < |l| <= ll16.Length
      requires forall i :: 0 <= i <= 256 ==> cftab[i] == Below(l, i)
      ensures Below(l, c) <= tPos < Below(l, c as int + 1)
      ensures next == Link(tPos)
    {
      c := IndexIntoF(tPos, cftab, l);
      next := Link(tPos);
    }

    /** Reads m bytes from origPtr on, and they are the bytes the FAST decoder reads. */
    method UnwindSmall(cftab: array<int>, origPtr: nat, m: nat, ghost l: seq<byte>, ghost t: seq<int>, ghost cycle: set<int>)
      returns (out: seq<byte>)
      requires Valid() && cftab.Length == 257
      requires origPtr < |l| <= ll16.Length
      requires forall i :: 0 <= i <= 256 ==> cftab[i] == Below(l, i)
      requires origPtr in cycle && Reversed(All()[..|l|], l, cycle)
      requires UndoesRank(l, t) && Within(t, |l|)
      ensures out == Unwind(l, t, t[origPtr], m)
    {
      ghost var goal := Unwind(l, t, t[origPtr], m);
      ghost var todo := goal;
      out := [];
      var tPos, n := origPtr, m;
      while n > 0
        invariant tPos in cycle && |todo| == n && out + todo == goal
        invariant 0 <= tPos < |l| && todo == Unwind(l, t, t[tPos], n)
      {
        out, tPos, todo := StepSmall(tPos, cftab, out, l, t, cycle, n, todo);
        n := n - 1;
      }
    }

    /** One byte and one step along the cycle. */
    method StepSmall(tPos: nat, cftab: array<int>, out: seq<byte>, ghost l: seq<byte>, ghost t: seq<int>, ghost cycle: set<int>,
                     ghost m: nat, ghost todo: seq<byte>) returns (out': seq<byte>, next: nat, ghost todo': seq<byte>)
      requires Valid() && cftab.Length == 257 && tPos < |l| <= ll16.Length && m > 0
      requires forall i :: 0 <= i <= 256 ==> cftab[i] == Below(l, i)
      requires tPos in cycle && Reversed(All()[..|l|], l, cycle)
      requires UndoesRank(l, t) && Within(t, |l|) && todo == Unwind(l, t, t[tPos], m)
      ensures next < |l| && next in cycle && todo' == Unwind(l, t, t[next], m - 1) && out' + todo' == out + todo
    {
      ghost var s := All()[..|l|];
      var c;
      c, next := GetSmall(tPos, cftab, l);
      assert s[tPos] == next;
      SameRow(l, t, tPos, next, c);
      UnwindHead(l, t, next, m, out);
      out', todo' := out + [c], Unwind(l, t, t[next], m - 1);
    }
  }

  lemma {:induction false} UnwindHead(l: seq<byte>, t: seq<int>, pos: int, m: nat, out: seq<byte>)
    requires |t| == |l| && Within(t, |l|)
    requires 0 <= pos < |l| && m > 0
    ensures out + Unwind(l, t, pos, m) == out + [l[pos]] + Unwind(l, t, t[pos], m - 1)
  {
  }

  /** Every row on the cycle links to the row its byte came from. */
  ghost predicate Reversed(s: seq<int>, l: seq<byte>, cycle: set<int>) {
    && |s| == |l|
    && forall x {:trigger s[x]} :: x in cycle ==> 0 <= x < |l| && 0 <= s[x] < |l| && s[x] in cycle && Rank(l, s[x]) == x
  }

  /** Row c[m] comes after row c[m - 1] in r, and s has the link the other way round. */
  ghost predicate Follows(s: seq<int>, r: seq<int>, c: seq<int>, m: int) {
    && 0 < m < |c| && 0 <= c[m - 1] < |r| && 0 <= c[m] < |s|
    && c[m] == r[c[m - 1]] && s[c[m]] == c[m - 1]
  }

  /** The reversal has walked along c: links into c's inner rows are reversed, all others untouched. */
  ghost predicate OnPath(s: seq<int>, r: seq<int>, c: seq<int>) {
    && |s| == |r|
    && 0 < |c| <= |r|
    && Distinct(c) && Within(c, |r|)
    && (forall m {:trigger Follows(s, r, c, m)} :: 0 < m < |c| ==> Follows(s, r, c, m))
    && (forall x :: 0 <= x < |r| && x !in c[1..] ==> s[x] == r[x])
  }

  /** The image of a path's end is none of its inner rows, so its link is still the original one. */
  lemma {:induction false} PathImage(s: seq<int>, r: seq<int>, c: seq<int>)
    requires IsPerm(r, |r|) && OnPath(s, r, c)
    ensures var j := r[c[|c| - 1]]; 0 <= j < |r| && j !in c[1..] && s[j] == r[j]
  {
    PermDistinct(r, |r|);
    var j := r[c[|c| - 1]];
    forall m | 0 < m < |c|
      ensures c[m] != j
    {
      assert Follows(s, r, c, m);
      assert c[m - 1] != c[|c| - 1];
    }
  }

  lemma {:induction false} PathGrows(s: seq<int>, r: seq<int>, c: seq<int>)
    requires OnPath(s, r, c)
    requires var j := r[c[|c| - 1]]; 0 <= j < |r| && j !in c[1..] && s[j] == r[j] && j != c[0]
    ensures OnPath(s[r[c[|c| - 1]] := c[|c| - 1]], r, c + [r[c[|c| - 1]]])
  {
    var j := r[c[|c| - 1]];
    var d, s' := c + [j], s[j := c[|c| - 1]];
    assert c == [c[0]] + c[1..];
    assert d[1..] == c[1..] + [j];
    DistinctBound(d, |r|);
    forall m | 0 < m < |d|
      ensures Follows(s', r, d, m)
    {
      if m < |c| {
        assert Follows(s, r, c, m);
        assert c[m] == c[1..][m - 1];
      }
    }
  }

  /** The finished cycle: each row of c links to its predecessor, round to the start. */
  ghost predicate Closed(s: seq<int>, r: seq<int>, c: seq<int>) {
    && |s| == |r|
    && 0 < |c| <= |r|
    && Within(c, |r|)
    && r[c[|c| - 1]] == c[0] && s[c[0]] == c[|c| - 1]
    && (forall m {:trigger Follows(s, r, c, m)} :: 0 < m < |c| ==> Follows(s, r, c, m))
  }

  lemma {:induction false} PathCloses(s: seq<int>, r: seq<int>, c: seq<int>)
    requires OnPath(s, r, c)
    requires r[c[|c| - 1]] == c[0]
    ensures Closed(s[c[0] := c[|c| - 1]], r, c)
  {
    var s' := s[c[0] := c[|c| - 1]];
    forall m | 0 < m < |c|
      ensures Follows(s', r, c, m)
    {
      assert Follows(s, r, c, m);
      assert c[0] != c[m];
    }
  }

  lemma {:induction false} PathStep(s: seq<int>, r: seq<int>, c: seq<int>)
    requires IsPerm(r, |r|) && OnPath(s, r, c)
    ensures var i := c[|c| - 1]; var j := r[i];
      && 0 <= j < |r| && s[j] == r[j]
      && (j == c[0] ==> Closed(s[j := i], r, c))
      && (j != c[0] ==> OnPath(s[j := i], r, c + [j]))
  {
    PathImage(s, r, c);
    if r[c[|c| - 1]] == c[0] {
      PathCloses(s, r, c);
    } else {
      PathGrows(s, r, c);
    }
  }

  lemma {:induction false} CycleReversed(s: seq<int>, l: seq<byte>, c: seq<int>)
    requires Closed(s, Ranks(l), c)
    ensures Reversed(s, l, set x | x in c)
  {
    forall x | x in c
      ensures 0 <= x < |l| && 0 <= s[x] < |l| && s[x] in c && Rank(l, s[x]) == x
    {
      var m :| 0 <= m < |c| && c[m] == x;
      var pred := if m == 0 then c[|c| - 1] else c[m - 1];
      assert m > 0 ==> Follows(s, Ranks(l), c, m);
      assert s[x] == pred && pred in c && Ranks(l)[pred] == x;
    }
  }

  /** The byte whose rows of the first column contain row y is the byte of the row y links to. */
  lemma {:induction false} SameRow(l: seq<byte>, t: seq<int>, y: nat, x: int, c: byte)
    requires y < |l| && 0 <= x < |l|
    requires UndoesRank(l, t)
    requires Rank(l, x) == y
    requires Below(l, c) <= y < Below(l, c as int + 1)
    ensures t[y] == x && l[x] == c
  {
    RankInBucket(l, x);
    if l[x] < c {
      BelowMono(l, l[x] as int + 1, c);
    } else if l[x] > c {
      BelowMono(l, c as int + 1, l[x]);
    }
  }

  /** Binary search for the byte whose rows of the first column contain indx. */
  method IndexIntoF(indx: nat, cftab: array<int>, ghost l: seq<byte>) returns (c: byte)
    requires cftab.Length == 257
    requires indx < |l|
    requires forall i :: 0 <= i <= 256 ==> cftab[i] == Below(l, i)
    ensures Below(l, c) <= indx < Below(l, c as int + 1)
  {
    BelowEnds(l);
    var nb, na := 0, 256;
    while na - nb != 1
      invariant 0 <= nb < na <= 256
      invariant cftab[nb] <= indx < cftab[na]
      decreases na - nb
    {
      var mid := (nb + na) / 2;
      if indx >= cftab[mid] {
        nb := mid;
      } else {
        na := mid;
      }
    }
    c := nb;
  }
}
