/** Counting the bytes of a column: how often c occurs, and how many bytes are below c. */
module Counting {
  import opened Bytes
  import opened Permutations

  ghost function Count(s: seq<byte>, c: int): nat {
    if s == [] then 0
    else Count(s[..|s| - 1], c) + if s[|s| - 1] == c then 1 else 0
  }

  ghost function Below(s: seq<byte>, c: int): nat {
    if s == [] then 0
    else Below(s[..|s| - 1], c) + if s[|s| - 1] < c then 1 else 0
  }

  lemma {:induction false} BelowNext(s: seq<byte>, c: int)
    ensures Below(s, c + 1) == Below(s, c) + Count(s, c)
  {
    if s != [] {
      BelowNext(s[..|s| - 1], c);
    }
  }

  lemma {:induction false} BelowEnds(s: seq<byte>)
    ensures Below(s, 0) == 0 && Below(s, 256) == |s|
  {
    if s != [] {
      BelowEnds(s[..|s| - 1]);
    }
  }

  lemma {:induction false} BelowMono(s: seq<byte>, c: int, d: int)
    requires c <= d
    ensures Below(s, c) <= Below(s, d) <= |s|
  {
    if s != [] {
      BelowMono(s[..|s| - 1], c, d);
    }
  }

  lemma {:induction false} CountAppend(s: seq<byte>, t: seq<byte>, c: int)
    ensures Count(s + t, c) == Count(s, c) + Count(t, c)
  {
    if t == [] {
      assert s + t == s;
    } else {
      CountAppend(s, t[..|t| - 1], c);
      assert (s + t)[..|s + t| - 1] == s + t[..|t| - 1];
    }
  }

  lemma {:induction false} CountPrefix(s: seq<byte>, i: nat, j: nat, c: int)
    requires i <= j <= |s|
    ensures Count(s[..i], c) <= Count(s[..j], c)
  {
    assert s[..j] == s[..i] + s[i..j];
    CountAppend(s[..i], s[i..j], c);
  }

  lemma {:induction false} CountStep(s: seq<byte>, i: nat, c: int)
    requires i < |s|
    ensures Count(s[..i + 1], c) == Count(s[..i], c) + if s[i] == c then 1 else 0
  {
    assert s[..i + 1][..i] == s[..i];
  }

  /** Row i of the last column is row Rank(l, i) of the first column: sort by byte, keep ties in order. */
  ghost function Rank(l: seq<byte>, i: nat): nat
    requires i < |l|
  {
    Below(l, l[i]) + Count(l[..i], l[i])
  }

  ghost predicate Before(l: seq<byte>, i: nat, j: nat)
    requires i < |l| && j < |l|
  {
    l[i] < l[j] || (l[i] == l[j] && i < j)
  }

  lemma {:induction false} RankInBucket(l: seq<byte>, i: nat)
    requires i < |l|
    ensures Below(l, l[i]) <= Rank(l, i) < Below(l, l[i] as int + 1) <= |l|
  {
    CountStep(l, i, l[i]);
    CountPrefix(l, i + 1, |l|, l[i]);
    assert l[..|l|] == l;
    BelowNext(l, l[i]);
    BelowMono(l, l[i] as int + 1, 256);
  }

  /** Ranks follow the order "byte first, then row". */
  lemma {:induction false} RankOrder(l: seq<byte>, i: nat, j: nat)
    requires i < |l| && j < |l|
    ensures Rank(l, i) < Rank(l, j) <==> Before(l, i, j)
  {
    RankForward(l, i, j);
    RankForward(l, j, i);
  }

  lemma {:induction false} RankForward(l: seq<byte>, i: nat, j: nat)
    requires i < |l| && j < |l|
    ensures Before(l, i, j) ==> Rank(l, i) < Rank(l, j)
  {
    RankInBucket(l, i);
    RankInBucket(l, j);
    if l[i] < l[j] {
      BelowMono(l, l[i] as int + 1, l[j]);
    } else if l[i] == l[j] && i < j {
      CountStep(l, i, l[i]);
      CountPrefix(l, i + 1, j, l[i]);
    }
  }

  lemma {:induction false} RanksInRange(l: seq<byte>)
    ensures forall i :: 0 <= i < |l| ==> 0 <= Rank(l, i) < |l|
  {
    forall i | 0 <= i < |l|
      ensures 0 <= Rank(l, i) < |l|
    {
      RankInBucket(l, i);
    }
  }

  ghost function Ranks(l: seq<byte>): seq<int> {
    seq(|l|, i requires 0 <= i < |l| => Rank(l, i))
  }

  lemma {:induction false} RanksArePerm(l: seq<byte>)
    ensures IsPerm(Ranks(l), |l|)
  {
    RanksInRange(l);
    forall i, j | 0 <= i < j < |l|
      ensures Ranks(l)[i] != Ranks(l)[j]
    {
      RankOrder(l, i, j);
      RankOrder(l, j, i);
    }
    DistinctPerm(Ranks(l), |l|);
  }

  /** t undoes Rank: t[k] is the row of the last column that the first column holds at row k. */
  ghost predicate UndoesRank(l: seq<byte>, t: seq<int>) {
    && |t| == |l|
    && forall i :: 0 <= i < |l| ==> 0 <= Rank(l, i) < |l| && t[Rank(l, i)] == i
  }

  lemma {:induction false} UndoneRank(l: seq<byte>, t: seq<int>, k: nat)
    requires UndoesRank(l, t)
    requires k < |l|
    ensures 0 <= t[k] < |l| && Rank(l, t[k]) == k
  {
    RanksArePerm(l);
    var i := PermOnto(Ranks(l), |l|, k);
    assert Ranks(l)[i] == Rank(l, i);
  }

  lemma {:induction false} UndoesRankPerm(l: seq<byte>, t: seq<int>)
    requires UndoesRank(l, t)
    ensures IsPerm(t, |l|)
  {
    forall k | 0 <= k < |l|
      ensures 0 <= t[k] < |l| && Rank(l, t[k]) == k
    {
      UndoneRank(l, t, k);
    }
    DistinctPerm(t, |l|);
  }
}
