/** The encoder's move-to-front stage, which overwrites the sorted order with symbols as it reads it. */
module MtfEncoder {
  import opened Bytes
  import opened Counting
  import opened InverseBwt
  import opened MtfRuns
  import opened MtfWindow
  import opened Permutations
  import opened SymbolMaps

  /** arr1 as 32-bit words, low half first. */
  function Word(arr1: seq<int>, i: nat): int
    requires 2 * i + 1 < |arr1|
  {
    arr1[2 * i] + 0x10000 * arr1[2 * i + 1]
  }

  /** From word i on, the overlay still holds the sorted order. */
  ghost predicate HoldsOrder(arr1: seq<int>, p: seq<int>, i: nat) {
    && |arr1| == 2 * |p|
    && forall k :: i <= k < |p| ==> Word(arr1, k) == p[k]
  }

  /** Appends the code of a pending run. */
  method WriteRuns(mtfv: array<int>, wr0: nat, pending: nat) returns (wr: nat)
    requires pending > 0 && wr0 + pending <= mtfv.Length
    modifies mtfv
    ensures wr0 <= wr <= wr0 + pending
    ensures mtfv[..wr] == old(mtfv[..wr0]) + Runs(pending)
    ensures forall k :: wr0 + pending <= k < mtfv.Length ==> mtfv[k] == old(mtfv[k])
  {
    wr := wr0;
    var zPend := pending - 1;
    while true
      invariant 0 <= zPend && wr0 <= wr && wr + zPend + 1 <= wr0 + pending
      invariant mtfv[..wr] + Runs(zPend + 1) == old(mtfv[..wr0]) + Runs(pending)
      invariant forall k :: wr0 + pending <= k < mtfv.Length ==> mtfv[k] == old(mtfv[k])
      decreases zPend
    {
      ghost var before := mtfv[..wr];
      if zPend % 2 == 1 {
        mtfv[wr] := RUNB;
      } else {
        mtfv[wr] := RUNA;
      }
      wr := wr + 1;
      assert mtfv[..wr] == before + [zPend % 2];
      assert before + Runs(zPend + 1) == before + [zPend % 2] + Runs(zPend / 2);
      if zPend < 2 {
        break;
      }
      zPend := (zPend - 2) / 2;
    }
  }

  /** Finds a symbol that is not at the head of the list and moves it there, in one sweep. */
  method MoveUpFront(yy: array<byte>, nInUse: nat, ll: byte) returns (j: nat)
    requires nInUse <= yy.Length && ll in yy[..nInUse] && nInUse > 0 && yy[0] != ll
    modifies yy
    ensures 0 < j < nInUse && j == old(IndexOf(yy[..nInUse], ll))
    ensures yy[..nInUse] == old(MoveToFront(yy[..nInUse], j))
  {
    ghost var s := yy[..nInUse];
    ghost var at := IndexOf(s, ll);
    assert s[0] == yy[0];
    IndexOfEarliest(s, ll);
    var rtmp := yy[1];
    yy[1] := yy[0];
    j := 1;
    while ll != rtmp
      invariant 1 <= j <= at
      invariant rtmp == s[j]
      invariant forall k :: 1 <= k <= j ==> yy[k] == s[k - 1]
      invariant forall k :: j < k < nInUse ==> yy[k] == s[k]
      decreases at - j
    {
      j := j + 1;
      var rtmp2 := rtmp;
      rtmp := yy[j];
      yy[j] := rtmp2;
    }
    yy[0] := rtmp;
    assert yy[..nInUse] == MoveToFront(s, at);
  }

  lemma {:induction false} IndexOfEarliest(s: seq<byte>, x: byte)
    requires x in s
    ensures forall i :: 0 <= i < IndexOf(s, x) ==> s[i] != x
  {
    if s[0] != x {
      IndexOfEarliest(s[1..], x);
      forall i | 0 <= i < IndexOf(s, x)
        ensures s[i] != x
      {
        if i > 0 {
          assert s[i] == s[1..][i - 1];
        }
      }
    }
  }

  /** Sends the pending run, then the position of a symbol that is not at the head, which moves there. */
  method SendOther(mtfv: array<int>, wr0: nat, yy: array<byte>, nInUse: nat, ll: byte, zPend: nat) returns (wr: nat, ghost j: nat)
    requires wr0 + zPend < mtfv.Length
    requires nInUse <= yy.Length && ll in yy[..nInUse] && nInUse > 0 && yy[0] != ll
    modifies mtfv, yy
    ensures wr0 < wr <= wr0 + zPend + 1
    ensures 0 < j < nInUse && j == old(IndexOf(yy[..nInUse], ll))
    ensures mtfv[..wr] == old(mtfv[..wr0]) + Runs(zPend) + [j + 1]
    ensures forall k :: wr0 + zPend + 1 <= k < mtfv.Length ==> mtfv[k] == old(mtfv[k])
    ensures yy[..nInUse] == old(MoveToFront(yy[..nInUse], j))
  {
    wr := wr0;
    if zPend > 0 {
      wr := WriteRuns(mtfv, wr0, zPend);
    }
    assert mtfv[..wr] == old(mtfv[..wr0]) + Runs(zPend);
    var pos := MoveUpFront(yy, nInUse, ll);
    mtfv[wr] := pos + 1;
    wr := wr + 1;
    j := pos;
    assert mtfv[..wr] == old(mtfv[..wr0]) + Runs(zPend) + [j + 1];
  }

  /** With the symbols sent so far, the rest of the column and the pending run give all the symbols. */
  ghost predicate Sending(sent: seq<int>, yy: seq<byte>, rest: seq<byte>, zPend: nat, all: seq<int>) {
    Covers(yy, rest) && sent + Encode(yy, rest, zPend) == all
  }

  lemma {:induction false} SendingOther(sent: seq<int>, yy: seq<byte>, rest: seq<byte>, zPend: nat, all: seq<int>, j: nat)
    requires rest != [] && Sending(sent, yy, rest, zPend, all) && rest[0] != yy[0]
    requires rest[0] in yy && j == IndexOf(yy, rest[0])
    ensures Sending(sent + Runs(zPend) + [j + 1], MoveToFront(yy, j), rest[1..], 0, all)
  {
    CoversMoved(yy, rest, j);
    Regroup(sent, Runs(zPend), [j + 1], Encode(MoveToFront(yy, j), rest[1..], 0));
  }

  lemma {:induction false} Regroup(a: seq<int>, b: seq<int>, c: seq<int>, d: seq<int>)
    ensures a + (b + c + d) == a + b + c + d
  {
  }

  method IotaArray(n: nat) returns (yy: array<byte>)
    requires n <= 256
    ensures fresh(yy) && yy.Length == 256 && yy[..n] == Iota(n)
  {
    yy := new byte[256];
    for k := 0 to n
      invariant forall m :: 0 <= m < k ==> yy[m] == m
    {
      yy[k] := k;
    }
  }

  /** ll_i: the dense number of the byte before the i-th rotation. */
  method NextSymbol(arr1: array<int>, block: array<byte>, unseqToSeq: array<byte>, i: nat,
                    ghost p: seq<int>, ghost u: seq<bool>) returns (ll: byte)
    requires |u| == 256 == unseqToSeq.Length && IsPerm(p, block.Length) && i < block.Length
    requires HoldsOrder(arr1[..], p, i)
    requires AllUsed(u, LastColumn(block[..], p)) && forall x :: 0 <= x < 256 && u[x] ==> unseqToSeq[x] == Used(u, x)
    ensures ll == Dense(u, LastColumn(block[..], p))[i]
  {
    var ptr := arr1[2 * i] + 0x10000 * arr1[2 * i + 1];
    assert ptr == Word(arr1[..], i);
    var j := ptr - 1;
    if j < 0 {
      j := j + block.Length;
    }
    assert LastColumn(block[..], p)[i] == block[j];
    ll := unseqToSeq[block[j]];
  }

  /**
   * generateMTFValues: the symbols overwrite the sorted order in place. No word is overwritten
   * before it has been read, because there are never more symbols than bytes done.
   */
  method Generate(arr1: array<int>, block: array<byte>, unseqToSeq: array<byte>, nInUse: nat,
                  ghost p: seq<int>, ghost u: seq<bool>) returns (nMTF: nat)
    requires 0 < block.Length && |u| == 256 == unseqToSeq.Length && nInUse == Used(u, 256)
    requires IsPerm(p, block.Length) && HoldsOrder(arr1[..], p, 0)
    requires AllUsed(u, LastColumn(block[..], p)) && forall x :: 0 <= x < 256 && u[x] ==> unseqToSeq[x] == Used(u, x)
    modifies arr1
    ensures 0 < nMTF <= block.Length + 1 <= arr1.Length
    ensures Covers(Iota(nInUse), Dense(u, LastColumn(block[..], p)))
    ensures arr1[..nMTF] == Encode(Iota(nInUse), Dense(u, LastColumn(block[..], p)), 0) + [nInUse + 1]
  {
    ghost var c := Dense(u, LastColumn(block[..], p));
    var nblock := block.Length;
    IotaCovers(u, LastColumn(block[..], p));
    ghost var all := Encode(Iota(nInUse), c, 0);
    var yy := IotaArray(nInUse);
    var wr: nat, zPend: nat := 0, 0;
    var i := 0;
    assert c[0..] == c && arr1[..0] + all == all;
    while i < nblock
      invariant 0 <= i <= nblock && wr + zPend <= i
      invariant HoldsOrder(arr1[..], p, i)
      invariant Sending(arr1[..wr], yy[..nInUse], c[i..], zPend, all)
    {
      var ll := NextSymbol(arr1, block, unseqToSeq, i, p, u);
      assert c[i..][0] == ll && c[i..][1..] == c[i + 1..];
      wr, zPend := SendOne(arr1, wr, yy, nInUse, ll, zPend, i, c[i..], p, all);
      i := i + 1;
    }
    assert c[nblock..] == [];
    nMTF := SendEnd(arr1, wr, zPend, nInUse + 1);
  }

  /** One byte of the column: a head symbol lengthens the pending run, any other is sent. */
  method SendOne(arr1: array<int>, wr0: nat, yy: array<byte>, nInUse: nat, ll: byte, zPend0: nat, ghost i: nat,
                 ghost rest: seq<byte>, ghost p: seq<int>, ghost all: seq<int>) returns (wr: nat, zPend: nat)
    requires 0 < nInUse <= yy.Length && i < |p| && wr0 + zPend0 <= i
    requires HoldsOrder(arr1[..], p, i)
    requires rest != [] && rest[0] == ll && Sending(arr1[..wr0], yy[..nInUse], rest, zPend0, all)
    modifies arr1, yy
    ensures wr + zPend <= i + 1 <= arr1.Length
    ensures HoldsOrder(arr1[..], p, i + 1)
    ensures Sending(arr1[..wr], yy[..nInUse], rest[1..], zPend, all)
  {
    assert yy[0] == yy[..nInUse][0];
    if yy[0] == ll {
      return wr0, zPend0 + 1;
    }
    ghost var was := arr1[..];
    SendingOther(arr1[..wr0], yy[..nInUse], rest, zPend0, all, IndexOf(yy[..nInUse], ll));
    ghost var j;
    wr, j := SendOther(arr1, wr0, yy, nInUse, ll, zPend0);
    zPend := 0;
    KeepsOrder(was, arr1[..], p, i);
  }

  /** The last pending run and the end-of-block symbol. */
  method SendEnd(mtfv: array<int>, wr0: nat, zPend: nat, EOB: int) returns (wr: nat)
    requires wr0 + zPend < mtfv.Length
    modifies mtfv
    ensures wr0 < wr <= wr0 + zPend + 1
    ensures mtfv[..wr] == old(mtfv[..wr0]) + Runs(zPend) + [EOB]
  {
    wr := wr0;
    if zPend > 0 {
      wr := WriteRuns(mtfv, wr0, zPend);
    }
    assert mtfv[..wr] == old(mtfv[..wr0]) + Runs(zPend);
    mtfv[wr] := EOB;
    wr := wr + 1;
  }

  lemma {:induction false} KeepsOrder(was: seq<int>, now: seq<int>, p: seq<int>, i: nat)
    requires HoldsOrder(was, p, i) && |now| == |was|
    requires forall k :: i + 1 <= k < |was| ==> now[k] == was[k]
    ensures HoldsOrder(now, p, i + 1)
  {
    forall k | i + 1 <= k < |p|
      ensures Word(now, k) == p[k]
    {
      assert Word(was, k) == p[k];
    }
  }

  lemma {:induction false} IotaCovers(u: seq<bool>, l: seq<byte>)
    requires AllUsed(u, l) && |l| > 0
    ensures Used(u, 256) > 0 && Covers(Iota(Used(u, 256)), Dense(u, l))
  {
    UsedBelow(u, l[0]);
    forall i | 0 <= i < |l|
      ensures Dense(u, l)[i] in Iota(Used(u, 256))
    {
      UsedBelow(u, l[i]);
      assert Iota(Used(u, 256))[Used(u, l[i])] == Dense(u, l)[i];
    }
  }
}
