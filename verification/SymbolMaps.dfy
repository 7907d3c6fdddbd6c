/** The map between bytes and the dense numbering of the bytes that occur in a block. */
module SymbolMaps {
  import opened Bytes

  /** How many bytes below n are in use. */
  ghost function Used(u: seq<bool>, n: nat): (r: nat)
    requires n <= |u|
    ensures r <= n
  {
    if n == 0 then 0 else Used(u, n - 1) + if u[n - 1] then 1 else 0
  }

  lemma {:induction false} UsedMono(u: seq<bool>, m: nat, n: nat)
    requires m <= n <= |u|
    ensures Used(u, m) <= Used(u, n)
    decreases n
  {
    if m < n {
      UsedMono(u, m, n - 1);
    }
  }

  lemma {:induction false} UsedBelow(u: seq<bool>, x: nat)
    requires x < |u| && u[x]
    ensures Used(u, x) < Used(u, |u|)
  {
    UsedMono(u, x + 1, |u|);
  }

  ghost predicate AllUsed(u: seq<bool>, l: seq<byte>) {
    |u| == 256 && forall i :: 0 <= i < |l| ==> u[l[i]]
  }

  /** A column written in the dense numbering. */
  ghost function Dense(u: seq<bool>, l: seq<byte>): (c: seq<byte>)
    requires |u| == 256
    ensures |c| == |l| && forall i :: 0 <= i < |l| ==> c[i] == Used(u, l[i])
  {
    seq(|l|, i requires 0 <= i < |l| => Used(u, l[i]))
  }

  /** m gives the byte for each dense number. */
  ghost predicate Inverts(m: seq<byte>, u: seq<bool>) {
    |m| == |u| == 256 && forall x :: 0 <= x < 256 && u[x] ==> m[Used(u, x)] == x
  }

  /** The decoder's translation of a dense column back to bytes. */
  ghost function Translate(m: seq<byte>, c: seq<byte>): (l: seq<byte>)
    requires |m| == 256
    ensures |l| == |c| && forall i :: 0 <= i < |c| ==> l[i] == m[c[i]]
  {
    seq(|c|, i requires 0 <= i < |c| => m[c[i]])
  }

  lemma {:induction false} DenseThenTranslate(m: seq<byte>, u: seq<bool>, l: seq<byte>)
    requires Inverts(m, u) && AllUsed(u, l)
    ensures Translate(m, Dense(u, l)) == l
  {
    forall i | 0 <= i < |l|
      ensures Translate(m, Dense(u, l))[i] == l[i]
    {
      assert u[l[i]];
    }
  }

  method MakeMapsE(inUse: array<bool>, unseqToSeq: array<byte>) returns (nInUse: nat)
    requires inUse.Length == 256 == unseqToSeq.Length
    modifies unseqToSeq
    ensures nInUse == Used(inUse[..], 256)
    ensures forall x :: 0 <= x < 256 && inUse[x] ==> unseqToSeq[x] == Used(inUse[..], x)
  {
    nInUse := 0;
    var i := 0;
    while i < 256
      invariant 0 <= i <= 256 && nInUse == Used(inUse[..], i)
      invariant forall x :: 0 <= x < i && inUse[x] ==> unseqToSeq[x] == Used(inUse[..], x)
    {
      if inUse[i] {
        unseqToSeq[i] := nInUse;
        nInUse := nInUse + 1;
      }
      i := i + 1;
    }
  }

  method MakeMapsD(inUse: array<bool>, seqToUnseq: array<byte>) returns (nInUse: nat)
    requires inUse.Length == 256 == seqToUnseq.Length
    modifies seqToUnseq
    ensures nInUse == Used(inUse[..], 256)
    ensures Inverts(seqToUnseq[..], inUse[..])
  {
    ghost var u := inUse[..];
    nInUse := 0;
    var i := 0;
    while i < 256
      invariant 0 <= i <= 256 && nInUse == Used(u, i)
      invariant forall x :: 0 <= x < i && u[x] ==> Used(u, x) < nInUse && seqToUnseq[Used(u, x)] == x
    {
      if inUse[i] {
        seqToUnseq[nInUse] := i;
        nInUse := nInUse + 1;
      }
      i := i + 1;
    }
  }

  /** Every byte of the block is marked as in use. */
  ghost predicate MarksAll(u: seq<bool>, block: seq<byte>) {
    |u| == 256 && forall i :: 0 <= i < |block| ==> u[block[i]]
  }
}
