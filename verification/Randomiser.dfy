/** Randomised blocks, which old encoders wrote: at distances that a table gives the lowest bit of a byte is flipped. */
module Randomiser {
  import opened Arith
  import opened Bytes
  import opened Lookups

  const TABLE_SIZE: nat := 512

  function Flip(b: byte): (r: byte)
    ensures r != b && r / 2 == b / 2
  {
    if b % 2 == 0 then b + 1 else b - 1
  }

  /** The sum of the first m distances; the table is used again and again. */
  ghost function Start(random: nat -> pos, m: nat): nat {
    if m == 0 then 0 else Start(random, m - 1) + random((m - 1) % TABLE_SIZE)
  }

  lemma {:induction false} StartGrows(random: nat -> pos, m: nat, n: nat)
    requires m < n
    ensures Start(random, m) < Start(random, n)
    decreases n
  {
    if m < n - 1 {
      StartGrows(random, m, n - 1);
    }
  }

  /** Byte i is the last but one of stretch m. */
  ghost predicate LastButOne(random: nat -> pos, m: nat, i: nat) {
    Start(random, m) <= i == Start(random, m + 1) - 2
  }

  ghost predicate Flipped(random: nat -> pos, i: nat) {
    exists m: nat :: LastButOne(random, m, i)
  }

  /** The bytes of a block with every second to last byte of a stretch flipped. */
  ghost function Derandomised(random: nat -> pos, s: seq<byte>): (r: seq<byte>)
    ensures |r| == |s| && forall i :: 0 <= i < |s| ==> r[i] == if Flipped(random, i) then Flip(s[i]) else s[i]
  {
    seq(|s|, i requires 0 <= i < |s| => if Flipped(random, i) then Flip(s[i]) else s[i])
  }

  /** i bytes have been taken and m stretches begun. */
  ghost predicate Counted(random: nat -> pos, i: nat, m: nat, rNToGo: int, rTPos: nat) {
    && rNToGo == Start(random, m) - i >= 0 && rTPos == m % TABLE_SIZE
    && (m == 0 ==> i == 0) && (m > 0 ==> Start(random, m - 1) < i)
  }

  lemma {:induction false} NextEntry(m: nat)
    ensures (m + 1) % TABLE_SIZE == if m % TABLE_SIZE + 1 == TABLE_SIZE then 0 else m % TABLE_SIZE + 1
  {
    var q, r := m / TABLE_SIZE, m % TABLE_SIZE;
    if r + 1 == TABLE_SIZE {
      ModUnique(m + 1, TABLE_SIZE, q + 1, 0);
    } else {
      ModUnique(m + 1, TABLE_SIZE, q, r + 1);
    }
  }

  /** BZ_RAND_UPD_MASK. */
  method UpdateMask(random: nat -> pos, rNToGo0: int, rTPos0: nat, ghost i: nat, ghost m0: nat) returns (rNToGo: int, rTPos: nat, ghost m: nat)
    requires Counted(random, i, m0, rNToGo0, rTPos0)
    ensures Counted(random, i + 1, m, rNToGo, rTPos)
    ensures rNToGo == 1 <==> Flipped(random, i)
  {
    rNToGo, rTPos, m := rNToGo0, rTPos0, m0;
    NextEntry(m0);
    if rNToGo == 0 {
      rNToGo := random(rTPos);
      rTPos := rTPos + 1;
      if rTPos == TABLE_SIZE {
        rTPos := 0;
      }
      m := m + 1;
    }
    rNToGo := rNToGo - 1;
    FlippedHere(random, i, m);
  }

  /** Only the stretch that byte i lies in can have it as its last but one. */
  lemma {:induction false} FlippedHere(random: nat -> pos, i: nat, m: nat)
    requires m > 0 && Start(random, m - 1) <= i < Start(random, m)
    ensures Flipped(random, i) <==> i + 2 == Start(random, m)
  {
    if i + 2 == Start(random, m) {
      assert LastButOne(random, m - 1, i);
    }
    if Flipped(random, i) {
      var n: nat :| LastButOne(random, n, i);
      if n + 1 < m - 1 {
        StartGrows(random, n + 1, m - 1);
      } else if m - 1 < n && m < n {
        StartGrows(random, m, n);
      }
    }
  }

  /** BZ_RAND_INIT_MASK, and the mask on every byte that is taken. */
  method Derandomise(random: nat -> pos, s: seq<byte>) returns (r: seq<byte>)
    ensures r == Derandomised(random, s)
  {
    var rNToGo, rTPos := 0, 0;
    ghost var m := 0;
    r := s;
    var i := 0;
    while i < |s|
      invariant 0 <= i <= |s| == |r| && Counted(random, i, m, rNToGo, rTPos)
      invariant forall k :: 0 <= k < i ==> r[k] == Derandomised(random, s)[k]
      invariant forall k :: i <= k < |s| ==> r[k] == s[k]
    {
      rNToGo, rTPos, m := UpdateMask(random, rNToGo, rTPos, i, m);
      if rNToGo == 1 {
        r := r[i := Flip(r[i])];
      }
      i := i + 1;
    }
  }
}
