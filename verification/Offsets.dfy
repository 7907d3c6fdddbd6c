/** Signed 64-bit numbers as eight bytes: magnitude, least significant byte first, and a sign bit. */
module Offsets {
  import opened Arith
  import opened Bytes

  const OFF_LEN: nat := 8
  const OFF_LIMIT: int := 0x8000_0000_0000_0000

  /** The n bytes of y, least significant first. */
  function Little(y: nat, n: nat): (s: seq<byte>)
    ensures |s| == n
    decreases n
  {
    if n == 0 then [] else [y % 256] + Little(y / 256, n - 1)
  }

  function FromLittle(s: seq<byte>): nat {
    if s == [] then 0 else s[0] + 256 * FromLittle(s[1..])
  }

  /** 256 to the power n. */
  ghost function Pow256(n: nat): (p: nat)
    ensures p > 0
  {
    if n == 0 then 1 else 256 * Pow256(n - 1)
  }

  lemma {:induction false} LittleBack(y: nat, n: nat)
    requires y < Pow256(n)
    ensures FromLittle(Little(y, n)) == y
    decreases n
  {
    if n > 0 {
      LittleBack(y / 256, n - 1);
      assert Little(y, n)[1..] == Little(y / 256, n - 1);
    }
  }

  /** The last of n bytes is the number divided by all the lower ones. */
  lemma {:induction false} TopOfLittle(y: nat, n: nat)
    requires n > 0 && 2 * y < Pow256(n)
    ensures Little(y, n)[n - 1] < 128
    decreases n
  {
    if n > 1 {
      assert 2 * (y / 256) < Pow256(n - 1);
      TopOfLittle(y / 256, n - 1);
    }
  }

  /** offtout. */
  function OffOut(x: int): (s: seq<byte>)
    requires -OFF_LIMIT < x < OFF_LIMIT
    ensures |s| == OFF_LEN
  {
    var s := Little(if x < 0 then -x else x, OFF_LEN);
    if x < 0 && s[7] < 128 then s[7 := s[7] as int + 128] else s
  }

  /** offtin. */
  function OffIn(s: seq<byte>): int
    requires |s| == OFF_LEN
  {
    if s[7] < 128 then FromLittle(s) else -(FromLittle(s[7 := s[7] - 128]) as int)
  }

  lemma {:induction false} EightBytes()
    ensures Pow256(OFF_LEN) == 2 * OFF_LIMIT
  {
    assert Pow256(4) == 0x1_0000_0000;
    assert Pow256(8) == 256 * (256 * (256 * (256 * Pow256(4))));
  }

  /** Every offset survives being written and read. */
  lemma {:induction false} OffBack(x: int)
    requires -OFF_LIMIT < x < OFF_LIMIT
    ensures OffIn(OffOut(x)) == x
  {
    var y := if x < 0 then -x else x;
    var s := Little(y, OFF_LEN);
    EightBytes();
    LittleBack(y, OFF_LEN);
    TopOfLittle(y, OFF_LEN);
    if x < 0 {
      assert s[7 := s[7] as int + 128][7 := s[7]] == s;
    }
  }
}
