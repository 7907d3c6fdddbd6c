/** The type and count that begin a record: five bits in the first byte, seven in each that follows. */
module EcmCount {
  import opened Bits
  import opened Bytes
  import opened Galois

  const TWO32: nat := 0x1_0000_0000

  function Enc(i: nat): octet
    requires i < 256
  {
    i as octet
  }

  function Dec(o: octet): (i: nat)
    ensures i < 256
  {
    o as int
  }

  lemma {:induction false} DecEnc(i: nat)
    requires i < 256
    ensures Dec(Enc(i)) == i
  {
    var v := OctetOf(i);
  }

  /** The bytes after the first, for what is left of the count. */
  function Groups(c: nat): seq<octet> {
    if c == 0 then [] else [Enc(GroupByte(c))] + Groups(c / 128)
  }

  /** n is one less than the count. */
  function TypeCount(kind: nat, n: nat): seq<octet>
    requires kind < 4
  {
    [Enc(FirstByte(kind, n))] + Groups(n / 32)
  }

  datatype Header = Header(kind: nat, n: nat, rest: seq<octet>)

  /** The weight of group j: 2 to the power 5 + 7 * j. */
  function Weighed(c: nat, j: nat): nat {
    if j == 0 then c * 0x20 else if j == 1 then c * 0x1000 else if j == 2 then c * 0x8_0000 else c * 0x400_0000
  }

  /** What is left of 32 bits at group j. */
  function Limit(j: nat): nat {
    if j == 0 then 0x800_0000 else if j == 1 then 0x10_0000 else if j == 2 then 0x2000 else 0x40
  }

  /** The following bytes, when num and j groups have been read; c is the byte before. */
  ghost function ReadGroups(c: nat, num: nat, j: nat, s: seq<octet>): Option<(nat, seq<octet>)>
    decreases |s|
  {
    if c < 128 then Some((num, s))
    else if s == [] then None
    else
      var x := Dec(s[0]);
      if j > 3 || x % 128 >= Limit(j) then None else ReadGroups(x, num + Weighed(x % 128, j), j + 1, s[1..])
  }

  ghost function ReadHeader(s: seq<octet>): Option<Header> {
    if s == [] then None
    else
      var c := Dec(s[0]);
      match ReadGroups(c, c / 4 % 32, 0, s[1..])
      case Some(r) => Some(Header(c % 4, r.0, r.1))
      case None => None
  }

  lemma {:induction false} OneGroup(c: nat, j: nat)
    requires j <= 3 && c < Limit(j)
    ensures Weighed(c % 128, j) + (if j < 3 then Weighed(c / 128, j + 1) else 0) == Weighed(c, j)
    ensures if j < 3 then c / 128 < Limit(j + 1) else c / 128 == 0
    ensures c % 128 < Limit(j) && (c >= 128 <==> c / 128 > 0)
  {
  }

  function GroupByte(c: nat): (x: nat)
    ensures x < 256 && x % 128 == c % 128 && (x >= 128 <==> c >= 128)
  {
    (if c >= 128 then 128 else 0) + c % 128
  }

  lemma {:induction false} ReadOne(before: nat, num: nat, j: nat, x: nat, tail: seq<octet>)
    requires before >= 128 && x < 256 && j <= 3 && x % 128 < Limit(j)
    ensures ReadGroups(before, num, j, [Enc(x)] + tail) == ReadGroups(x, num + Weighed(x % 128, j), j + 1, tail)
  {
    DecEnc(x);
    var s := [Enc(x)] + tail;
    assert s[0] == Enc(x) && s[1..] == tail;
  }

  /** Groups read back, up to counts of 32 bits. */
  lemma {:induction false} GroupsBack(before: nat, c: nat, num: nat, j: nat, rest: seq<octet>)
    requires (before >= 128 <==> c > 0) && (if j <= 3 then c < Limit(j) else c == 0)
    ensures ReadGroups(before, num, j, Groups(c) + rest) == Some((num + if j <= 3 then Weighed(c, j) else 0, rest))
    decreases c
  {
    if c == 0 {
      assert Groups(c) + rest == rest;
    } else {
      var x := GroupByte(c);
      OneGroup(c, j);
      GroupsBack(x, c / 128, num + Weighed(c % 128, j), j + 1, rest);
      ReadOne(before, num, j, x, Groups(c / 128) + rest);
      GroupsCons(c, rest);
    }
  }

  lemma {:induction false} GroupsCons(c: nat, rest: seq<octet>)
    requires c > 0
    ensures Groups(c) + rest == [Enc(GroupByte(c))] + (Groups(c / 128) + rest)
  {
    Assoc([Enc(GroupByte(c))], Groups(c / 128), rest);
  }

  function FirstByte(kind: nat, n: nat): (x: nat)
    requires kind < 4
    ensures x < 256 && x % 4 == kind && x / 4 % 32 == n % 32 && (x >= 128 <==> n >= 32)
  {
    (if n >= 32 then 128 else 0) + n % 32 * 4 + kind
  }

  /** Every type and every 32-bit count reads back, the end mark 0xFFFFFFFF included. */
  lemma {:induction false} HeaderBack(kind: nat, n: nat, rest: seq<octet>)
    requires kind < 4 && n < TWO32
    ensures ReadHeader(TypeCount(kind, n) + rest) == Some(Header(kind, n, rest))
  {
    var x := FirstByte(kind, n);
    DecEnc(x);
    var s := TypeCount(kind, n) + rest;
    assert s[0] == Enc(x) && s[1..] == Groups(n / 32) + rest;
    GroupsBack(x, n / 32, n % 32, 0, rest);
  }

  /** One less, in 32-bit arithmetic. */
  function Wrapped(count: nat): (n: nat)
    ensures count == 0 ==> n == TWO32 - 1
    ensures 1 <= count < TWO32 ==> n == count - 1
  {
    (count + TWO32 - 1) % TWO32
  }

  /** write_type_count; a count of zero wraps to the end mark. */
  method WriteTypeCount(kind: nat, count0: nat) returns (s: seq<octet>)
    requires kind < 4 && count0 < TWO32
    ensures s == TypeCount(kind, Wrapped(count0))
  {
    var n := Wrapped(count0);
    ghost var goal := TypeCount(kind, n);
    s := [Enc(FirstByte(kind, n))];
    var count: nat := n / 32;
    while count != 0
      invariant s + Groups(count) == goal
    {
      Assoc(s, [Enc(GroupByte(count))], Groups(count / 128));
      s := s + [Enc(GroupByte(count))];
      count := count / 128;
    }
    assert s + [] == s;
  }

  /** The loop of unecmify that reads a record header. */
  method ReadTypeCount(s: seq<octet>) returns (r: Option<Header>)
    ensures r == ReadHeader(s)
  {
    if s == [] {
      return None;
    }
    var c: nat := Dec(s[0]);
    var kind: nat, num: nat, j: nat, rest := c % 4, c / 4 % 32, 0, s[1..];
    ghost var goal := ReadGroups(c, num, 0, rest);
    while c >= 128
      invariant ReadGroups(c, num, j, rest) == goal
      decreases |rest|
    {
      if rest == [] {
        return None;
      }
      c := Dec(rest[0]);
      if j > 3 || c % 128 >= Limit(j) {
        return None;
      }
      num := num + Weighed(c % 128, j);
      j := j + 1;
      rest := rest[1..];
    }
    r := Some(Header(kind, num, rest));
  }
}
