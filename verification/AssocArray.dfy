/** A sorted array of keys that behaves as a map, with a search that halves a power of two. */
module AssocArray {
  import opened Arith
  import opened Bytes

  // ---- strings in order ----

  /** strcmp. */
  function Compare(a: string, b: string): int {
    if a == [] then (if b == [] then 0 else -1)
    else if b == [] then 1
    else if a[0] != b[0] then a[0] as int - b[0] as int
    else Compare(a[1..], b[1..])
  }

  predicate Less(a: string, b: string) {
    Compare(a, b) < 0
  }

  lemma {:induction false} CompareSame(a: string, b: string)
    ensures Compare(a, b) == 0 <==> a == b
  {
    if a != [] && b != [] {
      assert a == [a[0]] + a[1..] && b == [b[0]] + b[1..];
      if a[0] == b[0] {
        CompareSame(a[1..], b[1..]);
      }
    }
  }

  lemma {:induction false} CompareSwap(a: string, b: string)
    ensures Compare(a, b) < 0 <==> Compare(b, a) > 0
  {
    if a != [] && b != [] && a[0] == b[0] {
      CompareSwap(a[1..], b[1..]);
    }
  }

  lemma {:induction false} LessTrans(a: string, b: string, c: string)
    requires Less(a, b) && Less(b, c)
    ensures Less(a, c)
  {
    if a != [] && b != [] && c != [] && a[0] == b[0] && b[0] == c[0] {
      LessTrans(a[1..], b[1..], c[1..]);
    }
  }

  // ---- sorted keys ----

  ghost predicate Sorted(keys: seq<string>) {
    forall i, j {:trigger Less(keys[i], keys[j])} :: 0 <= i < j < |keys| ==> Less(keys[i], keys[j])
  }

  /** How many keys come before this one. */
  ghost function Pos(keys: seq<string>, key: string): (p: nat)
    ensures p <= |keys|
  {
    if keys == [] then 0 else Pos(keys[..|keys| - 1], key) + if Less(keys[|keys| - 1], key) then 1 else 0
  }

  ghost predicate Divides(keys: seq<string>, key: string, p: nat) {
    p <= |keys| && forall i {:trigger Less(keys[i], key)} :: 0 <= i < |keys| ==> (Less(keys[i], key) <==> i < p)
  }

  lemma {:induction false} SortedPrefix(keys: seq<string>, n: nat)
    requires Sorted(keys) && n <= |keys|
    ensures Sorted(keys[..n])
  {
    var ks := keys[..n];
    forall i, j | 0 <= i < j < n
      ensures Less(ks[i], ks[j])
    {
      assert Less(keys[i], keys[j]);
    }
  }

  /** In a sorted array they are exactly the first ones. */
  lemma {:induction false} PosDivides(keys: seq<string>, key: string)
    requires Sorted(keys)
    ensures Divides(keys, key, Pos(keys, key))
  {
    if keys != [] {
      var n := |keys| - 1;
      var ks := keys[..n];
      SortedPrefix(keys, n);
      PosDivides(ks, key);
      forall i | 0 <= i < |keys|
        ensures Less(keys[i], key) <==> i < Pos(keys, key)
      {
        if i < n {
          assert Less(ks[i], key) <==> i < Pos(ks, key);
          if Less(keys[n], key) {
            assert Less(keys[i], keys[n]);
            LessTrans(keys[i], keys[n], key);
          }
        } else if Less(keys[n], key) && n > 0 {
          assert Less(keys[n - 1], keys[n]);
          LessTrans(keys[n - 1], keys[n], key);
          assert Less(ks[n - 1], key) <==> n - 1 < Pos(ks, key);
        }
      }
    }
  }

  /** A key that is present stands at its position. */
  lemma {:induction false} PresentAt(keys: seq<string>, key: string, i: nat)
    requires Sorted(keys) && i < |keys| && keys[i] == key
    ensures i == Pos(keys, key)
  {
    PosDivides(keys, key);
    CompareSame(key, key);
    assert !Less(keys[i], key);
    var p := Pos(keys, key);
    assert !Less(keys[p], key);
  }

  /** How the key at loc compares tells on which side of it the position lies. */
  lemma {:induction false} Direction(keys: seq<string>, key: string, loc: nat)
    requires Sorted(keys) && loc < |keys|
    ensures Compare(keys[loc], key) == 0 <==> keys[loc] == key
    ensures Compare(keys[loc], key) < 0 <==> loc < Pos(keys, key)
    ensures keys[loc] == key ==> loc == Pos(keys, key)
    ensures key in keys && keys[loc] != key && loc >= Pos(keys, key) ==> loc > Pos(keys, key)
  {
    PosDivides(keys, key);
    CompareSame(keys[loc], key);
    assert Less(keys[loc], key) <==> loc < Pos(keys, key);
    if keys[loc] == key {
      PresentAt(keys, key, loc);
    }
    if key in keys {
      var i :| 0 <= i < |keys| && keys[i] == key;
      PresentAt(keys, key, i);
    }
  }

  // ---- the starting step ----

  /** x with its lowest set bit cleared: x & (x - 1). */
  function ClearLowest(x: nat): (y: nat)
    ensures x > 0 ==> y < x
  {
    if x == 0 then 0 else if x % 2 == 1 then x - 1 else 2 * ClearLowest(x / 2)
  }

  /** The largest power of two that is at most x. */
  ghost function Top(x: nat): (p: nat)
    requires x > 0
    ensures p <= x < 2 * p
  {
    if x == 1 then 1 else 2 * Top(x / 2)
  }

  ghost predicate IsPower(p: nat) {
    exists k: nat {:trigger Pow2(k)} :: p == Pow2(k)
  }

  lemma {:induction false} TopIsPower(x: nat)
    requires x > 0
    ensures IsPower(Top(x))
  {
    if x == 1 {
      assert 1 == Pow2(0);
    } else {
      TopIsPower(x / 2);
      var k: nat :| Top(x / 2) == Pow2(k);
      assert Top(x) == Pow2(k + 1);
    }
  }

  /** Clearing a bit keeps the top one, until it is the only one. */
  lemma {:induction false} ClearKeepsTop(x: nat)
    requires x > 0
    ensures ClearLowest(x) > 0 ==> Top(ClearLowest(x)) == Top(x)
    ensures ClearLowest(x) == 0 <==> x == Top(x)
  {
    if x % 2 == 0 {
      ClearKeepsTop(x / 2);
    } else if x > 1 {
      assert (x - 1) / 2 == x / 2;
    }
  }

  /** bitround: up to the next power of two. */
  method BitRound(x0: nat) returns (r: nat)
    ensures x0 == 0 ==> r == 0
    ensures x0 > 0 ==> IsPower(r) && x0 <= r < 2 * x0
  {
    var x := x0;
    if x > 0 {
      TopIsPower(x);
      ClearKeepsTop(x);
    }
    if ClearLowest(x) == 0 {
      return x;
    }
    while ClearLowest(x) != 0
      invariant x > 0 && Top(x) == Top(x0)
      decreases x
    {
      ClearKeepsTop(x);
      x := ClearLowest(x);
    }
    ClearKeepsTop(x);
    DoublePower(x);
    r := 2 * x;
  }

  lemma {:induction false} DoublePower(p: nat)
    requires IsPower(p)
    ensures IsPower(2 * p)
  {
    var k: nat :| p == Pow2(k);
    assert 2 * p == Pow2(k + 1);
  }

  lemma {:induction false} HalfPower(p: nat)
    requires IsPower(p)
    ensures p == 1 || (p % 2 == 0 && IsPower(p / 2))
  {
    var k: nat :| p == Pow2(k);
    if k > 0 {
      assert p / 2 == Pow2(k - 1);
    }
  }

  // ---- the search ----

  /** Where the search stands: the position is within skip of loc. */
  ghost predicate Near(keys: seq<string>, key: string, loc: int, skip: nat) {
    var p := Pos(keys, key);
    && loc >= 0 && loc - skip < p && p + (if key in keys then 1 else 0) <= loc + skip
  }

  /** Position and skip after the first turn; loc never runs off the low end again. */
  ghost predicate Searching(keys: seq<string>, key: string, loc: int, skip: nat, first: bool) {
    && (skip == 0 || IsPower(skip))
    && (if skip == 0 then Settled(keys, key, loc) else Near(keys, key, loc, skip))
    && (if first then loc == 0 else loc >= skip)
  }

  /** At the end loc is the position or the place before it, and the key is not there. */
  ghost predicate Settled(keys: seq<string>, key: string, loc: int) {
    key !in keys && 0 <= loc && (loc == Pos(keys, key) || loc + 1 == Pos(keys, key))
  }

  /** How the search moves on. */
  method Move(keys: seq<string>, key: string, loc0: nat, skip0: nat, first: bool) returns (found: bool, loc: int, skip: nat)
    requires Sorted(keys) && Searching(keys, key, loc0, skip0, first) && skip0 > 0
    ensures found ==> loc == loc0 < |keys| && keys[loc0] == key
    ensures !found ==> skip == skip0 / 2
    ensures !found && loc >= 0 ==> Searching(keys, key, loc, skip, first && loc == 0 && skip == 0)
    ensures !found && loc < 0 ==> key !in keys && Pos(keys, key) == 0
  {
    var dir := 1;
    HalfPower(skip0);
    if loc0 < |keys| {
      dir := Compare(keys[loc0], key);
      Direction(keys, key, loc0);
    } else {
      BeyondEnd(keys, key, loc0);
    }
    if dir == 0 {
      return true, loc0, skip0;
    }
    skip := skip0 / 2;
    loc := if dir > 0 then loc0 - skip else loc0 + skip;
    found := false;
  }

  lemma {:induction false} BeyondEnd(keys: seq<string>, key: string, loc: nat)
    requires Sorted(keys) && loc >= |keys|
    ensures Pos(keys, key) <= loc && (key in keys ==> Pos(keys, key) < loc)
  {
    if key in keys {
      var i :| 0 <= i < |keys| && keys[i] == key;
      PresentAt(keys, key, i);
    }
  }

  /** find_i: the place of a key that is there, and -1 for one that is not. */
  method FindIndex(keys: seq<string>, key: string) returns (r: int)
    requires Sorted(keys)
    ensures key in keys ==> r == Pos(keys, key) && r < |keys| && keys[r] == key
    ensures key !in keys ==> r == -1
  {
    var loc := 0;
    var skip := BitRound(|keys|);
    StartsNear(keys, key, skip);
    var first := true;
    while skip > 0
      invariant Searching(keys, key, loc, skip, first)
      decreases skip
    {
      var found;
      found, loc, skip := Move(keys, key, loc, skip, first);
      if found {
        PresentAt(keys, key, loc);
        return loc;
      }
      if loc < 0 {
        return -1;
      }
      first := first && loc == 0 && skip == 0;
    }
    r := -1;
  }

  lemma {:induction false} StartsNear(keys: seq<string>, key: string, skip: nat)
    requires Sorted(keys) && (if keys == [] then skip == 0 else IsPower(skip) && |keys| <= skip)
    ensures Searching(keys, key, 0, skip, true)
  {
    if key in keys {
      var i :| 0 <= i < |keys| && keys[i] == key;
      PresentAt(keys, key, i);
    }
  }

  // ---- the array as a map ----

  ghost function Contents<V>(keys: seq<string>, vals: seq<V>): (m: map<string, V>)
    requires |keys| == |vals| && Sorted(keys)
  {
    map key | key in keys :: ValueAt(keys, vals, key)
  }

  ghost function ValueAt<V>(keys: seq<string>, vals: seq<V>, key: string): V
    requires |keys| == |vals| && Sorted(keys) && key in keys
  {
    var i :| 0 <= i < |keys| && keys[i] == key;
    PresentAt(keys, key, i);
    vals[Pos(keys, key)]
  }

  lemma {:induction false} ContentsAt<V>(keys: seq<string>, vals: seq<V>, i: nat)
    requires |keys| == |vals| && Sorted(keys) && i < |keys|
    ensures keys[i] in Contents(keys, vals) && Contents(keys, vals)[keys[i]] == vals[i]
  {
    PresentAt(keys, keys[i], i);
  }

  function Inserted<T>(s: seq<T>, i: nat, x: T): (r: seq<T>)
    requires i <= |s|
    ensures |r| == |s| + 1
  {
    s[..i] + [x] + s[i..]
  }

  function Removed<T>(s: seq<T>, i: nat): (r: seq<T>)
    requires i < |s|
    ensures |r| == |s| - 1
  {
    s[..i] + s[i + 1..]
  }

  lemma {:induction false} InsertSorted(keys: seq<string>, key: string)
    requires Sorted(keys) && key !in keys
    ensures Sorted(Inserted(keys, Pos(keys, key), key))
  {
    var p := Pos(keys, key);
    var ks := Inserted(keys, p, key);
    PosDivides(keys, key);
    forall i, j | 0 <= i < j < |ks|
      ensures Less(ks[i], ks[j])
    {
      if i == p {
        NotLess(keys, key, j - 1);
      } else if j == p {
        assert Less(keys[i], key);
      } else {
        assert Less(keys[if i < p then i else i - 1], keys[if j < p then j else j - 1]);
      }
    }
  }

  lemma {:induction false} NotLess(keys: seq<string>, key: string, i: nat)
    requires Sorted(keys) && key !in keys && Pos(keys, key) <= i < |keys|
    ensures Less(key, keys[i])
  {
    PosDivides(keys, key);
    assert !Less(keys[i], key);
    CompareSame(keys[i], key);
    CompareSwap(key, keys[i]);
  }

  lemma {:induction false} RemoveSorted(keys: seq<string>, p: nat)
    requires Sorted(keys) && p < |keys|
    ensures Sorted(Removed(keys, p)) && keys[p] !in Removed(keys, p)
  {
    var ks := Removed(keys, p);
    forall i, j | 0 <= i < j < |ks|
      ensures Less(ks[i], ks[j])
    {
      assert Less(keys[if i < p then i else i + 1], keys[if j < p then j else j + 1]);
    }
    forall i | 0 <= i < |ks|
      ensures ks[i] != keys[p]
    {
      CompareSame(keys[p], keys[p]);
      if i < p {
        assert Less(keys[i], keys[p]);
      } else {
        assert Less(keys[p], keys[i + 1]);
      }
    }
  }

  /** Inserting at the position adds one entry to the map. */
  lemma {:induction false} InsertContents<V>(keys: seq<string>, vals: seq<V>, key: string, val: V)
    requires |keys| == |vals| && Sorted(keys) && key !in keys
    ensures var p := Pos(keys, key);
      && Sorted(Inserted(keys, p, key))
      && Contents(Inserted(keys, p, key), Inserted(vals, p, val)) == Contents(keys, vals)[key := val]
  {
    var p := Pos(keys, key);
    var ks, vs := Inserted(keys, p, key), Inserted(vals, p, val);
    InsertSorted(keys, key);
    var m, n := Contents(keys, vals), Contents(ks, vs);
    ContentsAt(ks, vs, p);
    forall x | x in ks
      ensures x in m[key := val] && n[x] == m[key := val][x]
    {
      var i :| 0 <= i < |ks| && ks[i] == x;
      ContentsAt(ks, vs, i);
      if i != p {
        ContentsAt(keys, vals, if i < p then i else i - 1);
      }
    }
    forall x | x in keys
      ensures x in ks
    {
      var i :| 0 <= i < |keys| && keys[i] == x;
      assert ks[if i < p then i else i + 1] == x;
    }
  }

  /** Removing a place takes one entry from the map. */
  lemma {:induction false} RemoveContents<V>(keys: seq<string>, vals: seq<V>, p: nat)
    requires |keys| == |vals| && Sorted(keys) && p < |keys|
    ensures Sorted(Removed(keys, p)) && Contents(Removed(keys, p), Removed(vals, p)) == Contents(keys, vals) - {keys[p]}
  {
    var ks, vs := Removed(keys, p), Removed(vals, p);
    RemoveSorted(keys, p);
    var m, n := Contents(keys, vals), Contents(ks, vs);
    forall x | x in ks
      ensures x in m && n[x] == m[x]
    {
      var i :| 0 <= i < |ks| && ks[i] == x;
      ContentsAt(ks, vs, i);
      ContentsAt(keys, vals, if i < p then i else i + 1);
    }
    forall x | x in keys && x != keys[p]
      ensures x in ks
    {
      var i :| 0 <= i < |keys| && keys[i] == x;
      assert ks[if i < p then i else i - 1] == x;
    }
  }

  class AssocArr<V> {
    const initial: V
    var indexes: seq<string>
    var ptr: seq<V>
    var num: nat
    var bufferlen: nat

    ghost predicate Valid()
      reads this
    {
      |indexes| == |ptr| == num <= bufferlen && Sorted(indexes)
    }

    /** The map that the array represents. */
    ghost function Map(): map<string, V>
      requires Valid()
      reads this
    {
      Contents(indexes, ptr)
    }

    constructor (fresh_value: V)
      ensures Valid() && Map() == map[] && initial == fresh_value
    {
      initial, indexes, ptr, num, bufferlen := fresh_value, [], [], 0, 0;
    }

    method Exists(index: string) returns (r: bool)
      requires Valid()
      ensures r <==> index in Map()
    {
      var i := FindIndex(indexes, index);
      r := i >= 0;
    }

    /** find; the source leaves it undefined for a key that is not there. */
    method Find(index: string) returns (v: V)
      requires Valid() && index in Map()
      ensures v == Map()[index]
    {
      var i := FindIndex(indexes, index);
      ContentsAt(indexes, ptr, i);
      v := ptr[i];
    }

    /** The place where a key that is not there belongs, or that of one that is. */
    method Locate(index: string) returns (found: bool, loc: nat)
      requires Valid()
      ensures found <==> index in indexes
      ensures loc == Pos(indexes, index) && (found ==> loc < num && indexes[loc] == index)
    {
      loc := 0;
      var skip := BitRound(num);
      StartsNear(indexes, index, skip);
      var first := true;
      while skip > 0
        invariant Searching(indexes, index, loc, skip, first)
        decreases skip
      {
        var next;
        found, next, skip := Move(indexes, index, loc, skip, first);
        if found {
          PresentAt(indexes, index, loc);
          return true, loc;
        }
        if next < 0 {
          loc := 0;
          break;
        }
        loc := next;
        first := first && loc == 0 && skip == 0;
      }
      found := false;
      if loc < num {
        Direction(indexes, index, loc);
        if Compare(indexes[loc], index) < 0 {
          loc := loc + 1;
        }
      }
    }

    /** create: an entry that is there is left alone, one that is not is added. */
    method Create(index: string) returns (v: V)
      requires Valid()
      modifies this
      ensures Valid() && index in Map() && v == Map()[index]
      ensures Map() == if index in old(Map()) then old(Map()) else old(Map())[index := initial]
    {
      var found, loc := Locate(index);
      if found {
        ContentsAt(indexes, ptr, loc);
        return ptr[loc];
      }
      if num == bufferlen {
        bufferlen := if num == 0 then 1 else bufferlen * 2;
      }
      InsertContents(indexes, ptr, index, initial);
      num := num + 1;
      indexes := Inserted(indexes, loc, index);
      ptr := Inserted(ptr, loc, initial);
      v := initial;
    }

    /** Assigns through the reference that create returns. */
    method Store(index: string, v: V)
      requires Valid()
      modifies this
      ensures Valid() && Map() == old(Map())[index := v]
    {
      var was := Create(index);
      var i := FindIndex(indexes, index);
      StoreContents(indexes, ptr, i, v);
      ptr := ptr[i := v];
    }

    /** remove: nothing happens to a key that is not there. */
    method Remove(index: string)
      requires Valid()
      modifies this
      ensures Valid() && Map() == old(Map()) - {index}
    {
      var loc := FindIndex(indexes, index);
      if loc < 0 {
        return;
      }
      RemoveContents(indexes, ptr, loc);
      indexes := Removed(indexes, loc);
      ptr := Removed(ptr, loc);
      num := num - 1;
      if num == bufferlen / 2 {
        bufferlen := bufferlen / 2;
      }
    }
  }

  lemma {:induction false} StoreContents<V>(keys: seq<string>, vals: seq<V>, i: nat, v: V)
    requires |keys| == |vals| && Sorted(keys) && i < |keys|
    ensures Contents(keys, vals[i := v]) == Contents(keys, vals)[keys[i] := v]
  {
    var m, n := Contents(keys, vals), Contents(keys, vals[i := v]);
    ContentsAt(keys, vals[i := v], i);
    forall x | x in keys
      ensures n[x] == m[keys[i] := v][x]
    {
      var j :| 0 <= j < |keys| && keys[j] == x;
      ContentsAt(keys, vals, j);
      ContentsAt(keys, vals[i := v], j);
      if j != i {
        PresentAt(keys, x, j);
        PresentAt(keys, keys[i], i);
      }
    }
  }
}
