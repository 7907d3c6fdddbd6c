/** The decoder's move-to-front list: 256 entries in 16 windows that slide through a 4096-byte array. */
module MtfWindow {
  import opened Bytes

  const MTFA_SIZE := 4096
  const MTFL_SIZE := 16

  ghost function MoveToFront<T>(s: seq<T>, n: nat): (r: seq<T>)
    requires n < |s|
    ensures |r| == |s|
  {
    [s[n]] + s[..n] + s[n + 1..]
  }

  /** Window bases: the windows lie in the array, in order, with at least 16 places each. */
  ghost predicate Apart(m: seq<int>) {
    && |m| == 16
    && 0 <= m[0] && m[15] <= MTFA_SIZE - 16
    && forall v, w {:trigger Spaced(m, v, w, 0)} :: 0 <= v < w < 16 ==> Spaced(m, v, w, 0)
  }

  /** Room for the windows v up to w, less a slack. */
  ghost predicate Spaced(m: seq<int>, v: int, w: int, slack: int)
    requires 0 <= v < |m| && 0 <= w < |m|
  {
    m[v] + 16 * (w - v) - slack <= m[w]
  }

  /** Each window is between its lowest place and the place a rebuild gives it. */
  lemma {:induction false} WindowBounds(m: seq<int>, w: int)
    requires Apart(m) && 0 <= w < 16
    ensures m[0] + 16 * w <= m[w] <= MTFA_SIZE - 256 + 16 * w
  {
    assert w == 0 || Spaced(m, 0, w, 0);
    assert w == 15 || Spaced(m, w, 15, 0);
  }

  lemma {:induction false} AllWindowBounds(m: seq<int>)
    requires Apart(m)
    ensures forall w :: 0 <= w < 16 ==> m[0] + 16 * w <= m[w] <= MTFA_SIZE - 256 + 16 * w
  {
    forall w | 0 <= w < 16
      ensures m[0] + 16 * w <= m[w] <= MTFA_SIZE - 256 + 16 * w
    {
      WindowBounds(m, w);
    }
  }

  /** The list that windows at bases m represent in array a. */
  ghost function Read(a: seq<byte>, m: seq<int>): (s: seq<byte>)
    requires Apart(m) && |a| == MTFA_SIZE
    ensures |s| == 256
  {
    AllWindowBounds(m);
    seq(256, k requires 0 <= k < 256 => a[m[k / 16] + k % 16])
  }

  /** The entries lo..hi-1 moved up by one place. */
  ghost function Shifted(a: seq<byte>, lo: int, hi: int): (r: seq<byte>)
    requires 0 <= lo <= hi < |a|
    ensures |r| == |a|
  {
    seq(|a|, q requires 0 <= q < |a| => if lo < q <= hi then a[q - 1] else a[q])
  }

  method Bump(mtfbase: array<int>, lno: nat)
    requires lno < mtfbase.Length
    modifies mtfbase
    ensures mtfbase[..] == old(mtfbase[..])[lno := old(mtfbase[lno]) + 1]
  {
    mtfbase[lno] := mtfbase[lno] + 1;
  }

  method MoveUp(mtfa: array<byte>, z: int, ghost a: seq<byte>, ghost hi: int)
    requires 0 < z <= hi < |a| && mtfa[..] == Shifted(a, z, hi)
    modifies mtfa
    ensures mtfa[..] == Shifted(a, z - 1, hi)
  {
    mtfa[z] := mtfa[z - 1];
  }

  /** Shifts a stretch up by one place, four entries at a time while it can. */
  method MoveUpAll(mtfa: array<byte>, pp: int, nn0: nat)
    requires 0 <= pp && pp + nn0 < mtfa.Length
    modifies mtfa
    ensures mtfa[..] == Shifted(old(mtfa[..]), pp, pp + nn0)
  {
    ghost var a := mtfa[..];
    var nn := nn0;
    while nn > 3
      invariant 0 <= nn <= nn0
      invariant mtfa[..] == Shifted(a, pp + nn, pp + nn0)
    {
      var z := pp + nn;
      MoveUp(mtfa, z, a, pp + nn0);
      MoveUp(mtfa, z - 1, a, pp + nn0);
      MoveUp(mtfa, z - 2, a, pp + nn0);
      MoveUp(mtfa, z - 3, a, pp + nn0);
      nn := nn - 4;
    }
    while nn > 0
      invariant 0 <= nn <= nn0
      invariant mtfa[..] == Shifted(a, pp + nn, pp + nn0)
    {
      MoveUp(mtfa, pp + nn, a, pp + nn0);
      nn := nn - 1;
    }
  }

  lemma {:induction false} FirstWindowMoved(a: seq<byte>, m: seq<int>, n: nat)
    requires Apart(m) && |a| == MTFA_SIZE && n < 16 && m[0] + 16 <= MTFA_SIZE
    ensures Read(Shifted(a, m[0], m[0] + n)[m[0] := a[m[0] + n]], m) == MoveToFront(Read(a, m), n)
  {
    AllWindowBounds(m);
    var a' := Shifted(a, m[0], m[0] + n)[m[0] := a[m[0] + n]];
    forall k | 0 <= k < 256
      ensures Read(a', m)[k] == MoveToFront(Read(a, m), n)[k]
    {
      Disjoint(m, 0, k / 16);
    }
  }

  /**
   * Mid-step bases: window g has 15 entries, and the windows above it may still be one place too
   * close to those below.
   */
  ghost predicate ApartGap(m: seq<int>, g: int) {
    && |m| == 16 && 0 <= g < 16
    && 1 <= m[0] && m[15] <= MTFA_SIZE - 16 + (if g == 15 then 1 else 0)
    && forall v, w {:trigger Spaced(m, v, w, Slack(v, w, g))} :: 0 <= v < w < 16 ==> Spaced(m, v, w, Slack(v, w, g))
  }

  ghost function Slack(v: int, w: int, g: int): int {
    if v <= g < w then 1 else 0
  }

  lemma {:induction false} GapBounds(m: seq<int>, g: int)
    requires ApartGap(m, g)
    ensures forall w :: 0 <= w < 16 ==> 16 * w <= m[w] <= MTFA_SIZE - 256 + 16 * w + 1
    ensures m[g] <= MTFA_SIZE - 15
    ensures forall w :: 0 <= w < 16 && w != g ==> m[w] <= MTFA_SIZE - 16
  {
    forall w | 0 <= w < 16
      ensures 16 * w <= m[w] <= MTFA_SIZE - 256 + 16 * w + 1
      ensures w != g ==> m[w] <= MTFA_SIZE - 16
    {
      assert w == 0 || Spaced(m, 0, w, Slack(0, w, g));
      assert w == 15 || Spaced(m, w, 15, Slack(w, 15, g));
    }
  }

  /** The 255 entries that windows with a gap at the end of window g represent. */
  ghost function ReadGap(a: seq<byte>, m: seq<int>, g: int): (s: seq<byte>)
    requires ApartGap(m, g) && |a| == MTFA_SIZE
    ensures |s| == 255
  {
    GapBounds(m, g);
    seq(255, k requires 0 <= k < 255 =>
      if k < 16 * g + 15 then a[m[k / 16] + k % 16] else a[m[(k + 1) / 16] + (k + 1) % 16])
  }

  lemma {:induction false} GapOpens(m: seq<int>, g: int)
    requires Apart(m) && m[0] > 0 && 0 <= g < 16
    ensures ApartGap(m[g := m[g] + 1], g)
  {
    var m' := m[g := m[g] + 1];
    forall v, w | 0 <= v < w < 16
      ensures Spaced(m', v, w, Slack(v, w, g))
    {
      assert Spaced(m, v, w, 0);
    }
  }

  /** Taking entry n out of its window leaves the rest of the list, with a gap. */
  lemma {:induction false} TakeOut(a: seq<byte>, m: seq<int>, n: nat)
    requires Apart(m) && m[0] > 0 && |a| == MTFA_SIZE && n < 256
    ensures var g := n / 16; var p := m[g] + n % 16;
      && 0 <= m[g] <= p < MTFA_SIZE
      && ApartGap(m[g := m[g] + 1], g)
      && ReadGap(Shifted(a, m[g], p), m[g := m[g] + 1], g) == Read(a, m)[..n] + Read(a, m)[n + 1..]
  {
    var g := n / 16;
    WindowBounds(m, g);
    GapOpens(m, g);
    var rest := Read(a, m)[..n] + Read(a, m)[n + 1..];
    forall k | 0 <= k < 255
      ensures ReadGap(Shifted(a, m[g], m[g] + n % 16), m[g := m[g] + 1], g)[k] == rest[k]
    {
      TakeOutAt(a, m, g, n % 16, k);
    }
  }

  lemma {:induction false} TakeOutAt(a: seq<byte>, m: seq<int>, g: int, off: int, k: int)
    requires Apart(m) && m[0] > 0 && |a| == MTFA_SIZE && 0 <= g < 16 && 0 <= off < 16 && 0 <= k < 255
    requires 0 <= m[g] && m[g] + 16 <= MTFA_SIZE && ApartGap(m[g := m[g] + 1], g)
    ensures ReadGap(Shifted(a, m[g], m[g] + off), m[g := m[g] + 1], g)[k]
         == Read(a, m)[if k < 16 * g + off then k else k + 1]
  {
    var k' := if k < 16 * g + 15 then k else k + 1;
    AllWindowBounds(m);
    Disjoint(m, g, k' / 16);
  }

  lemma {:induction false} Disjoint(m: seq<int>, g: int, w: int)
    requires Apart(m) && 0 <= g < 16 && 0 <= w < 16
    ensures w < g ==> m[w] + 16 <= m[g]
    ensures w > g ==> m[g] + 16 <= m[w]
  {
    if w < g {
      assert Spaced(m, w, g, 0);
    } else if w > g {
      assert Spaced(m, g, w, 0);
    }
  }

  lemma {:induction false} GapMoves(m: seq<int>, g: int)
    requires ApartGap(m, g) && g > 0
    ensures ApartGap(m[g := m[g] - 1], g - 1)
    ensures m[g - 1] + 16 <= m[g]
  {
    var m', h := m[g := m[g] - 1], g - 1;
    assert Spaced(m, h, g, Slack(h, g, g));
    forall v, w | 0 <= v < w < 16
      ensures Spaced(m', v, w, Slack(v, w, h))
    {
      assert Spaced(m, v, w, Slack(v, w, g));
    }
  }

  /** Handing the last entry of window g - 1 to the front of window g moves the gap down a window. */
  lemma {:induction false} MoveGap(a: seq<byte>, m: seq<int>, g: int)
    requires ApartGap(m, g) && g > 0 && |a| == MTFA_SIZE
    ensures var p := m[g] - 1; var q := m[g - 1] + 15;
      && 0 <= p < MTFA_SIZE && 0 <= q < MTFA_SIZE
      && ApartGap(m[g := p], g - 1)
      && ReadGap(a[p := a[q]], m[g := p], g - 1) == ReadGap(a, m, g)
  {
    GapBounds(m, g);
    GapMoves(m, g);
    var p, q := m[g] - 1, m[g - 1] + 15;
    forall k | 0 <= k < 255
      ensures ReadGap(a[p := a[q]], m[g := p], g - 1)[k] == ReadGap(a, m, g)[k]
    {
      MoveGapAt(a, m, g, k);
    }
  }

  lemma {:induction false} MoveGapAt(a: seq<byte>, m: seq<int>, g: int, k: int)
    requires ApartGap(m, g) && g > 0 && |a| == MTFA_SIZE && 0 <= k < 255
    requires 0 <= m[g] - 1 < MTFA_SIZE && 0 <= m[g - 1] + 15 < MTFA_SIZE
    requires ApartGap(m[g := m[g] - 1], g - 1) && m[g - 1] + 16 <= m[g]
    ensures ReadGap(a[m[g] - 1 := a[m[g - 1] + 15]], m[g := m[g] - 1], g - 1)[k] == ReadGap(a, m, g)[k]
  {
    GapBounds(m, g);
    GapBounds(m[g := m[g] - 1], g - 1);
    GapCell(m, g, if k < 16 * g - 1 then k / 16 else (k + 1) / 16);
    GapCell(m, g, k / 16);
  }

  lemma {:induction false} GapCell(m: seq<int>, g: int, w: int)
    requires ApartGap(m, g) && 0 <= w < 16
    ensures w < g ==> m[w] + 16 <= m[g]
    ensures w > g ==> m[g] + 15 <= m[w]
    ensures w < g - 1 ==> m[w] + 32 <= m[g]
  {
    if w < g {
      assert Spaced(m, w, g, Slack(w, g, g));
    } else if w > g {
      assert Spaced(m, g, w, Slack(g, w, g));
    }
  }

  /** With the gap in the first window, the moved entry goes in front. */
  lemma {:induction false} PutFront(a: seq<byte>, m: seq<int>, c: byte)
    requires ApartGap(m, 0) && |a| == MTFA_SIZE
    ensures var p := m[0] - 1;
      && 0 <= p < MTFA_SIZE
      && Apart(m[0 := p])
      && Read(a[p := c], m[0 := p]) == [c] + ReadGap(a, m, 0)
  {
    GapBounds(m, 0);
    var p := m[0] - 1;
    var m', a' := m[0 := p], a[p := c];
    forall v, w | 0 <= v < w < 16
      ensures Spaced(m', v, w, 0)
    {
      assert Spaced(m, v, w, Slack(v, w, 0));
    }
    AllWindowBounds(m');
    forall k | 0 <= k < 256
      ensures Read(a', m')[k] == ([c] + ReadGap(a, m, 0))[k]
    {
      GapCell(m, 0, k / 16);
    }
  }

  /** Windows packed at the top of the array. */
  lemma {:induction false} PackedRead(a: seq<byte>, m: seq<int>, s: seq<byte>)
    requires |m| == 16 && |a| == MTFA_SIZE && |s| == 256
    requires forall w :: 0 <= w < 16 ==> m[w] == MTFA_SIZE - 256 + 16 * w
    requires forall q :: MTFA_SIZE - 256 <= q < MTFA_SIZE ==> a[q] == s[q - (MTFA_SIZE - 256)]
    ensures Apart(m) && m[0] > 0 && Read(a, m) == s
  {
    forall v, w | 0 <= v < w < 16
      ensures Spaced(m, v, w, 0)
    {
    }
  }

  class Windows {
    const mtfa: array<byte>
    const mtfbase: array<int>

    /** Between steps the windows are apart and there is room to slide. */
    ghost predicate Valid()
      reads mtfbase
    {
      mtfa.Length == MTFA_SIZE && mtfbase.Length == 16 && Apart(mtfbase[..]) && mtfbase[0] > 0
    }

    /** The list the windows represent. */
    ghost function List(): (s: seq<byte>)
      requires Valid()
      reads mtfa, mtfbase
      ensures |s| == 256
    {
      Read(mtfa[..], mtfbase[..])
    }

    constructor ()
      ensures fresh(mtfa) && fresh(mtfbase) && Valid()
      ensures List() == seq(256, k requires 0 <= k < 256 => k)
    {
      mtfa := new byte[MTFA_SIZE];
      mtfbase := new int[16];
      new;
      var kk := MTFA_SIZE - 1;
      var ii := 15;
      while ii >= 0
        invariant -1 <= ii <= 15 && kk == MTFA_SIZE - 256 + 16 * (ii + 1) - 1
        invariant forall w :: ii < w < 16 ==> mtfbase[w] == MTFA_SIZE - 256 + 16 * w
        invariant forall q :: kk < q < MTFA_SIZE ==> mtfa[q] == q - (MTFA_SIZE - 256)
      {
        var jj := 15;
        while jj >= 0
          invariant -1 <= jj <= 15 && kk == MTFA_SIZE - 256 + 16 * ii + jj
          invariant forall w :: ii < w < 16 ==> mtfbase[w] == MTFA_SIZE - 256 + 16 * w
          invariant forall q :: kk < q < MTFA_SIZE ==> mtfa[q] == q - (MTFA_SIZE - 256)
        {
          mtfa[kk] := ii * MTFL_SIZE + jj;
          kk := kk - 1;
          jj := jj - 1;
        }
        mtfbase[ii] := kk + 1;
        ii := ii - 1;
      }
      PackedRead(mtfa[..], mtfbase[..], seq(256, k requires 0 <= k < 256 => k));
    }

    /** The short case: the entry is in the first window, which is shifted in place. */
    method ShiftFirst(nn0: nat) returns (uc: byte)
      requires Valid() && nn0 < 16
      modifies mtfa
      ensures Valid() && uc == old(List()[nn0])
      ensures List() == old(MoveToFront(List(), nn0))
    {
      ghost var a := mtfa[..];
      WindowBounds(mtfbase[..], 0);
      FirstWindowMoved(a, mtfbase[..], nn0);
      var pp := mtfbase[0];
      uc := mtfa[pp + nn0];
      MoveUpAll(mtfa, pp, nn0);
      mtfa[pp] := uc;
      assert mtfa[..] == Shifted(a, pp, pp + nn0)[pp := a[pp + nn0]];
    }

    /**
     * The general case: the entry leaves its window, each window below passes its last entry up, and
     * the entry goes in front. When the first window reaches the bottom, all are moved back up.
     */
    method ShiftAcross(nn: nat) returns (uc: byte)
      requires Valid() && nn < 256
      modifies mtfa, mtfbase
      ensures Valid() && uc == old(List()[nn])
      ensures List() == old(MoveToFront(List(), nn))
    {
      ghost var s := List();
      uc := Detach(nn);
      Borrow(nn / MTFL_SIZE, s[..nn] + s[nn + 1..]);
      Attach(uc);
      assert [uc] + (s[..nn] + s[nn + 1..]) == MoveToFront(s, nn);
      if mtfbase[0] == 0 {
        Rebuild();
      }
    }

    /** Takes the entry at nn out of its window by closing up the entries before it. */
    method Detach(nn: nat) returns (uc: byte)
      requires Valid() && nn < 256
      modifies mtfa, mtfbase
      ensures uc == old(List()[nn])
      ensures ApartGap(mtfbase[..], nn / MTFL_SIZE)
      ensures ReadGap(mtfa[..], mtfbase[..], nn / MTFL_SIZE) == old(List()[..nn] + List()[nn + 1..])
    {
      ghost var a, m := mtfa[..], mtfbase[..];
      var lno, off := nn / MTFL_SIZE, nn % MTFL_SIZE;
      TakeOut(a, m, nn);
      uc := CloseUp(lno, off);
      Bump(mtfbase, lno);
      assert mtfa[..] == Shifted(a, m[lno], m[lno] + off) && mtfbase[..] == m[lno := m[lno] + 1];
    }

    /** Takes an entry out of its window; those before it move up. */
    method CloseUp(lno: nat, off: nat) returns (uc: byte)
      requires Valid() && lno < 16 && off < 16
      modifies mtfa
      ensures 0 <= mtfbase[lno] && mtfbase[lno] + off < MTFA_SIZE && uc == old(mtfa[mtfbase[lno] + off])
      ensures mtfa[..] == Shifted(old(mtfa[..]), mtfbase[lno], mtfbase[lno] + off)
    {
      ghost var a := mtfa[..];
      WindowBounds(mtfbase[..], lno);
      var pp := mtfbase[lno] + off;
      uc := mtfa[pp];
      while pp > mtfbase[lno]
        invariant mtfbase[lno] <= pp <= mtfbase[lno] + off
        invariant mtfa[..] == Shifted(a, pp, mtfbase[lno] + off)
      {
        MoveUp(mtfa, pp, a, mtfbase[lno] + off);
        pp := pp - 1;
      }
    }

    /** Puts the entry in front of the first window. */
    method Attach(uc: byte)
      requires mtfa.Length == MTFA_SIZE && mtfbase.Length == 16 && ApartGap(mtfbase[..], 0)
      modifies mtfa, mtfbase
      ensures Apart(mtfbase[..])
      ensures Read(mtfa[..], mtfbase[..]) == [uc] + old(ReadGap(mtfa[..], mtfbase[..], 0))
    {
      ghost var a, m := mtfa[..], mtfbase[..];
      PutFront(a, m, uc);
      mtfbase[0] := mtfbase[0] - 1;
      mtfa[mtfbase[0]] := uc;
      assert mtfbase[..] == m[0 := m[0] - 1] && mtfa[..] == a[m[0] - 1 := uc];
    }

    /** Window by window downwards, the last entry of the window below moves to the front of this one. */
    method Borrow(lno0: nat, ghost rest: seq<byte>)
      requires mtfa.Length == MTFA_SIZE && mtfbase.Length == 16
      requires ApartGap(mtfbase[..], lno0) && ReadGap(mtfa[..], mtfbase[..], lno0) == rest
      modifies mtfa, mtfbase
      ensures ApartGap(mtfbase[..], 0) && ReadGap(mtfa[..], mtfbase[..], 0) == rest
    {
      var lno := lno0;
      while lno > 0
        invariant 0 <= lno <= lno0
        invariant ApartGap(mtfbase[..], lno) && ReadGap(mtfa[..], mtfbase[..], lno) == rest
      {
        ghost var a, m := mtfa[..], mtfbase[..];
        MoveGap(a, m, lno);
        mtfbase[lno] := mtfbase[lno] - 1;
        mtfa[mtfbase[lno]] := mtfa[mtfbase[lno - 1] + MTFL_SIZE - 1];
        assert mtfbase[..] == m[lno := m[lno] - 1] && mtfa[..] == a[m[lno] - 1 := a[m[lno - 1] + 15]];
        lno := lno - 1;
      }
    }

    /** Moves every window back to the top of the array without disturbing the list. */
    method Rebuild()
      requires mtfa.Length == MTFA_SIZE && mtfbase.Length == 16 && Apart(mtfbase[..])
      modifies mtfa, mtfbase
      ensures Valid() && List() == old(Read(mtfa[..], mtfbase[..]))
    {
      ghost var a, m := mtfa[..], mtfbase[..];
      ghost var s := Read(a, m);
      AllWindowBounds(m);
      var kk := MTFA_SIZE - 1;
      var ii := 15;
      while ii >= 0
        invariant -1 <= ii <= 15 && kk == MTFA_SIZE - 256 + 16 * (ii + 1) - 1
        invariant forall w :: ii < w < 16 ==> mtfbase[w] == MTFA_SIZE - 256 + 16 * w
        invariant forall w :: 0 <= w <= ii ==> mtfbase[w] == m[w]
        invariant PartlyPacked(mtfa[..], a, s, kk)
      {
        kk := RebuildWindow(ii, kk, a, m);
        mtfbase[ii] := kk + 1;
        ii := ii - 1;
      }
      PackedRead(mtfa[..], mtfbase[..], s);
    }

    method RebuildWindow(ii: nat, kk0: int, ghost a: seq<byte>, ghost m: seq<int>) returns (kk: int)
      requires ii < 16 && mtfa.Length == MTFA_SIZE == |a| && mtfbase.Length == 16 && Apart(m)
      requires kk0 == MTFA_SIZE - 256 + 16 * ii + 15 && mtfbase[ii] == m[ii]
      requires PartlyPacked(mtfa[..], a, Read(a, m), kk0)
      modifies mtfa
      ensures kk == kk0 - 16 && PartlyPacked(mtfa[..], a, Read(a, m), kk)
    {
      WindowBounds(m, ii);
      kk := kk0;
      var jj := 15;
      while jj >= 0
        invariant -1 <= jj <= 15 && kk == MTFA_SIZE - 256 + 16 * ii + jj
        invariant PartlyPacked(mtfa[..], a, Read(a, m), kk)
      {
        assert Read(a, m)[16 * ii + jj] == a[m[ii] + jj];
        mtfa[kk] := mtfa[mtfbase[ii] + jj];
        kk := kk - 1;
        jj := jj - 1;
      }
    }

    method Front() returns (uc: byte)
      requires Valid()
      ensures uc == List()[0]
    {
      WindowBounds(mtfbase[..], 0);
      uc := mtfa[mtfbase[0]];
    }

    /** uc = MTF(nextSym - 1): the list entry at nn, moved to the front. */
    method Access(nn: nat) returns (uc: byte)
      requires Valid() && nn < 256
      modifies mtfa, mtfbase
      ensures Valid() && uc == old(List()[nn])
      ensures List() == old(MoveToFront(List(), nn))
    {
      if nn < MTFL_SIZE {
        uc := ShiftFirst(nn);
      } else {
        uc := ShiftAcross(nn);
      }
    }
  }

  /** Entries above kk are already those of the packed list; the rest of the array is untouched. */
  ghost predicate PartlyPacked(now: seq<byte>, a: seq<byte>, s: seq<byte>, kk: int) {
    && |now| == |a| == MTFA_SIZE && |s| == 256 && MTFA_SIZE - 257 <= kk < MTFA_SIZE
    && (forall q :: 0 <= q < MTFA_SIZE && kk < q ==> now[q] == s[q - (MTFA_SIZE - 256)])
    && (forall q :: 0 <= q < MTFA_SIZE && q <= kk ==> now[q] == a[q])
  }
}
