/** How sendMTFValues chooses its codes: four rounds of giving each group of fifty symbols its cheapest code. */
module TableChoice {
  import opened Arith
  import opened BlockFormat
  import opened BlockSender
  import opened BlockSyntax
  import opened Bytes
  import opened Canonical
  import opened HuffmanLengths
  import opened HuffmanTree
  import opened Sums

  const MAX_SYMBOLS: nat := 900001
  const GREATER_ICOST := 15
  const LESSER_ICOST := 0
  const N_ITERS: nat := 4
  const LENGTH_LIMIT: nat := 17

  ghost predicate InAlphabet(syms: seq<int>, alphaSize: nat) {
    forall i :: 0 <= i < |syms| ==> 0 <= syms[i] < alphaSize
  }

  ghost predicate Rows(rows: seq<seq<int>>, nGroups: nat, alphaSize: nat) {
    |rows| == nGroups && forall t :: 0 <= t < nGroups ==> |rows[t]| == alphaSize
  }

  // ---- the cheapest table for a group ----

  /** Bits that symbols lo..hi - 1 take with the lengths len. */
  ghost function Cost(len: seq<int>, syms: seq<int>, lo: nat, hi: nat): int
    requires hi <= |syms| && InAlphabet(syms, |len|)
    decreases hi
  {
    if hi <= lo then 0 else Cost(len, syms, lo, hi - 1) + len[syms[hi - 1]]
  }

  /** t is the first table with the least cost for symbols lo..hi - 1. */
  ghost predicate Cheapest(lens: seq<seq<int>>, syms: seq<int>, alphaSize: nat, lo: nat, hi: nat, t: int) {
    && hi <= |syms| && InAlphabet(syms, alphaSize) && Rows(lens, |lens|, alphaSize) && 0 <= t < |lens|
    && (forall u :: 0 <= u < |lens| ==> Cost(lens[t], syms, lo, hi) <= Cost(lens[u], syms, lo, hi))
    && forall u :: 0 <= u < t ==> Cost(lens[t], syms, lo, hi) < Cost(lens[u], syms, lo, hi)
  }

  method AddCosts(cost: array<int>, lens: seq<seq<int>>, syms: seq<int>, ghost lo: nat, i: nat, alphaSize: nat)
    requires cost.Length == |lens| && Rows(lens, |lens|, alphaSize) && InAlphabet(syms, alphaSize) && lo <= i < |syms|
    requires forall t :: 0 <= t < |lens| ==> cost[t] == Cost(lens[t], syms, lo, i)
    modifies cost
    ensures forall t :: 0 <= t < |lens| ==> cost[t] == Cost(lens[t], syms, lo, i + 1)
  {
    var t := 0;
    while t < |lens|
      invariant 0 <= t <= |lens|
      invariant forall u :: 0 <= u < t ==> cost[u] == Cost(lens[u], syms, lo, i + 1)
      invariant forall u :: t <= u < |lens| ==> cost[u] == Cost(lens[u], syms, lo, i)
    {
      cost[t] := cost[t] + lens[t][syms[i]];
      t := t + 1;
    }
  }

  method BestTable(lens: seq<seq<int>>, syms: seq<int>, gs: nat, ge: nat, alphaSize: nat) returns (bt: nat)
    requires 0 < |lens| && Rows(lens, |lens|, alphaSize) && InAlphabet(syms, alphaSize) && gs <= ge < |syms|
    ensures Cheapest(lens, syms, alphaSize, gs, ge + 1, bt)
  {
    var cost := new int[|lens|](_ => 0);
    var i := gs;
    while i <= ge
      invariant gs <= i <= ge + 1
      invariant forall t :: 0 <= t < |lens| ==> cost[t] == Cost(lens[t], syms, gs, i)
    {
      AddCosts(cost, lens, syms, gs, i, alphaSize);
      i := i + 1;
    }
    bt := 0;
    var bc := cost[0];
    var t := 1;
    while t < |lens|
      invariant 1 <= t <= |lens| && bt < t && bc == cost[bt]
      invariant forall u :: 0 <= u < t ==> bc <= cost[u] && (u < bt ==> bc < cost[u])
    {
      if cost[t] < bc {
        bc := cost[t];
        bt := t;
      }
      t := t + 1;
    }
  }

  // ---- one round ----

  ghost predicate Counted(rfreq: seq<seq<int>>, nGroups: nat, alphaSize: nat, n: nat) {
    && Rows(rfreq, nGroups, alphaSize)
    && (forall t {:trigger CountRow(rfreq[t], n)} :: 0 <= t < nGroups ==> CountRow(rfreq[t], n))
  }

  /** Non-negative counts that add up to at most n. */
  ghost predicate CountRow(row: seq<int>, n: nat) {
    Sum(row) <= n && forall v :: 0 <= v < |row| ==> row[v] >= 0
  }

  /** Symbol i is v and its group has table t. */
  ghost predicate UsedAt(sel: seq<byte>, syms: seq<int>, t: int, v: int, i: nat) {
    i < |syms| && i / G_SIZE < |sel| && sel[i / G_SIZE] == t && syms[i] == v
  }

  /** How often table t codes symbol v among the first n symbols. */
  ghost function Uses(sel: seq<byte>, syms: seq<int>, t: int, v: int, n: nat): nat {
    if n == 0 then 0 else Uses(sel, syms, t, v, n - 1) + if UsedAt(sel, syms, t, v, n - 1) then 1 else 0
  }

  /** rfreq counts every use of every table. */
  ghost predicate CountsUses(rfreq: seq<seq<int>>, sel: seq<byte>, syms: seq<int>, nGroups: nat, alphaSize: nat, n: nat) {
    && Rows(rfreq, nGroups, alphaSize)
    && forall t, v {:trigger rfreq[t][v]} :: 0 <= t < nGroups && 0 <= v < alphaSize ==> rfreq[t][v] == Uses(sel, syms, t, v, n)
  }

  /** A further selector does not matter to the groups before it. */
  lemma {:induction false} UsesMore(sel: seq<byte>, bt: byte, syms: seq<int>, t: int, v: int, n: nat)
    requires n <= |sel| * G_SIZE
    ensures Uses(sel + [bt], syms, t, v, n) == Uses(sel, syms, t, v, n)
  {
    if n > 0 {
      UsesMore(sel, bt, syms, t, v, n - 1);
      assert (n - 1) / G_SIZE < |sel|;
    }
  }

  lemma {:induction false} CountsMore(rfreq: seq<seq<int>>, sel: seq<byte>, bt: byte, syms: seq<int>, nGroups: nat, alphaSize: nat, n: nat)
    requires CountsUses(rfreq, sel, syms, nGroups, alphaSize, n) && n <= |sel| * G_SIZE
    ensures CountsUses(rfreq, sel + [bt], syms, nGroups, alphaSize, n)
  {
    forall t, v | 0 <= t < nGroups && 0 <= v < alphaSize
      ensures rfreq[t][v] == Uses(sel + [bt], syms, t, v, n)
    {
      UsesMore(sel, bt, syms, t, v, n);
    }
  }

  lemma {:induction false} CountsOne(rfreq: seq<seq<int>>, sel: seq<byte>, syms: seq<int>, nGroups: nat, alphaSize: nat, i: nat)
    requires CountsUses(rfreq, sel, syms, nGroups, alphaSize, i)
    requires i < |syms| && 0 <= syms[i] < alphaSize && i / G_SIZE < |sel| && sel[i / G_SIZE] < nGroups
    ensures var bt := sel[i / G_SIZE];
      CountsUses(rfreq[bt := rfreq[bt][syms[i] := rfreq[bt][syms[i]] + 1]], sel, syms, nGroups, alphaSize, i + 1)
  {
    var bt := sel[i / G_SIZE];
    var r := rfreq[bt := rfreq[bt][syms[i] := rfreq[bt][syms[i]] + 1]];
    forall t, v | 0 <= t < nGroups && 0 <= v < alphaSize
      ensures r[t][v] == Uses(sel, syms, t, v, i + 1)
    {
      assert rfreq[t][v] == Uses(sel, syms, t, v, i);
    }
  }

  method CountGroup(rfreq0: seq<seq<int>>, bt: nat, syms: seq<int>, gs: nat, ge: nat, nGroups: nat, alphaSize: nat, ghost sel: seq<byte>)
    returns (rfreq: seq<seq<int>>)
    requires Counted(rfreq0, nGroups, alphaSize, gs) && bt < nGroups && gs <= ge < |syms| && InAlphabet(syms, alphaSize)
    requires CountsUses(rfreq0, sel, syms, nGroups, alphaSize, gs)
    requires |sel| > 0 && sel[|sel| - 1] == bt && (|sel| - 1) * G_SIZE <= gs && ge < |sel| * G_SIZE
    ensures Counted(rfreq, nGroups, alphaSize, ge + 1) && CountsUses(rfreq, sel, syms, nGroups, alphaSize, ge + 1)
  {
    rfreq := rfreq0;
    var i := gs;
    while i <= ge
      invariant gs <= i <= ge + 1 && Counted(rfreq, nGroups, alphaSize, i) && CountsUses(rfreq, sel, syms, nGroups, alphaSize, i)
    {
      assert i / G_SIZE == |sel| - 1;
      CountOne(rfreq, bt, syms[i], nGroups, alphaSize, i);
      CountsOne(rfreq, sel, syms, nGroups, alphaSize, i);
      rfreq := rfreq[bt := rfreq[bt][syms[i] := rfreq[bt][syms[i]] + 1]];
      i := i + 1;
    }
  }

  lemma {:induction false} CountOne(rfreq: seq<seq<int>>, bt: nat, s: nat, nGroups: nat, alphaSize: nat, i: nat)
    requires Counted(rfreq, nGroups, alphaSize, i) && bt < nGroups && s < alphaSize
    ensures Counted(rfreq[bt := rfreq[bt][s := rfreq[bt][s] + 1]], nGroups, alphaSize, i + 1)
  {
    var row := rfreq[bt];
    var rows := rfreq[bt := row[s := row[s] + 1]];
    SumUpdate(row, s, row[s] + 1);
    assert CountRow(row, i);
    forall t | 0 <= t < nGroups
      ensures CountRow(rows[t], i + 1)
    {
      assert CountRow(rfreq[t], i);
    }
  }

  ghost predicate Selected(sel: seq<byte>, lens: seq<seq<int>>, syms: seq<int>, alphaSize: nat, nGroups: nat) {
    && (forall g :: 0 <= g < |sel| ==> sel[g] < nGroups)
    && (forall g {:trigger sel[g]} :: 0 <= g < |sel| ==>
          g * G_SIZE < |syms| && Cheapest(lens, syms, alphaSize, g * G_SIZE, GroupEnd(g, |syms|), sel[g]))
  }

  function GroupEnd(g: nat, n: nat): nat {
    if g * G_SIZE + G_SIZE < n then g * G_SIZE + G_SIZE else n
  }

  /** Gives every group a table of least cost and counts the symbols each table gets. */
  method SelectTables(syms: seq<int>, lens: seq<seq<int>>, nGroups: nat, alphaSize: nat) returns (sel: seq<byte>, rfreq: seq<seq<int>>)
    requires 0 < nGroups <= N_GROUPS && Rows(lens, nGroups, alphaSize) && InAlphabet(syms, alphaSize)
    ensures |sel| == (|syms| + G_SIZE - 1) / G_SIZE && Selected(sel, lens, syms, alphaSize, nGroups)
    ensures Counted(rfreq, nGroups, alphaSize, |syms|) && CountsUses(rfreq, sel, syms, nGroups, alphaSize, |syms|)
  {
    sel, rfreq := [], NoCounts(nGroups, alphaSize);
    NothingCounted(nGroups, alphaSize);
    var gs := 0;
    while gs < |syms|
      invariant 0 <= gs <= |syms| && gs == (if |sel| * G_SIZE < |syms| then |sel| * G_SIZE else |syms|)
      invariant gs == |syms| ==> |sel| == (|syms| + G_SIZE - 1) / G_SIZE
      invariant Selected(sel, lens, syms, alphaSize, nGroups) && Counted(rfreq, nGroups, alphaSize, gs)
      invariant CountsUses(rfreq, sel, syms, nGroups, alphaSize, gs)
    {
      var ge := gs + G_SIZE - 1;
      if ge >= |syms| {
        ge := |syms| - 1;
      }
      var bt := BestTable(lens, syms, gs, ge, alphaSize);
      assert ge + 1 == GroupEnd(|sel|, |syms|);
      CountsMore(rfreq, sel, bt, syms, nGroups, alphaSize, gs);
      sel := sel + [bt];
      rfreq := CountGroup(rfreq, bt, syms, gs, ge, nGroups, alphaSize, sel);
      gs := ge + 1;
    }
  }

  function NoCounts(nGroups: nat, alphaSize: nat): (r: seq<seq<int>>)
    ensures Rows(r, nGroups, alphaSize)
    ensures forall t, v :: 0 <= t < nGroups && 0 <= v < alphaSize ==> r[t][v] == 0
  {
    seq(nGroups, _ => seq(alphaSize, _ => 0))
  }

  lemma {:induction false} NothingCounted(nGroups: nat, alphaSize: nat)
    ensures Counted(NoCounts(nGroups, alphaSize), nGroups, alphaSize, 0)
  {
    var r := NoCounts(nGroups, alphaSize);
    forall t | 0 <= t < nGroups
      ensures CountRow(r[t], 0)
    {
      SumOfZeros(r[t]);
    }
  }

  // ---- codes from the counts ----

  lemma {:induction false} ClippedSum(f: seq<int>)
    ensures Sum(Clipped(f)) <= Sum(f) + |f|
  {
    if f != [] {
      ClippedSum(f[..|f| - 1]);
      assert Clipped(f)[..|f| - 1] == Clipped(f[..|f| - 1]);
    }
  }

  lemma {:induction false} SmallSum(row: seq<int>, n: nat)
    requires |row| <= MAX_ALPHA_SIZE && n <= MAX_SYMBOLS && CountRow(row, n)
    ensures Sum(Clipped(row)) < MAX_WEIGHT
  {
    ClippedSum(row);
  }

  ghost predicate GoodCode(len: seq<int>, alphaSize: nat) {
    |len| == alphaSize && GoodLengths(len, LENGTH_LIMIT)
  }

  /** Best lengths, within the limit, for what was counted. */
  ghost predicate CodeFor(row: seq<int>, len: seq<int>) {
    exists k: nat :: Chosen(Clipped(row), len, LENGTH_LIMIT, k)
  }

  method MakeCode(freq: seq<int>, alphaSize: nat, ghost n: nat) returns (len: seq<int>)
    requires 2 <= alphaSize <= MAX_ALPHA_SIZE && |freq| == alphaSize && n <= MAX_SYMBOLS && CountRow(freq, n)
    ensures GoodCode(len, alphaSize) && CodeFor(freq, len)
  {
    var f := ToArray(freq);
    var l := new int[alphaSize];
    SmallSum(freq, n);
    assert f[..alphaSize] == freq;
    MakeCodeLengths(l, f, alphaSize, LENGTH_LIMIT);
    assert f[..alphaSize] == freq;
    len := l[..alphaSize];
  }

  ghost predicate GoodCodes(lens: seq<seq<int>>, alphaSize: nat) {
    forall t {:trigger GoodCode(lens[t], alphaSize)} :: 0 <= t < |lens| ==> GoodCode(lens[t], alphaSize)
  }

  ghost predicate CodesFor(rows: seq<seq<int>>, lens: seq<seq<int>>) {
    |rows| == |lens| && forall t {:trigger CodeFor(rows[t], lens[t])} :: 0 <= t < |lens| ==> CodeFor(rows[t], lens[t])
  }

  method MakeCodes(rfreq: seq<seq<int>>, nGroups: nat, alphaSize: nat, ghost n: nat) returns (lens: seq<seq<int>>)
    requires 2 <= alphaSize <= MAX_ALPHA_SIZE && n <= MAX_SYMBOLS && Counted(rfreq, nGroups, alphaSize, n)
    ensures |lens| == nGroups && GoodCodes(lens, alphaSize) && CodesFor(rfreq, lens)
  {
    lens := [];
    var t := 0;
    while t < nGroups
      invariant 0 <= t <= nGroups && |lens| == t && GoodCodes(lens, alphaSize)
      invariant forall u {:trigger CodeFor(rfreq[u], lens[u])} :: 0 <= u < t ==> CodeFor(rfreq[u], lens[u])
    {
      assert CountRow(rfreq[t], n);
      var len := MakeCode(rfreq[t], alphaSize, n);
      lens := lens + [len];
      t := t + 1;
    }
  }

  lemma {:induction false} GoodRows(lens: seq<seq<int>>, alphaSize: nat)
    requires GoodCodes(lens, alphaSize)
    ensures Rows(lens, |lens|, alphaSize)
  {
    forall t | 0 <= t < |lens|
      ensures |lens[t]| == alphaSize
    {
      assert GoodCode(lens[t], alphaSize);
    }
  }

  // ---- the initial tables ----

  /** How often v occurs among the first n symbols. */
  ghost function Occurs(syms: seq<int>, v: int, n: nat): nat
    requires n <= |syms|
  {
    if n == 0 then 0 else Occurs(syms, v, n - 1) + if syms[n - 1] == v then 1 else 0
  }

  /** How often each symbol occurs. */
  ghost function AllOccurs(syms: seq<int>, alphaSize: nat): (row: seq<int>)
    ensures |row| == alphaSize && forall v :: 0 <= v < alphaSize ==> row[v] == Occurs(syms, v, |syms|)
  {
    seq(alphaSize, v requires 0 <= v < alphaSize => Occurs(syms, v, |syms|))
  }

  method CountSymbols(syms: seq<int>, alphaSize: nat) returns (mtfFreq: seq<int>)
    requires InAlphabet(syms, alphaSize)
    ensures mtfFreq == AllOccurs(syms, alphaSize)
  {
    mtfFreq := seq(alphaSize, _ => 0);
    var i := 0;
    while i < |syms|
      invariant 0 <= i <= |syms| && |mtfFreq| == alphaSize
      invariant forall v {:trigger mtfFreq[v]} :: 0 <= v < alphaSize ==> mtfFreq[v] == Occurs(syms, v, i)
    {
      mtfFreq := mtfFreq[syms[i] := mtfFreq[syms[i]] + 1];
      i := i + 1;
    }
  }

  /** Cheap inside gs..ge, dear outside. */
  function Flat(alphaSize: nat, gs: int, ge: int): (r: seq<int>)
    ensures |r| == alphaSize && forall v :: 0 <= v < alphaSize ==> r[v] == if gs <= v <= ge then LESSER_ICOST else GREATER_ICOST
  {
    seq(alphaSize, v => if gs <= v <= ge then LESSER_ICOST else GREATER_ICOST)
  }

  /** The first place from gs on where the symbols reach a share, or the last. */
  ghost predicate Reaches(mtfFreq: seq<int>, gs: int, share: int, ge: int) {
    && 0 <= gs <= ge + 1 <= |mtfFreq| && (ge + 1 < |mtfFreq| ==> share <= Sum(mtfFreq[gs..ge + 1]))
    && forall e {:trigger mtfFreq[gs..e + 1]} :: gs <= e + 1 <= ge ==> Sum(mtfFreq[gs..e + 1]) < share
  }

  /** Range number t takes its share of the uses that are left; every other range gives up its last symbol. */
  ghost predicate Fair(mtfFreq: seq<int>, nMTF: nat, nGroups: nat, t: nat, gs: int, end: int) {
    && t < nGroups && 0 <= gs <= |mtfFreq|
    && exists ge {:trigger Reaches(mtfFreq, gs, Quotient(nMTF - Sum(mtfFreq[..gs]), t + 1), ge)} ::
         && Reaches(mtfFreq, gs, Quotient(nMTF - Sum(mtfFreq[..gs]), t + 1), ge)
         && end == if ge > gs && t + 1 != nGroups && t != 0 && (nGroups - t - 1) % 2 == 1 then ge else ge + 1
  }

  /** Table t is cheap from gs to end - 1, which is its fair share. */
  ghost predicate Part(row: seq<int>, mtfFreq: seq<int>, nMTF: nat, nGroups: nat, t: nat, gs: int, end: int) {
    0 <= gs <= end <= |mtfFreq| && row == Flat(|mtfFreq|, gs, end - 1) && Fair(mtfFreq, nMTF, nGroups, t, gs, end)
  }

  /** Ranges follow each other from the last table down to table n. */
  ghost predicate Parts(lens: seq<seq<int>>, mtfFreq: seq<int>, nMTF: nat, nGroups: nat, cuts: seq<int>, n: nat) {
    && n <= nGroups == |lens| && |cuts| == nGroups + 1 && cuts[nGroups] == 0
    && forall t {:trigger lens[t]} :: n <= t < nGroups ==> Part(lens[t], mtfFreq, nMTF, nGroups, t, cuts[t + 1], cuts[t])
  }

  ghost predicate Initial(lens: seq<seq<int>>, mtfFreq: seq<int>, nMTF: nat, nGroups: nat, cuts: seq<int>) {
    Parts(lens, mtfFreq, nMTF, nGroups, cuts, 0)
  }

  lemma {:induction false} FairPart(mtfFreq: seq<int>, nMTF: nat, nGroups: nat, n: nat, gs: int, ge: int, end: int)
    requires 0 < n <= nGroups && 0 <= gs <= |mtfFreq| && Reaches(mtfFreq, gs, Quotient(nMTF - Sum(mtfFreq[..gs]), n), ge)
    requires end == if ge > gs && n != nGroups && n != 1 && (nGroups - n) % 2 == 1 then ge else ge + 1
    ensures Fair(mtfFreq, nMTF, nGroups, n - 1, gs, end)
  {
    assert n - 1 + 1 == n;
  }

  lemma {:induction false} PartsMore(lens: seq<seq<int>>, mtfFreq: seq<int>, nMTF: nat, nGroups: nat, cuts: seq<int>, n: nat, row: seq<int>, end: int)
    requires Parts(lens, mtfFreq, nMTF, nGroups, cuts, n) && n > 0 && Part(row, mtfFreq, nMTF, nGroups, n - 1, cuts[n], end)
    ensures Parts(lens[n - 1 := row], mtfFreq, nMTF, nGroups, cuts[n - 1 := end], n - 1)
  {
    var lens', cuts' := lens[n - 1 := row], cuts[n - 1 := end];
    forall t | n - 1 <= t < nGroups
      ensures Part(lens'[t], mtfFreq, nMTF, nGroups, t, cuts'[t + 1], cuts'[t])
    {
      if n <= t {
        assert lens[t] == lens'[t];
      }
    }
  }

  lemma {:induction false} SumSlice(s: seq<int>, i: nat, j: nat)
    requires i <= j < |s|
    ensures Sum(s[i..j + 1]) == Sum(s[i..j]) + s[j]
  {
    assert s[i..j + 1][..j - i] == s[i..j];
  }

  lemma {:induction false} SumJoin(s: seq<int>, i: nat, j: nat)
    requires i <= j <= |s|
    ensures Sum(s[..j]) == Sum(s[..i]) + Sum(s[i..j])
    decreases j
  {
    if i < j {
      SumJoin(s, i, j - 1);
      SumSlice(s, i, j - 1);
      SumPrefix(s, j - 1);
    }
  }

  /** One range: from gs up to ge, with aFreq uses. */
  method NextRange(mtfFreq: seq<int>, remF: int, nPart: nat, gs: nat, nGroups: nat, ghost nMTF: nat) returns (ge: int, aFreq: int, ghost reached: int)
    requires 0 < nPart <= nGroups && gs <= |mtfFreq| && remF == nMTF - Sum(mtfFreq[..gs])
    ensures gs - 1 <= ge < |mtfFreq| && aFreq == Sum(mtfFreq[gs..ge + 1])
    ensures Reaches(mtfFreq, gs, Quotient(remF, nPart), reached)
    ensures ge == if reached > gs && nPart != nGroups && nPart != 1 && (nGroups - nPart) % 2 == 1 then reached - 1 else reached
  {
    var tFreq := Quotient(remF, nPart);
    ge, aFreq := gs - 1, 0;
    while aFreq < tFreq && ge < |mtfFreq| - 1
      invariant gs - 1 <= ge < |mtfFreq| && aFreq == Sum(mtfFreq[gs..ge + 1])
      invariant forall e {:trigger mtfFreq[gs..e + 1]} :: gs <= e + 1 <= ge ==> Sum(mtfFreq[gs..e + 1]) < tFreq
      decreases |mtfFreq| - ge
    {
      SumSlice(mtfFreq, gs, ge + 1);
      ge := ge + 1;
      aFreq := aFreq + mtfFreq[ge];
    }
    reached := ge;
    if ge > gs && nPart != nGroups && nPart != 1 && (nGroups - nPart) % 2 == 1 {
      SumSlice(mtfFreq, gs, ge);
      aFreq := aFreq - mtfFreq[ge];
      ge := ge - 1;
    }
  }

  /** Splits the alphabet into nGroups ranges of about equal use; each table is cheap on one of them. */
  method InitialTables(mtfFreq: seq<int>, nMTF: nat, nGroups: nat, alphaSize: nat) returns (lens: seq<seq<int>>, ghost cuts: seq<int>)
    requires |mtfFreq| == alphaSize
    ensures Initial(lens, mtfFreq, nMTF, nGroups, cuts) && Rows(lens, nGroups, alphaSize)
  {
    lens := seq(nGroups, _ => Flat(alphaSize, 0, -1));
    cuts := seq(nGroups + 1, _ => 0);
    var nPart, remF, gs := nGroups, nMTF as int, 0;
    assert mtfFreq[..0] == [];
    while nPart > 0
      invariant 0 <= nPart <= nGroups && 0 <= gs <= alphaSize && Rows(lens, nGroups, alphaSize)
      invariant Parts(lens, mtfFreq, nMTF, nGroups, cuts, nPart) && cuts[nPart] == gs && remF == nMTF - Sum(mtfFreq[..gs])
    {
      var ge, aFreq;
      ghost var reached;
      ge, aFreq, reached := NextRange(mtfFreq, remF, nPart, gs, nGroups, nMTF);
      FairPart(mtfFreq, nMTF, nGroups, nPart, gs, reached, ge + 1);
      PartsMore(lens, mtfFreq, nMTF, nGroups, cuts, nPart, Flat(alphaSize, gs, ge), ge + 1);
      lens := lens[nPart - 1 := Flat(alphaSize, gs, ge)];
      cuts := cuts[nPart - 1 := ge + 1];
      SumJoin(mtfFreq, gs, ge + 1);
      nPart := nPart - 1;
      gs := ge + 1;
      remF := remF - aFreq;
    }
  }

  /** How many tables to use. */
  function GroupCount(nMTF: nat): (n: nat)
    ensures 2 <= n <= N_GROUPS
  {
    if nMTF < 200 then 2 else if nMTF < 600 then 3 else if nMTF < 1200 then 4 else if nMTF < 2400 then 5 else 6
  }

  /** What table t is used for. */
  ghost function UseRow(sel: seq<byte>, syms: seq<int>, t: int, alphaSize: nat): (row: seq<int>)
    ensures |row| == alphaSize && forall v :: 0 <= v < alphaSize ==> row[v] == Uses(sel, syms, t, v, |syms|)
  {
    seq(alphaSize, v requires 0 <= v < alphaSize => Uses(sel, syms, t, v, |syms|))
  }

  /** One round: each group takes the cheapest of the old tables, and each new table is a best code for its groups. */
  ghost predicate Round(syms: seq<int>, nGroups: nat, alphaSize: nat, lens: seq<seq<int>>, sel: seq<byte>, lens': seq<seq<int>>) {
    && |sel| == (|syms| + G_SIZE - 1) / G_SIZE && Selected(sel, lens, syms, alphaSize, nGroups)
    && |lens'| == nGroups && forall t {:trigger lens'[t]} :: 0 <= t < nGroups ==> CodeFor(UseRow(sel, syms, t, alphaSize), lens'[t])
  }

  /** What n rounds make of the first tables. */
  ghost predicate Rounds(syms: seq<int>, nGroups: nat, alphaSize: nat, first: seq<seq<int>>, n: nat, sel: seq<byte>, lens: seq<seq<int>>) {
    if n == 0 then lens == first
    else exists sel0, lens0 {:trigger Rounds(syms, nGroups, alphaSize, first, n - 1, sel0, lens0)} ::
      Rounds(syms, nGroups, alphaSize, first, n - 1, sel0, lens0) && Round(syms, nGroups, alphaSize, lens0, sel, lens)
  }

  /** What the four rounds make of the first tables. */
  ghost predicate Settled(syms: seq<int>, alphaSize: nat, x: Selectors, lens: seq<seq<int>>) {
    && x.nGroups == |lens| == GroupCount(|syms|)
    && exists first, cuts {:trigger Initial(first, AllOccurs(syms, alphaSize), |syms|, x.nGroups, cuts)} ::
         Initial(first, AllOccurs(syms, alphaSize), |syms|, x.nGroups, cuts) && Rounds(syms, x.nGroups, alphaSize, first, N_ITERS, x.list, lens)
  }

  lemma {:induction false} RoundsMore(syms: seq<int>, nGroups: nat, alphaSize: nat, first: seq<seq<int>>, n: nat, sel0: seq<byte>, lens0: seq<seq<int>>,
                                      sel: seq<byte>, lens: seq<seq<int>>)
    requires Rounds(syms, nGroups, alphaSize, first, n, sel0, lens0) && Round(syms, nGroups, alphaSize, lens0, sel, lens)
    ensures Rounds(syms, nGroups, alphaSize, first, n + 1, sel, lens)
  {
  }

  lemma {:induction false} RoundDone(syms: seq<int>, nGroups: nat, alphaSize: nat, lens: seq<seq<int>>, sel: seq<byte>, rfreq: seq<seq<int>>, lens': seq<seq<int>>)
    requires |sel| == (|syms| + G_SIZE - 1) / G_SIZE && Selected(sel, lens, syms, alphaSize, nGroups)
    requires CountsUses(rfreq, sel, syms, nGroups, alphaSize, |syms|) && CodesFor(rfreq, lens')
    ensures Round(syms, nGroups, alphaSize, lens, sel, lens')
  {
    forall t | 0 <= t < nGroups
      ensures CodeFor(UseRow(sel, syms, t, alphaSize), lens'[t])
    {
      assert CodeFor(rfreq[t], lens'[t]);
      assert rfreq[t] == UseRow(sel, syms, t, alphaSize);
    }
  }

  /** The selectors and the codes that a block is sent with: those of four rounds, and ones the receiver can undo. */
  method ChooseTables(syms: seq<int>, alphaSize: nat) returns (x: Selectors, lens: seq<seq<int>>)
    requires 0 < |syms| <= MAX_SYMBOLS && 2 <= alphaSize <= MAX_ALPHA_SIZE && InAlphabet(syms, alphaSize)
    ensures SelectorsOk(x) && |x.list| == (|syms| + G_SIZE - 1) / G_SIZE
    ensures GoodCodes(lens, alphaSize) && Settled(syms, alphaSize, x, lens)
  {
    var nGroups := GroupCount(|syms|);
    var mtfFreq := CountSymbols(syms, alphaSize);
    ghost var cuts;
    lens, cuts := InitialTables(mtfFreq, |syms|, nGroups, alphaSize);
    ghost var first := lens;
    var sel: seq<byte> := [];
    var iter := 0;
    while iter < N_ITERS
      invariant 0 <= iter <= N_ITERS && Rows(lens, nGroups, alphaSize) && Rounds(syms, nGroups, alphaSize, first, iter, sel, lens)
      invariant iter > 0 ==> GoodCodes(lens, alphaSize) && |sel| == (|syms| + G_SIZE - 1) / G_SIZE
      invariant forall g :: 0 <= g < |sel| ==> sel[g] < nGroups
    {
      ghost var sel0, lens0 := sel, lens;
      var rfreq;
      sel, rfreq := SelectTables(syms, lens, nGroups, alphaSize);
      lens := MakeCodes(rfreq, nGroups, alphaSize, |syms|);
      GoodRows(lens, alphaSize);
      RoundDone(syms, nGroups, alphaSize, lens0, sel, rfreq, lens);
      RoundsMore(syms, nGroups, alphaSize, first, iter, sel0, lens0, sel, lens);
      iter := iter + 1;
    }
    x := Selectors(nGroups, sel);
    FewSelectors(|syms|);
  }

  /** Assertion 3003: a block never needs more selectors than the arrays hold. */
  lemma {:induction false} FewSelectors(n: nat)
    requires 0 < n <= MAX_SYMBOLS
    ensures 1 <= (n + G_SIZE - 1) / G_SIZE <= MAX_SELECTORS
  {
  }

  /** The chosen selectors and codes cover every symbol. */
  lemma {:induction false} CoversSymbols(lens: seq<seq<int>>, sel: seq<byte>, syms: seq<int>, alphaSize: nat)
    requires GoodCodes(lens, alphaSize) && InAlphabet(syms, alphaSize) && |sel| == (|syms| + G_SIZE - 1) / G_SIZE
    requires forall g :: 0 <= g < |sel| ==> sel[g] < |lens|
    ensures Choices(lens, sel, syms) && AllKraft(lens) && AllLengths(lens, alphaSize)
  {
    forall t | 0 <= t < |lens|
      ensures Lengths(lens[t]) && |lens[t]| == alphaSize && Kraft(lens[t], MAX_LEN) == Pow2(MAX_LEN)
    {
      assert GoodCode(lens[t], alphaSize);
    }
    forall i | 0 <= i < |syms|
      ensures i / G_SIZE < |sel|
    {
    }
    forall i, t | 0 <= i < |syms| && 0 <= t < |lens|
      ensures Coded(lens[t], syms[i])
    {
      assert Lengths(lens[t]);
    }
  }
}
