/** The two-pass assembler: instruction sizes depend on labels, and the second pass repeats the first. */
module Xkas {
  import opened Bytes

  // ---- the program counter ----

  /** pc | 0x8000 */
  function SetBit15(pc: nat): nat {
    if pc / 0x8000 % 2 == 1 then pc else pc + 0x8000
  }

  /** A lorom address: the upper half of a bank. */
  ghost predicate InRom(pc: nat) {
    pc / 0x8000 % 2 == 1
  }

  /** Where a lorom address lies in the file if banks are laid end to end. */
  ghost function Linear(pc: nat): nat {
    pc / 0x1_0000 * 0x8000 + pc % 0x8000
  }

  /** sfctopc: (v & 0x7f0000) >> 1 | (v & 0x7fff), or an offset from 0xc00000. */
  function FileOffset(v: nat, lorom: bool, header: bool): int {
    (if lorom then v / 0x1_0000 % 0x80 * 0x8000 + v % 0x8000 else v - 0xc0_0000) + if header then 0x200 else 0
  }

  lemma {:induction false} OneStep(pc: nat, x: nat)
    requires InRom(pc) && x <= 0x4000
    ensures InRom(SetBit15(pc + x)) && Linear(SetBit15(pc + x)) == Linear(pc) + x
  {
    var bank, off := pc / 0x1_0000, pc % 0x8000;
    assert pc == bank * 0x1_0000 + 0x8000 + off;
    if off + x < 0x8000 {
      UpperHalf(bank, off + x);
    } else {
      UpperHalf(bank + 1, off + x - 0x8000);
      assert pc + x == (bank + 1) * 0x1_0000 + (off + x - 0x8000);
      assert (pc + x) / 0x8000 == 2 * bank + 2;
    }
  }

  lemma {:induction false} UpperHalf(bank: nat, off: nat)
    requires off < 0x8000
    ensures var pc := bank * 0x1_0000 + 0x8000 + off; InRom(pc) && Linear(pc) == bank * 0x8000 + off
  {
    var pc := bank * 0x1_0000 + 0x8000 + off;
    assert pc / 0x8000 == 2 * bank + 1;
  }

  /** inc_pc: in lorom a step never leaves the upper half of a bank and moves on by exactly x. */
  method IncPc(pc0: nat, x0: nat, lorom: bool) returns (pc: nat)
    ensures pc == Advanced(pc0, x0, lorom)
    ensures lorom && InRom(pc0) ==> InRom(pc) && Linear(pc) == Linear(pc0) + x0
    ensures !lorom ==> pc == pc0 + x0
  {
    pc := pc0;
    if lorom {
      var x := x0;
      while x > 0
        invariant 0 <= x <= x0 && Advanced(pc, x, true) == Advanced(pc0, x0, true)
        invariant InRom(pc0) ==> InRom(pc) && Linear(pc) == Linear(pc0) + x0 - x
      {
        var y := if x >= 0x4000 then 0x4000 else x;
        if InRom(pc) {
          OneStep(pc, y);
        }
        pc := SetBit15(pc + y);
        x := x - y;
      }
    } else {
      pc := pc + x0;
    }
  }

  /** What inc_pc computes. */
  ghost function Advanced(pc: nat, x: nat, lorom: bool): nat
    decreases x
  {
    if !lorom then pc + x
    else if x == 0 then pc
    else if x >= 0x4000 then Advanced(SetBit15(pc + 0x4000), x - 0x4000, true)
    else SetBit15(pc + x)
  }

  /** One advance for each piece that is put out. */
  ghost function AllAdvanced(pc: nat, pieces: seq<nat>, lorom: bool): nat
    decreases |pieces|
  {
    if pieces == [] then pc else AllAdvanced(Advanced(pc, pieces[0], lorom), pieces[1..], lorom)
  }

  function Total(pieces: seq<nat>): nat {
    if pieces == [] then 0 else pieces[0] + Total(pieces[1..])
  }

  /** From the upper half of a bank the pieces do not matter: all of them move on by what they add up to. */
  lemma {:induction false} AllMove(pc: nat, pieces: seq<nat>)
    requires InRom(pc)
    ensures InRom(AllAdvanced(pc, pieces, true)) && Linear(AllAdvanced(pc, pieces, true)) == Linear(pc) + Total(pieces)
    decreases |pieces|
  {
    if pieces != [] {
      AdvanceMoves(pc, pieces[0]);
      AllMove(Advanced(pc, pieces[0], true), pieces[1..]);
    }
  }

  lemma {:induction false} AdvanceMoves(pc: nat, x: nat)
    requires InRom(pc)
    ensures InRom(Advanced(pc, x, true)) && Linear(Advanced(pc, x, true)) == Linear(pc) + x
    decreases x
  {
    if x >= 0x4000 {
      OneStep(pc, 0x4000);
      AdvanceMoves(SetBit15(pc + 0x4000), x - 0x4000);
    } else if x > 0 {
      OneStep(pc, x);
    }
  }

  /** From a lower half they do. */
  lemma {:induction false} PiecesMatter()
    ensures AllAdvanced(0x7ffe, [1, 3], true) == 0x1_8002 && Advanced(0x7ffe, 4, true) == 0x8002
  {
    assert Advanced(0x7ffe, 1, true) == 0xffff && Advanced(0xffff, 3, true) == 0x1_8002;
    assert [1, 3][1..] == [3] && [3][1..] == [];
    assert AllAdvanced(0xffff, [3], true) == AllAdvanced(0x1_8002, [], true);
  }

  /** The file position moves by exactly x as long as the bank stays below the mirror. */
  lemma {:induction false} FileMoves(pc: nat, pc': nat, x: nat, header: bool)
    requires InRom(pc) && InRom(pc') && Linear(pc') == Linear(pc) + x && pc / 0x80_0000 == pc' / 0x80_0000
    ensures FileOffset(pc', true, header) == FileOffset(pc, true, header) + x
  {
    SameHalf(pc);
    SameHalf(pc');
  }

  lemma {:induction false} SameHalf(pc: nat)
    ensures Linear(pc) == pc / 0x80_0000 * 0x40_0000 + pc / 0x1_0000 % 0x80 * 0x8000 + pc % 0x8000
  {
    var bank := pc / 0x1_0000;
    assert bank / 0x80 == pc / 0x80_0000;
    assert bank == bank / 0x80 * 0x80 + bank % 0x80;
  }

  // ---- lines ----

  /** The two bits of mx: accumulator and index registers. */
  datatype Flag = M | X

  datatype Flags = Flags(m: bool, x: bool)

  function Get(f: Flags, b: Flag): bool {
    if b.M? then f.m else f.x
  }

  function Assign(f: Flags, m: Option<bool>, x: Option<bool>): Flags {
    Flags(if m.Some? then m.value else f.m, if x.Some? then x.value else f.x)
  }

  /** The argument of "assume mx": off, on, or two digits, each of which may be left as it is. */
  datatype MxArg = Off | On | Set(m: Option<bool>, x: Option<bool>)

  datatype Item =
    | Label(name: string)
    | Data(pieces: seq<nat>)
    | LongOp(target: string)
    | Immediate(flag: Flag, wide: bool)
    | Rep(m: bool, x: bool)
    | Sep(m: bool, x: bool)
    | AssumeDb(db: Option<int>)
    | AssumeMx(arg: MxArg)
    | Org(to: nat)
    | Base(to0: int)
    | Namespace(prefix: string)
    | Lorom
    | Hirom

  datatype Entry = Entry(pc: int, seen: bool)

  datatype Asm = Asm(pc: nat, lorom: bool, base: int, basepc: int, db: Option<int>, fmx: bool, mx: Flags, ns: string, labels: map<string, Entry>)

  /** as_basetopc */
  function BasePc(s: Asm): int {
    if s.base == 0 then s.pc else s.base + (s.pc - s.basepc)
  }

  /** Labels are stored and looked up under the prefix of the current namespace. */
  function Key(s: Asm, name: string): string {
    s.ns + name
  }

  /** as_resolvelabels: in the first pass a label is unresolved if not yet defined, in the second if not yet passed again. */
  function Unresolved(second: bool, s: Asm, name: string): bool {
    Key(s, name) !in s.labels || (second && !s.labels[Key(s, name)].seen)
  }

  function TargetOf(s: Asm, name: string): int {
    if Key(s, name) in s.labels then s.labels[Key(s, name)].pc else 0
  }

  function Bank(v: int): int {
    v / 0x1_0000 % 0x100
  }

  /** as2l_fn: three bytes if the target is known to lie in the assumed bank, otherwise four. */
  function LongSize(second: bool, s: Asm, name: string): nat {
    if s.db.Some? && !Unresolved(second, s, name) && s.db.value == Bank(TargetOf(s, name)) then 3 else 4
  }

  /** as2c_fn: the operand is as wide as the register it goes with is assumed to be, or as it was written. */
  function ImmediateSize(s: Asm, flag: Flag, wide: bool): nat {
    if (if s.fmx then !Get(s.mx, flag) else wide) then 3 else 2
  }

  /** The bytes that a line emits. */
  function SizeOf(second: bool, s: Asm, item: Item): nat {
    match item
    case Data(pieces) => Total(pieces)
    case LongOp(target) => LongSize(second, s, target)
    case Immediate(flag, wide) => ImmediateSize(s, flag, wide)
    case Rep(_, _) => 2
    case Sep(_, _) => 2
    case _ => 0
  }

  /** The pieces it emits them in: an opcode and its operand, or the elements of a data line. */
  function Pieces(second: bool, s: Asm, item: Item): seq<nat> {
    match item
    case Data(pieces) => pieces
    case LongOp(target) => [1, LongSize(second, s, target) - 1]
    case Immediate(flag, wide) => [1, ImmediateSize(s, flag, wide) - 1]
    case Rep(_, _) => [1, 1]
    case Sep(_, _) => [1, 1]
    case _ => []
  }

  lemma {:induction false} PiecesTotal(second: bool, s: Asm, item: Item)
    ensures Total(Pieces(second, s, item)) == SizeOf(second, s, item)
  {
    assert forall x: nat :: Total([1, x]) == 1 + Total([x]) && Total([x]) == x + Total([]) by {
      forall x: nat
        ensures Total([1, x]) == 1 + Total([x]) && Total([x]) == x + Total([])
      {
        assert [1, x][1..] == [x] && [x][1..] == [];
      }
    }
  }

  /** label_list.add; the second pass expects to find the label. */
  function Define(second: bool, s: Asm, name: string): map<string, Entry> {
    var k := Key(s, name);
    if second then
      if k in s.labels then s.labels[k := s.labels[k].(seen := true)] else s.labels
    else if k in s.labels then s.labels
    else s.labels[k := Entry(BasePc(s), false)]
  }

  /** The second pass does not find the label it comes to again, and writes through a null pointer. */
  predicate Missing(second: bool, s: Asm, item: Item) {
    second && item.Label? && Key(s, item.name) !in s.labels
  }

  /** What rep and sep clear or set, if mx is followed. */
  function Switched(s: Asm, m: bool, x: bool, to: bool): Flags {
    if s.fmx then Assign(s.mx, if m then Some(to) else None, if x then Some(to) else None) else s.mx
  }

  /** What a line does besides emitting bytes. */
  function Effect(second: bool, s: Asm, item: Item): Asm {
    match item
    case Label(name) => s.(labels := Define(second, s, name))
    case Rep(m, x) => s.(mx := Switched(s, m, x, false))
    case Sep(m, x) => s.(mx := Switched(s, m, x, true))
    case AssumeDb(db) => s.(db := db)
    case AssumeMx(Off) => s.(fmx := false)
    case AssumeMx(On) => s.(fmx := true)
    case AssumeMx(Set(m, x)) => s.(fmx := true, mx := Assign(s.mx, m, x))
    case Org(to) => s.(pc := to)
    case Base(to) => s.(base := to, basepc := s.pc)
    case Namespace(prefix) => s.(ns := prefix)
    case Lorom => s.(lorom := true, pc := 0x8000)
    case Hirom => s.(lorom := false, pc := 0xc0_0000)
    case _ => s
  }

  ghost function Step(second: bool, s: Asm, item: Item): Asm {
    Effect(second, s.(pc := AllAdvanced(s.pc, Pieces(second, s, item), s.lorom)), item)
  }

  /** The state before item i. */
  ghost function Before(second: bool, s: Asm, items: seq<Item>, i: nat): Asm
    requires i <= |items|
    decreases i
  {
    if i == 0 then s else Step(second, Before(second, s, items, i - 1), items[i - 1])
  }

  /** What each pass starts from: everything is reset but mx, the labels, their namespace and the origin of the base. */
  function Start(mx: Flags, basepc: int, ns: string, labels: map<string, Entry>): Asm {
    Asm(0xc0_0000, false, 0, basepc, None, false, mx, ns, labels)
  }

  const CLEAR := Flags(false, false)

  ghost function First(items: seq<Item>, i: nat): Asm
    requires i <= |items|
  {
    Before(false, Start(CLEAR, 0, "", map[]), items, i)
  }

  /** The end of the first pass. */
  ghost function Final(items: seq<Item>): Asm {
    First(items, |items|)
  }

  ghost function Second(items: seq<Item>, i: nat): Asm
    requires i <= |items|
  {
    Before(true, Again(Final(items)), items, i)
  }

  /** What the second pass starts from when the first ended in s. */
  function Again(s: Asm): Asm {
    Start(s.mx, s.basepc, s.ns, s.labels)
  }

  // ---- what the two passes always share ----

  /** A line that says what bit b of mx is. */
  predicate Writes(fmx: bool, item: Item, b: Flag) {
    match item
    case Rep(m, x) => fmx && if b.M? then m else x
    case Sep(m, x) => fmx && if b.M? then m else x
    case AssumeMx(Set(m, x)) => if b.M? then m.Some? else x.Some?
    case _ => false
  }

  /** Bit b of mx has been said before item i. */
  ghost predicate Said(items: seq<Item>, i: nat, b: Flag)
    requires i <= |items|
    decreases i
  {
    i > 0 && (Said(items, i - 1, b) || Writes(First(items, i - 1).fmx, items[i - 1], b))
  }

  /** Some line before item i says what the namespace is. */
  ghost predicate Spoken(items: seq<Item>, i: nat)
    requires i <= |items|
    decreases i
  {
    i > 0 && (Spoken(items, i - 1) || items[i - 1].Namespace?)
  }

  /** The namespace that item i is read in by the second pass: until a line says, the one the first pass ended in. */
  ghost function Prefix(items: seq<Item>, i: nat): string
    requires i <= |items|
  {
    if Spoken(items, i) then First(items, i).ns else Final(items).ns
  }

  /** The labels that the second pass has come to again before item i. */
  ghost function Passed(items: seq<Item>, i: nat): set<string>
    requires i <= |items|
    decreases i
  {
    if i == 0 then {}
    else if items[i - 1].Label? && Prefix(items, i - 1) + items[i - 1].name in Final(items).labels
      then Passed(items, i - 1) + {Prefix(items, i - 1) + items[i - 1].name}
    else Passed(items, i - 1)
  }

  ghost predicate Extends(a: map<string, Entry>, b: map<string, Entry>) {
    forall n :: n in a ==> n in b && b[n] == a[n]
  }

  lemma {:induction false} NextLine(items: seq<Item>, i: nat)
    requires i < |items|
    ensures First(items, i + 1) == Step(false, First(items, i), items[i]) && Second(items, i + 1) == Step(true, Second(items, i), items[i])
  {
  }

  /** Labels keep the address of their first definition. */
  lemma {:induction false} LabelsGrow(items: seq<Item>, i: nat, j: nat)
    requires i <= j <= |items|
    ensures Extends(First(items, i).labels, First(items, j).labels)
    decreases j
  {
    if i < j {
      LabelsGrow(items, i, j - 1);
      NextLine(items, j - 1);
      LabelsGrowBy(First(items, j - 1), items[j - 1]);
    }
  }

  lemma {:induction false} LabelsGrowBy(s: Asm, item: Item)
    ensures Extends(s.labels, Step(false, s, item).labels)
  {
  }

  ghost predicate Unseen(m: map<string, Entry>) {
    forall n :: n in m ==> !m[n].seen
  }

  lemma {:induction false} StaysUnseen(s: Asm, item: Item)
    requires Unseen(s.labels)
    ensures Unseen(Step(false, s, item).labels)
  {
    if item.Label? {
      assert Unseen(Define(false, s.(pc := AllAdvanced(s.pc, [], s.lorom)), item.name));
    }
  }

  lemma {:induction false} NotYetSeen(items: seq<Item>, i: nat)
    requires i <= |items|
    ensures Unseen(First(items, i).labels)
  {
    if i > 0 {
      NotYetSeen(items, i - 1);
      NextLine(items, i - 1);
      StaysUnseen(First(items, i - 1), items[i - 1]);
    }
  }

  /** The labels of the first pass at their addresses; those passed again are marked. */
  ghost predicate SameLabels(two: map<string, Entry>, final: map<string, Entry>, passed: set<string>) {
    && two.Keys == final.Keys
    && (forall n :: n in final ==> two[n].pc == final[n].pc && (two[n].seen <==> n in passed))
  }

  /** A bit that has been said is the same in both passes; one that has not is clear in the first and left over in the second. */
  ghost predicate SameBit(one: Flags, two: Flags, left: Flags, said: bool, b: Flag) {
    if said then Get(one, b) == Get(two, b) else !Get(one, b) && Get(two, b) == Get(left, b)
  }

  ghost predicate SameModes(one: Asm, two: Asm) {
    one.lorom == two.lorom && one.base == two.base && one.db == two.db && one.fmx == two.fmx
  }

  ghost predicate Alongside(items: seq<Item>, i: nat)
    requires i <= |items|
  {
    var one, two, end := First(items, i), Second(items, i), Final(items);
    && SameModes(one, two) && SameLabels(two.labels, end.labels, Passed(items, i)) && Extends(one.labels, end.labels)
    && two.ns == Prefix(items, i) && (!Spoken(items, i) ==> one.ns == "")
    && SameBit(one.mx, two.mx, end.mx, Said(items, i, M), M) && SameBit(one.mx, two.mx, end.mx, Said(items, i, X), X)
  }

  lemma {:induction false} ModesAgain(one: Asm, two: Asm, item: Item)
    requires SameModes(one, two)
    ensures SameModes(Step(false, one, item), Step(true, two, item))
  {
  }

  lemma {:induction false} LabelsAgain(items: seq<Item>, i: nat, two: Asm)
    requires i < |items| && SameLabels(two.labels, Final(items).labels, Passed(items, i)) && two.ns == Prefix(items, i)
    ensures SameLabels(Step(true, two, items[i]).labels, Final(items).labels, Passed(items, i + 1))
  {
  }

  lemma {:induction false} StepNamespace(second: bool, s: Asm, item: Item)
    ensures Step(second, s, item).ns == if item.Namespace? then item.prefix else s.ns
  {
  }

  lemma {:induction false} StepLabels(s: Asm, item: Item)
    ensures Step(false, s, item).labels.Keys == s.labels.Keys + if item.Label? then {Key(s, item.name)} else {}
  {
  }

  lemma {:induction false} NamespaceAgain(items: seq<Item>, i: nat, two: Asm)
    requires i < |items| && two.ns == Prefix(items, i) && (!Spoken(items, i) ==> First(items, i).ns == "")
    ensures Step(true, two, items[i]).ns == Prefix(items, i + 1) && (!Spoken(items, i + 1) ==> First(items, i + 1).ns == "")
  {
    NextLine(items, i);
    StepNamespace(false, First(items, i), items[i]);
    StepNamespace(true, two, items[i]);
  }

  lemma {:induction false} BitAgain(one: Asm, two: Asm, left: Flags, said: bool, item: Item, b: Flag)
    requires SameModes(one, two) && SameBit(one.mx, two.mx, left, said, b)
    ensures SameBit(Step(false, one, item).mx, Step(true, two, item).mx, left, said || Writes(one.fmx, item, b), b)
  {
  }

  /** For every program, before every line: only mx, the namespace and the counters can differ. */
  lemma {:induction false} RunAlongside(items: seq<Item>, i: nat)
    requires i <= |items|
    ensures Alongside(items, i)
    decreases i
  {
    LabelsGrow(items, i, |items|);
    if i == 0 {
      NotYetSeen(items, |items|);
    } else {
      RunAlongside(items, i - 1);
      NextLine(items, i - 1);
      var one, two, end := First(items, i - 1), Second(items, i - 1), Final(items);
      ModesAgain(one, two, items[i - 1]);
      LabelsAgain(items, i - 1, two);
      NamespaceAgain(items, i - 1, two);
      BitAgain(one, two, end.mx, Said(items, i - 1, M), items[i - 1], M);
      BitAgain(one, two, end.mx, Said(items, i - 1, X), items[i - 1], X);
    }
  }

  // ---- when the second pass repeats the first ----

  ghost predicate SameSize(items: seq<Item>, i: nat)
    requires i < |items|
  {
    SizeOf(false, First(items, i), items[i]) == SizeOf(true, Second(items, i), items[i])
  }

  /** An operand depends on a bit of mx that nothing before it sets but that the program leaves set. */
  ghost predicate StaleBit(items: seq<Item>, i: nat)
    requires i < |items|
  {
    items[i].Immediate? && First(items, i).fmx && !Said(items, i, items[i].flag) && Get(Final(items).mx, items[i].flag)
  }

  /** The target of item i is known to the first pass and lies in the assumed bank. */
  ghost predicate NearFirst(items: seq<Item>, i: nat, target: string)
    requires i <= |items|
  {
    var s := First(items, i);
    s.db.Some? && Key(s, target) in s.labels && s.db.value == Bank(s.labels[Key(s, target)].pc)
  }

  /** What the second pass takes for the target has been passed again and lies in the assumed bank. */
  ghost predicate NearAgain(items: seq<Item>, i: nat, target: string)
    requires i <= |items|
  {
    var s, k, end := First(items, i), Prefix(items, i) + target, Final(items).labels;
    s.db.Some? && k in Passed(items, i) && k in end && s.db.value == Bank(end[k].pc)
  }

  /** The name means another label, or none that was passed, in the namespace that is left over. */
  ghost predicate StaleName(items: seq<Item>, i: nat)
    requires i < |items|
  {
    items[i].LongOp? && NearFirst(items, i, items[i].target) != NearAgain(items, i, items[i].target)
  }

  ghost predicate Stale(items: seq<Item>, i: nat)
    requires i < |items|
  {
    StaleBit(items, i) || StaleName(items, i)
  }

  /** A line has the same size in both passes exactly if it is not stale. */
  lemma {:induction false} SizesRepeat(items: seq<Item>, i: nat)
    requires i < |items|
    ensures SameSize(items, i) <==> !Stale(items, i)
  {
    RunAlongside(items, i);
    var one, two := First(items, i), Second(items, i);
    if items[i].LongOp? {
      var t := items[i].target;
      assert LongSize(false, one, t) == 3 <==> NearFirst(items, i, t);
      assert LongSize(true, two, t) == 3 <==> NearAgain(items, i, t);
    }
  }

  /** A label before any namespace line, which the namespace left over makes another name that does not exist. */
  ghost predicate Orphan(items: seq<Item>, i: nat)
    requires i < |items|
  {
    items[i].Label? && !Spoken(items, i) && Final(items).ns + items[i].name !in Final(items).labels
  }

  /** The second pass misses a label exactly if it is such an orphan. */
  lemma {:induction false} MissingExactly(items: seq<Item>, i: nat)
    requires i < |items|
    ensures Missing(true, Second(items, i), items[i]) <==> Orphan(items, i)
  {
    RunAlongside(items, i);
    if items[i].Label? {
      LabelsGrow(items, i + 1, |items|);
      NextLine(items, i);
      assert Key(First(items, i), items[i].name) in First(items, i + 1).labels;
    }
  }

  /** In a program that ends in no namespace both passes read every line in the same one. */
  lemma {:induction false} SameNamespace(items: seq<Item>, i: nat)
    requires i <= |items| && Final(items).ns == ""
    ensures Prefix(items, i) == First(items, i).ns && Passed(items, i) == First(items, i).labels.Keys
    decreases i
  {
    PrefixStart(items, i);
    if i > 0 {
      SameNamespace(items, i - 1);
      NextLine(items, i - 1);
      StepLabels(First(items, i - 1), items[i - 1]);
      LabelsGrow(items, i, |items|);
    }
  }

  lemma {:induction false} PrefixStart(items: seq<Item>, i: nat)
    requires i <= |items|
    ensures Prefix(items, i) == First(items, i).ns || (First(items, i).ns == "" && Prefix(items, i) == Final(items).ns)
  {
    RunAlongside(items, i);
  }

  /** So no name of it is stale, and no label is missed. */
  lemma {:induction false} NamesRepeat(items: seq<Item>, i: nat)
    requires i < |items| && Final(items).ns == ""
    ensures !StaleName(items, i) && !Orphan(items, i)
  {
    SameNamespace(items, i);
    LabelsGrow(items, i, |items|);
    if items[i].Label? {
      NextLine(items, i);
      StepLabels(First(items, i), items[i]);
      LabelsGrow(items, i + 1, |items|);
    }
  }

  ghost predicate Fresh(items: seq<Item>, n: nat)
    requires n <= |items|
  {
    forall i {:trigger Stale(items, i)} {:trigger Orphan(items, i)} :: 0 <= i < n ==> !Stale(items, i) && !Orphan(items, i)
  }

  /** The origin of the base matters only while there is a base. */
  ghost predicate SameCounters(one: Asm, two: Asm) {
    one.pc == two.pc && (one.base != 0 ==> one.basepc == two.basepc)
  }

  lemma {:induction false} CountersAgain(one: Asm, two: Asm, item: Item)
    requires SameModes(one, two) && SameCounters(one, two) && SizeOf(false, one, item) == SizeOf(true, two, item)
    ensures SameCounters(Step(false, one, item), Step(true, two, item))
  {
  }

  lemma {:induction false} ModesAgree(items: seq<Item>, i: nat)
    requires i <= |items|
    ensures SameModes(First(items, i), Second(items, i))
  {
    RunAlongside(items, i);
  }

  /** Where no line so far is stale, the counters agree. */
  lemma {:induction false} CountersAgree(items: seq<Item>, i: nat)
    requires i <= |items| && Fresh(items, i)
    ensures SameCounters(First(items, i), Second(items, i))
    decreases i
  {
    if i > 0 {
      CountersAgree(items, i - 1);
      assert !Stale(items, i - 1);
      CountersStep(items, i - 1);
    }
  }

  lemma {:induction false} CountersStep(items: seq<Item>, i: nat)
    requires i < |items| && !Stale(items, i) && SameCounters(First(items, i), Second(items, i))
    ensures SameCounters(First(items, i + 1), Second(items, i + 1))
  {
    ModesAgree(items, i);
    SizesRepeat(items, i);
    NextLine(items, i);
    CountersAgain(First(items, i), Second(items, i), items[i]);
  }

  /** A label has in the second pass the address that the first recorded. */
  lemma {:induction false} LabelAddress(items: seq<Item>, i: nat)
    requires i < |items| && Fresh(items, i) && items[i].Label? && Key(First(items, i), items[i].name) !in First(items, i).labels
    ensures Key(First(items, i), items[i].name) in Final(items).labels
    ensures Final(items).labels[Key(First(items, i), items[i].name)].pc == BasePc(Second(items, i))
  {
    CountersAgree(items, i);
    ModesAgree(items, i);
    LabelsGrow(items, i + 1, |items|);
    NextLine(items, i);
    assert First(items, i + 1).labels[Key(First(items, i), items[i].name)].pc == BasePc(First(items, i));
  }

  /** Programs that never leave a bit of mx open. */
  ghost predicate FullSettings(items: seq<Item>) {
    forall i {:trigger items[i]} :: 0 <= i < |items| && items[i].AssumeMx? ==>
      items[i].arg.Off? || (items[i].arg.Set? && items[i].arg.m.Some? && items[i].arg.x.Some?)
  }

  lemma {:induction false} FullAreSaid(items: seq<Item>, i: nat, b: Flag)
    requires FullSettings(items) && i <= |items| && First(items, i).fmx
    ensures Said(items, i, b)
    decreases i
  {
    if i > 0 && First(items, i - 1).fmx {
      FullAreSaid(items, i - 1, b);
    } else if i > 0 {
      assert items[i - 1].AssumeMx?;
    }
  }

  /** With full settings only, and no namespace at the end, both passes agree on every size, counter and label. */
  lemma {:induction false} FullSettingsRepeat(items: seq<Item>)
    requires FullSettings(items) && Final(items).ns == ""
    ensures Fresh(items, |items|)
  {
    forall i | 0 <= i < |items|
      ensures !Stale(items, i) && !Orphan(items, i)
    {
      NamesRepeat(items, i);
      if items[i].Immediate? && First(items, i).fmx {
        FullAreSaid(items, i, items[i].flag);
      }
    }
  }

  const LEFT_OVER: seq<Item> := [AssumeMx(On), Immediate(M, true), AssumeMx(Set(Some(true), Some(true)))]

  /** mx is not reset: what the end of the first pass leaves changes the start of the second. */
  lemma {:induction false} LeftOverMatters()
    ensures !SameSize(LEFT_OVER, 1)
  {
    assert First(LEFT_OVER, 1) == Step(false, First(LEFT_OVER, 0), LEFT_OVER[0]);
    assert First(LEFT_OVER, 2) == Step(false, First(LEFT_OVER, 1), LEFT_OVER[1]);
    assert First(LEFT_OVER, 3) == Step(false, First(LEFT_OVER, 2), LEFT_OVER[2]);
    assert !Said(LEFT_OVER, 0, M) && !Said(LEFT_OVER, 1, M);
    SizesRepeat(LEFT_OVER, 1);
  }

  const LEFT_NAME: seq<Item> := [Label("a"), Namespace("n_")]

  /** Nor is the namespace: the second pass looks for n_a and crashes. */
  lemma {:induction false} LeftNameCrashes()
    ensures Missing(true, Second(LEFT_NAME, 0), LEFT_NAME[0])
  {
    assert First(LEFT_NAME, 1) == Step(false, First(LEFT_NAME, 0), LEFT_NAME[0]);
    assert First(LEFT_NAME, 2) == Step(false, First(LEFT_NAME, 1), LEFT_NAME[1]);
    assert "n_" + "a" != "a";
  }

  const TWO_NAMES: seq<Item> :=
    [Label("a"), AssumeDb(Some(0xc0)), LongOp("a"), Org(0xc1_0000), Namespace("n_"), Label("a")]

  ghost function AfterLabel(): Asm {
    Start(CLEAR, 0, "", map["a" := Entry(0xc0_0000, false)])
  }

  lemma {:induction false} TwoNamesSteps()
    ensures First(TWO_NAMES, 1) == AfterLabel() && First(TWO_NAMES, 2) == AfterLabel().(db := Some(0xc0))
    ensures Final(TWO_NAMES).ns == "n_" && Final(TWO_NAMES).labels == map["a" := Entry(0xc0_0000, false), "n_a" := Entry(0xc1_0000, false)]
  {
    var p := TWO_NAMES;
    assert First(p, 1) == Step(false, First(p, 0), p[0]);
    assert First(p, 2) == Step(false, First(p, 1), p[1]);
    assert First(p, 3) == Step(false, First(p, 2), p[2]);
    assert First(p, 4) == Step(false, First(p, 3), p[3]);
    assert First(p, 5) == Step(false, First(p, 4), p[4]);
    assert First(p, 6) == Step(false, First(p, 5), p[5]);
    assert "" + "a" == "a" && "n_" + "a" == "n_a";
  }

  /** Where it finds both names, the operand means the other label in the second pass and grows. */
  lemma {:induction false} LeftNameMatters()
    ensures !SameSize(TWO_NAMES, 2) && !Orphan(TWO_NAMES, 0)
  {
    var p := TWO_NAMES;
    TwoNamesSteps();
    assert "" + "a" == "a" && "n_" + "a" == "n_a";
    assert !Spoken(p, 0) && !Spoken(p, 1) && !Spoken(p, 2);
    assert NearFirst(p, 2, "a");
    assert !NearAgain(p, 2, "a");
    SizesRepeat(p, 2);
  }

  // ---- the assembler's state ----

  /** A pass has got beyond item i, which emitted so many bytes. */
  ghost predicate Reports(second: bool, start: Asm, items: seq<Item>, i: nat, size: nat) {
    && i < |items| && size == SizeOf(second, Before(second, start, items, i), items[i])
    && !Missing(second, Before(second, start, items, i), items[i])
  }

  class Assembler {
    var pass: bool
    var pc: nat
    var lorom: bool
    var base: int
    var basepc: int
    var db: Option<int>
    var fmx: bool
    var mx: Flags
    var ns: string
    var labels: map<string, Entry>

    ghost function Now(): Asm
      reads this
    {
      Asm(pc, lorom, base, basepc, db, fmx, mx, ns, labels)
    }

    constructor ()
      ensures !pass && Now() == Start(CLEAR, 0, "", map[])
    {
      pass, mx, ns, labels := false, CLEAR, "", map[];
      pc, lorom, base, basepc, db, fmx := 0xc0_0000, false, 0, 0, None, false;
    }

    /** What assemble resets between passes. */
    method BeginPass(second: bool)
      modifies this
      ensures pass == second && Now() == Again(old(Now()))
    {
      pass := second;
      pc, lorom, base, db, fmx := 0xc0_0000, false, 0, None, false;
    }

    /** Says whether the label was found where it has to be. */
    method AddLabel(name: string) returns (ok: bool)
      modifies this`labels
      ensures labels == Define(pass, old(Now()), name) && (ok <==> !Missing(pass, old(Now()), Label(name)))
    {
      ok := true;
      var k := ns + name;
      if pass {
        ok := k in labels;
        if ok {
          labels := labels[k := labels[k].(seen := true)];
        }
      } else if k !in labels {
        labels := labels[k := Entry(if base == 0 then pc else base + (pc - basepc), false)];
      }
    }

    method LongBytes(target: string) returns (size: nat)
      ensures size == LongSize(pass, Now(), target)
    {
      var k := ns + target;
      var unresolved := k !in labels || (pass && !labels[k].seen);
      var v := if k in labels then labels[k].pc else 0;
      size := 4;
      if db.Some? && !unresolved {
        if db.value == v / 0x1_0000 % 0x100 {
          size := 3;
        }
      }
    }

    method ImmediateBytes(flag: Flag, wide: bool) returns (size: nat)
      ensures size == ImmediateSize(Now(), flag, wide)
    {
      size := 2;
      if fmx {
        if !Get(mx, flag) {
          size := 3;
        }
      } else if wide {
        size := 3;
      }
    }

    method Emit(size: nat)
      modifies this`pc
      ensures pc == Advanced(old(pc), size, lorom)
    {
      pc := IncPc(pc, size, lorom);
    }

    /** The pieces one after the other. */
    method EmitAll(pieces: seq<nat>)
      modifies this`pc
      ensures pc == AllAdvanced(old(pc), pieces, lorom)
    {
      var i := 0;
      assert pieces[0..] == pieces;
      while i < |pieces|
        invariant 0 <= i <= |pieces| && AllAdvanced(pc, pieces[i..], lorom) == AllAdvanced(old(pc), pieces, lorom)
      {
        assert pieces[i..][1..] == pieces[i + 1..];
        Emit(pieces[i]);
        i := i + 1;
      }
    }

    /** A line that emits bytes. */
    method Instruction(item: Item) returns (size: nat)
      requires item.Data? || item.LongOp? || item.Immediate? || item.Rep? || item.Sep?
      modifies this`pc, this`mx
      ensures Now() == Step(pass, old(Now()), item) && size == SizeOf(pass, old(Now()), item)
    {
      size := 2;
      if item.Data? {
        EmitAll(item.pieces);
        return Total(item.pieces);
      }
      if item.LongOp? {
        size := LongBytes(item.target);
      } else if item.Immediate? {
        size := ImmediateBytes(item.flag, item.wide);
      }
      EmitAll([1, size - 1]);
      if item.Rep? && fmx {
        mx := Flags(mx.m && !item.m, mx.x && !item.x);
      }
      if item.Sep? && fmx {
        mx := Flags(mx.m || item.m, mx.x || item.x);
      }
    }

    /** A line that does not. */
    method Directive(item: Item) returns (ok: bool)
      requires !(item.Data? || item.LongOp? || item.Immediate? || item.Rep? || item.Sep?)
      modifies this
      ensures Now() == Effect(pass, old(Now()), item) && pass == old(pass) && (ok <==> !Missing(pass, old(Now()), item))
    {
      ok := true;
      match item
      case Label(name) => ok := AddLabel(name);
      case AssumeDb(d) => db := d;
      case AssumeMx(Off) => fmx := false;
      case AssumeMx(On) => fmx := true;
      case AssumeMx(Set(m, x)) =>
        fmx := true;
        mx := Assign(mx, m, x);
      case Org(to) => pc := to;
      case Base(to) => base, basepc := to, pc;
      case Namespace(prefix) => ns := prefix;
      case Lorom => lorom, pc := true, 0x8000;
      case Hirom => lorom, pc := false, 0xc0_0000;
    }

    method Line(item: Item) returns (ok: bool, size: nat)
      modifies this
      ensures Now() == Step(pass, old(Now()), item) && pass == old(pass) && size == SizeOf(pass, old(Now()), item)
      ensures ok <==> !Missing(pass, old(Now()), item)
    {
      ok := true;
      if item.Data? || item.LongOp? || item.Immediate? || item.Rep? || item.Sep? {
        size := Instruction(item);
      } else {
        size := 0;
        assert Now().(pc := AllAdvanced(pc, [], lorom)) == Now();
        ok := Directive(item);
      }
    }

    /** One pass, which ends early at a label that is missed. */
    method OnePass(items: seq<Item>, ghost start: Asm) returns (sizes: seq<nat>)
      requires Now() == start
      modifies this
      ensures pass == old(pass) && |sizes| <= |items|
      ensures |sizes| == |items| ==> Now() == Before(pass, start, items, |items|)
      ensures |sizes| < |items| ==> Missing(pass, Before(pass, start, items, |sizes|), items[|sizes|])
      ensures forall i {:trigger sizes[i]} :: 0 <= i < |sizes| ==> Reports(pass, start, items, i, sizes[i])
    {
      sizes := [];
      var i := 0;
      while i < |items|
        invariant 0 <= i <= |items| && pass == old(pass) && Now() == Before(pass, start, items, i) && |sizes| == i
        invariant forall k {:trigger sizes[k]} :: 0 <= k < i ==> Reports(pass, start, items, k, sizes[k])
      {
        ghost var s := Now();
        var ok, size := Line(items[i]);
        assert s == Before(pass, start, items, i);
        assert ok <==> !Missing(pass, s, items[i]);
        if !ok {
          return;
        }
        assert Reports(pass, start, items, i, size);
        sizes := sizes + [size];
        i := i + 1;
      }
    }

    /**
     * Both passes over a program: the second runs to the end and repeats all sizes exactly if no line is stale
     * and no label an orphan, and then it ends where the first did.
     */
    method Assemble(items: seq<Item>) returns (first: seq<nat>, second: seq<nat>, end1: nat, end2: nat)
      requires !pass && Now() == Start(CLEAR, 0, "", map[])
      modifies this
      ensures |first| == |items| && (first == second <==> Fresh(items, |items|))
      ensures first == second ==> end1 == end2
      ensures |second| < |items| ==> Orphan(items, |second|)
    {
      first := OnePass(items, Start(CLEAR, 0, "", map[]));
      end1 := pc;
      BeginPass(true);
      second := OnePass(items, Again(Final(items)));
      end2 := pc;
      Compared(items, first, second);
      if first == second {
        CountersAgree(items, |items|);
      }
    }
  }

  /** How the sizes that two passes report compare. */
  lemma {:induction false} Compared(items: seq<Item>, first: seq<nat>, second: seq<nat>)
    requires |first| == |items| >= |second|
    requires |second| < |items| ==> Missing(true, Second(items, |second|), items[|second|])
    requires forall i {:trigger first[i]} :: 0 <= i < |items| ==> Reports(false, First(items, 0), items, i, first[i])
    requires forall i {:trigger second[i]} :: 0 <= i < |second| ==> Reports(true, Second(items, 0), items, i, second[i])
    ensures first == second <==> Fresh(items, |items|)
    ensures |second| < |items| ==> Orphan(items, |second|)
  {
    if |second| < |items| {
      MissingExactly(items, |second|);
    } else {
      forall i | 0 <= i < |items|
        ensures first[i] == second[i] <==> !Stale(items, i)
        ensures !Orphan(items, i)
      {
        assert Reports(false, First(items, 0), items, i, first[i]) && Reports(true, Second(items, 0), items, i, second[i]);
        SizesRepeat(items, i);
        MissingExactly(items, i);
      }
      if first == second {
        assert forall i | 0 <= i < |items| :: first[i] == second[i];
      }
    }
  }
}
