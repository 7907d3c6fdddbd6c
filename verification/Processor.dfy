/**
 * What "assume mx" is for: in straight-line code the assembler knows the two width flags of the processor's status
 * register, so that each immediate operand is as wide as the processor reads it.
 */
module Processor {
  import opened Bytes
  import opened Xkas

  type status = bv8

  const REP: bv8 := 0xC2
  const SEP: bv8 := 0xE2

  /** Bit 5 is the accumulator's flag, bit 4 the index registers'; set means eight bits. */
  function Widths(p: status): Flags {
    Flags(p & 0x20 != 0, p & 0x10 != 0)
  }

  function MaskOf(m: bool, x: bool): bv8 {
    (if m then 0x20 else 0) | (if x then 0x10 else 0)
  }

  /** The processor on an opcode with one byte of operand: rep clears the bits of the operand, sep sets them. */
  function Executed(opcode: bv8, operand: bv8, p: status): status {
    if opcode == REP then p & !operand else if opcode == SEP then p | operand else p
  }

  /** What the bytes of a line do to the status register. */
  function AfterLine(item: Item, p: status): status {
    match item
    case Rep(m, x) => Executed(REP, MaskOf(m, x), p)
    case Sep(m, x) => Executed(SEP, MaskOf(m, x), p)
    case _ => p
  }

  ghost function AfterLines(items: seq<Item>, p: status, i: nat): status
    requires i <= |items|
    decreases i
  {
    if i == 0 then p else AfterLine(items[i - 1], AfterLines(items, p, i - 1))
  }

  lemma {:induction false} RepClears(m: bool, x: bool, p: status)
    ensures Widths(Executed(REP, MaskOf(m, x), p)) == Assign(Widths(p), if m then Some(false) else None, if x then Some(false) else None)
  {
  }

  lemma {:induction false} SepSets(m: bool, x: bool, p: status)
    ensures Widths(Executed(SEP, MaskOf(m, x), p)) == Assign(Widths(p), if m then Some(true) else None, if x then Some(true) else None)
  {
  }

  /** Nothing is said about mx in between. */
  ghost predicate Silent(items: seq<Item>) {
    forall i :: 0 <= i < |items| ==> !items[i].AssumeMx?
  }

  /** Where the line stands does not matter to the flags. */
  lemma {:induction false} StepFlags(second: bool, s: Asm, item: Item)
    requires !item.AssumeMx?
    ensures Step(second, s, item).fmx == s.fmx
    ensures Step(second, s, item).mx == match item
      case Rep(m, x) => Switched(s, m, x, false)
      case Sep(m, x) => Switched(s, m, x, true)
      case _ => s.mx
  {
  }

  lemma {:induction false} LineInStep(second: bool, s: Asm, item: Item, p: status)
    requires !item.AssumeMx? && s.fmx && s.mx == Widths(p)
    ensures Step(second, s, item).fmx && Step(second, s, item).mx == Widths(AfterLine(item, p))
  {
    StepFlags(second, s, item);
    if item.Rep? {
      RepClears(item.m, item.x, p);
    } else if item.Sep? {
      SepSets(item.m, item.x, p);
    }
  }

  /** If mx is followed and right, it stays so. */
  lemma {:induction false} StaysInStep(second: bool, s: Asm, items: seq<Item>, p: status, i: nat)
    requires i <= |items| && Silent(items) && s.fmx && s.mx == Widths(p)
    ensures Before(second, s, items, i).fmx && Before(second, s, items, i).mx == Widths(AfterLines(items, p, i))
    decreases i
  {
    if i > 0 {
      StaysInStep(second, s, items, p, i - 1);
      LineInStep(second, Before(second, s, items, i - 1), items[i - 1], AfterLines(items, p, i - 1));
    }
  }

  /** Every immediate operand has the width that the processor reads when it comes to it. */
  lemma {:induction false} OperandsFit(second: bool, s: Asm, items: seq<Item>, p: status, i: nat)
    requires i < |items| && Silent(items) && s.fmx && s.mx == Widths(p) && items[i].Immediate?
    ensures SizeOf(second, Before(second, s, items, i), items[i])
         == if Get(Widths(AfterLines(items, p, i)), items[i].flag) then 2 else 3
  {
    StaysInStep(second, s, items, p, i);
  }
}
