/** The assembler's if/elseif/else/endif counters against the structure of the program. */
module Conditionals {
  import opened Bytes

  /** A line of input: a directive with its condition already evaluated, or anything else. */
  datatype Token = If(cond: bool) | ElseIf(cond: bool) | Else | EndIf | Line(id: int)

  // ---- the counters ----

  /** numtrue of the numif open chains run; elsestatus says which chains have run a branch. */
  datatype State = State(numif: int, numtrue: int, elsestatus: map<int, bool>)

  function Status(els: map<int, bool>, i: int): bool {
    i in els && els[i]
  }

  /** One line; a misplaced else or endif is an error. Returns the lines that run. */
  function Step(s: State, t: Token): Option<(State, seq<int>)> {
    match t
    case If(cond) =>
      if s.numtrue != s.numif then Some((s.(numif := s.numif + 1), []))
      else
        var n := s.numif + 1;
        Some((State(n, if cond then s.numtrue + 1 else s.numtrue, s.elsestatus[n := cond]), []))
    case ElseIf(cond) =>
      if s.numtrue != s.numif && s.numtrue + 1 != s.numif then Some((s, []))
      else
        var numtrue := if s.numif == s.numtrue then s.numtrue - 1 else s.numtrue;
        if cond && !Status(s.elsestatus, s.numif) then Some((State(s.numif, numtrue + 1, s.elsestatus[s.numif := true]), []))
        else Some((s.(numtrue := numtrue), []))
    case Else =>
      if s.numif == 0 then None
      else if s.numif == s.numtrue then Some((s.(numtrue := s.numtrue - 1), []))
      else if s.numif == s.numtrue + 1 && !Status(s.elsestatus, s.numif) then
        Some((State(s.numif, s.numtrue + 1, s.elsestatus[s.numif := true]), []))
      else Some((s, []))
    case EndIf =>
      if s.numif == 0 then None
      else Some((State(s.numif - 1, if s.numif == s.numtrue then s.numtrue - 1 else s.numtrue, s.elsestatus), []))
    case Line(id) =>
      Some((s, if s.numif == s.numtrue then [id] else []))
  }

  function Run(s: State, ts: seq<Token>): Option<(State, seq<int>)>
    decreases |ts|
  {
    if ts == [] then Some((s, []))
    else match Step(s, ts[0])
      case None => None
      case Some(r) =>
        (match Run(r.0, ts[1..])
         case None => None
         case Some(q) => Some((q.0, r.1 + q.1)))
  }

  lemma {:induction false} RunCons(s: State, t: Token, ts: seq<Token>, s1: State, a: seq<int>, s2: State, b: seq<int>)
    requires Step(s, t) == Some((s1, a)) && Run(s1, ts) == Some((s2, b))
    ensures Run(s, [t] + ts) == Some((s2, a + b))
  {
    assert ([t] + ts)[1..] == ts;
  }

  lemma {:induction false} RunAppend(s: State, ts: seq<Token>, us: seq<Token>, s1: State, a: seq<int>, s2: State, b: seq<int>)
    requires Run(s, ts) == Some((s1, a)) && Run(s1, us) == Some((s2, b))
    ensures Run(s, ts + us) == Some((s2, a + b))
    decreases |ts|
  {
    if ts == [] {
      assert ts + us == us && a + b == b;
    } else {
      var r := Step(s, ts[0]).value;
      var q := Run(r.0, ts[1..]).value;
      RunAppend(r.0, ts[1..], us, s1, q.1, s2, b);
      assert ts + us == [ts[0]] + (ts[1..] + us);
      RunCons(s, ts[0], ts[1..] + us, r.0, r.1, s2, q.1 + b);
      assert r.1 + (q.1 + b) == a + b;
    }
  }

  // ---- programs ----

  datatype Block = Nil | Cons(first: Stmt, more: Block)
  datatype Stmt = Plain(id: int) | Chain(cond: bool, body: Block, rest: Rest)
  /** Further branches; an else is a branch whose condition holds. */
  datatype Rest = End | Branch(word: Token, body: Block, rest: Rest)

  ghost predicate WordOk(t: Token) {
    t.ElseIf? || t.Else?
  }

  ghost predicate BlockOk(b: Block) {
    match b
    case Nil => true
    case Cons(s, more) => StmtOk(s) && BlockOk(more)
  }

  ghost predicate StmtOk(s: Stmt) {
    match s
    case Plain(_) => true
    case Chain(_, body, rest) => BlockOk(body) && RestOk(rest)
  }

  ghost predicate RestOk(r: Rest) {
    match r
    case End => true
    case Branch(word, body, rest) => WordOk(word) && BlockOk(body) && RestOk(rest)
  }

  function Holds(t: Token): bool {
    t.Else? || (t.ElseIf? && t.cond)
  }

  /** The lines that should run: in each chain those of the first branch whose condition holds. */
  ghost function Exec(b: Block): seq<int> {
    match b
    case Nil => []
    case Cons(s, more) => ExecStmt(s) + Exec(more)
  }

  ghost function ExecStmt(s: Stmt): seq<int> {
    match s
    case Plain(id) => [id]
    case Chain(cond, body, rest) => if cond then Exec(body) else ExecRest(rest)
  }

  ghost function ExecRest(r: Rest): seq<int> {
    match r
    case End => []
    case Branch(word, body, rest) => if Holds(word) then Exec(body) else ExecRest(rest)
  }

  ghost function Flatten(b: Block): seq<Token> {
    match b
    case Nil => []
    case Cons(s, more) => FlattenStmt(s) + Flatten(more)
  }

  ghost function FlattenStmt(s: Stmt): seq<Token> {
    match s
    case Plain(id) => [Line(id)]
    case Chain(cond, body, rest) => [If(cond)] + (Flatten(body) + FlattenRest(rest))
  }

  ghost function FlattenRest(r: Rest): seq<Token> {
    match r
    case End => [EndIf]
    case Branch(word, body, rest) => [word] + (Flatten(body) + FlattenRest(rest))
  }

  // ---- the counters run what the structure says ----

  ghost predicate StateOk(s: State) {
    0 <= s.numtrue <= s.numif
  }

  /** The counters are as before, and so is what is recorded of the open chains. */
  ghost predicate Restored(s: State, s': State) {
    s'.numif == s.numif && s'.numtrue == s.numtrue && forall i :: i <= s.numif ==> Status(s'.elsestatus, i) == Status(s.elsestatus, i)
  }

  ghost function IfRunning(s: State, ids: seq<int>): seq<int> {
    if s.numif == s.numtrue then ids else []
  }

  ghost predicate Runs(s: State, ts: seq<Token>, ids: seq<int>) {
    var r := Run(s, ts);
    r.Some? && Restored(s, r.value.0) && r.value.1 == ids
  }

  /** Anything recorded for chains not open has no influence: only the state's own numbers decide. */
  lemma {:induction false} RunBlock(b: Block, s: State)
    requires BlockOk(b) && StateOk(s)
    ensures Runs(s, Flatten(b), IfRunning(s, Exec(b)))
    decreases b, 2
  {
    match b
    case Nil =>
    case Cons(first, more) =>
      RunStmt(first, s);
      var r := Run(s, FlattenStmt(first)).value;
      RunBlock(more, r.0);
      var q := Run(r.0, Flatten(more)).value;
      RunAppend(s, FlattenStmt(first), Flatten(more), r.0, r.1, q.0, q.1);
  }

  lemma {:induction false} RunStmt(st: Stmt, s: State)
    requires StmtOk(st) && StateOk(s)
    ensures Runs(s, FlattenStmt(st), IfRunning(s, ExecStmt(st)))
    decreases st, 1
  {
    match st
    case Plain(id) =>
      assert [Line(id)][1..] == [];
      assert [id] + [] == [id];
    case Chain(cond, body, rest) =>
      var s1 := Step(s, If(cond)).value.0;
      RunBlock(body, s1);
      var r := Run(s1, Flatten(body)).value;
      RunRest(rest, r.0);
      var q := Run(r.0, FlattenRest(rest)).value;
      RunAppend(s1, Flatten(body), FlattenRest(rest), r.0, r.1, q.0, q.1);
      RunCons(s, If(cond), Flatten(body) + FlattenRest(rest), s1, [], q.0, r.1 + q.1);
      ChainLines(s, cond, Exec(body), ExecRest(rest), r.1, q.1);
  }

  lemma {:induction false} ChainLines(s: State, c: bool, x: seq<int>, y: seq<int>, a: seq<int>, b: seq<int>)
    requires a == (if s.numif == s.numtrue && c then x else []) && b == (if s.numif == s.numtrue && !c then y else [])
    ensures [] + (a + b) == IfRunning(s, if c then x else y)
  {
  }

  /** Within the innermost chain: it waits for a branch whose condition holds. */
  ghost predicate Waiting(s: State) {
    s.numtrue + 1 == s.numif && !Status(s.elsestatus, s.numif)
  }

  /** The chain has run a branch, or is itself not reached. */
  ghost predicate Over(s: State) {
    && (s.numtrue == s.numif || s.numtrue + 1 == s.numif ==> Status(s.elsestatus, s.numif))
  }

  ghost predicate ChainClosed(s: State, s': State) {
    && s'.numif == s.numif - 1 && s'.numtrue == (if s.numtrue == s.numif then s.numtrue - 1 else s.numtrue)
    && forall i :: i < s.numif ==> Status(s'.elsestatus, i) == Status(s.elsestatus, i)
  }

  ghost predicate ClosesWith(s: State, ts: seq<Token>, ids: seq<int>) {
    var r := Run(s, ts);
    r.Some? && ChainClosed(s, r.value.0) && r.value.1 == ids
  }

  /** The rest of a chain: at most one more branch runs, and only if none has. */
  lemma {:induction false} RunRest(rest: Rest, s: State)
    requires RestOk(rest) && StateOk(s) && s.numif > 0 && (Waiting(s) || Over(s))
    ensures ClosesWith(s, FlattenRest(rest), if Waiting(s) then ExecRest(rest) else [])
    decreases rest, 0
  {
    match rest
    case End =>
      assert [EndIf][1..] == [];
    case Branch(word, body, more) =>
      var s1 := Step(s, word).value.0;
      AfterWord(s, word);
      RunBlock(body, s1);
      var r := Run(s1, Flatten(body)).value;
      RunRest(more, r.0);
      var q := Run(r.0, FlattenRest(more)).value;
      RunAppend(s1, Flatten(body), FlattenRest(more), r.0, r.1, q.0, q.1);
      RunCons(s, word, Flatten(body) + FlattenRest(more), s1, [], q.0, r.1 + q.1);
      BranchLines(s, s1, word, Exec(body), ExecRest(more), r.1, q.1);
  }

  /** What elseif and else do to the chain. */
  lemma {:induction false} AfterWord(s: State, word: Token)
    requires WordOk(word) && StateOk(s) && s.numif > 0 && (Waiting(s) || Over(s))
    ensures var r := Step(s, word); r.Some? && r.value.1 == [] && (var s1 := r.value.0;
      && StateOk(s1) && s1.numif == s.numif && (Waiting(s1) || Over(s1))
      && (s1.numtrue == s1.numif <==> Waiting(s) && Holds(word))
      && (Waiting(s1) <==> Waiting(s) && !Holds(word))
      && (if s1.numtrue == s1.numif then s1.numtrue - 1 else s1.numtrue) == (if s.numtrue == s.numif then s.numtrue - 1 else s.numtrue)
      && forall i :: i < s.numif ==> Status(s1.elsestatus, i) == Status(s.elsestatus, i))
  {
  }

  lemma {:induction false} BranchLines(s: State, s1: State, word: Token, x: seq<int>, y: seq<int>, a: seq<int>, b: seq<int>)
    requires (s1.numtrue == s1.numif <==> Waiting(s) && Holds(word)) && (Waiting(s1) <==> Waiting(s) && !Holds(word))
    requires a == IfRunning(s1, x) && b == if Waiting(s1) then y else []
    ensures [] + (a + b) == if Waiting(s) then if Holds(word) then x else y else []
  {
  }

  /** A whole program, from a fresh assembler or with anything left over in elsestatus, runs the right lines. */
  lemma {:induction false} ProgramRuns(b: Block, els: map<int, bool>)
    requires BlockOk(b)
    ensures var r := Run(State(0, 0, els), Flatten(b));
      r.Some? && r.value.1 == Exec(b) && r.value.0.numif == 0 == r.value.0.numtrue
  {
    RunBlock(b, State(0, 0, els));
  }

  // ---- the counters as the assembler keeps them ----

  class Assembler {
    var elsestatus: map<int, bool>
    var numtrue: int
    var numif: int

    ghost function Now(): State
      reads this
    {
      State(numif, numtrue, elsestatus)
    }

    constructor ()
      ensures Now() == State(0, 0, map[])
    {
      elsestatus, numtrue, numif := map[], 0, 0;
    }

    /** One line of the assembler's main switch; returns whether an ordinary line is assembled. */
    method Directive(t: Token) returns (ok: bool, runs: bool)
      modifies this
      ensures ok <==> Step(old(Now()), t).Some?
      ensures ok ==> Now() == Step(old(Now()), t).value.0 && (runs <==> t.Line? && Step(old(Now()), t).value.1 != [])
      ensures !ok ==> Now() == old(Now())
    {
      ok, runs := true, false;
      if t.If? || t.ElseIf? {
        if numtrue != numif && !(t.ElseIf? && numtrue + 1 == numif) {
          if t.If? {
            numif := numif + 1;
          }
          return;
        }
        if t.If? {
          numif := numif + 1;
          if t.cond {
            numtrue := numtrue + 1;
            elsestatus := elsestatus[numif := true];
          } else {
            elsestatus := elsestatus[numif := false];
          }
        } else {
          if numif == numtrue {
            numtrue := numtrue - 1;
          }
          if t.cond && !Status(elsestatus, numif) {
            numtrue := numtrue + 1;
            elsestatus := elsestatus[numif := true];
          }
        }
      } else if t.EndIf? {
        if numif == 0 {
          return false, false;
        }
        if numif == numtrue {
          numtrue := numtrue - 1;
        }
        numif := numif - 1;
      } else if t.Else? {
        if numif == 0 {
          return false, false;
        } else if numif == numtrue {
          numtrue := numtrue - 1;
        } else if numif == numtrue + 1 && !Status(elsestatus, numif) {
          numtrue := numtrue + 1;
          elsestatus := elsestatus[numif := true];
        }
      } else {
        runs := numif == numtrue;
      }
    }

    /** Line after line, until one is an error. */
    method RunLines(ts: seq<Token>) returns (ok: bool, ids: seq<int>)
      modifies this
      ensures ok <==> Run(old(Now()), ts).Some?
      ensures ok ==> Run(old(Now()), ts) == Some((Now(), ids))
    {
      ids := [];
      assert ts[0..] == ts;
      NothingBefore(Run(Now(), ts));
      for i := 0 to |ts|
        invariant Joined(ids, Run(Now(), ts[i..])) == Run(old(Now()), ts)
      {
        ghost var was := Now();
        var runs;
        ok, runs := Directive(ts[i]);
        OneLine(was, ts[i..], ids);
        if !ok {
          return;
        }
        assert ts[i..][1..] == ts[i + 1..];
        assert runs ==> Step(was, ts[i]).value.1 == [ts[i].id];
        assert !runs ==> Step(was, ts[i]).value.1 == [] && ids + [] == ids;
        if runs {
          ids := ids + [ts[i].id];
        }
      }
      assert Run(Now(), ts[|ts|..]) == Some((Now(), [])) && ids + [] == ids;
      ok := true;
    }

    /** A whole program runs exactly the lines of the branches that its structure selects. */
    method RunProgram(ts: seq<Token>, ghost b: Block) returns (ok: bool, ids: seq<int>)
      requires BlockOk(b) && ts == Flatten(b) && numif == numtrue == 0
      modifies this
      ensures ok && ids == Exec(b) && numif == numtrue == 0
    {
      ProgramRuns(b, elsestatus);
      ok, ids := RunLines(ts);
    }
  }

  /** The lines run so far, and those of the rest. */
  ghost function Joined(ids: seq<int>, r: Option<(State, seq<int>)>): Option<(State, seq<int>)> {
    if r.Some? then Some((r.value.0, ids + r.value.1)) else None
  }

  lemma {:induction false} NothingBefore(r: Option<(State, seq<int>)>)
    ensures Joined([], r) == r
  {
    if r.Some? {
      assert [] + r.value.1 == r.value.1;
    }
  }

  lemma {:induction false} OneLine(s: State, ts: seq<Token>, ids: seq<int>)
    requires ts != []
    ensures var r := Step(s, ts[0]);
      if r.None? then Run(s, ts).None? else Joined(ids, Run(s, ts)) == Joined(ids + r.value.1, Run(r.value.0, ts[1..]))
  {
    var r := Step(s, ts[0]);
    if r.Some? && Run(r.value.0, ts[1..]).Some? {
      assert ids + (r.value.1 + Run(r.value.0, ts[1..]).value.1) == ids + r.value.1 + Run(r.value.0, ts[1..]).value.1;
    }
  }
}
