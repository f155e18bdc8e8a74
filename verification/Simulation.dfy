/**
  Lowering preserves meaning.  Each run of a source statement is matched by the machine
  running the blocks emitted for it, from where the emitter stood before to where it
  stands afterwards; a run that exhausts its fuel is matched by at least as many steps.

  Two shapes are lowered to something else, and `Faithful` says when that matters: a
  do-while leaves its pair on the loop stack, so a later break or continue of the loop
  around it goes astray; and a `for` without a condition whose body never reaches its end
  leaves the `next` block empty, although a continue goes there.
*/
module Simulation {
  import opened Wrappers
  import opened Ast
  import opened Semantics
  import opened Analysis
  import opened Reachability
  import opened Machine
  import opened Lowering

  /** Does lowering the statement leave a pair behind on the loop stack? */
  predicate Leaks(s: Statement) {
    match s
    case SDoWhile(_, _, _) => true
    case SBlock(ss) => LeaksAny(ss)
    case SIf(_, _, t, e) => LeaksAny(t) || LeaksAny(e)
    case SWhile(_, _, body) => LeaksAny(body)
    case SFor(_, init, _, _, body) => LeaksAny(init) || LeaksAny(body)
    case _ => false
  }

  predicate LeaksAny(ss: seq<Statement>) {
    ss != [] && (Leaks(ss[0]) || LeaksAny(ss[1..]))
  }

  /** Does the statement contain a continue that belongs to a loop around it? */
  predicate Continues(s: Statement) {
    match s
    case SContinue => true
    case SBlock(ss) => ContinuesAny(ss)
    case SIf(_, _, t, e) => ContinuesAny(t) || ContinuesAny(e)
    case SFor(_, init, _, _, _) => ContinuesAny(init)
    case _ => false
  }

  predicate ContinuesAny(ss: seq<Statement>) {
    ss != [] && (Continues(ss[0]) || ContinuesAny(ss[1..]))
  }

  predicate Faithful(s: Statement) {
    match s
    case SBlock(ss) => FaithfulAll(ss)
    case SIf(_, _, t, e) => FaithfulAll(t) && FaithfulAll(e) && (LeaksAny(t) ==> !JumpsAny(e))
    case SWhile(_, _, body) => FaithfulAll(body)
    case SDoWhile(_, body, _) => FaithfulAll(body)
    case SFor(_, init, c, next, body) =>
      && FaithfulAll(init)
      && FaithfulAll(body)
      && (c.None? && next.Some? && ContinuesAny(body) ==> LastReachable(body))
    case _ => true
  }

  predicate FaithfulAll(ss: seq<Statement>) {
    ss == [] || (Faithful(ss[0]) && FaithfulAll(ss[1..]) && (Leaks(ss[0]) ==> !JumpsAny(ss[1..])))
  }

  /** Without a do-while the loop stack is restored. */
  lemma {:induction false} NoLeak(s: Statement, g: State)
    requires g.Valid() && (Jumps(s) ==> g.loops != []) && !Leaks(s)
    ensures Lower(s, g).loops == g.loops
    decreases s, 1
  {
    match s
    case SBlock(ss) => NoLeakBlock(ss, g);
    case SIf(_, c, t, e) => NoLeakIf(s, g);
    case SWhile(_, c, body) =>
      NoLeakAll(body, WhileBody(s, g));
      assert WhileBody(s, g).Pop().loops == g.loops;
    case SFor(_, init, c, _, body) => if c.Some? { NoLeakFor(s, g); } else { NoLeakForEver(s, g); }
    case _ =>
  }

  lemma {:induction false} NoLeakIf(s: Statement, g: State)
    requires s.SIf? && g.Valid() && (Jumps(s) ==> g.loops != []) && !Leaks(s)
    ensures Lower(s, g).loops == g.loops
    decreases s, 0
  {
    hide Grows;
    NoLeakAll(s.thenStmt, ThenEntry(s, |g.blocks| + 1, g));
    if s.elseStmt != [] {
      NoLeakAll(s.elseStmt, ElseEntry(s, g).0);
      assert Lower(s, g) == LowerIfElse(s, g);
    }
  }

  lemma {:induction false} NoLeakFor(s: Statement, g: State)
    requires s.SFor? && s.condE.Some? && g.Valid() && (Jumps(s) ==> g.loops != []) && !Leaks(s)
    ensures Lower(s, g).loops == g.loops
    decreases s, 0
  {
    var g0 := g.Append(4);
    NoLeakAll(s.init, g0);
    var g1 := ForBody(s, |g.blocks|, LowerAll(s.init, g0));
    NoLeakAll(s.body, g1);
    assert g1.Pop().loops == g.loops;
    assert Lower(s, g) == LowerForCond(s, g) == ForCondLoop(s, |g.blocks|, LowerAll(s.init, g0));
  }

  lemma {:induction false} NoLeakForEver(s: Statement, g: State)
    requires s.SFor? && s.condE.None? && g.Valid() && (Jumps(s) ==> g.loops != []) && !Leaks(s)
    ensures Lower(s, g).loops == g.loops
    decreases s, 0
  {
    NoLeakAll(s.init, g.Append(3));
    var g1 := ForEverBody(s, g);
    NoLeakAll(s.body, g1);
    assert g1.Pop().loops == g.loops;
  }

  lemma {:induction false} NoLeakBlock(ss: seq<Statement>, g: State)
    requires g.Valid() && (JumpsAny(ss) ==> g.loops != []) && !LeaksAny(ss)
    ensures LowerBlock(ss, g).loops == g.loops
    decreases ss, 0
  {
    if ss != [] {
      NoLeak(ss[0], g);
      if ss[0].Reachable() { NoLeakBlock(ss[1..], Lower(ss[0], g)); }
    }
  }

  lemma {:induction false} NoLeakAll(ss: seq<Statement>, g: State)
    requires g.Valid() && (JumpsAny(ss) ==> g.loops != []) && !LeaksAny(ss)
    ensures LowerAll(ss, g).loops == g.loops
    decreases ss, 0
  {
    if ss != [] {
      NoLeak(ss[0], g);
      NoLeakAll(ss[1..], Lower(ss[0], g));
    }
  }

  // ----- where the machine is, and where it has to get -----

  /** The finished code contains these blocks, each perhaps with more operations at its end. */
  ghost predicate Within(blocks: seq<Code>, code: seq<Code>) {
    |blocks| <= |code| && forall i :: 0 <= i < |blocks| ==> blocks[i] <= code[i]
  }

  ghost predicate OpAt(code: seq<Code>, b: nat, pc: nat, op: Op) {
    b < |code| && pc < |code[b]| && code[b][pc] == op
  }

  /** The machine at the place where the emitter stands. */
  function Here(g: State, st: Store): Config
    requires g.Valid()
  {
    Running(g.cur, |g.blocks[g.cur]|, st)
  }

  function Exit(g: State): (nat, nat)
    requires g.Valid()
  {
    (g.cur, |g.blocks[g.cur]|)
  }

  /**
    After n steps from c the machine is where outcome `o` belongs: at `exit` after a normal
    end, at the start of the break or continue target after a jump, halted, aborted, or
    still running after `least` steps when the source run has no fuel left.
  */
  ghost predicate Lands(code: seq<Code>, c: Config, n: nat, o: Outcome, exit: (nat, nat),
                        brk: nat, cont: nat, least: int)
  {
    var d := Run(code, c, n);
    match o
    case Normal(st) => d == Running(exit.0, exit.1, st)
    case Broke(st) => n >= 1 && d == Running(brk, 0, st)
    case Continued(st) => n >= 1 && d == Running(cont, 0, st)
    case Returned(v, st) => d == Halted(v, st)
    case Trapped => d == Aborted
    case OutOfFuel => n >= least && d.Running?
  }

  lemma Chain(code: seq<Code>, c: Config, m: nat, d: Config, n: nat, o: Outcome, exit: (nat, nat),
              brk: nat, cont: nat, least: int)
    requires Run(code, c, m) == d
    requires Lands(code, d, n, o, exit, brk, cont, least)
    ensures Lands(code, c, m + n, o, exit, brk, cont, least + m)
  {
    RunAdd(code, c, m, n);
  }

  lemma Stays(code: seq<Code>, c: Config)
    ensures Run(code, c, 0) == c
  {}

  lemma OneStep(code: seq<Code>, c: Config)
    ensures Run(code, c, 1) == Step(code, c)
  {
    assert Run(code, Step(code, c), 0) == Step(code, c);
  }

  /** What the emitted conditional branch does. */
  lemma StepCondBranch(code: seq<Code>, b: nat, pc: nat, e: Expr, thenB: nat, elseB: nat, st: Store)
    requires OpAt(code, b, pc, CondBranch(e, thenB, elseB))
    ensures Run(code, Running(b, pc, st), 1) ==
            match Eval(e, st)
            case Trap => Aborted
            case Value(v, st1) => Running(if Truth(v) then thenB else elseB, 0, st1)
  {
    EmittedIsExact(e, st);
    OneStep(code, Running(b, pc, st));
  }

  lemma StepBranch(code: seq<Code>, b: nat, pc: nat, target: nat, st: Store)
    requires OpAt(code, b, pc, Branch(target))
    ensures Run(code, Running(b, pc, st), 1) == Running(target, 0, st)
  {
    OneStep(code, Running(b, pc, st));
  }

  lemma StepEvaluate(code: seq<Code>, b: nat, pc: nat, e: Expr, st: Store)
    requires OpAt(code, b, pc, Evaluate(e))
    ensures Run(code, Running(b, pc, st), 1) ==
            match Eval(e, st)
            case Trap => Aborted
            case Value(v, st1) => Running(b, pc + 1, st1)
  {
    EmittedIsExact(e, st);
    OneStep(code, Running(b, pc, st));
  }

  // ----- the blocks of each form, found again in the finished code -----

  lemma GrowsWithin(g: State, g': State, code: seq<Code>)
    requires Grows(g, g') && Within(g'.blocks, code)
    ensures Within(g.blocks, code)
  {
    forall i | 0 <= i < |g.blocks| ensures g.blocks[i] <= code[i] {
      assert g'.blocks[i] <= code[i];
    }
  }

  lemma WithinTransitive(blocks: seq<Code>, more: seq<Code>, code: seq<Code>)
    requires Within(blocks, more) && Within(more, code)
    ensures Within(blocks, code)
  {
    forall i | 0 <= i < |blocks| ensures blocks[i] <= code[i] {
      assert more[i] <= code[i];
    }
  }

  /** The state after a list is lowered and, if its end is reachable, joined to `target`. */
  ghost predicate Joined(ss: seq<Statement>, g: State, target: nat, code: seq<Code>)
    requires g.Valid() && (JumpsAny(ss) ==> g.loops != [])
  {
    var g' := LowerAll(ss, g);
    && Within(g'.blocks, code)
    && (LastReachable(ss) ==> OpAt(code, g'.cur, |g'.blocks[g'.cur]|, Branch(target)))
  }

  lemma JoinedWithin(ss: seq<Statement>, g: State, target: nat, code: seq<Code>)
    requires g.Valid() && (JumpsAny(ss) ==> g.loops != [])
    requires Within(EmitIf(LastReachable(ss), Branch(target), LowerAll(ss, g)).blocks, code)
    ensures Joined(ss, g, target, code)
  {
    var g' := LowerAll(ss, g);
    var g'' := EmitIf(LastReachable(ss), Branch(target), g');
    assert g''.blocks[g'.cur] <= code[g'.cur];
    GrowsWithin(g', g'', code);
  }

  lemma IfThenShape(s: Statement, g: State, code: seq<Code>)
    requires g.Valid() && s.SIf? && s.elseStmt == [] && (Jumps(s) ==> g.loops != [])
    requires Within(Lower(s, g).blocks, code)
    ensures
      var thenB, endif := |g.blocks|, |g.blocks| + 1;
      var g1 := ThenEntry(s, endif, g);
      && OpAt(code, g.cur, |g.blocks[g.cur]|, CondBranch(s.cond, thenB, endif))
      && g1.Valid() && g1.blocks[thenB] == []
      && Joined(s.thenStmt, g1, endif, code)
      && Lower(s, g).cur == endif && Lower(s, g).blocks[endif] == []
  {
    hide LowerAll, LowerBlock, JumpsAny;
    var thenB, endif := |g.blocks|, |g.blocks| + 1;
    var g1 := ThenEntry(s, endif, g);
    var g2 := LowerAll(s.thenStmt, g1);
    var g3 := EmitIf(LastReachable(s.thenStmt), Branch(endif), g2);
    assert Lower(s, g) == g3.At(endif);
    JoinedWithin(s.thenStmt, g1, endif, code);
    GrowsWithin(g1, g2, code);
    assert g1.blocks[g.cur] <= code[g.cur];
    assert g1.blocks[endif] == [];
  }

  lemma EndIfWithin(needed: bool, join: Option<nat>, g: State, code: seq<Code>)
    requires g.Valid()
    requires Within(EndIf(needed, join, g).0.blocks, code)
    ensures Within(g.blocks, code)
    ensures needed ==> OpAt(code, g.cur, |g.blocks[g.cur]|, Branch(EndIf(needed, join, g).1.value))
  {
    var (g', join') := EndIf(needed, join, g);
    assert g'.blocks[g.cur] <= code[g.cur];
    forall i | 0 <= i < |g.blocks| ensures g.blocks[i] <= code[i] {
      assert g'.blocks[i] <= code[i];
    }
  }

  /** The else-branch and the join. */
  lemma ElseShape(s: Statement, g: State, code: seq<Code>) returns (endif: nat)
    requires g.Valid() && s.SIf? && s.elseStmt != [] && (Jumps(s) ==> g.loops != [])
    requires Within(Lower(s, g).blocks, code)
    ensures
      var r := ElseEntry(s, g);
      && Within(r.0.blocks, code)
      && (r.1.Some? ==> r.1.value == endif)
      && Joined(s.elseStmt, r.0, endif, code)
      && (r.1.Some? || LastReachable(s.elseStmt) ==>
            Lower(s, g).cur == endif && Lower(s, g).blocks[endif] == [])
  {
    hide LowerAll, LowerBlock, JumpsAny;
    var (g2, join) := ElseEntry(s, g);
    var g3 := LowerAll(s.elseStmt, g2);
    var (g4, join') := EndIf(LastReachable(s.elseStmt), join, g3);
    assert Lower(s, g) == LowerIfElse(s, g) == if join'.Some? then g4.At(join'.value) else g4;
    endif := if join'.Some? then join'.value else 0;
    EndIfWithin(LastReachable(s.elseStmt), join, g3, code);
    GrowsWithin(g2, g3, code);
  }

  /** The then-branch before it. */
  lemma ThenShape(s: Statement, g: State, code: seq<Code>)
    requires g.Valid() && s.SIf? && (Jumps(s) ==> g.loops != [])
    requires Within(ElseEntry(s, g).0.blocks, code)
    ensures
      var g1 := ThenEntry(s, |g.blocks| + 1, g);
      && OpAt(code, g.cur, |g.blocks[g.cur]|, CondBranch(s.cond, |g.blocks|, |g.blocks| + 1))
      && g1.Valid() && g1.blocks[g1.cur] == []
      && Within(LowerAll(s.thenStmt, g1).blocks, code)
      && (LastReachable(s.thenStmt) ==> Joined(s.thenStmt, g1, ElseEntry(s, g).1.value, code))
  {
    hide LowerAll, LowerBlock, JumpsAny;
    var g1 := ThenEntry(s, |g.blocks| + 1, g);
    var g2 := LowerAll(s.thenStmt, g1);
    EndIfWithin(LastReachable(s.thenStmt), None, g2, code);
    GrowsWithin(g1, g2, code);
    assert g1.blocks[g.cur] <= code[g.cur];
  }

  /** The `next` block at b goes on to `condB`; without a `next` it may be `condB` itself. */
  ghost predicate NextAt(code: seq<Code>, b: nat, next: Option<Expr>, condB: nat) {
    match next
    case None => b == condB || OpAt(code, b, 0, Branch(condB))
    case Some(e) => OpAt(code, b, 0, Evaluate(e)) && OpAt(code, b, 1, Branch(condB))
  }

  lemma WhileEnd(s: Statement, g: State, code: seq<Code>)
    requires g.Valid() && s.SWhile?
    requires Within(LowerWhile(s, g).blocks, code)
    ensures
      var condB, end := |g.blocks| + 1, |g.blocks| + 2;
      && Joined(s.body, WhileBody(s, g), condB, code)
      && LowerWhile(s, g).cur == end && LowerWhile(s, g).blocks[end] == []
  {
    hide LowerAll, LowerBlock, JumpsAny, WhileBody, LastReachable, Grows;
    var g2 := LowerAll(s.body, WhileBody(s, g));
    GrowsElsewhere(WhileBody(s, g), g2, |g.blocks| + 2);
    var g3 := EmitIf(LastReachable(s.body), Branch(|g.blocks| + 1), g2);
    assert LowerWhile(s, g) == g3.Pop().At(|g.blocks| + 2);
    assert Within(g3.blocks, code);
    JoinedWithin(s.body, WhileBody(s, g), |g.blocks| + 1, code);
  }

  lemma WhileHead(s: Statement, g: State, code: seq<Code>)
    requires g.Valid() && s.SWhile?
    requires Within(LowerAll(s.body, WhileBody(s, g)).blocks, code)
    ensures
      var bodyB, condB, end := |g.blocks|, |g.blocks| + 1, |g.blocks| + 2;
      && OpAt(code, g.cur, |g.blocks[g.cur]|, Branch(condB))
      && OpAt(code, condB, 0, CondBranch(s.cond, bodyB, end))
  {
    hide LowerAll, LowerBlock, JumpsAny;
    var g1 := WhileBody(s, g);
    GrowsWithin(g1, LowerAll(s.body, g1), code);
    assert g1.blocks[g.cur] <= code[g.cur];
    assert g1.blocks[|g.blocks| + 1] <= code[|g.blocks| + 1];
  }

  lemma DoWhileEnd(s: Statement, g: State, code: seq<Code>)
    requires g.Valid() && s.SDoWhile?
    requires Within(LowerDoWhile(s, g).blocks, code)
    ensures
      var bodyB, condB, end := |g.blocks|, |g.blocks| + 1, |g.blocks| + 2;
      && OpAt(code, condB, 0, CondBranch(s.cond, bodyB, end))
      && Within(EmitIf(LastReachable(s.body), Branch(condB), LowerAll(s.body, DoWhileBody(s, g))).blocks, code)
      && LowerDoWhile(s, g).cur == end && LowerDoWhile(s, g).blocks[end] == []
  {
    hide LowerAll, LowerBlock, JumpsAny;
    var bodyB, condB, end := |g.blocks|, |g.blocks| + 1, |g.blocks| + 2;
    var g3 := EmitIf(LastReachable(s.body), Branch(condB), LowerAll(s.body, DoWhileBody(s, g)));
    assert g3.blocks[condB] == [] && g3.blocks[end] == [];
    var g4 := g3.At(condB).Emit(CondBranch(s.cond, bodyB, end));
    assert LowerDoWhile(s, g) == g4.At(end);
    assert g4.blocks[condB] <= code[condB];
    GrowsWithin(g3.At(condB), g4, code);
  }

  lemma DoWhileShape(s: Statement, g: State, code: seq<Code>)
    requires g.Valid() && s.SDoWhile?
    requires Within(LowerDoWhile(s, g).blocks, code)
    ensures
      var bodyB, condB := |g.blocks|, |g.blocks| + 1;
      var g1 := DoWhileBody(s, g);
      && OpAt(code, g.cur, |g.blocks[g.cur]|, Branch(bodyB))
      && Joined(s.body, g1, condB, code)
  {
    hide LowerAll, LowerBlock, JumpsAny, LowerDoWhile, Grows, Joined;
    var g1 := DoWhileBody(s, g);
    DoWhileEnd(s, g, code);
    JoinedWithin(s.body, g1, |g.blocks| + 1, code);
    GrowsWithin(g1, LowerAll(s.body, g1), code);
    assert g1.blocks[g.cur] <= code[g.cur];
  }

  /** The loop of a `for` with a condition, whose four blocks start at `condB`. */
  lemma ForEnd(s: Statement, condB: nat, g: State, code: seq<Code>)
    requires g.Valid() && s.SFor? && s.condE.Some? && condB + 3 < |g.blocks|
    requires g.cur < condB || g.cur > condB + 3
    requires forall i :: condB <= i < condB + 4 ==> g.blocks[i] == []
    requires Within(ForCondLoop(s, condB, g).blocks, code)
    ensures
      var nextB, end := condB + 2, condB + 3;
      && NextAt(code, nextB, s.next, condB)
      && Within(EmitIf(LastReachable(s.body), Branch(nextB), LowerAll(s.body, ForBody(s, condB, g))).blocks, code)
      && ForCondLoop(s, condB, g).blocks[end] == []
  {
    hide LowerAll, LowerBlock, JumpsAny;
    var nextB, end := condB + 2, condB + 3;
    var g3 := EmitIf(LastReachable(s.body), Branch(nextB), LowerAll(s.body, ForBody(s, condB, g)));
    assert g3.blocks[nextB] == [] && g3.blocks[end] == [];
    var g4 := ForCondLoop(s, condB, g);
    assert g4.blocks[nextB] <= code[nextB];
    WithinTransitive(g3.blocks, g4.blocks, code);
  }

  lemma ForHead(s: Statement, condB: nat, g: State, code: seq<Code>)
    requires g.Valid() && s.SFor? && s.condE.Some? && condB + 3 < |g.blocks|
    requires g.cur < condB || g.cur > condB + 3
    requires g.blocks[condB] == []
    requires Within(ForBody(s, condB, g).blocks, code)
    ensures Within(g.blocks, code)
    ensures OpAt(code, g.cur, |g.blocks[g.cur]|, Branch(condB))
    ensures OpAt(code, condB, 0, CondBranch(s.condE.value, condB + 1, condB + 3))
  {
    var g2 := ForBody(s, condB, g);
    assert g2.blocks[g.cur] <= code[g.cur];
    assert g2.blocks[condB] <= code[condB];
    forall i | 0 <= i < |g.blocks| ensures g.blocks[i] <= code[i] {
      assert g2.blocks[i] <= code[i];
    }
  }

  /** The initializer leaves the blocks of the loop empty. */
  lemma LoopBlocksEmpty(s: Statement, g: State, n: nat)
    requires g.Valid() && s.SFor? && (Jumps(s) ==> g.loops != [])
    ensures
      var g1 := LowerAll(s.init, g.Append(n));
      && |g.blocks| + n <= |g1.blocks| && (g1.cur < |g.blocks| || g1.cur >= |g.blocks| + n)
      && forall i :: |g.blocks| <= i < |g.blocks| + n ==> g1.blocks[i] == []
  {
    hide LowerAll, LowerBlock;
    assert Grows(g.Append(n), LowerAll(s.init, g.Append(n)));
  }

  lemma LoopAfterInit(s: Statement, g: State)
    requires g.Valid() && s.SFor? && s.condE.Some? && (Jumps(s) ==> g.loops != [])
    ensures
      var g1 := LowerAll(s.init, g.Append(4));
      && |g.blocks| + 4 <= |g1.blocks| && (g1.cur < |g.blocks| || g1.cur > |g.blocks| + 3)
      && LowerForCond(s, g) == ForCondLoop(s, |g.blocks|, g1)
  {
    hide Grows, LowerAll;
    LoopBlocksEmpty(s, g, 4);
  }

  lemma ForShape(s: Statement, g: State, code: seq<Code>)
    requires g.Valid() && s.SFor? && s.condE.Some? && (Jumps(s) ==> g.loops != [])
    requires Within(LowerForCond(s, g).blocks, code)
    ensures
      var condB := |g.blocks|;
      var g1 := LowerAll(s.init, g.Append(4));
      var g2 := ForBody(s, condB, g1);
      && Within(g1.blocks, code)
      && OpAt(code, g1.cur, |g1.blocks[g1.cur]|, Branch(condB))
      && OpAt(code, condB, 0, CondBranch(s.condE.value, condB + 1, condB + 3))
      && g2.blocks[condB + 1] == []
      && Joined(s.body, g2, condB + 2, code)
      && NextAt(code, condB + 2, s.next, condB)
      && LowerForCond(s, g).cur == condB + 3 && LowerForCond(s, g).blocks[condB + 3] == []
  {
    hide LowerAll, LowerBlock, JumpsAny, ForCondLoop, State.Valid;
    var condB := |g.blocks|;
    var g1 := LowerAll(s.init, g.Append(4));
    LoopBlocksEmpty(s, g, 4);
    LoopAfterInit(s, g);
    ForLoopShape(s, condB, g1, code);
  }

  lemma ForLoopShape(s: Statement, condB: nat, g: State, code: seq<Code>)
    requires g.Valid() && s.SFor? && s.condE.Some? && condB + 3 < |g.blocks|
    requires g.cur < condB || g.cur > condB + 3
    requires forall i :: condB <= i < condB + 4 ==> g.blocks[i] == []
    requires Within(ForCondLoop(s, condB, g).blocks, code)
    ensures
      var g2 := ForBody(s, condB, g);
      && Within(g.blocks, code)
      && OpAt(code, g.cur, |g.blocks[g.cur]|, Branch(condB))
      && OpAt(code, condB, 0, CondBranch(s.condE.value, condB + 1, condB + 3))
      && g2.blocks[condB + 1] == []
      && Joined(s.body, g2, condB + 2, code)
      && NextAt(code, condB + 2, s.next, condB)
      && ForCondLoop(s, condB, g).cur == condB + 3 && ForCondLoop(s, condB, g).blocks[condB + 3] == []
  {
    hide Lower, LowerAll, LowerBlock, JumpsAny, ForCondLoop, Grows, Joined, NextAt, OpAt;
    var g2 := ForBody(s, condB, g);
    ForEnd(s, condB, g, code);
    JoinedWithin(s.body, g2, condB + 2, code);
    GrowsWithin(g2, LowerAll(s.body, g2), code);
    ForHead(s, condB, g, code);
  }

  lemma ForEverEnd(s: Statement, g: State, code: seq<Code>)
    requires g.Valid() && s.SFor? && s.condE.None? && (Jumps(s) ==> g.loops != [])
    requires Within(LowerForEver(s, g).blocks, code)
    ensures
      var bodyB, nextB, end := |g.blocks|, |g.blocks| + 1, |g.blocks| + 2;
      && Within(EmitIf(LastReachable(s.body), Branch(nextB), LowerAll(s.body, ForEverBody(s, g))).blocks, code)
      && (LastReachable(s.body) ==> NextAt(code, nextB, s.next, bodyB))
      && LowerForEver(s, g).cur == end && LowerForEver(s, g).blocks[end] == []
  {
    hide LowerAll, LowerBlock, JumpsAny, ForEverBody, LastReachable, Grows;
    var nextB, end := |g.blocks| + 1, |g.blocks| + 2;
    var g2 := LowerAll(s.body, ForEverBody(s, g));
    GrowsElsewhere(ForEverBody(s, g), g2, nextB);
    GrowsElsewhere(ForEverBody(s, g), g2, end);
    var g4 := EmitIf(LastReachable(s.body), Branch(nextB), g2);
    var g5 := LowerForEver(s, g);
    if LastReachable(s.body) {
      assert g5.blocks[nextB] <= code[nextB];
      WithinTransitive(g4.blocks, g5.blocks, code);
    } else {
      assert g5 == g4.Pop().At(end);
    }
  }

  lemma ForEverHead(s: Statement, g: State, code: seq<Code>)
    requires g.Valid() && s.SFor? && s.condE.None? && (Jumps(s) ==> g.loops != [])
    requires Within(ForEverBody(s, g).blocks, code)
    ensures
      var g1 := LowerAll(s.init, g.Append(3));
      && Within(g1.blocks, code)
      && OpAt(code, g1.cur, |g1.blocks[g1.cur]|, Branch(|g.blocks|))
  {
    hide LowerAll, LowerBlock, JumpsAny;
    var g1 := LowerAll(s.init, g.Append(3));
    var g2 := ForEverBody(s, g);
    assert g2.blocks[g1.cur] <= code[g1.cur];
    forall i | 0 <= i < |g1.blocks| ensures g1.blocks[i] <= code[i] {
      assert g2.blocks[i] <= code[i];
    }
  }

  lemma LowerFor(s: Statement, g: State)
    requires g.Valid() && s.SFor? && (Jumps(s) ==> g.loops != [])
    ensures Lower(s, g) == if s.condE.Some? then LowerForCond(s, g) else LowerForEver(s, g)
  {}

  lemma ForEverShape(s: Statement, g: State, code: seq<Code>)
    requires g.Valid() && s.SFor? && s.condE.None? && (Jumps(s) ==> g.loops != [])
    requires Within(LowerForEver(s, g).blocks, code)
    ensures
      var bodyB := |g.blocks|;
      var g1 := LowerAll(s.init, g.Append(3));
      && Within(g1.blocks, code)
      && OpAt(code, g1.cur, |g1.blocks[g1.cur]|, Branch(bodyB))
      && Joined(s.body, ForEverBody(s, g), bodyB + 1, code)
      && (LastReachable(s.body) ==> NextAt(code, bodyB + 1, s.next, bodyB))
      && Exit(LowerForEver(s, g)) == (bodyB + 2, 0)
  {
    hide LowerAll, LowerBlock, JumpsAny, NextAt, LowerForEver, ForEverBody, Within, OpAt, Joined, EmitIf;
    var gb := ForEverBody(s, g);
    ForEverEnd(s, g, code);
    var g2 := LowerAll(s.body, gb);
    assert Within(g2.blocks, code) && Joined(s.body, gb, |g.blocks| + 1, code) by {
      JoinedWithin(s.body, gb, |g.blocks| + 1, code);
    }
    GrowsWithin(gb, g2, code);
    ForEverHead(s, g, code);
  }

  // ----- what the counters say about the resolved tree -----

  lemma Single(ss: seq<Statement>)
    requires |ss| == 1
    ensures ss == [ss[0]]
    ensures JumpsAny(ss) == Jumps(ss[0]) && ContinuesAny(ss) == Continues(ss[0])
    ensures FaithfulAll(ss) == Faithful(ss[0])
  {
    assert ss[1..] == [];
  }

  lemma {:induction false} Counted(s: Stmt, inLoop: bool)
    requires Resolve(s, inLoop).Resolved?
    ensures
      var r := Resolve(s, inLoop);
      && |r.out| == 1
      && (Jumps(r.out[0]) <==> r.breaks + r.continues > 0)
      && (Continues(r.out[0]) <==> r.continues > 0)
      && (r.breaks + r.continues > 0 ==> inLoop)
  {
    match s
    case Block(ss) => CountedSeq(ss, inLoop, true, false);
    case If(c, thenS, elseS) =>
      Counted(thenS, inLoop);
      Single(Resolve(thenS, inLoop).out);
      if elseS.Some? {
        Counted(elseS.value, inLoop);
        Single(Resolve(elseS.value, inLoop).out);
      }
    case For(initS, c, next, body) =>
      if initS.Some? {
        Counted(initS.value, inLoop);
        Single(Resolve(initS.value, inLoop).out);
      }
    case _ =>
  }

  lemma {:induction false} CountedSeq(ss: seq<Stmt>, inLoop: bool, reachable: bool, already: bool)
    requires ResolveSeq(ss, inLoop, reachable, already).Resolved?
    ensures
      var r := ResolveSeq(ss, inLoop, reachable, already);
      && (JumpsAny(r.out) <==> r.breaks + r.continues > 0)
      && (ContinuesAny(r.out) <==> r.continues > 0)
      && (r.breaks + r.continues > 0 ==> inLoop)
  {
    if ss != [] {
      var first := Resolve(ss[0], inLoop);
      var rest := ResolveSeq(ss[1..], inLoop, first.flag, already || !reachable);
      Counted(ss[0], inLoop);
      CountedSeq(ss[1..], inLoop, first.flag, already || !reachable);
      var out := first.out + rest.out;
      assert out[0] == first.out[0] && out[1..] == rest.out;
    }
  }

  lemma CountedOpt(s: Option<Stmt>, inLoop: bool)
    requires ResolveOpt(s, inLoop).Accepted()
    ensures
      var r := ResolveOpt(s, inLoop);
      && (JumpsAny(r.out) <==> r.breaks + r.continues > 0)
      && (ContinuesAny(r.out) <==> r.continues > 0)
      && LastReachable(r.out) == r.flag
      && (s.Some? ==> |r.out| == 1 && r.out == [r.out[0]])
      && (s.Some? ==> JumpsAny(r.out) == Jumps(r.out[0]) && FaithfulAll(r.out) == Faithful(r.out[0]))
  {
    if s.Some? {
      Counted(s.value, inLoop);
      Single(Resolve(s.value, inLoop).out);
      FlagIsReachable(s.value, inLoop);
    }
  }

  // ----- the simulation -----

  lemma LowerOne(s: Statement, g: State)
    requires g.Valid() && (Jumps(s) ==> g.loops != []) && (JumpsAny([s]) ==> g.loops != [])
    ensures LowerAll([s], g) == Lower(s, g)
  {
    assert [s][1..] == [];
  }

  /** The loop targets are those of the loop the statement's own jumps belong to. */
  ghost predicate Targets(jumps: bool, g: State, brk: nat, cont: nat) {
    jumps ==> g.loops != [] && g.loops[|g.loops| - 1] == (brk, cont)
  }

  /**
    The blocks of a loop are in place: the branch at `condB`, the body lowered in state g and
    joined to `backB`, and `next` on every path that gets as far as it.
  */
  ghost predicate LoopReady(c: Option<Expr>, next: Option<Expr>, body: Option<Stmt>, code: seq<Code>,
                            g: State, condB: nat, backB: nat)
  {
    var r := ResolveOpt(body, true);
    && r.Accepted() && FaithfulAll(r.out)
    && g.Valid() && g.loops != [] && g.blocks[g.cur] == []
    && var (end, contB) := g.loops[|g.loops| - 1];
    && (c.Some? ==> OpAt(code, condB, 0, CondBranch(c.value, g.cur, end)))
    && (c.None? ==> condB == g.cur)
    && Joined(r.out, g, backB, code)
    && (r.flag ==> NextAt(code, backB, next, condB))
    && (r.continues > 0 ==> NextAt(code, contB, next, condB))
  }

  lemma {:induction false} Simulate(s: Stmt, inLoop: bool, g: State, code: seq<Code>, st: Store, fuel: nat,
                                    brk: nat, cont: nat) returns (n: nat)
    requires Resolve(s, inLoop).Accepted()
    requires g.Valid()
    requires
      var out := Resolve(s, inLoop).out;
      && |out| == 1 && Faithful(out[0]) && Targets(Jumps(out[0]), g, brk, cont)
      && Within(Lower(out[0], g).blocks, code)
    ensures Lands(code, Here(g, st), n, Exec(s, st, fuel), Exit(Lower(Resolve(s, inLoop).out[0], g)), brk, cont, fuel)
    decreases fuel, 1, s, 2
  {
    match s
    case Args => assert false;
    case Block(ss) =>
      n := SimulateSeq(ss, inLoop, g, code, st, fuel, brk, cont);
    case While(_, _) => n := SimulateWhile(s, inLoop, g, code, st, fuel, brk, cont);
    case DoWhile(_, _) => n := SimulateDoWhile(s, inLoop, g, code, st, fuel, brk, cont);
    case If(_, _, _) => n := SimulateIfElse(s, inLoop, g, code, st, fuel, brk, cont);
    case For(_, _, _, _) => n := SimulateForLoop(s, inLoop, g, code, st, fuel, brk, cont);
    case _ =>
      n := 1;
      SimulateSimple(s, inLoop, g, code, st, fuel, brk, cont);
  }

  lemma LandsAnyExit(code: seq<Code>, c: Config, n: nat, o: Outcome, exit: (nat, nat), exit': (nat, nat),
                     brk: nat, cont: nat, least: int)
    requires !o.Normal? && Lands(code, c, n, o, exit, brk, cont, least)
    ensures Lands(code, c, n, o, exit', brk, cont, least)
  {}

  /** An arm of an if is lowered in state g and joined to `target` if its end is reachable. */
  ghost predicate ArmReady(s: Stmt, inLoop: bool, g: State, target: nat, code: seq<Code>, brk: nat, cont: nat) {
    var r := Resolve(s, inLoop);
    && r.Accepted() && g.Valid() && g.blocks[g.cur] == []
    && FaithfulAll(r.out) && Targets(JumpsAny(r.out), g, brk, cont)
    && Within(LowerAll(r.out, g).blocks, code)
    && (LastReachable(r.out) ==> Joined(r.out, g, target, code))
  }

  /** The parts of a resolved `if`. */
  lemma ResolvedIf(s: Stmt, inLoop: bool)
    requires s.If? && Resolve(s, inLoop).Accepted()
    ensures
      var r := Resolve(s, inLoop).out[0];
      && Resolve(s.thenS, inLoop).Accepted()
      && r.SIf? && r.cond == s.cond && r.thenStmt == Resolve(s.thenS, inLoop).out
      && if s.elseS.None? then r.elseStmt == []
         else Resolve(s.elseS.value, inLoop).Accepted() && r.elseStmt == Resolve(s.elseS.value, inLoop).out
  {}

  lemma IfThenReady(s: Stmt, inLoop: bool, g: State, code: seq<Code>, brk: nat, cont: nat)
    requires s.If? && s.elseS.None? && Resolve(s, inLoop).Accepted()
    requires g.Valid()
    requires
      var r := Resolve(s, inLoop).out[0];
      Faithful(r) && Targets(Jumps(r), g, brk, cont) && Within(Lower(r, g).blocks, code)
    ensures
      var r := Resolve(s, inLoop).out[0];
      var gt := ThenEntry(r, |g.blocks| + 1, g);
      && ArmReady(s.thenS, inLoop, gt, |g.blocks| + 1, code, brk, cont)
      && OpAt(code, g.cur, |g.blocks[g.cur]|, CondBranch(s.cond, gt.cur, |g.blocks| + 1))
      && Exit(Lower(r, g)) == (|g.blocks| + 1, 0)
  {
    hide Lower, LowerAll, LowerBlock, Grows, Within, OpAt, FaithfulAll, JumpsAny, ContinuesAny, LeaksAny;
    hide LastReachable, State.Valid, Resolve;
    var r := Resolve(s, inLoop).out[0];
    ResolvedIf(s, inLoop);
    IfThenShape(r, g, code);
  }

  lemma IfElseReady(s: Stmt, inLoop: bool, g: State, code: seq<Code>, brk: nat, cont: nat) returns (endif: nat)
    requires s.If? && s.elseS.Some? && Resolve(s, inLoop).Accepted()
    requires g.Valid()
    requires
      var r := Resolve(s, inLoop).out[0];
      && Faithful(r) && r.elseStmt != []
      && Targets(Jumps(r), g, brk, cont) && Within(Lower(r, g).blocks, code)
    ensures
      var r := Resolve(s, inLoop).out[0];
      var gt := ThenEntry(r, |g.blocks| + 1, g);
      var ge := ElseEntry(r, g).0;
      && ArmReady(s.thenS, inLoop, gt, endif, code, brk, cont)
      && ArmReady(s.elseS.value, inLoop, ge, endif, code, brk, cont)
      && OpAt(code, g.cur, |g.blocks[g.cur]|, CondBranch(s.cond, gt.cur, ge.cur))
      && (LastReachable(r.thenStmt) || LastReachable(r.elseStmt) ==> Exit(Lower(r, g)) == (endif, 0))
  {
    hide Lower, LowerAll, LowerBlock, Grows, Within, OpAt, FaithfulAll, JumpsAny, ContinuesAny, LeaksAny;
    hide LastReachable, Resolve;
    var r := Resolve(s, inLoop).out[0];
    ResolvedIf(s, inLoop);
    endif := ElseShape(r, g, code);
    ThenShape(r, g, code);
    if JumpsAny(r.elseStmt) { NoLeakAll(r.thenStmt, ThenEntry(r, |g.blocks| + 1, g)); }
  }

  /** The parts of a resolved `for`. */
  lemma ResolvedFor(s: Stmt, inLoop: bool)
    requires s.For? && Resolve(s, inLoop).Accepted()
    ensures
      var r := Resolve(s, inLoop).out[0];
      var init, body := ResolveOpt(s.initS, inLoop), ResolveOpt(s.bodyS, true);
      && r.SFor? && init.Accepted() && body.Accepted()
      && r.init == init.out && r.body == body.out && r.condE == s.condE
      && (s.condE.None? || body.flag || body.continues > 0 ==> r.next == s.next)
  {}

  /** What the emitted blocks of a `for` are for its resolved form makes its source form ready to run. */
  lemma LoopIsReady(s: Stmt, inLoop: bool, gb: State, condB: nat, backB: nat, code: seq<Code>)
    requires s.For? && Resolve(s, inLoop).Accepted()
    requires gb.Valid() && gb.loops != [] && gb.blocks[gb.cur] == []
    requires
      var r := Resolve(s, inLoop).out[0];
      var (end, contB) := gb.loops[|gb.loops| - 1];
      && Faithful(r)
      && (s.condE.Some? ==> OpAt(code, condB, 0, CondBranch(s.condE.value, gb.cur, end)))
      && (s.condE.None? ==> condB == gb.cur)
      && Joined(r.body, gb, backB, code)
      && contB == (if s.condE.None? && r.next.None? then condB else backB)
      && (s.condE.Some? || LastReachable(r.body) ==> NextAt(code, backB, r.next, condB))
    ensures LoopReady(s.condE, s.next, s.bodyS, code, gb, condB, backB)
  {
    CountedOpt(s.bodyS, true);
  }

  /** The parts of a resolved loop. */
  lemma ResolvedWhile(s: Stmt, inLoop: bool)
    requires s.While? || s.DoWhile?
    requires Resolve(s, inLoop).Accepted()
    ensures
      var r := Resolve(s, inLoop).out[0];
      var body := ResolveOpt(Some(s.body), true);
      && body.Accepted() && r == (if s.While? then SWhile(true, s.cond, body.out) else SDoWhile(true, body.out, s.cond))
  {}

  lemma LowerLoop(s: Statement, g: State)
    requires g.Valid() && (s.SWhile? || s.SDoWhile?)
    ensures Lower(s, g) == if s.SWhile? then LowerWhile(s, g) else LowerDoWhile(s, g)
  {}

  lemma WhileParts(s: Stmt, inLoop: bool, g: State, code: seq<Code>)
    requires s.While? && Resolve(s, inLoop).Accepted()
    requires g.Valid()
    requires
      var r := Resolve(s, inLoop).out[0];
      r.SWhile? && Faithful(r) && Joined(r.body, WhileBody(r, g), |g.blocks| + 1, code)
    ensures
      var r := Resolve(s, inLoop).out[0];
      var condB := |g.blocks| + 1;
      && OpAt(code, g.cur, |g.blocks[g.cur]|, Branch(condB))
      && LoopReady(Some(s.cond), None, Some(s.body), code, WhileBody(r, g), condB, condB)
  {
    hide Lower, LowerAll, WhileBody, Grows, FaithfulAll;
    WhileHead(Resolve(s, inLoop).out[0], g, code);
  }

  lemma {:induction false} SimulateWhile(s: Stmt, inLoop: bool, g: State, code: seq<Code>, st: Store, fuel: nat,
                                         brk: nat, cont: nat) returns (n: nat)
    requires s.While? && Resolve(s, inLoop).Accepted()
    requires g.Valid()
    requires var r := Resolve(s, inLoop).out[0]; Faithful(r) && Within(Lower(r, g).blocks, code)
    ensures Lands(code, Here(g, st), n, Exec(s, st, fuel), Exit(Lower(Resolve(s, inLoop).out[0], g)), brk, cont, fuel)
    decreases fuel, 1, s, 1
  {
    hide Lower, LowerWhile, LowerAll, WhileBody, Grows, Joined, Resolve, FaithfulAll, Lands, Within;
    var r := Resolve(s, inLoop).out[0];
    var condB := |g.blocks| + 1;
    ResolvedWhile(s, inLoop);
    LowerLoop(r, g);
    WhileEnd(r, g, code);
    WhileParts(s, inLoop, g, code);
    StepBranch(code, g.cur, |g.blocks[g.cur]|, condB, st);
    n := SimulateLoop(Some(s.cond), None, Some(s.body), code, WhileBody(r, g), condB, condB, st, fuel, brk, cont);
    Chain(code, Here(g, st), 1, Running(condB, 0, st), n, Exec(s, st, fuel), Exit(Lower(r, g)), brk, cont, fuel - 1);
    n := n + 1;
  }

  lemma {:induction false} SimulateDoWhile(s: Stmt, inLoop: bool, g: State, code: seq<Code>, st: Store, fuel: nat,
                                           brk: nat, cont: nat) returns (n: nat)
    requires s.DoWhile? && Resolve(s, inLoop).Accepted()
    requires g.Valid()
    requires
      var r := Resolve(s, inLoop).out[0];
      Faithful(r) && Targets(Jumps(r), g, brk, cont) && Within(Lower(r, g).blocks, code)
    ensures Lands(code, Here(g, st), n, Exec(s, st, fuel), Exit(Lower(Resolve(s, inLoop).out[0], g)), brk, cont, fuel)
    decreases fuel, 1, s, 1
  {
    hide Lower, LowerDoWhile, LowerAll, DoWhileBody, Grows, Joined, Lands, Within, OpAt, FaithfulAll, Resolve;
    var r := Resolve(s, inLoop).out[0];
    ResolvedWhile(s, inLoop);
    LowerLoop(r, g);
    DoWhileShape(r, g, code);
    DoWhileEnd(r, g, code);
    n := EnterDo(s.body, s.cond, g.cur, |g.blocks[g.cur]|, code, DoWhileBody(r, g), st, fuel, brk, cont);
  }

  lemma {:induction false} EnterDo(body: Stmt, c: Expr, b: nat, pc: nat, code: seq<Code>, g: State, st: Store,
                                   fuel: nat, brk: nat, cont: nat) returns (n: nat)
    requires ResolveOpt(Some(body), true).Accepted() && FaithfulAll(ResolveOpt(Some(body), true).out)
    requires g.Valid() && g.loops != [] && g.blocks[g.cur] == []
    requires
      var (end, condB) := g.loops[|g.loops| - 1];
      && OpAt(code, b, pc, Branch(g.cur))
      && OpAt(code, condB, 0, CondBranch(c, g.cur, end))
      && Joined(ResolveOpt(Some(body), true).out, g, condB, code)
    ensures
      var end := g.loops[|g.loops| - 1].0;
      Lands(code, Running(b, pc, st), n, ExecDo(body, c, st, fuel), (end, 0), brk, cont, fuel)
    decreases fuel, 0, 1
  {
    var end := g.loops[|g.loops| - 1].0;
    StepBranch(code, b, pc, g.cur, st);
    n := SimulateDo(body, c, code, g, st, fuel, brk, cont);
    var from, mid := Running(b, pc, st), Running(g.cur, 0, st);
    Chain(code, from, 1, mid, n, ExecDo(body, c, st, fuel), (end, 0), brk, cont, fuel - 1);
    n := n + 1;
  }

  lemma {:induction false} SimulateIfElse(s: Stmt, inLoop: bool, g: State, code: seq<Code>, st: Store, fuel: nat,
                                           brk: nat, cont: nat) returns (n: nat)
    requires s.If? && Resolve(s, inLoop).Accepted()
    requires g.Valid()
    requires
      var r := Resolve(s, inLoop).out[0];
      Faithful(r) && Targets(Jumps(r), g, brk, cont) && Within(Lower(r, g).blocks, code)
    ensures Lands(code, Here(g, st), n, Exec(s, st, fuel), Exit(Lower(Resolve(s, inLoop).out[0], g)), brk, cont, fuel)
    decreases fuel, 1, s, 1
  {
    hide Lower, LowerAll, LowerBlock, Grows, Within, Joined, OpAt;
    hide FaithfulAll, JumpsAny, ContinuesAny, LeaksAny, LastReachable;
    var r := Resolve(s, inLoop).out[0];
    var gt := ThenEntry(r, |g.blocks| + 1, g);
    CountedOpt(Some(s.thenS), inLoop);
    CountedOpt(s.elseS, inLoop);
    if s.elseS.None? {
      IfThenReady(s, inLoop, g, code, brk, cont);
      n := SimulateIf(s, inLoop, g.cur, |g.blocks[g.cur]|, gt, gt, |g.blocks| + 1, code, st, fuel, brk, cont);
    } else {
      var endif := IfElseReady(s, inLoop, g, code, brk, cont);
      n := SimulateIf(s, inLoop, g.cur, |g.blocks[g.cur]|, gt, ElseEntry(r, g).0, endif, code, st, fuel, brk, cont);
      Sound(s, inLoop, st, fuel);
      var o := Exec(s, st, fuel);
      if !o.Normal? {
        LandsAnyExit(code, Here(g, st), n, o, (endif, 0), Exit(Lower(r, g)), brk, cont, fuel);
      }
    }
  }

  /** Where the pieces of a `for` are: its initializer, its loop and its end. */
  ghost predicate ForPlaced(s: Stmt, inLoop: bool, g0: State, gb: State, condB: nat, backB: nat, code: seq<Code>,
                            brk: nat, cont: nat, exit: (nat, nat))
    requires s.For?
  {
    && ResolveOpt(s.initS, inLoop).Accepted() && g0.Valid()
    && var out := ResolveOpt(s.initS, inLoop).out;
    && FaithfulAll(out) && Targets(JumpsAny(out), g0, brk, cont)
    && var g1 := LowerAll(out, g0);
    && Within(g1.blocks, code)
    && OpAt(code, g1.cur, |g1.blocks[g1.cur]|, Branch(condB))
    && LoopReady(s.condE, s.next, s.bodyS, code, gb, condB, backB)
    && exit == (gb.loops[|gb.loops| - 1].0, 0)
  }

  lemma PlaceForCond(s: Stmt, r: Statement, inLoop: bool, g: State, code: seq<Code>, brk: nat, cont: nat)
      returns (g0: State, gb: State)
    requires s.For? && s.condE.Some? && Resolve(s, inLoop).Accepted() && Resolve(s, inLoop).out == [r]
    requires g.Valid() && Targets(Jumps(r), g, brk, cont)
    requires Faithful(r) && Within(Lower(r, g).blocks, code)
    ensures g0.Valid() && Exit(g0) == Exit(g)
    ensures ForPlaced(s, inLoop, g0, gb, |g.blocks|, |g.blocks| + 2, code, brk, cont, Exit(Lower(r, g)))
  {
    hide Resolve, LowerAll, LowerBlock, FaithfulAll, Lower, LowerForCond, LowerForEver, LastReachable;
    hide ForBody, ForEverBody, Grows, OpAt, Within, Joined, NextAt;
    ResolvedFor(s, inLoop);
    LowerFor(r, g);
    ForShape(r, g, code);
    g0 := g.Append(4);
    gb := ForBody(r, |g.blocks|, LowerAll(r.init, g0));
    LoopIsReady(s, inLoop, gb, |g.blocks|, |g.blocks| + 2, code);
  }

  lemma PlaceForEver(s: Stmt, r: Statement, inLoop: bool, g: State, code: seq<Code>, brk: nat, cont: nat)
      returns (g0: State, gb: State)
    requires s.For? && s.condE.None? && Resolve(s, inLoop).Accepted() && Resolve(s, inLoop).out == [r]
    requires g.Valid() && Targets(Jumps(r), g, brk, cont)
    requires Faithful(r) && Within(Lower(r, g).blocks, code)
    ensures g0.Valid() && Exit(g0) == Exit(g)
    ensures ForPlaced(s, inLoop, g0, gb, |g.blocks|, |g.blocks| + 1, code, brk, cont, Exit(Lower(r, g)))
  {
    hide Resolve, LowerAll, LowerBlock, FaithfulAll, Lower, LowerForCond, LowerForEver, LastReachable;
    hide ForBody, ForEverBody, Grows, OpAt, Within, Joined, NextAt;
    ResolvedFor(s, inLoop);
    LowerFor(r, g);
    ForEverShape(r, g, code);
    g0, gb := g.Append(3), ForEverBody(r, g);
    LoopIsReady(s, inLoop, gb, |g.blocks|, |g.blocks| + 1, code);
  }

  lemma {:induction false} SimulateForLoop(s: Stmt, inLoop: bool, g: State, code: seq<Code>, st: Store, fuel: nat,
                                           brk: nat, cont: nat) returns (n: nat)
    requires s.For? && Resolve(s, inLoop).Accepted()
    requires g.Valid()
    requires
      var r := Resolve(s, inLoop).out[0];
      Faithful(r) && Targets(Jumps(r), g, brk, cont) && Within(Lower(r, g).blocks, code)
    ensures Lands(code, Here(g, st), n, Exec(s, st, fuel), Exit(Lower(Resolve(s, inLoop).out[0], g)), brk, cont, fuel)
    decreases fuel, 1, s, 1
  {
    hide Lower, LowerAll, Grows, Within, LoopReady, Lands, OpAt, FaithfulAll, Faithful, Exec, Resolve;
    var r := Resolve(s, inLoop).out[0];
    var exit, b := Exit(Lower(r, g)), |g.blocks|;
    var g0, gb;
    if s.condE.Some? {
      g0, gb := PlaceForCond(s, r, inLoop, g, code, brk, cont);
      n := SimulateFor(s, inLoop, g0, gb, b, b + 2, exit, code, st, fuel, brk, cont);
    } else {
      g0, gb := PlaceForEver(s, r, inLoop, g, code, brk, cont);
      n := SimulateFor(s, inLoop, g0, gb, b, b + 1, exit, code, st, fuel, brk, cont);
    }
  }

  /** The first statement of a block and the rest of it. */
  lemma SeqReady(ss: seq<Stmt>, inLoop: bool, g: State, code: seq<Code>, brk: nat, cont: nat)
    requires ss != [] && ResolveSeq(ss, inLoop, true, false).Accepted()
    requires g.Valid()
    requires
      var out := ResolveSeq(ss, inLoop, true, false).out;
      && FaithfulAll(out) && Targets(JumpsAny(out), g, brk, cont)
      && Within(LowerBlock(out, g).blocks, code)
    ensures
      var out := ResolveSeq(ss, inLoop, true, false).out;
      var first := Resolve(ss[0], inLoop);
      var rest := ResolveSeq(ss[1..], inLoop, true, false);
      && first.Accepted() && |first.out| == 1
      && Faithful(first.out[0]) && Targets(Jumps(first.out[0]), g, brk, cont)
      && Within(Lower(first.out[0], g).blocks, code)
      && (!first.flag ==> LowerBlock(out, g) == Lower(first.out[0], g))
      && (first.flag ==>
            && rest.Accepted() && FaithfulAll(rest.out)
            && Targets(JumpsAny(rest.out), Lower(first.out[0], g), brk, cont)
            && LowerBlock(out, g) == LowerBlock(rest.out, Lower(first.out[0], g)))
  {
    var out := ResolveSeq(ss, inLoop, true, false).out;
    var first := Resolve(ss[0], inLoop);
    var rest := ResolveSeq(ss[1..], inLoop, first.flag, false);
    FlagIsReachable(ss[0], inLoop);
    FlagIsReachableSeq(ss[1..], inLoop, first.flag, false);
    assert out == first.out + rest.out && out[0] == first.out[0] && out[1..] == rest.out;
    if first.flag {
      var g1 := Lower(out[0], g);
      GrowsWithin(g1, LowerBlock(rest.out, g1), code);
      if JumpsAny(rest.out) { NoLeak(out[0], g); }
    }
  }

  lemma {:induction false} SimulateSeq(ss: seq<Stmt>, inLoop: bool, g: State, code: seq<Code>, st: Store, fuel: nat,
                                       brk: nat, cont: nat) returns (n: nat)
    requires ResolveSeq(ss, inLoop, true, false).Accepted()
    requires g.Valid()
    requires
      var out := ResolveSeq(ss, inLoop, true, false).out;
      && FaithfulAll(out) && Targets(JumpsAny(out), g, brk, cont)
      && Within(LowerBlock(out, g).blocks, code)
    ensures
      var out := ResolveSeq(ss, inLoop, true, false).out;
      Lands(code, Here(g, st), n, ExecSeq(ss, st, fuel), Exit(LowerBlock(out, g)), brk, cont, fuel)
    decreases fuel, 1, ss
  {
    hide Grows, State.Valid;
    n := 0;
    hide Lower, LowerAll, LowerBlock, Grows, Within, Exec;
    if ss == [] { return; }
    var exit := Exit(LowerBlock(ResolveSeq(ss, inLoop, true, false).out, g));
    var g1 := Lower(Resolve(ss[0], inLoop).out[0], g);
    SeqReady(ss, inLoop, g, code, brk, cont);
    n := Simulate(ss[0], inLoop, g, code, st, fuel, brk, cont);
    Sound(ss[0], inLoop, st, fuel);
    var o := Exec(ss[0], st, fuel);
    if o.Normal? {
      var k := SimulateSeq(ss[1..], inLoop, g1, code, o.st, fuel, brk, cont);
      Chain(code, Here(g, st), n, Here(g1, o.st), k, ExecSeq(ss[1..], o.st, fuel), exit, brk, cont, fuel);
      n := n + k;
    } else {
      LandsAnyExit(code, Here(g, st), n, o, Exit(g1), exit, brk, cont, fuel);
    }
  }

  /** One arm of an if, up to the join. */
  lemma {:induction false} SimulateArm(s: Stmt, inLoop: bool, g: State, target: nat, code: seq<Code>, st: Store,
                                       fuel: nat, brk: nat, cont: nat) returns (n: nat)
    requires ArmReady(s, inLoop, g, target, code, brk, cont)
    ensures Lands(code, Here(g, st), n, Exec(s, st, fuel), (target, 0), brk, cont, fuel)
    ensures Exec(s, st, fuel).Normal? ==> n >= 1
    decreases fuel, 1, s, 3
  {
    hide Run, Exec, Eval, Grows, LowerAll, Lower;
    CountedOpt(Some(s), inLoop);
    assert ResolveOpt(Some(s), inLoop) == Resolve(s, inLoop);
    var out := Resolve(s, inLoop).out;
    LowerOne(out[0], g);
    n := Simulate(s, inLoop, g, code, st, fuel, brk, cont);
    Sound(s, inLoop, st, fuel);
    var o := Exec(s, st, fuel);
    if o.Normal? {
      var g' := LowerAll(out, g);
      StepBranch(code, g'.cur, |g'.blocks[g'.cur]|, target, o.st);
      RunAdd(code, Here(g, st), n, 1);
      n := n + 1;
    }
  }

  lemma ExecIf(s: Stmt, st: Store, fuel: nat)
    requires s.If?
    ensures
      var e := Eval(s.cond, st);
      Exec(s, st, fuel) ==
      if e.Trap? then Trapped
      else if Truth(e.v) then Exec(s.thenS, e.store, fuel)
      else if s.elseS.Some? then Exec(s.elseS.value, e.store, fuel)
      else Normal(e.store)
  {}

  /** An if whose arms are lowered in states gt and ge and join at `endif`; (b, pc) holds the branch. */
  lemma {:induction false} SimulateIf(s: Stmt, inLoop: bool, b: nat, pc: nat, gt: State, ge: State, endif: nat,
                                      code: seq<Code>, st: Store, fuel: nat, brk: nat, cont: nat) returns (n: nat)
    requires s.If? && ArmReady(s.thenS, inLoop, gt, endif, code, brk, cont)
    requires s.elseS.None? ==> OpAt(code, b, pc, CondBranch(s.cond, gt.cur, endif))
    requires s.elseS.Some? ==>
      && ArmReady(s.elseS.value, inLoop, ge, endif, code, brk, cont)
      && OpAt(code, b, pc, CondBranch(s.cond, gt.cur, ge.cur))
    ensures Lands(code, Running(b, pc, st), n, Exec(s, st, fuel), (endif, 0), brk, cont, fuel)
    decreases fuel, 1, s, 0
  {
    hide Run, Exec;
    ExecIf(s, st, fuel);
    var c := Running(b, pc, st);
    var whole := Exec(s, st, fuel);
    StepCondBranch(code, b, pc, s.cond, gt.cur, if s.elseS.Some? then ge.cur else endif, st);
    n := 1;
    var e := Eval(s.cond, st);
    if e.Value? && Truth(e.v) {
      n := SimulateArm(s.thenS, inLoop, gt, endif, code, e.store, fuel, brk, cont);
      Chain(code, c, 1, Here(gt, e.store), n, whole, (endif, 0), brk, cont, fuel);
      n := n + 1;
    } else if e.Value? && s.elseS.Some? {
      n := SimulateArm(s.elseS.value, inLoop, ge, endif, code, e.store, fuel, brk, cont);
      Chain(code, c, 1, Here(ge, e.store), n, whole, (endif, 0), brk, cont, fuel);
      n := n + 1;
    }
  }

  lemma ExecFor(s: Stmt, st: Store, fuel: nat)
    requires s.For?
    ensures
      var o := if s.initS.Some? then Exec(s.initS.value, st, fuel) else Normal(st);
      Exec(s, st, fuel) == if o.Normal? then ExecLoop(s.condE, s.next, s.bodyS, o.st, fuel) else o
  {}

  /** A `for` whose initializer is lowered in state g0 and whose body in state g. */
  lemma {:induction false} SimulateFor(s: Stmt, inLoop: bool, g0: State, g: State, condB: nat, backB: nat,
                                       exit: (nat, nat), code: seq<Code>, st: Store, fuel: nat,
                                       brk: nat, cont: nat) returns (n: nat)
    requires s.For? && ForPlaced(s, inLoop, g0, g, condB, backB, code, brk, cont, exit)
    ensures Lands(code, Here(g0, st), n, Exec(s, st, fuel), exit, brk, cont, fuel)
    decreases fuel, 1, s, 0
  {
    hide Grows, Run, Exec;
    ExecFor(s, st, fuel);
    var g1 := LowerAll(ResolveOpt(s.initS, inLoop).out, g0);
    n := SimulateOpt(s.initS, inLoop, g0, code, st, fuel, brk, cont);
    var o := if s.initS.Some? then Exec(s.initS.value, st, fuel) else Normal(st);
    if o.Normal? {
      StepBranch(code, g1.cur, |g1.blocks[g1.cur]|, condB, o.st);
      RunAdd(code, Here(g0, st), n, 1);
      var k := SimulateLoop(s.condE, s.next, s.bodyS, code, g, condB, backB, o.st, fuel, brk, cont);
      Chain(code, Here(g0, st), n + 1, Running(condB, 0, o.st), k, Exec(s, st, fuel), exit, brk, cont, fuel - 1);
      n := n + 1 + k;
    }
  }

  /** Statements that are lowered to a single operation. */
  lemma SimulateSimple(s: Stmt, inLoop: bool, g: State, code: seq<Code>, st: Store, fuel: nat, brk: nat, cont: nat)
    requires s.VariableDefinition? || s.Break? || s.Continue? || s.Return? || s.Expression?
    requires Resolve(s, inLoop).Accepted()
    requires g.Valid()
    requires
      var out := Resolve(s, inLoop).out;
      && Targets(Jumps(out[0]), g, brk, cont)
      && Within(Lower(out[0], g).blocks, code)
    ensures Lands(code, Here(g, st), 1, Exec(s, st, fuel), Exit(Lower(Resolve(s, inLoop).out[0], g)), brk, cont, fuel)
  {
    var r := Resolve(s, inLoop).out[0];
    var g' := Lower(r, g);
    assert g'.blocks[g.cur] <= code[g.cur];
    OneStep(code, Here(g, st));
    match s
    case VariableDefinition(no, init) => if init.Some? { EmittedIsExact(init.value, st); }
    case Return(v) => if v.Some? { EmittedIsExact(v.value, st); }
    case Expression(e) => EmittedIsExact(e, st);
    case _ =>
  }

  /** Running the `next` block, if there is one. */
  lemma SimulateNext(next: Option<Expr>, code: seq<Code>, b: nat, condB: nat, st: Store) returns (n: nat)
    requires NextAt(code, b, next, condB)
    ensures
      var e := if next.Some? then Eval(next.value, st) else Value(1, st);
      Run(code, Running(b, 0, st), n) == if e.Value? then Running(condB, 0, e.store) else Aborted
  {
    match next
    case None =>
      if b == condB {
        n := 0;
      } else {
        StepBranch(code, b, 0, condB, st);
        n := 1;
      }
    case Some(e) =>
      StepEvaluate(code, b, 0, e, st);
      match Eval(e, st)
      case Trap => n := 1;
      case Value(_, st1) =>
        StepBranch(code, b, 1, condB, st1);
        RunAdd(code, Running(b, 0, st), 1, 1);
        n := 2;
  }

  lemma {:induction false} SimulateOpt(s: Option<Stmt>, inLoop: bool, g: State, code: seq<Code>, st: Store, fuel: nat,
                                       brk: nat, cont: nat) returns (n: nat)
    requires ResolveOpt(s, inLoop).Accepted()
    requires g.Valid()
    requires
      var out := ResolveOpt(s, inLoop).out;
      && FaithfulAll(out) && Targets(JumpsAny(out), g, brk, cont)
      && Within(LowerAll(out, g).blocks, code)
    ensures
      var o := if s.Some? then Exec(s.value, st, fuel) else Normal(st);
      Lands(code, Here(g, st), n, o, Exit(LowerAll(ResolveOpt(s, inLoop).out, g)), brk, cont, fuel)
    decreases fuel, 1, s
  {
    n := 0;
    if s.Some? {
      CountedOpt(s, inLoop);
      LowerOne(ResolveOpt(s, inLoop).out[0], g);
      n := Simulate(s.value, inLoop, g, code, st, fuel, brk, cont);
    }
  }

  /** One run of a loop body: to `backB` at its end, or to the targets pushed for the loop. */
  lemma {:induction false} SimulateBody(body: Option<Stmt>, g: State, backB: nat, code: seq<Code>, st: Store, fuel: nat)
      returns (n: nat)
    requires ResolveOpt(body, true).Accepted() && FaithfulAll(ResolveOpt(body, true).out)
    requires g.Valid() && g.loops != [] && g.blocks[g.cur] == []
    requires Joined(ResolveOpt(body, true).out, g, backB, code)
    ensures
      var (end, contB) := g.loops[|g.loops| - 1];
      var o := if body.Some? then Exec(body.value, st, fuel) else Normal(st);
      && Lands(code, Running(g.cur, 0, st), n, o, (backB, 0), end, contB, fuel)
      && (o.Normal? ==> n >= 1 && ResolveOpt(body, true).flag)
      && (o.Continued? ==> ResolveOpt(body, true).continues > 0)
    decreases fuel, 1, body, 4
  {
    var (end, contB) := g.loops[|g.loops| - 1];
    if body.Some? {
      n := SimulateArm(body.value, true, g, backB, code, st, fuel, end, contB);
      Sound(body.value, true, st, fuel);
    } else {
      StepBranch(code, g.cur, 0, backB, st);
      n := 1;
    }
  }

  lemma {:induction false} SimulateLoop(c: Option<Expr>, next: Option<Expr>, body: Option<Stmt>, code: seq<Code>,
                                        g: State, condB: nat, backB: nat, st: Store, fuel: nat,
                                        brk: nat, cont: nat) returns (n: nat)
    requires LoopReady(c, next, body, code, g, condB, backB)
    ensures
      var end := g.loops[|g.loops| - 1].0;
      Lands(code, Running(condB, 0, st), n, ExecLoop(c, next, body, st, fuel), (end, 0), brk, cont, fuel - 1)
    decreases fuel, 0
  {
    hide Run, Exec;
    n := 0;
    Stays(code, Running(condB, 0, st));
    if fuel == 0 { return; }
    var end := g.loops[|g.loops| - 1].0;
    if c.None? {
      n := SimulateIteration(c, next, body, code, g, condB, backB, st, fuel, brk, cont);
    } else {
      StepCondBranch(code, condB, 0, c.value, g.cur, end, st);
      var e := Eval(c.value, st);
      if e.Value? && Truth(e.v) {
        n := SimulateIteration(c, next, body, code, g, condB, backB, e.store, fuel, brk, cont);
        Chain(code, Running(condB, 0, st), 1, Running(g.cur, 0, e.store), n,
              ExecLoop(c, next, body, st, fuel), (end, 0), brk, cont, fuel - 1);
      }
      n := n + 1;
    }
  }

  /** What is left of a loop once its condition has held. */
  function ExecRest(c: Option<Expr>, next: Option<Expr>, body: Option<Stmt>, st: Store, fuel: nat): Outcome {
    match if body.Some? then Exec(body.value, st, fuel) else Normal(st)
    case Normal(st1) => ExecNext(c, next, body, st1, fuel)
    case Continued(st1) => ExecNext(c, next, body, st1, fuel)
    case Broke(st1) => Normal(st1)
    case other => other
  }

  lemma {:induction false} SimulateIteration(c: Option<Expr>, next: Option<Expr>, body: Option<Stmt>, code: seq<Code>,
                                             g: State, condB: nat, backB: nat, st: Store, fuel: nat,
                                             brk: nat, cont: nat) returns (n: nat)
    requires fuel > 0 && LoopReady(c, next, body, code, g, condB, backB)
    ensures
      var end := g.loops[|g.loops| - 1].0;
      Lands(code, Running(g.cur, 0, st), n, ExecRest(c, next, body, st, fuel - 1), (end, 0), brk, cont, fuel - 1)
    decreases fuel - 1, 3
  {
    hide Run, ExecNext, Exec;
    var (end, contB) := g.loops[|g.loops| - 1];
    var o := if body.Some? then Exec(body.value, st, fuel - 1) else Normal(st);
    n := SimulateBody(body, g, backB, code, st, fuel - 1);
    if o.Normal? || o.Continued? {
      var b := if o.Normal? then backB else contB;
      var k := SimulateOnward(c, next, body, code, g, condB, backB, b, o.st, fuel - 1, brk, cont);
      Chain(code, Running(g.cur, 0, st), n, Running(b, 0, o.st), k,
            ExecNext(c, next, body, o.st, fuel - 1), (end, 0), brk, cont, fuel - 2);
      n := n + k;
    }
  }

  /** From the end of an iteration, or a continue in it: `next`, and the rest of the loop. */
  lemma {:induction false} SimulateOnward(c: Option<Expr>, next: Option<Expr>, body: Option<Stmt>, code: seq<Code>,
                                          g: State, condB: nat, backB: nat, b: nat, st: Store, fuel: nat,
                                          brk: nat, cont: nat) returns (n: nat)
    requires LoopReady(c, next, body, code, g, condB, backB) && NextAt(code, b, next, condB)
    ensures
      var end := g.loops[|g.loops| - 1].0;
      Lands(code, Running(b, 0, st), n, ExecNext(c, next, body, st, fuel), (end, 0), brk, cont, fuel - 1)
    decreases fuel, 2
  {
    hide Run, ExecLoop, NextAt, Eval;
    n := SimulateNext(next, code, b, condB, st);
    var after := if next.Some? then Eval(next.value, st) else Value(1, st);
    if after.Value? {
      var end := g.loops[|g.loops| - 1].0;
      var k := SimulateLoop(c, next, body, code, g, condB, backB, after.store, fuel, brk, cont);
      Chain(code, Running(b, 0, st), n, Running(condB, 0, after.store), k,
            ExecLoop(c, next, body, after.store, fuel), (end, 0), brk, cont, fuel - 1);
      n := n + k;
    }
  }

  lemma {:induction false} SimulateDo(body: Stmt, c: Expr, code: seq<Code>, g: State, st: Store, fuel: nat,
                                      brk: nat, cont: nat) returns (n: nat)
    requires ResolveOpt(Some(body), true).Accepted() && FaithfulAll(ResolveOpt(Some(body), true).out)
    requires g.Valid() && g.loops != [] && g.blocks[g.cur] == []
    requires
      var (end, condB) := g.loops[|g.loops| - 1];
      && OpAt(code, condB, 0, CondBranch(c, g.cur, end))
      && Joined(ResolveOpt(Some(body), true).out, g, condB, code)
    ensures
      var end := g.loops[|g.loops| - 1].0;
      Lands(code, Running(g.cur, 0, st), n, ExecDo(body, c, st, fuel), (end, 0), brk, cont, fuel - 1)
    decreases fuel, 0, 0
  {
    hide Run, Exec;
    var start := Running(g.cur, 0, st);
    n := 0;
    Stays(code, start);
    if fuel == 0 { return; }
    var (end, condB) := g.loops[|g.loops| - 1];
    n := SimulateBody(Some(body), g, condB, code, st, fuel - 1);
    var o := Exec(body, st, fuel - 1);
    if o.Normal? || o.Continued? {
      StepCondBranch(code, condB, 0, c, g.cur, end, o.st);
      RunAdd(code, start, n, 1);
      n := n + 1;
      var e := Eval(c, o.st);
      assert ExecDo(body, c, st, fuel) == ExecDoCond(body, c, o.st, fuel - 1);
      if e.Value? && Truth(e.v) {
        var k := SimulateDo(body, c, code, g, e.store, fuel - 1, brk, cont);
        Chain(code, start, n, Running(g.cur, 0, e.store), k,
              ExecDo(body, c, e.store, fuel - 1), (end, 0), brk, cont, fuel - 2);
        n := n + k;
      }
    }
  }
}
