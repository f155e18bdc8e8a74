/**
  Which functions return a value on every path the code can take: exactly those in whose body
  no `return` omits it.
*/
module FunctionReturns {
  import opened Wrappers
  import opened Ast
  import opened Semantics
  import opened Analysis
  import opened Reachability
  import opened Machine
  import opened Lowering
  import opened Simulation
  import opened ReturnValues
  import opened Compiler
  import opened Blocks

  /** Is there a return without a value in the code? */
  ghost predicate HasBareRet(blocks: seq<Code>) {
    exists b, i :: 0 <= b < |blocks| && 0 <= i < |blocks[b]| && blocks[b][i] == Ret(None)
  }

  lemma EmitBare(g: State, op: Op)
    requires g.Valid()
    ensures HasBareRet(g.Emit(op).blocks) <==> HasBareRet(g.blocks) || op == Ret(None)
  {
    var g', last := g.Emit(op), |g.blocks[g.cur]|;
    assert g'.blocks[g.cur][last] == op;
    if b, i :| 0 <= b < |g.blocks| && 0 <= i < |g.blocks[b]| && g.blocks[b][i] == Ret(None) {
      assert g'.blocks[b][i] == Ret(None);
    }
    if b, i :| 0 <= b < |g'.blocks| && 0 <= i < |g'.blocks[b]| && g'.blocks[b][i] == Ret(None) {
      assert (b == g.cur && i == last) || g.blocks[b][i] == Ret(None);
    }
  }

  lemma AppendBare(g: State, n: nat)
    ensures HasBareRet(g.Append(n).blocks) <==> HasBareRet(g.blocks)
  {
    var g' := g.Append(n);
    if b, i :| 0 <= b < |g.blocks| && 0 <= i < |g.blocks[b]| && g.blocks[b][i] == Ret(None) {
      assert g'.blocks[b][i] == Ret(None);
    }
    if b, i :| 0 <= b < |g'.blocks| && 0 <= i < |g'.blocks[b]| && g'.blocks[b][i] == Ret(None) {
      assert b < |g.blocks| && g.blocks[b][i] == Ret(None);
    }
  }

  lemma EmitIfBare(b: bool, op: Op, g: State)
    requires g.Valid() && op != Ret(None)
    ensures HasBareRet(EmitIf(b, op, g).blocks) <==> HasBareRet(g.blocks)
  {
    EmitBare(g, op);
  }

  lemma FillNextBare(next: Option<Expr>, g: State, target: nat)
    requires g.Valid()
    ensures HasBareRet(FillNext(next, g, target).blocks) <==> HasBareRet(g.blocks)
  {
    hide HasBareRet;
    if next.Some? {
      EmitBare(g, Evaluate(next.value));
      EmitBare(g.Emit(Evaluate(next.value)), Branch(target));
    } else {
      EmitBare(g, Branch(target));
    }
  }

  lemma EndIfBare(needed: bool, endif: Option<nat>, g: State)
    requires g.Valid()
    ensures HasBareRet(EndIf(needed, endif, g).0.blocks) <==> HasBareRet(g.blocks)
  {
    hide HasBareRet;
    AppendBare(g, 1);
    if endif.Some? { EmitBare(g, Branch(endif.value)); } else { EmitBare(g.Append(1), Branch(|g.blocks|)); }
  }

  /** Lowering adds a return without a value exactly for a statement that has one. */
  lemma {:induction false} LowerBare(s: Statement, g: State)
    requires Tidy(s) && g.Valid() && (Jumps(s) ==> g.loops != [])
    ensures HasBareRet(Lower(s, g).blocks) <==> HasBareRet(g.blocks) || OmitsValue(s)
    decreases s, 2
  {
    hide HasBareRet, LowerAll, LowerBlock, Grows, AnyOmitsValue, JumpsAny, TidyAll;
    match s
    case SBlock(ss) => LowerBlockBare(ss, g);
    case SVariableDecl(no, init) => EmitBare(g, Declare(no, init));
    case SReturn(v) => EmitBare(g, Ret(v));
    case SExpression(_, e) => EmitBare(g, Evaluate(e));
    case SBreak => EmitBare(g, Branch(g.loops[|g.loops| - 1].0));
    case SContinue => EmitBare(g, Branch(g.loops[|g.loops| - 1].1));
    case SIf(_, _, _, e) => if e == [] { IfThenBare(s, g); } else { IfElseBare(s, g); }
    case SWhile(_, _, _) => WhileBare(s, g);
    case SDoWhile(_, _, _) => DoWhileBare(s, g);
    case SFor(_, _, c, _, _) => if c.Some? { ForBare(s, g); } else { ForEverBare(s, g); }
  }

  lemma {:induction false} LowerBlockBare(ss: seq<Statement>, g: State)
    requires TidyAll(ss) && g.Valid() && (JumpsAny(ss) ==> g.loops != [])
    ensures HasBareRet(LowerBlock(ss, g).blocks) <==> HasBareRet(g.blocks) || AnyOmitsValue(ss)
    decreases ss, 0
  {
    hide HasBareRet, Lower, OmitsValue, Tidy;
    if ss != [] {
      LowerBare(ss[0], g);
      if ss[0].Reachable() { LowerBlockBare(ss[1..], Lower(ss[0], g)); }
    }
  }

  lemma {:induction false} LowerAllBare(ss: seq<Statement>, g: State)
    requires TidyAll(ss) && g.Valid() && (JumpsAny(ss) ==> g.loops != [])
    ensures HasBareRet(LowerAll(ss, g).blocks) <==> HasBareRet(g.blocks) || AnyOmitsValue(ss)
    decreases ss, 0
  {
    hide HasBareRet, Lower, OmitsValue, Tidy;
    if ss != [] {
      LowerBare(ss[0], g);
      LowerAllBare(ss[1..], Lower(ss[0], g));
    }
  }

  lemma ThenEntryBare(s: Statement, elseB: nat, g: State)
    requires g.Valid() && s.SIf?
    ensures HasBareRet(ThenEntry(s, elseB, g).blocks) <==> HasBareRet(g.blocks)
  {
    hide HasBareRet;
    AppendBare(g, 2);
    EmitBare(g.Append(2), CondBranch(s.cond, |g.blocks|, elseB));
  }

  lemma {:induction false} IfThenBare(s: Statement, g: State)
    requires s.SIf? && s.elseStmt == [] && Tidy(s) && g.Valid() && (Jumps(s) ==> g.loops != [])
    ensures HasBareRet(Lower(s, g).blocks) <==> HasBareRet(g.blocks) || OmitsValue(s)
    decreases s, 0
  {
    hide HasBareRet, LowerAll, TidyAll, Grows, JumpsAny;
    var endif := |g.blocks| + 1;
    var g1 := ThenEntry(s, endif, g);
    ThenEntryBare(s, endif, g);
    LowerAllBare(s.thenStmt, g1);
    EmitIfBare(LastReachable(s.thenStmt), Branch(endif), LowerAll(s.thenStmt, g1));
    assert Lower(s, g) == LowerIfThen(s, g);
  }

  lemma {:induction false} IfElseBare(s: Statement, g: State)
    requires s.SIf? && s.elseStmt != [] && Tidy(s) && g.Valid() && (Jumps(s) ==> g.loops != [])
    ensures HasBareRet(Lower(s, g).blocks) <==> HasBareRet(g.blocks) || OmitsValue(s)
    decreases s, 0
  {
    hide HasBareRet, Lower, LowerAll, TidyAll, Grows, JumpsAny, EndIf, AnyOmitsValue;
    var elseB := |g.blocks| + 1;
    var g1 := ThenEntry(s, elseB, g);
    ThenEntryBare(s, elseB, g);
    LowerAllBare(s.thenStmt, g1);
    EndIfBare(LastReachable(s.thenStmt), None, LowerAll(s.thenStmt, g1));
    var (ge, join) := ElseEntry(s, g);
    LowerAllBare(s.elseStmt, ge);
    EndIfBare(LastReachable(s.elseStmt), join, LowerAll(s.elseStmt, ge));
    LowerElse(s, g);
  }

  lemma {:induction false} WhileBare(s: Statement, g: State)
    requires s.SWhile? && Tidy(s) && g.Valid()
    ensures HasBareRet(Lower(s, g).blocks) <==> HasBareRet(g.blocks) || OmitsValue(s)
    decreases s, 0
  {
    hide HasBareRet, Lower, LowerAll, TidyAll, Grows, JumpsAny;
    var condB, end := |g.blocks| + 1, |g.blocks| + 2;
    var g1 := g.Append(3).Emit(Branch(condB)).At(condB);
    AppendBare(g, 3);
    EmitBare(g.Append(3), Branch(condB));
    EmitBare(g1, CondBranch(s.cond, |g.blocks|, end));
    var gb := WhileBody(s, g);
    LowerAllBare(s.body, gb);
    EmitIfBare(LastReachable(s.body), Branch(condB), LowerAll(s.body, gb));
    LowerLoop(s, g);
  }

  lemma {:induction false} DoWhileBare(s: Statement, g: State)
    requires s.SDoWhile? && Tidy(s) && g.Valid()
    ensures HasBareRet(Lower(s, g).blocks) <==> HasBareRet(g.blocks) || OmitsValue(s)
    decreases s, 0
  {
    hide HasBareRet, Lower, LowerAll, TidyAll, Grows, JumpsAny;
    var bodyB, condB, end := |g.blocks|, |g.blocks| + 1, |g.blocks| + 2;
    AppendBare(g, 3);
    EmitBare(g.Append(3), Branch(bodyB));
    var gb := DoWhileBody(s, g);
    LowerAllBare(s.body, gb);
    var g1 := EmitIf(LastReachable(s.body), Branch(condB), LowerAll(s.body, gb));
    EmitIfBare(LastReachable(s.body), Branch(condB), LowerAll(s.body, gb));
    EmitBare(g1.At(condB), CondBranch(s.cond, bodyB, end));
    LowerLoop(s, g);
  }

  lemma {:induction false} ForBare(s: Statement, g: State)
    requires s.SFor? && s.condE.Some? && Tidy(s) && g.Valid() && (Jumps(s) ==> g.loops != [])
    ensures HasBareRet(Lower(s, g).blocks) <==> HasBareRet(g.blocks) || OmitsValue(s)
    decreases s, 1
  {
    hide HasBareRet, Lower, LowerAll, TidyAll, Grows, ForCondLoop;
    var condB := |g.blocks|;
    AppendBare(g, 4);
    var g1 := LowerAll(s.init, g.Append(4));
    InitBare(s, g.Append(4));
    LoopBlocksEmpty(s, g, 4);
    ForCondLoopBare(s, condB, g1);
    LowerFor(s, g);
  }

  /** The initializer is a declaration or an expression. */
  lemma InitBare(s: Statement, g: State)
    requires s.SFor? && Tidy(s) && g.Valid() && (Jumps(s) ==> g.loops != [])
    ensures !AnyOmitsValue(s.init) && (HasBareRet(LowerAll(s.init, g).blocks) <==> HasBareRet(g.blocks))
  {
    hide HasBareRet, Grows;
    if s.init != [] {
      assert s.init[1..] == [];
      var op := match s.init[0] case SVariableDecl(no, e) => Declare(no, e) case SExpression(_, e) => Evaluate(e);
      assert LowerAll(s.init, g) == Lower(s.init[0], g) == g.Emit(op);
      EmitBare(g, op);
    }
  }

  lemma {:induction false} ForCondLoopBare(s: Statement, condB: nat, g: State)
    requires s.SFor? && s.condE.Some? && Tidy(s) && g.Valid() && condB + 3 < |g.blocks|
    requires g.cur < condB || g.cur > condB + 3
    ensures HasBareRet(ForCondLoop(s, condB, g).blocks) <==> HasBareRet(g.blocks) || AnyOmitsValue(s.body)
    decreases s, 0
  {
    hide HasBareRet, Lower, LowerAll, TidyAll, FillNext, AnyOmitsValue;
    var bodyB, nextB, end := condB + 1, condB + 2, condB + 3;
    EmitBare(g, Branch(condB));
    EmitBare(g.Emit(Branch(condB)).At(condB), CondBranch(s.condE.value, bodyB, end));
    var gb := ForBody(s, condB, g);
    LowerAllBare(s.body, gb);
    var g1 := EmitIf(LastReachable(s.body), Branch(nextB), LowerAll(s.body, gb));
    EmitIfBare(LastReachable(s.body), Branch(nextB), LowerAll(s.body, gb));
    FillNextBare(s.next, g1.Pop().At(nextB), condB);
  }

  lemma {:induction false} ForEverBare(s: Statement, g: State)
    requires s.SFor? && s.condE.None? && Tidy(s) && g.Valid() && (Jumps(s) ==> g.loops != [])
    ensures HasBareRet(Lower(s, g).blocks) <==> HasBareRet(g.blocks) || OmitsValue(s)
    decreases s, 0
  {
    hide HasBareRet, Lower, LowerAll, TidyAll, Grows, FillNext;
    var bodyB, nextB := |g.blocks|, |g.blocks| + 1;
    AppendBare(g, 3);
    InitBare(s, g.Append(3));
    EmitBare(LowerAll(s.init, g.Append(3)), Branch(bodyB));
    var gb := ForEverBody(s, g);
    LowerAllBare(s.body, gb);
    var g1 := EmitIf(LastReachable(s.body), Branch(nextB), LowerAll(s.body, gb));
    EmitIfBare(LastReachable(s.body), Branch(nextB), LowerAll(s.body, gb));
    ForEverResult(s, g, g1);
    FillNextBare(s.next, g1.Pop().At(nextB), bodyB);
  }

  // ----- whole functions -----

  /**
    In the code of an accepted function that has a return value every return carries one
    exactly when no `return` in its body omits it.
  */
  lemma EveryReturnHasValue(body: Stmt, ret: Returns, stack: seq<(nat, nat)>)
    requires Resolve(body, false).Accepted() && SimpleInits(body) && !ret.Void?
    ensures
      var r := Resolve(body, false).out[0];
      !Jumps(r) && (!HasBareRet(GenFunction(r, ret, stack)) <==> !OmitsValue(r))
  {
    hide Lower, OmitsValue, Jumps, Tidy, Grows;
    Counted(body, false);
    AcceptedIsTidy(body, false);
    var r := Resolve(body, false).out[0];
    var g := State([[]], 0, stack);
    assert !HasBareRet(g.blocks);
    if ret.Named? { EmitBare(g, Declare(ret.no, None)); }
    LowerBare(r, Prologue(ret, stack));
    EmitIfBare(ret.Named? && r.Reachable(), Ret(Some(Variable(if ret.Named? then ret.no else 0))),
               Lower(r, Prologue(ret, stack)));
  }

  /** With a bare return a function with the named result 0 returns nothing, where the source returns zero. */
  lemma BareReturnLosesValue(stack: seq<(nat, nat)>, st: Store)
    ensures Resolve(Return(None), false) == Resolved([SReturn(None)], false, 0, 0, 0) && !Jumps(SReturn(None))
    ensures SourceEnds(Return(None), Named(0), st, Returned(Some(0), st[0 := 0]))
    ensures MachineEnds(GenFunction(SReturn(None), Named(0), stack), st, Halted(None, st[0 := 0]))
  {
    assert ExecFunction(Return(None), Named(0), st, 0) == Returned(Some(0), st[0 := 0]);
    var code := GenFunction(SReturn(None), Named(0), stack);
    assert code[0] == [] + [Declare(0, None)] + [Ret(None)] == [Declare(0, None), Ret(None)];
    var c0, c1 := Running(0, 0, st), Running(0, 1, st[0 := 0]);
    assert Step(code, c0) == c1 && Step(code, c1) == Halted(None, st[0 := 0]);
    assert Run(code, c1, 1) == Run(code, c0, 2) == Halted(None, st[0 := 0]);
  }
}
