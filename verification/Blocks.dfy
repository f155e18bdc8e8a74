/**
  The shape of the emitted code: every block but the current one is closed by exactly one
  terminator, and the current block is open exactly when control reaches the end of the
  statement.  `for (;;)` breaks this in two ways, and `Closable` says exactly when.
*/
module Blocks {
  import opened Wrappers
  import opened Ast
  import opened Analysis
  import opened Reachability
  import opened Machine
  import opened Lowering
  import opened Simulation
  import opened Compiler

  predicate Open(c: Code) {
    forall i :: 0 <= i < |c| ==> !c[i].Terminator()
  }

  predicate Sealed(c: Code) {
    c != [] && c[|c| - 1].Terminator() && Open(c[..|c| - 1])
  }

  /** The grammar allows a declaration or an expression as the initializer of a `for`. */
  predicate SimpleInits(s: Stmt) {
    match s
    case Block(ss) => forall i :: 0 <= i < |ss| ==> SimpleInits(ss[i])
    case While(_, body) => SimpleInits(body)
    case DoWhile(body, _) => SimpleInits(body)
    case If(_, t, e) => SimpleInits(t) && (e.Some? ==> SimpleInits(e.value))
    case For(init, _, _, body) =>
      && (init.Some? ==> init.value.VariableDefinition? || init.value.Expression?)
      && (body.Some? ==> SimpleInits(body.value))
    case _ => true
  }

  /** What acceptance and the grammar guarantee about a resolved tree. */
  predicate Tidy(s: Statement) {
    match s
    case SBlock(ss) => TidyAll(ss)
    case SIf(flag, _, t, e) => TidyAll(t) && TidyAll(e) && flag == (LastReachable(t) || LastReachable(e))
    case SWhile(flag, _, body) => flag && TidyAll(body)
    case SDoWhile(flag, body, _) => flag && TidyAll(body)
    case SFor(flag, init, c, _, body) =>
      && TidyAll(body)
      && (c.Some? ==> flag)
      && (init == [] || (|init| == 1 && (init[0].SVariableDecl? || (init[0].SExpression? && init[0].flag))))
    case SExpression(flag, _) => flag
    case _ => true
  }

  predicate TidyAll(ss: seq<Statement>) {
    ss == [] || (Tidy(ss[0]) && TidyAll(ss[1..]) && (ss[1..] != [] ==> ss[0].Reachable()))
  }

  lemma {:induction false} AcceptedIsTidy(s: Stmt, inLoop: bool)
    requires Resolve(s, inLoop).Accepted() && SimpleInits(s)
    ensures Tidy(Resolve(s, inLoop).out[0])
    decreases s, 1
  {
    match s
    case Block(ss) => AcceptedIsTidySeq(ss, inLoop, true);
    case While(_, body) => AcceptedIsTidyOpt(Some(body), s, true);
    case DoWhile(body, _) => AcceptedIsTidyOpt(Some(body), s, true);
    case If(_, t, e) =>
      AcceptedIsTidyOpt(Some(t), s, inLoop);
      AcceptedIsTidyOpt(e, s, inLoop);
    case For(init, _, _, body) =>
      AcceptedIsTidyOpt(body, s, true);
      assert init.Some? ==> Resolve(init.value, inLoop).Accepted();
    case _ =>
  }

  lemma {:induction false} AcceptedIsTidyOpt(s: Option<Stmt>, around: Stmt, inLoop: bool)
    requires ResolveOpt(s, inLoop).Accepted() && (s.Some? ==> SimpleInits(s.value) && s.value < around)
    ensures TidyAll(ResolveOpt(s, inLoop).out)
    ensures LastReachable(ResolveOpt(s, inLoop).out) == ResolveOpt(s, inLoop).flag
    decreases around, 0
  {
    CountedOpt(s, inLoop);
    if s.Some? {
      AcceptedIsTidy(s.value, inLoop);
      assert ResolveOpt(s, inLoop).out[1..] == [];
    }
  }

  lemma {:induction false} AcceptedIsTidySeq(ss: seq<Stmt>, inLoop: bool, reachable: bool)
    requires ResolveSeq(ss, inLoop, reachable, false).Accepted()
    requires forall i :: 0 <= i < |ss| ==> SimpleInits(ss[i])
    ensures TidyAll(ResolveSeq(ss, inLoop, reachable, false).out)
    decreases ss, 0
  {
    if ss != [] {
      FlagIsReachableSeq(ss, inLoop, reachable, false);
      var first := Resolve(ss[0], inLoop);
      var out := first.out + ResolveSeq(ss[1..], inLoop, first.flag, false).out;
      AcceptedIsTidy(ss[0], inLoop);
      AcceptedIsTidySeq(ss[1..], inLoop, first.flag);
      assert out[0] == first.out[0] && out[1..] == ResolveSeq(ss[1..], inLoop, first.flag, false).out;
    }
  }

  /** Every `for` without a condition reaches the end of its body and can be left by a break. */
  predicate Closable(s: Statement) {
    match s
    case SBlock(ss) => ClosableAll(ss)
    case SIf(_, _, t, e) => ClosableAll(t) && ClosableAll(e)
    case SWhile(_, _, body) => ClosableAll(body)
    case SDoWhile(_, body, _) => ClosableAll(body)
    case SFor(flag, _, c, _, body) => ClosableAll(body) && (c.None? ==> flag && LastReachable(body))
    case _ => true
  }

  predicate ClosableAll(ss: seq<Statement>) {
    ss == [] || (Closable(ss[0]) && ClosableAll(ss[1..]))
  }

  /** All blocks worked on are closed once, except the current one when control reaches its end. */
  ghost predicate Closes(g: State, g': State, flag: bool) {
    && Grows(g, g')
    && (forall i :: (i == g.cur || |g.blocks| <= i < |g'.blocks|) && i != g'.cur ==> Sealed(g'.blocks[i]))
    && if flag then Open(g'.blocks[g'.cur]) else Sealed(g'.blocks[g'.cur])
  }

  /** A new block is left empty, and nothing will be added to it later. */
  ghost predicate LeavesHole(g: State, g': State, flag: bool) {
    exists b :: |g.blocks| <= b < |g'.blocks| && g'.blocks[b] == [] && (b != g'.cur || !flag)
  }

  ghost predicate Shaped(closable: bool, g: State, g': State, flag: bool) {
    if closable then Closes(g, g', flag) else LeavesHole(g, g', flag)
  }

  lemma SealedBy(c: Code, op: Op)
    requires Open(c)
    ensures if op.Terminator() then Sealed(c + [op]) else Open(c + [op])
  {
    assert (c + [op])[..|c|] == c;
  }

  lemma {:induction false} Shape(s: Statement, g: State)
    requires Tidy(s) && g.Valid() && (Jumps(s) ==> g.loops != []) && Open(g.blocks[g.cur])
    ensures Shaped(Closable(s), g, Lower(s, g), s.Reachable())
    decreases s, 3
  {
    match s
    case SBlock(ss) => ShapeBlock(ss, g);
    case SIf(_, _, _, e) => if e == [] { ShapeIfThen(s, g); } else { ShapeIfElse(s, g); }
    case SWhile(_, _, _) => ShapeWhile(s, g);
    case SDoWhile(_, _, _) => ShapeDoWhile(s, g);
    case SFor(_, _, c, _, _) => if c.Some? { ShapeFor(s, g); } else { ShapeForEver(s, g); }
    case SVariableDecl(no, init) => SealedBy(g.blocks[g.cur], Declare(no, init));
    case SExpression(_, e) => SealedBy(g.blocks[g.cur], Evaluate(e));
    case SReturn(v) => SealedBy(g.blocks[g.cur], Ret(v));
    case SBreak => SealedBy(g.blocks[g.cur], Branch(g.loops[|g.loops| - 1].0));
    case SContinue => SealedBy(g.blocks[g.cur], Branch(g.loops[|g.loops| - 1].1));
  }

  lemma {:induction false} ShapeBlock(ss: seq<Statement>, g: State)
    requires TidyAll(ss) && g.Valid() && (JumpsAny(ss) ==> g.loops != []) && Open(g.blocks[g.cur])
    ensures Shaped(ClosableAll(ss), g, LowerBlock(ss, g), SBlock(ss).Reachable())
    decreases ss, 0
  {
    if ss != [] {
      Shape(ss[0], g);
      var g1 := Lower(ss[0], g);
      var g' := LowerBlock(ss, g);
      BlockReachable(ss);
      if ss[0].Reachable() {
        if Closable(ss[0]) {
          ShapeBlock(ss[1..], g1);
          if ClosableAll(ss[1..]) {
            ClosesThen(g, g1, g', SBlock(ss[1..]).Reachable());
          } else {
            HoleAfter(g, g1, g', SBlock(ss[1..]).Reachable());
          }
        } else {
          HoleStays(g, g1, g', SBlock(ss).Reachable());
        }
      } else {
        assert ss[1..] == [];
        assert ClosableAll(ss) == Closable(ss[0]);
      }
    }
  }

  lemma BlockReachable(ss: seq<Statement>)
    requires ss != []
    ensures SBlock(ss).Reachable() == (ss[0].Reachable() && SBlock(ss[1..]).Reachable())
  {
    if ss[0].Reachable() && SBlock(ss[1..]).Reachable() {
      forall i | 0 <= i < |ss| ensures ss[i].Reachable() {
        if i > 0 { assert ss[i] == ss[1..][i - 1]; }
      }
    }
    if SBlock(ss).Reachable() {
      forall i | 0 <= i < |ss| - 1 ensures ss[1..][i].Reachable() {
        assert ss[1..][i] == ss[i + 1];
      }
    }
  }

  lemma ClosesThen(g: State, g1: State, g': State, flag: bool)
    requires Closes(g, g1, true) && Closes(g1, g', flag) && Grows(g, g')
    ensures Closes(g, g', flag)
  {}

  lemma HoleStays(g: State, g1: State, g': State, flag: bool)
    requires LeavesHole(g, g1, true) && Grows(g1, g')
    ensures LeavesHole(g, g', flag)
  {
    var b :| |g.blocks| <= b < |g1.blocks| && g1.blocks[b] == [] && b != g1.cur;
    assert g'.blocks[b] == [] && b != g'.cur;
  }

  lemma HoleAfter(g: State, g1: State, g': State, flag: bool)
    requires |g.blocks| <= |g1.blocks| && LeavesHole(g1, g', flag)
    ensures LeavesHole(g, g', flag)
  {
    var b :| |g1.blocks| <= b < |g'.blocks| && g'.blocks[b] == [] && (b != g'.cur || !flag);
    assert |g.blocks| <= b;
  }

  lemma {:induction false} ShapeAll(ss: seq<Statement>, g: State)
    requires TidyAll(ss) && g.Valid() && (JumpsAny(ss) ==> g.loops != []) && Open(g.blocks[g.cur])
    ensures Shaped(ClosableAll(ss), g, LowerAll(ss, g), LastReachable(ss))
    decreases ss, 0
  {
    if ss != [] {
      Shape(ss[0], g);
      var g1 := Lower(ss[0], g);
      var g' := LowerAll(ss, g);
      if ss[1..] != [] {
        assert LastReachable(ss) == LastReachable(ss[1..]);
        if Closable(ss[0]) {
          ShapeAll(ss[1..], g1);
          if ClosableAll(ss[1..]) {
            ClosesThen(g, g1, g', LastReachable(ss));
          } else {
            HoleAfter(g, g1, g', LastReachable(ss));
          }
        } else {
          HoleStays(g, g1, g', LastReachable(ss));
        }
      } else {
        assert LowerAll(ss[1..], g1) == g1;
        assert ClosableAll(ss) == Closable(ss[0]);
      }
    }
  }

  /** Every block an arm or a loop body worked on is closed once it has been joined to its successor. */
  ghost predicate AllSealed(g: State, blocks: seq<Code>) {
    && |g.blocks| <= |blocks|
    && forall i :: (i == g.cur || |g.blocks| <= i < |blocks|) && i < |blocks| ==> Sealed(blocks[i])
  }

  ghost predicate HasHole(from: nat, blocks: seq<Code>) {
    exists b :: from <= b < |blocks| && blocks[b] == []
  }

  /** An arm or a loop body, lowered and joined to `target`: the new blocks, and those it leaves alone. */
  lemma ShapeJoined(ss: seq<Statement>, g: State, target: nat)
    requires TidyAll(ss) && g.Valid() && (JumpsAny(ss) ==> g.loops != []) && Open(g.blocks[g.cur])
    ensures
      var g2 := EmitIf(LastReachable(ss), Branch(target), LowerAll(ss, g));
      && (if ClosableAll(ss) then AllSealed(g, g2.blocks) else HasHole(|g.blocks|, g2.blocks))
      && |g.blocks| <= |g2.blocks| && g.loops <= g2.loops
      && (forall i :: 0 <= i < |g.blocks| && i != g.cur ==> g2.blocks[i] == g.blocks[i])
    decreases ss, 1
  {
    hide Lower, LowerAll, LowerBlock, JumpsAny, LastReachable, ClosableAll;
    ShapeAll(ss, g);
    var g1 := LowerAll(ss, g);
    var g2 := EmitIf(LastReachable(ss), Branch(target), g1);
    if LastReachable(ss) && ClosableAll(ss) {
      SealedBy(g1.blocks[g1.cur], Branch(target));
    }
    if !ClosableAll(ss) {
      var b :| |g.blocks| <= b < |g1.blocks| && g1.blocks[b] == [] && (b != g1.cur || !LastReachable(ss));
      assert g2.blocks[b] == [];
    }
  }

  lemma ShapeIfThen(s: Statement, g: State)
    requires s.SIf? && s.elseStmt == [] && Tidy(s) && g.Valid() && (Jumps(s) ==> g.loops != [])
    requires Open(g.blocks[g.cur])
    ensures Shaped(Closable(s), g, Lower(s, g), s.Reachable())
    decreases s, 2
  {
    hide LowerAll, LowerBlock, JumpsAny, TidyAll;
    var endif := |g.blocks| + 1;
    var g1 := ThenEntry(s, endif, g);
    assert g1.blocks[|g.blocks|] == g1.blocks[endif] == [];
    ShapeJoined(s.thenStmt, g1, endif);
    SealedBy(g.blocks[g.cur], CondBranch(s.cond, |g.blocks|, endif));
    var g2 := EmitIf(LastReachable(s.thenStmt), Branch(endif), LowerAll(s.thenStmt, g1));
    assert Lower(s, g) == LowerIfThen(s, g) == g2.At(endif);
    HoleStart(|g.blocks|, |g1.blocks|, g2.blocks);
  }

  lemma HoleStart(from: nat, from': nat, blocks: seq<Code>)
    requires from <= from'
    ensures HasHole(from', blocks) ==> HasHole(from, blocks)
  {}

  lemma ShapeWhile(s: Statement, g: State)
    requires s.SWhile? && Tidy(s) && g.Valid() && Open(g.blocks[g.cur])
    ensures Shaped(Closable(s), g, Lower(s, g), s.Reachable())
    decreases s, 2
  {
    hide LowerAll, LowerBlock, LastReachable, ClosableAll, JumpsAny, TidyAll, Lower, Grows;
    var condB, end := |g.blocks| + 1, |g.blocks| + 2;
    var g1 := WhileBody(s, g);
    ShapeJoined(s.body, g1, condB);
    SealedBy(g.blocks[g.cur], Branch(condB));
    var g2 := EmitIf(LastReachable(s.body), Branch(condB), LowerAll(s.body, g1));
    LowerLoop(s, g);
    assert LowerWhile(s, g) == g2.Pop().At(end);
    HoleStart(|g.blocks|, |g1.blocks|, g2.blocks);
  }

  lemma ShapeDoWhile(s: Statement, g: State)
    requires s.SDoWhile? && Tidy(s) && g.Valid() && Open(g.blocks[g.cur])
    ensures Shaped(Closable(s), g, Lower(s, g), s.Reachable())
    decreases s, 2
  {
    hide LowerAll, LowerBlock, LastReachable, ClosableAll, JumpsAny, TidyAll, Lower, Grows;
    var bodyB, condB, end := |g.blocks|, |g.blocks| + 1, |g.blocks| + 2;
    var g1 := DoWhileBody(s, g);
    ShapeJoined(s.body, g1, condB);
    SealedBy(g.blocks[g.cur], Branch(bodyB));
    var g2 := EmitIf(LastReachable(s.body), Branch(condB), LowerAll(s.body, g1));
    LowerLoop(s, g);
    assert LowerDoWhile(s, g) == g2.At(condB).Emit(CondBranch(s.cond, bodyB, end)).At(end);
    if !Closable(s) {
      var b :| |g1.blocks| <= b < |g2.blocks| && g2.blocks[b] == [];
      assert Lower(s, g).blocks[b] == [] && b != end;
    }
  }

  /** An initializer adds at most one operation, which is not a terminator, to the current block. */
  lemma SimpleInit(s: Statement, g: State)
    requires s.SFor? && Tidy(s) && g.Valid() && (Jumps(s) ==> g.loops != []) && Open(g.blocks[g.cur])
    ensures
      var g1 := LowerAll(s.init, g);
      && g1.cur == g.cur && |g1.blocks| == |g.blocks| && g1.loops == g.loops && Open(g1.blocks[g.cur])
  {
    hide Grows;
    if s.init != [] {
      assert s.init[1..] == [];
      var op := match s.init[0] case SVariableDecl(no, e) => Declare(no, e) case SExpression(_, e) => Evaluate(e);
      assert Lower(s.init[0], g) == g.Emit(op);
      SealedBy(g.blocks[g.cur], op);
    }
  }

  lemma ShapeFor(s: Statement, g: State)
    requires s.SFor? && s.condE.Some? && Tidy(s) && g.Valid() && (Jumps(s) ==> g.loops != [])
    requires Open(g.blocks[g.cur])
    ensures Shaped(Closable(s), g, Lower(s, g), s.Reachable())
    decreases s, 2
  {
    hide LowerAll, LowerBlock, LastReachable, ClosableAll, JumpsAny, TidyAll, ForCondLoop;
    var condB := |g.blocks|;
    var g1 := LowerAll(s.init, g.Append(4));
    SimpleInit(s, g.Append(4));
    assert forall i :: condB <= i < condB + 4 ==> g1.blocks[i] == [];
    assert Lower(s, g) == LowerForCond(s, g) == ForCondLoop(s, condB, g1);
    ShapeForLoop(s, condB, g1);
    var g' := Lower(s, g);
    if Closable(s) {
      assert forall i :: condB <= i < |g'.blocks| && i != condB + 3 ==> Sealed(g'.blocks[i]);
    } else {
      var b :| condB <= b < |g'.blocks| && g'.blocks[b] == [] && b != condB + 3;
      assert |g.blocks| <= b;
    }
  }

  lemma ShapeForLoop(s: Statement, condB: nat, g: State)
    requires s.SFor? && s.condE.Some? && Tidy(s) && g.Valid() && condB + 4 == |g.blocks| && g.cur < condB
    requires Open(g.blocks[g.cur]) && forall i :: condB <= i < condB + 4 ==> g.blocks[i] == []
    ensures
      var g' := ForCondLoop(s, condB, g);
      && g'.blocks[condB + 3] == []
      && (ClosableAll(s.body) ==>
            && Sealed(g'.blocks[g.cur])
            && forall i :: condB <= i < |g'.blocks| && i != condB + 3 ==> Sealed(g'.blocks[i]))
      && (!ClosableAll(s.body) ==> exists b :: condB <= b < |g'.blocks| && g'.blocks[b] == [] && b != condB + 3)
    decreases s, 0
  {
    hide LowerAll, LowerBlock, LastReachable, ClosableAll, JumpsAny, TidyAll;
    var bodyB, nextB, end := condB + 1, condB + 2, condB + 3;
    SealedBy(g.blocks[g.cur], Branch(condB));
    var g1 := ForBody(s, condB, g);
    assert g1.blocks[bodyB] == g1.blocks[nextB] == g1.blocks[end] == [];
    assert g1.blocks[condB] == [CondBranch(s.condE.value, bodyB, end)];
    ShapeJoined(s.body, g1, nextB);
    var g2 := EmitIf(LastReachable(s.body), Branch(nextB), LowerAll(s.body, g1)).Pop().At(nextB);
    NextSealed(s.next, g2, condB);
    if !ClosableAll(s.body) {
      var b :| |g1.blocks| <= b < |g2.blocks| && g2.blocks[b] == [];
      assert ForCondLoop(s, condB, g).blocks[b] == [] && b != end;
    }
  }

  /** The `next` block holds the expression, if any, and the branch back. */
  lemma NextSealed(next: Option<Expr>, g: State, target: nat)
    requires g.Valid() && g.blocks[g.cur] == []
    ensures Sealed(FillNext(next, g, target).blocks[g.cur])
  {}

  /** Joining with `EndIf` is joining, after which the join block may have been added. */
  lemma EndIfBlocks(needed: bool, join: Option<nat>, g: State)
    requires g.Valid()
    ensures
      var (g', join') := EndIf(needed, join, g);
      var g2 := EmitIf(needed, Branch(if needed then join'.value else 0), g);
      && g'.Valid() && g'.cur == g.cur && g'.loops == g.loops
      && (needed && join.None? ==> g'.blocks == g2.blocks + [[]] && join' == Some(|g2.blocks|))
      && (!(needed && join.None?) ==> g'.blocks == g2.blocks && join' == join)
  {}

  lemma ShapeElse(s: Statement, g: State)
    requires s.SIf? && Tidy(s) && g.Valid() && (Jumps(s) ==> g.loops != [])
    requires Open(g.blocks[g.cur])
    ensures
      var (ge, join) := ElseEntry(s, g);
      && Sealed(ge.blocks[g.cur])
      && (ClosableAll(s.thenStmt) ==>
            && Sealed(ge.blocks[|g.blocks|])
            && forall i :: |g.blocks| + 2 <= i < |ge.blocks| && join != Some(i) ==> Sealed(ge.blocks[i]))
      && (!ClosableAll(s.thenStmt) ==>
            exists b :: |g.blocks| + 2 <= b < |ge.blocks| && ge.blocks[b] == [] && join != Some(b))
    decreases s, 0
  {
    hide LowerAll, LowerBlock, LastReachable, ClosableAll, JumpsAny, TidyAll, EndIf;
    var elseB := |g.blocks| + 1;
    var g1 := ThenEntry(s, elseB, g);
    var g2 := LowerAll(s.thenStmt, g1);
    var (g3, join) := EndIf(LastReachable(s.thenStmt), None, g2);
    assert ElseEntry(s, g) == (g3.At(elseB), join);
    SealedBy(g.blocks[g.cur], CondBranch(s.cond, |g.blocks|, elseB));
    EndIfBlocks(LastReachable(s.thenStmt), None, g2);
    var target := if LastReachable(s.thenStmt) then join.value else 0;
    ShapeJoined(s.thenStmt, g1, target);
    var blocks := EmitIf(LastReachable(s.thenStmt), Branch(target), g2).blocks;
    if !ClosableAll(s.thenStmt) {
      var b :| |g1.blocks| <= b < |blocks| && blocks[b] == [];
      assert g3.blocks[b] == [] && join != Some(b);
    }
  }

  lemma LowerElse(s: Statement, g: State)
    requires s.SIf? && s.elseStmt != [] && g.Valid() && (Jumps(s) ==> g.loops != [])
    ensures
      var (ge, join) := ElseEntry(s, g);
      var r := EndIf(LastReachable(s.elseStmt), join, LowerAll(s.elseStmt, ge));
      Lower(s, g) == if r.1.Some? then r.0.At(r.1.value) else r.0
  {
    assert Lower(s, g) == LowerIfElse(s, g);
  }

  /** The else-branch, joined: its blocks, and what is added to them at most. */
  lemma IfElseParts(s: Statement, g: State) returns (ge: State, blocks: seq<Code>)
    requires s.SIf? && s.elseStmt != [] && Tidy(s) && g.Valid() && (Jumps(s) ==> g.loops != [])
    requires Open(g.blocks[g.cur])
    ensures ge == ElseEntry(s, g).0 && ge.Valid() && ge.cur == |g.blocks| + 1 && |ge.blocks| <= |blocks|
    ensures if ClosableAll(s.elseStmt) then AllSealed(ge, blocks) else HasHole(|ge.blocks|, blocks)
    ensures forall i :: 0 <= i < |ge.blocks| && i != ge.cur ==> blocks[i] == ge.blocks[i]
    ensures
      var join, g' := ElseEntry(s, g).1, Lower(s, g);
      && (g'.blocks == blocks || (g'.blocks == blocks + [[]] && g'.cur == |blocks|))
      && if s.Reachable() then g'.cur == if join.Some? then join.value else |blocks|
         else join.None? && (g'.cur == ge.cur || |ge.blocks| <= g'.cur < |blocks|)
    decreases s, 1
  {
    hide LowerAll, LowerBlock, LastReachable, ClosableAll, JumpsAny, TidyAll, ThenEntry, ElseEntry, EndIf;
    hide Lower, Sealed, Grows;
    var join := ElseEntry(s, g).1;
    ge := ElseEntry(s, g).0;
    var g3 := LowerAll(s.elseStmt, ge);
    EndIfBlocks(LastReachable(s.elseStmt), join, g3);
    var target := if LastReachable(s.elseStmt) then EndIf(true, join, g3).1.value else 0;
    blocks := EmitIf(LastReachable(s.elseStmt), Branch(target), g3).blocks;
    LowerElse(s, g);
    ShapeJoined(s.elseStmt, ge, target);
    GrowsTo(ge, g3);
  }

  lemma ShapeIfElse(s: Statement, g: State)
    requires s.SIf? && s.elseStmt != [] && Tidy(s) && g.Valid() && (Jumps(s) ==> g.loops != [])
    requires Open(g.blocks[g.cur])
    ensures Shaped(Closable(s), g, Lower(s, g), s.Reachable())
    decreases s, 2
  {
    hide LowerAll, LowerBlock, LastReachable, ClosableAll, JumpsAny, TidyAll, ThenEntry, ElseEntry, EndIf;
    hide Lower, Sealed, Grows;
    ShapeElse(s, g);
    var ge, blocks := IfElseParts(s, g);
    var join, g' := ElseEntry(s, g).1, Lower(s, g);
    if !ClosableAll(s.thenStmt) {
      var b :| |g.blocks| + 2 <= b < |ge.blocks| && ge.blocks[b] == [] && join != Some(b);
      assert blocks[b] == [] && g'.blocks[b] == [];
    } else if !ClosableAll(s.elseStmt) {
      var b :| |ge.blocks| <= b < |blocks| && blocks[b] == [];
      assert g'.blocks[b] == [];
    } else {
      forall i | (i == g.cur || |g.blocks| <= i < |g'.blocks|) && i != g'.cur ensures Sealed(g'.blocks[i]) {
        if i < |ge.blocks| && i != ge.cur { assert blocks[i] == ge.blocks[i]; }
      }
    }
  }

  lemma ShapeForEver(s: Statement, g: State)
    requires s.SFor? && s.condE.None? && Tidy(s) && g.Valid() && (Jumps(s) ==> g.loops != [])
    requires Open(g.blocks[g.cur])
    ensures Shaped(Closable(s), g, Lower(s, g), s.Reachable())
    decreases s, 2
  {
    hide Lower, LowerAll, LowerBlock, LastReachable, ClosableAll, JumpsAny, TidyAll, ForEverBody, Grows;
    var bodyB, nextB, end := |g.blocks|, |g.blocks| + 1, |g.blocks| + 2;
    SimpleInit(s, g.Append(3));
    var g1 := LowerAll(s.init, g.Append(3));
    SealedBy(g1.blocks[g.cur], Branch(bodyB));
    var gb := ForEverBody(s, g);
    assert gb.blocks[g.cur] == g1.blocks[g.cur] + [Branch(bodyB)];
    ShapeJoined(s.body, gb, nextB);
    var g2 := EmitIf(LastReachable(s.body), Branch(nextB), LowerAll(s.body, gb));
    var g' := Lower(s, g);
    ForEverBlocks(s, g, g2);
    if !ClosableAll(s.body) {
      var b :| |gb.blocks| <= b < |g2.blocks| && g2.blocks[b] == [];
      assert g'.blocks[b] == [];
    } else if !LastReachable(s.body) {
      assert g'.blocks[nextB] == [];
    } else if !s.flag {
      assert g'.blocks[end] == [];
    }
  }

  lemma ForEverResult(s: Statement, g: State, g2: State)
    requires s.SFor? && s.condE.None? && g.Valid() && (Jumps(s) ==> g.loops != [])
    requires g2 == EmitIf(LastReachable(s.body), Branch(|g.blocks| + 1), LowerAll(s.body, ForEverBody(s, g)))
    ensures g2.loops != [] && |g.blocks| + 2 < |g2.blocks|
    ensures Lower(s, g) == CloseForEver(s, |g.blocks|, g2)
  {
    hide Grows, State.Valid;
    ForEverEmpty(s, g, g2);
    LowerFor(s, g);
  }

  lemma CloseForEverBlocks(s: Statement, bodyB: nat, g: State)
    requires s.SFor? && g.loops != [] && bodyB + 2 < |g.blocks|
    requires g.blocks[bodyB + 1] == [] && g.blocks[bodyB + 2] == []
    ensures
      var g' := CloseForEver(s, bodyB, g);
      && g'.cur == bodyB + 2 && |g'.blocks| == |g.blocks|
      && (forall i :: 0 <= i < |g.blocks| && i != bodyB + 1 ==> g'.blocks[i] == g.blocks[i])
      && (if LastReachable(s.body) then Sealed(g'.blocks[bodyB + 1]) else g'.blocks[bodyB + 1] == [])
  {
    hide FillNext, Sealed, LastReachable;
    if LastReachable(s.body) { NextSealed(s.next, g.Pop().At(bodyB + 1), bodyB); }
  }

  lemma ForEverBlocks(s: Statement, g: State, g2: State)
    requires s.SFor? && s.condE.None? && g.Valid() && (Jumps(s) ==> g.loops != [])
    requires g2 == EmitIf(LastReachable(s.body), Branch(|g.blocks| + 1), LowerAll(s.body, ForEverBody(s, g)))
    ensures
      var nextB, end := |g.blocks| + 1, |g.blocks| + 2;
      var g' := Lower(s, g);
      && g'.cur == end && |g'.blocks| == |g2.blocks|
      && (forall i :: 0 <= i < |g2.blocks| && i != nextB ==> g'.blocks[i] == g2.blocks[i])
      && (if LastReachable(s.body) then Sealed(g'.blocks[nextB]) else g'.blocks[nextB] == [])
      && g'.blocks[end] == []
  {
    hide Lower, LowerAll, LowerBlock, ForEverBody;
    ForEverEmpty(s, g, g2);
    ForEverResult(s, g, g2);
    CloseForEverBlocks(s, |g.blocks|, g2);
  }

  /** Lowering the body leaves the `next` block and the end block empty. */
  lemma ForEverEmpty(s: Statement, g: State, g2: State)
    requires s.SFor? && s.condE.None? && g.Valid() && (Jumps(s) ==> g.loops != [])
    requires g2 == EmitIf(LastReachable(s.body), Branch(|g.blocks| + 1), LowerAll(s.body, ForEverBody(s, g)))
    ensures |g2.blocks| >= |g.blocks| + 3 && g2.loops != [] && g2.cur != |g.blocks| + 1 && g2.cur != |g.blocks| + 2
    ensures g2.blocks[|g.blocks| + 1] == [] && g2.blocks[|g.blocks| + 2] == []
  {
    hide LowerAll, LowerBlock, LastReachable, ClosableAll, JumpsAny, Jumps, TidyAll, ForEverBody, Grows;
    var gb := ForEverBody(s, g);
    var g1 := LowerAll(s.body, gb);
    GrowsElsewhere(gb, g1, |g.blocks| + 1);
    GrowsElsewhere(gb, g1, |g.blocks| + 2);
  }

  // ----- statements that leave their last block open -----

  /**
    Every block but the last is closed once, and the last is open.  Where the end of the
    statement is reachable that is being closable; where it is not, the statement has to end
    in a `for` without a condition and without a break, whose end block nothing goes to.
  */
  predicate EndsOpen(s: Statement) {
    match s
    case SBlock(ss) => AllEndOpen(ss)
    case SIf(flag, _, t, e) => ClosableAll(t) && if flag then ClosableAll(e) else AllEndOpen(e)
    case SFor(_, _, c, _, body) => ClosableAll(body) && (c.None? ==> LastReachable(body))
    case SContinue | SBreak | SReturn(_) => false
    case _ => Closable(s)
  }

  predicate AllEndOpen(ss: seq<Statement>) {
    ss == [] || if ss[1..] == [] then EndsOpen(ss[0]) else Closable(ss[0]) && AllEndOpen(ss[1..])
  }

  /** The blocks worked on between two states. */
  predicate Worked(g: State, g': State, b: nat) {
    (b == g.cur || |g.blocks| <= b) && b < |g'.blocks|
  }

  ghost predicate ClosesOthers(g: State, g': State)
    requires g'.Valid()
  {
    && (forall b: nat :: Worked(g, g', b) && b != g'.cur ==> Sealed(g'.blocks[b]))
    && Open(g'.blocks[g'.cur])
  }

  /** Some other block stays empty for good, or the last one is closed already. */
  ghost predicate SpoilsOthers(g: State, g': State)
    requires g'.Valid()
  {
    || (exists b: nat :: |g.blocks| <= b < |g'.blocks| && g'.blocks[b] == [] && b != g'.cur)
    || !Open(g'.blocks[g'.cur])
  }

  ghost predicate Ending(open: bool, g: State, g': State)
    requires g'.Valid()
  {
    if open then ClosesOthers(g, g') else SpoilsOthers(g, g')
  }

  lemma {:induction false} ReachableEndsOpen(s: Statement)
    requires Tidy(s) && s.Reachable()
    ensures EndsOpen(s) <==> Closable(s)
    decreases s, 1
  {
    if s.SBlock? { ReachableAllEndOpen(s.statements); }
  }

  lemma {:induction false} ReachableAllEndOpen(ss: seq<Statement>)
    requires TidyAll(ss) && SBlock(ss).Reachable()
    ensures AllEndOpen(ss) <==> ClosableAll(ss)
    decreases ss, 0
  {
    if ss != [] {
      BlockReachable(ss);
      ReachableEndsOpen(ss[0]);
      ReachableAllEndOpen(ss[1..]);
    }
  }

  lemma SealedIsNotOpen(c: Code)
    requires Sealed(c)
    ensures !Open(c)
  {
    assert c[|c| - 1].Terminator();
  }

  /** Where the end is reachable this is `Shape` said again. */
  lemma EndingOfReachable(closable: bool, g: State, g': State)
    requires g'.Valid() && Shaped(closable, g, g', true)
    ensures Ending(closable, g, g')
  {}

  lemma {:induction false} ShapeOfEnd(s: Statement, g: State)
    requires Tidy(s) && g.Valid() && (Jumps(s) ==> g.loops != []) && Open(g.blocks[g.cur])
    ensures Ending(EndsOpen(s), g, Lower(s, g))
    decreases s, 2
  {
    hide Ending, Shaped, Closable, LowerBlock, LowerAll, EndsOpen, Tidy;
    if s.Reachable() {
      Shape(s, g);
      ReachableEndsOpen(s);
      EndingOfReachable(Closable(s), g, Lower(s, g));
    } else {
      UnreachableEnd(s, g);
    }
  }

  lemma {:induction false} UnreachableEnd(s: Statement, g: State)
    requires Tidy(s) && !s.Reachable() && g.Valid() && (Jumps(s) ==> g.loops != []) && Open(g.blocks[g.cur])
    ensures Ending(EndsOpen(s), g, Lower(s, g))
    decreases s, 1
  {
    match s
    case SBlock(ss) => EndOfBlock(ss, g);
    case SIf(_, _, _, _) => EndOfIf(s, g);
    case SFor(_, _, _, _, _) => EndOfForEver(s, g);
    case SBreak | SContinue | SReturn(_) =>
      Shape(s, g);
      SealedIsNotOpen(Lower(s, g).blocks[g.cur]);
  }

  lemma EndAfter(open: bool, g: State, g1: State, g': State)
    requires Closes(g, g1, true) && Grows(g1, g') && Ending(open, g1, g')
    ensures Ending(open, g, g')
  {
    if open {
      forall b: nat | Worked(g, g', b) && b != g'.cur ensures Sealed(g'.blocks[b]) {
        if !Worked(g1, g', b) { assert g'.blocks[b] == g1.blocks[b]; }
      }
    }
  }

  lemma SpoiledEarlier(g: State, g1: State, g': State)
    requires LeavesHole(g, g1, true) && Grows(g1, g')
    ensures Ending(false, g, g')
  {
    var b :| |g.blocks| <= b < |g1.blocks| && g1.blocks[b] == [] && b != g1.cur;
    assert g'.blocks[b] == [] && b != g'.cur;
  }

  lemma {:induction false} EndOfBlock(ss: seq<Statement>, g: State)
    requires TidyAll(ss) && g.Valid() && (JumpsAny(ss) ==> g.loops != []) && Open(g.blocks[g.cur])
    ensures Ending(AllEndOpen(ss), g, LowerBlock(ss, g))
    decreases ss, 3
  {
    hide Ending, Closes, LeavesHole, Open, Closable, EndsOpen, Tidy, Lower, Grows;
    if ss == [] {
      NothingEnds(g);
    } else if ss[1..] == [] {
      ShapeOfEnd(ss[0], g);
      assert LowerBlock(ss, g) == Lower(ss[0], g);
    } else {
      var g1 := Lower(ss[0], g);
      Shape(ss[0], g);
      if Closable(ss[0]) {
        OpenAfter(g, g1);
        EndOfBlock(ss[1..], g1);
        EndAfter(AllEndOpen(ss[1..]), g, g1, LowerBlock(ss, g));
      } else {
        SpoiledEarlier(g, g1, LowerBlock(ss, g));
      }
    }
  }

  lemma OpenAfter(g: State, g1: State)
    requires Closes(g, g1, true)
    ensures Open(g1.blocks[g1.cur]) && g.loops <= g1.loops
  {}

  lemma NothingEnds(g: State)
    requires g.Valid() && Open(g.blocks[g.cur])
    ensures Ending(true, g, g)
  {}

  lemma {:induction false} EndOfAll(ss: seq<Statement>, g: State)
    requires TidyAll(ss) && g.Valid() && (JumpsAny(ss) ==> g.loops != []) && Open(g.blocks[g.cur])
    ensures Ending(AllEndOpen(ss), g, LowerAll(ss, g))
    decreases ss, 3
  {
    hide Ending, Closes, LeavesHole, Open, Closable, EndsOpen, Tidy, Lower, Grows;
    if ss == [] {
      NothingEnds(g);
    } else if ss[1..] == [] {
      ShapeOfEnd(ss[0], g);
      assert LowerAll(ss, g) == Lower(ss[0], g);
    } else {
      var g1 := Lower(ss[0], g);
      Shape(ss[0], g);
      if Closable(ss[0]) {
        OpenAfter(g, g1);
        EndOfAll(ss[1..], g1);
        EndAfter(AllEndOpen(ss[1..]), g, g1, LowerAll(ss, g));
      } else {
        SpoiledEarlier(g, g1, LowerAll(ss, g));
      }
    }
  }

  /** When neither arm reaches its end, the emitter is left where the else-branch left it. */
  lemma {:induction false} EndOfIf(s: Statement, g: State)
    requires s.SIf? && Tidy(s) && !s.flag && g.Valid() && (Jumps(s) ==> g.loops != []) && Open(g.blocks[g.cur])
    ensures Ending(EndsOpen(s), g, Lower(s, g))
    decreases s, 0
  {
    hide LowerAll, LowerBlock, ClosableAll, AllEndOpen, JumpsAny, TidyAll, ThenEntry, ElseEntry, EndIf, Lower;
    ShapeElse(s, g);
    LowerElse(s, g);
    var ge := ElseEntry(s, g).0;
    var g' := LowerAll(s.elseStmt, ge);
    NoJoin(s, g);
    EndOfAll(s.elseStmt, ge);
    if !ClosableAll(s.thenStmt) {
      var b: nat :| |g.blocks| + 2 <= b < |ge.blocks| && ge.blocks[b] == [];
      assert g'.blocks[b] == [] && b != g'.cur;
    } else if AllEndOpen(s.elseStmt) {
      forall b: nat | Worked(g, g', b) && b != g'.cur ensures Sealed(g'.blocks[b]) {
        if !Worked(ge, g', b) { assert g'.blocks[b] == ge.blocks[b]; }
      }
    }
  }

  lemma NoJoin(s: Statement, g: State)
    requires s.SIf? && Tidy(s) && !s.flag && g.Valid() && (Jumps(s) ==> g.loops != [])
    ensures s.elseStmt != [] && ElseEntry(s, g).1.None?
    ensures Lower(s, g) == LowerAll(s.elseStmt, ElseEntry(s, g).0)
  {
    LowerElse(s, g);
  }

  lemma EndOfForEver(s: Statement, g: State)
    requires s.SFor? && Tidy(s) && !s.flag && g.Valid() && (Jumps(s) ==> g.loops != []) && Open(g.blocks[g.cur])
    ensures Ending(EndsOpen(s), g, Lower(s, g))
  {
    hide Lower, LowerAll, LowerBlock, LastReachable, ClosableAll, JumpsAny, TidyAll, ForEverBody, Grows;
    var bodyB, nextB := |g.blocks|, |g.blocks| + 1;
    SimpleInit(s, g.Append(3));
    var g1 := LowerAll(s.init, g.Append(3));
    SealedBy(g1.blocks[g.cur], Branch(bodyB));
    var gb := ForEverBody(s, g);
    assert gb.blocks[g.cur] == g1.blocks[g.cur] + [Branch(bodyB)];
    ShapeJoined(s.body, gb, nextB);
    var g2 := EmitIf(LastReachable(s.body), Branch(nextB), LowerAll(s.body, gb));
    var g' := Lower(s, g);
    ForEverBlocks(s, g, g2);
    if !ClosableAll(s.body) {
      var b: nat :| |gb.blocks| <= b < |g2.blocks| && g2.blocks[b] == [];
      assert g'.blocks[b] == [] && b != g'.cur;
    } else if !LastReachable(s.body) {
      assert g'.blocks[nextB] == [];
    }
  }

  // ----- whole functions -----

  ghost predicate WellFormed(code: seq<Code>) {
    forall i :: 0 <= i < |code| ==> Sealed(code[i])
  }

  /**
    The blocks of an accepted function with a return value are all closed exactly once
    precisely when every `for` without a condition in it reaches the end of its body and has
    a break.  (A value without a name has to be returned by a statement.)
  */
  lemma FunctionBlocks(body: Stmt, ret: Returns, stack: seq<(nat, nat)>)
    requires Resolve(body, false).Accepted() && SimpleInits(body)
    requires !ret.Void? && (ret.Anonymous? ==> !Resolve(body, false).flag)
    ensures
      var r := Resolve(body, false).out[0];
      !Jumps(r) && (WellFormed(GenFunction(r, ret, stack)) <==> Closable(r))
  {
    hide Lower, Closable, Jumps, Tidy;
    Counted(body, false);
    FlagIsReachable(body, false);
    AcceptedIsTidy(body, false);
    var r := Resolve(body, false).out[0];
    var code := GenFunction(r, ret, stack);
    var g := Prologue(ret, stack);
    Shape(r, g);
    var g1 := Lower(r, g);
    if Closable(r) {
      if ret.Named? && r.Reachable() { SealedBy(g1.blocks[g1.cur], Ret(Some(Variable(ret.no)))); }
      forall i | 0 <= i < |code| ensures Sealed(code[i]) {
        if i != g1.cur { assert code[i] == g1.blocks[i]; }
      }
    } else {
      var b :| |g.blocks| <= b < |g1.blocks| && g1.blocks[b] == [] && (b != g1.cur || !r.Reachable());
      assert code[b] == [];
    }
  }

  /**
    A void function always gets a final return, in whatever block the emitter is left.  All
    its blocks are closed exactly once precisely when that block was the only open one.
  */
  lemma VoidFunctionBlocks(body: Stmt, stack: seq<(nat, nat)>)
    requires Resolve(body, false).Accepted() && SimpleInits(body)
    ensures
      var r := Resolve(body, false).out[0];
      !Jumps(r) && (WellFormed(GenFunction(r, Void, stack)) <==> EndsOpen(r))
  {
    hide Lower, EndsOpen, Jumps, Tidy;
    Counted(body, false);
    AcceptedIsTidy(body, false);
    var r := Resolve(body, false).out[0];
    var code := GenFunction(r, Void, stack);
    var g := Prologue(Void, stack);
    ShapeOfEnd(r, g);
    var g1 := Lower(r, g);
    var last := g1.blocks[g1.cur];
    assert code[g1.cur] == last + [Ret(None)];
    assert (last + [Ret(None)])[..|last|] == last;
    if EndsOpen(r) {
      SealedBy(last, Ret(None));
      forall i | 0 <= i < |code| ensures Sealed(code[i]) {
        if i != g1.cur { assert code[i] == g1.blocks[i] && Worked(g, g1, i); }
      }
    } else if b: nat :| |g.blocks| <= b < |g1.blocks| && g1.blocks[b] == [] && b != g1.cur {
      assert code[b] == [];
    }
  }

  /** Where the end of a void function is reachable, that is being closable, as for other functions. */
  lemma VoidFunctionReachable(body: Stmt)
    requires Resolve(body, false).Accepted() && SimpleInits(body) && Resolve(body, false).flag
    ensures EndsOpen(Resolve(body, false).out[0]) <==> Closable(Resolve(body, false).out[0])
  {
    FlagIsReachable(body, false);
    AcceptedIsTidy(body, false);
    ReachableEndsOpen(Resolve(body, false).out[0]);
  }

  /**
    `for (;;) {}` ends open, a return does not: in the one the last block is closed by the
    final return, in the other twice.
  */
  lemma EndlessLoopEndsOpen()
    ensures Resolve(For(None, None, None, Some(Stmt.Block([]))), false).Accepted()
    ensures !Resolve(For(None, None, None, Some(Stmt.Block([]))), false).flag
    ensures EndsOpen(Resolve(For(None, None, None, Some(Stmt.Block([]))), false).out[0])
    ensures !EndsOpen(Resolve(Return(None), false).out[0])
  {
    assert Resolve(Stmt.Block([]), true) == Resolved([SBlock([])], true, 0, 0, 0);
    assert [SBlock([])][1..] == [];
  }
}
