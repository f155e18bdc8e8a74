/**
  The emitter itself: an object whose blocks, current position and loop stack are updated
  in place while it walks the resolved tree.  Each method is proved to leave it in the
  state that `Lower` gives.
*/
module Emitter {
  import opened Wrappers
  import opened Ast
  import opened Machine
  import opened Lowering

  class Builder {
    var blocks: seq<Code>
    var cur: nat
    var loops: seq<(nat, nat)>

    /** Positioned at the empty entry block of a function. */
    constructor ()
      ensures View() == State([[]], 0, [])
    {
      blocks, cur, loops := [[]], 0, [];
    }

    ghost function View(): State
      reads this
    {
      State(blocks, cur, loops)
    }

    method AppendBlock() returns (b: nat)
      modifies this`blocks
      ensures b == old(|blocks|) && blocks == old(blocks) + [[]]
    {
      b := |blocks|;
      blocks := blocks + [[]];
    }

    method Emit(op: Op)
      requires View().Valid()
      modifies this`blocks
      ensures View() == old(View()).Emit(op)
    {
      blocks := blocks[cur := blocks[cur] + [op]];
    }

    method PositionAtEnd(b: nat)
      modifies this`cur
      ensures View() == old(View()).At(b)
    {
      cur := b;
    }

    method PushLoop(end: nat, next: nat)
      modifies this`loops
      ensures View() == old(View()).Push((end, next))
    {
      loops := loops + [(end, next)];
    }

    method PopLoop()
      requires loops != []
      modifies this`loops
      ensures View() == old(View()).Pop()
    {
      loops := loops[..|loops| - 1];
    }

    method Statement(s: Statement)
      requires View().Valid() && (Jumps(s) ==> loops != [])
      modifies this
      ensures View() == Lower(s, old(View()))
      decreases s, 2
    {
      match s
      case SBlock(statements) => BlockStatements(statements);
      case SVariableDecl(no, init) => Emit(Declare(no, init));
      case SReturn(v) => Emit(Ret(v));
      case SExpression(_, e) => Emit(Evaluate(e));
      case SIf(_, _, _, elseStmt) =>
        if elseStmt == [] {
          IfThen(s);
        } else {
          IfThenElse(s);
        }
      case SFor(_, _, cond, _, _) =>
        if cond.Some? {
          ForCond(s);
        } else {
          ForEver(s);
        }
      case SBreak => Emit(Branch(loops[|loops| - 1].0));
      case SContinue => Emit(Branch(loops[|loops| - 1].1));
      case SWhile(_, _, _) => While(s);
      case SDoWhile(_, _, _) => DoWhile(s);
    }

    /** A block stops at the first statement whose end is not reachable. */
    method BlockStatements(statements: seq<Statement>)
      requires View().Valid() && (JumpsAny(statements) ==> loops != [])
      modifies this
      ensures View() == LowerBlock(statements, old(View()))
      decreases statements, 0
    {
      ghost var g := View();
      assert statements[0..] == statements;
      var i := 0;
      while i < |statements|
        invariant 0 <= i <= |statements|
        invariant View().Valid() && (JumpsAny(statements[i..]) ==> loops != [])
        invariant LowerBlock(statements[i..], View()) == LowerBlock(statements, g)
      {
        hide Lower;
        assert statements[i..][0] == statements[i] && statements[i..][1..] == statements[i + 1..];
        Statement(statements[i]);
        if !statements[i].Reachable() { return; }
        i := i + 1;
      }
    }

    /** Any other list is lowered to its end; the result is the flag of its last statement. */
    method Statements(statements: seq<Statement>) returns (reachable: bool)
      requires View().Valid() && (JumpsAny(statements) ==> loops != [])
      modifies this
      ensures View() == LowerAll(statements, old(View()))
      ensures reachable == LastReachable(statements)
      decreases statements, 0
    {
      ghost var g := View();
      assert statements[0..] == statements;
      reachable := true;
      var i := 0;
      while i < |statements|
        invariant 0 <= i <= |statements|
        invariant View().Valid() && (JumpsAny(statements[i..]) ==> loops != [])
        invariant LowerAll(statements[i..], View()) == LowerAll(statements, g)
        invariant reachable == LastReachable(statements[..i])
      {
        hide Lower;
        assert statements[i..][0] == statements[i] && statements[i..][1..] == statements[i + 1..];
        Statement(statements[i]);
        reachable := statements[i].Reachable();
        i := i + 1;
      }
      assert statements[..i] == statements;
    }

    method IfThen(s: Statement)
      requires s.SIf? && View().Valid() && (Jumps(s) ==> loops != [])
      modifies this
      ensures View() == LowerIfThen(s, old(View()))
      decreases s, 0
    {
      hide Lower, LowerAll, LowerBlock, EmptyBlocks, Grows, JumpsAny;
      ghost var g := View();
      var thenB := AppendBlock();
      var endif := AppendBlock();
      Emit(CondBranch(s.cond, thenB, endif));
      PositionAtEnd(thenB);
      AppendTwice(g);
      assert View() == ThenEntry(s, endif, g);
      var reachable := Statements(s.thenStmt);
      if reachable {
        Emit(Branch(endif));
      }
      PositionAtEnd(endif);
    }

    method IfThenElse(s: Statement)
      requires s.SIf? && View().Valid() && (Jumps(s) ==> loops != [])
      modifies this
      ensures View() == LowerIfElse(s, old(View()))
      decreases s, 0
    {
      hide Lower, LowerAll, LowerBlock, EmptyBlocks, Grows, JumpsAny;
      ghost var g := View();
      var thenB := AppendBlock();
      var elseB := AppendBlock();
      var endif := None;
      Emit(CondBranch(s.cond, thenB, elseB));
      PositionAtEnd(thenB);
      AppendTwice(g);
      assert View() == ThenEntry(s, elseB, g);
      var thenReachable := Statements(s.thenStmt);
      if thenReachable {
        var b := AppendBlock();
        endif := Some(b);
        AppendOnce(LowerAll(s.thenStmt, ThenEntry(s, elseB, g)));
        Emit(Branch(b));
      }
      PositionAtEnd(elseB);
      assert (View(), endif) == ElseEntry(s, g);
      ghost var ge := View();
      var elseReachable := Statements(s.elseStmt);
      if elseReachable {
        if endif.None? {
          var b := AppendBlock();
          endif := Some(b);
          AppendOnce(LowerAll(s.elseStmt, ge));
        }
        Emit(Branch(endif.value));
      }
      if endif.Some? {
        PositionAtEnd(endif.value);
      }
    }

    method While(s: Statement)
      requires s.SWhile? && View().Valid()
      modifies this
      ensures View() == LowerWhile(s, old(View()))
      decreases s, 0
    {
      hide LowerAll, EmptyBlocks;
      ghost var g := View();
      var body := AppendBlock();
      var cond := AppendBlock();
      var end := AppendBlock();
      AppendThrice(g);
      Emit(Branch(cond));
      PositionAtEnd(cond);
      Emit(CondBranch(s.cond, body, end));
      PositionAtEnd(body);
      PushLoop(end, cond);
      assert View() == WhileBody(s, g);
      var bodyReachable := Statements(s.body);
      if bodyReachable {
        Emit(Branch(cond));
      }
      PopLoop();
      PositionAtEnd(end);
    }

    /** There is no pop here. */
    method DoWhile(s: Statement)
      requires s.SDoWhile? && View().Valid()
      modifies this
      ensures View() == LowerDoWhile(s, old(View()))
      decreases s, 0
    {
      hide Lower, LowerAll, LowerBlock, EmptyBlocks, Grows, JumpsAny;
      ghost var g := View();
      var body := AppendBlock();
      var cond := AppendBlock();
      var end := AppendBlock();
      AppendThrice(g);
      Emit(Branch(body));
      PositionAtEnd(body);
      PushLoop(end, cond);
      assert View() == DoWhileBody(s, g);
      var bodyReachable := Statements(s.body);
      if bodyReachable {
        Emit(Branch(cond));
      }
      PositionAtEnd(cond);
      Emit(CondBranch(s.cond, body, end));
      PositionAtEnd(end);
    }

    method ForCond(s: Statement)
      requires s.SFor? && s.condE.Some? && View().Valid() && (Jumps(s) ==> loops != [])
      modifies this
      ensures View() == LowerForCond(s, old(View()))
      decreases s, 1
    {
      hide Lower, LowerBlock, EmptyBlocks, Lowering.ForCondLoop;
      ghost var g := View();
      var cond := AppendBlock();
      var body := AppendBlock();
      var next := AppendBlock();
      AppendThrice(g);
      var end := AppendBlock();
      AppendOnce(g.Append(3));
      assert View() == g.Append(4);
      var _ := Statements(s.init);
      ForCondLoop(s, cond, body, next, end);
    }

    /** The loop of a `for` with a condition, once its blocks exist and its initializer is lowered. */
    method ForCondLoop(s: Statement, cond: nat, body: nat, next: nat, end: nat)
      requires s.SFor? && s.condE.Some? && View().Valid()
      requires body == cond + 1 && next == cond + 2 && end == cond + 3 && end < |blocks|
      requires cur < cond || cur > end
      modifies this
      ensures View() == Lowering.ForCondLoop(s, cond, old(View()))
      decreases s, 0
    {
      ghost var g1 := View();
      EnterBody(s, cond, body, next, end);
      var bodyReachable := Statements(s.body);
      if bodyReachable {
        Emit(Branch(next));
      }
      assert View() == EmitIf(bodyReachable, Branch(next), LowerAll(s.body, ForBody(s, cond, g1)));
      PopLoop();
      PositionAtEnd(next);
      NextBlock(s.next, cond);
      PositionAtEnd(end);
    }

    /** The condition, and the start of the body. */
    method EnterBody(s: Statement, cond: nat, body: nat, next: nat, end: nat)
      requires s.SFor? && s.condE.Some? && View().Valid()
      requires body == cond + 1 && next == cond + 2 && end == cond + 3 && end < |blocks|
      modifies this
      ensures View() == ForBody(s, cond, old(View()))
    {
      Emit(Branch(cond));
      PositionAtEnd(cond);
      Emit(CondBranch(s.condE.value, body, end));
      PositionAtEnd(body);
      PushLoop(end, next);
    }

    /** The block that ends an iteration. */
    method NextBlock(next: Option<Expr>, target: nat)
      requires View().Valid()
      modifies this`blocks
      ensures View() == FillNext(next, old(View()), target)
    {
      if next.Some? {
        Emit(Evaluate(next.value));
      }
      Emit(Branch(target));
    }

    method ForEver(s: Statement)
      requires s.SFor? && View().Valid() && (Jumps(s) ==> loops != [])
      modifies this
      ensures View() == LowerForEver(s, old(View()))
      decreases s, 1
    {
      hide Lower, LowerAll, LowerBlock, EmptyBlocks;
      ghost var g := View();
      var body := AppendBlock();
      var next := AppendBlock();
      var end := AppendBlock();
      AppendThrice(g);
      var _ := Statements(s.init);
      Emit(Branch(body));
      PositionAtEnd(body);
      PushLoop(end, if s.next.None? then body else next);
      assert View() == ForEverBody(s, g);
      ForEverLoop(s, g, body, next, end);
    }

    method ForEverLoop(s: Statement, ghost g: State, body: nat, next: nat, end: nat)
      requires s.SFor? && g.Valid() && (Jumps(s) ==> g.loops != []) && View() == ForEverBody(s, g)
      requires body == |g.blocks| && next == body + 1 && end == body + 2
      modifies this
      ensures View() == LowerForEver(s, g)
      decreases s, 0
    {
      hide Lower, LowerAll, LowerBlock, EmptyBlocks, ForEverBody;
      var bodyReachable := Statements(s.body);
      if bodyReachable {
        Emit(Branch(next));
      }
      PopLoop();
      if bodyReachable {
        PositionAtEnd(next);
        NextBlock(s.next, body);
      }
      PositionAtEnd(end);
    }
  }

  lemma AppendOnce(g: State)
    ensures g.Append(1).blocks == g.blocks + [[]]
    ensures forall n: nat :: g.Append(n).Append(1) == g.Append(n + 1)
  {
    assert EmptyBlocks(0) + [[]] == EmptyBlocks(1);
  }

  lemma AppendTwice(g: State)
    ensures g.Append(2).blocks == g.blocks + [[]] + [[]]
  {
    AppendOnce(g);
    assert g.Append(1).Append(1) == g.Append(2);
  }

  lemma AppendThrice(g: State)
    ensures g.Append(3).blocks == g.blocks + [[]] + [[]] + [[]]
  {
    AppendTwice(g);
    AppendOnce(g);
    assert g.Append(2).Append(1) == g.Append(3);
  }
}
