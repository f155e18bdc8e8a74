/**
  The resolver as the compiler runs it: it walks the parsed tree, pushes resolved statements,
  and keeps a stack with one break and one continue counter for every open loop.  It is proved
  to compute the attributes that `Analysis` defines.
*/
module Resolver {
  import opened Wrappers
  import opened Ast
  import opened Analysis

  datatype LoopScope = LoopScope(noBreaks: nat, noContinues: nat)

  datatype Result = Ok(reachable: bool) | Err

  datatype Diagnostic = UnreachableStatement | BreakNotInLoop | ContinueNotInLoop | UnexpectedArguments

  /** The error at the first statement, in the order of the text, that cannot stand where it does. */
  function FirstStray(s: Stmt, inLoop: bool): Option<Diagnostic> {
    match s
    case Break => if inLoop then None else Some(BreakNotInLoop)
    case Continue => if inLoop then None else Some(ContinueNotInLoop)
    case Args => Some(UnexpectedArguments)
    case Block(ss) => FirstStraySeq(ss, inLoop)
    case While(_, body) => FirstStray(body, true)
    case DoWhile(body, _) => FirstStray(body, true)
    case If(_, thenS, elseS) =>
      var first := FirstStray(thenS, inLoop);
      if first.Some? then first else FirstStrayOpt(elseS, inLoop)
    case For(initS, _, _, body) =>
      var first := FirstStrayOpt(initS, inLoop);
      if first.Some? then first else FirstStrayOpt(body, true)
    case _ => None
  }

  function FirstStrayOpt(s: Option<Stmt>, inLoop: bool): Option<Diagnostic> {
    if s.Some? then FirstStray(s.value, inLoop) else None
  }

  function FirstStraySeq(ss: seq<Stmt>, inLoop: bool): Option<Diagnostic> {
    if ss == [] then None
    else
      var first := FirstStray(ss[0], inLoop);
      if first.Some? then first else FirstStraySeq(ss[1..], inLoop)
  }

  /**
    What is reported: where resolving succeeds one "unreachable statement" for every error
    counted, and where it fails the first stray statement at the end.
  */
  ghost predicate Reports(expected: Resolution, stray: Option<Diagnostic>,
                          before: seq<Diagnostic>, after: seq<Diagnostic>)
  {
    && before <= after
    && if expected.Resolved? then stray == None && OnlyUnreachable(before, after, expected.errors)
       else |after| > |before| && stray == Some(after[|after| - 1])
  }

  ghost predicate OnlyUnreachable(before: seq<Diagnostic>, after: seq<Diagnostic>, errors: nat) {
    && before <= after && |after| == |before| + errors
    && forall i :: |before| <= i < |after| ==> after[i] == UnreachableStatement
  }

  /** The loop stack after counting `nb` breaks and `nc` continues against its top. */
  function Bump(loops: seq<LoopScope>, nb: nat, nc: nat): (r: seq<LoopScope>)
    requires loops == [] ==> nb == 0 && nc == 0
    ensures |r| == |loops|
    ensures nb == 0 && nc == 0 ==> r == loops
  {
    if nb == 0 && nc == 0 then loops
    else
      var top := loops[|loops| - 1];
      loops[..|loops| - 1] + [LoopScope(top.noBreaks + nb, top.noContinues + nc)]
  }

  lemma BumpTwice(loops: seq<LoopScope>, nb: nat, nc: nat, nb': nat, nc': nat)
    requires loops == [] ==> nb == nc == nb' == nc' == 0
    ensures Bump(Bump(loops, nb, nc), nb', nc') == Bump(loops, nb + nb', nc + nc')
  {}

  /** Counting happens at the top of the stack only. */
  lemma BumpTop(loops: seq<LoopScope>, nb: nat, nc: nat)
    ensures Bump(loops + [LoopScope(0, 0)], nb, nc) == loops + [LoopScope(nb, nc)]
    ensures (loops + [LoopScope(nb, nc)])[..|loops|] == loops
  {
    assert (loops + [LoopScope(0, 0)])[..|loops|] == loops;
  }

  /** Resolving the whole list is resolving a first part and then the rest. */
  ghost predicate Splits(whole: Resolution, out: seq<Statement>, nb: nat, nc: nat, errs: nat, rest: Resolution) {
    match rest
    case Rejected => whole == Rejected
    case Resolved(out', flag, nb', nc', errs') =>
      whole == Resolved(out + out', flag, nb + nb', nc + nc', errs + errs')
  }

  lemma SplitsAll(whole: Resolution)
    ensures Splits(whole, [], 0, 0, 0, whole)
  {
    if whole.Resolved? { assert [] + whole.out == whole.out; }
  }

  lemma SplitsNone(
    whole: Resolution, out: seq<Statement>, nb: nat, nc: nat, errs: nat, inLoop: bool, flag: bool, already: bool)
    requires Splits(whole, out, nb, nc, errs, ResolveSeq([], inLoop, flag, already))
    ensures whole == Resolved(out, flag, nb, nc, errs)
  {
    assert out + [] == out;
  }

  lemma SplitsStep(whole: Resolution, ss: seq<Stmt>, inLoop: bool, reachable: bool, already: bool,
                   out: seq<Statement>, nb: nat, nc: nat, errs: nat)
    requires ss != []
    requires Splits(whole, out, nb, nc, errs, ResolveSeq(ss, inLoop, reachable, already))
    ensures
      var report := !reachable && !already;
      match Resolve(ss[0], inLoop)
      case Rejected => whole == Rejected
      case Resolved(o, flag, b, c, e) =>
        Splits(whole, out + o, nb + b, nc + c, errs + (if report then 1 else 0) + e,
               ResolveSeq(ss[1..], inLoop, flag, already || report))
  {
    hide Resolve;
    match Resolve(ss[0], inLoop)
    case Rejected =>
    case Resolved(o, flag, b, c, e) =>
      match ResolveSeq(ss[1..], inLoop, flag, already || !reachable)
      case Rejected =>
      case Resolved(os, _, _, _, _) => assert out + (o + os) == (out + o) + os;
  }

  class LoopScopes {
    var scopes: seq<LoopScope>

    constructor ()
      ensures scopes == []
    {
      scopes := [];
    }

    method NewScope()
      modifies this
      ensures scopes == old(scopes) + [LoopScope(0, 0)]
    {
      scopes := scopes + [LoopScope(0, 0)];
    }

    method LeaveScope() returns (top: LoopScope)
      requires scopes != []
      modifies this
      ensures top == old(scopes)[|old(scopes)| - 1]
      ensures scopes == old(scopes)[..|old(scopes)| - 1]
    {
      top := scopes[|scopes| - 1];
      scopes := scopes[..|scopes| - 1];
    }

    method DoBreak() returns (ok: bool)
      modifies this
      ensures ok == (old(scopes) != [])
      ensures scopes == if ok then Bump(old(scopes), 1, 0) else old(scopes)
    {
      ok := scopes != [];
      if ok {
        var top := scopes[|scopes| - 1];
        scopes := scopes[|scopes| - 1 := top.(noBreaks := top.noBreaks + 1)];
      }
    }

    method DoContinue() returns (ok: bool)
      modifies this
      ensures ok == (old(scopes) != [])
      ensures scopes == if ok then Bump(old(scopes), 0, 1) else old(scopes)
    {
      ok := scopes != [];
      if ok {
        var top := scopes[|scopes| - 1];
        scopes := scopes[|scopes| - 1 := top.(noContinues := top.noContinues + 1)];
      }
    }
  }

  /** What one call of the resolver did, compared with what `Resolve` says of the tree. */
  ghost predicate Agrees(expected: Resolution, result: Result, pushed: seq<Statement>,
                         before: seq<LoopScope>, after: seq<LoopScope>)
  {
    match expected
    case Rejected => result == Err
    case Resolved(out, flag, nb, nc, _) =>
      && result == Ok(flag)
      && pushed == out
      && (before == [] ==> nb == 0 && nc == 0)
      && after == Bump(before, nb, nc)
  }

  class StatementResolver {
    const loops: LoopScopes
    var diagnostics: seq<Diagnostic>

    constructor ()
      ensures fresh(loops) && loops.scopes == [] && diagnostics == []
    {
      loops := new LoopScopes();
      diagnostics := [];
    }

    /** Resolves one statement, pushing what it produces onto `res`. */
    method Statement(s: Stmt, res: seq<Statement>) returns (result: Result, res': seq<Statement>)
      modifies this, loops
      ensures res <= res'
      ensures Agrees(Resolve(s, old(loops.scopes) != []), result, res'[|res|..],
                     old(loops.scopes), loops.scopes)
      ensures Reports(Resolve(s, old(loops.scopes) != []), FirstStray(s, old(loops.scopes) != []),
                      old(diagnostics), diagnostics)
      decreases s, 1
    {
      res' := res;
      match s
      case VariableDefinition(no, init) =>
        res' := res + [SVariableDecl(no, init)];
        return Ok(true), res';
      case Block(statements) =>
        var flag, resolved := Statements(s, statements);
        if flag.Err? { return Err, res'; }
        res' := res + [SBlock(resolved)];
        return flag, res';
      case Break =>
        var ok := loops.DoBreak();
        if ok {
          res' := res + [SBreak];
          return Ok(false), res';
        }
        diagnostics := diagnostics + [BreakNotInLoop];
        return Err, res';
      case Continue =>
        var ok := loops.DoContinue();
        if ok {
          res' := res + [SContinue];
          return Ok(false), res';
        }
        diagnostics := diagnostics + [ContinueNotInLoop];
        return Err, res';
      case While(c, body) =>
        var flag, bodyStmts, _ := LoopBody(body);
        if flag.Err? { return Err, res'; }
        res' := res + [SWhile(true, c, bodyStmts)];
        return Ok(true), res';
      case DoWhile(body, c) =>
        var flag, bodyStmts, _ := LoopBody(body);
        if flag.Err? { return Err, res'; }
        res' := res + [SDoWhile(true, bodyStmts, c)];
        return Ok(true), res';
      case If(_, _, _) =>
        result, res' := IfStatement(s, res);
      case For(_, _, _, _) =>
        result, res' := ForStatement(s, res);
      case Return(v) =>
        res' := res + [SReturn(v)];
        return Ok(false), res';
      case Expression(e) =>
        res' := res + [SExpression(true, e)];
        return Ok(true), res';
      case Args =>
        diagnostics := diagnostics + [UnexpectedArguments];
        return Err, res';
    }

    /** A loop body is resolved in a counter scope of its own. */
    method LoopBody(body: Stmt) returns (result: Result, bodyStmts: seq<Statement>, control: LoopScope)
      modifies this, loops
      ensures
        var b := Resolve(body, true);
        if b.Rejected? then result == Err
        else
          && result == Ok(b.flag) && bodyStmts == b.out && control == LoopScope(b.breaks, b.continues)
          && loops.scopes == old(loops.scopes)
      ensures Reports(Resolve(body, true), FirstStray(body, true), old(diagnostics), diagnostics)
      decreases body, 2
    {
      loops.NewScope();
      control := LoopScope(0, 0);
      result, bodyStmts := Statement(body, []);
      if result.Ok? {
        ghost var b := Resolve(body, true);
        BumpTop(old(loops.scopes), b.breaks, b.continues);
        control := loops.LeaveScope();
      }
    }

    method IfStatement(s: Stmt, res: seq<Statement>) returns (result: Result, res': seq<Statement>)
      requires s.If?
      modifies this, loops
      ensures res <= res'
      ensures Agrees(Resolve(s, old(loops.scopes) != []), result, res'[|res|..],
                     old(loops.scopes), loops.scopes)
      ensures Reports(Resolve(s, old(loops.scopes) != []), FirstStray(s, old(loops.scopes) != []),
                      old(diagnostics), diagnostics)
      decreases s, 0
    {
      res' := res;
      ghost var inLoop := loops.scopes != [];
      ghost var t, e := Resolve(s.thenS, inLoop), ResolveOpt(s.elseS, inLoop);
      var thenFlag, thenStmts := Statement(s.thenS, []);
      if thenFlag.Err? { return Err, res'; }
      var reachable := thenFlag.reachable;
      var elseStmts := [];
      if s.elseS.Some? {
        var elseFlag;
        elseFlag, elseStmts := Statement(s.elseS.value, []);
        if elseFlag.Err? { return Err, res'; }
        reachable := reachable || elseFlag.reachable;
      } else {
        reachable := true;
      }
      BumpTwice(old(loops.scopes), t.breaks, t.continues, e.breaks, e.continues);
      res' := res + [SIf(reachable, s.cond, thenStmts, elseStmts)];
      return Ok(reachable), res';
    }

    /** Both forms of `for`; without a condition the loop ends only by a break. */
    method ForStatement(s: Stmt, res: seq<Statement>) returns (result: Result, res': seq<Statement>)
      requires s.For?
      modifies this, loops
      ensures res <= res'
      ensures Agrees(Resolve(s, old(loops.scopes) != []), result, res'[|res|..],
                     old(loops.scopes), loops.scopes)
      ensures Reports(Resolve(s, old(loops.scopes) != []), FirstStray(s, old(loops.scopes) != []),
                      old(diagnostics), diagnostics)
      decreases s, 0
    {
      res' := res;
      var init, body := [], [];
      if s.initS.Some? {
        var flag;
        flag, init := Statement(s.initS.value, init);
        if flag.Err? { return Err, res'; }
      }
      ghost var i, b := ResolveOpt(s.initS, old(loops.scopes) != []), ResolveOpt(s.bodyS, true);
      assert i.Resolved? && init == i.out && loops.scopes == Bump(old(loops.scopes), i.breaks, i.continues);
      var bodyReachable, control := true, LoopScope(0, 0);
      if s.bodyS.Some? {
        var flag;
        flag, body, control := LoopBody(s.bodyS.value);
        if flag.Err? { return Err, res'; }
        bodyReachable := flag.reachable;
      }
      assert b.Resolved? && body == b.out && control == LoopScope(b.breaks, b.continues);
      var next := None;
      var reachable;
      if s.condE.None? {
        reachable := control.noBreaks > 0;
        next := s.next;
      } else {
        reachable := true;
        if control.noContinues > 0 {
          bodyReachable := true;
        }
        if bodyReachable {
          next := s.next;
        }
      }
      res' := res + [SFor(reachable, init, s.condE, next, body)];
      return Ok(reachable), res';
    }

    /** The statements of a block, with the error reported once at the first unreachable one. */
    method Statements(ghost block: Stmt, statements: seq<Stmt>) returns (result: Result, resolved: seq<Statement>)
      requires block.Block? && statements == block.stmts
      modifies this, loops
      ensures Agrees(ResolveSeq(statements, old(loops.scopes) != [], true, false), result, resolved,
                     old(loops.scopes), loops.scopes)
      ensures Reports(ResolveSeq(statements, old(loops.scopes) != [], true, false),
                      FirstStraySeq(statements, old(loops.scopes) != []), old(diagnostics), diagnostics)
      decreases block, 0
    {
      hide Resolve, ResolveSeq, Bump, Splits, FirstStray;
      var reachable, alreadyUnreachable := true, false;
      resolved := [];
      ghost var inLoop, whole := loops.scopes != [], ResolveSeq(statements, loops.scopes != [], true, false);
      ghost var nb: nat, nc: nat, errs: nat := 0, 0, 0;
      assert statements[0..] == statements;
      SplitsAll(whole);
      var i := 0;
      while i < |statements|
        invariant 0 <= i <= |statements|
        invariant inLoop || (nb == 0 && nc == 0)
        invariant loops.scopes == Bump(old(loops.scopes), nb, nc)
        invariant OnlyUnreachable(old(diagnostics), diagnostics, errs)
        invariant FirstStraySeq(statements[i..], inLoop) == FirstStraySeq(statements, inLoop)
        invariant Splits(whole, resolved, nb, nc, errs,
                         ResolveSeq(statements[i..], inLoop, reachable, alreadyUnreachable))
      {
        var stmt := statements[i];
        assert statements[i..][0] == stmt && statements[i..][1..] == statements[i + 1..];
        SplitsStep(whole, statements[i..], inLoop, reachable, alreadyUnreachable, resolved, nb, nc, errs);
        if !reachable && !alreadyUnreachable {
          diagnostics := diagnostics + [UnreachableStatement];
          alreadyUnreachable := true;
          errs := errs + 1;
        }
        var flag;
        ghost var done := resolved;
        flag, resolved := Statement(stmt, resolved);
        if flag.Err? { return Err, resolved; }
        reachable := flag.reachable;
        ghost var r := Resolve(stmt, inLoop);
        assert resolved == done + r.out;
        BumpTwice(old(loops.scopes), nb, nc, r.breaks, r.continues);
        nb, nc, errs := nb + r.breaks, nc + r.continues, errs + r.errors;
        i := i + 1;
      }
      assert statements[|statements|..] == [];
      SplitsNone(whole, resolved, nb, nc, errs, inLoop, reachable, alreadyUnreachable);
      return Ok(reachable), resolved;
    }
  }
}
