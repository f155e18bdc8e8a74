/**
  Semantic analysis of statements, stated without the stack the compiler keeps: what is
  resolved, whether control can reach the next statement, and how many breaks and continues
  belong to the loop around the statement.
*/
module Analysis {
  import opened Wrappers
  import opened Ast

  /**
    `Rejected` is the error return.  Otherwise: the statements pushed, the returned flag,
    how many breaks and continues were counted against the innermost enclosing loop, and
    how many "unreachable statement" errors were reported on the way.
  */
  datatype Resolution =
    | Rejected
    | Resolved(out: seq<Statement>, flag: bool, breaks: nat, continues: nat, errors: nat)
  {
    predicate Accepted() { Resolved? && errors == 0 }
  }

  /** Nothing to resolve: an absent body, initializer or else branch. */
  const Nothing := Resolved([], true, 0, 0, 0)

  function ResolveOpt(s: Option<Stmt>, inLoop: bool): Resolution {
    if s.Some? then Resolve(s.value, inLoop) else Nothing
  }

  function Resolve(s: Stmt, inLoop: bool): (r: Resolution)
    ensures r.Resolved? ==> |r.out| == 1
  {
    match s
    case VariableDefinition(no, init) => Resolved([SVariableDecl(no, init)], true, 0, 0, 0)
    case Block(ss) =>
      (match ResolveSeq(ss, inLoop, true, false)
       case Rejected => Rejected
       case Resolved(out, flag, nb, nc, errs) => Resolved([SBlock(out)], flag, nb, nc, errs))
    case Break => if inLoop then Resolved([SBreak], false, 1, 0, 0) else Rejected
    case Continue => if inLoop then Resolved([SContinue], false, 0, 1, 0) else Rejected
    case While(c, body) =>
      (match Resolve(body, true)
       case Rejected => Rejected
       case Resolved(out, _, _, _, errs) => Resolved([SWhile(true, c, out)], true, 0, 0, errs))
    case DoWhile(body, c) =>
      (match Resolve(body, true)
       case Rejected => Rejected
       case Resolved(out, _, _, _, errs) => Resolved([SDoWhile(true, out, c)], true, 0, 0, errs))
    case If(c, thenS, elseS) =>
      (match Resolve(thenS, inLoop)
       case Rejected => Rejected
       case Resolved(tOut, tFlag, tb, tc, te) =>
         match ResolveOpt(elseS, inLoop)
         case Rejected => Rejected
         case Resolved(eOut, eFlag, eb, ec, ee) =>
           var flag := tFlag || eFlag;
           Resolved([SIf(flag, c, tOut, eOut)], flag, tb + eb, tc + ec, te + ee))
    case For(initS, c, next, body) =>
      (match ResolveOpt(initS, inLoop)
       case Rejected => Rejected
       case Resolved(iOut, _, ib, ic, ie) =>
         match ResolveOpt(body, true)
         case Rejected => Rejected
         case Resolved(bOut, bFlag, bb, bc, be) =>
           var kept := if c.None? || bFlag || bc > 0 then next else None;
           var flag := c.Some? || bb > 0;
           Resolved([SFor(flag, iOut, c, kept, bOut)], flag, ib, ic, ie + be))
    case Return(v) => Resolved([SReturn(v)], false, 0, 0, 0)
    case Expression(e) => Resolved([SExpression(true, e)], true, 0, 0, 0)
    case Args => Rejected
  }

  /** The statements of a block, given the flag of the one before and whether the error was reported. */
  function ResolveSeq(ss: seq<Stmt>, inLoop: bool, reachable: bool, already: bool): (r: Resolution)
    ensures r.Resolved? ==> |r.out| == |ss|
  {
    if ss == [] then Resolved([], reachable, 0, 0, 0)
    else
      var report := !reachable && !already;
      match Resolve(ss[0], inLoop)
      case Rejected => Rejected
      case Resolved(out, flag, nb, nc, errs) =>
        match ResolveSeq(ss[1..], inLoop, flag, already || report)
        case Rejected => Rejected
        case Resolved(outs, last, nbs, ncs, errss) =>
          Resolved(out + outs, last, nb + nbs, nc + ncs, (if report then 1 else 0) + errs + errss)
  }
}
