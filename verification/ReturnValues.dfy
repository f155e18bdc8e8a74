/**
  A `return` without a value is accepted in every function and lowered to a return without a
  value, also where the function has a named result that it should return.  `OmitsValue` finds
  these statements; without them every run that returns, returns a value.
*/
module ReturnValues {
  import opened Wrappers
  import opened Ast
  import opened Semantics
  import opened Analysis

  predicate OmitsValue(s: Statement) {
    match s
    case SReturn(v) => v.None?
    case SBlock(ss) => AnyOmitsValue(ss)
    case SIf(_, _, t, e) => AnyOmitsValue(t) || AnyOmitsValue(e)
    case SWhile(_, _, body) => AnyOmitsValue(body)
    case SDoWhile(_, body, _) => AnyOmitsValue(body)
    case SFor(_, init, _, _, body) => AnyOmitsValue(init) || AnyOmitsValue(body)
    case _ => false
  }

  predicate AnyOmitsValue(ss: seq<Statement>) {
    ss != [] && (OmitsValue(ss[0]) || AnyOmitsValue(ss[1..]))
  }

  predicate NoBareReturn(o: Outcome) { o.Returned? ==> o.v.Some? }

  lemma {:induction false} ReturnsHaveValues(s: Stmt, inLoop: bool, st: Store, fuel: nat)
    requires Resolve(s, inLoop).Resolved? && !OmitsValue(Resolve(s, inLoop).out[0])
    ensures NoBareReturn(Exec(s, st, fuel))
    decreases fuel, 1, s
  {
    match s
    case Block(ss) => SeqReturnsHaveValues(ss, inLoop, true, false, st, fuel);
    case While(c, body) => LoopReturnsHaveValues(Some(c), None, Some(body), st, fuel);
    case DoWhile(body, c) => DoReturnsHaveValues(body, c, st, fuel);
    case If(c, thenS, elseS) =>
      if Eval(c, st).Value? {
        var st1 := Eval(c, st).store;
        ReturnsHaveValues(thenS, inLoop, st1, fuel);
        if elseS.Some? { ReturnsHaveValues(elseS.value, inLoop, st1, fuel); }
      }
    case For(initS, c, next, body) =>
      if initS.Some? { ReturnsHaveValues(initS.value, inLoop, st, fuel); }
      var o := if initS.Some? then Exec(initS.value, st, fuel) else Normal(st);
      if o.Normal? { LoopReturnsHaveValues(c, next, body, o.st, fuel); }
    case _ =>
  }

  lemma {:induction false} SeqReturnsHaveValues(ss: seq<Stmt>, inLoop: bool, reachable: bool, already: bool,
                                                st: Store, fuel: nat)
    requires
      var r := ResolveSeq(ss, inLoop, reachable, already);
      r.Resolved? && !AnyOmitsValue(r.out)
    ensures NoBareReturn(ExecSeq(ss, st, fuel))
    decreases fuel, 1, ss
  {
    if ss != [] {
      var first := Resolve(ss[0], inLoop);
      var rest := ResolveSeq(ss[1..], inLoop, first.flag, already || !reachable);
      var out := first.out + rest.out;
      assert out[0] == first.out[0] && out[1..] == rest.out;
      ReturnsHaveValues(ss[0], inLoop, st, fuel);
      var o := Exec(ss[0], st, fuel);
      if o.Normal? {
        SeqReturnsHaveValues(ss[1..], inLoop, first.flag, already || !reachable, o.st, fuel);
      }
    }
  }

  lemma {:induction false} LoopReturnsHaveValues(c: Option<Expr>, next: Option<Expr>, body: Option<Stmt>,
                                                 st: Store, fuel: nat)
    requires ResolveOpt(body, true).Resolved? && !AnyOmitsValue(ResolveOpt(body, true).out)
    ensures NoBareReturn(ExecLoop(c, next, body, st, fuel))
    decreases fuel, 0
  {
    if fuel > 0 {
      var e := if c.Some? then Eval(c.value, st) else Value(1, st);
      if e.Value? && Truth(e.v) {
        if body.Some? { ReturnsHaveValues(body.value, true, e.store, fuel - 1); }
        var o := if body.Some? then Exec(body.value, e.store, fuel - 1) else Normal(e.store);
        if o.Normal? || o.Continued? {
          var n := if next.Some? then Eval(next.value, o.st) else Value(1, o.st);
          if n.Value? { LoopReturnsHaveValues(c, next, body, n.store, fuel - 1); }
        }
      }
    }
  }

  lemma {:induction false} DoReturnsHaveValues(body: Stmt, c: Expr, st: Store, fuel: nat)
    requires Resolve(body, true).Resolved? && !AnyOmitsValue(Resolve(body, true).out)
    ensures NoBareReturn(ExecDo(body, c, st, fuel))
    decreases fuel, 0
  {
    if fuel > 0 {
      ReturnsHaveValues(body, true, st, fuel - 1);
      var o := Exec(body, st, fuel - 1);
      if o.Normal? || o.Continued? { DoCondReturnsHaveValues(body, c, o.st, fuel - 1); }
    }
  }

  lemma {:induction false} DoCondReturnsHaveValues(body: Stmt, c: Expr, st: Store, fuel: nat)
    requires Resolve(body, true).Resolved? && !AnyOmitsValue(Resolve(body, true).out)
    ensures NoBareReturn(ExecDoCond(body, c, st, fuel))
    decreases fuel, 1
  {
    if Eval(c, st).Value? { DoReturnsHaveValues(body, c, Eval(c, st).store, fuel); }
  }
}
