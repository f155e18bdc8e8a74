/**
  The analysis is sound for the big-step semantics: a statement flagged unreachable never
  completes normally, a statement that can break or continue has been counted, and a
  dropped `next` expression is one that no run would have evaluated.
*/
module Reachability {
  import opened Wrappers
  import opened Ast
  import opened Semantics
  import opened Analysis

  /** How a statement may end, going by what the resolver found out about it. */
  ghost predicate Allows(r: Resolution, o: Outcome) {
    && r.Resolved?
    && (o.Normal? ==> r.flag)
    && (o.Broke? ==> r.breaks > 0)
    && (o.Continued? ==> r.continues > 0)
  }

  /** Every run of every resolved statement ends in a way the analysis allows. */
  lemma {:induction false} Sound(s: Stmt, inLoop: bool, st: Store, fuel: nat)
    requires Resolve(s, inLoop).Resolved?
    ensures Allows(Resolve(s, inLoop), Exec(s, st, fuel))
    decreases fuel, 1, s
  {
    match s
    case Block(ss) => SoundSeq(ss, inLoop, true, false, st, fuel);
    case While(c, body) => SoundLoop(Some(c), None, Some(body), st, fuel);
    case DoWhile(body, c) => SoundDo(body, c, st, fuel);
    case If(c, thenS, elseS) =>
      if Eval(c, st).Value? {
        var st1 := Eval(c, st).store;
        Sound(thenS, inLoop, st1, fuel);
        if elseS.Some? { Sound(elseS.value, inLoop, st1, fuel); }
      }
    case For(initS, c, next, body) =>
      if initS.Some? { Sound(initS.value, inLoop, st, fuel); }
      var o := if initS.Some? then Exec(initS.value, st, fuel) else Normal(st);
      if o.Normal? { SoundLoop(c, next, body, o.st, fuel); }
    case _ =>
  }

  lemma {:induction false} SoundSeq(ss: seq<Stmt>, inLoop: bool, reachable: bool, already: bool, st: Store, fuel: nat)
    requires ResolveSeq(ss, inLoop, reachable, already).Resolved?
    ensures
      var o := ExecSeq(ss, st, fuel);
      var r := ResolveSeq(ss, inLoop, reachable, already);
      ss != [] || !o.Normal? ==> Allows(r, o)
    decreases fuel, 1, ss
  {
    if ss != [] {
      Sound(ss[0], inLoop, st, fuel);
      var o := Exec(ss[0], st, fuel);
      if o.Normal? {
        SoundSeq(ss[1..], inLoop, Resolve(ss[0], inLoop).flag, already || !reachable, o.st, fuel);
      }
    }
  }

  /** A loop ends normally or by a return or a trap; without a condition, normally only by a break. */
  lemma {:induction false} SoundLoop(c: Option<Expr>, next: Option<Expr>, body: Option<Stmt>, st: Store, fuel: nat)
    requires ResolveOpt(body, true).Resolved?
    ensures
      var o := ExecLoop(c, next, body, st, fuel);
      && !o.Broke? && !o.Continued?
      && (o.Normal? && c.None? ==> ResolveOpt(body, true).breaks > 0)
    decreases fuel, 0
  {
    if fuel > 0 {
      var e := if c.Some? then Eval(c.value, st) else Value(1, st);
      if e.Value? && Truth(e.v) {
        if body.Some? { Sound(body.value, true, e.store, fuel - 1); }
        var o := if body.Some? then Exec(body.value, e.store, fuel - 1) else Normal(e.store);
        if o.Normal? || o.Continued? {
          var n := if next.Some? then Eval(next.value, o.st) else Value(1, o.st);
          if n.Value? { SoundLoop(c, next, body, n.store, fuel - 1); }
        }
      }
    }
  }

  lemma {:induction false} SoundDo(body: Stmt, c: Expr, st: Store, fuel: nat)
    requires Resolve(body, true).Resolved?
    ensures !ExecDo(body, c, st, fuel).Broke? && !ExecDo(body, c, st, fuel).Continued?
    decreases fuel, 0
  {
    if fuel > 0 {
      Sound(body, true, st, fuel - 1);
      var o := Exec(body, st, fuel - 1);
      if (o.Normal? || o.Continued?) && Eval(c, o.st).Value? {
        SoundDo(body, c, Eval(c, o.st).store, fuel - 1);
      }
    }
  }

  /** When the resolver drops the `next` of a loop, no iteration ever gets as far as evaluating it. */
  lemma DroppedNextNeverRuns(initS: Option<Stmt>, c: Option<Expr>, next: Option<Expr>, body: Option<Stmt>, inLoop: bool)
    requires var r := Resolve(For(initS, c, next, body), inLoop); r.Resolved? && r.out[0].next != next
    ensures body.Some?
    ensures forall st, fuel ::
              var o := Exec(body.value, st, fuel); !o.Normal? && !o.Continued?
  {
    forall st, fuel
      ensures var o := Exec(body.value, st, fuel); !o.Normal? && !o.Continued?
    {
      Sound(body.value, true, st, fuel);
    }
  }

  /** Hence the loop with the kept expression runs exactly as the loop that was written. */
  lemma {:induction false} DroppingNextIsHarmless(
      initS: Option<Stmt>, c: Option<Expr>, next: Option<Expr>, body: Option<Stmt>, inLoop: bool, st: Store, fuel: nat)
    requires Resolve(For(initS, c, next, body), inLoop).Resolved?
    ensures
      var kept := Resolve(For(initS, c, next, body), inLoop).out[0].next;
      ExecLoop(c, next, body, st, fuel) == ExecLoop(c, kept, body, st, fuel)
  {
    var kept := Resolve(For(initS, c, next, body), inLoop).out[0].next;
    if kept != next {
      DroppedNextNeverRuns(initS, c, next, body, inLoop);
    }
  }

  /** In an accepted program the returned flag is the `Reachable` of the one statement pushed. */
  lemma {:induction false} FlagIsReachable(s: Stmt, inLoop: bool)
    requires Resolve(s, inLoop).Accepted()
    ensures
      var r := Resolve(s, inLoop);
      |r.out| == 1 && r.out[0].Reachable() == r.flag
  {
    match s
    case Block(ss) => FlagIsReachableSeq(ss, inLoop, true, false);
    case _ =>
  }

  lemma {:induction false} FlagIsReachableSeq(ss: seq<Stmt>, inLoop: bool, reachable: bool, already: bool)
    requires ResolveSeq(ss, inLoop, reachable, already).Accepted()
    requires already ==> ss == []
    ensures
      var r := ResolveSeq(ss, inLoop, reachable, already);
      && |r.out| == |ss|
      && (ss != [] ==> reachable)
      && (reachable ==> (r.flag <==> forall i :: 0 <= i < |r.out| ==> r.out[i].Reachable()))
      && (forall i :: 0 <= i < |r.out| - 1 ==> r.out[i].Reachable())
  {
    if ss != [] {
      var r := ResolveSeq(ss, inLoop, reachable, already);
      var first := Resolve(ss[0], inLoop);
      var rest := ResolveSeq(ss[1..], inLoop, first.flag, already || !reachable);
      FlagIsReachable(ss[0], inLoop);
      FlagIsReachableSeq(ss[1..], inLoop, first.flag, already || !reachable);
      assert r.out == first.out + rest.out;
      forall i | 1 <= i < |r.out|
        ensures r.out[i] == rest.out[i - 1]
      {}
      if rest.flag && first.flag {
        forall i | 0 <= i < |r.out| ensures r.out[i].Reachable() {
          if i > 0 { assert r.out[i] == rest.out[i - 1]; }
        }
      }
      forall i | 0 <= i < |r.out| - 1 ensures r.out[i].Reachable() {
        if i > 0 { assert r.out[i] == rest.out[i - 1]; }
      }
      if forall i :: 0 <= i < |r.out| ==> r.out[i].Reachable() {
        assert r.out[0].Reachable();
        forall i | 0 <= i < |rest.out| ensures rest.out[i].Reachable() {
          assert rest.out[i] == r.out[i + 1];
        }
      }
    }
  }

  /** A program that is rejected for an unreachable statement shows why acceptance is needed. */
  lemma FlagOfRejectedProgramCanDiffer()
    ensures
      var r := Resolve(Block([Break, Expression(NumberLiteral(0))]), true);
      r.Resolved? && r.errors == 1 && r.flag && !r.out[0].Reachable()
  {
    var last: Stmt := Expression(NumberLiteral(0));
    assert ResolveSeq([], true, true, true) == Resolved([], true, 0, 0, 0);
    assert [last][1..] == [];
    assert ResolveSeq([last], true, false, false) ==
           Resolved([SExpression(true, NumberLiteral(0))] + [], true, 0, 0, 1);
    assert [Break, last][1..] == [last];
    assert Resolve(Break, true) == Resolved([SBreak], false, 1, 0, 0);
    var all := ResolveSeq([Break, last], true, true, false);
    assert all.out[0] == SBreak;
    assert Resolve(Block([Break, last]), true).out[0] == SBlock(all.out);
  }

  /** A finished run does not depend on how much fuel it was given. */
  lemma {:induction false} MoreFuel(s: Stmt, st: Store, fuel: nat, more: nat)
    requires fuel <= more
    ensures Exec(s, st, fuel).OutOfFuel? || Exec(s, st, more) == Exec(s, st, fuel)
    decreases fuel, 1, s
  {
    match s
    case Block(ss) => MoreFuelSeq(ss, st, fuel, more);
    case While(c, body) => MoreFuelLoop(Some(c), None, Some(body), st, fuel, more);
    case DoWhile(body, c) => MoreFuelDo(body, c, st, fuel, more);
    case If(c, thenS, elseS) =>
      if Eval(c, st).Value? {
        MoreFuel(thenS, Eval(c, st).store, fuel, more);
        if elseS.Some? { MoreFuel(elseS.value, Eval(c, st).store, fuel, more); }
      }
    case For(initS, c, next, body) =>
      if initS.Some? { MoreFuel(initS.value, st, fuel, more); }
      var o := if initS.Some? then Exec(initS.value, st, fuel) else Normal(st);
      if o.Normal? { MoreFuelLoop(c, next, body, o.st, fuel, more); }
    case _ =>
  }

  lemma {:induction false} MoreFuelSeq(ss: seq<Stmt>, st: Store, fuel: nat, more: nat)
    requires fuel <= more
    ensures ExecSeq(ss, st, fuel).OutOfFuel? || ExecSeq(ss, st, more) == ExecSeq(ss, st, fuel)
    decreases fuel, 1, ss
  {
    if ss != [] {
      MoreFuel(ss[0], st, fuel, more);
      var o := Exec(ss[0], st, fuel);
      if o.Normal? { MoreFuelSeq(ss[1..], o.st, fuel, more); }
    }
  }

  lemma {:induction false} MoreFuelLoop(
      c: Option<Expr>, next: Option<Expr>, body: Option<Stmt>, st: Store, fuel: nat, more: nat)
    requires fuel <= more
    ensures
      var o := ExecLoop(c, next, body, st, fuel);
      o.OutOfFuel? || ExecLoop(c, next, body, st, more) == o
    decreases fuel, 0
  {
    if fuel > 0 {
      var e := if c.Some? then Eval(c.value, st) else Value(1, st);
      if e.Value? && Truth(e.v) {
        if body.Some? { MoreFuel(body.value, e.store, fuel - 1, more - 1); }
        var o := if body.Some? then Exec(body.value, e.store, fuel - 1) else Normal(e.store);
        if o.Normal? || o.Continued? {
          var n := if next.Some? then Eval(next.value, o.st) else Value(1, o.st);
          if n.Value? { MoreFuelLoop(c, next, body, n.store, fuel - 1, more - 1); }
        }
      }
    }
  }

  lemma {:induction false} MoreFuelDo(body: Stmt, c: Expr, st: Store, fuel: nat, more: nat)
    requires fuel <= more
    ensures
      var o := ExecDo(body, c, st, fuel);
      o.OutOfFuel? || ExecDo(body, c, st, more) == o
    decreases fuel, 0
  {
    hide Exec, ExecDoCond;
    if fuel > 0 {
      MoreFuel(body, st, fuel - 1, more - 1);
      var o := Exec(body, st, fuel - 1);
      if o.Normal? || o.Continued? { MoreFuelDoCond(body, c, o.st, fuel - 1, more - 1); }
    }
  }

  lemma {:induction false} MoreFuelDoCond(body: Stmt, c: Expr, st: Store, fuel: nat, more: nat)
    requires fuel <= more
    ensures
      var o := ExecDoCond(body, c, st, fuel);
      o.OutOfFuel? || ExecDoCond(body, c, st, more) == o
    decreases fuel, 1
  {
    hide ExecDo, Eval;
    if Eval(c, st).Value? { MoreFuelDo(body, c, Eval(c, st).store, fuel, more); }
  }
}
