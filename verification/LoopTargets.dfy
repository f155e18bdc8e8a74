/**
  When is every break and continue lowered to a branch to its own loop, and every `next`
  block that a continue goes to filled in?  Exactly when the tree is `Faithful`.
*/
module LoopTargets {
  import opened Wrappers
  import opened Ast
  import opened Semantics
  import opened Analysis
  import opened Machine
  import opened Lowering
  import opened Simulation
  import opened Compiler
  import opened Blocks

  /** The jumps of s go to (brk, cont), those of the loops inside it to the blocks of those loops. */
  ghost predicate AsMeant(s: Statement, g: State, brk: nat, cont: nat)
    requires g.Valid() && (Jumps(s) ==> g.loops != [])
    decreases s, 1
  {
    var n := |g.blocks|;
    match s
    case SBreak => g.loops[|g.loops| - 1].0 == brk
    case SContinue => g.loops[|g.loops| - 1].1 == cont
    case SBlock(ss) => AsMeantBlock(ss, g, brk, cont)
    case SIf(_, _, t, e) =>
      && AsMeantAll(t, ThenEntry(s, n + 1, g), brk, cont)
      && AsMeantAll(e, ElseEntry(s, g).0, brk, cont)
    case SWhile(_, _, body) => AsMeantAll(body, WhileBody(s, g), n + 2, n + 1)
    case SDoWhile(_, body, _) => AsMeantAll(body, DoWhileBody(s, g), n + 2, n + 1)
    case SFor(_, init, c, next, body) =>
      if c.Some? then
        && AsMeantAll(init, g.Append(4), brk, cont)
        && AsMeantAll(body, ForBody(s, n, LowerAll(init, g.Append(4))), n + 3, n + 2)
      else
        && AsMeantAll(init, g.Append(3), brk, cont)
        && AsMeantAll(body, ForEverBody(s, g), n + 2, if next.None? then n else n + 1)
        && (next.Some? && ContinuesAny(body) ==> LowerForEver(s, g).blocks[n + 1] != [])
    case _ => true
  }

  ghost predicate AsMeantBlock(ss: seq<Statement>, g: State, brk: nat, cont: nat)
    requires g.Valid() && (JumpsAny(ss) ==> g.loops != [])
    decreases ss, 0
  {
    ss == [] ||
    (AsMeant(ss[0], g, brk, cont) && (ss[0].Reachable() ==> AsMeantBlock(ss[1..], Lower(ss[0], g), brk, cont)))
  }

  ghost predicate AsMeantAll(ss: seq<Statement>, g: State, brk: nat, cont: nat)
    requires g.Valid() && (JumpsAny(ss) ==> g.loops != [])
    decreases ss, 0
  {
    ss == [] || (AsMeant(ss[0], g, brk, cont) && AsMeantAll(ss[1..], Lower(ss[0], g), brk, cont))
  }

  // ----- what is left on the loop stack -----

  /** The pairs above the stack of `before` name blocks that are not among the first n. */
  ghost predicate FreshAbove(before: seq<(nat, nat)>, after: seq<(nat, nat)>, n: nat) {
    && before <= after
    && forall i :: |before| <= i < |after| ==> after[i].0 >= n && after[i].1 >= n
  }

  ghost predicate Left(leaks: bool, g: State, g': State) {
    && FreshAbove(g.loops, g'.loops, |g.blocks|)
    && |g.blocks| <= |g'.blocks|
    && (leaks ==> |g'.loops| > |g.loops|)
  }

  lemma LeftThen(leaks: bool, leaks': bool, g: State, g1: State, g': State)
    requires Left(leaks, g, g1) && Left(leaks', g1, g')
    ensures Left(leaks || leaks', g, g')
  {}

  lemma {:induction false} Leaked(s: Statement, g: State)
    requires Tidy(s) && g.Valid() && (Jumps(s) ==> g.loops != [])
    ensures Left(Leaks(s), g, Lower(s, g))
    decreases s, 1
  {
    hide LowerAll, LeaksAny, JumpsAny, LastReachable, Grows;
    match s
    case SBlock(ss) => LeakedBlock(ss, g);
    case SIf(_, _, _, _) => LeakedIf(s, g);
    case SWhile(_, _, body) =>
      LowerLoop(s, g);
      LeakedPopped(body, WhileBody(s, g), g, LowerWhile(s, g));
    case SDoWhile(_, body, _) =>
      LowerLoop(s, g);
      LeakedAll(body, DoWhileBody(s, g));
    case SFor(_, _, c, _, _) => if c.Some? { LeakedFor(s, g); } else { LeakedForEver(s, g); }
    case _ =>
  }

  /** A loop body whose own pair is popped afterwards leaves what the body left. */
  lemma {:induction false} LeakedPopped(ss: seq<Statement>, g1: State, g: State, g': State)
    requires TidyAll(ss) && g1.Valid() && g1.loops != []
    requires FreshAbove(g.loops, g1.loops, |g.blocks|) && |g1.loops| == |g.loops| + 1 && |g.blocks| <= |g1.blocks|
    requires g'.loops == LowerAll(ss, g1).loops[..|LowerAll(ss, g1).loops| - 1] && |g.blocks| <= |g'.blocks|
    ensures Left(LeaksAny(ss), g, g')
    decreases ss, 1
  {
    hide Lower, LowerAll, LeaksAny, TidyAll;
    LeakedAll(ss, g1);
  }

  lemma {:induction false} LeakedIf(s: Statement, g: State)
    requires s.SIf? && Tidy(s) && g.Valid() && (Jumps(s) ==> g.loops != [])
    ensures Left(Leaks(s), g, Lower(s, g))
    decreases s, 0
  {
    hide Lower, LowerAll, LeaksAny, TidyAll, JumpsAny, ElseEntry, Grows;
    LeakedAll(s.thenStmt, ThenEntry(s, |g.blocks| + 1, g));
    LoopsOfIf(s, g);
    if s.elseStmt != [] {
      LeakedAll(s.elseStmt, ElseEntry(s, g).0);
    } else {
      NothingLeaks();
    }
  }

  /** The join of an `if` does not touch the loop stack. */
  lemma LoopsOfIf(s: Statement, g: State)
    requires s.SIf? && g.Valid() && (Jumps(s) ==> g.loops != [])
    ensures |g.blocks| <= |Lower(s, g).blocks|
    ensures Lower(s, g).loops ==
            if s.elseStmt == [] then LowerAll(s.thenStmt, ThenEntry(s, |g.blocks| + 1, g)).loops
            else LowerAll(s.elseStmt, ElseEntry(s, g).0).loops
  {
    hide LowerAll, JumpsAny, ElseEntry, EndIf, Grows;
    if s.elseStmt != [] {
      LowerElse(s, g);
      EndIfBlocks(LastReachable(s.elseStmt), ElseEntry(s, g).1, LowerAll(s.elseStmt, ElseEntry(s, g).0));
    } else {
      assert Lower(s, g) == LowerIfThen(s, g);
    }
  }

  lemma NothingLeaks()
    ensures !LeaksAny([])
  {}

  lemma {:induction false} LeakedFor(s: Statement, g: State)
    requires s.SFor? && s.condE.Some? && Tidy(s) && g.Valid() && (Jumps(s) ==> g.loops != [])
    ensures Left(Leaks(s), g, Lower(s, g))
    decreases s, 0
  {
    hide LowerAll, LeaksAny, TidyAll;
    LowerFor(s, g);
    InitLeaksNothing(s);
    var g0 := g.Append(4);
    InitLoops(s, g0);
    LeakedPopped(s.body, ForBody(s, |g.blocks|, LowerAll(s.init, g0)), g, LowerForCond(s, g));
  }

  lemma {:induction false} LeakedForEver(s: Statement, g: State)
    requires s.SFor? && s.condE.None? && Tidy(s) && g.Valid() && (Jumps(s) ==> g.loops != [])
    ensures Left(Leaks(s), g, Lower(s, g))
    decreases s, 0
  {
    hide LowerAll, LeaksAny, TidyAll, ForEverBody;
    LowerFor(s, g);
    InitLeaksNothing(s);
    InitLoops(s, g.Append(3));
    LeakedPopped(s.body, ForEverBody(s, g), g, LowerForEver(s, g));
  }

  lemma InitLeaksNothing(s: Statement)
    requires s.SFor? && Tidy(s)
    ensures !LeaksAny(s.init) && !JumpsAny(s.init) && FaithfulAll(s.init) && TidyAll(s.init)
  {
    if s.init != [] {
      Single(s.init);
      assert s.init[1..] == [] && !Leaks(s.init[0]) && Faithful(s.init[0]) && Tidy(s.init[0]);
    }
  }

  lemma InitLoops(s: Statement, g: State)
    requires s.SFor? && Tidy(s) && g.Valid() && (Jumps(s) ==> g.loops != [])
    ensures LowerAll(s.init, g).loops == g.loops
  {
    InitLeaksNothing(s);
    NoLeakAll(s.init, g);
  }

  lemma {:induction false} LeakedBlock(ss: seq<Statement>, g: State)
    requires TidyAll(ss) && g.Valid() && (JumpsAny(ss) ==> g.loops != [])
    ensures Left(LeaksAny(ss), g, LowerBlock(ss, g))
    decreases ss, 0
  {
    if ss != [] {
      Leaked(ss[0], g);
      var g1 := Lower(ss[0], g);
      if ss[0].Reachable() {
        LeakedBlock(ss[1..], g1);
        LeftThen(Leaks(ss[0]), LeaksAny(ss[1..]), g, g1, LowerBlock(ss[1..], g1));
      } else {
        assert ss[1..] == [] && !LeaksAny(ss[1..]);
      }
    }
  }

  lemma {:induction false} LeakedAll(ss: seq<Statement>, g: State)
    requires TidyAll(ss) && g.Valid() && (JumpsAny(ss) ==> g.loops != [])
    ensures Left(LeaksAny(ss), g, LowerAll(ss, g))
    decreases ss, 0
  {
    if ss != [] {
      Leaked(ss[0], g);
      var g1 := Lower(ss[0], g);
      LeakedAll(ss[1..], g1);
      LeftThen(Leaks(ss[0]), LeaksAny(ss[1..]), g, g1, LowerAll(ss[1..], g1));
    }
  }

  // ----- a pair left behind sends every later jump astray -----

  /** The top of the stack names blocks that did not exist when the targets were made. */
  ghost predicate Astray(g: State, brk: nat, cont: nat, n: nat) {
    && g.Valid() && g.loops != [] && brk < n && cont < n && n <= |g.blocks|
    && g.loops[|g.loops| - 1].0 >= n && g.loops[|g.loops| - 1].1 >= n
  }

  lemma AstrayLater(leaks: bool, g: State, g': State, brk: nat, cont: nat, n: nat)
    requires Left(leaks, g, g') && g'.Valid() && n <= |g.blocks| && brk < n && cont < n
    requires leaks || Astray(g, brk, cont, n)
    ensures Astray(g', brk, cont, n)
  {}

  lemma {:induction false} Stale(s: Statement, g: State, brk: nat, cont: nat, n: nat)
    requires Tidy(s) && Jumps(s) && Astray(g, brk, cont, n)
    ensures !AsMeant(s, g, brk, cont)
    decreases s, 1
  {
    hide Grows, Lower, LowerAll;
    match s
    case SBlock(ss) => StaleBlock(ss, g, brk, cont, n);
    case SIf(_, _, _, _) => StaleIf(s, g, brk, cont, n);
    case SFor(_, _, _, _, _) => InitLeaksNothing(s);
    case _ =>
  }

  lemma {:induction false} StaleIf(s: Statement, g: State, brk: nat, cont: nat, n: nat)
    requires s.SIf? && Tidy(s) && Jumps(s) && Astray(g, brk, cont, n)
    ensures !AsMeant(s, g, brk, cont)
    decreases s, 0
  {
    hide Lower, LowerAll, JumpsAny, LeaksAny, TidyAll, AsMeantAll, Grows;
    var g1 := ThenEntry(s, |g.blocks| + 1, g);
    if JumpsAny(s.thenStmt) {
      StaleAll(s.thenStmt, g1, brk, cont, n);
    } else {
      LeakedAll(s.thenStmt, g1);
      StaleAll(s.elseStmt, ElseEntry(s, g).0, brk, cont, n);
    }
  }

  lemma {:induction false} StaleBlock(ss: seq<Statement>, g: State, brk: nat, cont: nat, n: nat)
    requires TidyAll(ss) && JumpsAny(ss) && Astray(g, brk, cont, n)
    ensures !AsMeantBlock(ss, g, brk, cont)
    decreases ss, 0
  {
    if Jumps(ss[0]) {
      Stale(ss[0], g, brk, cont, n);
    } else {
      Leaked(ss[0], g);
      AstrayLater(Leaks(ss[0]), g, Lower(ss[0], g), brk, cont, n);
      StaleBlock(ss[1..], Lower(ss[0], g), brk, cont, n);
    }
  }

  lemma {:induction false} StaleAll(ss: seq<Statement>, g: State, brk: nat, cont: nat, n: nat)
    requires TidyAll(ss) && JumpsAny(ss) && Astray(g, brk, cont, n)
    ensures !AsMeantAll(ss, g, brk, cont)
    decreases ss, 0
  {
    if Jumps(ss[0]) {
      Stale(ss[0], g, brk, cont, n);
    } else {
      Leaked(ss[0], g);
      AstrayLater(Leaks(ss[0]), g, Lower(ss[0], g), brk, cont, n);
      StaleAll(ss[1..], Lower(ss[0], g), brk, cont, n);
    }
  }

  // ----- the condition is exact -----

  /** The targets are blocks that exist already and, for the jumps there are, on top of the stack. */
  ghost predicate InPlace(jumps: bool, g: State, brk: nat, cont: nat) {
    g.Valid() && brk < |g.blocks| && cont < |g.blocks| && Targets(jumps, g, brk, cont)
  }

  /** Every jump is lowered to its own loop, and to a block with code in it, exactly when `Faithful` holds. */
  lemma {:induction false} FaithfulIsExact(s: Statement, g: State, brk: nat, cont: nat)
    requires Tidy(s) && InPlace(Jumps(s), g, brk, cont)
    ensures AsMeant(s, g, brk, cont) <==> Faithful(s)
    decreases s, 1
  {
    match s
    case SBlock(ss) => ExactBlock(ss, g, brk, cont);
    case SIf(_, _, _, _) => ExactIf(s, g, brk, cont);
    case SWhile(_, _, body) => ExactAll(body, WhileBody(s, g), |g.blocks| + 2, |g.blocks| + 1);
    case SDoWhile(_, body, _) => ExactAll(body, DoWhileBody(s, g), |g.blocks| + 2, |g.blocks| + 1);
    case SFor(_, _, _, _, _) => ExactFor(s, g, brk, cont);
    case _ =>
  }

  lemma {:induction false} ExactIf(s: Statement, g: State, brk: nat, cont: nat)
    requires s.SIf? && Tidy(s) && InPlace(Jumps(s), g, brk, cont)
    ensures AsMeant(s, g, brk, cont) <==> Faithful(s)
    decreases s, 0
  {
    hide Lower, LowerAll, JumpsAny, FaithfulAll, LeaksAny, TidyAll, AsMeantAll;
    var g1, ge := ThenEntry(s, |g.blocks| + 1, g), ElseEntry(s, g).0;
    ExactAll(s.thenStmt, g1, brk, cont);
    LeakedAll(s.thenStmt, g1);
    if JumpsAny(s.elseStmt) && LeaksAny(s.thenStmt) {
      StaleAll(s.elseStmt, ge, brk, cont, |g.blocks|);
    } else {
      if JumpsAny(s.elseStmt) { NoLeakAll(s.thenStmt, g1); }
      ExactAll(s.elseStmt, ge, brk, cont);
    }
  }

  lemma {:induction false} ExactFor(s: Statement, g: State, brk: nat, cont: nat)
    requires s.SFor? && Tidy(s) && InPlace(Jumps(s), g, brk, cont)
    ensures AsMeant(s, g, brk, cont) <==> Faithful(s)
    decreases s, 0
  {
    hide Lower, LowerAll, FaithfulAll, LeaksAny, JumpsAny, TidyAll, AsMeantAll, ForEverBody, LowerForEver;
    var n := |g.blocks|;
    InitLeaksNothing(s);
    if s.condE.Some? {
      var g0 := g.Append(4);
      ExactAll(s.init, g0, brk, cont);
      ExactAll(s.body, ForBody(s, n, LowerAll(s.init, g0)), n + 3, n + 2);
    } else {
      ExactAll(s.init, g.Append(3), brk, cont);
      ExactAll(s.body, ForEverBody(s, g), n + 2, if s.next.None? then n else n + 1);
      NextFilled(s, g);
    }
  }

  lemma NextFilled(s: Statement, g: State)
    requires s.SFor? && s.condE.None? && g.Valid() && (Jumps(s) ==> g.loops != [])
    ensures LowerForEver(s, g).Valid() && |g.blocks| + 1 < |LowerForEver(s, g).blocks|
    ensures LowerForEver(s, g).blocks[|g.blocks| + 1] != [] <==> LastReachable(s.body)
  {
    hide LowerAll, ForEverBody;
    LowerFor(s, g);
    ForEverBlocks(s, g, EmitIf(LastReachable(s.body), Branch(|g.blocks| + 1), LowerAll(s.body, ForEverBody(s, g))));
  }

  lemma {:induction false} ExactBlock(ss: seq<Statement>, g: State, brk: nat, cont: nat)
    requires TidyAll(ss) && InPlace(JumpsAny(ss), g, brk, cont)
    ensures AsMeantBlock(ss, g, brk, cont) <==> FaithfulAll(ss)
    decreases ss, 0
  {
    if ss != [] {
      var g1 := Lower(ss[0], g);
      FaithfulIsExact(ss[0], g, brk, cont);
      Leaked(ss[0], g);
      if ss[1..] == [] {
        assert FaithfulAll(ss[1..]) && AsMeantBlock(ss[1..], g1, brk, cont);
      } else if JumpsAny(ss[1..]) && Leaks(ss[0]) {
        AstrayLater(true, g, g1, brk, cont, |g.blocks|);
        StaleBlock(ss[1..], g1, brk, cont, |g.blocks|);
      } else {
        if JumpsAny(ss[1..]) { NoLeak(ss[0], g); }
        ExactBlock(ss[1..], g1, brk, cont);
      }
    }
  }

  lemma {:induction false} ExactAll(ss: seq<Statement>, g: State, brk: nat, cont: nat)
    requires TidyAll(ss) && InPlace(JumpsAny(ss), g, brk, cont)
    ensures AsMeantAll(ss, g, brk, cont) <==> FaithfulAll(ss)
    decreases ss, 0
  {
    hide Grows, State.Valid;
    if ss != [] {
      var g1 := Lower(ss[0], g);
      FaithfulIsExact(ss[0], g, brk, cont);
      Leaked(ss[0], g);
      if JumpsAny(ss[1..]) && Leaks(ss[0]) {
        AstrayLater(true, g, g1, brk, cont, |g.blocks|);
        StaleAll(ss[1..], g1, brk, cont, |g.blocks|);
      } else {
        if JumpsAny(ss[1..]) { NoLeak(ss[0], g); }
        ExactAll(ss[1..], g1, brk, cont);
      }
    }
  }

  // ----- a program that goes wrong -----

  /** `while (1) { do {} while (0); break; }` */
  const BreakAfterDoWhile: Stmt :=
    While(NumberLiteral(1), Stmt.Block([DoWhile(Stmt.Block([]), NumberLiteral(0)), Break]))

  const InnerLoop: Statement := SDoWhile(true, [SBlock([])], NumberLiteral(0))

  const ResolvedBreakAfterDoWhile: Statement :=
    SWhile(true, NumberLiteral(1), [SBlock([InnerLoop, SBreak])])

  lemma ResolveBreakAfterDoWhile()
    ensures Resolve(BreakAfterDoWhile, false) == Resolved([ResolvedBreakAfterDoWhile], true, 0, 0, 0)
  {
    var inner: Stmt := DoWhile(Stmt.Block([]), NumberLiteral(0));
    assert Resolve(Stmt.Block([]), true) == Resolved([SBlock([])], true, 0, 0, 0);
    assert Resolve(inner, true) == Resolved([InnerLoop], true, 0, 0, 0);
    assert Resolve(Break, true) == Resolved([SBreak], false, 1, 0, 0);
    assert ResolveSeq([], true, false, false) == Resolved([], false, 0, 0, 0);
    assert [Break][1..] == [];
    assert ResolveSeq([Break], true, true, false) == Resolved([SBreak] + [], false, 1, 0, 0);
    assert [inner, Break][1..] == [Break];
    assert ResolveSeq([inner, Break], true, true, false) == Resolved([InnerLoop] + ([SBreak] + []), false, 1, 0, 0);
    assert [InnerLoop] + ([SBreak] + []) == [InnerLoop, SBreak];
  }

  /** The state in which the body of the outer loop is lowered, and that after the inner one. */
  const Outside: State :=
    State([[Branch(2)], [], [CondBranch(NumberLiteral(1), 1, 3)], []], 1, [(3, 2)])

  const AfterInner: State :=
    State([[Branch(2)], [Branch(4)], [CondBranch(NumberLiteral(1), 1, 3)], [], [Branch(5)],
           [CondBranch(NumberLiteral(0), 4, 6)], []], 6, [(3, 2), (6, 5)])

  predicate Same(a: seq<Code>, b: seq<Code>, i: nat)
    requires |a| == |b| && i < |a|
  {
    a[i] == b[i]
  }

  lemma Same4(a: seq<Code>, b: seq<Code>)
    requires |a| == |b| == 4 && Same(a, b, 0) && Same(a, b, 1) && Same(a, b, 2) && Same(a, b, 3)
    ensures a == b
  {}

  lemma Same7(a: seq<Code>, b: seq<Code>)
    requires |a| == |b| == 7 && Same(a, b, 0) && Same(a, b, 1) && Same(a, b, 2) && Same(a, b, 3)
    requires Same(a, b, 4) && Same(a, b, 5) && Same(a, b, 6)
    ensures a == b
  {}

  lemma OuterBodyEntry()
    ensures WhileBody(ResolvedBreakAfterDoWhile, Prologue(Void, [])) == Outside
  {
    var g1 := WhileBody(ResolvedBreakAfterDoWhile, Prologue(Void, []));
    assert g1.blocks[0] == [] + [Branch(2)] == [Branch(2)];
    Same4(g1.blocks, Outside.blocks);
  }

  lemma InnerLowered()
    ensures Lower(InnerLoop, Outside) == AfterInner
  {
    hide Grows;
    var d1 := DoWhileBody(InnerLoop, Outside);
    var empty := SBlock([]);
    assert [empty][1..] == [] && LowerAll([empty], d1) == Lower(empty, d1) == d1;
    assert LastReachable([empty]);
    LowerLoop(InnerLoop, Outside);
    InnerLaidOut();
  }

  lemma InnerLaidOut()
    ensures DoWhileBody(InnerLoop, Outside).Emit(Branch(5)).At(5).Emit(CondBranch(NumberLiteral(0), 4, 6)).At(6) ==
            AfterInner
  {
    var g := DoWhileBody(InnerLoop, Outside).Emit(Branch(5)).At(5).Emit(CondBranch(NumberLiteral(0), 4, 6)).At(6);
    assert g.blocks[1] == [] + [Branch(4)] == [Branch(4)];
    assert g.blocks[4] == [] + [Branch(5)] == [Branch(5)];
    assert g.blocks[5] == [] + [CondBranch(NumberLiteral(0), 4, 6)] == [CondBranch(NumberLiteral(0), 4, 6)];
    Same7(g.blocks, AfterInner.blocks);
  }

  const BadCode: seq<Code> :=
    [[Branch(2)], [Branch(4)], [CondBranch(NumberLiteral(1), 1, 3)], [Ret(None)],
     [Branch(5)], [CondBranch(NumberLiteral(0), 4, 6)], [Branch(6)]]

  lemma OuterBodyLowered()
    ensures !JumpsAny(ResolvedBreakAfterDoWhile.body) || Outside.loops != []
    ensures LowerAll(ResolvedBreakAfterDoWhile.body, Outside) == AfterInner.Emit(Branch(6))
    ensures !LastReachable(ResolvedBreakAfterDoWhile.body)
  {
    hide LowerDoWhile, LowerWhile, Grows;
    InnerLowered();
    var ss := [InnerLoop, SBreak];
    assert ss[1..] == [SBreak] && [SBreak][1..] == [];
    var g3 := AfterInner.Emit(Branch(6));
    assert LowerBlock(ss, Outside) == LowerBlock([SBreak], AfterInner) == Lower(SBreak, AfterInner) == g3;
    var b := SBlock(ss);
    assert [b][1..] == [] && LowerAll([b], Outside) == Lower(b, Outside) == g3;
    assert !b.Reachable() by { assert !ss[1].Reachable(); }
  }

  /** The break has become a branch of the do-while's end block to itself. */
  lemma CodeOfBreakAfterDoWhile()
    ensures !Jumps(ResolvedBreakAfterDoWhile)
    ensures GenFunction(ResolvedBreakAfterDoWhile, Void, []) == BadCode
  {
    hide LowerAll, LowerBlock, Grows, WhileBody, LowerDoWhile;
    var w := ResolvedBreakAfterDoWhile;
    OuterBodyEntry();
    OuterBodyLowered();
    var g4 := AfterInner.Emit(Branch(6)).Pop().At(3);
    assert Lower(w, Prologue(Void, [])) == LowerWhile(w, Prologue(Void, [])) == g4;
    var code := GenFunction(w, Void, []);
    assert code == g4.Emit(Ret(None)).blocks;
    assert code[6] == [] + [Branch(6)] == [Branch(6)] && code[3] == [] + [Ret(None)] == [Ret(None)];
    Same7(code, BadCode);
  }

  lemma BadCodeDiverges(st: Store)
    ensures MachineDiverges(BadCode, st)
  {
    var path := [Running(0, 0, st), Running(2, 0, st), Running(1, 0, st),
                 Running(4, 0, st), Running(5, 0, st), Running(6, 0, st)];
    forall k | 0 <= k < |path| - 1 ensures Step(BadCode, path[k]) == path[k + 1] {}
    forall n: nat ensures Run(BadCode, Running(0, 0, st), n).Running? {
      Follows(BadCode, path, 0, n);
    }
  }

  lemma BreakAfterDoWhileUnfaithful()
    ensures !Faithful(ResolvedBreakAfterDoWhile)
  {
    var ss := [InnerLoop, SBreak];
    assert ss[1..] == [SBreak];
    assert Leaks(InnerLoop) && Jumps(SBreak);
    assert JumpsAny(ss[1..]) && !FaithfulAll(ss);
    assert !Faithful(SBlock(ss));
    assert !FaithfulAll([SBlock(ss)]);
  }

  /** The source returns at once; the code goes round for ever. */
  lemma BreakAfterDoWhileGoesWrong(st: Store)
    ensures SourceEnds(BreakAfterDoWhile, Void, st, Returned(None, st))
    ensures Resolve(BreakAfterDoWhile, false) == Resolved([ResolvedBreakAfterDoWhile], true, 0, 0, 0)
    ensures !Jumps(ResolvedBreakAfterDoWhile) && !Faithful(ResolvedBreakAfterDoWhile)
    ensures MachineDiverges(GenFunction(ResolvedBreakAfterDoWhile, Void, []), st)
  {
    hide *;
    ResolveBreakAfterDoWhile();
    CodeOfBreakAfterDoWhile();
    BreakAfterDoWhileReturns(st);
    BreakAfterDoWhileUnfaithful();
    BadCodeDiverges(st);
  }

  lemma BreakAfterDoWhileReturns(st: Store)
    ensures SourceEnds(BreakAfterDoWhile, Void, st, Returned(None, st))
  {
    var inner: Stmt := DoWhile(Stmt.Block([]), NumberLiteral(0));
    var ss := [inner, Break];
    assert ExecDo(Stmt.Block([]), NumberLiteral(0), st, 1) == Normal(st) by {
      assert Exec(Stmt.Block([]), st, 0) == Normal(st);
    }
    assert ss[1..] == [Break];
    assert ExecSeq([Break], st, 1) == Broke(st);
    assert ExecSeq(ss, st, 1) == Broke(st);
    assert Exec(Stmt.Block(ss), st, 1) == Broke(st);
    assert ExecLoop(Some(NumberLiteral(1)), None, Some(Stmt.Block(ss)), st, 2) == Normal(st);
    assert ExecFunction(BreakAfterDoWhile, Void, st, 2) == Returned(None, st);
  }

  /** A run along the path stays in its last configuration when that one steps to itself. */
  lemma {:induction false} Follows(code: seq<Code>, path: seq<Config>, i: nat, n: nat)
    requires i < |path|
    requires forall k :: 0 <= k < |path| ==> path[k].Running?
    requires forall k :: 0 <= k < |path| - 1 ==> Step(code, path[k]) == path[k + 1]
    requires Step(code, path[|path| - 1]) == path[|path| - 1]
    ensures Run(code, path[i], n).Running?
    decreases n
  {
    if n > 0 { Follows(code, path, if i + 1 < |path| then i + 1 else i, n - 1); }
  }

  // ----- and another -----

  const IsOne: Expr := Compare(Equal, Variable(0), NumberLiteral(1))
  const SetOne: Expr := Assign(0, NumberLiteral(1))

  /** `for (;; x = 1) { if (x == 1) break; else continue; }` */
  const ContinueToNext: Stmt := For(None, None, Some(SetOne), Some(If(IsOne, Break, Some(Continue))))

  const EitherWay: Statement := SIf(false, IsOne, [SBreak], [SContinue])

  const ResolvedContinueToNext: Statement := SFor(true, [], None, Some(SetOne), [EitherWay])

  lemma ResolveContinueToNext()
    ensures Resolve(ContinueToNext, false) == Resolved([ResolvedContinueToNext], true, 0, 0, 0)
  {
    var body := If(IsOne, Break, Some(Continue));
    assert Resolve(body, true) == Resolved([EitherWay], false, 1, 1, 0);
    assert ResolveOpt(Some(body), true) == Resolved([EitherWay], false, 1, 1, 0);
  }

  lemma ContinueToNextUnfaithful()
    ensures !Jumps(ResolvedContinueToNext) && !Faithful(ResolvedContinueToNext)
  {
    assert !JumpsAny([]);
    assert ContinuesAny([SContinue]) && Continues(EitherWay) && ContinuesAny([EitherWay]);
    assert !LastReachable([EitherWay]);
  }

  /** The state in which the body is lowered, and that after it. */
  const InLoop: State := State([[Branch(1)], [], [], []], 1, [(3, 2)])

  const AfterBody: State :=
    State([[Branch(1)], [CondBranch(IsOne, 4, 5)], [], [], [Branch(3)], [Branch(2)]], 5, [(3, 2)])

  const StuckCode: seq<Code> :=
    [[Branch(1)], [CondBranch(IsOne, 4, 5)], [], [Ret(None)], [Branch(3)], [Branch(2)]]

  lemma Same6(a: seq<Code>, b: seq<Code>)
    requires |a| == |b| == 6 && Same(a, b, 0) && Same(a, b, 1) && Same(a, b, 2) && Same(a, b, 3)
    requires Same(a, b, 4) && Same(a, b, 5)
    ensures a == b
  {}

  lemma EnterLoop()
    ensures !Jumps(ResolvedContinueToNext)
    ensures ForEverBody(ResolvedContinueToNext, Prologue(Void, [])) == InLoop
  {
    hide Grows;
    ContinueToNextUnfaithful();
    var g := Prologue(Void, []);
    assert LowerAll([], g.Append(3)) == g.Append(3);
    var g1 := ForEverBody(ResolvedContinueToNext, g);
    assert g1 == g.Append(3).Emit(Branch(1)).At(1).Push((3, 2));
    assert g1.blocks[0] == [] + [Branch(1)] == [Branch(1)];
    Same4(g1.blocks, InLoop.blocks);
  }

  lemma BodyLowered()
    ensures LowerAll([EitherWay], InLoop) == AfterBody
  {
    hide Grows, Faithful;
    var g1 := ThenEntry(EitherWay, 5, InLoop);
    assert [SBreak][1..] == [] && [SContinue][1..] == [] && [EitherWay][1..] == [];
    assert LowerAll([SBreak], g1) == Lower(SBreak, g1) == g1.Emit(Branch(3));
    var g2 := g1.Emit(Branch(3)).At(5);
    assert ElseEntry(EitherWay, InLoop) == (g2, None);
    assert LowerAll([SContinue], g2) == Lower(SContinue, g2) == g2.Emit(Branch(2));
    NoJoin(EitherWay, InLoop);
    assert LowerAll([EitherWay], InLoop) == Lower(EitherWay, InLoop) == g2.Emit(Branch(2));
    ArmsLaidOut();
  }

  lemma ArmsLaidOut()
    ensures ThenEntry(EitherWay, 5, InLoop).Emit(Branch(3)).At(5).Emit(Branch(2)) == AfterBody
  {
    var g := ThenEntry(EitherWay, 5, InLoop).Emit(Branch(3)).At(5).Emit(Branch(2));
    assert g.blocks[1] == [] + [CondBranch(IsOne, 4, 5)] == [CondBranch(IsOne, 4, 5)];
    assert g.blocks[4] == [] + [Branch(3)] == [Branch(3)] && g.blocks[5] == [] + [Branch(2)] == [Branch(2)];
    Same6(g.blocks, AfterBody.blocks);
  }

  /** The continue has become a branch to a block with nothing in it. */
  lemma CodeOfContinueToNext()
    ensures !Jumps(ResolvedContinueToNext) && GenFunction(ResolvedContinueToNext, Void, []) == StuckCode
  {
    hide Lower, LowerAll, ForEverBody, Grows, FillNext, Faithful;
    ContinueToNextUnfaithful();
    var s, g := ResolvedContinueToNext, Prologue(Void, []);
    EnterLoop();
    BodyLowered();
    assert !LastReachable([EitherWay]);
    LowerFor(s, g);
    var g1 := AfterBody.Pop().At(3);
    assert LowerForEver(s, g) == g1;
    var code := GenFunction(s, Void, []);
    assert code == g1.Emit(Ret(None)).blocks;
    assert code[3] == [] + [Ret(None)] == [Ret(None)];
    Same6(code, StuckCode);
  }

  /** Unless x is one already the source sets it and returns; the code runs into the empty block. */
  lemma ContinueToNextGoesWrong(st: Store)
    requires Get(st, 0) != 1
    ensures SourceEnds(ContinueToNext, Void, st, Returned(None, st[0 := 1]))
    ensures Resolve(ContinueToNext, false) == Resolved([ResolvedContinueToNext], true, 0, 0, 0)
    ensures !Jumps(ResolvedContinueToNext) && !Faithful(ResolvedContinueToNext)
    ensures MachineEnds(GenFunction(ResolvedContinueToNext, Void, []), st, Stuck)
  {
    hide *;
    ResolveContinueToNext();
    ContinueToNextUnfaithful();
    CodeOfContinueToNext();
    ContinueToNextReturns(st);
    StuckCodeStops(st);
  }

  lemma StuckCodeStops(st: Store)
    requires Get(st, 0) != 1
    ensures MachineEnds(StuckCode, st, Stuck)
  {
    assert EvalEmitted(IsOne, st) == Value(0, st);
    var c0, c1, c2, c3 := Running(0, 0, st), Running(1, 0, st), Running(5, 0, st), Running(2, 0, st);
    assert Step(StuckCode, c0) == c1 && Step(StuckCode, c1) == c2 && Step(StuckCode, c2) == c3;
    assert Step(StuckCode, c3) == Stuck;
    assert Run(StuckCode, c3, 1) == Run(StuckCode, c2, 2) == Run(StuckCode, c1, 3) == Run(StuckCode, c0, 4);
  }

  lemma ContinueToNextReturns(st: Store)
    requires Get(st, 0) != 1
    ensures SourceEnds(ContinueToNext, Void, st, Returned(None, st[0 := 1]))
  {
    var body := If(IsOne, Break, Some(Continue));
    var st1 := st[0 := 1];
    assert Eval(IsOne, st) == Value(0, st) && Eval(IsOne, st1) == Value(1, st1);
    ExecIf(body, st, 1);
    ExecIf(body, st1, 0);
    assert Exec(body, st, 1) == Continued(st) && Exec(body, st1, 0) == Broke(st1);
    assert Eval(SetOne, st) == Value(1, st1);
    assert ExecLoop(None, Some(SetOne), Some(body), st1, 1) == Normal(st1);
    assert ExecNext(None, Some(SetOne), Some(body), st, 1) == Normal(st1);
    assert ExecLoop(None, Some(SetOne), Some(body), st, 2) == Normal(st1);
    assert ExecFunction(ContinueToNext, Void, st, 2) == Returned(None, st1);
  }

  // ----- the loop stack, exactly -----

  /** Lowering leaves the loop stack as it was exactly when there is no do-while in the statement. */
  lemma StackRestoredExactly(s: Statement, g: State)
    requires Tidy(s) && g.Valid() && (Jumps(s) ==> g.loops != [])
    ensures Lower(s, g).loops == g.loops <==> !Leaks(s)
  {
    Leaked(s, g);
    if !Leaks(s) { NoLeak(s, g); }
  }
}
