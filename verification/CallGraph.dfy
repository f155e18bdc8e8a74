/**
  Which functions end up in a contract: its own, and everything reached from them and from
  the initializers of its variables by calls that the walk over the tree collects.  It does
  not see all calls; when the contract is complete all the same is stated below.
*/
module CallGraph {
  /** Only calls matter here.  Some expressions are never looked into. */
  datatype Expr = Call(functionNo: nat, args: seq<Expr>) | Node(parts: seq<Expr>) | Opaque(parts: seq<Expr>)

  datatype Stmt =
    | Simple(exprs: seq<Expr>)
    | Block(body: seq<Stmt>)
    | If(cond: Expr, thenS: seq<Stmt>, elseS: seq<Stmt>)
    | Loop(cond: Expr, body: seq<Stmt>)
    | For(init: seq<Stmt>, conds: seq<Expr>, next: seq<Expr>, body: seq<Stmt>)

  // ----- the calls the walk collects, and those it does not see -----

  function Collected(e: Expr): set<nat>
    decreases e, 0
  {
    match e
    case Call(f, args) => {f} + AllCollected(args)
    case Node(parts) => AllCollected(parts)
    case Opaque(_) => {}
  }

  function AllCollected(es: seq<Expr>): set<nat>
    decreases es, 1
  {
    if es == [] then {} else Collected(es[0]) + AllCollected(es[1..])
  }

  function CollectedIn(s: Stmt): set<nat>
    decreases s, 0
  {
    match s
    case Simple(es) => AllCollected(es)
    case Block(body) => AllCollectedIn(body)
    case If(cond, t, e) => Collected(cond) + AllCollectedIn(t) + AllCollectedIn(e)
    case Loop(cond, body) => Collected(cond) + AllCollectedIn(body)
    case For(init, conds, _, body) => AllCollected(conds) + AllCollectedIn(init) + AllCollectedIn(body)
  }

  function AllCollectedIn(ss: seq<Stmt>): set<nat>
    decreases ss, 1
  {
    if ss == [] then {} else CollectedIn(ss[0]) + AllCollectedIn(ss[1..])
  }

  function Calls(e: Expr): set<nat>
    decreases e, 0
  {
    match e
    case Call(f, args) => {f} + AllCalls(args)
    case Node(parts) => AllCalls(parts)
    case Opaque(parts) => AllCalls(parts)
  }

  function AllCalls(es: seq<Expr>): set<nat>
    decreases es, 1
  {
    if es == [] then {} else Calls(es[0]) + AllCalls(es[1..])
  }

  function CallsIn(s: Stmt): set<nat>
    decreases s, 0
  {
    match s
    case Simple(es) => AllCalls(es)
    case Block(body) => AllCallsIn(body)
    case If(cond, t, e) => Calls(cond) + AllCallsIn(t) + AllCallsIn(e)
    case Loop(cond, body) => Calls(cond) + AllCallsIn(body)
    case For(init, conds, next, body) => AllCalls(conds) + AllCalls(next) + AllCallsIn(init) + AllCallsIn(body)
  }

  function AllCallsIn(ss: seq<Stmt>): set<nat>
    decreases ss, 1
  {
    if ss == [] then {} else CallsIn(ss[0]) + AllCallsIn(ss[1..])
  }

  /** The calls inside the expressions that are not looked into, and in the `next` of loops. */
  function Unseen(e: Expr): set<nat>
    decreases e, 0
  {
    match e
    case Call(_, args) => AllUnseen(args)
    case Node(parts) => AllUnseen(parts)
    case Opaque(parts) => AllCalls(parts)
  }

  function AllUnseen(es: seq<Expr>): set<nat>
    decreases es, 1
  {
    if es == [] then {} else Unseen(es[0]) + AllUnseen(es[1..])
  }

  function UnseenIn(s: Stmt): set<nat>
    decreases s, 0
  {
    match s
    case Simple(es) => AllUnseen(es)
    case Block(body) => AllUnseenIn(body)
    case If(cond, t, e) => Unseen(cond) + AllUnseenIn(t) + AllUnseenIn(e)
    case Loop(cond, body) => Unseen(cond) + AllUnseenIn(body)
    case For(init, conds, next, body) => AllUnseen(conds) + AllCalls(next) + AllUnseenIn(init) + AllUnseenIn(body)
  }

  function AllUnseenIn(ss: seq<Stmt>): set<nat>
    decreases ss, 1
  {
    if ss == [] then {} else UnseenIn(ss[0]) + AllUnseenIn(ss[1..])
  }

  lemma {:induction false} SplitCalls(e: Expr)
    ensures Calls(e) == Collected(e) + Unseen(e)
    decreases e, 0
  {
    match e
    case Call(_, args) => SplitAllCalls(args);
    case Node(parts) => SplitAllCalls(parts);
    case Opaque(_) =>
  }

  lemma {:induction false} SplitAllCalls(es: seq<Expr>)
    ensures AllCalls(es) == AllCollected(es) + AllUnseen(es)
    decreases es, 1
  {
    if es != [] {
      SplitCalls(es[0]);
      SplitAllCalls(es[1..]);
    }
  }

  lemma {:induction false} SplitCallsIn(s: Stmt)
    ensures CallsIn(s) == CollectedIn(s) + UnseenIn(s)
    decreases s, 0
  {
    match s
    case Simple(es) => SplitAllCalls(es);
    case Block(body) => SplitAllCallsIn(body);
    case If(cond, t, e) =>
      SplitCalls(cond);
      SplitAllCallsIn(t);
      SplitAllCallsIn(e);
    case Loop(cond, body) =>
      SplitCalls(cond);
      SplitAllCallsIn(body);
    case For(init, conds, next, body) =>
      SplitAllCalls(conds);
      SplitAllCallsIn(init);
      SplitAllCallsIn(body);
  }

  lemma {:induction false} SplitAllCallsIn(ss: seq<Stmt>)
    ensures AllCallsIn(ss) == AllCollectedIn(ss) + AllUnseenIn(ss)
    decreases ss, 1
  {
    if ss != [] {
      SplitCallsIn(ss[0]);
      SplitAllCallsIn(ss[1..]);
    }
  }

  /** The tree with everything cut out that is not looked into. */
  function Cut(e: Expr): Expr
    decreases e, 0
  {
    match e
    case Call(f, args) => Call(f, AllCut(args))
    case Node(parts) => Node(AllCut(parts))
    case Opaque(_) => Node([])
  }

  function AllCut(es: seq<Expr>): seq<Expr>
    decreases es, 1
  {
    if es == [] then [] else [Cut(es[0])] + AllCut(es[1..])
  }

  function CutIn(s: Stmt): Stmt
    decreases s, 0
  {
    match s
    case Simple(es) => Simple(AllCut(es))
    case Block(body) => Block(AllCutIn(body))
    case If(cond, t, e) => If(Cut(cond), AllCutIn(t), AllCutIn(e))
    case Loop(cond, body) => Loop(Cut(cond), AllCutIn(body))
    case For(init, conds, _, body) => For(AllCutIn(init), AllCut(conds), [], AllCutIn(body))
  }

  function AllCutIn(ss: seq<Stmt>): seq<Stmt>
    decreases ss, 1
  {
    if ss == [] then [] else [CutIn(ss[0])] + AllCutIn(ss[1..])
  }

  lemma {:induction false} CollectsExactly(e: Expr)
    ensures Collected(e) == Calls(Cut(e))
    decreases e, 0
  {
    match e
    case Call(_, args) => CollectsAllExactly(args);
    case Node(parts) => CollectsAllExactly(parts);
    case Opaque(_) =>
  }

  lemma {:induction false} CollectsAllExactly(es: seq<Expr>)
    ensures AllCollected(es) == AllCalls(AllCut(es))
    decreases es, 1
  {
    if es != [] {
      CollectsExactly(es[0]);
      CollectsAllExactly(es[1..]);
      assert AllCut(es)[1..] == AllCut(es[1..]);
    }
  }

  /** The calls collected are all those of the tree without the `next` of loops and the expressions not looked into. */
  lemma {:induction false} CollectsExactlyIn(s: Stmt)
    ensures CollectedIn(s) == CallsIn(CutIn(s))
    decreases s, 0
  {
    match s
    case Simple(es) => CollectsAllExactly(es);
    case Block(body) => CollectsAllExactlyIn(body);
    case If(cond, t, e) =>
      CollectsExactly(cond);
      CollectsAllExactlyIn(t);
      CollectsAllExactlyIn(e);
    case Loop(cond, body) =>
      CollectsExactly(cond);
      CollectsAllExactlyIn(body);
    case For(init, conds, _, body) =>
      CollectsAllExactly(conds);
      CollectsAllExactlyIn(init);
      CollectsAllExactlyIn(body);
  }

  lemma {:induction false} CollectsAllExactlyIn(ss: seq<Stmt>)
    ensures AllCollectedIn(ss) == AllCallsIn(AllCutIn(ss))
    decreases ss, 1
  {
    if ss != [] {
      CollectsExactlyIn(ss[0]);
      CollectsAllExactlyIn(ss[1..]);
      assert AllCutIn(ss)[1..] == AllCutIn(ss[1..]);
    }
  }

  // ----- closure -----

  type Program = seq<seq<Stmt>>

  /** Every call is to a function there is. */
  ghost predicate Resolved(p: Program) {
    forall f: nat :: f < |p| ==> forall g <- AllCollectedIn(p[f]) :: g < |p|
  }

  ghost function Callees(p: Program, fs: set<nat>): set<nat> {
    set f, g | f in fs && f < |p| && g in AllCollectedIn(p[f]) :: g
  }

  ghost predicate Closed(p: Program, fs: set<nat>) { Callees(p, fs) <= fs }

  /** The least set with these members that contains the callees of its members. */
  ghost predicate IsClosure(p: Program, roots: set<nat>, fs: set<nat>) {
    && roots <= fs && Closed(p, fs)
    && forall other :: roots <= other && Closed(p, other) ==> fs <= other
  }

  // ----- calls that are not collected -----

  ghost function AllCallees(p: Program, fs: set<nat>): set<nat> {
    set f, g | f in fs && f < |p| && g in AllCallsIn(p[f]) :: g
  }

  /** The least set with these members that contains everything its members call. */
  ghost predicate IsFullClosure(p: Program, roots: set<nat>, fs: set<nat>) {
    && roots <= fs && AllCallees(p, fs) <= fs
    && forall other :: roots <= other && AllCallees(p, other) <= other ==> fs <= other
  }

  lemma CalleesSplit(p: Program, fs: set<nat>)
    ensures Callees(p, fs) <= AllCallees(p, fs)
    ensures Callees(p, fs) <= fs ==>
      (AllCallees(p, fs) <= fs <==> forall f <- fs :: f < |p| ==> AllUnseenIn(p[f]) <= fs)
  {
    forall f <- fs ensures f < |p| ==> AllCallsIn(p[f]) == AllCollectedIn(p[f]) + AllUnseenIn(p[f]) {
      if f < |p| { SplitAllCallsIn(p[f]); }
    }
    if Callees(p, fs) <= fs && forall f <- fs :: f < |p| ==> AllUnseenIn(p[f]) <= fs {
      forall g | g in AllCallees(p, fs) ensures g in fs {
        var f :| f in fs && f < |p| && g in AllCallsIn(p[f]);
        if g in AllCollectedIn(p[f]) { assert g in Callees(p, fs); } else { assert g in AllUnseenIn(p[f]); }
      }
    }
    if AllCallees(p, fs) <= fs {
      forall f <- fs ensures f < |p| ==> AllUnseenIn(p[f]) <= fs {
        if f < |p| {
          forall g | g in AllUnseenIn(p[f]) ensures g in fs { assert g in AllCallees(p, fs); }
        }
      }
    }
  }

  /**
    The contract holds all functions it can call, and no others, exactly when every call that
    is not seen in one of its functions or initializers is to a function it holds anyway.
  */
  lemma ContractIsComplete(p: Program, initializers: seq<Expr>, before: map<nat, Origin>, after: map<nat, Origin>)
    requires Ran(p, AllCollected(initializers), before, after)
    ensures IsFullClosure(p, before.Keys + AllCalls(initializers), after.Keys) <==>
            && AllUnseen(initializers) <= after.Keys
            && forall f <- after.Keys :: f < |p| ==> AllUnseenIn(p[f]) <= after.Keys
  {
    SplitAllCalls(initializers);
    CalleesSplit(p, after.Keys);
    forall other | before.Keys + AllCalls(initializers) <= other && AllCallees(p, other) <= other
      ensures after.Keys <= other
    {
      CalleesSplit(p, other);
    }
  }

  /** A function called only in the `next` of a loop is left out. */
  lemma CallInNextIsMissed(after: map<nat, Origin>)
    requires Ran([[For([], [], [Call(1, [])], [])], []], {}, map[0 := FromBase(0)], after)
    ensures after.Keys == {0}
    ensures 1 in AllCallsIn([For([], [], [Call(1, [])], [])])
  {
    var loop := For([], [], [Call(1, [])], []);
    var p: Program := [[loop], []];
    assert [loop][1..] == [] && [Call(1, [])][1..] == [];
    assert AllCalls([Call(1, [])]) == Calls(Call(1, [])) + {} && 1 in Calls(Call(1, []));
    assert AllCollectedIn([loop]) == CollectedIn(loop) + {} == {};
    assert Closed(p, {0});
    assert map[0 := FromBase(0)].Keys == {0};
  }

  /** Where a function of a contract comes from: a base contract, or a call. */
  datatype Origin = FromBase(no: nat) | External

  /** What a run leaves behind, given the functions called by initializers. */
  ghost predicate Ran(p: Program, inits: set<nat>, before: map<nat, Origin>, after: map<nat, Origin>) {
    && IsClosure(p, before.Keys + inits, after.Keys)
    && forall f <- after.Keys ::
         after[f] == if f in before && f !in Callees(p, before.Keys) + inits then before[f] else External
  }

  /**
    A second run finds no new function.  It leaves all origins as they are exactly when no
    function of the contract is called only by functions the first run has added.
  */
  lemma SecondRun(
    p: Program, inits: set<nat>, before: map<nat, Origin>, after: map<nat, Origin>, again: map<nat, Origin>)
    requires Ran(p, inits, before, after) && Ran(p, inits, after, again)
    ensures again.Keys == after.Keys
    ensures again == after <==>
            forall f <- before.Keys ::
              f in Callees(p, after.Keys) && f !in Callees(p, before.Keys) + inits ==> before[f] == External
  {
    assert after.Keys + inits <= after.Keys;
    assert Callees(p, before.Keys) <= Callees(p, after.Keys);
    if forall f <- before.Keys ::
         f in Callees(p, after.Keys) && f !in Callees(p, before.Keys) + inits ==> before[f] == External {
      forall f | f in after.Keys ensures again[f] == after[f] {}
    } else {
      var f :|
        f in before.Keys && f in Callees(p, after.Keys) && f !in Callees(p, before.Keys) + inits &&
        before[f] != External;
      assert f in after.Keys && after[f] == before[f] && again[f] == External;
    }
  }

  ghost predicate Marked(before: map<nat, Origin>, first: set<nat>, after: map<nat, Origin>) {
    && first <= after.Keys
    && forall f <- after.Keys :: after[f] == if f in before && f !in first then before[f] else External
  }

  lemma CalleesOfUnion(p: Program, fs: set<nat>, gs: set<nat>)
    ensures Callees(p, fs + gs) == Callees(p, fs) + Callees(p, gs)
  {}

  lemma CalleesMonotone(p: Program, fs: set<nat>, gs: set<nat>)
    ensures fs <= gs ==> Callees(p, fs) <= Callees(p, gs)
  {}

  /** The functions that are not part of the contract. */
  ghost function Missing(p: Program, fs: set<nat>): set<nat> {
    set f: nat | f < |p| && f !in fs
  }

  lemma MissingShrinks(p: Program, fs: set<nat>, more: set<nat>)
    requires forall f <- more :: f < |p|
    ensures Missing(p, fs + more) <= Missing(p, fs)
    ensures more <= fs || Missing(p, fs + more) != Missing(p, fs)
  {
    if !(more <= fs) {
      var f :| f in more && f !in fs;
      assert f in Missing(p, fs) && f !in Missing(p, fs + more);
    }
  }

  lemma ClosedUpwards(p: Program, fs: set<nat>, other: set<nat>)
    requires fs <= other && Closed(p, other)
    ensures Callees(p, fs) <= other
  {
    assert Callees(p, fs) <= Callees(p, other);
  }

  class Contract {
    const program: Program
    const initializers: seq<Expr>
    var allFunctions: map<nat, Origin>

    constructor (program: Program, initializers: seq<Expr>, own: map<nat, Origin>)
      ensures this.program == program && this.initializers == initializers && allFunctions == own
    {
      this.program, this.initializers, this.allFunctions := program, initializers, own;
    }

    /** The calls in the bodies of some functions, listed without repetition. */
    method CallsOf(fs: set<nat>) returns (calls: set<nat>)
      requires forall f <- fs :: f < |program|
      ensures calls == Callees(program, fs)
      ensures Resolved(program) ==> forall f <- calls :: f < |program|
    {
      calls := {};
      var todo := fs;
      while todo != {}
        invariant todo <= fs
        invariant calls == Callees(program, fs - todo)
        decreases todo
      {
        var f :| f in todo;
        calls := calls + AllCollectedIn(program[f]);
        assert fs - (todo - {f}) == (fs - todo) + {f};
        todo := todo - {f};
      }
      assert fs - todo == fs;
    }

    method AddExternalFunctions()
      requires Resolved(program)
      requires forall f <- allFunctions.Keys :: f < |program|
      requires forall f <- AllCollected(initializers) :: f < |program|
      modifies this`allFunctions
      ensures Ran(program, AllCollected(initializers), old(allFunctions), allFunctions)
    {
      hide Callees, Missing, AllCollected;
      ghost var own, inits := allFunctions.Keys, AllCollected(initializers);
      var callList: set<nat> := CallsOf(allFunctions.Keys);
      callList := callList + AllCollected(initializers);
      ghost var first := callList;
      forall other | own + inits <= other && Closed(program, other) ensures own + callList <= other {
        ClosedUpwards(program, own, other);
      }
      while callList != {}
        invariant own <= allFunctions.Keys && inits <= allFunctions.Keys + callList
        invariant Callees(program, allFunctions.Keys) <= allFunctions.Keys + callList
        invariant forall f <- allFunctions.Keys :: f < |program|
        invariant forall f <- callList :: f < |program|
        invariant forall other ::
                    own + inits <= other && Closed(program, other) ==> allFunctions.Keys + callList <= other
        invariant
          || (allFunctions == old(allFunctions) && callList == first)
          || (callList !! allFunctions.Keys && Marked(old(allFunctions), first, allFunctions))
        decreases Missing(program, allFunctions.Keys), callList
      {
        callList := Round(callList, own + inits);
      }
    }

    /** One round of the loop: what was listed joins the contract, and what that calls is listed. */
    method Round(callList: set<nat>, ghost roots: set<nat>) returns (next: set<nat>)
      requires Resolved(program)
      requires forall f <- callList :: f < |program|
      requires callList != {}
      requires Callees(program, allFunctions.Keys) <= allFunctions.Keys + callList
      requires forall other :: roots <= other && Closed(program, other) ==> allFunctions.Keys + callList <= other
      modifies this`allFunctions
      ensures allFunctions == old(allFunctions) + map f | f in callList :: External
      ensures next !! allFunctions.Keys
      ensures Callees(program, allFunctions.Keys) <= allFunctions.Keys + next
      ensures forall f <- next :: f < |program|
      ensures forall other :: roots <= other && Closed(program, other) ==> allFunctions.Keys + next <= other
      ensures Missing(program, allFunctions.Keys) <= Missing(program, old(allFunctions.Keys))
      ensures Missing(program, allFunctions.Keys) != Missing(program, old(allFunctions.Keys)) || next == {}
    {
      ghost var keys := allFunctions.Keys;
      next := CallsOf(callList);
      allFunctions := allFunctions + map f | f in callList :: External;
      next := next - allFunctions.Keys;
      assert allFunctions.Keys == keys + callList;
      CalleesOfUnion(program, keys, callList);
      MissingShrinks(program, keys, callList);
      CalleesMonotone(program, callList, keys);
      forall other | roots <= other && Closed(program, other) ensures allFunctions.Keys + next <= other {
        ClosedUpwards(program, callList, other);
      }
    }
  }
}
