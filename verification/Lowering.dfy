/**
  Lowering resolved statements to basic blocks.  The emitter has a current block, to which
  operations are appended, and a stack of (break target, continue target) pairs.

  `Lower` gives the emitter's next state as a function of the statement and its state;
  the class `Emitter` works in place, with the loops of the compiler, and is proved to
  compute it.
*/
module Lowering {
  import opened Wrappers
  import opened Ast
  import opened Machine

  datatype State = State(blocks: seq<Code>, cur: nat, loops: seq<(nat, nat)>) {
    ghost predicate Valid() { cur < |blocks| }

    function Emit(op: Op): State
      requires Valid()
    {
      this.(blocks := blocks[cur := blocks[cur] + [op]])
    }

    /** Appends `n` empty basic blocks; the first of them has number `|blocks|`. */
    function Append(n: nat): State {
      this.(blocks := blocks + EmptyBlocks(n))
    }

    function At(b: nat): State { this.(cur := b) }

    function Push(target: (nat, nat)): State { this.(loops := loops + [target]) }

    function Pop(): State
      requires loops != []
    {
      this.(loops := loops[..|loops| - 1])
    }
  }

  function EmptyBlocks(n: nat): (r: seq<Code>)
    ensures |r| == n && forall i :: 0 <= i < n ==> r[i] == []
  {
    if n == 0 then [] else EmptyBlocks(n - 1) + [[]]
  }

  /** Does the statement contain a break or a continue that belongs to a loop around it? */
  predicate Jumps(s: Statement) {
    match s
    case SBreak | SContinue => true
    case SBlock(ss) => JumpsAny(ss)
    case SIf(_, _, t, e) => JumpsAny(t) || JumpsAny(e)
    case SFor(_, init, _, _, _) => JumpsAny(init)
    case _ => false
  }

  predicate JumpsAny(ss: seq<Statement>) {
    ss != [] && (Jumps(ss[0]) || JumpsAny(ss[1..]))
  }

  /**
    What lowering never does to the emitter: shrink the loop stack, touch a block other than
    the current one, take back an operation, or come to rest in somebody else's block.
  */
  ghost predicate Grows(g: State, g': State) {
    && g.Valid() && g'.Valid()
    && |g.blocks| <= |g'.blocks|
    && g.loops <= g'.loops
    && (g'.cur == g.cur || g'.cur >= |g.blocks|)
    && (forall i :: 0 <= i < |g.blocks| && i != g.cur ==> g'.blocks[i] == g.blocks[i])
    && g.blocks[g.cur] <= g'.blocks[g.cur]
  }

  lemma GrowsTo(g: State, g': State)
    requires Grows(g, g')
    ensures |g.blocks| <= |g'.blocks| && (g'.cur == g.cur || |g.blocks| <= g'.cur < |g'.blocks|)
  {}

  lemma GrowsElsewhere(g: State, g': State, b: nat)
    requires Grows(g, g') && b < |g.blocks| && b != g.cur
    ensures |g.blocks| <= |g'.blocks| && g.loops <= g'.loops && g'.blocks[b] == g.blocks[b] && g'.cur != b
  {}

  function Lower(s: Statement, g: State): (g': State)
    requires g.Valid()
    requires Jumps(s) ==> g.loops != []
    ensures g'.Valid() && |g.blocks| <= |g'.blocks|
    ensures Grows(g, g')
    decreases s, 2
  {
    match s
    case SBlock(ss) => LowerBlock(ss, g)
    case SVariableDecl(no, init) => g.Emit(Declare(no, init))
    case SReturn(v) => g.Emit(Ret(v))
    case SExpression(_, e) => g.Emit(Evaluate(e))
    case SBreak => g.Emit(Branch(g.loops[|g.loops| - 1].0))
    case SContinue => g.Emit(Branch(g.loops[|g.loops| - 1].1))
    case SIf(_, _, _, e) => if e == [] then LowerIfThen(s, g) else LowerIfElse(s, g)
    case SWhile(_, _, _) => LowerWhile(s, g)
    case SDoWhile(_, _, _) => LowerDoWhile(s, g)
    case SFor(_, _, c, _, _) => if c.Some? then LowerForCond(s, g) else LowerForEver(s, g)
  }

  /** A block stops being lowered after its first statement that is not reachable at its end. */
  function LowerBlock(ss: seq<Statement>, g: State): (g': State)
    requires g.Valid()
    requires JumpsAny(ss) ==> g.loops != []
    ensures g'.Valid() && |g.blocks| <= |g'.blocks|
    ensures Grows(g, g')
    decreases ss, 0
  {
    if ss == [] then g
    else
      var g1 := Lower(ss[0], g);
      if ss[0].Reachable() then LowerBlock(ss[1..], g1) else g1
  }

  /** The other lists are lowered to their end. */
  function LowerAll(ss: seq<Statement>, g: State): (g': State)
    requires g.Valid()
    requires JumpsAny(ss) ==> g.loops != []
    ensures g'.Valid() && |g.blocks| <= |g'.blocks|
    ensures Grows(g, g')
    decreases ss, 0
  {
    if ss == [] then g else LowerAll(ss[1..], Lower(ss[0], g))
  }

  function EmitIf(b: bool, op: Op, g: State): State
    requires g.Valid()
  {
    if b then g.Emit(op) else g
  }

  /** The current block becomes the `next` block of a loop: the expression, if any, and the branch back. */
  function FillNext(next: Option<Expr>, g: State, target: nat): (g': State)
    requires g.Valid()
    ensures g'.cur == g.cur && g'.loops == g.loops && |g'.blocks| == |g.blocks|
    ensures forall i :: 0 <= i < |g.blocks| && i != g.cur ==> g'.blocks[i] == g.blocks[i]
    ensures g.blocks[g.cur] <= g'.blocks[g.cur]
  {
    (if next.Some? then g.Emit(Evaluate(next.value)) else g).Emit(Branch(target))
  }

  /** The state in which the then-branch is lowered. */
  function ThenEntry(s: Statement, elseB: nat, g: State): State
    requires g.Valid() && s.SIf?
  {
    g.Append(2).Emit(CondBranch(s.cond, |g.blocks|, elseB)).At(|g.blocks|)
  }

  function LowerIfThen(s: Statement, g: State): (g': State)
    requires g.Valid() && s.SIf?
    requires Jumps(s) ==> g.loops != []
    ensures g'.Valid() && |g.blocks| <= |g'.blocks|
    ensures Grows(g, g')
    decreases s, 0
  {
    var endif := |g.blocks| + 1;
    EmitIf(LastReachable(s.thenStmt), Branch(endif), LowerAll(s.thenStmt, ThenEntry(s, endif, g))).At(endif)
  }

  /** The state in which the else-branch is lowered, and the join block if there is one already. */
  function ElseEntry(s: Statement, g: State): (r: (State, Option<nat>))
    requires g.Valid() && s.SIf?
    requires Jumps(s) ==> g.loops != []
    ensures r.0.Valid() && r.0.cur == |g.blocks| + 1 && r.0.blocks[r.0.cur] == []
    ensures r.0.loops == LowerAll(s.thenStmt, ThenEntry(s, |g.blocks| + 1, g)).loops
    ensures g.loops <= r.0.loops
    ensures r.1.Some? == LastReachable(s.thenStmt)
    ensures r.1.Some? ==> |g.blocks| + 1 < r.1.value < |r.0.blocks| && r.0.blocks[r.1.value] == []
    ensures |g.blocks| <= |r.0.blocks| && g.blocks[g.cur] <= r.0.blocks[g.cur]
    ensures forall i :: 0 <= i < |g.blocks| && i != g.cur ==> r.0.blocks[i] == g.blocks[i]
    decreases s, 0
  {
    var g1 := LowerAll(s.thenStmt, ThenEntry(s, |g.blocks| + 1, g));
    ElseKeeps(s, LastReachable(s.thenStmt), g, g1);
    var r := EndIf(LastReachable(s.thenStmt), None, g1);
    (r.0.At(|g.blocks| + 1), r.1)
  }

  /** The then-branch, joined, has left the else-block empty and everything before it alone. */
  lemma ElseKeeps(s: Statement, needed: bool, g: State, g1: State)
    requires g.Valid() && s.SIf? && Grows(ThenEntry(s, |g.blocks| + 1, g), g1)
    ensures
      var (r, join) := EndIf(needed, None, g1);
      && |g.blocks| + 1 < |r.blocks| && r.blocks[|g.blocks| + 1] == []
      && r.loops == g1.loops && g.loops <= r.loops
      && (if needed then join == Some(|g1.blocks|) else join.None?)
      && (join.Some? ==> |g.blocks| + 1 < join.value < |r.blocks| && r.blocks[join.value] == [])
      && g.blocks[g.cur] <= r.blocks[g.cur]
      && forall i :: 0 <= i < |g.blocks| && i != g.cur ==> r.blocks[i] == g.blocks[i]
  {
    hide EndIf;
    assert ThenEntry(s, |g.blocks| + 1, g).blocks[|g.blocks| + 1] == [];
    EndIfKeeps(needed, None, g1);
  }

  function LowerIfElse(s: Statement, g: State): (g': State)
    requires g.Valid() && s.SIf?
    requires Jumps(s) ==> g.loops != []
    ensures g'.Valid() && |g.blocks| <= |g'.blocks|
    ensures Grows(g, g')
    decreases s, 1
  {
    hide EndIf;
    var r := ElseEntry(s, g);
    var g1 := LowerAll(s.elseStmt, r.0);
    EndIfKeeps(LastReachable(s.elseStmt), r.1, g1);
    var r' := EndIf(LastReachable(s.elseStmt), r.1, g1);
    if r'.1.Some? then r'.0.At(r'.1.value) else r'.0
  }

  /** The join block is made by the first branch that needs it. */
  function EndIf(needed: bool, endif: Option<nat>, g: State): (State, Option<nat>)
    requires g.Valid()
  {
    if !needed then (g, endif)
    else if endif.Some? then (g.Emit(Branch(endif.value)), endif)
    else (g.Append(1).Emit(Branch(|g.blocks|)), Some(|g.blocks|))
  }

  /** Joining adds to the current block, and perhaps an empty block at the end. */
  lemma EndIfKeeps(needed: bool, endif: Option<nat>, g: State)
    requires g.Valid()
    ensures
      var r := EndIf(needed, endif, g);
      && r.0.Valid() && r.0.cur == g.cur && r.0.loops == g.loops && |g.blocks| <= |r.0.blocks|
      && (forall i :: 0 <= i < |g.blocks| && i != g.cur ==> r.0.blocks[i] == g.blocks[i])
      && g.blocks[g.cur] <= r.0.blocks[g.cur]
      && (if needed && endif.None?
          then r.1 == Some(|g.blocks|) && |g.blocks| < |r.0.blocks| && r.0.blocks[|g.blocks|] == []
          else r.1 == endif)
  {}

  /** The state in which the body of a while loop is lowered. */
  function WhileBody(s: Statement, g: State): (g': State)
    requires g.Valid() && s.SWhile?
    ensures g'.cur == |g.blocks| && |g'.blocks| == |g.blocks| + 3 && g'.loops != []
    ensures g'.loops == g.loops + [(|g.blocks| + 2, |g.blocks| + 1)]
    ensures g'.blocks[|g.blocks|] == g'.blocks[|g.blocks| + 2] == []
    ensures g'.blocks[|g.blocks| + 1] == [CondBranch(s.cond, |g.blocks|, |g.blocks| + 2)]
    ensures g'.blocks[g.cur] == g.blocks[g.cur] + [Branch(|g.blocks| + 1)]
    ensures forall i :: 0 <= i < |g.blocks| && i != g.cur ==> g'.blocks[i] == g.blocks[i]
  {
    var bodyB, condB, end := |g.blocks|, |g.blocks| + 1, |g.blocks| + 2;
    g.Append(3).Emit(Branch(condB)).At(condB).Emit(CondBranch(s.cond, bodyB, end)).At(bodyB).Push((end, condB))
  }

  function LowerWhile(s: Statement, g: State): (g': State)
    requires g.Valid() && s.SWhile?
    ensures g'.Valid() && |g.blocks| <= |g'.blocks|
    ensures Grows(g, g')
    decreases s, 0
  {
    var condB, end := |g.blocks| + 1, |g.blocks| + 2;
    EmitIf(LastReachable(s.body), Branch(condB), LowerAll(s.body, WhileBody(s, g))).Pop().At(end)
  }

  function DoWhileBody(s: Statement, g: State): (g': State)
    requires g.Valid() && s.SDoWhile?
    ensures g'.cur == |g.blocks| && |g'.blocks| == |g.blocks| + 3 && g'.loops != []
    ensures g'.loops == g.loops + [(|g.blocks| + 2, |g.blocks| + 1)]
    ensures forall i :: |g.blocks| <= i < |g'.blocks| ==> g'.blocks[i] == []
    ensures g'.blocks[g.cur] == g.blocks[g.cur] + [Branch(|g.blocks|)]
    ensures forall i :: 0 <= i < |g.blocks| && i != g.cur ==> g'.blocks[i] == g.blocks[i]
  {
    var bodyB, condB, end := |g.blocks|, |g.blocks| + 1, |g.blocks| + 2;
    g.Append(3).Emit(Branch(bodyB)).At(bodyB).Push((end, condB))
  }

  /** The pair pushed for a do-while is not popped. */
  function LowerDoWhile(s: Statement, g: State): (g': State)
    requires g.Valid() && s.SDoWhile?
    ensures g'.Valid() && |g.blocks| <= |g'.blocks|
    ensures Grows(g, g')
    decreases s, 0
  {
    var bodyB, condB, end := |g.blocks|, |g.blocks| + 1, |g.blocks| + 2;
    var g1 := EmitIf(LastReachable(s.body), Branch(condB), LowerAll(s.body, DoWhileBody(s, g)));
    g1.At(condB).Emit(CondBranch(s.cond, bodyB, end)).At(end)
  }

  function LowerForCond(s: Statement, g: State): (g': State)
    requires g.Valid() && s.SFor? && s.condE.Some?
    requires Jumps(s) ==> g.loops != []
    ensures g'.Valid() && |g.blocks| <= |g'.blocks|
    ensures Grows(g, g')
    decreases s, 1
  {
    ForCondLoop(s, |g.blocks|, LowerAll(s.init, g.Append(4)))
  }

  function ForBody(s: Statement, condB: nat, g: State): (g': State)
    requires g.Valid() && s.SFor? && s.condE.Some? && condB + 3 < |g.blocks|
    ensures g'.cur == condB + 1 && |g'.blocks| == |g.blocks| && g'.loops != []
    ensures g'.loops == g.loops + [(condB + 3, condB + 2)]
  {
    var bodyB, nextB, end := condB + 1, condB + 2, condB + 3;
    g.Emit(Branch(condB)).At(condB).Emit(CondBranch(s.condE.value, bodyB, end)).At(bodyB).Push((end, nextB))
  }

  /** The loop itself, once its four blocks exist and the initializer is lowered. */
  function ForCondLoop(s: Statement, condB: nat, g: State): (g': State)
    requires g.Valid() && s.SFor? && s.condE.Some?
    requires condB + 3 < |g.blocks|
    requires g.cur < condB || g.cur > condB + 3
    ensures g'.Valid() && |g.blocks| <= |g'.blocks| && g'.cur == condB + 3 && g.loops <= g'.loops
    ensures forall i :: 0 <= i < condB && i != g.cur ==> g'.blocks[i] == g.blocks[i]
    ensures g.blocks[g.cur] <= g'.blocks[g.cur]
    decreases s, 0
  {
    hide Grows;
    var nextB, end := condB + 2, condB + 3;
    var g2 := EmitIf(LastReachable(s.body), Branch(nextB), LowerAll(s.body, ForBody(s, condB, g))).Pop().At(nextB);
    FillNext(s.next, g2, condB).At(end)
  }

  function ForEverBody(s: Statement, g: State): (g': State)
    requires g.Valid() && s.SFor?
    requires Jumps(s) ==> g.loops != []
    ensures g'.cur == |g.blocks| && |g'.blocks| >= |g.blocks| + 3 && g'.loops != []
    ensures g'.loops == LowerAll(s.init, g.Append(3)).loops +
                        [(|g.blocks| + 2, if s.next.None? then |g.blocks| else |g.blocks| + 1)]
    ensures
      var g1 := LowerAll(s.init, g.Append(3));
      |g'.blocks| == |g1.blocks| && g'.blocks[g1.cur] == g1.blocks[g1.cur] + [Branch(|g.blocks|)]
    ensures forall i :: |g.blocks| <= i < |g.blocks| + 3 ==> g'.blocks[i] == []
    ensures g.blocks[g.cur] <= g'.blocks[g.cur]
    ensures forall i :: 0 <= i < |g.blocks| && i != g.cur ==> g'.blocks[i] == g.blocks[i]
    decreases s, 0
  {
    hide Grows;
    var bodyB, nextB, end := |g.blocks|, |g.blocks| + 1, |g.blocks| + 2;
    var g1 := LowerAll(s.init, g.Append(3)).Emit(Branch(bodyB)).At(bodyB);
    g1.Push((end, if s.next.None? then bodyB else nextB))
  }

  /** Without a condition the `next` block is only filled when the end of the body is reachable. */
  function LowerForEver(s: Statement, g: State): (g': State)
    requires g.Valid() && s.SFor?
    requires Jumps(s) ==> g.loops != []
    ensures g'.Valid() && |g.blocks| <= |g'.blocks|
    ensures Grows(g, g')
    decreases s, 1
  {
    var bodyB, gb := |g.blocks|, ForEverBody(s, g);
    var g1 := LowerAll(s.body, gb);
    ForEverGrows(s, g, gb, g1);
    CloseForEver(s, bodyB, EmitIf(LastReachable(s.body), Branch(bodyB + 1), g1))
  }

  lemma ForEverGrows(s: Statement, g: State, gb: State, g1: State)
    requires s.SFor? && g.Valid() && gb.cur == |g.blocks| && |gb.blocks| >= |g.blocks| + 3
    requires gb.loops != [] && g.loops <= gb.loops[..|gb.loops| - 1]
    requires g.blocks[g.cur] <= gb.blocks[g.cur]
    requires forall i :: 0 <= i < |g.blocks| && i != g.cur ==> gb.blocks[i] == g.blocks[i]
    requires Grows(gb, g1)
    ensures
      var g2 := EmitIf(LastReachable(s.body), Branch(|g.blocks| + 1), g1);
      && g2.loops != [] && |g.blocks| + 2 < |g2.blocks|
      && Grows(g, CloseForEver(s, |g.blocks|, g2))
  {
    hide CloseForEver, LastReachable;
  }

  function CloseForEver(s: Statement, bodyB: nat, g: State): (g': State)
    requires s.SFor? && g.loops != [] && bodyB + 2 < |g.blocks|
    ensures g'.cur == bodyB + 2 && |g'.blocks| == |g.blocks| && g'.loops == g.loops[..|g.loops| - 1]
    ensures forall i :: 0 <= i < |g.blocks| && i != bodyB + 1 ==> g'.blocks[i] == g.blocks[i]
    ensures g.blocks[bodyB + 1] <= g'.blocks[bodyB + 1]
  {
    (if LastReachable(s.body) then FillNext(s.next, g.Pop().At(bodyB + 1), bodyB) else g.Pop()).At(bodyB + 2)
  }
}
