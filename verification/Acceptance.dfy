/**
  Which programs the resolver accepts, and what it finds out about them, read off the parsed
  tree alone: where the end of a statement is reached, which breaks and continues belong to
  the loop around it, and which blocks go on after their end cannot be reached.
*/
module Acceptance {
  import opened Wrappers
  import opened Ast
  import opened Analysis

  /** Is the end of the statement reached, as far as the compiler looks? */
  predicate EndReached(s: Stmt) {
    match s
    case Block(ss) => ss == [] || EndReached(ss[|ss| - 1])
    case If(_, thenS, elseS) => EndReached(thenS) || EndReachedOpt(elseS)
    case For(_, c, _, body) => c.Some? || BreaksOpt(body) > 0
    case Break | Continue | Return(_) | Args => false
    case VariableDefinition(_, _) | Expression(_) | While(_, _) | DoWhile(_, _) => true
  }

  predicate EndReachedOpt(s: Option<Stmt>) { s.Some? ==> EndReached(s.value) }

  /** The breaks that belong to the loop around the statement. */
  function Breaks(s: Stmt): nat {
    match s
    case Break => 1
    case Block(ss) => BreaksAll(ss)
    case If(_, thenS, elseS) => Breaks(thenS) + BreaksOpt(elseS)
    case For(initS, _, _, _) => BreaksOpt(initS)
    case _ => 0
  }

  function BreaksOpt(s: Option<Stmt>): nat { if s.Some? then Breaks(s.value) else 0 }

  function BreaksAll(ss: seq<Stmt>): nat {
    if ss == [] then 0 else Breaks(ss[0]) + BreaksAll(ss[1..])
  }

  /** And the continues. */
  function Continues(s: Stmt): nat {
    match s
    case Continue => 1
    case Block(ss) => ContinuesAll(ss)
    case If(_, thenS, elseS) => Continues(thenS) + ContinuesOpt(elseS)
    case For(initS, _, _, _) => ContinuesOpt(initS)
    case _ => 0
  }

  function ContinuesOpt(s: Option<Stmt>): nat { if s.Some? then Continues(s.value) else 0 }

  function ContinuesAll(ss: seq<Stmt>): nat {
    if ss == [] then 0 else Continues(ss[0]) + ContinuesAll(ss[1..])
  }

  /** Every break and continue is in a loop, and no arguments stand where a statement should. */
  predicate NothingStray(s: Stmt, inLoop: bool) {
    match s
    case Break | Continue => inLoop
    case Args => false
    case Block(ss) => NothingStrayIn(ss, inLoop)
    case While(_, body) => NothingStray(body, true)
    case DoWhile(body, _) => NothingStray(body, true)
    case If(_, thenS, elseS) => NothingStray(thenS, inLoop) && (elseS.Some? ==> NothingStray(elseS.value, inLoop))
    case For(initS, _, _, body) =>
      && (initS.Some? ==> NothingStray(initS.value, inLoop))
      && (body.Some? ==> NothingStray(body.value, true))
    case _ => true
  }

  predicate NothingStrayIn(ss: seq<Stmt>, inLoop: bool) {
    forall i :: 0 <= i < |ss| ==> NothingStray(ss[i], inLoop)
  }

  /** The blocks in which some statement follows one whose end is not reached. */
  function DeadBlocks(s: Stmt): nat {
    match s
    case Block(ss) => (if GoesOnDead(ss) then 1 else 0) + DeadBlocksAll(ss)
    case While(_, body) => DeadBlocks(body)
    case DoWhile(body, _) => DeadBlocks(body)
    case If(_, thenS, elseS) => DeadBlocks(thenS) + DeadBlocksOpt(elseS)
    case For(initS, _, _, body) => DeadBlocksOpt(initS) + DeadBlocksOpt(body)
    case _ => 0
  }

  predicate GoesOnDead(ss: seq<Stmt>) {
    exists i :: 0 <= i < |ss| - 1 && !EndReached(ss[i])
  }

  function DeadBlocksOpt(s: Option<Stmt>): nat { if s.Some? then DeadBlocks(s.value) else 0 }

  function DeadBlocksAll(ss: seq<Stmt>): nat {
    if ss == [] then 0 else DeadBlocks(ss[0]) + DeadBlocksAll(ss[1..])
  }

  /** Nothing is stray, and no statement of a block follows one whose end is not reached. */
  predicate WellPlaced(s: Stmt, inLoop: bool) {
    match s
    case Break | Continue => inLoop
    case Args => false
    case Block(ss) =>
      && (forall i :: 0 <= i < |ss| ==> WellPlaced(ss[i], inLoop))
      && (forall i :: 0 <= i < |ss| - 1 ==> EndReached(ss[i]))
    case While(_, body) => WellPlaced(body, true)
    case DoWhile(body, _) => WellPlaced(body, true)
    case If(_, thenS, elseS) => WellPlaced(thenS, inLoop) && (elseS.Some? ==> WellPlaced(elseS.value, inLoop))
    case For(initS, _, _, body) =>
      && (initS.Some? ==> WellPlaced(initS.value, inLoop))
      && (body.Some? ==> WellPlaced(body.value, true))
    case _ => true
  }

  /** What was found out is what the tree says. */
  ghost predicate FoundOut(r: Resolution, resolved: bool, flag: bool, breaks: nat, continues: nat, errors: nat) {
    && r.Resolved? == resolved
    && (resolved ==> r.flag == flag && r.breaks == breaks && r.continues == continues && r.errors == errors)
  }

  /**
    Resolving fails exactly at something stray, and otherwise computes exactly these attributes;
    the errors it reports are one for every block that goes on after its end cannot be reached.
  */
  lemma {:induction false} ResolvesExactly(s: Stmt, inLoop: bool)
    ensures FoundOut(Resolve(s, inLoop), NothingStray(s, inLoop), EndReached(s), Breaks(s), Continues(s), DeadBlocks(s))
    decreases s, 1
  {
    match s
    case Block(ss) =>
      ResolvesSeq(ss, inLoop, true, false);
    case While(_, body) => ResolvesExactly(body, true);
    case DoWhile(body, _) => ResolvesExactly(body, true);
    case If(_, _, _) => ResolvesIf(s, inLoop);
    case For(_, _, _, _) => ResolvesFor(s, inLoop);
    case _ =>
  }

  lemma {:induction false} ResolvesIf(s: Stmt, inLoop: bool)
    requires s.If?
    ensures FoundOut(Resolve(s, inLoop), NothingStray(s, inLoop), EndReached(s), Breaks(s), Continues(s), DeadBlocks(s))
    decreases s, 0
  {
    ResolvesExactly(s.thenS, inLoop);
    if s.elseS.Some? { ResolvesExactly(s.elseS.value, inLoop); }
  }

  lemma {:induction false} ResolvesFor(s: Stmt, inLoop: bool)
    requires s.For?
    ensures FoundOut(Resolve(s, inLoop), NothingStray(s, inLoop), EndReached(s), Breaks(s), Continues(s), DeadBlocks(s))
    decreases s, 0
  {
    if s.initS.Some? { ResolvesExactly(s.initS.value, inLoop); }
    if s.bodyS.Some? { ResolvesExactly(s.bodyS.value, true); }
  }

  /** `reachable` is the flag of the statement before; the error of a block is reported once. */
  lemma {:induction false} ResolvesSeq(ss: seq<Stmt>, inLoop: bool, reachable: bool, already: bool)
    ensures
      var dead := ss != [] && (!reachable || GoesOnDead(ss));
      FoundOut(ResolveSeq(ss, inLoop, reachable, already),
               NothingStrayIn(ss, inLoop),
               if ss == [] then reachable else EndReached(ss[|ss| - 1]),
               BreaksAll(ss), ContinuesAll(ss), (if dead && !already then 1 else 0) + DeadBlocksAll(ss))
    decreases ss, 0
  {
    hide Resolve, NothingStray, NothingStrayIn, EndReached, Breaks, Continues, DeadBlocks, GoesOnDead;
    if ss == [] {
      NoneDead(inLoop);
    } else {
      ResolvesExactly(ss[0], inLoop);
      ResolvesSeq(ss[1..], inLoop, EndReached(ss[0]), already || !reachable);
      NothingStrayFirst(ss, inLoop);
      DeadFirst(ss);
    }
  }

  lemma NothingStrayFirst(ss: seq<Stmt>, inLoop: bool)
    requires ss != []
    ensures NothingStrayIn(ss, inLoop) <==> NothingStray(ss[0], inLoop) && NothingStrayIn(ss[1..], inLoop)
  {
    assert forall i :: 0 < i < |ss| ==> ss[i] == ss[1..][i - 1];
    assert forall j :: 0 <= j < |ss| - 1 ==> ss[1..][j] == ss[j + 1];
  }

  lemma NoneDead(inLoop: bool)
    ensures !GoesOnDead([]) && NothingStrayIn([], inLoop)
  {}

  lemma DeadFirst(ss: seq<Stmt>)
    requires ss != []
    ensures GoesOnDead(ss) <==> ss[1..] != [] && (!EndReached(ss[0]) || GoesOnDead(ss[1..]))
  {
    var rest := ss[1..];
    if i :| 0 <= i < |ss| - 1 && !EndReached(ss[i]) {
      assert i > 0 ==> ss[i] == rest[i - 1];
    }
    if j :| 0 <= j < |rest| - 1 && !EndReached(rest[j]) {
      assert rest[j] == ss[j + 1];
    }
  }

  lemma {:induction false} WellPlacedIs(s: Stmt, inLoop: bool)
    ensures WellPlaced(s, inLoop) <==> NothingStray(s, inLoop) && DeadBlocks(s) == 0
    decreases s, 1
  {
    match s
    case Block(ss) =>
      WellPlacedAll(ss, inLoop);
    case While(_, body) => WellPlacedIs(body, true);
    case DoWhile(body, _) => WellPlacedIs(body, true);
    case If(_, thenS, elseS) =>
      WellPlacedIs(thenS, inLoop);
      if elseS.Some? { WellPlacedIs(elseS.value, inLoop); }
    case For(initS, _, _, body) =>
      if initS.Some? { WellPlacedIs(initS.value, inLoop); }
      if body.Some? { WellPlacedIs(body.value, true); }
    case _ =>
  }

  lemma {:induction false} WellPlacedAll(ss: seq<Stmt>, inLoop: bool)
    ensures (forall i :: 0 <= i < |ss| ==> WellPlaced(ss[i], inLoop)) <==>
            NothingStrayIn(ss, inLoop) && DeadBlocksAll(ss) == 0
    decreases ss, 0
  {
    if ss != [] {
      var rest := ss[1..];
      WellPlacedIs(ss[0], inLoop);
      WellPlacedAll(rest, inLoop);
      assert forall i :: 0 < i < |ss| ==> ss[i] == rest[i - 1];
      assert forall j :: 0 <= j < |rest| ==> rest[j] == ss[j + 1];
    }
  }

  /** A statement is accepted exactly when it is well placed, and the flag then says whether its end is reached. */
  lemma AcceptedExactly(s: Stmt, inLoop: bool)
    ensures Resolve(s, inLoop).Accepted() <==> WellPlaced(s, inLoop)
    ensures Resolve(s, inLoop).Resolved? ==> Resolve(s, inLoop).flag == EndReached(s)
  {
    ResolvesExactly(s, inLoop);
    WellPlacedIs(s, inLoop);
  }

  /** The `next` of a loop is kept exactly where an iteration can get there, as far as the compiler looks. */
  lemma NextKeptExactly(s: Stmt, inLoop: bool)
    requires s.For? && NothingStray(s, inLoop)
    ensures
      var r := Resolve(s, inLoop);
      r.Resolved? && r.out[0].SFor? &&
      r.out[0].next == if s.condE.None? || EndReachedOpt(s.bodyS) || ContinuesOpt(s.bodyS) > 0 then s.next else None
  {
    ResolvesExactly(s, inLoop);
    if s.bodyS.Some? { ResolvesExactly(s.bodyS.value, true); }
  }
}
