/**
  From the body of a function to its blocks: the prologue, the resolved body and the
  implicit return, with the theorem that compiled and source function agree on every run.
*/
module Compiler {
  import opened Wrappers
  import opened Ast
  import opened Semantics
  import opened Analysis
  import opened Reachability
  import opened Machine
  import opened Lowering
  import opened Simulation
  import opened ReturnValues

  /** No return value, one named return variable, or one return value without a name. */
  datatype Returns = Void | Named(no: nat) | Anonymous

  /**
    A named return variable starts at zero, and is what is returned where no value is given:
    by falling off the end, and by a `return` without one.
  */
  function ExecFunction(body: Stmt, ret: Returns, st: Store, fuel: nat): Outcome {
    var st0 := if ret.Named? then st[ret.no := 0] else st;
    match Exec(body, st0, fuel)
    case Normal(st1) => Returned(if ret.Named? then Some(Get(st1, ret.no)) else None, st1)
    case Returned(None, st1) => Returned(if ret.Named? then Some(Get(st1, ret.no)) else None, st1)
    case other => other
  }

  /** The emitter may start with pairs that earlier functions have left on its loop stack. */
  function Prologue(ret: Returns, stack: seq<(nat, nat)>): (g: State)
    ensures g.Valid() && g.loops == stack
  {
    var g := State([[]], 0, stack);
    if ret.Named? then g.Emit(Declare(ret.no, None)) else g
  }

  /** The return of a void function is emitted whatever the body ends in. */
  function GenFunction(body: Statement, ret: Returns, stack: seq<(nat, nat)>): seq<Code>
    requires !Jumps(body)
  {
    var g1 := Lower(body, Prologue(ret, stack));
    var g2 := EmitIf(ret.Named? && body.Reachable(), Ret(Some(Variable(if ret.Named? then ret.no else 0))), g1);
    EmitIf(ret.Void?, Ret(None), g2).blocks
  }

  /**
    The bodies the compiler takes through to code it lowers as meant.  It panics where control
    reaches the end of a function whose return value has no name.
  */
  ghost predicate Compilable(body: Stmt, ret: Returns) {
    var r := Resolve(body, false);
    && r.Accepted() && Faithful(r.out[0])
    && (ret.Anonymous? ==> !r.flag)
    && (ret.Void? || !OmitsValue(r.out[0]))
  }

  function Compile(body: Stmt, ret: Returns, stack: seq<(nat, nat)>): seq<Code>
    requires Compilable(body, ret)
  {
    Counted(body, false);
    GenFunction(Resolve(body, false).out[0], ret, stack)
  }

  /** Every run of the source is matched by a run of the code, step count included. */
  lemma Follow(body: Stmt, ret: Returns, stack: seq<(nat, nat)>, st: Store, fuel: nat) returns (n: nat)
    requires Compilable(body, ret)
    ensures
      var d := Run(Compile(body, ret, stack), Running(0, 0, st), n);
      match ExecFunction(body, ret, st, fuel)
      case Returned(v, st1) => d == Halted(v, st1)
      case Trapped => d == Aborted
      case OutOfFuel => n >= fuel && d.Running?
      case _ => false
  {
    hide Lower, Exec, Resolve, Grows, Faithful, Jumps, OmitsValue, GenFunction, Run;
    Counted(body, false);
    FlagIsReachable(body, false);
    var r := Resolve(body, false).out[0];
    var code := Compile(body, ret, stack);
    var g := Prologue(ret, stack);
    var g1 := Lower(r, g);
    BodyWithin(r, ret, stack);
    var st0 := if ret.Named? then st[ret.no := 0] else st;
    var c := Running(0, 0, st);
    var m := if ret.Named? then 1 else 0;
    Stays(code, c);
    if ret.Named? { PrologueRuns(r, ret, stack, code, st); }
    var k := Simulate(body, false, g, code, st0, fuel, 0, 0);
    Sound(body, false, st0, fuel);
    if !ret.Void? { ReturnsHaveValues(body, false, st0, fuel); }
    Chain(code, c, m, Here(g, st0), k, Exec(body, st0, fuel), Exit(g1), 0, 0, fuel);
    n := m + k;
    var o := Exec(body, st0, fuel);
    if o.Normal? {
      ImplicitReturn(r, ret, stack, o.st);
      RunAdd(code, c, n, 1);
      n := n + 1;
    }
  }

  /** The code holds the blocks of the body. */
  lemma BodyWithin(r: Statement, ret: Returns, stack: seq<(nat, nat)>)
    requires !Jumps(r)
    ensures Within(Lower(r, Prologue(ret, stack)).blocks, GenFunction(r, ret, stack))
  {
    hide Lower, Grows;
    var g1 := Lower(r, Prologue(ret, stack));
    var g2 := EmitIf(ret.Named? && r.Reachable(), Ret(Some(Variable(if ret.Named? then ret.no else 0))), g1);
    BlocksWithin(g1, g2, GenFunction(r, ret, stack));
  }

  lemma BlocksWithin(g1: State, g2: State, code: seq<Code>)
    requires g1.Valid() && g2.Valid()
    requires |g2.blocks| == |g1.blocks| && g2.cur == g1.cur
    requires exists op, b :: g2 == EmitIf(b, op, g1)
    requires exists b :: code == EmitIf(b, Ret(None), g2).blocks
    ensures Within(g1.blocks, code)
  {}

  /** What control meets at the end of the body. */
  lemma ImplicitReturn(r: Statement, ret: Returns, stack: seq<(nat, nat)>, st: Store)
    requires !Jumps(r) && r.Reachable() && !ret.Anonymous?
    ensures Run(GenFunction(r, ret, stack), Here(Lower(r, Prologue(ret, stack)), st), 1) ==
            Halted(if ret.Named? then Some(Get(st, ret.no)) else None, st)
  {
    hide Lower, Grows;
    OneStep(GenFunction(r, ret, stack), Here(Lower(r, Prologue(ret, stack)), st));
  }

  lemma PrologueRuns(r: Statement, ret: Returns, stack: seq<(nat, nat)>, code: seq<Code>, st: Store)
    requires ret.Named? && !Jumps(r) && Within(Lower(r, Prologue(ret, stack)).blocks, code)
    ensures Run(code, Running(0, 0, st), 1) == Running(0, 1, st[ret.no := 0])
  {
    var g := Prologue(ret, stack);
    GrowsWithin(g, Lower(r, g), code);
    assert g.blocks[0] <= code[0];
    OneStep(code, Running(0, 0, st));
  }

  ghost predicate SourceEnds(body: Stmt, ret: Returns, st: Store, o: Outcome) {
    exists fuel :: ExecFunction(body, ret, st, fuel) == o
  }

  ghost predicate MachineEnds(code: seq<Code>, st: Store, c: Config) {
    exists n: nat :: Run(code, Running(0, 0, st), n) == c
  }

  /**
    The compiled function halts with a value and a store exactly when the source function
    returns them, aborts exactly when the source traps, and never runs off a block.
  */
  lemma CompileCorrect(body: Stmt, ret: Returns, stack: seq<(nat, nat)>, st: Store)
    requires Compilable(body, ret)
    ensures
      var code := Compile(body, ret, stack);
      && (forall v, st1 :: SourceEnds(body, ret, st, Returned(v, st1)) <==> MachineEnds(code, st, Halted(v, st1)))
      && (SourceEnds(body, ret, st, Trapped) <==> MachineEnds(code, st, Aborted))
      && !MachineEnds(code, st, Stuck)
  {
    var code := Compile(body, ret, stack);
    forall c: Config | c == Stuck || c == Aborted || c.Halted?
      ensures MachineEnds(code, st, c) <==>
              c != Stuck && SourceEnds(body, ret, st, if c.Halted? then Returned(c.v, c.st) else Trapped)
    {
      EndsTogether(body, ret, stack, st, c);
    }
    forall v, st1
      ensures SourceEnds(body, ret, st, Returned(v, st1)) <==> MachineEnds(code, st, Halted(v, st1))
    {
      var c := Halted(v, st1);
      assert MachineEnds(code, st, c) <==> SourceEnds(body, ret, st, Returned(c.v, c.st));
    }
  }

  lemma EndsTogether(body: Stmt, ret: Returns, stack: seq<(nat, nat)>, st: Store, c: Config)
    requires Compilable(body, ret) && (c == Stuck || c == Aborted || c.Halted?)
    ensures MachineEnds(Compile(body, ret, stack), st, c) <==>
            c != Stuck && SourceEnds(body, ret, st, if c.Halted? then Returned(c.v, c.st) else Trapped)
  {
    hide Run, Compile, ExecFunction;
    var code := Compile(body, ret, stack);
    var start := Running(0, 0, st);
    var o := if c.Halted? then Returned(c.v, c.st) else Trapped;
    if MachineEnds(code, st, c) {
      var n: nat :| Run(code, start, n) == c;
      var m := Follow(body, ret, stack, st, n + 1);
      if ExecFunction(body, ret, st, n + 1).OutOfFuel? {
        StillRunning(code, start, n, m);
        assert false;
      }
      OneResult(code, start, n, m);
      assert ExecFunction(body, ret, st, n + 1) == o;
    }
    if c != Stuck && SourceEnds(body, ret, st, o) {
      var fuel :| ExecFunction(body, ret, st, fuel) == o;
      var m := Follow(body, ret, stack, st, fuel);
      assert Run(code, start, m) == c;
    }
  }

  ghost predicate SourceDiverges(body: Stmt, ret: Returns, st: Store) {
    forall fuel: nat :: ExecFunction(body, ret, st, fuel).OutOfFuel?
  }

  ghost predicate MachineDiverges(code: seq<Code>, st: Store) {
    forall n: nat :: Run(code, Running(0, 0, st), n).Running?
  }

  /** And it runs for ever exactly when the source does. */
  lemma DivergesTogether(body: Stmt, ret: Returns, stack: seq<(nat, nat)>, st: Store)
    requires Compilable(body, ret)
    ensures SourceDiverges(body, ret, st) <==> MachineDiverges(Compile(body, ret, stack), st)
  {
    var code := Compile(body, ret, stack);
    var start := Running(0, 0, st);
    if SourceDiverges(body, ret, st) {
      forall n: nat ensures Run(code, start, n).Running? {
        var m := Follow(body, ret, stack, st, n);
        assert ExecFunction(body, ret, st, n).OutOfFuel?;
        StillRunning(code, start, n, m);
      }
    }
    if MachineDiverges(code, st) {
      forall fuel: nat ensures ExecFunction(body, ret, st, fuel).OutOfFuel? {
        var m := Follow(body, ret, stack, st, fuel);
        assert Run(code, start, m).Running?;
      }
    }
  }
}
