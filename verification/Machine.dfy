/**
  The emitted form: a function is a list of basic blocks, each a list of operations.
  A block that has been finished ends in a terminator; running off the end of a block
  that has none leaves the machine stuck.  Arithmetic is that of the field, followed by
  the range check the compiler emits after it.
*/
module Machine {
  import opened Wrappers
  import opened Field
  import opened Ast
  import opened Semantics

  datatype Op =
    | Evaluate(e: Expr)
    | Declare(no: nat, init: Option<Expr>)
    | Branch(target: nat)
    | CondBranch(cond: Expr, thenB: nat, elseB: nat)
    | Ret(value: Option<Expr>)
  {
    predicate Terminator() { Branch? || CondBranch? || Ret? }
  }

  type Code = seq<Op>

  function FieldOp(op: ArithOp, l: Word, r: Word): Word {
    match op
    case Add => FieldAdd(l, r)
    case Subtract => FieldSub(l, r)
    case Multiply => FieldMul(l, r)
  }

  /** The comparisons of machine words; the emitted code has them for unsigned words only. */
  datatype IntPredicate = EQ | NE | UGT | UGE | ULT | ULE

  function PredicateOf(op: CompareOp): IntPredicate {
    match op
    case Equal => EQ
    case NotEqual => NE
    case More => UGT
    case MoreEqual => UGE
    case Less => ULT
    case LessEqual => ULE
  }

  predicate CompareInts(p: IntPredicate, l: Word, r: Word) {
    match p
    case EQ => l == r
    case NE => l != r
    case UGT => l > r
    case UGE => l >= r
    case ULT => l < r
    case ULE => l <= r
  }

  function EvalEmitted(e: Expr, st: Store): EvalResult {
    match e
    case NumberLiteral(v) => Value(v, st)
    case Variable(no) => Value(Get(st, no), st)
    case Assign(no, right) =>
      (match EvalEmitted(right, st)
       case Trap => Trap
       case Value(v, st1) => Value(v, st1[no := v]))
    case Arith(op, left, right) =>
      (match EvalEmitted(left, st)
       case Trap => Trap
       case Value(l, st1) =>
         match EvalEmitted(right, st1)
         case Trap => Trap
         case Value(r, st2) =>
           var w := FieldOp(op, l, r);
           if RangeCheck(w) then Value(w, st2) else Trap)
    case Compare(op, left, right) =>
      (match EvalEmitted(left, st)
       case Trap => Trap
       case Value(l, st1) =>
         match EvalEmitted(right, st1)
         case Trap => Trap
         case Value(r, st2) => Value(Bit(CompareInts(PredicateOf(op), l, r)), st2))
    case Not(operand) =>
      (match EvalEmitted(operand, st)
       case Trap => Trap
       case Value(v, st1) => Value(Bit(CompareInts(EQ, v, 0)), st1))
  }

  /** Wrapping arithmetic followed by a range check computes the exact u32 result or stops. */
  lemma EmittedIsExact(e: Expr, st: Store)
    ensures EvalEmitted(e, st) == Eval(e, st)
  {
    match e
    case NumberLiteral(_) =>
    case Variable(_) =>
    case Assign(_, right) => EmittedIsExact(right, st);
    case Not(operand) => EmittedIsExact(operand, st);
    case Compare(_, left, right) =>
      EmittedIsExact(left, st);
      if Eval(left, st).Value? { EmittedIsExact(right, Eval(left, st).store); }
    case Arith(op, left, right) =>
      EmittedIsExact(left, st);
      if Eval(left, st).Value? {
        var l := Eval(left, st);
        EmittedIsExact(right, l.store);
        if Eval(right, l.store).Value? {
          CheckedOpIsExact(op, l.v, Eval(right, l.store).v);
        }
      }
  }

  lemma CheckedOpIsExact(op: ArithOp, l: U32, r: U32)
    ensures Exact(op, l, r) == if RangeCheck(FieldOp(op, l, r)) then Some(FieldOp(op, l, r)) else None
  {
    match op
    case Add => AddChecked(l, r);
    case Subtract => SubChecked(l, r);
    case Multiply => MulChecked(l, r);
  }

  datatype Config =
    | Running(block: nat, pc: nat, st: Store)
    | Halted(v: Option<U32>, st: Store)
    | Aborted
    | Stuck

  /** A condition is truncated to its lowest bit. */
  predicate LowBit(w: Word) { w % 2 == 1 }

  function Step(code: seq<Code>, c: Config): Config {
    if !c.Running? then c
    else if c.block >= |code| || c.pc >= |code[c.block]| then Stuck
    else
      match code[c.block][c.pc]
      case Evaluate(e) =>
        (match EvalEmitted(e, c.st)
         case Trap => Aborted
         case Value(_, st1) => Running(c.block, c.pc + 1, st1))
      case Declare(no, init) =>
        (match if init.Some? then EvalEmitted(init.value, c.st) else Value(0, c.st)
         case Trap => Aborted
         case Value(v, st1) => Running(c.block, c.pc + 1, st1[no := v]))
      case Branch(target) => Running(target, 0, c.st)
      case CondBranch(cond, thenB, elseB) =>
        (match EvalEmitted(cond, c.st)
         case Trap => Aborted
         case Value(v, st1) => Running(if LowBit(v) then thenB else elseB, 0, st1))
      case Ret(None) => Halted(None, c.st)
      case Ret(Some(e)) =>
        (match EvalEmitted(e, c.st)
         case Trap => Aborted
         case Value(v, st1) => Halted(Some(v), st1))
  }

  function Run(code: seq<Code>, c: Config, n: nat): Config
    decreases n
  {
    if n == 0 then c else Run(code, Step(code, c), n - 1)
  }

  lemma {:induction false} RunAdd(code: seq<Code>, c: Config, m: nat, n: nat)
    ensures Run(code, c, m + n) == Run(code, Run(code, c, m), n)
    decreases m
  {
    if m > 0 { RunAdd(code, Step(code, c), m - 1, n); }
  }

  lemma {:induction false} RunFinal(code: seq<Code>, c: Config, n: nat)
    requires !c.Running?
    ensures Run(code, c, n) == c
    decreases n
  {
    if n > 0 { RunFinal(code, c, n - 1); }
  }

  /** The machine is deterministic: it has at most one final configuration. */
  lemma OneResult(code: seq<Code>, c: Config, m: nat, n: nat)
    requires !Run(code, c, m).Running? && !Run(code, c, n).Running?
    ensures Run(code, c, m) == Run(code, c, n)
  {
    if m <= n {
      RunAdd(code, c, m, n - m);
      RunFinal(code, Run(code, c, m), n - m);
    } else {
      RunAdd(code, c, n, m - n);
      RunFinal(code, Run(code, c, n), m - n);
    }
  }

  /** While it is running after n steps it was running all along. */
  lemma StillRunning(code: seq<Code>, c: Config, m: nat, n: nat)
    requires m <= n && Run(code, c, n).Running?
    ensures Run(code, c, m).Running?
  {
    RunAdd(code, c, m, n - m);
    if !Run(code, c, m).Running? { RunFinal(code, Run(code, c, m), n - m); }
  }
}
