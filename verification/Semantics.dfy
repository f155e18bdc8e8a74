/**
  What a program means, independently of how it is compiled: expressions over exact
  integers, statements as a big-step evaluator with the four ways a statement can end.
  `fuel` bounds the number of loop iterations nested on the path; a run that needs more
  ends as `OutOfFuel`, so a program diverges when it is `OutOfFuel` for every fuel.
*/
module Semantics {
  import opened Wrappers
  import opened Field
  import opened Ast

  type Store = map<nat, U32>

  function Get(st: Store, no: nat): U32 { if no in st then st[no] else 0 }

  datatype EvalResult = Value(v: U32, store: Store) | Trap

  function Bit(b: bool): U32 { if b then 1 else 0 }

  /** Booleans are carried as 0 and 1; a branch looks at the lowest bit. */
  predicate Truth(v: U32) { v % 2 == 1 }

  function CompareWords(op: CompareOp, l: nat, r: nat): bool {
    match op
    case More => l > r
    case MoreEqual => l >= r
    case Less => l < r
    case LessEqual => l <= r
    case Equal => l == r
    case NotEqual => l != r
  }

  /** The exact u32 result, or a trap when there is none. */
  function Exact(op: ArithOp, l: U32, r: U32): Option<U32> {
    var x := match op case Add => l + r case Subtract => l - r case Multiply => l * r;
    if 0 <= x < TWO_32 then Some(x) else None
  }

  function Eval(e: Expr, st: Store): EvalResult {
    match e
    case NumberLiteral(v) => Value(v, st)
    case Variable(no) => Value(Get(st, no), st)
    case Assign(no, right) =>
      (match Eval(right, st)
       case Trap => Trap
       case Value(v, st1) => Value(v, st1[no := v]))
    case Arith(op, left, right) =>
      (match Eval(left, st)
       case Trap => Trap
       case Value(l, st1) =>
         match Eval(right, st1)
         case Trap => Trap
         case Value(r, st2) =>
           match Exact(op, l, r)
           case None => Trap
           case Some(x) => Value(x, st2))
    case Compare(op, left, right) =>
      (match Eval(left, st)
       case Trap => Trap
       case Value(l, st1) =>
         match Eval(right, st1)
         case Trap => Trap
         case Value(r, st2) => Value(Bit(CompareWords(op, l, r)), st2))
    case Not(operand) =>
      (match Eval(operand, st)
       case Trap => Trap
       case Value(v, st1) => Value(Bit(v == 0), st1))
  }

  datatype Outcome =
    | Normal(st: Store)
    | Broke(st: Store)
    | Continued(st: Store)
    | Returned(v: Option<U32>, st: Store)
    | Trapped
    | OutOfFuel

  function Exec(s: Stmt, st: Store, fuel: nat): Outcome
    decreases fuel, 1, s
  {
    match s
    case VariableDefinition(no, None) => Normal(st[no := 0])
    case VariableDefinition(no, Some(e)) =>
      (match Eval(e, st)
       case Trap => Trapped
       case Value(v, st1) => Normal(st1[no := v]))
    case Block(ss) => ExecSeq(ss, st, fuel)
    case Break => Broke(st)
    case Continue => Continued(st)
    case While(c, body) => ExecLoop(Some(c), None, Some(body), st, fuel)
    case DoWhile(body, c) => ExecDo(body, c, st, fuel)
    case If(c, thenS, elseS) =>
      (match Eval(c, st)
       case Trap => Trapped
       case Value(v, st1) =>
         if Truth(v) then Exec(thenS, st1, fuel)
         else if elseS.Some? then Exec(elseS.value, st1, fuel)
         else Normal(st1))
    case For(initS, c, next, body) =>
      (match if initS.Some? then Exec(initS.value, st, fuel) else Normal(st)
       case Normal(st1) => ExecLoop(c, next, body, st1, fuel)
       case other => other)
    case Return(None) => Returned(None, st)
    case Return(Some(e)) =>
      (match Eval(e, st)
       case Trap => Trapped
       case Value(v, st1) => Returned(Some(v), st1))
    case Expression(e) =>
      (match Eval(e, st)
       case Trap => Trapped
       case Value(_, st1) => Normal(st1))
    case Args => Trapped
  }

  function ExecSeq(ss: seq<Stmt>, st: Store, fuel: nat): Outcome
    decreases fuel, 1, ss
  {
    if ss == [] then Normal(st)
    else
      match Exec(ss[0], st, fuel)
      case Normal(st1) => ExecSeq(ss[1..], st1, fuel)
      case other => other
  }

  /** `for (; c; next) body`, and `while (c) body` when there is no `next`. */
  function ExecLoop(c: Option<Expr>, next: Option<Expr>, body: Option<Stmt>, st: Store, fuel: nat): Outcome
    decreases fuel, 0
  {
    if fuel == 0 then OutOfFuel
    else
      match if c.Some? then Eval(c.value, st) else Value(1, st)
      case Trap => Trapped
      case Value(v, st1) =>
        if !Truth(v) then Normal(st1)
        else
          match if body.Some? then Exec(body.value, st1, fuel - 1) else Normal(st1)
          case Normal(st2) => ExecNext(c, next, body, st2, fuel - 1)
          case Continued(st2) => ExecNext(c, next, body, st2, fuel - 1)
          case Broke(st2) => Normal(st2)
          case other => other
  }

  function ExecNext(c: Option<Expr>, next: Option<Expr>, body: Option<Stmt>, st: Store, fuel: nat): Outcome
    decreases fuel, 1
  {
    match if next.Some? then Eval(next.value, st) else Value(1, st)
    case Trap => Trapped
    case Value(_, st1) => ExecLoop(c, next, body, st1, fuel)
  }

  function ExecDo(body: Stmt, c: Expr, st: Store, fuel: nat): Outcome
    decreases fuel, 0
  {
    if fuel == 0 then OutOfFuel
    else
      match Exec(body, st, fuel - 1)
      case Normal(st1) => ExecDoCond(body, c, st1, fuel - 1)
      case Continued(st1) => ExecDoCond(body, c, st1, fuel - 1)
      case Broke(st1) => Normal(st1)
      case other => other
  }

  function ExecDoCond(body: Stmt, c: Expr, st: Store, fuel: nat): Outcome
    decreases fuel, 1
  {
    match Eval(c, st)
    case Trap => Trapped
    case Value(v, st1) => if Truth(v) then ExecDo(body, c, st1, fuel) else Normal(st1)
  }
}
