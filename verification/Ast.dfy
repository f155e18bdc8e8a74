/**
  The statement trees on both sides of semantic analysis: what the parser hands over
  (`Stmt`) and what the resolver pushes (`Statement`).  Expressions are the
  value-type fragment: literals, variables, assignment and checked u32 arithmetic.
*/
module Ast {
  import opened Wrappers
  import opened Field

  datatype ArithOp = Add | Subtract | Multiply

  datatype CompareOp = More | MoreEqual | Less | LessEqual | Equal | NotEqual

  datatype Expr =
    | NumberLiteral(value: U32)
    | Variable(no: nat)
    | Assign(target: nat, right: Expr)
    | Arith(aop: ArithOp, left: Expr, right: Expr)
    | Compare(cop: CompareOp, left: Expr, right: Expr)
    | Not(operand: Expr)

  /** A parsed statement; variables have already been given their numbers. */
  datatype Stmt =
    | VariableDefinition(no: nat, init: Option<Expr>)
    | Block(stmts: seq<Stmt>)
    | Break
    | Continue
    | While(cond: Expr, body: Stmt)
    | DoWhile(body: Stmt, cond: Expr)
    | If(cond: Expr, thenS: Stmt, elseS: Option<Stmt>)
    | For(initS: Option<Stmt>, condE: Option<Expr>, next: Option<Expr>, bodyS: Option<Stmt>)
    | Return(value: Option<Expr>)
    | Expression(e: Expr)
    | Args

  /** A resolved statement, with the reachability flag the resolver computed for it. */
  datatype Statement =
    | SBlock(statements: seq<Statement>)
    | SVariableDecl(no: nat, initE: Option<Expr>)
    | SIf(flag: bool, cond: Expr, thenStmt: seq<Statement>, elseStmt: seq<Statement>)
    | SWhile(flag: bool, cond: Expr, body: seq<Statement>)
    | SFor(flag: bool, init: seq<Statement>, condE: Option<Expr>, next: Option<Expr>, body: seq<Statement>)
    | SDoWhile(flag: bool, body: seq<Statement>, cond: Expr)
    | SExpression(flag: bool, e: Expr)
    | SContinue
    | SBreak
    | SReturn(value: Option<Expr>)
  {
    /** Does control reach the statement after this one? */
    predicate Reachable() {
      match this
      case SBlock(ss) => forall i :: 0 <= i < |ss| ==> ss[i].Reachable()
      case SVariableDecl(_, _) => true
      case SContinue | SBreak | SReturn(_) => false
      case SIf(flag, _, _, _) => flag
      case SWhile(flag, _, _) => flag
      case SFor(flag, _, _, _, _) => flag
      case SDoWhile(flag, _, _) => flag
      case SExpression(flag, _) => flag
    }
  }

  /** The reachability left behind by lowering a whole list: that of its last member. */
  predicate LastReachable(ss: seq<Statement>) {
    ss == [] || ss[|ss| - 1].Reachable()
  }
}
