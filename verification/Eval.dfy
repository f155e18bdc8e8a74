/**
  The two compile-time evaluators: `EvalConst`, used where the language demands a constant,
  and `Fold`, used to look for overflow in constant parts of ordinary expressions.  Numbers
  are unbounded.
*/
module Eval {
  import opened Wrappers
  import opened Field
  import opened Numbers

  datatype BinaryOp =
    | Add | Subtract | Multiply | Divide | Modulo
    | BitwiseAnd | BitwiseOr | BitwiseXor
    | Power | ShiftLeft | ShiftRight

  datatype Expression =
    | NumberLiteral(value: int)
    | Binary(op: BinaryOp, left: Expression, right: Expression)
    | ZeroExt(expr: Expression)
    | Cast(expr: Expression)
    | Not(expr: Expression)
    | BitwiseNot(expr: Expression)
    | ConstantVariable(initializer: Option<Expression>)
    | Other

  // ----- arithmetic on big integers -----

  /** Division rounds towards zero, and the remainder has the sign of the dividend. */
  function TruncatedDiv(a: int, b: int): int
    requires b != 0
  {
    if a >= 0 then a / b else -((-a) / b)
  }

  function TruncatedMod(a: int, b: int): int
    requires b != 0
  {
    a - b * TruncatedDiv(a, b)
  }

  function Magnitude(x: int): nat { if x < 0 then -x - 1 else x }

  /** Bit by bit, on two's complement numbers that go on for ever to the left. */
  function Bitwise(op: BinaryOp, x: int, y: int): int
    decreases Magnitude(x) + Magnitude(y)
  {
    var bit := BitOf(op, x % 2, y % 2);
    if -1 <= x <= 0 && -1 <= y <= 0 then -bit else 2 * Bitwise(op, x / 2, y / 2) + bit
  }

  function BitOf(op: BinaryOp, x: int, y: int): int {
    match op
    case BitwiseAnd => if x == 1 && y == 1 then 1 else 0
    case BitwiseOr => if x == 1 || y == 1 then 1 else 0
    case _ => if x != y then 1 else 0
  }

  /** Digit i of a number, counted from the right. */
  function BitAt(x: int, i: nat): int { x / Pow(2, i) % 2 }

  /** The operators work on every digit by itself. */
  lemma {:induction false} BitwiseAt(op: BinaryOp, x: int, y: int, i: nat)
    ensures BitAt(Bitwise(op, x, y), i) == BitOf(op, BitAt(x, i), BitAt(y, i))
    decreases i
  {
    hide Bitwise, BitOf;
    var b := Bitwise(op, x, y);
    BitwiseStep(op, x, y);
    if i > 0 {
      BitwiseAt(op, x / 2, y / 2, i - 1);
      NextBit(b, i);
      NextBit(x, i);
      NextBit(y, i);
    }
  }

  lemma BitwiseStep(op: BinaryOp, x: int, y: int)
    ensures Bitwise(op, x, y) % 2 == BitOf(op, x % 2, y % 2) && Bitwise(op, x, y) / 2 == Bitwise(op, x / 2, y / 2)
  {}

  lemma NextBit(x: int, i: nat)
    requires i > 0
    ensures BitAt(x, i) == BitAt(x / 2, i - 1)
  {
    var d := Pow(2, i - 1);
    var q, r := x / 2 / d, x / 2 % d;
    assert x == 2 * (q * d + r) + x % 2;
    FloorOf(x, 2 * d, q, 2 * r + x % 2);
  }

  lemma FloorOf(x: int, d: int, q: int, r: int)
    requires d > 0 && x == q * d + r && 0 <= r < d
    ensures x / d == q
  {
    var k := x / d - q;
    assert x == (x / d) * d + x % d;
    assert k * d == r - x % d;
    Gap(k, d);
  }

  /** `!` turns every digit over. */
  lemma ComplementAt(x: int, i: nat)
    ensures BitAt(-x - 1, i) == 1 - BitAt(x, i)
  {
    var d := Pow(2, i);
    var q, r := x / d, x % d;
    assert x == q * d + r && -x - 1 == (-q - 1) * d + (d - 1 - r);
    FloorOf(-x - 1, d, -q - 1, d - 1 - r);
  }

  /** Quotient and remainder of a division that rounds towards zero. */
  lemma TruncatedExact(a: int, b: int)
    requires b != 0
    ensures a == b * TruncatedDiv(a, b) + TruncatedMod(a, b)
    ensures -(if b > 0 then b else -b) < TruncatedMod(a, b) < (if b > 0 then b else -b)
    ensures TruncatedMod(a, b) != 0 ==> (TruncatedMod(a, b) > 0 <==> a > 0)
  {
    hide TruncatedDiv, TruncatedMod;
    var q := TruncatedDiv(a, b);
    RoundsTowardsZero(a, b);
    assert TruncatedMod(a, b) == a - b * q by { RemainderIs(a, b); }
  }

  lemma RemainderIs(a: int, b: int)
    requires b != 0
    ensures TruncatedMod(a, b) == a - b * TruncatedDiv(a, b)
  {}

  lemma RoundsTowardsZero(a: int, b: int)
    requires b != 0
    ensures
      var r := a - b * TruncatedDiv(a, b);
      if a >= 0 then 0 <= r < (if b > 0 then b else -b) else -(if b > 0 then b else -b) < r <= 0
  {
    if a >= 0 {
      DividedBy(a, b);
    } else {
      DividedBy(-a, b);
      NegatedQuotient(a, b, -a / b);
    }
  }

  lemma NegatedQuotient(a: int, b: int, q: int)
    requires 0 <= -a - b * q < if b > 0 then b else -b
    ensures -(if b > 0 then b else -b) < a - b * -q <= 0
  {
    Negated(b, q);
  }

  lemma DividedBy(a: int, b: int)
    requires b != 0
    ensures 0 <= a - b * (a / b) < if b > 0 then b else -b
  {
    assert a == b * (a / b) + a % b;
  }

  lemma Negated(a: int, b: int)
    ensures a * -b == -(a * b)
  {}

  const TWO_16: nat := 0x1_0000
  const TWO_64: nat := 0x1_0000_0000_0000_0000

  /** The value of an operator, or nothing where the evaluator reports an error.  A right shift rounds down. */
  function Operate(op: BinaryOp, l: int, r: int): Option<int> {
    match op
    case Add => Some(l + r)
    case Subtract => Some(l - r)
    case Multiply => Some(l * r)
    case Divide => if r == 0 then None else Some(TruncatedDiv(l, r))
    case Modulo => if r == 0 then None else Some(TruncatedMod(l, r))
    case Power => if r < 0 then None else Some(Pow(l, r))
    case ShiftLeft => if 0 <= r < TWO_64 then Some(l * Pow(2, r)) else None
    case ShiftRight => if 0 <= r < TWO_64 then Some(l / Pow(2, r)) else None
    case _ => Some(Bitwise(op, l, r))
  }

  // ----- the evaluators -----

  function EvalConst(e: Expression): Option<int> {
    match e
    case NumberLiteral(v) => Some(v)
    case Binary(op, left, right) =>
      (match (EvalConst(left), EvalConst(right))
       case (Some(l), Some(r)) => Operate(op, l, r)
       case _ => None)
    case ZeroExt(e1) => EvalConst(e1)
    case Cast(e1) => EvalConst(e1)
    case Not(e1) => (match EvalConst(e1) case Some(v) => Some(-v - 1) case None => None)
    case BitwiseNot(e1) => (match EvalConst(e1) case Some(v) => Some(-v - 1) case None => None)
    case ConstantVariable(Some(init)) => EvalConst(init)
    case ConstantVariable(None) => None
    case Other => None
  }

  /** Does the checked value need more bits than there are?  Negative values never fit. */
  predicate FitsUint(v: int, bits: nat) {
    v >= 0 && Bits(v) <= bits
  }

  function Bits(v: nat): nat {
    if v == 0 then 0 else 1 + Bits(v / 2)
  }

  /** What folding makes of an operator on two literals; false says that the search stops here. */
  function FoldOperate(op: BinaryOp, l: int, r: int): (Option<int>, bool) {
    match op
    case Divide => if r == 0 then (None, false) else (Some(TruncatedDiv(l, r)), true)
    case Modulo => if r == 0 then (None, false) else (Some(TruncatedMod(l, r)), true)
    case Power => if !FitsUint(r, 16) then (None, false) else (Some(Pow(l, r)), true)
    case ShiftLeft => if !FitsUint(r, 64) then (None, false) else (Some(l * Pow(2, r)), true)
    case ShiftRight => if !FitsUint(r, 64) then (None, false) else (Some(l / Pow(2, r)), true)
    case Add => (Some(l + r), true)
    case Subtract => (Some(l - r), true)
    case Multiply => (Some(l * r), true)
    case _ => (Some(Bitwise(op, l, r)), true)
  }

  function Fold(e: Expression): (Option<int>, bool) {
    match e
    case NumberLiteral(v) => (Some(v), true)
    case Binary(op, left, right) =>
      (match (Fold(left).0, Fold(right).0)
       case (Some(l), Some(r)) => FoldOperate(op, l, r)
       case _ => (None, true))
    case ZeroExt(e1) => (Fold(e1).0, true)
    case _ => (None, true)
  }

  // ----- the power loop -----

  /** The first factor is the start value; the loop counts the others down. */
  method EvalPower(b: int, exponent: int) returns (r: Option<int>)
    ensures r == Operate(Power, b, exponent)
  {
    var e := exponent;
    if e < 0 {
      return None;
    } else if e == 0 {
      return Some(1);
    }
    var res := b;
    e := e - 1;
    while e > 0
      invariant 0 <= e < exponent
      invariant res == Pow(b, exponent - e)
    {
      res := res * b;
      e := e - 1;
    }
    r := Some(res);
  }

  // ----- agreement -----

  lemma {:induction false} BitsBound(v: nat, bits: nat)
    ensures Bits(v) <= bits <==> v < Pow(2, bits)
    decreases bits
  {
    if bits == 0 {
      assert v == 0 || Bits(v) > 0;
    } else {
      if v > 0 { BitsBound(v / 2, bits - 1); }
    }
  }

  lemma FitsExactly(v: int)
    ensures FitsUint(v, 16) <==> 0 <= v < TWO_16
    ensures FitsUint(v, 64) <==> 0 <= v < TWO_64
  {
    hide Pow, Bits;
    PowTable();
    if v >= 0 {
      BitsBound(v, 16);
      BitsBound(v, 64);
    }
  }

  /** Both evaluators compute the same operators, but folding refuses exponents of more than 16 bits. */
  lemma FoldOperateExact(op: BinaryOp, l: int, r: int)
    ensures FoldOperate(op, l, r).0 == if op.Power? && r >= TWO_16 then None else Operate(op, l, r)
    ensures FoldOperate(op, l, r).1 == FoldOperate(op, l, r).0.Some?
  {
    FitsExactly(r);
  }

  /** The nodes that folding looks into. */
  predicate Folds(e: Expression) {
    match e
    case NumberLiteral(_) => true
    case Binary(_, left, right) => Folds(left) && Folds(right)
    case ZeroExt(e1) => Folds(e1)
    case _ => false
  }

  /** Every exponent that has a value has one below 2^16. */
  predicate SmallExponents(e: Expression) {
    match e
    case Binary(op, left, right) =>
      && SmallExponents(left) && SmallExponents(right)
      && (op.Power? && EvalConst(right).Some? ==> EvalConst(right).value < TWO_16)
    case ZeroExt(e1) => SmallExponents(e1)
    case _ => true
  }

  /**
    Folding gives a literal exactly where evaluation succeeds, the nodes are ones it looks
    into and the exponents are small; the literal is then the value.
  */
  lemma {:induction false} FoldIsEval(e: Expression)
    ensures Fold(e).0.Some? <==> Folds(e) && SmallExponents(e) && EvalConst(e).Some?
    ensures Fold(e).0.Some? ==> Fold(e).0 == EvalConst(e)
  {
    match e
    case Binary(op, left, right) =>
      FoldIsEval(left);
      FoldIsEval(right);
      if Fold(left).0.Some? && Fold(right).0.Some? {
        FoldOperateExact(op, Fold(left).0.value, Fold(right).0.value);
      }
    case ZeroExt(e1) => FoldIsEval(e1);
    case _ =>
  }

  /** The search is stopped exactly at an operator on literals, folded, that has no value or too large an exponent. */
  lemma FoldStops(e: Expression)
    ensures !Fold(e).1 <==>
      && e.Binary? && Fold(e.left).0.Some? && Fold(e.right).0.Some?
      && (EvalConst(e).None? || (e.op.Power? && EvalConst(e.right).value >= TWO_16))
    ensures !Fold(e).1 ==> EvalConst(e.left).Some? && EvalConst(e.right).Some?
  {
    if e.Binary? {
      FoldIsEval(e.left);
      FoldIsEval(e.right);
      if Fold(e.left).0.Some? && Fold(e.right).0.Some? {
        FoldOperateExact(e.op, Fold(e.left).0.value, Fold(e.right).0.value);
      }
    }
  }

  // ----- what the operators mean -----

  /** What is true of the value of an operator, in terms of its operands. */
  ghost predicate Means(op: BinaryOp, l: int, r: int, v: int) {
    match op
    case Add => v - r == l
    case Subtract => v + r == l
    case Multiply => v == r * l
    case Divide => IsQuotient(l, r, v, l - r * v)
    case Modulo => exists q :: IsQuotient(l, r, q, v)
    case Power => if r == 0 then v == 1 else exists w :: Operate(Power, l, r - 1) == Some(w) && v == w * l
    case ShiftLeft => r >= 0 && v == l * Pow(2, r)
    case ShiftRight => r >= 0 && v * Pow(2, r) <= l < v * Pow(2, r) + Pow(2, r)
    case BitwiseAnd => forall i: nat :: BitAt(v, i) == 1 <==> BitAt(l, i) == 1 && BitAt(r, i) == 1
    case BitwiseOr => forall i: nat :: BitAt(v, i) == 1 <==> BitAt(l, i) == 1 || BitAt(r, i) == 1
    case BitwiseXor => forall i: nat :: BitAt(v, i) == 1 <==> BitAt(l, i) != BitAt(r, i)
  }

  /** Quotient and remainder when rounding towards zero. */
  predicate IsQuotient(l: int, r: int, q: int, m: int) {
    && l == r * q + m
    && -(if r > 0 then r else -r) < m < (if r > 0 then r else -r)
    && (m != 0 ==> (m > 0 <==> l > 0))
  }

  /** The operands for which an operator has no value. */
  predicate Undefined(op: BinaryOp, r: int) {
    match op
    case Divide | Modulo => r == 0
    case Power => r < 0
    case ShiftLeft | ShiftRight => r < 0 || r >= TWO_64
    case _ => false
  }

  lemma OperateExact(op: BinaryOp, l: int, r: int)
    ensures Operate(op, l, r).None? <==> Undefined(op, r)
    ensures Operate(op, l, r).Some? ==> Means(op, l, r, Operate(op, l, r).value)
  {
    hide Bitwise, TruncatedDiv, TruncatedMod, BitAt;
    if Operate(op, l, r).Some? {
      var v := Operate(op, l, r).value;
      match op
      case Divide =>
        TruncatedExact(l, r);
      case Modulo =>
        TruncatedExact(l, r);
        assert IsQuotient(l, r, TruncatedDiv(l, r), v);
      case Power => if r > 0 { assert Operate(Power, l, r - 1) == Some(Pow(l, r - 1)); }
      case ShiftRight => Floor(l, Pow(2, r));
      case BitwiseAnd | BitwiseOr | BitwiseXor =>
        forall i: nat
          ensures BitAt(v, i) == BitOf(op, BitAt(l, i), BitAt(r, i))
          ensures 0 <= BitAt(l, i) < 2 && 0 <= BitAt(r, i) < 2
        {
          BitwiseAt(op, l, r, i);
          IsBit(l, i);
          IsBit(r, i);
        }
      case _ =>
    }
  }

  lemma IsBit(x: int, i: nat)
    ensures 0 <= BitAt(x, i) < 2
  {}

  lemma Floor(x: int, d: int)
    requires d > 0
    ensures (x / d) * d <= x < (x / d) * d + d
  {
    assert x == (x / d) * d + x % d;
  }

  // ----- the other nodes -----

  /** A node that turns the digits of its operand over. */
  predicate Complements(e: Expression, operand: Expression) {
    e == Not(operand) || e == BitwiseNot(operand)
  }

  lemma ComplementExact(e: Expression, operand: Expression)
    requires Complements(e, operand)
    ensures EvalConst(e).Some? <==> EvalConst(operand).Some?
    ensures EvalConst(e).Some? ==>
              forall i: nat :: BitAt(EvalConst(e).value, i) == 1 - BitAt(EvalConst(operand).value, i)
  {
    if EvalConst(e).Some? {
      forall i: nat ensures BitAt(EvalConst(e).value, i) == 1 - BitAt(EvalConst(operand).value, i) {
        ComplementAt(EvalConst(operand).value, i);
      }
    }
  }

  /**
    The tree with constants replaced by their initializers, without casts, and with complements
    written as subtractions from -1.
  */
  function Inline(e: Expression): Expression {
    match e
    case NumberLiteral(_) | Other | ConstantVariable(None) => e
    case Binary(op, left, right) => Binary(op, Inline(left), Inline(right))
    case ZeroExt(e1) => Inline(e1)
    case Cast(e1) => Inline(e1)
    case Not(e1) => Binary(Subtract, NumberLiteral(-1), Inline(e1))
    case BitwiseNot(e1) => Binary(Subtract, NumberLiteral(-1), Inline(e1))
    case ConstantVariable(Some(init)) => Inline(init)
  }

  /** Every node can be part of a constant, and every constant has an initializer. */
  predicate Complete(e: Expression) {
    match e
    case NumberLiteral(_) => true
    case Binary(_, left, right) => Complete(left) && Complete(right)
    case ZeroExt(e1) => Complete(e1)
    case Cast(e1) => Complete(e1)
    case Not(e1) => Complete(e1)
    case BitwiseNot(e1) => Complete(e1)
    case ConstantVariable(init) => init.Some? && Complete(init.value)
    case Other => false
  }

  /** Evaluating is evaluating that tree, in which folding looks into every node of what is complete. */
  lemma {:induction false} InlineExact(e: Expression)
    ensures EvalConst(Inline(e)) == EvalConst(e)
    ensures Folds(Inline(e)) <==> Complete(e)
    ensures EvalConst(e).Some? ==> Complete(e)
  {
    match e
    case NumberLiteral(_) | Other | ConstantVariable(None) =>
    case Binary(_, left, right) =>
      InlineExact(left);
      InlineExact(right);
    case ZeroExt(e1) => InlineExact(e1);
    case Cast(e1) => InlineExact(e1);
    case Not(e1) => InlineExact(e1);
    case BitwiseNot(e1) => InlineExact(e1);
    case ConstantVariable(Some(init)) => InlineExact(init);
  }

  /** Folding the tree with everything written out gives what evaluating does, unless an exponent is large. */
  lemma FoldInlined(e: Expression)
    ensures Fold(Inline(e)).0 == if SmallExponents(Inline(e)) then EvalConst(e) else None
  {
    InlineExact(e);
    FoldIsEval(Inline(e));
  }

  // ----- the overflow check -----

  datatype NumberType = Uint(bits: nat) | FieldType

  datatype Verdict = Accept | Reject | Panic

  /** For a field the value is first converted to 64 bits, which panics where it does not fit. */
  function OverflowCheck(v: int, ty: NumberType): Verdict {
    if v < 0 then Reject
    else
      match ty
      case Uint(bits) => if Bits(v) > bits then Reject else Accept
      case FieldType => if v >= TWO_64 then Panic else if v > P then Reject else Accept
  }

  /** An unsigned type accepts exactly its values; the field type accepts its elements and p itself. */
  lemma OverflowCheckExact(v: int)
    ensures forall bits :: OverflowCheck(v, Uint(bits)) == if 0 <= v < Pow(2, bits) then Accept else Reject
    ensures OverflowCheck(v, FieldType) == Accept <==> 0 <= v < P || v == P
    ensures OverflowCheck(v, FieldType) == Panic <==> v >= TWO_64
  {
    forall bits ensures OverflowCheck(v, Uint(bits)) == if 0 <= v < Pow(2, bits) then Accept else Reject {
      if v >= 0 { BitsBound(v, bits); }
    }
  }
}
