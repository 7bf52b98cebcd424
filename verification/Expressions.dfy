/** Operand expressions of the assembler, already parsed, with Python's integer
    semantics. */
module Expressions {
  import opened Bits
  import opened Isa

  datatype BinaryOp = Plus | Minus | Times | FloorDivide | Modulo | ShiftLeft | ShiftRight | BitOr | BitAnd | BitXor
  datatype UnaryOp = Positive | Negative | Invert

  /** `Unsupported` stands for text that does not parse and for every syntax
      element the evaluator refuses. */
  datatype Expr =
    | Integer(value: int)
    | Symbol(id: string)
    | Binary(op: BinaryOp, left: Expr, right: Expr)
    | Unary(uop: UnaryOp, operand: Expr)
    | Unsupported

  /** What the current location is called: `$` is rewritten to this name. */
  const CURRENT := "__CURRENT"

  type Symbols = map<string, int>

  function UpperChar(c: char): char
  {
    if 'a' <= c <= 'z' then c - 'a' + 'A' else c
  }

  function Upper(text: string): string
  {
    seq(|text|, i requires 0 <= i < |text| => UpperChar(text[i]))
  }

  /** `left // right`: the quotient rounded towards minus infinity. */
  function FloorQuotient(left: int, right: int): int
    requires right != 0
  {
    if right > 0 then left / right else (-left) / (-right)
  }

  /** `left % right`: it has the sign of the divisor. */
  function FloorRemainder(left: int, right: int): int
    requires right != 0
  {
    if right > 0 then left % right else -((-left) % (-right))
  }

  lemma FloorLaws(left: int, right: int)
    requires right != 0
    ensures left == right * FloorQuotient(left, right) + FloorRemainder(left, right)
    ensures if right > 0 then 0 <= FloorRemainder(left, right) < right
            else right < FloorRemainder(left, right) <= 0
  {
  }

  /** One operator; None is a ZeroDivisionError or a negative shift count. */
  function Calculate(op: BinaryOp, left: int, right: int): Option<int>
  {
    match op
    case Plus => Some(left + right)
    case Minus => Some(left - right)
    case Times => Some(left * right)
    case FloorDivide => if right == 0 then None else Some(FloorQuotient(left, right))
    case Modulo => if right == 0 then None else Some(FloorRemainder(left, right))
    case ShiftLeft => if right < 0 then None else Some(left * Pow2(right))
    case ShiftRight => if right < 0 then None else Some(left / Pow2(right))
    case BitOr => Some(Or(left, right))
    case BitAnd => Some(And(left, right))
    case BitXor => Some(Xor(left, right))
  }

  /** `_ExpressionEvaluator.visit`; None is any error. */
  function Visit(e: Expr, names: Symbols): Option<int>
  {
    match e
    case Integer(value) => Some(value)
    case Symbol(id) => if Upper(id) in names then Some(names[Upper(id)]) else None
    case Binary(op, left, right) =>
      var l := Visit(left, names);
      var r := Visit(right, names);
      if l.Some? && r.Some? then Calculate(op, l.value, r.value) else None
    case Unary(op, operand) =>
      var v := Visit(operand, names);
      if v.None? then None
      else (match op
            case Positive => v
            case Negative => Some(-v.value)
            case Invert => Some(Not(v.value)))
    case Unsupported => None
  }

  /** `_evaluate`: the symbols, with the current location under its own name. */
  function Evaluate(e: Expr, symbols: Symbols, location: int): Option<int>
  {
    Visit(e, symbols[CURRENT := location])
  }

  predicate Extends(more: Symbols, fewer: Symbols)
  {
    forall name :: name in fewer ==> name in more && more[name] == fewer[name]
  }

  lemma {:induction false} VisitMonotone(e: Expr, fewer: Symbols, more: Symbols)
    requires Extends(more, fewer) && Visit(e, fewer).Some?
    ensures Visit(e, more) == Visit(e, fewer)
  {
    match e
    case Binary(_, left, right) =>
      VisitMonotone(left, fewer, more);
      VisitMonotone(right, fewer, more);
    case Unary(_, operand) =>
      VisitMonotone(operand, fewer, more);
    case _ =>
  }

  /** What evaluates with the labels seen so far evaluates to the same value once
      all labels are known. */
  lemma EvaluateMonotone(e: Expr, fewer: Symbols, more: Symbols, location: int)
    requires Extends(more, fewer) && Evaluate(e, fewer, location).Some?
    ensures Evaluate(e, more, location) == Evaluate(e, fewer, location)
  {
    VisitMonotone(e, fewer[CURRENT := location], more[CURRENT := location]);
  }
}
