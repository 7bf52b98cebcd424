/** What evaluation gives, operator by operator, stated on the values of the
    operands: arithmetic laws, and for the bitwise operators the bit at every
    position of the two's-complement numbers. */
module ExpressionLaws {
  import opened Bits
  import opened Isa
  import opened Expressions

  // --------------------------------------------------------------- operators

  predicate IsShift(op: BinaryOp) { op.ShiftLeft? || op.ShiftRight? }
  predicate IsDivision(op: BinaryOp) { op.FloorDivide? || op.Modulo? }

  /** Exactly when a binary expression has a value. */
  lemma BinaryFails(op: BinaryOp, left: Expr, right: Expr, symbols: Symbols, at: int)
    ensures Evaluate(Binary(op, left, right), symbols, at).Some? <==>
              && Evaluate(left, symbols, at).Some? && Evaluate(right, symbols, at).Some?
              && (IsDivision(op) ==> Evaluate(right, symbols, at).value != 0)
              && (IsShift(op) ==> Evaluate(right, symbols, at).value >= 0)
  {
  }

  /** The arithmetic operators; a quotient leaves a remainder between zero and the
      divisor, and that remainder is the value of `%`. */
  lemma ArithmeticMeans(op: BinaryOp, left: Expr, right: Expr, symbols: Symbols, at: int)
    requires Evaluate(Binary(op, left, right), symbols, at).Some?
    ensures Evaluate(left, symbols, at).Some? && Evaluate(right, symbols, at).Some?
    ensures var x, y := Evaluate(left, symbols, at).value, Evaluate(right, symbols, at).value;
            var v := Evaluate(Binary(op, left, right), symbols, at).value;
            && (op.Plus? ==> v == x + y)
            && (op.Minus? ==> v == x - y)
            && (op.Times? ==> v == x * y)
            && (op.FloorDivide? ==> if y > 0 then 0 <= x - y * v < y else y < x - y * v <= 0)
            && (op.Modulo? ==>
                  && (if y > 0 then 0 <= v < y else y < v <= 0)
                  && exists q :: x == y * q + v)
  {
    var x, y := Evaluate(left, symbols, at).value, Evaluate(right, symbols, at).value;
    if IsDivision(op) { FloorLaws(x, y); }
  }

  /** Shifts multiply and divide by powers of two, rounding down. */
  lemma ShiftsMean(op: BinaryOp, left: Expr, right: Expr, symbols: Symbols, at: int)
    requires IsShift(op) && Evaluate(Binary(op, left, right), symbols, at).Some?
    ensures Evaluate(left, symbols, at).Some? && Evaluate(right, symbols, at).Some?
    ensures Evaluate(right, symbols, at).value >= 0
    ensures var x, n := Evaluate(left, symbols, at).value, Evaluate(right, symbols, at).value;
            var v := Evaluate(Binary(op, left, right), symbols, at).value;
            && (op.ShiftLeft? ==> v == x * Pow2(n))
            && (op.ShiftRight? ==> v * Pow2(n) <= x < (v + 1) * Pow2(n))
  {
    var x, n := Evaluate(left, symbols, at).value, Evaluate(right, symbols, at).value;
    DivisionBounds(x, Pow2(n));
  }

  lemma DivisionBounds(x: int, d: int)
    requires d > 0
    ensures x / d * d <= x < (x / d + 1) * d
  {
    assert x == d * (x / d) + x % d;
  }

  /** A left shift is undone by the right shift of the same count. */
  lemma ShiftBack(left: Expr, count: Expr, symbols: Symbols, at: int)
    requires Evaluate(Binary(ShiftLeft, left, count), symbols, at).Some?
    ensures Evaluate(Binary(ShiftRight, Binary(ShiftLeft, left, count), count), symbols, at)
         == Evaluate(left, symbols, at)
  {
    var x, n := Evaluate(left, symbols, at).value, Evaluate(count, symbols, at).value;
    DivUnique(x * Pow2(n), Pow2(n), x, 0);
  }

  /** The bitwise operators at every bit position; with `SameBits` this is their
      whole value. */
  lemma BitwiseMeans(op: BinaryOp, left: Expr, right: Expr, symbols: Symbols, at: int, k: nat)
    requires op.BitOr? || op.BitAnd? || op.BitXor?
    requires Evaluate(Binary(op, left, right), symbols, at).Some?
    ensures Evaluate(left, symbols, at).Some? && Evaluate(right, symbols, at).Some?
    ensures var x, y := Evaluate(left, symbols, at).value, Evaluate(right, symbols, at).value;
            var v := Evaluate(Binary(op, left, right), symbols, at).value;
            && (op.BitOr? ==> (BitOf(v, k) <==> BitOf(x, k) || BitOf(y, k)))
            && (op.BitAnd? ==> (BitOf(v, k) <==> BitOf(x, k) && BitOf(y, k)))
            && (op.BitXor? ==> (BitOf(v, k) <==> BitOf(x, k) != BitOf(y, k)))
  {
    hide Bitwise, BitOf;
    var x, y := Evaluate(left, symbols, at).value, Evaluate(right, symbols, at).value;
    BitwiseAt(OrOp, x, y, k);
    BitwiseAt(AndOp, x, y, k);
    BitwiseAt(XorOp, x, y, k);
  }

  /** The unary operators; `~` also complements every bit. */
  lemma UnaryMeans(op: UnaryOp, operand: Expr, symbols: Symbols, at: int, k: nat)
    ensures Evaluate(Unary(op, operand), symbols, at).Some? <==> Evaluate(operand, symbols, at).Some?
    ensures Evaluate(operand, symbols, at).Some? ==>
              var x, v := Evaluate(operand, symbols, at).value, Evaluate(Unary(op, operand), symbols, at).value;
              && (op.Positive? ==> v == x)
              && (op.Negative? ==> v + x == 0)
              && (op.Invert? ==> v == -x - 1 && (BitOf(v, k) <==> !BitOf(x, k)))
  {
    if Evaluate(operand, symbols, at).Some? { ComplementAt(Evaluate(operand, symbols, at).value, k); }
  }

  /** Names are looked up without regard to case; `$` is the current location and
      hides a label of the same name; other names are the known labels. */
  lemma NamesMean(id: string, symbols: Symbols, at: int)
    ensures Evaluate(Symbol(CURRENT), symbols, at) == Some(at)
    ensures Upper(id) != CURRENT ==>
              Evaluate(Symbol(id), symbols, at) == if Upper(id) in symbols then Some(symbols[Upper(id)]) else None
    ensures Evaluate(Symbol(Upper(id)), symbols, at) == Evaluate(Symbol(id), symbols, at)
  {
    assert Upper(CURRENT) == CURRENT;
    assert Upper(Upper(id)) == Upper(id);
  }

  /** Case folding keeps the length, changes only the letters a to z, and makes
      the two cases of each of them equal. */
  lemma CaseFolds(id: string, k: nat)
    requires k < |id|
    ensures |Upper(id)| == |id|
    ensures !('a' <= id[k] <= 'z') ==> Upper(id)[k] == id[k]
    ensures 'a' <= id[k] <= 'z' ==>
              'A' <= Upper(id)[k] <= 'Z' && Upper(id)[k] as int - 'A' as int == id[k] as int - 'a' as int
  {
  }

  lemma IntegersMean(value: int, symbols: Symbols, at: int)
    ensures Evaluate(Integer(value), symbols, at) == Some(value) && Evaluate(Unsupported, symbols, at).None?
  {
  }
}
