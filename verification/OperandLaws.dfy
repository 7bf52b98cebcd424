/** How operand texts are read, and how many an instruction takes. */
module OperandLaws {
  import opened Isa
  import opened Expressions
  import opened Encoder

  /** An operand read as a value: numbers stand for themselves, register names for
      labels of that name, everything else for its expression. */
  lemma ValuesMean(o: Operand, symbols: Symbols, at: int)
    ensures match o
            case Missing => Value(o, symbols, at) == Err(InvalidExpression)
            case Star(_) => Value(o, symbols, at) == Err(InvalidExpression)
            case Number(v, _) => Value(o, symbols, at) == Ok(v)
            case Register(k) =>
              var name := if k == 0 then "AR0" else "AR1";
              Value(o, symbols, at) == if name in symbols then Ok(symbols[name]) else Err(InvalidExpression)
            case Port(e, _) =>
              (Value(o, symbols, at).Ok? <==> Evaluate(e, symbols, at).Some?)
              && (Value(o, symbols, at).Ok? ==> Evaluate(e, symbols, at) == Some(Value(o, symbols, at).value))
            case Expression(e) =>
              (Value(o, symbols, at).Ok? <==> Evaluate(e, symbols, at).Some?)
              && (Value(o, symbols, at).Ok? ==> Evaluate(e, symbols, at) == Some(Value(o, symbols, at).value))
  {
    assert Upper("AR0") == "AR0" && Upper("AR1") == "AR1";
    assert "AR0" != CURRENT && "AR1" != CURRENT;
  }

  /** Where a register is wanted only AR0, AR1 and the plain digits 0 and 1 stand
      for one; where a port is wanted PA0 to PA7 and integer literals from 0 to 7;
      where either a register or a value will do, a register name is its number. */
  lemma PlacesMean(o: Operand, symbols: Symbols, at: int, k: int)
    ensures AuxiliaryRegister(o) == Ok(k) <==> 0 <= k <= 1 && (o == Number(k, true) || (o.Register? && o.number == k))
    ensures IoPort(o) == Ok(k) <==> 0 <= k <= 7 && ((o.Port? && o.port == k) || (o.Number? && o.value == k))
    ensures o.Register? ==> RegisterOrValue(o, symbols, at) == Ok(o.number)
    ensures !o.Register? ==> RegisterOrValue(o, symbols, at) == Value(o, symbols, at)
  {
    hide Value;
  }

  /** The fewest and the most operands of an instruction. */
  function Least(m: Mnemonic): int
  {
    match m
    case ABS | APAC | CALA | DINT | EINT | NOP | PAC | POP | PUSH | RET | ROVM | SOVM | SPAC | ZAC => 0
    case IN | OUT | LAR | SAR | LARK => 2
    case _ => 1
  }

  function Most(m: Mnemonic): int
  {
    match m
    case ABS | APAC | CALA | DINT | EINT | NOP | PAC | POP | PUSH | RET | ROVM | SOVM | SPAC | ZAC => 0
    case B | BANZ | BGEZ | BGZ | BIOZ | BLEZ | BLZ | BNZ | BV | BZ | CALL | LACK | LARP | LDPK | MPYK => 1
    case ADD | IN | LAC | LAR | OUT | SACH | SACL | SAR | SUB => 3
    case _ => 2
  }

  /** An operand list passes the shape check exactly when its length is in range
      and no operand is missing; nothing else is encoded. */
  lemma CountsMean(m: Mnemonic, operands: seq<Operand>, symbols: Symbols, at: int)
    ensures ShapeFault(m, operands).None? <==> Least(m) <= |operands| <= Most(m) && Missing !in operands
    ensures Missing in operands ==> Encode(m, operands, symbols, at) == Err(MissingOperand)
    ensures Missing !in operands && !(Least(m) <= |operands| <= Most(m)) ==>
              Encode(m, operands, symbols, at) == Err(OperandCount)
  {
    hide EncodeShaped, Least, Most, ShippedDatabase.MinOperands, ShippedDatabase.MaxOperands;
    LeastIs(m);
    MostIs(m);
  }

  lemma LeastIs(m: Mnemonic)
    ensures Least(m) == ShippedDatabase.MinOperands(m)
  {
  }

  lemma MostIs(m: Mnemonic)
    ensures Most(m) == ShippedDatabase.MaxOperands(m)
  {
  }
}
