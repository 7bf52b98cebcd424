/** Encoding one instruction: the shape check, the operand fields, and what the
    accepted operand lists denote. */
module Encoder {
  import opened Bits
  import opened Isa
  import opened Decoder
  import opened DecoderInverse
  import opened Expressions
  import ShippedDatabase
  import Semantics

  /** The counter update of an indirect operand: `*`, `*+` and `*-`. */
  datatype CounterUpdate = Keep | Increment | Decrement

  type RegisterNumber = k: int | 0 <= k < 2

  /** One operand text. `Number` is an integer literal, possibly signed, and says
      whether it is spelled in its shortest decimal digits; `Port` is PA followed by
      an integer literal, with what the same text is as an expression. */
  datatype Operand =
    | Missing
    | Star(update: CounterUpdate)
    | Register(number: RegisterNumber)
    | Port(expr: Expr, port: int)
    | Number(value: int, decimal: bool)
    | Expression(expr: Expr)

  datatype Fault =
    | InvalidExpression | MissingOperand | OperandCount | UnknownOperation | DuplicateLabel
    | AddressOutOfRange | ProgramTooLong | WordOutOfRange | OperandOutOfRange | NotARegister
    | NotAPort | NextArpNeedsIndirect | AlreadyOccupied

  datatype Result<+T> = Ok(value: T) | Err(fault: Fault)

  /** How an operand text parses as an expression. */
  function ExprOf(o: Operand): Expr
  {
    match o
    case Missing => Unsupported
    case Star(_) => Unsupported
    case Register(number) => Symbol(if number == 0 then "AR0" else "AR1")
    case Port(expr, _) => expr
    case Number(value, _) => Integer(value)
    case Expression(expr) => expr
  }

  function Value(o: Operand, symbols: Symbols, location: int): Result<int>
  {
    var v := Evaluate(ExprOf(o), symbols, location);
    if v.Some? then Ok(v.value) else Err(InvalidExpression)
  }

  /** A value inside a range, or the fault of one outside. */
  function Within(v: Result<int>, low: int, high: int): Result<int>
  {
    if v.Err? then v else if low <= v.value <= high then v else Err(OperandOutOfRange)
  }

  /** `_auxiliary_register` */
  function AuxiliaryRegister(o: Operand): Result<int>
  {
    if o.Register? then Ok(o.number)
    else if o.Number? && o.decimal && (o.value == 0 || o.value == 1) then Ok(o.value)
    else Err(NotARegister)
  }

  /** `_io_port` */
  function IoPort(o: Operand): Result<int>
  {
    if o.Port? then Within(Ok(o.port), 0, 7)
    else if o.Number? then Within(Ok(o.value), 0, 7)
    else Err(NotAPort)
  }

  /** A register name or an expression. */
  function RegisterOrValue(o: Operand, symbols: Symbols, location: int): Result<int>
  {
    if o.Register? then Ok(o.number) else Value(o, symbols, location)
  }

  /** `_validate_instruction_shape`, for the instructions of the shipped database. */
  function ShapeFault(m: Mnemonic, operands: seq<Operand>): Option<Fault>
  {
    if Missing in operands then Some(MissingOperand)
    else if ShippedDatabase.MinOperands(m) <= |operands| <= ShippedDatabase.MaxOperands(m) then None
    else Some(OperandCount)
  }

  /** `_encode_data_address` */
  function EncodeAddress(m: Mnemonic, operands: seq<Operand>, nextArp: nat, symbols: Symbols,
      location: int): Result<int>
    requires operands != []
  {
    if operands[0].Star? then
      var control := match operands[0].update case Keep => 0x88 case Increment => 0xA8 case Decrement => 0x98;
      if |operands| > nextArp then
        var next := Within(RegisterOrValue(operands[nextArp], symbols, location), 0, 1);
        if next.Err? then next else Ok(Or(And(control, Not(0x09)), next.value))
      else Ok(control)
    else if |operands| > nextArp then Err(NextArpNeedsIndirect)
    else Within(Value(operands[0], symbols, location), 0, if m.SST? then 15 else 127)
  }

  /** `word |= field << 8` and then the address. */
  function WithAddress(word: int, field: int, address: Result<int>): Result<int>
  {
    if address.Err? then address else Ok(Or(Or(word, field * 256), address.value))
  }

  function OptionalShift(operands: seq<Operand>, symbols: Symbols, location: int): Result<int>
  {
    if |operands| >= 2 then Value(operands[1], symbols, location) else Ok(0)
  }

  /** `_encode` */
  function Encode(m: Mnemonic, operands: seq<Operand>, symbols: Symbols, location: int): Result<int>
  {
    var fault := ShapeFault(m, operands);
    if fault.Some? then Err(fault.value)
    else EncodeShaped(m, operands, symbols, location)
  }

  function EncodeShaped(m: Mnemonic, operands: seq<Operand>, symbols: Symbols, location: int): Result<int>
    requires ShapeFault(m, operands).None?
  {
    var word := Match(m);
    match ShapeOf(m)
    case TwoWord =>
      var target := Within(Value(operands[0], symbols, location), 0, 4095);
      if target.Err? then target else Ok(word)
    case Fixed => Ok(word)
    case PlainData =>
      if m.SACL? then
        var shift := Within(OptionalShift(operands, symbols, location), 0, 0);
        if shift.Err? then shift
        else WithAddress(word, 0, EncodeAddress(m, operands, 2, symbols, location))
      else WithAddress(word, 0, EncodeAddress(m, operands, 1, symbols, location))
    case Shifted =>
      var shift := OptionalShift(operands, symbols, location);
      if shift.Err? then shift
      else if !LegalShift(m, shift.value) then Err(OperandOutOfRange)
      else WithAddress(word, shift.value, EncodeAddress(m, operands, 2, symbols, location))
    case WithPort =>
      var port := IoPort(operands[1]);
      if port.Err? then port
      else WithAddress(word, port.value, EncodeAddress(m, operands, 2, symbols, location))
    case WithRegister =>
      var register := AuxiliaryRegister(operands[0]);
      if register.Err? then register
      else WithAddress(word, register.value, EncodeAddress(m, operands[1..], 1, symbols, location))
    case Immediate(low, high) =>
      var value := if m.LARP? then RegisterOrValue(operands[0], symbols, location)
                   else Value(operands[0], symbols, location);
      var constant := Within(value, low, high - 1);
      if constant.Err? then constant
      else Ok(Or(word, if m.MPYK? then And(constant.value, 0x1FFF) else constant.value))
    case RegisterImmediate =>
      var register := AuxiliaryRegister(operands[0]);
      if register.Err? then register
      else
        var constant := Within(Value(operands[1], symbols, location), 0, 255);
        if constant.Err? then constant else Ok(Or(Or(word, register.value * 256), constant.value))
  }

  // ------------------------------------------------- what operands denote

  /** The addressing mode and seven-bit field an operand list stands for. */
  function AddressDenoted(m: Mnemonic, operands: seq<Operand>, nextArp: nat, symbols: Symbols,
      location: int): Option<(bool, int)>
    requires operands != []
  {
    if operands[0].Star? then
      var update := match operands[0].update case Keep => 0 case Increment => 32 case Decrement => 16;
      if |operands| <= nextArp then Some((true, update + 8))
      else
        var next := RegisterOrValue(operands[nextArp], symbols, location);
        if next.Ok? && 0 <= next.value <= 1 then Some((true, update + next.value)) else None
    else
      var address := Value(operands[0], symbols, location);
      if |operands| <= nextArp && address.Ok? && 0 <= address.value <= (if m.SST? then 15 else 127)
      then Some((false, address.value)) else None
  }

  /** The instruction an operand list stands for, if it stands for one. The word
      of MAR with an unchanged counter and a next ARP is that of LARP. */
  function Denoted(m: Mnemonic, operands: seq<Operand>, symbols: Symbols, location: int): Option<Instruction>
  {
    if ShapeFault(m, operands).Some? then None
    else match ShapeOf(m)
    case TwoWord =>
      var target := Value(operands[0], symbols, location);
      if target.Ok? && 0 <= target.value < 4096 then Some(Instruction(m, NoOperands)) else None
    case Fixed => Some(Instruction(m, NoOperands))
    case PlainData =>
      var placeholder := OptionalShift(operands, symbols, location);
      var a := AddressDenoted(m, operands, if m.SACL? then 2 else 1, symbols, location);
      if a.None? || (m.SACL? && placeholder != Ok(0)) then None
      else if m.MAR? && a.value.0 && a.value.1 <= 1 then Some(Instruction(LARP, Operands.Constant(a.value.1)))
      else Some(Instruction(m, Data(a.value.0, a.value.1)))
    case Shifted =>
      var shift := OptionalShift(operands, symbols, location);
      var a := AddressDenoted(m, operands, 2, symbols, location);
      if a.Some? && shift.Ok? && LegalShift(m, shift.value)
      then Some(Instruction(m, ShiftData(shift.value, a.value.0, a.value.1))) else None
    case WithPort =>
      var port := IoPort(operands[1]);
      var a := AddressDenoted(m, operands, 2, symbols, location);
      if a.Some? && port.Ok? then Some(Instruction(m, PortData(port.value, a.value.0, a.value.1))) else None
    case WithRegister =>
      var register := AuxiliaryRegister(operands[0]);
      var a := AddressDenoted(m, operands[1..], 1, symbols, location);
      if a.Some? && register.Ok? then Some(Instruction(m, RegisterData(register.value, a.value.0, a.value.1))) else None
    case Immediate(low, high) =>
      var value := if m.LARP? then RegisterOrValue(operands[0], symbols, location)
                   else Value(operands[0], symbols, location);
      if value.Ok? && low <= value.value < high then Some(Instruction(m, Operands.Constant(value.value))) else None
    case RegisterImmediate =>
      var register := AuxiliaryRegister(operands[0]);
      var value := Value(operands[1], symbols, location);
      if register.Ok? && value.Ok? && 0 <= value.value < 256
      then Some(Instruction(m, RegisterConstant(register.value, value.value))) else None
  }

  /** What the indirect notation means to the machine. */
  lemma StarMeans(m: Mnemonic, operands: seq<Operand>, nextArp: nat, symbols: Symbols, location: int)
    requires operands != [] && operands[0].Star?
    requires AddressDenoted(m, operands, nextArp, symbols, location).Some?
    ensures var (indirect, field) := AddressDenoted(m, operands, nextArp, symbols, location).value;
            && indirect && LegalControl(field)
            && Semantics.CounterDelta(field)
               == (match operands[0].update case Keep => 0 case Increment => 1 case Decrement => -1)
            && (Semantics.ControlBit(field, 3) <==> |operands| <= nextArp)
            && (|operands| > nextArp ==>
                  Ok(field % 2) == RegisterOrValue(operands[nextArp], symbols, location))
  {
    hide Value, Semantics.CounterDelta, Semantics.ControlBit, LegalControl;
    var update := match operands[0].update case Keep => 0 case Increment => 32 case Decrement => 16;
    ControlMeans(update, 8);
    ControlMeans(update, 0);
    ControlMeans(update, 1);
  }

  lemma ControlMeans(update: int, low: int)
    requires update == 0 || update == 16 || update == 32
    requires low == 0 || low == 1 || low == 8
    ensures LegalControl(update + low) && (update + low) % 2 == low % 2
    ensures Semantics.CounterDelta(update + low) == (if update == 32 then 1 else if update == 16 then -1 else 0)
    ensures Semantics.ControlBit(update + low, 3) <==> low == 8
  {
    Pow2Table();
  }

  // ------------------------------------------------------------- the proof

  lemma Insert(base: int, low: int, k: nat)
    requires base % Pow2(k) == 0 && 0 <= low < Pow2(k)
    ensures Or(base, low) == base + low
  {
    hide Bitwise, Pow2;
    assert base == (base / Pow2(k)) * Pow2(k);
    OrDisjoint(base / Pow2(k), low, k);
  }

  lemma ControlCleared()
    ensures And(0x88, Not(0x09)) == 0x80 && And(0xA8, Not(0x09)) == 0xA0 && And(0x98, Not(0x09)) == 0x90
  {
    SmallAnds();
    Pow2Table();
    hide Bitwise, Pow2;
    Split(AndOp, 8, 8, -1, 6, 4);
    Split(AndOp, 10, 8, -1, 6, 4);
    Split(AndOp, 9, 8, -1, 6, 4);
  }

  lemma SmallAnds()
    ensures And(8, 6) == 0 && And(8, -1) == 8 && And(10, -1) == 10 && And(9, -1) == 9
  {
    Pow2Table();
    hide Bitwise, Pow2;
    AndAllOnes(8);
    AndAllOnes(9);
    AndAllOnes(10);
    AndZero(1);
    AndZero(6);
    Commutes(AndOp, 0, 6);
    Split(AndOp, 1, 0, 0, 6, 3);
  }

  lemma {:induction false} AndAllOnes(x: int)
    ensures And(x, -1) == x
    decreases Magnitude(x)
  {
    if Magnitude(x) > 0 { AndAllOnes(x / 2); }
  }

  lemma AddressEncoded(m: Mnemonic, operands: seq<Operand>, nextArp: nat, symbols: Symbols, location: int)
    requires operands != []
    ensures var d := AddressDenoted(m, operands, nextArp, symbols, location);
            var e := EncodeAddress(m, operands, nextArp, symbols, location);
            if d.None? then e.Err?
            else && e == Ok(AddressBits(d.value.0, d.value.1)) && LegalAddress(d.value.0, d.value.1)
                 && 0 <= e.value < 256
                 && (m.SST? && !d.value.0 ==> d.value.1 < 16)
  {
    ControlCleared();
    Pow2Table();
    hide Bitwise, Pow2, RegisterOrValue, Value;
    if operands[0].Star? && |operands| > nextArp {
      var next := RegisterOrValue(operands[nextArp], symbols, location);
      if next.Ok? && 0 <= next.value <= 1 {
        Insert(0x80, next.value, 1);
        Insert(0xA0, next.value, 1);
        Insert(0x90, next.value, 1);
      }
    }
  }

  /** The operand fields of a word with a data address. */
  lemma FieldsJoin(m: Mnemonic, field: int, address: int, n: int)
    requires n == 1 || n == 2 || n == 8 || n == 16
    requires Match(m) % (n * 256) == 0 && 0 <= field < n && 0 <= address < 256
    ensures Or(Or(Match(m), field * 256), address) == Match(m) + field * 256 + address
  {
    Pow2Table();
    var k := if n == 1 then 8 else if n == 2 then 9 else if n == 8 then 11 else 12;
    hide Bitwise, Pow2, Match;
    Insert(Match(m), field * 256, k);
    var b := Match(m) / (n * 256);
    assert Match(m) + field * 256 == 256 * (n * b + field);
    DivUnique(Match(m) + field * 256, 256, n * b + field, 0);
    Insert(Match(m) + field * 256, address, 8);
  }

  /** Encoding agrees with what the operands denote: accepted exactly when they
      denote an instruction, and then its word. */
  predicate Encodes(m: Mnemonic, operands: seq<Operand>, symbols: Symbols, location: int)
  {
    var d := Denoted(m, operands, symbols, location);
    var e := Encode(m, operands, symbols, location);
    if d.None? then e.Err? else e == Ok(Word(d.value)) && Legal(d.value)
  }

  lemma AddressWord(m: Mnemonic, field: int, n: int, operands: seq<Operand>, nextArp: nat, symbols: Symbols,
      location: int)
    requires operands != [] && (n == 1 || n == 2 || n == 8 || n == 16)
    requires Match(m) % (n * 256) == 0 && 0 <= field < n
    ensures var d := AddressDenoted(m, operands, nextArp, symbols, location);
            var e := WithAddress(Match(m), field, EncodeAddress(m, operands, nextArp, symbols, location));
            if d.None? then e.Err?
            else && LegalAddress(d.value.0, d.value.1) && (m.SST? && !d.value.0 ==> d.value.1 < 16)
                 && e == Ok(Match(m) + field * 256 + AddressBits(d.value.0, d.value.1))
  {
    hide Bitwise, Pow2, EncodeAddress, AddressDenoted, LegalAddress, Match;
    AddressEncoded(m, operands, nextArp, symbols, location);
    var e := EncodeAddress(m, operands, nextArp, symbols, location);
    if e.Ok? { FieldsJoin(m, field, e.value, n); }
  }

  lemma PlainEncodes(m: Mnemonic, operands: seq<Operand>, symbols: Symbols, location: int)
    requires ShapeFault(m, operands).None? && ShapeOf(m).PlainData?
    ensures Encodes(m, operands, symbols, location)
  {
    hide WithAddress, EncodeAddress, AddressDenoted, LegalAddress, Value, Match, Word;
    var next := if m.SACL? then 2 else 1;
    Aligned(m);
    AddressWord(m, 0, 1, operands, next, symbols, location);
    var d := AddressDenoted(m, operands, next, symbols, location);
    if d.Some? {
      WordOfData(m, d.value.0, d.value.1);
      if m.MAR? && d.value.0 && d.value.1 <= 1 {
        LarpWord(d.value.1);
        FieldRange(d.value.0, d.value.1);
      }
    }
  }

  lemma WordOfData(m: Mnemonic, indirect: bool, field: int)
    ensures Word(Instruction(m, Data(indirect, field))) == Match(m) + 0 * 256 + AddressBits(indirect, field)
  {
    hide Match;
  }

  lemma FieldRange(indirect: bool, field: int)
    requires LegalAddress(indirect, field)
    ensures 0 <= field < 128
  {
  }

  lemma LarpWord(k: int)
    ensures Word(Instruction(MAR, Data(true, k))) == Word(Instruction(LARP, Operands.Constant(k)))
  {
  }

  lemma ShiftedEncodes(m: Mnemonic, operands: seq<Operand>, symbols: Symbols, location: int)
    requires ShapeFault(m, operands).None? && ShapeOf(m).Shifted?
    ensures Encodes(m, operands, symbols, location)
  {
    hide WithAddress, EncodeAddress, AddressDenoted, LegalAddress, Value, Match, OptionalShift;
    Aligned(m);
    ShippedDatabase.SachBase();
    var shift := OptionalShift(operands, symbols, location);
    if shift.Ok? && LegalShift(m, shift.value) {
      AddressWord(m, shift.value, if m.SACH? then 8 else 16, operands, 2, symbols, location);
    }
  }

  lemma PortEncodes(m: Mnemonic, operands: seq<Operand>, symbols: Symbols, location: int)
    requires ShapeFault(m, operands).None? && ShapeOf(m).WithPort?
    ensures Encodes(m, operands, symbols, location)
  {
    hide WithAddress, EncodeAddress, AddressDenoted, LegalAddress, Value, Match, IoPort;
    PortRange(operands[1]);
    Aligned(m);
    var port := IoPort(operands[1]);
    if port.Ok? { AddressWord(m, port.value, 8, operands, 2, symbols, location); }
  }

  lemma PortRange(o: Operand)
    ensures IoPort(o).Ok? ==> 0 <= IoPort(o).value < 8
  {
  }

  lemma RegisterEncodes(m: Mnemonic, operands: seq<Operand>, symbols: Symbols, location: int)
    requires ShapeFault(m, operands).None? && ShapeOf(m).WithRegister?
    ensures Encodes(m, operands, symbols, location)
  {
    hide WithAddress, EncodeAddress, AddressDenoted, LegalAddress, Value, Match, AuxiliaryRegister;
    RegisterRange(operands[0]);
    Aligned(m);
    var register := AuxiliaryRegister(operands[0]);
    if register.Ok? { AddressWord(m, register.value, 2, operands[1..], 1, symbols, location); }
  }

  lemma ConstantEncodes(m: Mnemonic, operands: seq<Operand>, symbols: Symbols, location: int)
    requires ShapeFault(m, operands).None?
    requires ShapeOf(m).Immediate? || ShapeOf(m).RegisterImmediate?
    ensures Encodes(m, operands, symbols, location)
  {
    hide Bitwise, Pow2, Value, Match, RegisterOrValue, AuxiliaryRegister, Word;
    if m.LARK? {
      var register, value := AuxiliaryRegister(operands[0]), Value(operands[1], symbols, location);
      if register.Ok? && value.Ok? && 0 <= value.value < 256 {
        RegisterRange(operands[0]);
        LarkWord(register.value, value.value);
      }
    } else {
      var value := if m.LARP? then RegisterOrValue(operands[0], symbols, location)
                   else Value(operands[0], symbols, location);
      if value.Ok? && ShapeOf(m).low <= value.value < ShapeOf(m).high { ConstantWord(m, value.value); }
    }
  }

  lemma LarkWord(register: int, c: int)
    requires 0 <= register < 2 && 0 <= c < 256
    ensures Or(Or(Match(LARK), register * 256), c) == Word(Instruction(LARK, RegisterConstant(register, c)))
  {
    hide Bitwise;
    ConstantAligned(LARK);
    FieldsJoin(LARK, register, c, 2);
  }

  lemma ConstantWord(m: Mnemonic, c: int)
    requires ShapeOf(m).Immediate? && ShapeOf(m).low <= c < ShapeOf(m).high
    ensures Or(Match(m), if m.MPYK? then And(c, 0x1FFF) else c) == Word(Instruction(m, Operands.Constant(c)))
  {
    hide Bitwise, Pow2, Match;
    Pow2Table();
    ConstantAligned(m);
    if m.MPYK? {
      AndOnes(c, 13);
      Insert(Match(m), c % 8192, 13);
    } else {
      Insert(Match(m), c, if m.LARP? then 1 else 8);
    }
  }

  lemma RegisterRange(o: Operand)
    ensures AuxiliaryRegister(o).Ok? ==> 0 <= AuxiliaryRegister(o).value < 2
  {
  }

  lemma ConstantAligned(m: Mnemonic)
    ensures m.MPYK? ==> Match(m) % 8192 == 0
    ensures m.LARK? ==> Match(m) % 512 == 0
    ensures m.LACK? || m.LDPK? ==> Match(m) % 256 == 0
    ensures m.LARP? ==> Match(m) % 2 == 0
  {
  }

  /** `_encode` accepts an operand list exactly when it denotes a documented
      instruction, and produces the word of that instruction. */
  lemma EncodeIsDenoted(m: Mnemonic, operands: seq<Operand>, symbols: Symbols, location: int)
    ensures Encodes(m, operands, symbols, location)
  {
    hide EncodeAddress, AddressDenoted, WithAddress, Word, Value, IoPort, RegisterOrValue, AuxiliaryRegister;
    hide OptionalShift;
    if ShapeFault(m, operands).None? {
      match ShapeOf(m)
      case PlainData => PlainEncodes(m, operands, symbols, location);
      case Shifted => ShiftedEncodes(m, operands, symbols, location);
      case WithPort => PortEncodes(m, operands, symbols, location);
      case WithRegister => RegisterEncodes(m, operands, symbols, location);
      case Immediate(_, _) => ConstantEncodes(m, operands, symbols, location);
      case RegisterImmediate => ConstantEncodes(m, operands, symbols, location);
      case _ => BareEncodes(m, operands, symbols, location);
    }
  }

  lemma BareEncodes(m: Mnemonic, operands: seq<Operand>, symbols: Symbols, location: int)
    requires ShapeFault(m, operands).None? && (ShapeOf(m).TwoWord? || ShapeOf(m).Fixed?)
    ensures Encodes(m, operands, symbols, location)
  {
    hide Value, Match;
  }

  /** The one spelling whose word belongs to another mnemonic: MAR with the
      counter unchanged and a next ARP. */
  predicate IsLarpSpelling(m: Mnemonic, operands: seq<Operand>)
  {
    m.MAR? && |operands| == 2 && operands[0] == Star(Keep)
  }

  /** Encode then decode: an accepted instruction is a 16-bit word that decodes
      to the instruction its operands denote. The mnemonic is the one written if
      and only if the spelling is not `MAR *,k`, which decodes as LARP k. */
  lemma EncodeThenDecode(m: Mnemonic, operands: seq<Operand>, symbols: Symbols, location: int)
    requires Encode(m, operands, symbols, location).Ok?
    ensures var w := Encode(m, operands, symbols, location).value;
            var d := Denoted(m, operands, symbols, location);
            && 0 <= w < 0x1_0000 && d.Some? && Decode(w) == d
            && (d.value.mnemonic == m <==> !IsLarpSpelling(m, operands))
            && (IsLarpSpelling(m, operands) ==>
                  && RegisterOrValue(operands[1], symbols, location).Ok?
                  && var next := RegisterOrValue(operands[1], symbols, location).value;
                     d.value == Instruction(LARP, Operands.Constant(next)))
  {
    hide Decode, Word, Encode, EncodeShaped, Denoted;
    EncodeIsDenoted(m, operands, symbols, location);
    DecodeAfterWord(Denoted(m, operands, symbols, location).value);
    DenotedMnemonic(m, operands, symbols, location);
  }

  lemma DenotedMnemonic(m: Mnemonic, operands: seq<Operand>, symbols: Symbols, location: int)
    requires Denoted(m, operands, symbols, location).Some?
    ensures var d := Denoted(m, operands, symbols, location).value;
            && (d.mnemonic == m <==> !IsLarpSpelling(m, operands))
            && (IsLarpSpelling(m, operands) ==>
                  && RegisterOrValue(operands[1], symbols, location).Ok?
                  && d == Instruction(LARP, Operands.Constant(RegisterOrValue(operands[1], symbols, location).value)))
  {
    hide Value, IoPort, RegisterOrValue, AuxiliaryRegister, OptionalShift, AddressDenoted;
    if m.MAR? { MarDenoted(operands, symbols, location); }
  }

  lemma MarDenoted(operands: seq<Operand>, symbols: Symbols, location: int)
    requires ShapeFault(MAR, operands).None? && AddressDenoted(MAR, operands, 1, symbols, location).Some?
    ensures var (indirect, field) := AddressDenoted(MAR, operands, 1, symbols, location).value;
            && (indirect && field <= 1 <==> IsLarpSpelling(MAR, operands))
            && (indirect && field <= 1 ==> Ok(field) == RegisterOrValue(operands[1], symbols, location))
  {
    hide Value, RegisterOrValue;
  }
}
