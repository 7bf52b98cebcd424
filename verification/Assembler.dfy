/** The two passes of the assembler over already split source lines. */
module Assembler {
  import opened Isa
  import opened Expressions
  import opened Encoder

  /** A source line: its label, if any, and what follows it. */
  datatype Line = Line(name: Option<string>, statement: Statement)

  datatype Statement =
    | Blank
    | Org(address: Expr)
    | WordData(values: seq<Operand>)
    | Instr(mnemonic: Mnemonic, operands: seq<Operand>)
    | Unknown

  datatype Row = Row(address: int, word: int, line: nat)

  datatype Assembly = Assembly(words: map<int, int>, listing: seq<Row>, symbols: Symbols)

  datatype Outcome = Assembled(assembly: Assembly) | Failed(line: nat, fault: Fault)

  // ---------------------------------------------------------------- pass one

  function WordCount(m: Mnemonic): int
  {
    var count := ShippedDatabase.EntryOf(m).wordCount;
    if count.Some? then count.value else 1
  }

  /** `_operand_list` of a `.WORD` line. */
  predicate MissesOperand(values: seq<Operand>)
  {
    values == [] || Missing in values
  }

  function CheckedLocation(location: int): Result<int>
  {
    if 0 <= location <= 4096 then Ok(location) else Err(ProgramTooLong)
  }

  function CheckedAddress(e: Expr, symbols: Symbols, location: int): Result<int>
  {
    var v := Evaluate(e, symbols, location);
    if v.None? then Err(InvalidExpression)
    else if 0 <= v.value < 4096 then Ok(v.value) else Err(AddressOutOfRange)
  }

  /** Where the statement after this one starts, as pass one counts. */
  function NextLocation(statement: Statement, symbols: Symbols, location: int): Result<int>
  {
    match statement
    case Blank => Ok(location)
    case Org(e) => CheckedAddress(e, symbols, location)
    case WordData(values) =>
      if MissesOperand(values) then Err(MissingOperand) else CheckedLocation(location + |values|)
    case Instr(m, operands) =>
      var fault := ShapeFault(m, operands);
      if fault.Some? then Err(fault.value) else CheckedLocation(location + WordCount(m))
    case Unknown => Err(UnknownOperation)
  }

  datatype First = First(symbols: Symbols, location: int)

  function FirstLine(st: First, line: Line): Result<First>
  {
    if line.name.Some? && Upper(line.name.value) in st.symbols then Err(DuplicateLabel)
    else
      var symbols := if line.name.Some? then st.symbols[Upper(line.name.value) := st.location] else st.symbols;
      var next := NextLocation(line.statement, symbols, st.location);
      if next.Err? then Err(next.fault) else Ok(First(symbols, next.value))
  }

  datatype Progress<T> = Reached(state: T) | Stopped(line: nat, fault: Fault)

  function Continue<T>(r: Result<T>, line: nat): Progress<T>
  {
    if r.Ok? then Reached(r.value) else Stopped(line, r.fault)
  }

  /** Pass one over the first n lines. */
  function FirstPass(lines: seq<Line>, n: nat): Progress<First>
    requires n <= |lines|
  {
    if n == 0 then Reached(First(map[], 0))
    else
      var before := FirstPass(lines, n - 1);
      if before.Stopped? then before else Continue(FirstLine(before.state, lines[n - 1]), n - 1)
  }

  // ---------------------------------------------------------------- pass two

  datatype Second = Second(words: map<int, int>, listing: seq<Row>, location: int)

  /** `_emit` at the current location, which it moves on. */
  function Emit(st: Second, word: int, line: nat): Result<Second>
  {
    if !(0 <= st.location < 4096) then Err(AddressOutOfRange)
    else if st.location in st.words then Err(AlreadyOccupied)
    else Ok(Second(st.words[st.location := word], st.listing + [Row(st.location, word, line)], st.location + 1))
  }

  /** The values of the first k operands of a `.WORD` line. */
  function ValuesOf(operands: seq<Operand>, k: nat, symbols: Symbols, location: int): Result<seq<int>>
    requires k <= |operands|
  {
    if k == 0 then Ok([])
    else
      var before := ValuesOf(operands, k - 1, symbols, location);
      var v := Value(operands[k - 1], symbols, location + (k - 1));
      if before.Err? then before
      else if v.Err? then Err(v.fault) else Ok(before.value + [v.value])
  }

  /** Emitting the first k values. */
  function EmitWords(st: Second, values: seq<int>, k: nat, line: nat): Result<Second>
    requires k <= |values|
  {
    if k == 0 then Ok(st)
    else
      var before := EmitWords(st, values, k - 1, line);
      if before.Err? then before
      else if !(0 <= values[k - 1] <= 0xFFFF) then Err(WordOutOfRange)
      else Emit(before.value, values[k - 1], line)
  }

  function EmitData(st: Second, operands: seq<Operand>, symbols: Symbols, line: nat): Result<Second>
  {
    if MissesOperand(operands) then Err(MissingOperand)
    else
      var values := ValuesOf(operands, |operands|, symbols, st.location);
      if values.Err? then Err(values.fault) else EmitWords(st, values.value, |values.value|, line)
  }

  function EmitInstruction(st: Second, m: Mnemonic, operands: seq<Operand>, symbols: Symbols, line: nat): Result<Second>
  {
    var word := Encode(m, operands, symbols, st.location);
    if word.Err? then Err(word.fault)
    else
      var first := Emit(st, word.value, line);
      if first.Err? || !IsTwoWord(m) then first
      else
        var target := Value(operands[0], symbols, st.location);
        if target.Err? then Err(target.fault) else Emit(first.value, target.value, line)
  }

  function SecondLine(st: Second, statement: Statement, symbols: Symbols, line: nat): Result<Second>
  {
    match statement
    case Blank => Ok(st)
    case Org(e) =>
      var address := CheckedAddress(e, symbols, st.location);
      if address.Err? then Err(address.fault) else Ok(st.(location := address.value))
    case WordData(values) => EmitData(st, values, symbols, line)
    case Instr(m, operands) => EmitInstruction(st, m, operands, symbols, line)
    case Unknown => Err(UnknownOperation)
  }

  /** Pass two over the first n lines. */
  function SecondPass(lines: seq<Line>, symbols: Symbols, n: nat): Progress<Second>
    requires n <= |lines|
  {
    if n == 0 then Reached(Second(map[], [], 0))
    else
      var before := SecondPass(lines, symbols, n - 1);
      if before.Stopped? then before
      else Continue(SecondLine(before.state, lines[n - 1].statement, symbols, n - 1), n - 1)
  }

  /** The result of both passes. */
  function Passes(lines: seq<Line>): Outcome
  {
    var first := FirstPass(lines, |lines|);
    if first.Stopped? then Failed(first.line, first.fault)
    else
      var second := SecondPass(lines, first.state.symbols, |lines|);
      if second.Stopped? then Failed(second.line, second.fault)
      else Assembled(Assembly(second.state.words, second.state.listing, first.state.symbols))
  }

  lemma {:induction false} FirstStops(lines: seq<Line>, n: nat, m: nat)
    requires n <= m <= |lines| && FirstPass(lines, n).Stopped?
    ensures FirstPass(lines, m) == FirstPass(lines, n)
    decreases m
  {
    hide FirstLine;
    if n < m { FirstStops(lines, n, m - 1); }
  }

  lemma {:induction false} SecondStops(lines: seq<Line>, symbols: Symbols, n: nat, m: nat)
    requires n <= m <= |lines| && SecondPass(lines, symbols, n).Stopped?
    ensures SecondPass(lines, symbols, m) == SecondPass(lines, symbols, n)
    decreases m
  {
    hide SecondLine;
    if n < m { SecondStops(lines, symbols, n, m - 1); }
  }

  /** `_assemble`: the first loop collects labels, the second emits words. */
  method Assemble(lines: seq<Line>) returns (r: Outcome)
    ensures r == Passes(lines)
  {
    hide Encode, Value, WordCount, ShapeFault, CheckedAddress, EmitData, EmitInstruction;
    var symbols: Symbols := map[];
    var location := 0;
    var n := 0;
    while n < |lines|
      invariant 0 <= n <= |lines|
      invariant FirstPass(lines, n) == Reached(First(symbols, location))
    {
      var line := lines[n];
      if line.name.Some? {
        if Upper(line.name.value) in symbols {
          FirstStops(lines, n + 1, |lines|);
          return Failed(n, DuplicateLabel);
        }
        symbols := symbols[Upper(line.name.value) := location];
      }
      var next := NextLocation(line.statement, symbols, location);
      if next.Err? {
        FirstStops(lines, n + 1, |lines|);
        return Failed(n, next.fault);
      }
      location := next.value;
      n := n + 1;
    }
    r := EmitAll(lines, symbols);
  }

  /** The second loop of `_assemble`. */
  method EmitAll(lines: seq<Line>, symbols: Symbols) returns (r: Outcome)
    requires FirstPass(lines, |lines|).Reached? && FirstPass(lines, |lines|).state.symbols == symbols
    ensures r == Passes(lines)
  {
    hide Encode, Value, FirstPass, CheckedAddress, MissesOperand, Emit, EmitData, EmitInstruction;
    var words, listing, location := map[], [], 0;
    var n := 0;
    while n < |lines|
      invariant 0 <= n <= |lines|
      invariant SecondPass(lines, symbols, n) == Reached(Second(words, listing, location))
    {
      var st := Second(words, listing, location);
      var done := Ok(st);
      match lines[n].statement {
        case Blank =>
        case Org(e) =>
          var address := CheckedAddress(e, symbols, location);
          done := if address.Err? then Err(address.fault) else Ok(st.(location := address.value));
        case WordData(operands) =>
          done := EmitWordLine(st, operands, symbols, n);
        case Instr(m, operands) =>
          done := EmitInstructionLine(st, m, operands, symbols, n);
        case Unknown =>
          done := Err(UnknownOperation);
      }
      if done.Err? {
        SecondStops(lines, symbols, n + 1, |lines|);
        return Failed(n, done.fault);
      }
      words, listing, location := done.value.words, done.value.listing, done.value.location;
      n := n + 1;
    }
    r := Assembled(Assembly(words, listing, symbols));
  }

  /** A `.WORD` line: all values first, then one word after the other. */
  method EmitWordLine(st: Second, operands: seq<Operand>, symbols: Symbols, line: nat) returns (r: Result<Second>)
    ensures r == EmitData(st, operands, symbols, line)
  {
    hide Value, Emit;
    if MissesOperand(operands) { return Err(MissingOperand); }
    var values := [];
    var offset := 0;
    while offset < |operands|
      invariant 0 <= offset <= |operands| && |values| == offset
      invariant ValuesOf(operands, offset, symbols, st.location) == Ok(values)
    {
      var v := Value(operands[offset], symbols, st.location + offset);
      if v.Err? {
        ValuesStop(operands, offset + 1, |operands|, symbols, st.location);
        return Err(v.fault);
      }
      values := values + [v.value];
      offset := offset + 1;
    }
    var now := st;
    var k := 0;
    while k < |values|
      invariant 0 <= k <= |values|
      invariant EmitWords(st, values, k, line) == Ok(now)
    {
      var emitted := if 0 <= values[k] <= 0xFFFF then Emit(now, values[k], line) else Err(WordOutOfRange);
      if emitted.Err? {
        EmitStops(st, values, k + 1, |values|, line);
        return emitted;
      }
      now := emitted.value;
      k := k + 1;
    }
    r := Ok(now);
  }

  /** An instruction line: its word, and the target of a two-word instruction. */
  method EmitInstructionLine(st: Second, m: Mnemonic, operands: seq<Operand>, symbols: Symbols, line: nat)
    returns (r: Result<Second>)
    ensures r == EmitInstruction(st, m, operands, symbols, line)
    ensures r.Ok? ==>
              && Encode(m, operands, symbols, st.location).Ok?
              && st.location in r.value.words
              && r.value.words[st.location] == Encode(m, operands, symbols, st.location).value
              && (IsTwoWord(m) ==>
                    && operands != [] && st.location + 1 in r.value.words
                    && Ok(r.value.words[st.location + 1]) == Value(operands[0], symbols, st.location))
              && r.value.location == st.location + (if IsTwoWord(m) then 2 else 1)
              && (forall a :: a in st.words ==> a in r.value.words && r.value.words[a] == st.words[a])
  {
    hide Value, EncodeShaped;
    var word := Encode(m, operands, symbols, st.location);
    if word.Err? { return Err(word.fault); }
    r := Emit(st, word.value, line);
    if r.Ok? && IsTwoWord(m) {
      var target := Value(operands[0], symbols, st.location);
      if target.Err? { return Err(target.fault); }
      r := Emit(r.value, target.value, line);
    }
  }

  lemma {:induction false} ValuesStop(operands: seq<Operand>, j: nat, k: nat, symbols: Symbols, location: int)
    requires j <= k <= |operands| && ValuesOf(operands, j, symbols, location).Err?
    ensures ValuesOf(operands, k, symbols, location) == ValuesOf(operands, j, symbols, location)
    decreases k
  {
    hide Value;
    if j < k { ValuesStop(operands, j, k - 1, symbols, location); }
  }

  lemma {:induction false} EmitStops(st: Second, values: seq<int>, j: nat, k: nat, line: nat)
    requires j <= k <= |values| && EmitWords(st, values, j, line).Err?
    ensures EmitWords(st, values, k, line) == EmitWords(st, values, j, line)
    decreases k
  {
    hide Emit;
    if j < k { EmitStops(st, values, j, k - 1, line); }
  }
}
