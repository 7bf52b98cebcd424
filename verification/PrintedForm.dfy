/** The disassembler prints the shortest source form of a word. */
module PrintedForm {
  import opened Bits
  import opened Arithmetic
  import opened Isa
  import opened Decoder
  import opened Semantics
  import opened Expressions
  import opened Encoder
  import opened Disassembler
  import opened RoundTrip

  /** The operands an address needs: one, and the place of the next ARP when the
      control names one. */
  lemma AddressNeeds(m: Mnemonic, operands: seq<Operand>, nextArp: nat, symbols: Symbols, at: int, indirect: bool,
      field: int)
    requires operands != [] && AddressDenoted(m, operands, nextArp, symbols, at) == Some((indirect, field))
    requires LegalAddress(indirect, field)
    ensures indirect && And(field, 0x08) == 0 ==> |operands| > nextArp
  {
    hide Bitwise, And, RegisterOrValue, Value, LegalControl;
    if indirect {
      var update := match operands[0].update case Keep => 0 case Increment => 32 case Decrement => 16;
      EighthBit(field);
    }
  }

  lemma EighthBit(field: int)
    requires 0 <= field < 128 && LegalControl(field)
    ensures And(field, 0x08) != 0 <==> (field / 8) % 2 == 1
  {
    hide And;
    ControlMasks(field);
  }

  /** No operand list that denotes an instruction is shorter than the printed one. */
  lemma NoShorter(i: Instruction, word: int, operands: seq<Operand>, symbols: Symbols, at: int)
    requires Legal(i) && FormOf(i, word).Instr? && Denoted(i.mnemonic, operands, symbols, at) == Some(i)
    ensures |FormOf(i, word).operands| <= |operands|
  {
    match ShapeOf(i.mnemonic)
    case PlainData => PlainShortest(i, word, operands, symbols, at);
    case Shifted => ShiftedShortest(i, word, operands, symbols, at);
    case WithPort => PortShortest(i, word, operands, symbols, at);
    case WithRegister => RegisterShortest(i, word, operands, symbols, at);
    case _ => ConstantShortest(i, word, operands, symbols, at);
  }

  lemma PlainShortest(i: Instruction, word: int, operands: seq<Operand>, symbols: Symbols, at: int)
    requires Legal(i) && FormOf(i, word).Instr? && Denoted(i.mnemonic, operands, symbols, at) == Some(i)
    requires ShapeOf(i.mnemonic).PlainData?
    ensures |FormOf(i, word).operands| <= |operands|
  {
    hide Bitwise, And, Modifier, LegalControl, AddressDenoted, OptionalShift;
    AddressNeeds(i.mnemonic, operands, if i.mnemonic.SACL? then 2 else 1, symbols, at, i.operands.indirect,
      i.operands.field);
  }

  lemma ShiftedShortest(i: Instruction, word: int, operands: seq<Operand>, symbols: Symbols, at: int)
    requires Legal(i) && FormOf(i, word).Instr? && Denoted(i.mnemonic, operands, symbols, at) == Some(i)
    requires ShapeOf(i.mnemonic).Shifted?
    ensures |FormOf(i, word).operands| <= |operands|
  {
    hide Bitwise, And, Modifier, LegalControl, AddressDenoted;
    AddressNeeds(i.mnemonic, operands, 2, symbols, at, i.operands.indirect, i.operands.field);
  }

  lemma PortShortest(i: Instruction, word: int, operands: seq<Operand>, symbols: Symbols, at: int)
    requires Legal(i) && FormOf(i, word).Instr? && Denoted(i.mnemonic, operands, symbols, at) == Some(i)
    requires ShapeOf(i.mnemonic).WithPort?
    ensures |FormOf(i, word).operands| <= |operands|
  {
    hide Bitwise, And, Modifier, LegalControl, AddressDenoted;
    AddressNeeds(i.mnemonic, operands, 2, symbols, at, i.operands.indirect, i.operands.field);
  }

  lemma RegisterShortest(i: Instruction, word: int, operands: seq<Operand>, symbols: Symbols, at: int)
    requires Legal(i) && FormOf(i, word).Instr? && Denoted(i.mnemonic, operands, symbols, at) == Some(i)
    requires ShapeOf(i.mnemonic).WithRegister?
    ensures |FormOf(i, word).operands| <= |operands|
  {
    hide Bitwise, And, Modifier, LegalControl, AddressDenoted;
    AddressNeeds(i.mnemonic, operands[1..], 1, symbols, at, i.operands.indirect, i.operands.field);
  }

  lemma ConstantShortest(i: Instruction, word: int, operands: seq<Operand>, symbols: Symbols, at: int)
    requires Legal(i) && FormOf(i, word).Instr? && Denoted(i.mnemonic, operands, symbols, at) == Some(i)
    requires !HasAddress(i.operands)
    ensures |FormOf(i, word).operands| <= |operands|
  {
    hide Bitwise, AddressDenoted, Value;
  }

  /** Whatever operand list assembles to a word that is printed as an instruction,
      the printed one has no more operands, and all of them are plain decimals,
      registers or indirect notation, so they mean the same at every location and
      whatever the labels are. */
  lemma PrintedIsShortest(word: int, operands: seq<Operand>, symbols: Symbols, at: int)
    requires IsWord(word) && DisassembleWord(word).value.Instr?
    requires Encode(DisassembleWord(word).value.mnemonic, operands, symbols, at) == Ok(word)
    ensures |DisassembleWord(word).value.operands| <= |operands|
    ensures forall o :: o in DisassembleWord(word).value.operands ==>
              o.Star? || o.Register? || (o.Number? && o.decimal)
  {
    hide Decode, FormOf, Word, Denoted, EncodeShaped, Encode;
    var d := Decode(word);
    assert Accounts(d, word);
    FormDenotes(d.value, word, symbols, at);
    EncodeThenDecode(d.value.mnemonic, operands, symbols, at);
    NoShorter(d.value, word, operands, symbols, at);
    PlainOperands(d.value, word);
  }

  lemma PlainOperands(i: Instruction, word: int)
    requires Legal(i) && FormOf(i, word).Instr?
    ensures forall o :: o in FormOf(i, word).operands ==> o.Star? || o.Register? || (o.Number? && o.decimal)
  {
    hide Bitwise, And, Modifier, LegalControl;
  }
}
