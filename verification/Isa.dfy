/** Instructions as values: mnemonics, decoded operands, and the one word that
    stands for each legal instruction. */
module Isa {
  import opened Bits

  datatype Option<+T> = None | Some(value: T)

  datatype Mnemonic =
    | ABS | ADD | ADDH | ADDS | AND | APAC | B | BANZ | BGEZ | BGZ | BIOZ | BLEZ
    | BLZ | BNZ | BV | BZ | CALA | CALL | DINT | DMOV | EINT | IN | LAC | LACK
    | LAR | LARK | LARP | LDP | LDPK | LST | LT | LTA | LTD | MAR | MPY | MPYK
    | NOP | OR | OUT | PAC | POP | PUSH | RET | ROVM | SACH | SACL | SAR | SOVM
    | SPAC | SST | SUB | SUBC | SUBH | SUBS | TBLR | TBLW | XOR | ZAC | ZALH | ZALS

  /** The operand dictionary of a decoded instruction. `field` is the seven-bit
      addressing field: an offset when direct, control bits when indirect. */
  datatype Operands =
    | NoOperands
    | Data(indirect: bool, field: int)
    | ShiftData(shift: int, indirect: bool, field: int)
    | RegisterData(register: int, indirect: bool, field: int)
    | PortData(port: int, indirect: bool, field: int)
    | Constant(constant: int)
    | RegisterConstant(register: int, constant: int)

  datatype Instruction = Instruction(mnemonic: Mnemonic, operands: Operands)

  /** The operand shapes: two-word control flow, no operands, the common data
      address alone or with a shift, register or port, and constants. */
  datatype Shape =
    | TwoWord | Fixed | PlainData | Shifted | WithRegister | WithPort
    | Immediate(low: int, high: int) | RegisterImmediate

  function ShapeOf(m: Mnemonic): Shape
  {
    match m
    case B | BANZ | BGEZ | BGZ | BIOZ | BLEZ | BLZ | BNZ | BV | BZ | CALL => TwoWord
    case ADD | LAC | SUB | SACH => Shifted
    case LAR | SAR => WithRegister
    case IN | OUT => WithPort
    case LACK => Immediate(0, 256)
    case LARP | LDPK => Immediate(0, 2)
    case MPYK => Immediate(-4096, 4096)
    case LARK => RegisterImmediate
    case ADDH | ADDS | AND | DMOV | LDP | LST | LT | LTA | LTD | MAR | MPY | OR | SACL
       | SST | SUBC | SUBH | SUBS | TBLR | TBLW | XOR | ZALH | ZALS => PlainData
    case ABS | APAC | CALA | DINT | EINT | NOP | PAC | POP | PUSH | RET | ROVM | SOVM
       | SPAC | ZAC => Fixed
  }

  predicate IsAccumulatorBranch(m: Mnemonic)
  {
    m.BGEZ? || m.BGZ? || m.BLEZ? || m.BLZ? || m.BNZ? || m.BZ?
  }

  /** The mnemonics whose target address is the following program word. */
  predicate IsTwoWord(m: Mnemonic)
  {
    ShapeOf(m).TwoWord?
  }

  /** The opcode bits that do not depend on operands. */
  function Match(m: Mnemonic): (w: int)
    ensures 0 <= w < 0x1_0000
  {
    match m
    case ADD => 0x0000 case SUB => 0x1000 case LAC => 0x2000
    case SAR => 0x3000 case LAR => 0x3800 case IN => 0x4000 case OUT => 0x4800
    case SACL => 0x5000 case SACH => 0x5800
    case ADDH => 0x6000 case ADDS => 0x6100 case SUBH => 0x6200 case SUBS => 0x6300
    case SUBC => 0x6400 case ZALH => 0x6500 case ZALS => 0x6600 case TBLR => 0x6700
    case MAR => 0x6800 case LARP => 0x6880 case DMOV => 0x6900 case LT => 0x6A00
    case LTD => 0x6B00 case LTA => 0x6C00 case MPY => 0x6D00 case LDPK => 0x6E00
    case LDP => 0x6F00 case LARK => 0x7000 case XOR => 0x7800 case AND => 0x7900
    case OR => 0x7A00 case LST => 0x7B00 case SST => 0x7C00 case TBLW => 0x7D00
    case LACK => 0x7E00 case NOP => 0x7F80 case DINT => 0x7F81 case EINT => 0x7F82
    case ABS => 0x7F88 case ZAC => 0x7F89 case ROVM => 0x7F8A case SOVM => 0x7F8B
    case CALA => 0x7F8C case RET => 0x7F8D case PAC => 0x7F8E case APAC => 0x7F8F
    case SPAC => 0x7F90 case PUSH => 0x7F9C case POP => 0x7F9D case MPYK => 0x8000
    case BANZ => 0xF400 case BV => 0xF500 case BIOZ => 0xF600 case CALL => 0xF800
    case B => 0xF900 case BLZ => 0xFA00 case BLEZ => 0xFB00 case BGZ => 0xFC00
    case BGEZ => 0xFD00 case BNZ => 0xFE00 case BZ => 0xFF00
  }

  /** Control bits the original part defines: bits 6, 2 and 1 clear and not both
      counter updates at once. */
  predicate LegalControl(control: int)
  {
    (control / 64) % 2 == 0 && (control / 2) % 4 == 0 && (control / 16) % 4 != 3
  }

  predicate LegalAddress(indirect: bool, field: int)
  {
    0 <= field < 128 && (indirect ==> LegalControl(field))
  }

  predicate LegalShift(m: Mnemonic, shift: int)
  {
    if m.SACH? then shift == 0 || shift == 1 || shift == 4 else 0 <= shift < 16
  }

  /** The instructions the part documents, each with its operand ranges. The
      word of MAR with control 0 or 1 is the word of LARP. */
  predicate Legal(i: Instruction)
  {
    match ShapeOf(i.mnemonic)
    case TwoWord => i.operands.NoOperands?
    case Fixed => i.operands.NoOperands?
    case PlainData =>
      && i.operands.Data?
      && LegalAddress(i.operands.indirect, i.operands.field)
      && (i.mnemonic.SST? && !i.operands.indirect ==> i.operands.field < 16)
      && (i.mnemonic.MAR? && i.operands.indirect ==> i.operands.field > 1)
    case Shifted =>
      && i.operands.ShiftData?
      && LegalAddress(i.operands.indirect, i.operands.field)
      && LegalShift(i.mnemonic, i.operands.shift)
    case WithRegister =>
      && i.operands.RegisterData?
      && LegalAddress(i.operands.indirect, i.operands.field)
      && 0 <= i.operands.register < 2
    case WithPort =>
      && i.operands.PortData?
      && LegalAddress(i.operands.indirect, i.operands.field)
      && 0 <= i.operands.port < 8
    case Immediate(low, high) =>
      i.operands.Constant? && low <= i.operands.constant < high
    case RegisterImmediate =>
      && i.operands.RegisterConstant?
      && 0 <= i.operands.register < 2
      && 0 <= i.operands.constant < 256
  }

  function AddressBits(indirect: bool, field: int): int
  {
    (if indirect then 0x80 else 0) + field
  }

  /** The program word of an instruction. */
  function Word(i: Instruction): int
  {
    Match(i.mnemonic) +
    match i.operands
    case NoOperands => 0
    case Data(ind, field) => AddressBits(ind, field)
    case ShiftData(shift, ind, field) => shift * 256 + AddressBits(ind, field)
    case RegisterData(register, ind, field) => register * 256 + AddressBits(ind, field)
    case PortData(port, ind, field) => port * 256 + AddressBits(ind, field)
    case Constant(c) => if i.mnemonic == MPYK then c % 8192 else c
    case RegisterConstant(register, c) => register * 256 + c
  }

  /** The operand fields of a word read as the mnemonic's shape. */
  function OperandsAt(m: Mnemonic, w: int): Operands
  {
    var indirect, field := (w / 128) % 2 == 1, w % 128;
    match ShapeOf(m)
    case TwoWord => NoOperands
    case Fixed => NoOperands
    case PlainData => Data(indirect, field)
    case Shifted => ShiftData(if m.SACH? then (w / 256) % 8 else (w / 256) % 16, indirect, field)
    case WithRegister => RegisterData((w / 256) % 2, indirect, field)
    case WithPort => PortData((w / 256) % 8, indirect, field)
    case Immediate(_, _) =>
      Constant(if m.LACK? then w % 256
               else if m.MPYK? then (if w % 8192 >= 4096 then w % 8192 - 8192 else w % 8192)
               else w % 2)
    case RegisterImmediate => RegisterConstant((w / 256) % 2, w % 256)
  }

  // ----------------------------------------------------------------- masks

  /** What the fixed masks of the decoders select: the word without its low
      bits. */
  lemma Masks(w: int)
    requires 0 <= w < 0x1_0000
    ensures And(w, 1) + And(w, 0xFFFE) == w && 0 <= And(w, 1) < 2
    ensures And(w, 0xFF) + And(w, 0xFF00) == w && 0 <= And(w, 0xFF) < 256
    ensures And(w, 0x1FFF) + And(w, 0xE000) == w && 0 <= And(w, 0x1FFF) < 8192
    ensures And(w, 0xFE00) <= w < And(w, 0xFE00) + 512
    ensures And(w, 0xF800) <= w < And(w, 0xF800) + 2048
    ensures And(w, 0xF000) <= w < And(w, 0xF000) + 4096
  {
    Pow2Table();
    hide Bitwise, Pow2;
    HighMask(w, 1);
    HighMask(w, 8);
    HighMask(w, 9);
    HighMask(w, 11);
    HighMask(w, 12);
    HighMask(w, 13);
    AndOnes(w, 1);
    AndOnes(w, 8);
    AndOnes(w, 13);
  }

  /** The masked value of a word in an aligned block of opcodes. */
  lemma BlockMask(w: int, base: int, k: nat)
    requires k <= 16 && 0 <= base <= w < base + Pow2(k) && w < 0x1_0000
    requires base % Pow2(k) == 0
    ensures And(w, 0x1_0000 - Pow2(k)) == base
  {
    hide Bitwise, Pow2;
    HighMask(w, k);
    var p := Pow2(k);
    assert base == p * (base / p);
    DivUnique(w, p, base / p, w - base);
  }

  /** A word has an aligned pattern exactly when it lies in its block. */
  lemma InBlock(w: int, base: int, k: nat)
    requires k <= 16 && 0 <= base && base + Pow2(k) <= 0x1_0000 && 0 <= w < 0x1_0000
    requires base % Pow2(k) == 0
    ensures And(w, 0x1_0000 - Pow2(k)) == And(base, 0x1_0000 - Pow2(k))
       <==> base <= w < base + Pow2(k)
  {
    hide Bitwise, Pow2;
    BlockMask(base, base, k);
    HighMask(w, k);
    assert w == Pow2(k) * (w / Pow2(k)) + w % Pow2(k);
    if base <= w < base + Pow2(k) { BlockMask(w, base, k); }
  }

  /** The test for a word that is not a program address. */
  lemma AddressTest(word: int)
    requires 0 <= word < 0x1_0000
    ensures And(word, 0xF000) != 0 <==> word >= 4096
    ensures word < 4096 ==> word % 4096 == word
  {
    Pow2Table();
    HighMask(word, 12);
  }

  lemma HighMask(w: int, k: nat)
    requires 0 <= w < 0x1_0000 && k <= 16
    ensures And(w, 0x1_0000 - Pow2(k)) == w / Pow2(k) * Pow2(k)
  {
    Pow2Table();
    hide Bitwise, Pow2;
    var p, n := Pow2(k), Pow2(16 - k);
    Pow2Add(16 - k, k);
    Distribute(n, p);
    AndShifted(w, n - 1, k);
    AndOnes(w / p, 16 - k);
    QuotientBound(w, n, p);
  }

  lemma Distribute(n: int, p: int)
    ensures (n - 1) * p == n * p - p
  {
  }

  lemma QuotientBound(w: int, n: int, p: int)
    requires 0 <= w < n * p && p > 0 && n > 0
    ensures 0 <= w / p < n && (w / p) % n == w / p
  {
    var q := w / p;
    assert w == p * q + w % p;
    MultipleIsFar(p, q - n + 1);
    assert p * (q - n + 1) == p * q - n * p + p;
    DivUnique(q, n, 0, q);
  }

  /** The masks inside the seven-bit addressing field. */
  lemma ControlMasks(w: int)
    requires 0 <= w < 0x1_0000
    ensures And(w, 0x7F) == w % 128
    ensures And(w, 0x80) == (w / 128) % 2 * 128
    ensures And(w, 0x46) == (w / 64) % 2 * 64 + (w / 2) % 4 * 2
    ensures And(w, 0x30) == (w / 16) % 4 * 16
    ensures And(w, 0x70) == (w / 16) % 8 * 16
    ensures And(w, 0x20) == (w / 32) % 2 * 32
    ensures And(w, 0x10) == (w / 16) % 2 * 16
    ensures And(w, 0x08) == (w / 8) % 2 * 8
    ensures And(w, 1) == w % 2
  {
    Pow2Table();
    hide Bitwise, Pow2;
    AndOnes(w, 7);
    AndOnes(w, 1);
    Window(w, 7, 1);
    Window(w, 4, 2);
    Window(w, 4, 3);
    Window(w, 5, 1);
    Window(w, 4, 1);
    Window(w, 3, 1);
    Window(w, 6, 1);
    Window(w, 1, 2);
    ReservedMask(w);
  }

  lemma Window(w: int, lsb: nat, width: nat)
    ensures And(w, (Pow2(width) - 1) * Pow2(lsb)) == (w / Pow2(lsb)) % Pow2(width) * Pow2(lsb)
  {
    hide Bitwise, Pow2;
    AndShifted(w, Pow2(width) - 1, lsb);
    AndOnes(w / Pow2(lsb), width);
  }

  lemma ReservedMask(w: int)
    ensures And(w, 0x46) == And(w, 0x40) + And(w, 0x06)
  {
    Pow2Table();
    var q, r := w / 8, w % 8;
    assert And(q, 0) == 0 by { AndZero(q); }
    assert And(r, 0) == 0 by { AndZero(r); }
    hide Bitwise;
    Split(AndOp, q, r, 8, 6, 3);
    Split(AndOp, q, r, 8, 0, 3);
    Split(AndOp, q, r, 0, 6, 3);
  }
}
