/** The reference model's own decoder, written by hand from the manual, and the
    proof that it is the inverse of `Isa.Word` on the documented instructions. */
module Decoder {
  import opened Bits
  import opened Isa

  /** `(opcode >> 7) & 1` */
  function IndirectBit(opcode: int): bool { (opcode / 128) % 2 == 1 }

  /** `opcode & 0x7F` */
  function Control(opcode: int): int { And(opcode, 0x7F) }

  /** The test that raises UnsupportedOpcode in every memory instruction. */
  predicate RejectsAddress(opcode: int)
  {
    IndirectBit(opcode) && (And(Control(opcode), 0x46) != 0 || And(Control(opcode), 0x30) == 0x30)
  }

  /** What is rejected is what is not legal. */
  lemma ControlPart(c: int)
    requires 0 <= c < 128
    ensures And(c, 0x46) != 0 || And(c, 0x30) == 0x30 <==> !LegalControl(c)
    ensures And(c, 0x70) != 0 <==> c >= 16
  {
    hide And;
    ControlMasks(c);
    var x, y, z := (c / 64) % 2, (c / 2) % 4, (c / 16) % 4;
    assert x * 64 + y * 2 != 0 <==> x != 0 || y != 0;
    assert (c / 16) % 8 == c / 16;
  }

  lemma AddressPart(w: int)
    requires 0 <= w < 0x1_0000
    ensures 0 <= Control(w) < 128 && Control(w) == w % 128
    ensures RejectsAddress(w) <==> !LegalAddress(IndirectBit(w), Control(w))
    ensures AddressBits(IndirectBit(w), Control(w)) == w % 256
    ensures And(Control(w), 0x70) != 0 <==> Control(w) >= 16
  {
    Pow2Table();
    AndOnes(w, 7);
    ControlPart(w % 128);
    hide And, LegalControl;
    LowByte(w);
  }

  lemma LowByte(w: int)
    ensures w % 256 == (w / 128) % 2 * 128 + w % 128
  {
  }

  /** The constants: low byte, and the sign-extended low thirteen bits. */
  lemma ConstantPart(w: int)
    requires 0 <= w < 0x1_0000
    ensures And(w, 0xFF) == w % 256
    ensures And(w, 0x1FFF) == w % 8192
    ensures And(And(w, 0x1FFF), 0x1000) != 0 <==> w % 8192 >= 4096
  {
    Pow2Table();
    AndOnes(w, 8);
    AndOnes(w, 13);
    TopBit(w % 8192, 12);
  }

  /** The instruction accounts for every bit of the word. */
  predicate Accounts(r: Option<Instruction>, opcode: int)
  {
    r.Some? ==> && Legal(r.value) && Word(r.value) == opcode
                && r.value.operands == OperandsAt(r.value.mnemonic, opcode)
  }

  /** Offset of a word in an aligned block of opcodes, split at bit 8. */
  lemma Offset(w: int, base: int, n: int)
    requires n == 1 || n == 2 || n == 8 || n == 16
    requires 0 <= base <= w < base + n * 256 && base % (n * 256) == 0
    ensures w - base == (w / 256) % n * 256 + w % 256
  {
    var b, x := base / (n * 256), w - base;
    DivUnique(w, 256, n * b + x / 256, x % 256);
    DivUnique(n * b + x / 256, n, b, x / 256);
  }

  lemma Aligned(m: Mnemonic)
    ensures ShapeOf(m).PlainData? ==> Match(m) % 256 == 0
    ensures m.ADD? || m.SUB? || m.LAC? ==> Match(m) % 4096 == 0
    ensures ShapeOf(m).WithPort? ==> Match(m) % 2048 == 0
    ensures ShapeOf(m).WithRegister? ==> Match(m) % 512 == 0
    ensures Match(m) < 0xF000 ==> Match(m) + 8192 <= 0x1_0000
  {
    hide Match;
    AlignedPage(m);
    AlignedBlock(m);
    RoomAbove(m);
  }

  lemma AlignedPage(m: Mnemonic)
    ensures ShapeOf(m).PlainData? ==> Match(m) % 256 == 0
  {
  }

  lemma RoomAbove(m: Mnemonic)
    ensures Match(m) < 0xF000 ==> Match(m) + 8192 <= 0x1_0000
  {
  }

  lemma AlignedBlock(m: Mnemonic)
    ensures m.ADD? || m.SUB? || m.LAC? ==> Match(m) % 4096 == 0
    ensures ShapeOf(m).WithPort? ==> Match(m) % 2048 == 0
    ensures ShapeOf(m).WithRegister? ==> Match(m) % 512 == 0
  {
  }

  function DataOnly(m: Mnemonic, opcode: int): (r: Option<Instruction>)
    requires ShapeOf(m).PlainData? && Match(m) <= opcode < Match(m) + 256
    requires m.SST? && !IndirectBit(opcode) ==> And(Control(opcode), 0x70) == 0
    requires m.MAR? ==> opcode != 0x6880 && opcode != 0x6881
    ensures Accounts(r, opcode)
  {
    Aligned(m);
    Offset(opcode, Match(m), 1);
    assert m.MAR? ==> Match(m) == 0x6800;
    assert 0 <= opcode < 0x1_0000;
    hide Match, And, Control, LegalControl, RejectsAddress, IndirectBit;
    AddressPart(opcode);
    if RejectsAddress(opcode) then None
    else Some(Instruction(m, Data(IndirectBit(opcode), Control(opcode))))
  }

  function WithShift(m: Mnemonic, opcode: int): (r: Option<Instruction>)
    requires m.ADD? || m.SUB? || m.LAC?
    requires Match(m) <= opcode < Match(m) + 4096
    ensures Accounts(r, opcode)
  {
    Aligned(m);
    Offset(opcode, Match(m), 16);
    assert 0 <= opcode < 0x1_0000;
    hide Match, And, Control, LegalControl, RejectsAddress, IndirectBit;
    AddressPart(opcode);
    if RejectsAddress(opcode) then None
    else Some(Instruction(m, ShiftData((opcode / 256) % 16, IndirectBit(opcode), Control(opcode))))
  }

  function Sach(opcode: int): (r: Option<Instruction>)
    requires 0x5800 <= opcode < 0x6000
    ensures Accounts(r, opcode)
  {
    Offset(opcode, 0x5800, 8);
    hide And, Control, LegalControl, RejectsAddress, IndirectBit;
    AddressPart(opcode);
    var shift := (opcode / 256) % 8;
    if (shift != 0 && shift != 1 && shift != 4) || RejectsAddress(opcode) then None
    else Some(Instruction(SACH, ShiftData(shift, IndirectBit(opcode), Control(opcode))))
  }

  function ForRegister(m: Mnemonic, opcode: int): (r: Option<Instruction>)
    requires ShapeOf(m).WithRegister? && Match(m) <= opcode < Match(m) + 512
    ensures Accounts(r, opcode)
  {
    Aligned(m);
    Offset(opcode, Match(m), 2);
    assert 0 <= opcode < 0x1_0000;
    hide Match, And, Control, LegalControl, RejectsAddress, IndirectBit;
    AddressPart(opcode);
    if RejectsAddress(opcode) then None
    else Some(Instruction(m, RegisterData((opcode / 256) % 2, IndirectBit(opcode), Control(opcode))))
  }

  function ForPort(m: Mnemonic, opcode: int): (r: Option<Instruction>)
    requires ShapeOf(m).WithPort? && Match(m) <= opcode < Match(m) + 2048
    ensures Accounts(r, opcode)
  {
    Aligned(m);
    Offset(opcode, Match(m), 8);
    assert 0 <= opcode < 0x1_0000;
    hide Match, And, Control, LegalControl, RejectsAddress, IndirectBit;
    AddressPart(opcode);
    if RejectsAddress(opcode) then None
    else Some(Instruction(m, PortData((opcode / 256) % 8, IndirectBit(opcode), Control(opcode))))
  }

  function ForConstant(m: Mnemonic, c: int, opcode: int): (r: Option<Instruction>)
    requires ShapeOf(m).Immediate? && ShapeOf(m).low <= c < ShapeOf(m).high
    requires opcode == Match(m) + if c < 0 then c + 8192 else c
    ensures Accounts(r, opcode)
  {
    Some(Instruction(m, Constant(c)))
  }

  function Lark(opcode: int): (r: Option<Instruction>)
    requires 0x7000 <= opcode < 0x7200
    ensures Accounts(r, opcode)
  {
    ConstantPart(opcode);
    Offset(opcode, 0x7000, 2);
    hide And;
    Some(Instruction(LARK, RegisterConstant((opcode / 256) % 2, And(opcode, 0xFF))))
  }

  function Bare(m: Mnemonic): (r: Option<Instruction>)
    requires ShapeOf(m).TwoWord? || ShapeOf(m).Fixed?
    ensures Accounts(r, Match(m))
  {
    Some(Instruction(m, NoOperands))
  }

  /** `_decode`: the tests in the order of the source; None stands for the
      UnsupportedOpcode exception. */
  function Decode(opcode: int): (r: Option<Instruction>)
    requires 0 <= opcode < 0x1_0000
    ensures Accounts(r, opcode)
  {
    if opcode == 0xFA00 then Bare(BLZ)
    else if opcode == 0xFB00 then Bare(BLEZ)
    else if opcode == 0xFC00 then Bare(BGZ)
    else if opcode == 0xFD00 then Bare(BGEZ)
    else if opcode == 0xFE00 then Bare(BNZ)
    else if opcode == 0xFF00 then Bare(BZ)
    else if opcode == 0xF900 then Bare(B)
    else if opcode == 0xF400 then Bare(BANZ)
    else if opcode == 0xF500 then Bare(BV)
    else if opcode == 0xF600 then Bare(BIOZ)
    else if opcode == 0xF800 then Bare(CALL)
    else DecodeWide(opcode)
  }

  function DecodeWide(opcode: int): (r: Option<Instruction>)
    requires 0 <= opcode < 0x1_0000
    ensures Accounts(r, opcode)
  {
    hide And, Accounts, IndirectBit, Control, Legal, Word, OperandsAt;
    Masks(opcode);
    if And(opcode, 0xF800) == 0x4000 then ForPort(IN, opcode)
    else if And(opcode, 0xF800) == 0x4800 then ForPort(OUT, opcode)
    else if And(opcode, 0xFF00) == 0x6700 then DataOnly(TBLR, opcode)
    else if And(opcode, 0xFF00) == 0x7D00 then DataOnly(TBLW, opcode)
    else if And(opcode, 0xF000) == 0x0000 then WithShift(ADD, opcode)
    else if And(opcode, 0xF000) == 0x1000 then WithShift(SUB, opcode)
    else if And(opcode, 0xF000) == 0x2000 then WithShift(LAC, opcode)
    else if And(opcode, 0xFE00) == 0x3000 then ForRegister(SAR, opcode)
    else if And(opcode, 0xFE00) == 0x3800 then ForRegister(LAR, opcode)
    else if And(opcode, 0xFF00) == 0x7E00 then ForConstant(LACK, And(opcode, 0xFF), opcode)
    else if And(opcode, 0xFF00) == 0x5000 then DataOnly(SACL, opcode)
    else if And(opcode, 0xF800) == 0x5800 then Sach(opcode)
    else DecodeData(opcode)
  }

  function DecodeData(opcode: int): (r: Option<Instruction>)
    requires 0 <= opcode < 0x1_0000
    ensures Accounts(r, opcode)
  {
    hide And, IndirectBit, Control, Legal, Word, OperandsAt;
    Masks(opcode);
    if And(opcode, 0xFF00) == 0x6500 then DataOnly(ZALH, opcode)
    else if And(opcode, 0xFF00) == 0x6600 then DataOnly(ZALS, opcode)
    else if And(opcode, 0xFF00) == 0x6100 then DataOnly(ADDS, opcode)
    else if And(opcode, 0xFF00) == 0x6000 then DataOnly(ADDH, opcode)
    else if And(opcode, 0xFF00) == 0x6200 then DataOnly(SUBH, opcode)
    else if And(opcode, 0xFF00) == 0x6300 then DataOnly(SUBS, opcode)
    else if And(opcode, 0xFF00) == 0x6400 then DataOnly(SUBC, opcode)
    else DecodeLogic(opcode)
  }

  function DecodeLogic(opcode: int): (r: Option<Instruction>)
    requires 0 <= opcode < 0x1_0000
    ensures Accounts(r, opcode)
  {
    hide And, IndirectBit, Control, Legal, Word, OperandsAt;
    Masks(opcode);
    if And(opcode, 0xFF00) == 0x7800 then DataOnly(XOR, opcode)
    else if And(opcode, 0xFF00) == 0x7900 then DataOnly(AND, opcode)
    else if And(opcode, 0xFF00) == 0x7A00 then DataOnly(OR, opcode)
    else if And(opcode, 0xFF00) == 0x7B00 then DataOnly(LST, opcode)
    else if And(opcode, 0xFF00) == 0x7C00 then
      if !IndirectBit(opcode) && And(Control(opcode), 0x70) != 0 then None
      else DataOnly(SST, opcode)
    else DecodeRest(opcode)
  }

  function DecodeRest(opcode: int): (r: Option<Instruction>)
    requires 0 <= opcode < 0x1_0000
    ensures Accounts(r, opcode)
  {
    hide And, Accounts, IndirectBit, Control, Legal, Word, OperandsAt;
    Masks(opcode);
    SignTest(opcode);
    if And(opcode, 0xFE00) == 0x7000 then Lark(opcode)
    else if And(opcode, 0xFFFE) == 0x6880 then ForConstant(LARP, And(opcode, 1), opcode)
    else if And(opcode, 0xFF00) == 0x6800 then
      LarpWords(opcode);
      DataOnly(MAR, opcode)
    else if And(opcode, 0xFF00) == 0x6F00 then DataOnly(LDP, opcode)
    else if And(opcode, 0xFF00) == 0x6A00 then DataOnly(LT, opcode)
    else if And(opcode, 0xFF00) == 0x6900 then DataOnly(DMOV, opcode)
    else if And(opcode, 0xFF00) == 0x6C00 then DataOnly(LTA, opcode)
    else if And(opcode, 0xFF00) == 0x6B00 then DataOnly(LTD, opcode)
    else if And(opcode, 0xFF00) == 0x6D00 then DataOnly(MPY, opcode)
    else if And(opcode, 0xE000) == 0x8000 then
      var constant := And(opcode, 0x1FFF);
      ForConstant(MPYK, if And(constant, 0x1000) != 0 then constant - 0x2000 else constant, opcode)
    else if And(opcode, 0xFFFE) == 0x6E00 then ForConstant(LDPK, And(opcode, 1), opcode)
    else DecodeFixed(opcode)
  }

  lemma SignTest(w: int)
    requires 0 <= w < 0x1_0000
    ensures And(And(w, 0x1FFF), 0x1000) != 0 <==> And(w, 0x1FFF) >= 4096
  {
    ConstantPart(w);
  }

  lemma LarpWords(w: int)
    requires w == 0x6880 || w == 0x6881 ==> And(w, 0xFFFE) != 0x6880
    ensures w != 0x6880 && w != 0x6881
  {
    if w == 0x6880 || w == 0x6881 {
      Pow2Table();
      BlockMask(w, 0x6880, 1);
    }
  }

  lemma ControlWords()
    ensures Match(NOP) == 0x7F80 && Match(DINT) == 0x7F81 && Match(EINT) == 0x7F82
    ensures Match(ROVM) == 0x7F8A && Match(SOVM) == 0x7F8B
  {
  }

  lemma AccumulatorWords()
    ensures Match(ABS) == 0x7F88 && Match(ZAC) == 0x7F89 && Match(PAC) == 0x7F8E
    ensures Match(APAC) == 0x7F8F && Match(SPAC) == 0x7F90
  {
  }

  lemma StackWords()
    ensures Match(CALA) == 0x7F8C && Match(RET) == 0x7F8D && Match(PUSH) == 0x7F9C && Match(POP) == 0x7F9D
  {
  }

  lemma NothingToAccount(opcode: int)
    ensures Accounts(None, opcode)
  {
  }

  function DecodeFixed(opcode: int): (r: Option<Instruction>)
    ensures Accounts(r, opcode)
  {
    hide Legal, Word, OperandsAt, Accounts, Match;
    NothingToAccount(opcode);
    ControlWords();
    AccumulatorWords();
    StackWords();
    match opcode
    case 0x7F80 => Bare(NOP)
    case 0x7F81 => Bare(DINT)
    case 0x7F82 => Bare(EINT)
    case 0x7F88 => Bare(ABS)
    case 0x7F89 => Bare(ZAC)
    case 0x7F8A => Bare(ROVM)
    case 0x7F8B => Bare(SOVM)
    case 0x7F8C => Bare(CALA)
    case 0x7F8D => Bare(RET)
    case 0x7F8E => Bare(PAC)
    case 0x7F8F => Bare(APAC)
    case 0x7F90 => Bare(SPAC)
    case 0x7F9C => Bare(PUSH)
    case 0x7F9D => Bare(POP)
    case _ => None
  }
}
