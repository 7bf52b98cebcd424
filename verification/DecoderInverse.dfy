/** Decoding and encoding are inverse: the hand-written decoder accepts exactly
    the words of legal instructions and returns exactly that instruction. */
module DecoderInverse {
  import opened Bits
  import opened Isa
  import opened Decoder

  /** The address part of a word built from its pieces. */
  lemma AddressRoundTrip(w: int, base: int, indirect: bool, field: int)
    requires base % 256 == 0 && 0 <= base && 0 <= w < 0x1_0000
    requires w == base + AddressBits(indirect, field) && LegalAddress(indirect, field)
    ensures w / 256 == base / 256
    ensures IndirectBit(w) == indirect && Control(w) == field && !RejectsAddress(w)
  {
    BitSeven(w, base, if indirect then 1 else 0, field);
    AddressPart(w);
  }

  lemma BitSeven(w: int, base: int, bit: int, field: int)
    requires base % 256 == 0 && 0 <= bit < 2 && 0 <= field < 128
    requires w == base + bit * 128 + field
    ensures w / 256 == base / 256 && (w / 128) % 2 == bit && w % 128 == field
  {
  }

  lemma PlainDataRoundTrip(i: Instruction)
    requires Legal(i) && ShapeOf(i.mnemonic).PlainData?
    ensures Match(i.mnemonic) <= Word(i) < Match(i.mnemonic) + 256
    ensures Decode(Word(i)) == Some(i)
  {
    var m, w := i.mnemonic, Word(i);
    Aligned(m);
    PlainMatchRange(m);
    AddressRoundTrip(w, Match(m), i.operands.indirect, i.operands.field);
    AddressPart(w);
    PlainPath(m, w) by {
      assert m.SST? && !IndirectBit(w) ==> And(Control(w), 0x70) == 0;
      assert m.MAR? ==> w != 0x6880 && w != 0x6881;
    }
    hide Decode, Match;
  }

  lemma PlainMatchRange(m: Mnemonic)
    ensures ShapeOf(m).PlainData? ==> Match(m) + 256 <= 0x1_0000
  {
  }

  // ------------------------------------------------ which test is reached

  /** The wide masks do not claim these pages. */
  lemma PastWide(w: int, page: int)
    requires 0x60 <= page < 0xF0 && page != 0x67 && page != 0x7D && page != 0x7E
    requires page * 256 <= w < page * 256 + 256
    ensures Decode(w) == DecodeData(w)
  {
    Masks(w);
    hide And, ForPort, DataOnly, WithShift, ForRegister, ForConstant, Sach, DecodeData;
  }

  lemma PastData(w: int, page: int)
    requires 0x67 <= page < 0xF0 && !(0x78 <= page <= 0x7E)
    requires page * 256 <= w < page * 256 + 256
    ensures DecodeData(w) == DecodeRest(w)
  {
    Masks(w);
    hide And, DataOnly, DecodeRest;
  }

  lemma PastRest(w: int)
    requires 0x7F00 <= w < 0x8000
    ensures DecodeRest(w) == DecodeFixed(w)
  {
    hide And, DataOnly, Lark, ForConstant, DecodeFixed;
    RestMasks(w);
  }

  lemma RestMasks(w: int)
    requires 0x7F00 <= w < 0x8000
    ensures And(w, 0xFE00) != 0x7000 && And(w, 0xFFFE) != 0x6880 && And(w, 0xFFFE) != 0x6E00
    ensures And(w, 0xFF00) > 0x6F00 && And(w, 0xE000) != 0x8000
  {
    Masks(w);
  }

  /** The chain of tests reaches the branch of the mnemonic that owns the page. */
  lemma PlainPath(m: Mnemonic, w: int)
    requires ShapeOf(m).PlainData? && Match(m) <= w < Match(m) + 256
    requires m.SST? && !IndirectBit(w) ==> And(Control(w), 0x70) == 0
    requires m.MAR? ==> w != 0x6880 && w != 0x6881
    ensures Decode(w) == DataOnly(m, w)
  {
    Pow2Table();
    Aligned(m);
    PlainMatchRange(m);
    BlockMask(w, Match(m), 8);
    Masks(w);
    hide Pow2, Bitwise, And, IndirectBit, Control, DataOnly;
    if m.TBLR? || m.TBLW? || m.SACL? {
      EarlyPath(m, w);
    } else if m.DMOV? || m.LDP? || m.LT? || m.LTA? || m.LTD? || m.MAR? || m.MPY? {
      PastWide(w, Match(m) / 256);
      PastData(w, Match(m) / 256);
      LatePath(m, w);
    } else {
      PastWide(w, Match(m) / 256);
      MiddlePath(m, w);
    }
  }

  lemma EarlyPath(m: Mnemonic, w: int)
    requires (m.TBLR? || m.TBLW? || m.SACL?) && Match(m) <= w < Match(m) + 256
    requires And(w, 0xFF00) == Match(m)
    ensures Decode(w) == DataOnly(m, w)
  {
    hide And, DataOnly, Accounts, Legal, Word, OperandsAt, DecodeData;
    Masks(w);
  }

  lemma MiddlePath(m: Mnemonic, w: int)
    requires ShapeOf(m).PlainData? && And(w, 0xFF00) == Match(m)
    requires !(m.TBLR? || m.TBLW? || m.SACL?)
    requires !(m.DMOV? || m.LDP? || m.LT? || m.LTA? || m.LTD? || m.MAR? || m.MPY?)
    requires Match(m) <= w < Match(m) + 256 && 0 <= w < 0x1_0000
    requires m.SST? && !IndirectBit(w) ==> And(Control(w), 0x70) == 0
    ensures DecodeData(w) == DataOnly(m, w)
  {
    hide And, IndirectBit, Control, DataOnly, DecodeRest;
  }

  lemma LatePath(m: Mnemonic, w: int)
    requires m.DMOV? || m.LDP? || m.LT? || m.LTA? || m.LTD? || m.MAR? || m.MPY?
    requires Match(m) <= w < Match(m) + 256 && And(w, 0xFF00) == Match(m)
    requires m.MAR? ==> w != 0x6880 && w != 0x6881
    ensures DecodeRest(w) == DataOnly(m, w)
  {
    hide And, IndirectBit, Control, DataOnly, DecodeFixed, Accounts, Legal, Word, OperandsAt, Lark, ForConstant;
    Masks(w);
    MarPath(w);
  }

  lemma MarPath(w: int)
    requires 0 <= w < 0x1_0000
    ensures And(w, 0xFFFE) == 0x6880 ==> w == 0x6880 || w == 0x6881
    ensures And(w, 0xFFFE) == 0x6E00 ==> w == 0x6E00 || w == 0x6E01
  {
    Masks(w);
  }

  lemma WidePath(m: Mnemonic, w: int)
    requires m.ADD? || m.SUB? || m.LAC?
    requires Match(m) <= w < Match(m) + 4096
    ensures Decode(w) == WithShift(m, w)
  {
    hide And, DecodeData, Accounts, Legal, Word, OperandsAt, IndirectBit, Control, WithShift;
    Pow2Table();
    Masks(w);
    BlockMask(w, Match(m), 12);
  }

  lemma SachPath(w: int)
    requires 0x5800 <= w < 0x6000
    ensures Decode(w) == Sach(w)
  {
    hide And, DecodeData, Accounts, Legal, Word, OperandsAt, IndirectBit, Control, Sach;
    Pow2Table();
    Masks(w);
    BlockMask(w, 0x5800, 11);
  }

  lemma RegisterPath(m: Mnemonic, w: int)
    requires ShapeOf(m).WithRegister? && Match(m) <= w < Match(m) + 512
    ensures Decode(w) == ForRegister(m, w)
  {
    hide And, DecodeData, Accounts, Legal, Word, OperandsAt, IndirectBit, Control, ForRegister;
    Pow2Table();
    Masks(w);
    BlockMask(w, Match(m), 9);
  }

  lemma PortPath(m: Mnemonic, w: int)
    requires ShapeOf(m).WithPort? && Match(m) <= w < Match(m) + 2048
    ensures Decode(w) == ForPort(m, w)
  {
    hide And, DecodeData, Accounts, Legal, Word, OperandsAt, IndirectBit, Control, ForPort;
    Pow2Table();
    Masks(w);
    BlockMask(w, Match(m), 11);
  }

  // ------------------------------------------------------- the other shapes

  lemma ShiftedRoundTrip(i: Instruction)
    requires Legal(i) && ShapeOf(i.mnemonic).Shifted?
    ensures 0 <= Word(i) < 0x1_0000 && Decode(Word(i)) == Some(i)
  {
    hide Decode, Match, IndirectBit, Control, RejectsAddress, And;
    var m, w, shift := i.mnemonic, Word(i), i.operands.shift;
    ShiftedMatch(m);
    AddressRoundTrip(w, Match(m) + shift * 256, i.operands.indirect, i.operands.field);
    if m.SACH? { SachPath(w); } else { WidePath(m, w); }
  }

  lemma ShiftedMatch(m: Mnemonic)
    ensures ShapeOf(m).Shifted? ==>
              Match(m) == if m.SACH? then 0x5800 else if m.ADD? then 0 else if m.SUB? then 0x1000 else 0x2000
  {
  }

  lemma RegisterRoundTrip(i: Instruction)
    requires Legal(i) && ShapeOf(i.mnemonic).WithRegister?
    ensures 0 <= Word(i) < 0x1_0000 && Decode(Word(i)) == Some(i)
  {
    var m, w := i.mnemonic, Word(i);
    assert Match(m) == if m.LAR? then 0x3800 else 0x3000;
    hide Match;
    AddressRoundTrip(w, Match(m) + i.operands.register * 256, i.operands.indirect, i.operands.field);
    RegisterPath(m, w);
    hide Decode, IndirectBit, Control, RejectsAddress;
  }

  lemma PortRoundTrip(i: Instruction)
    requires Legal(i) && ShapeOf(i.mnemonic).WithPort?
    ensures 0 <= Word(i) < 0x1_0000 && Decode(Word(i)) == Some(i)
  {
    var m, w := i.mnemonic, Word(i);
    assert Match(m) == if m.IN? then 0x4000 else 0x4800;
    hide Match;
    AddressRoundTrip(w, Match(m) + i.operands.port * 256, i.operands.indirect, i.operands.field);
    PortPath(m, w);
    hide Decode, IndirectBit, Control, RejectsAddress;
  }

  lemma ConstantRoundTrip(i: Instruction)
    requires Legal(i) && ShapeOf(i.mnemonic).Immediate?
    ensures 0 <= Word(i) < 0x1_0000 && Decode(Word(i)) == Some(i)
  {
    var m, c := i.mnemonic, i.operands.constant;
    var w := Word(i);
    if m.MPYK? {
      assert w == 0x8000 + if c < 0 then c + 8192 else c;
      MpykPath(w);
    } else if m.LACK? {
      LackPath(w);
    } else {
      BitPath(m, w, c);
    }
  }

  lemma MpykPath(w: int)
    requires 0x8000 <= w < 0xA000
    ensures Decode(w) == Some(Instruction(MPYK,
              Constant(if w >= 0x9000 then w - 0xA000 else w - 0x8000)))
  {
    hide Accounts, Legal, Word, OperandsAt;
    hide And, Decode, DecodeData, DataOnly, Lark, DecodeFixed;
    PageOf(w);
    PastWide(w, w / 256);
    PastData(w, w / 256);
    Pow2Table();
    Masks(w);
    BlockMask(w, 0x8000, 13);
    SignTest(w);
  }

  lemma PageOf(w: int)
    requires 0x8000 <= w < 0xA000
    ensures 0x80 <= w / 256 < 0xA0 && w / 256 * 256 <= w < w / 256 * 256 + 256
  {
  }

  lemma LackPath(w: int)
    requires 0x7E00 <= w < 0x7F00
    ensures Decode(w) == Some(Instruction(LACK, Constant(w - 0x7E00)))
  {
    Pow2Table();
    Masks(w);
    BlockMask(w, 0x7E00, 8);
    hide And;
  }

  lemma BitPath(m: Mnemonic, w: int, c: int)
    requires (m.LARP? || m.LDPK?) && 0 <= c < 2 && w == Match(m) + c
    ensures Decode(w) == Some(Instruction(m, Constant(c)))
  {
    hide And, Decode, DecodeData, DataOnly, Lark, DecodeFixed;
    var page := if m.LARP? then 0x68 else 0x6E;
    PastWide(w, page);
    PastData(w, page);
    Pow2Table();
    Masks(w);
    BlockMask(w, Match(m), 1);
    BlockMask(w, page * 256, 8);
  }

  lemma LarkRoundTrip(i: Instruction)
    requires Legal(i) && i.mnemonic.LARK?
    ensures 0 <= Word(i) < 0x1_0000 && Decode(Word(i)) == Some(i)
  {
    var w, r, c := Word(i), i.operands.register, i.operands.constant;
    var page := 0x70 + r;
    DivUnique(w, 256, page, c);
    PastWide(w, page);
    PastData(w, page);
    Pow2Table();
    BlockMask(w, 0x7000, 9);
    BlockMask(w, page * 256, 8);
    Masks(w);
    hide And, Decode, DecodeData, DataOnly, DecodeFixed;
  }

  lemma FixedRoundTrip(i: Instruction)
    requires Legal(i) && (ShapeOf(i.mnemonic).Fixed? || ShapeOf(i.mnemonic).TwoWord?)
    ensures 0 <= Word(i) < 0x1_0000 && Decode(Word(i)) == Some(i)
  {
    assert Word(i) == Match(i.mnemonic);
    if ShapeOf(i.mnemonic).Fixed? {
      FixedPath(i.mnemonic);
      var w := Match(i.mnemonic);
      hide Decode, DecodeData, DecodeRest, DecodeFixed;
      PastWide(w, 0x7F);
      PastData(w, 0x7F);
      PastRest(w);
    } else {
      hide DecodeWide;
    }
  }

  lemma FixedPath(m: Mnemonic)
    requires ShapeOf(m).Fixed?
    ensures 0x7F00 <= Match(m) < 0x8000
    ensures DecodeFixed(Match(m)) == Some(Instruction(m, NoOperands))
  {
  }

  // ------------------------------------------------------------ main results

  /** Every legal instruction is recovered from its word. */
  lemma DecodeAfterWord(i: Instruction)
    requires Legal(i)
    ensures 0 <= Word(i) < 0x1_0000 && Decode(Word(i)) == Some(i)
  {
    hide Decode, Word, Match, Legal;
    match ShapeOf(i.mnemonic)
    case TwoWord => FixedRoundTrip(i);
    case Fixed => FixedRoundTrip(i);
    case PlainData => PlainDataRoundTrip(i); PlainMatchRange(i.mnemonic);
    case Shifted => ShiftedRoundTrip(i);
    case WithRegister => RegisterRoundTrip(i);
    case WithPort => PortRoundTrip(i);
    case Immediate(low, high) => ConstantRoundTrip(i);
    case RegisterImmediate =>
      assert i.mnemonic.LARK?;
      LarkRoundTrip(i);
  }

  /** The decoder is exactly the inverse of `Word`: a word decodes to i when i is
      legal and has that word, and in no other case. */
  lemma DecodeIsInverse(w: int, i: Instruction)
    requires 0 <= w < 0x1_0000
    ensures Decode(w) == Some(i) <==> Legal(i) && Word(i) == w
  {
    hide Decode, Word, Legal;
    assert Accounts(Decode(w), w);
    if Legal(i) { DecodeAfterWord(i); }
  }

  /** No two legal instructions share a word. */
  lemma WordInjective(i: Instruction, j: Instruction)
    requires Legal(i) && Legal(j) && Word(i) == Word(j)
    ensures i == j
  {
    hide Decode, Word, Legal;
    DecodeAfterWord(i);
    DecodeAfterWord(j);
  }
}
