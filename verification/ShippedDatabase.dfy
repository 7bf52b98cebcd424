/** The instruction database that ships with the toolchain. It passes the
    validator, and its decoder and the reference model's hand-written decoder
    agree on every word. */
module ShippedDatabase {
  import opened Bits
  import opened Isa
  import opened IsaDatabase
  import opened FieldReconstruction
  import opened Classification
  import opened Decoder
  import opened DecoderInverse
  import Semantics

  // ---------------------------------------------------------------- the table

  function Unsigned(name: FieldName, lsb: int, width: int): Field
  {
    Field(name, lsb, width, false, None)
  }

  function AddressFields(): seq<Field>
  {
    [Unsigned(IndirectName, 7, 1), Unsigned(AddressingName, 0, 7)]
  }

  /** Bits 6, 2 and 1 clear, and not both counter updates, when indirect. */
  function IndirectRules(): seq<Constraint>
  {
    [Require(Pattern(0x80, 0x80), Pattern(0x46, 0)), Forbid(Pattern(0x80, 0x80), Pattern(0x30, 0x30))]
  }

  function ConstraintsOf(m: Mnemonic): seq<Constraint>
  {
    match ShapeOf(m)
    case PlainData =>
      if m.MAR? then [Forbid(Pattern(0xFF00, 0x6800), Pattern(0xFFFE, 0x6880))] + IndirectRules()
      else if m.SST? then [Require(Pattern(0x80, 0), Pattern(0x70, 0))] + IndirectRules()
      else IndirectRules()
    case Shifted => IndirectRules()
    case WithRegister => IndirectRules()
    case WithPort => IndirectRules()
    case _ => []
  }

  /** How many low bits of the word the fields describe. */
  function FieldBits(m: Mnemonic): nat
  {
    match ShapeOf(m)
    case TwoWord => 0
    case Fixed => 0
    case PlainData => 8
    case Shifted => if m.SACH? then 11 else 12
    case WithRegister => 9
    case WithPort => 11
    case Immediate(_, _) => if m.LACK? then 8 else if m.MPYK? then 13 else 1
    case RegisterImmediate => 9
  }

  function FieldsOf(m: Mnemonic): seq<Field>
  {
    match ShapeOf(m)
    case TwoWord => []
    case Fixed => []
    case PlainData => AddressFields()
    case Shifted =>
      [if m.SACH? then Field(ShiftName, 8, 3, false, Some([0, 1, 4])) else Unsigned(ShiftName, 8, 4)]
      + AddressFields()
    case WithRegister => [Unsigned(RegisterName, 8, 1)] + AddressFields()
    case WithPort => [Unsigned(PortName, 8, 3)] + AddressFields()
    case Immediate(_, _) => [Field(ConstantName, 0, FieldBits(m), m.MPYK?, None)]
    case RegisterImmediate => [Unsigned(RegisterName, 8, 1), Unsigned(ConstantName, 0, 8)]
  }

  function MaskOf(m: Mnemonic): int
  {
    0x1_0000 - Pow2(FieldBits(m))
  }

  function CyclesOf(m: Mnemonic): int
  {
    if m.TBLR? || m.TBLW? then 3
    else if IsTwoWord(m) || m.IN? || m.OUT? || m.CALA? || m.RET? || m.POP? || m.PUSH? then 2
    else 1
  }

  /** The documented cycle count is the time the machine takes. */
  lemma CyclesAreDuration(m: Mnemonic)
    ensures CyclesOf(m) == Semantics.Duration(m)
  {
  }

  function MinOperands(m: Mnemonic): int
  {
    match ShapeOf(m)
    case Fixed => 0
    case WithRegister => 2
    case WithPort => 2
    case RegisterImmediate => 2
    case _ => 1
  }

  function MaxOperands(m: Mnemonic): int
  {
    match ShapeOf(m)
    case Fixed => 0
    case TwoWord => 1
    case Immediate(_, _) => 1
    case RegisterImmediate => 2
    case PlainData => if m.SACL? then 3 else 2
    case _ => 3
  }

  function EntryOf(m: Mnemonic): Entry
  {
    Entry(m, Match(m), MaskOf(m), FieldsOf(m), ConstraintsOf(m),
          if IsTwoWord(m) then Some(Pattern(0xFF00, Match(m))) else None,
          if IsTwoWord(m) then Some(2) else None, MinOperands(m), MaxOperands(m), CyclesOf(m))
  }

  /** The order of the entries in the file. */
  function Nth(i: int): Mnemonic
  {
    match i
    case 0 => LACK case 1 => NOP case 2 => ZAC case 3 => ROVM case 4 => SOVM
    case 5 => DINT case 6 => EINT case 7 => LST case 8 => LARK case 9 => LARP
    case 10 => MAR case 11 => LDP case 12 => LDPK case 13 => DMOV case 14 => LT
    case 15 => LTD case 16 => LTA case 17 => MPY case 18 => MPYK case 19 => PAC
    case 20 => APAC case 21 => SPAC case 22 => LAR case 23 => SAR case 24 => LAC
    case 25 => SACL case 26 => SACH case 27 => ADD case 28 => SUB case 29 => ADDH
    case 30 => ADDS case 31 => SUBH case 32 => SUBS case 33 => SUBC case 34 => XOR
    case 35 => AND case 36 => OR case 37 => ZALH case 38 => ZALS case 39 => BANZ
    case 40 => B case 41 => BV case 42 => BIOZ case 43 => CALL case 44 => CALA
    case 45 => RET case 46 => POP case 47 => PUSH case 48 => IN case 49 => OUT
    case 50 => TBLR case 51 => TBLW case 52 => BGEZ case 53 => BGZ case 54 => BLEZ
    case 55 => BLZ case 56 => BNZ case 57 => BZ case 58 => SST case _ => ABS
  }

  function PositionOf(m: Mnemonic): (i: int)
    ensures 0 <= i < 60
  {
    match m
    case LACK => 0 case NOP => 1 case ZAC => 2 case ROVM => 3 case SOVM => 4
    case DINT => 5 case EINT => 6 case LST => 7 case LARK => 8 case LARP => 9
    case MAR => 10 case LDP => 11 case LDPK => 12 case DMOV => 13 case LT => 14
    case LTD => 15 case LTA => 16 case MPY => 17 case MPYK => 18 case PAC => 19
    case APAC => 20 case SPAC => 21 case LAR => 22 case SAR => 23 case LAC => 24
    case SACL => 25 case SACH => 26 case ADD => 27 case SUB => 28 case ADDH => 29
    case ADDS => 30 case SUBH => 31 case SUBS => 32 case SUBC => 33 case XOR => 34
    case AND => 35 case OR => 36 case ZALH => 37 case ZALS => 38 case BANZ => 39
    case B => 40 case BV => 41 case BIOZ => 42 case CALL => 43 case CALA => 44
    case RET => 45 case POP => 46 case PUSH => 47 case IN => 48 case OUT => 49
    case TBLR => 50 case TBLW => 51 case BGEZ => 52 case BGZ => 53 case BLEZ => 54
    case BLZ => 55 case BNZ => 56 case BZ => 57 case SST => 58 case ABS => 59
  }

  function Order(): seq<Mnemonic>
  {
    seq(60, i => Nth(i))
  }

  function Entries(): seq<Entry>
  {
    seq(60, i => EntryOf(Nth(i)))
  }

  /** The coverage and audit sections. The documented list names the same sixty
      mnemonics; its order plays no role in any check. */
  function Shipped(): Database
  {
    Database(Order(), Order(), 60,
      [DocumentedLegal, ReservedIndirectField, SimultaneousUpdate, PatternMismatch, Unlisted],
      map[DocumentedLegal := 21895, ReservedIndirectField := 10976, SimultaneousUpdate := 372,
          PatternMismatch := 3637, Unlisted := 28656],
      Entries())
  }

  lemma PositionNth(i: int)
    requires 0 <= i < 60
    ensures PositionOf(Nth(i)) == i
  {
    hide PositionOf, Nth;
    if i < 20 { FirstPositions(i); } else if i < 40 { MiddlePositions(i); } else { LastPositions(i); }
  }

  lemma FirstPositions(i: int)
    requires 0 <= i < 20
    ensures PositionOf(Nth(i)) == i
  {
  }

  lemma MiddlePositions(i: int)
    requires 20 <= i < 40
    ensures PositionOf(Nth(i)) == i
  {
  }

  lemma LastPositions(i: int)
    requires 40 <= i < 60
    ensures PositionOf(Nth(i)) == i
  {
  }

  lemma NthPosition(m: Mnemonic)
    ensures Nth(PositionOf(m)) == m
  {
    hide PositionOf, Nth;
    if ShapeOf(m).PlainData? { PlainPosition(m); }
    else if ShapeOf(m).Fixed? || ShapeOf(m).TwoWord? { BarePosition(m); }
    else { FieldPosition(m); }
  }

  lemma PlainPosition(m: Mnemonic)
    requires ShapeOf(m).PlainData?
    ensures Nth(PositionOf(m)) == m
  {
  }

  lemma BarePosition(m: Mnemonic)
    requires ShapeOf(m).Fixed? || ShapeOf(m).TwoWord?
    ensures Nth(PositionOf(m)) == m
  {
  }

  lemma FieldPosition(m: Mnemonic)
    requires !ShapeOf(m).PlainData? && !ShapeOf(m).Fixed? && !ShapeOf(m).TwoWord?
    ensures Nth(PositionOf(m)) == m
  {
  }

  // --------------------------------------------------- accepting is encoding

  /** The dictionary of decoded operands, by field name. */
  function DictionaryOf(o: Operands): Fields
  {
    match o
    case NoOperands => map[]
    case Data(ind, f) => map[IndirectName := Bit(ind), AddressingName := f]
    case ShiftData(s, ind, f) => map[ShiftName := s, IndirectName := Bit(ind), AddressingName := f]
    case RegisterData(r, ind, f) => map[RegisterName := r, IndirectName := Bit(ind), AddressingName := f]
    case PortData(p, ind, f) => map[PortName := p, IndirectName := Bit(ind), AddressingName := f]
    case Constant(c) => map[ConstantName := c]
    case RegisterConstant(r, c) => map[RegisterName := r, ConstantName := c]
  }

  function Bit(b: bool): int { if b then 1 else 0 }

  lemma SpansOf(m: Mnemonic)
    ensures ValidSpans(FieldsOf(m))
  {
  }

  lemma MaskRange(m: Mnemonic)
    ensures Match(m) % Pow2(FieldBits(m)) == 0
    ensures Match(m) + Pow2(FieldBits(m)) <= 0x1_0000
  {
    Pow2Table();
    Alignment(m);
    hide Pow2, Isa.Match;
    var k := FieldBits(m);
    assert k == 0 || k == 1 || k == 8 || k == 9 || k == 11 || k == 12 || k == 13;
  }

  lemma Alignment(m: Mnemonic)
    ensures match FieldBits(m)
            case 1 => Match(m) % 2 == 0
            case 8 => Match(m) % 256 == 0
            case 9 => Match(m) % 512 == 0
            case 11 => Match(m) % 2048 == 0
            case 12 => Match(m) % 4096 == 0
            case 13 => Match(m) == 0x8000
            case _ => FieldBits(m) == 0
  {
    Aligned(m);
    if ShapeOf(m).PlainData? || ShapeOf(m).Shifted? || ShapeOf(m).WithRegister? || ShapeOf(m).WithPort? {
      hide Isa.Match;
      if m.SACH? { SachBase(); }
    } else {
      ConstantBase(m);
      hide Isa.Match;
    }
  }

  lemma ConstantBase(m: Mnemonic)
    ensures m.LACK? ==> Match(m) % 256 == 0
    ensures m.LARP? || m.LDPK? ==> Match(m) % 2 == 0
    ensures m.MPYK? ==> Match(m) == 0x8000
    ensures m.LARK? ==> Match(m) % 512 == 0
  {
  }

  lemma SachBase()
    ensures Match(SACH) % 2048 == 0
  {
  }

  lemma FewBits(m: Mnemonic)
    ensures FieldBits(m) <= 13
  {
  }

  lemma BaseMatchRange(m: Mnemonic, w: int)
    requires 0 <= w < 0x1_0000
    ensures BaseMatch(EntryOf(m), w) <==> Match(m) <= w < Match(m) + Pow2(FieldBits(m))
  {
    MaskRange(m);
    hide Bitwise, Pow2, Isa.Match, FieldBits, ConstraintsOf, FieldsOf;
    FewBits(m);
    InBlock(w, Match(m), FieldBits(m));
  }

  lemma UnsignedValue(name: FieldName, lsb: int, width: int, legal: Option<seq<int>>, w: int)
    requires 0 <= lsb && 1 <= width && lsb + width <= 16
    ensures FieldValue(Field(name, lsb, width, false, legal), w) == (w / Pow2(lsb)) % Pow2(width)
  {
    RawMeaning(Field(name, lsb, width, false, legal), w);
  }

  /** The thirteen-bit constant, sign-extended. */
  lemma SignedValue(w: int)
    requires 0 <= w < 0x1_0000
    ensures FieldValue(Field(ConstantName, 0, 13, true, None), w)
         == if w % 8192 >= 4096 then w % 8192 - 8192 else w % 8192
  {
    Pow2Table();
    RawMeaning(Field(ConstantName, 0, 13, true, None), w);
    TopBit(w % 8192, 12);
    hide Bitwise, Pow2;
    DivUnique(w, 1, w, 0);
  }

  /** The constraints on the addressing field of an indirect word. */
  lemma AddressRules(w: int)
    requires 0 <= w < 0x1_0000
    ensures Satisfies(w, IndirectRules()[0]) && Satisfies(w, IndirectRules()[1])
       <==> LegalAddress((w / 128) % 2 == 1, w % 128)
    ensures Satisfies(w, Require(Pattern(0x80, 0), Pattern(0x70, 0)))
       <==> ((w / 128) % 2 == 1 || w % 128 < 16)
  {
    Pow2Table();
    ControlMasks(w);
    ControlPart(w % 128);
    AndLowPart(w, 0x46, 7);
    AndLowPart(w, 0x30, 7);
    AndLowPart(w, 0x70, 7);
    hide And, LegalControl;
  }

  lemma MarRule(w: int)
    requires 0x6800 <= w < 0x6900
    ensures Satisfies(w, Forbid(Pattern(0xFF00, 0x6800), Pattern(0xFFFE, 0x6880)))
       <==> !((w / 128) % 2 == 1 && w % 128 <= 1)
  {
    hide And;
    Pow2Table();
    BlockMask(w, 0x6800, 8);
    InBlock(w, 0x6880, 1);
    BlockMask(0x6880, 0x6880, 1);
  }

  lemma RulesHold(m: Mnemonic, w: int)
    requires Match(m) <= w < Match(m) + Pow2(FieldBits(m)) && 0 <= w < 0x1_0000
    ensures (forall i :: 0 <= i < |ConstraintsOf(m)| ==> Satisfies(w, ConstraintsOf(m)[i]))
       <==> match ShapeOf(m)
            case PlainData =>
              && LegalAddress((w / 128) % 2 == 1, w % 128)
              && (m.SST? && (w / 128) % 2 != 1 ==> w % 128 < 16)
              && (m.MAR? && (w / 128) % 2 == 1 ==> w % 128 > 1)
            case Shifted => LegalAddress((w / 128) % 2 == 1, w % 128)
            case WithRegister => LegalAddress((w / 128) % 2 == 1, w % 128)
            case WithPort => LegalAddress((w / 128) % 2 == 1, w % 128)
            case _ => true
  {
    Pow2Table();
    AddressRules(w);
    if m.MAR? { MarRule(w); }
    hide Satisfies, LegalAddress, Pow2;
    var c := ConstraintsOf(m);
    if |c| == 3 {
      assert c[1] == IndirectRules()[0] && c[2] == IndirectRules()[1];
      ThreeRules(c, w);
    } else if |c| == 2 {
      TwoRules(c, w);
    }
  }

  lemma TwoRules(c: seq<Constraint>, w: int)
    requires |c| == 2
    ensures (forall i :: 0 <= i < |c| ==> Satisfies(w, c[i])) <==> Satisfies(w, c[0]) && Satisfies(w, c[1])
  {
    hide Satisfies;
    if Satisfies(w, c[0]) && Satisfies(w, c[1]) {
      forall i | 0 <= i < |c|
        ensures Satisfies(w, c[i])
      {
        if i == 0 { } else { }
      }
    }
  }

  lemma ThreeRules(c: seq<Constraint>, w: int)
    requires |c| == 3
    ensures (forall i :: 0 <= i < |c| ==> Satisfies(w, c[i]))
       <==> Satisfies(w, c[0]) && Satisfies(w, c[1]) && Satisfies(w, c[2])
  {
    hide Satisfies;
    if Satisfies(w, c[0]) && Satisfies(w, c[1]) && Satisfies(w, c[2]) {
      forall i | 0 <= i < |c|
        ensures Satisfies(w, c[i])
      {
        if i == 0 { } else if i == 1 { } else { }
      }
    }
  }

  // ---------------------------------------------------------- fields per shape

  /** The fields of an entry hold legal values, and form the dictionary of the
      operands at the word. */
  lemma FieldsHold(m: Mnemonic, w: int)
    requires 0 <= w < 0x1_0000
    ensures ValidSpans(FieldsOf(m))
    ensures (forall i :: 0 <= i < |FieldsOf(m)| ==> LegalValue(FieldsOf(m)[i], w))
       <==> (m.SACH? ==> LegalShift(SACH, (w / 256) % 8))
    ensures Dictionary(FieldsOf(m), w) == DictionaryOf(OperandsAt(m, w))
  {
    hide FieldsOf, Dictionary, DictionaryOf, OperandsAt, LegalValue, LegalShift, ValidSpans;
    match ShapeOf(m)
    case TwoWord => BareFields(m, w);
    case Fixed => BareFields(m, w);
    case PlainData => PlainFields(m, w);
    case Shifted => ShiftDictionary(m, w);
    case WithRegister => LeadFields(m, w);
    case WithPort => LeadFields(m, w);
    case Immediate(_, _) => ConstantDictionary(m, w);
    case RegisterImmediate => LarkFields(m, w);
  }

  lemma BareFields(m: Mnemonic, w: int)
    requires 0 <= w < 0x1_0000 && (ShapeOf(m).TwoWord? || ShapeOf(m).Fixed?)
    ensures FieldsOf(m) == [] && ValidSpans(FieldsOf(m))
    ensures Dictionary(FieldsOf(m), w) == DictionaryOf(OperandsAt(m, w))
  {
  }

  lemma PlainFields(m: Mnemonic, w: int)
    requires 0 <= w < 0x1_0000 && ShapeOf(m).PlainData?
    ensures ValidSpans(FieldsOf(m))
    ensures forall i :: 0 <= i < |FieldsOf(m)| ==> LegalValue(FieldsOf(m)[i], w)
    ensures Dictionary(FieldsOf(m), w) == DictionaryOf(OperandsAt(m, w))
  {
    hide LegalValue, FieldValue, LegalShift;
    NoFields(w);
    AddressDictionary(AddressFields(), [], w);
  }

  lemma NoFields(w: int)
    ensures ValidSpans([]) && Dictionary([], w) == map[]
  {
  }

  lemma LeadFields(m: Mnemonic, w: int)
    requires 0 <= w < 0x1_0000 && (ShapeOf(m).WithRegister? || ShapeOf(m).WithPort?)
    ensures ValidSpans(FieldsOf(m))
    ensures forall i :: 0 <= i < |FieldsOf(m)| ==> LegalValue(FieldsOf(m)[i], w)
    ensures Dictionary(FieldsOf(m), w) == DictionaryOf(OperandsAt(m, w))
  {
    hide LegalValue, FieldValue, LegalShift, Dictionary, Pow2;
    LeadDictionary(if ShapeOf(m).WithPort? then Unsigned(PortName, 8, 3) else Unsigned(RegisterName, 8, 1), w);
  }

  lemma LarkFields(m: Mnemonic, w: int)
    requires 0 <= w < 0x1_0000 && m.LARK?
    ensures ValidSpans(FieldsOf(m))
    ensures forall i :: 0 <= i < |FieldsOf(m)| ==> LegalValue(FieldsOf(m)[i], w)
    ensures Dictionary(FieldsOf(m), w) == DictionaryOf(OperandsAt(m, w))
  {
    hide LegalValue, FieldValue, LegalShift, Dictionary, Pow2;
    LarkDictionary(w);
  }

  /** Zero or one field, followed by the two address fields. */
  lemma AddressDictionary(fields: seq<Field>, lead: seq<Field>, w: int)
    requires 0 <= w < 0x1_0000 && ValidSpans(lead)
    requires fields == lead + AddressFields()
    ensures ValidSpans(fields)
    ensures Dictionary(fields, w)
         == Dictionary(lead, w)[IndirectName := (w / 128) % 2][AddressingName := w % 128]
    ensures (forall i :: 0 <= i < |fields| ==> LegalValue(fields[i], w))
       <==> (forall i :: 0 <= i < |lead| ==> LegalValue(lead[i], w))
  {
    hide FieldValue, Pow2;
    Pow2Table();
    var n := |lead|;
    UnsignedValue(IndirectName, 7, 1, None, w);
    UnsignedValue(AddressingName, 0, 7, None, w);
    assert fields[n] == Unsigned(IndirectName, 7, 1) && fields[n + 1] == Unsigned(AddressingName, 0, 7);
    assert forall i :: 0 <= i < n ==> fields[i] == lead[i];
    var head := fields[..n + 1];
    assert head[..n] == lead;
    assert Dictionary(head, w) == Dictionary(lead, w)[IndirectName := (w / 128) % 2];
    forall i | n <= i < |fields|
      ensures LegalValue(fields[i], w)
    {
      if i == n { } else { }
    }
  }

  lemma OneField(f: Field, w: int)
    requires ValidSpan(f)
    ensures Dictionary([f], w) == map[f.name := FieldValue(f, w)]
  {
    assert [f][..0] == [];
  }

  lemma LeadDictionary(f: Field, w: int)
    requires 0 <= w < 0x1_0000
    requires f == Unsigned(RegisterName, 8, 1) || f == Unsigned(PortName, 8, 3) || f == Unsigned(ShiftName, 8, 4)
    ensures ValidSpans([f] + AddressFields())
    ensures Dictionary([f] + AddressFields(), w)
         == map[f.name := (w / 256) % Pow2(f.width), IndirectName := (w / 128) % 2, AddressingName := w % 128]
    ensures forall i :: 0 <= i < 3 ==> LegalValue(([f] + AddressFields())[i], w)
    ensures Pow2(1) == 2 && Pow2(3) == 8 && Pow2(4) == 16
  {
    Pow2Table();
    AddressDictionary([f] + AddressFields(), [f], w);
    UnsignedValue(f.name, 8, f.width, None, w);
    OneField(f, w);
  }

  lemma ShiftDictionary(m: Mnemonic, w: int)
    requires ShapeOf(m).Shifted? && 0 <= w < 0x1_0000
    ensures ValidSpans(FieldsOf(m))
    ensures (forall i :: 0 <= i < |FieldsOf(m)| ==> LegalValue(FieldsOf(m)[i], w))
       <==> (m.SACH? ==> LegalShift(SACH, (w / 256) % 8))
    ensures Dictionary(FieldsOf(m), w) == DictionaryOf(OperandsAt(m, w))
  {
    hide FieldValue, Pow2, LegalValue, Dictionary, OperandsAt, FieldsOf, Bitwise;
    if m.SACH? {
      SachDictionary(w);
    } else {
      LeadDictionary(Unsigned(ShiftName, 8, 4), w);
      ShiftFields(m, w);
    }
  }

  lemma ShiftFields(m: Mnemonic, w: int)
    requires ShapeOf(m).Shifted? && !m.SACH?
    ensures FieldsOf(m) == [Unsigned(ShiftName, 8, 4)] + AddressFields()
    ensures OperandsAt(m, w) == ShiftData((w / 256) % 16, (w / 128) % 2 == 1, w % 128)
  {
  }

  function SachShift(): Field { Field(ShiftName, 8, 3, false, Some([0, 1, 4])) }

  lemma SachDictionary(w: int)
    requires 0 <= w < 0x1_0000
    ensures ValidSpans(FieldsOf(SACH))
    ensures (forall i :: 0 <= i < |FieldsOf(SACH)| ==> LegalValue(FieldsOf(SACH)[i], w))
       <==> LegalShift(SACH, (w / 256) % 8)
    ensures Dictionary(FieldsOf(SACH), w) == DictionaryOf(OperandsAt(SACH, w))
  {
    hide FieldValue, LegalValue, Bitwise, Pow2, LegalShift;
    var f := SachShift();
    assert FieldsOf(SACH) == [f] + AddressFields();
    SachValue(w);
    OneField(f, w);
    AddressDictionary(FieldsOf(SACH), [f], w);
    assert (forall i :: 0 <= i < |[f]| ==> LegalValue([f][i], w)) <==> LegalValue([f][0], w);
  }

  lemma SachValue(w: int)
    ensures FieldValue(SachShift(), w) == (w / 256) % 8
    ensures LegalValue(SachShift(), w) <==> LegalShift(SACH, (w / 256) % 8)
  {
    Pow2Table();
    UnsignedValue(ShiftName, 8, 3, Some([0, 1, 4]), w);
    hide FieldValue, Pow2;
  }

  lemma ConstantDictionary(m: Mnemonic, w: int)
    requires ShapeOf(m).Immediate? && 0 <= w < 0x1_0000
    ensures ValidSpans(FieldsOf(m))
    ensures forall i :: 0 <= i < |FieldsOf(m)| ==> LegalValue(FieldsOf(m)[i], w)
    ensures Dictionary(FieldsOf(m), w) == DictionaryOf(OperandsAt(m, w))
  {
    hide FieldValue, Pow2;
    Pow2Table();
    OneField(FieldsOf(m)[0], w);
    assert FieldsOf(m) == [FieldsOf(m)[0]];
    if m.MPYK? {
      SignedValue(w);
    } else {
      UnsignedValue(ConstantName, 0, FieldBits(m), None, w);
      assert w / 1 == w;
    }
  }

  lemma LarkDictionary(w: int)
    requires 0 <= w < 0x1_0000
    ensures ValidSpans(FieldsOf(LARK))
    ensures forall i :: 0 <= i < |FieldsOf(LARK)| ==> LegalValue(FieldsOf(LARK)[i], w)
    ensures Dictionary(FieldsOf(LARK), w) == DictionaryOf(OperandsAt(LARK, w))
  {
    Pow2Table();
    var r, c := Unsigned(RegisterName, 8, 1), Unsigned(ConstantName, 0, 8);
    UnsignedValue(RegisterName, 8, 1, None, w);
    UnsignedValue(ConstantName, 0, 8, None, w);
    OneField(r, w);
    assert [r, c][..1] == [r];
    assert w / 1 == w;
    hide FieldValue, Pow2;
  }

  // ------------------------------------------------------ the two decoders agree

  lemma WordInBlock(i: Instruction)
    requires Legal(i)
    ensures Match(i.mnemonic) <= Word(i) < Match(i.mnemonic) + Pow2(FieldBits(i.mnemonic))
  {
    Pow2Table();
    hide Isa.Match, LegalControl;
  }

  /** Inside its block a word is the word of the operands read from it. */
  lemma WordAt(m: Mnemonic, w: int)
    requires Match(m) <= w < Match(m) + Pow2(FieldBits(m)) && 0 <= w < 0x1_0000
    ensures Word(Instruction(m, OperandsAt(m, w))) == w
  {
    Pow2Table();
    MaskRange(m);
    LowByte(w);
    Alignment(m);
    FixedMatches(m);
    hide Isa.Match, Pow2;
    match ShapeOf(m)
    case PlainData => Offset(w, Match(m), 1);
    case Shifted => if m.SACH? { Offset(w, Match(m), 8); } else { Offset(w, Match(m), 16); }
    case WithRegister => Offset(w, Match(m), 2);
    case WithPort => Offset(w, Match(m), 8);
    case RegisterImmediate => Offset(w, Match(m), 2);
    case Immediate(_, _) => ConstantAt(m, w);
    case _ =>
  }

  lemma ConstantAt(m: Mnemonic, w: int)
    requires ShapeOf(m).Immediate?
    requires Match(m) <= w < Match(m) + Pow2(FieldBits(m)) && 0 <= w < 0x1_0000
    ensures Word(Instruction(m, OperandsAt(m, w))) == w
  {
    Pow2Table();
    FixedMatches(m);
    hide Isa.Match, Pow2;
  }

  lemma FixedMatches(m: Mnemonic)
    ensures m.LACK? ==> Match(m) == 0x7E00
    ensures m.MPYK? ==> Match(m) == 0x8000
    ensures m.LARP? ==> Match(m) == 0x6880
    ensures m.LDPK? ==> Match(m) == 0x6E00
  {
  }

  /** An entry accepts exactly the words of its legal instructions. */
  lemma AcceptsIsWord(m: Mnemonic, w: int)
    requires 0 <= w < 0x1_0000
    ensures ValidSpans(FieldsOf(m))
    ensures Accepts(EntryOf(m), w)
       <==> Legal(Instruction(m, OperandsAt(m, w))) && Word(Instruction(m, OperandsAt(m, w))) == w
    ensures Dictionary(FieldsOf(m), w) == DictionaryOf(OperandsAt(m, w))
  {
    hide Legal, Word, BaseMatch, Satisfies, LegalValue, Isa.Match, FieldsOf, ConstraintsOf, OperandsAt, Pow2;
    var i := Instruction(m, OperandsAt(m, w));
    FieldsHold(m, w);
    BaseMatchRange(m, w);
    if BaseMatch(EntryOf(m), w) {
      WordAt(m, w);
      RulesHold(m, w);
      LegalIsRules(m, w);
    } else if Legal(i) {
      WordInBlock(i);
    }
  }

  lemma LegalIsRules(m: Mnemonic, w: int)
    requires 0 <= w < 0x1_0000
    ensures Legal(Instruction(m, OperandsAt(m, w)))
       <==> match ShapeOf(m)
            case PlainData =>
              && LegalAddress((w / 128) % 2 == 1, w % 128)
              && (m.SST? && (w / 128) % 2 != 1 ==> w % 128 < 16)
              && (m.MAR? && (w / 128) % 2 == 1 ==> w % 128 > 1)
            case Shifted =>
              LegalAddress((w / 128) % 2 == 1, w % 128) && (m.SACH? ==> LegalShift(SACH, (w / 256) % 8))
            case WithRegister => LegalAddress((w / 128) % 2 == 1, w % 128)
            case WithPort => LegalAddress((w / 128) % 2 == 1, w % 128)
            case _ => true
  {
    hide LegalAddress;
  }

  /** The database decoder and the hand-written decoder are the same function on
      all 65,536 words: an entry decodes a word to a dictionary exactly when the
      reference model decodes it to that mnemonic with those operands. */
  lemma DecodersAgree(m: Mnemonic, w: int, fields: Fields)
    requires 0 <= w < 0x1_0000
    ensures ValidSpans(FieldsOf(m))
    ensures DecodeSpec(EntryOf(m), w) == Some(fields)
       <==> Decode(w).Some? && Decode(w).value.mnemonic == m
            && fields == DictionaryOf(Decode(w).value.operands)
  {
    AcceptsIsWord(m, w);
    var i := Instruction(m, OperandsAt(m, w));
    DecodeIsInverse(w, i);
    assert Accounts(Decode(w), w);
    hide Legal, Word, Decode, Accepts, Dictionary, DictionaryOf, OperandsAt, FieldsOf, EntryOf;
  }
}
