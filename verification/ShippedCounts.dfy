/** The classes of all 65,536 words under the shipped database, page by page, and
    the proof that the recorded counts are the counts of the audit. */
module ShippedCounts {
  import opened Bits
  import opened Isa
  import opened IsaDatabase
  import opened Classification
  import opened Validator
  import opened Decoder
  import opened ShippedDatabase
  import opened ShippedValid

  // ------------------------------------------------------ blocks of opcodes

  /** The number of words of a mnemonic's base pattern. */
  function BlockSize(m: Mnemonic): int
  {
    match ShapeOf(m)
    case TwoWord => 1
    case Fixed => 1
    case PlainData => 256
    case Shifted => if m.SACH? then 2048 else 4096
    case WithRegister => 512
    case WithPort => 2048
    case Immediate(_, _) => if m.LACK? then 256 else if m.MPYK? then 8192 else 2
    case RegisterImmediate => 512
  }

  predicate InBlockOf(m: Mnemonic, w: int)
  {
    Match(m) <= w < Match(m) + BlockSize(m)
  }

  lemma BlockBits(m: Mnemonic)
    ensures Pow2(FieldBits(m)) == BlockSize(m)
  {
    Pow2Table();
    hide Pow2;
  }

  lemma BlockIsBase(m: Mnemonic, w: int)
    requires 0 <= w < 0x1_0000
    ensures BaseMatch(EntryOf(m), w) <==> InBlockOf(m, w)
    ensures Match(m) + Pow2(FieldBits(m)) == Match(m) + BlockSize(m)
  {
    hide Isa.Match, BaseMatch, EntryOf, BlockSize, FieldBits, Pow2;
    BlockBits(m);
    BaseMatchRange(m, w);
  }

  /** The mnemonic whose operand byte fills a page of 256 words. */
  function OwnerOf(page: int): Option<Mnemonic>
  {
    if 0x00 <= page < 0x10 then Some(ADD)
    else if 0x10 <= page < 0x20 then Some(SUB)
    else if 0x20 <= page < 0x30 then Some(LAC)
    else if 0x30 <= page < 0x32 then Some(SAR)
    else if 0x38 <= page < 0x3A then Some(LAR)
    else if 0x40 <= page < 0x48 then Some(IN)
    else if 0x48 <= page < 0x50 then Some(OUT)
    else if page == 0x50 then Some(SACL)
    else if 0x58 <= page < 0x60 then Some(SACH)
    else if 0x60 <= page < 0x70 then MiddleOwner(page)
    else if 0x70 <= page < 0x80 then HighOwner(page)
    else if 0x80 <= page < 0xA0 then Some(MPYK)
    else None
  }

  function MiddleOwner(page: int): Option<Mnemonic>
  {
    match page
    case 0x60 => Some(ADDH) case 0x61 => Some(ADDS) case 0x62 => Some(SUBH) case 0x63 => Some(SUBS)
    case 0x64 => Some(SUBC) case 0x65 => Some(ZALH) case 0x66 => Some(ZALS) case 0x67 => Some(TBLR)
    case 0x68 => Some(MAR) case 0x69 => Some(DMOV) case 0x6A => Some(LT) case 0x6B => Some(LTD)
    case 0x6C => Some(LTA) case 0x6D => Some(MPY) case 0x6F => Some(LDP) case _ => None
  }

  function HighOwner(page: int): Option<Mnemonic>
  {
    match page
    case 0x70 => Some(LARK) case 0x71 => Some(LARK) case 0x78 => Some(XOR) case 0x79 => Some(AND)
    case 0x7A => Some(OR) case 0x7B => Some(LST) case 0x7C => Some(SST) case 0x7D => Some(TBLW)
    case 0x7E => Some(LACK) case _ => None
  }

  /** The mnemonics that fill whole pages. */
  predicate FillsPages(m: Mnemonic) { BlockSize(m) >= 256 }

  /** Owning a page is having its words in the block. */
  lemma OwnerIsBlock(m: Mnemonic, w: int)
    requires 0 <= w < 0x1_0000
    ensures FillsPages(m) ==> (InBlockOf(m, w) <==> OwnerOf(w / 256) == Some(m))
  {
    if FillsPages(m) {
      var p := w / 256;
      assert 256 * p <= w < 256 * p + 256;
      if ShapeOf(m).PlainData? { PlainOwner(m, p, w); } else { WideOwner(m, p, w); }
    }
  }

  lemma PlainOwner(m: Mnemonic, p: int, w: int)
    requires ShapeOf(m).PlainData? && 256 * p <= w < 256 * p + 256 && 0 <= p < 256
    ensures InBlockOf(m, w) <==> OwnerOf(p) == Some(m)
  {
    hide Isa.Match, MiddleOwner, HighOwner;
    if m.AND? || m.LST? || m.OR? || m.SST? || m.TBLW? || m.XOR? {
      PlainHigh(m, p, w);
    } else {
      PlainMiddle(m, p, w);
    }
  }

  lemma PlainMiddle(m: Mnemonic, p: int, w: int)
    requires ShapeOf(m).PlainData? && !(m.AND? || m.LST? || m.OR? || m.SST? || m.TBLW? || m.XOR?)
    requires 256 * p <= w < 256 * p + 256 && 0 <= p < 256
    ensures InBlockOf(m, w) <==> OwnerOf(p) == Some(m)
  {
  }

  lemma PlainHigh(m: Mnemonic, p: int, w: int)
    requires m.AND? || m.LST? || m.OR? || m.SST? || m.TBLW? || m.XOR?
    requires 256 * p <= w < 256 * p + 256 && 0 <= p < 256
    ensures InBlockOf(m, w) <==> OwnerOf(p) == Some(m)
  {
  }

  lemma WideOwner(m: Mnemonic, p: int, w: int)
    requires FillsPages(m) && !ShapeOf(m).PlainData? && 256 * p <= w < 256 * p + 256 && 0 <= p < 256
    ensures InBlockOf(m, w) <==> OwnerOf(p) == Some(m)
  {
  }

  // -------------------------------------------------- accepted by some entry

  /** The rules on the operand byte of a word in the block. */
  predicate Rules(m: Mnemonic, w: int)
  {
    match ShapeOf(m)
    case PlainData =>
      && LegalAddress((w / 128) % 2 == 1, w % 128)
      && (m.SST? && (w / 128) % 2 != 1 ==> w % 128 < 16)
      && (m.MAR? && (w / 128) % 2 == 1 ==> w % 128 > 1)
    case Shifted =>
      LegalAddress((w / 128) % 2 == 1, w % 128) && (m.SACH? ==> LegalShift(SACH, (w / 256) % 8))
    case WithRegister => LegalAddress((w / 128) % 2 == 1, w % 128)
    case WithPort => LegalAddress((w / 128) % 2 == 1, w % 128)
    case _ => true
  }

  lemma AcceptsIsRules(m: Mnemonic, w: int)
    requires 0 <= w < 0x1_0000
    ensures ValidSpans(FieldsOf(m)) && (Accepts(EntryOf(m), w) <==> InBlockOf(m, w) && Rules(m, w))
  {
    hide Isa.Match, Legal, LegalAddress, Word, OperandsAt, Accepts, BaseMatch, BlockSize, Pow2;
    AcceptsIsWord(m, w);
    LegalIsRules(m, w);
    BlockIsBase(m, w);
    if Match(m) <= w < Match(m) + Pow2(FieldBits(m)) { WordAt(m, w); }
    if Legal(Instruction(m, OperandsAt(m, w))) && Word(Instruction(m, OperandsAt(m, w))) == w {
      WordInBlock(Instruction(m, OperandsAt(m, w)));
    }
  }

  /** A word is documented exactly when some entry accepts it. */
  lemma DecodedIsAccepted(w: int)
    requires 0 <= w < 0x1_0000
    ensures Decode(w).Some? <==> exists m :: InBlockOf(m, w) && Rules(m, w)
  {
    hide Decode, Accepts, Dictionary, InBlockOf, Rules, FieldsOf;
    forall m
      ensures InBlockOf(m, w) && Rules(m, w) <==> Decode(w).Some? && Decode(w).value.mnemonic == m
    {
      AcceptsIsRules(m, w);
      DecodersAgree(m, w, Dictionary(FieldsOf(m), w));
      if Decode(w).Some? && Decode(w).value.mnemonic == m {
        DecodersAgree(m, w, DictionaryOf(Decode(w).value.operands));
      }
    }
    if Decode(w).Some? {
      var m := Decode(w).value.mnemonic;
      assert InBlockOf(m, w) && Rules(m, w);
    }
  }

  // ------------------------------------------------- candidates of a word

  /** The operand byte of a word as an indirect address. */
  predicate Indirect(w: int) { (w / 128) % 2 == 1 }

  /** Some of the bits 6, 2 and 1 of the control are set. */
  predicate ReservedBits(control: int) { (control / 64) % 2 != 0 || (control / 2) % 4 != 0 }

  predicate BothUpdates(control: int) { (control / 16) % 4 == 3 }

  lemma ControlClasses(control: int)
    requires 0 <= control < 128
    ensures And(control, 0x46) != 0 <==> ReservedBits(control)
    ensures And(control, 0x30) == 0x30 <==> BothUpdates(control)
    ensures LegalControl(control) <==> !ReservedBits(control) && !BothUpdates(control)
  {
    hide And;
    ControlMasks(control);
  }

  lemma NamedFields(m: Mnemonic)
    ensures var fields := FieldsOf(m);
            if HasFieldByte(m) then
              && NamedField(fields, IndirectName) == Some(Unsigned(IndirectName, 7, 1))
              && NamedField(fields, AddressingName) == Some(Unsigned(AddressingName, 0, 7))
            else NamedField(fields, IndirectName).None?
  {
    var fields := FieldsOf(m);
    if |fields| > 0 { NamedLast(fields); }
    if |fields| > 1 { NamedLast(fields[..|fields| - 1]); }
    if |fields| > 2 { NamedLast(fields[..1]); }
  }

  lemma NamedLast(fields: seq<Field>)
    requires |fields| > 0
    ensures forall name :: NamedField(fields, name)
                        == if fields[|fields| - 1].name == name then Some(fields[|fields| - 1])
                           else NamedField(fields[..|fields| - 1], name)
  {
  }

  lemma IndirectAddressIs(m: Mnemonic, w: int)
    requires 0 <= w < 0x1_0000
    ensures ValidSpans(FieldsOf(m))
    ensures IndirectAddress(EntryOf(m), w)
         == if HasFieldByte(m) && Indirect(w) then Some(w % 128) else None
  {
    hide Bitwise, Pow2, FieldsOf, NamedField, Isa.Match, MaskOf, ConstraintsOf;
    Pow2Table();
    SpansOf(m);
    NamedFields(m);
    AndOnes(w / 128, 1);
    RawAddress(w);
  }

  lemma RawAddress(w: int)
    ensures Raw(Unsigned(AddressingName, 0, 7), w) == w % 128
  {
    Pow2Table();
    hide Bitwise, Pow2;
    AndOnes(w, 7);
  }

  /** The listed shifts of SACH are the only listed values. */
  lemma ListedIs(m: Mnemonic, w: int)
    requires 0 <= w < 0x1_0000
    ensures ValidSpans(FieldsOf(m))
    ensures ListedValues(FieldsOf(m), w) <==> (m.SACH? ==> LegalShift(SACH, (w / 256) % 8))
  {
    hide Bitwise, Pow2, Raw;
    SpansOf(m);
    RawShift(w);
    forall i | 0 <= i < |FieldsOf(m)|
      ensures FieldsOf(m)[i].legalValues.None? || FieldsOf(m)[i] == SachShift()
    {
      OnlyShiftsListed(m, i);
    }
    if m.SACH? {
      assert FieldsOf(m)[0] == SachShift();
    } else {
      NothingListed(m);
    }
  }

  lemma NothingListed(m: Mnemonic)
    requires !m.SACH?
    ensures forall i :: 0 <= i < |FieldsOf(m)| ==> FieldsOf(m)[i].legalValues.None?
  {
  }

  lemma RawShift(w: int)
    ensures Raw(SachShift(), w) == (w / 256) % 8
    ensures Raw(SachShift(), w) in [0, 1, 4] <==> LegalShift(SACH, (w / 256) % 8)
  {
    Pow2Table();
    hide Bitwise, Pow2;
    AndOnes(w / 256, 3);
  }

  lemma ReservedIs(m: Mnemonic, w: int)
    requires 0 <= w < 0x1_0000
    ensures ValidSpans(FieldsOf(m))
    ensures IsCandidate(ReservedKind, EntryOf(m), w)
       <==> HasFieldByte(m) && InBlockOf(m, w) && Indirect(w) && ReservedBits(w % 128)
    ensures IsCandidate(SimultaneousKind, EntryOf(m), w)
       <==> HasFieldByte(m) && InBlockOf(m, w) && Indirect(w) && !ReservedBits(w % 128) && BothUpdates(w % 128)
            && (m.SACH? ==> LegalShift(SACH, (w / 256) % 8))
  {
    hide And, BaseMatch, InBlockOf, IndirectAddress, ListedValues, ReservedBits, BothUpdates, LegalShift, FieldsOf;
    hide HasFieldByte, Indirect;
    BlockIsBase(m, w);
    IndirectAddressIs(m, w);
    ListedIs(m, w);
    ControlClasses(w % 128);
  }

  lemma EnvelopeIs(m: Mnemonic, w: int)
    requires 0 <= w < 0x1_0000
    ensures InEnvelope(EntryOf(m), w)
       <==> if IsTwoWord(m) then Match(m) <= w < Match(m) + 256 else InBlockOf(m, w)
  {
    hide Bitwise, Pow2, BaseMatch, InBlockOf, Isa.Match, FieldsOf, ConstraintsOf, MaskOf;
    Pow2Table();
    BlockIsBase(m, w);
    OwnEnvelope(m, w);
    if IsTwoWord(m) {
      TwoWordPage(m);
      InBlock(w, Match(m), 8);
    }
  }

  lemma OwnEnvelope(m: Mnemonic, w: int)
    ensures !IsTwoWord(m) ==> (InEnvelope(EntryOf(m), w) <==> BaseMatch(EntryOf(m), w))
  {
    hide Bitwise, And;
  }

  lemma TwoWordPage(m: Mnemonic)
    requires IsTwoWord(m)
    ensures Match(m) % 256 == 0 && Match(m) + 256 <= 0x1_0000
  {
  }

  predicate CandidateOf(k: Kind, m: Mnemonic, w: int)
  {
    SpansOf(m);
    IsCandidate(k, EntryOf(m), w)
  }

  lemma CandidateAt(k: Kind, i: int, w: int)
    requires 0 <= i < 60
    ensures ValidSpansOf(Entries()) && |Entries()| == 60
    ensures IsCandidate(k, Entries()[i], w) == CandidateOf(k, Nth(i), w)
  {
    hide IsCandidate, EntryOf, Nth, Matches;
    EntriesUnambiguous();
  }

  /** A question about the entries is one about the mnemonics. */
  lemma SomeEntry(k: Kind, w: int)
    ensures ValidSpansOf(Entries())
    ensures Candidates(k, Entries(), w) != {} <==> exists m :: CandidateOf(k, m, w)
  {
    hide IsCandidate, CandidateOf, Entries, Nth, Candidates;
    CandidateAt(k, 0, w);
    CandidatesNonempty(k, Entries(), w);
    if i :| 0 <= i < |Entries()| && IsCandidate(k, Entries()[i], w) {
      CandidateAt(k, i, w);
      assert CandidateOf(k, Nth(i), w);
    }
    if m :| CandidateOf(k, m, w) {
      NthPosition(m);
      CandidateAt(k, PositionOf(m), w);
      assert IsCandidate(k, Entries()[PositionOf(m)], w);
    }
  }

  // -------------------------------------------------------- pages of a kind

  /** How a page of 256 words divides into classes. */
  datatype PageKind =
    | AddressPage | StatusPage | BadShiftPage | ConstantPage | PagePointerPage | FixedPage | BranchPage | EmptyPage

  function KindOf(page: int): PageKind
  {
    match OwnerOf(page)
    case Some(m) =>
      if m.SST? then StatusPage
      else if m.SACH? && !LegalShift(SACH, page % 8) then BadShiftPage
      else if HasFieldByte(m) then AddressPage
      else ConstantPage
    case None =>
      if page == 0x6E then PagePointerPage
      else if page == 0x7F then FixedPage
      else if IsBranchPage(page) then BranchPage
      else EmptyPage
  }

  predicate IsBranchPage(page: int)
  {
    0xF4 <= page <= 0xF6 || 0xF8 <= page <= 0xFF
  }

  /** The last bytes of the operandless instructions. */
  predicate IsFixedByte(b: int)
  {
    0x80 <= b <= 0x82 || 0x88 <= b <= 0x90 || b == 0x9C || b == 0x9D
  }

  function ControlClass(control: int): Class
  {
    if ReservedBits(control) then ReservedIndirectField
    else if BothUpdates(control) then SimultaneousUpdate
    else DocumentedLegal
  }

  /** The class of a word from the kind of its page and its low byte. */
  function ClassIn(kind: PageKind, b: int): Class
  {
    match kind
    case AddressPage => if b < 128 then DocumentedLegal else ControlClass(b % 128)
    case StatusPage =>
      if b < 16 then DocumentedLegal else if b < 128 then PatternMismatch else ControlClass(b % 128)
    case BadShiftPage => if b >= 128 && ReservedBits(b % 128) then ReservedIndirectField else PatternMismatch
    case ConstantPage => DocumentedLegal
    case PagePointerPage => if b < 2 then DocumentedLegal else Unlisted
    case FixedPage => if IsFixedByte(b) then DocumentedLegal else Unlisted
    case BranchPage => if b == 0 then DocumentedLegal else PatternMismatch
    case EmptyPage => Unlisted
  }

  function ClassOf(w: int): Class { ClassIn(KindOf(w / 256), w % 256) }

  lemma PageAndByte(w: int)
    ensures w == w / 256 * 256 + w % 256 && 0 <= w % 256 < 256
  {
  }

  /** The blocks smaller than a page. */
  lemma FixedBlocks(m: Mnemonic, w: int)
    requires 0 <= w < 0x1_0000 && ShapeOf(m).Fixed?
    ensures InBlockOf(m, w) ==> w / 256 == 0x7F && IsFixedByte(w % 256)
  {
    PageAndByte(w);
  }

  lemma BranchBlocks(m: Mnemonic, w: int)
    requires 0 <= w < 0x1_0000 && IsTwoWord(m)
    ensures InBlockOf(m, w) ==> IsBranchPage(w / 256) && w % 256 == 0
    ensures Match(m) <= w < Match(m) + 256 ==> IsBranchPage(w / 256)
  {
    PageAndByte(w);
  }

  lemma BitBlocks(w: int)
    requires 0 <= w < 0x1_0000
    ensures InBlockOf(LDPK, w) <==> w / 256 == 0x6E && w % 256 < 2
    ensures InBlockOf(LARP, w) <==> w / 256 == 0x68 && 0x80 <= w % 256 < 0x82
  {
    PageAndByte(w);
  }

  /** What does not fill pages. */
  lemma SmallShapes(m: Mnemonic)
    ensures FillsPages(m) || ShapeOf(m).Fixed? || IsTwoWord(m) || m.LDPK? || m.LARP?
    ensures IsTwoWord(m) || ShapeOf(m).Fixed? || m.LDPK? || m.LARP? ==> !FillsPages(m) && !HasFieldByte(m)
    ensures HasFieldByte(m) ==> FillsPages(m)
    ensures FillsPages(m) && !HasFieldByte(m) ==> Rules(m, 0) && !m.SACH? && !m.SST?
  {
  }

  /** Who is at a fixed byte or a branch page. */
  lemma FixedOwner(w: int) returns (m: Mnemonic)
    requires 0x7F00 <= w < 0x8000 && IsFixedByte(w % 256)
    ensures ShapeOf(m).Fixed? && InBlockOf(m, w)
  {
    m := match w % 256
      case 0x80 => NOP case 0x81 => DINT case 0x82 => EINT case 0x88 => ABS case 0x89 => ZAC
      case 0x8A => ROVM case 0x8B => SOVM case 0x8C => CALA case 0x8D => RET case 0x8E => PAC
      case 0x8F => APAC case 0x90 => SPAC case 0x9C => PUSH case _ => POP;
    assert w == 0x7F00 + w % 256;
  }

  lemma BranchOwner(w: int) returns (m: Mnemonic)
    requires 0 <= w < 0x1_0000 && IsBranchPage(w / 256)
    ensures IsTwoWord(m) && Match(m) <= w < Match(m) + 256
    ensures w % 256 == 0 ==> InBlockOf(m, w)
  {
    m := match w / 256
      case 0xF4 => BANZ case 0xF5 => BV case 0xF6 => BIOZ case 0xF8 => CALL case 0xF9 => B
      case 0xFA => BLZ case 0xFB => BLEZ case 0xFC => BGZ case 0xFD => BGEZ case 0xFE => BNZ case _ => BZ;
    assert w == w / 256 * 256 + w % 256;
  }

  // -------------------------------------------------- the class of every word

  predicate FieldOwner(page: int)
  {
    OwnerOf(page).Some? && HasFieldByte(OwnerOf(page).value)
  }

  predicate LegalWord(w: int)
  {
    match OwnerOf(w / 256)
    case Some(m) => Rules(m, w) || (w / 256 == 0x68 && 0x80 <= w % 256 < 0x82)
    case None => SmallWord(w)
  }

  /** A word of a block smaller than a page. */
  predicate SmallWord(w: int)
  {
    || (w / 256 == 0x6E && w % 256 < 2)
    || (w / 256 == 0x7F && IsFixedByte(w % 256))
    || (IsBranchPage(w / 256) && w % 256 == 0)
  }

  predicate ReservedWord(w: int)
  {
    FieldOwner(w / 256) && Indirect(w) && ReservedBits(w % 128)
  }

  predicate SimultaneousWord(w: int)
  {
    && FieldOwner(w / 256) && Indirect(w) && !ReservedBits(w % 128) && BothUpdates(w % 128)
    && (OwnerOf(w / 256).value.SACH? ==> LegalShift(SACH, (w / 256) % 8))
  }

  predicate EnvelopeWord(w: int)
  {
    OwnerOf(w / 256).Some? || SmallWord(w) || IsBranchPage(w / 256)
  }

  lemma OwnerFills(page: int)
    ensures OwnerOf(page).Some? ==> FillsPages(OwnerOf(page).value)
    ensures page == 0x6E || page == 0x7F || IsBranchPage(page) ==> OwnerOf(page).None?
    ensures OwnerOf(page) == Some(MAR) <==> page == 0x68
  {
    hide MiddleOwner, HighOwner;
    NamedOwners(page);
  }

  lemma NamedOwners(page: int)
    ensures MiddleOwner(page).Some? ==> FillsPages(MiddleOwner(page).value)
    ensures HighOwner(page).Some? ==> FillsPages(HighOwner(page).value)
    ensures MiddleOwner(page) == Some(MAR) <==> page == 0x68
    ensures HighOwner(page) != Some(MAR) && MiddleOwner(0x6E).None? && HighOwner(0x7F).None?
  {
  }

  /** A block that holds a word is the owner's or a small one. */
  lemma BlockCases(m: Mnemonic, w: int)
    requires 0 <= w < 0x1_0000 && InBlockOf(m, w)
    ensures FillsPages(m) ==> OwnerOf(w / 256) == Some(m)
    ensures !FillsPages(m) ==> SmallWord(w) || (w / 256 == 0x68 && 0x80 <= w % 256 < 0x82)
    ensures !FillsPages(m) ==> !HasFieldByte(m)
  {
    hide InBlockOf, BlockSize, IsFixedByte, IsBranchPage, OwnerOf;
    OwnerIsBlock(m, w);
    SmallShapes(m);
    BitBlocks(w);
    if ShapeOf(m).Fixed? { FixedBlocks(m, w); }
    if IsTwoWord(m) { BranchBlocks(m, w); }
  }

  lemma SmallHasBlock(w: int) returns (m: Mnemonic)
    requires 0 <= w < 0x1_0000 && (SmallWord(w) || (w / 256 == 0x68 && 0x80 <= w % 256 < 0x82))
    ensures InBlockOf(m, w) && Rules(m, w)
  {
    hide InBlockOf, IsFixedByte;
    BitBlocks(w);
    PageAndByte(w);
    if w / 256 == 0x6E {
      m := LDPK;
    } else if w / 256 == 0x68 {
      m := LARP;
    } else if w / 256 == 0x7F {
      m := FixedOwner(w);
    } else {
      m := BranchOwner(w);
    }
  }

  lemma LegalIs(w: int)
    requires 0 <= w < 0x1_0000
    ensures Decode(w).Some? <==> LegalWord(w)
  {
    hide InBlockOf, Rules, Decode, OwnerOf, SmallWord, FillsPages;
    DecodedIsAccepted(w);
    OwnerFills(w / 256);
    if m :| InBlockOf(m, w) && Rules(m, w) {
      BlockCases(m, w);
      if OwnerOf(w / 256).Some? && !FillsPages(m) { SmallMeetsOwner(w); }
    }
    if LegalWord(w) {
      if OwnerOf(w / 256).Some? && Rules(OwnerOf(w / 256).value, w) {
        OwnerIsBlock(OwnerOf(w / 256).value, w);
      } else {
        var m := SmallHasBlock(w);
      }
    }
  }

  /** Only LARP shares a page with a field mnemonic. */
  lemma SmallMeetsOwner(w: int)
    ensures SmallWord(w) ==> OwnerOf(w / 256).None?
  {
    hide OwnerOf, IsBranchPage, IsFixedByte;
    OwnerFills(w / 256);
  }

  lemma CandidatesAre(w: int)
    requires 0 <= w < 0x1_0000
    ensures (exists m :: CandidateOf(ReservedKind, m, w)) <==> ReservedWord(w)
    ensures (exists m :: CandidateOf(SimultaneousKind, m, w)) <==> SimultaneousWord(w)
  {
    hide InBlockOf, OwnerOf, Indirect, ReservedBits, BothUpdates, LegalShift, HasFieldByte, IsCandidate, FillsPages;
    OwnerFills(w / 256);
    forall m
      ensures CandidateOf(ReservedKind, m, w)
         <==> HasFieldByte(m) && OwnerOf(w / 256) == Some(m) && Indirect(w) && ReservedBits(w % 128)
      ensures CandidateOf(SimultaneousKind, m, w)
         <==> HasFieldByte(m) && OwnerOf(w / 256) == Some(m) && Indirect(w) && !ReservedBits(w % 128)
              && BothUpdates(w % 128) && (m.SACH? ==> LegalShift(SACH, (w / 256) % 8))
    {
      ReservedIs(m, w);
      SmallShapes(m);
      OwnerIsBlock(m, w);
    }
    if FieldOwner(w / 256) {
      var o := OwnerOf(w / 256).value;
      assert CandidateOf(ReservedKind, o, w) <==> ReservedWord(w);
      assert CandidateOf(SimultaneousKind, o, w) <==> SimultaneousWord(w);
    }
  }

  lemma EnvelopesAre(w: int)
    requires 0 <= w < 0x1_0000
    ensures (exists m :: CandidateOf(EnvelopeKind, m, w)) <==> EnvelopeWord(w)
  {
    hide InBlockOf, OwnerOf, SmallWord, InEnvelope, EntryOf, FillsPages, IsBranchPage;
    OwnerFills(w / 256);
    forall m
      ensures CandidateOf(EnvelopeKind, m, w)
         <==> if IsTwoWord(m) then Match(m) <= w < Match(m) + 256 else InBlockOf(m, w)
    {
      SpansOf(m);
      EnvelopeIs(m, w);
    }
    if m :| CandidateOf(EnvelopeKind, m, w) {
      if IsTwoWord(m) { BranchBlocks(m, w); } else { BlockCases(m, w); }
    }
    if EnvelopeWord(w) { EnvelopeWitness(w); }
  }

  lemma EnvelopeWitness(w: int)
    requires 0 <= w < 0x1_0000 && EnvelopeWord(w)
    ensures exists m :: if IsTwoWord(m) then Match(m) <= w < Match(m) + 256 else InBlockOf(m, w)
  {
    hide OwnerOf, SmallWord, FillsPages, IsBranchPage, Isa.Match, InBlockOf, Rules;
    OwnerFills(w / 256);
    if IsBranchPage(w / 256) {
      var m := BranchOwner(w);
    } else if OwnerOf(w / 256).Some? {
      var o := OwnerOf(w / 256).value;
      OwnerIsBlock(o, w);
      SmallShapes(o);
      assert if IsTwoWord(o) then Match(o) <= w < Match(o) + 256 else InBlockOf(o, w);
    } else {
      var m := SmallHasBlock(w);
      BlockInPage(m, w);
      assert if IsTwoWord(m) then Match(m) <= w < Match(m) + 256 else InBlockOf(m, w);
    }
  }

  lemma BlockInPage(m: Mnemonic, w: int)
    ensures InBlockOf(m, w) && IsTwoWord(m) ==> Match(m) <= w < Match(m) + 256
  {
  }

  /** The byte of a word, its control and its place in a SACH block. */
  lemma ByteOf(w: int)
    requires 0 <= w < 0x1_0000
    ensures Indirect(w) <==> w % 256 >= 128
    ensures w % 128 == w % 256 % 128 && 0 <= w % 128 < 128
    ensures w % 256 < 128 ==> w % 128 == w % 256
  {
    LowByte(w);
  }

  /** The tests of `classify_word` in their order, once each is known. */
  function TestedClass(w: int): Class
  {
    if LegalWord(w) then DocumentedLegal
    else if ReservedWord(w) then ReservedIndirectField
    else if SimultaneousWord(w) then SimultaneousUpdate
    else if EnvelopeWord(w) then PatternMismatch
    else Unlisted
  }

  /** The order of the tests in `classify_word` gives the class of the page. */
  lemma TestsGiveClass(w: int)
    requires 0 <= w < 0x1_0000
    ensures ClassOf(w) == TestedClass(w)
  {
    hide OwnerOf, ClassOf, TestedClass, HasFieldByte;
    if OwnerOf(w / 256).None? {
      UnownedClass(w);
    } else if HasFieldByte(OwnerOf(w / 256).value) {
      FieldClass(OwnerOf(w / 256).value, w);
    } else {
      ConstantClass(OwnerOf(w / 256).value, w);
    }
  }

  lemma UnownedClass(w: int)
    requires 0 <= w < 0x1_0000 && OwnerOf(w / 256).None?
    ensures ClassOf(w) == TestedClass(w)
  {
    hide OwnerOf, IsFixedByte, Indirect, HasFieldByte;
  }

  lemma ConstantClass(m: Mnemonic, w: int)
    requires 0 <= w < 0x1_0000 && OwnerOf(w / 256) == Some(m) && !HasFieldByte(m)
    ensures ClassOf(w) == TestedClass(w)
  {
    hide OwnerOf, HasFieldByte, Rules, FillsPages, LegalShift, SmallWord, ReservedWord, SimultaneousWord;
    OwnerFills(w / 256);
    SmallShapes(m);
    RulesAre(m, w);
  }

  lemma FieldClass(m: Mnemonic, w: int)
    requires 0 <= w < 0x1_0000 && OwnerOf(w / 256) == Some(m) && HasFieldByte(m)
    ensures ClassOf(w) == TestedClass(w)
  {
    hide OwnerOf, HasFieldByte, ReservedBits, BothUpdates, Indirect, LegalShift, LegalWord, SmallWord, IsBranchPage;
    ByteOf(w);
    FieldLegal(m, w);
  }

  /** The legal words of a page with a field byte. */
  lemma FieldLegal(m: Mnemonic, w: int)
    requires 0 <= w < 0x1_0000 && OwnerOf(w / 256) == Some(m) && HasFieldByte(m)
    ensures LegalWord(w)
       <==> && (Indirect(w) ==> !ReservedBits(w % 128) && !BothUpdates(w % 128))
            && (m.SST? && !Indirect(w) ==> w % 128 < 16)
            && (m.SACH? ==> LegalShift(SACH, (w / 256) % 8))
  {
    hide OwnerOf, HasFieldByte, Rules, ReservedBits, BothUpdates, Indirect, LegalShift, SmallWord, FillsPages;
    OwnerFills(w / 256);
    SmallShapes(m);
    RulesAre(m, w);
    ByteOf(w);
    if m.MAR? { LarpControl(w); }
  }

  /** The two bytes LARP takes from MAR are legal controls of an address page. */
  lemma LarpControl(w: int)
    ensures 0x80 <= w % 256 < 0x82 <==> w % 256 >= 128 && w % 256 % 128 <= 1
    ensures !ReservedBits(0) && !ReservedBits(1) && !BothUpdates(0) && !BothUpdates(1)
  {
  }

  /** The rules of the mnemonics that fill pages, by the byte. */
  lemma RulesAre(m: Mnemonic, w: int)
    requires 0 <= w < 0x1_0000 && FillsPages(m)
    ensures Rules(m, w)
       <==> !HasFieldByte(m)
            || (&& (Indirect(w) ==> !ReservedBits(w % 128) && !BothUpdates(w % 128))
                && (m.SST? && !Indirect(w) ==> w % 128 < 16)
                && (m.MAR? && Indirect(w) ==> w % 128 > 1)
                && (m.SACH? ==> LegalShift(SACH, (w / 256) % 8)))
  {
    hide LegalControl, ReservedBits, BothUpdates, LegalShift;
    ControlClasses(w % 128);
  }

  /** The class of every word. */
  lemma ClassOfWord(w: int)
    requires 0 <= w < 0x1_0000
    ensures ValidSpansOf(Entries())
    ensures ClassifySpec(Entries(), w).Verdict? && ClassifySpec(Entries(), w).classification == ClassOf(w)
  {
    hide Decode, LegalWord, ReservedWord, SimultaneousWord, EnvelopeWord, ClassOf, CandidateOf, Candidates;
    hide Matches, Entries;
    hide DictionaryOf, EntryOf;
    DecodeWordIsDecode(w);
    LegalIs(w);
    SomeEntry(ReservedKind, w);
    SomeEntry(SimultaneousKind, w);
    SomeEntry(EnvelopeKind, w);
    CandidatesAre(w);
    EnvelopesAre(w);
    TestsGiveClass(w);
  }

  // ---------------------------------------------------------------- counting

  /** How many of the first n bytes of a page have a class. */
  function ByteCount(kind: PageKind, c: Class, n: nat): nat
  {
    if n == 0 then 0 else ByteCount(kind, c, n - 1) + if ClassIn(kind, n - 1) == c then 1 else 0
  }

  lemma {:induction false} SameClassBytes(kind: PageKind, c: Class, lo: nat, hi: nat, k: Class)
    requires lo <= hi && forall b :: lo <= b < hi ==> ClassIn(kind, b) == k
    ensures ByteCount(kind, c, hi) == ByteCount(kind, c, lo) + if c == k then hi - lo else 0
  {
    hide ClassIn;
    if lo < hi { SameClassBytes(kind, c, lo, hi - 1, k); }
  }

  /** Sixteen controls: the four without reserved bits, the others. */
  lemma ControlBlock(kind: PageKind, c: Class, block: nat, k: Class)
    requires block < 4 && (kind.AddressPage? || kind.StatusPage? || kind.BadShiftPage?)
    requires k == if kind.BadShiftPage? then PatternMismatch
                  else if block == 3 then SimultaneousUpdate else DocumentedLegal
    ensures ByteCount(kind, c, 144 + 16 * block)
         == ByteCount(kind, c, 128 + 16 * block)
            + (if c == k then 4 else 0) + if c.ReservedIndirectField? then 12 else 0
  {
    hide ByteCount;
    var base := 128 + 16 * block;
    forall b | base <= b < base + 16
      ensures ClassIn(kind, b) == if b - base < 2 || 8 <= b - base < 10 then k else ReservedIndirectField
    {
      BlockBits4(block, b - base);
    }
    hide ClassIn;
    SameClassBytes(kind, c, base, base + 2, k);
    SameClassBytes(kind, c, base + 2, base + 8, ReservedIndirectField);
    SameClassBytes(kind, c, base + 8, base + 10, k);
    SameClassBytes(kind, c, base + 10, base + 16, ReservedIndirectField);
  }

  lemma BlockBits4(block: nat, r: int)
    requires block < 4 && 0 <= r < 16
    ensures (128 + 16 * block + r) % 128 == 16 * block + r
    ensures ReservedBits(16 * block + r) <==> !(r < 2 || 8 <= r < 10)
    ensures BothUpdates(16 * block + r) <==> block == 3
  {
  }

  /** The upper half of an address page. */
  lemma ControlHalf(kind: PageKind, c: Class)
    requires kind.AddressPage? || kind.StatusPage? || kind.BadShiftPage?
    ensures ByteCount(kind, c, 256) == ByteCount(kind, c, 128) + match c
      case ReservedIndirectField => 112
      case SimultaneousUpdate => if kind.BadShiftPage? then 0 else 4
      case DocumentedLegal => if kind.BadShiftPage? then 0 else 12
      case PatternMismatch => if kind.BadShiftPage? then 16 else 0
      case Unlisted => 0
  {
    hide ByteCount;
    var legal := if kind.BadShiftPage? then PatternMismatch else DocumentedLegal;
    ControlBlock(kind, c, 0, legal);
    ControlBlock(kind, c, 1, legal);
    ControlBlock(kind, c, 2, legal);
    ControlBlock(kind, c, 3, if kind.BadShiftPage? then PatternMismatch else SimultaneousUpdate);
    forall b | 192 <= b < 256
      ensures ClassIn(kind, b) == ReservedIndirectField
    {
      assert b % 128 == b - 128 && (b - 128) / 64 == 1;
    }
    hide ClassIn;
    SameClassBytes(kind, c, 192, 256, ReservedIndirectField);
  }

  /** The class counts of a page. */
  function PageTotal(kind: PageKind, c: Class): nat
  {
    match kind
    case AddressPage =>
      (match c case DocumentedLegal => 140 case ReservedIndirectField => 112 case SimultaneousUpdate => 4 case _ => 0)
    case StatusPage =>
      (match c case DocumentedLegal => 28 case ReservedIndirectField => 112 case SimultaneousUpdate => 4
               case PatternMismatch => 112 case _ => 0)
    case BadShiftPage => (match c case ReservedIndirectField => 112 case PatternMismatch => 144 case _ => 0)
    case ConstantPage => (match c case DocumentedLegal => 256 case _ => 0)
    case PagePointerPage => (match c case DocumentedLegal => 2 case Unlisted => 254 case _ => 0)
    case FixedPage => (match c case DocumentedLegal => 14 case Unlisted => 242 case _ => 0)
    case BranchPage => (match c case DocumentedLegal => 1 case PatternMismatch => 255 case _ => 0)
    case EmptyPage => (match c case Unlisted => 256 case _ => 0)
  }

  /** The counts of a page are those of its lower and of its upper bytes. */
  lemma PageTotalIs(kind: PageKind, c: Class)
    ensures ByteCount(kind, c, 256) == PageTotal(kind, c)
  {
    hide ByteCount, PageTotal;
    match kind
    case AddressPage => AddressTotal(kind, c);
    case StatusPage => AddressTotal(kind, c);
    case BadShiftPage => AddressTotal(kind, c);
    case FixedPage => FixedTotal(c);
    case _ => PlainTotal(kind, c);
  }

  lemma NoBytes(kind: PageKind, c: Class)
    ensures ByteCount(kind, c, 0) == 0
  {
  }

  lemma AddressTotal(kind: PageKind, c: Class)
    requires kind.AddressPage? || kind.StatusPage? || kind.BadShiftPage?
    ensures ByteCount(kind, c, 256) == PageTotal(kind, c)
  {
    hide ByteCount, ControlClass, ReservedBits;
    NoBytes(kind, c);
    ControlHalf(kind, c);
    var low := if kind.BadShiftPage? then PatternMismatch else DocumentedLegal;
    SameClassBytes(kind, c, 0, 16, low);
    SameClassBytes(kind, c, 16, 128, if kind.StatusPage? then PatternMismatch else low);
  }

  lemma FixedTotal(c: Class)
    ensures ByteCount(FixedPage, c, 256) == PageTotal(FixedPage, c)
  {
    hide ByteCount;
    NoBytes(FixedPage, c);
    SameClassBytes(FixedPage, c, 0, 0x80, Unlisted);
    SameClassBytes(FixedPage, c, 0x80, 0x83, DocumentedLegal);
    SameClassBytes(FixedPage, c, 0x83, 0x88, Unlisted);
    SameClassBytes(FixedPage, c, 0x88, 0x91, DocumentedLegal);
    SameClassBytes(FixedPage, c, 0x91, 0x9C, Unlisted);
    SameClassBytes(FixedPage, c, 0x9C, 0x9E, DocumentedLegal);
    SameClassBytes(FixedPage, c, 0x9E, 256, Unlisted);
  }

  lemma PlainTotal(kind: PageKind, c: Class)
    requires kind.ConstantPage? || kind.PagePointerPage? || kind.BranchPage? || kind.EmptyPage?
    ensures ByteCount(kind, c, 256) == PageTotal(kind, c)
  {
    hide ByteCount;
    NoBytes(kind, c);
    var split := if kind.PagePointerPage? then 2 else 1;
    SameClassBytes(kind, c, 0, split, if kind.EmptyPage? then Unlisted else DocumentedLegal);
    SameClassBytes(kind, c, split, 256,
      if kind.ConstantPage? then DocumentedLegal else if kind.BranchPage? then PatternMismatch else Unlisted);
  }

  lemma {:induction false} PageCounts(page: nat, c: Class, n: nat)
    requires page < 256 && n <= 256
    ensures ValidSpansOf(Entries())
    ensures CountBelow(Entries(), c, page * 256 + n)
         == CountBelow(Entries(), c, page * 256) + ByteCount(KindOf(page), c, n)
  {
    hide ClassifySpec, Entries, KindOf, ClassIn;
    EntriesUnambiguous();
    if n > 0 {
      PageCounts(page, c, n - 1);
      var w := page * 256 + (n - 1);
      WordInPage(page, n - 1);
      ClassOfWord(w);
    }
  }

  lemma WordInPage(page: nat, b: nat)
    requires b < 256
    ensures (page * 256 + b) / 256 == page && (page * 256 + b) % 256 == b
  {
  }

  /** A run of pages of one kind. */
  lemma {:induction false} RunCounts(lo: nat, hi: nat, kind: PageKind, c: Class)
    requires lo <= hi <= 256 && forall p :: lo <= p < hi ==> KindOf(p) == kind
    ensures ValidSpansOf(Entries())
    ensures CountBelow(Entries(), c, hi * 256)
         == CountBelow(Entries(), c, lo * 256) + (hi - lo) * PageTotal(kind, c)
  {
    hide CountBelow, Entries, KindOf, PageTotal, ByteCount;
    EntriesUnambiguous();
    if lo < hi {
      RunCounts(lo, hi - 1, kind, c);
      PageCounts(hi - 1, c, 256);
      PageTotalIs(kind, c);
      OneMore(hi - 1 - lo, PageTotal(kind, c));
      assert (hi - 1) * 256 + 256 == hi * 256;
    }
  }

  lemma OneMore(n: int, x: int)
    ensures n * x + x == (n + 1) * x
  {
  }

  /** Maximal runs of pages of one kind. */
  lemma LowRuns(c: Class)
    ensures ValidSpansOf(Entries())
    ensures CountBelow(Entries(), c, 0x58 * 256)
         == 69 * PageTotal(AddressPage, c) + 19 * PageTotal(EmptyPage, c)
  {
    hide CountBelow, Entries, PageTotal, ClassifySpec;
    EntriesUnambiguous();
    NothingBelow(c);
    LowKinds();
    hide KindOf;
    RunCounts(0x00, 0x32, AddressPage, c);
    RunCounts(0x32, 0x38, EmptyPage, c);
    RunCounts(0x38, 0x3A, AddressPage, c);
    RunCounts(0x3A, 0x40, EmptyPage, c);
    RunCounts(0x40, 0x51, AddressPage, c);
    RunCounts(0x51, 0x58, EmptyPage, c);
  }

  lemma NothingBelow(c: Class)
    ensures ValidSpansOf(Entries()) && CountBelow(Entries(), c, 0) == 0
  {
    hide Entries;
    EntriesUnambiguous();
  }

  lemma LowKinds()
    ensures forall p :: 0x00 <= p < 0x32 ==> KindOf(p) == AddressPage
    ensures forall p :: 0x32 <= p < 0x38 ==> KindOf(p) == EmptyPage
    ensures forall p :: 0x38 <= p < 0x3A ==> KindOf(p) == AddressPage
    ensures forall p :: 0x3A <= p < 0x40 ==> KindOf(p) == EmptyPage
    ensures forall p :: 0x40 <= p < 0x51 ==> KindOf(p) == AddressPage
    ensures forall p :: 0x51 <= p < 0x58 ==> KindOf(p) == EmptyPage
  {
    hide MiddleOwner, HighOwner;
  }

  lemma MiddleRuns(c: Class)
    ensures ValidSpansOf(Entries())
    ensures CountBelow(Entries(), c, 0x70 * 256) == CountBelow(Entries(), c, 0x58 * 256)
            + 18 * PageTotal(AddressPage, c) + 5 * PageTotal(BadShiftPage, c) + PageTotal(PagePointerPage, c)
  {
    hide CountBelow, Entries, PageTotal, ClassifySpec;
    EntriesUnambiguous();
    ShiftKinds();
    MiddleKinds();
    hide KindOf;
    RunCounts(0x58, 0x5A, AddressPage, c);
    RunCounts(0x5A, 0x5C, BadShiftPage, c);
    RunCounts(0x5C, 0x5D, AddressPage, c);
    RunCounts(0x5D, 0x60, BadShiftPage, c);
    RunCounts(0x60, 0x6E, AddressPage, c);
    RunCounts(0x6E, 0x6F, PagePointerPage, c);
    RunCounts(0x6F, 0x70, AddressPage, c);
  }

  lemma ShiftKinds()
    ensures forall p :: 0x58 <= p < 0x5A ==> KindOf(p) == AddressPage
    ensures forall p :: 0x5A <= p < 0x5C ==> KindOf(p) == BadShiftPage
    ensures forall p :: 0x5C <= p < 0x5D ==> KindOf(p) == AddressPage
    ensures forall p :: 0x5D <= p < 0x60 ==> KindOf(p) == BadShiftPage
  {
    hide MiddleOwner, HighOwner;
  }

  lemma MiddleKinds()
    ensures forall p :: 0x60 <= p < 0x6E ==> KindOf(p) == AddressPage
    ensures forall p :: 0x6E <= p < 0x6F ==> KindOf(p) == PagePointerPage
    ensures forall p :: 0x6F <= p < 0x70 ==> KindOf(p) == AddressPage
  {
    hide HighOwner;
  }

  lemma HighRuns(c: Class)
    ensures ValidSpansOf(Entries())
    ensures CountBelow(Entries(), c, 0x80 * 256) == CountBelow(Entries(), c, 0x70 * 256)
            + 5 * PageTotal(AddressPage, c) + PageTotal(StatusPage, c) + 3 * PageTotal(ConstantPage, c)
            + PageTotal(FixedPage, c) + 6 * PageTotal(EmptyPage, c)
  {
    hide CountBelow, Entries, PageTotal, ClassifySpec;
    EntriesUnambiguous();
    HighKinds();
    hide KindOf;
    RunCounts(0x70, 0x72, ConstantPage, c);
    RunCounts(0x72, 0x78, EmptyPage, c);
    RunCounts(0x78, 0x7C, AddressPage, c);
    RunCounts(0x7C, 0x7D, StatusPage, c);
    RunCounts(0x7D, 0x7E, AddressPage, c);
    RunCounts(0x7E, 0x7F, ConstantPage, c);
    RunCounts(0x7F, 0x80, FixedPage, c);
  }

  lemma HighKinds()
    ensures forall p :: 0x70 <= p < 0x72 ==> KindOf(p) == ConstantPage
    ensures forall p :: 0x72 <= p < 0x78 ==> KindOf(p) == EmptyPage
    ensures forall p :: 0x78 <= p < 0x7C ==> KindOf(p) == AddressPage
    ensures forall p :: 0x7C <= p < 0x7D ==> KindOf(p) == StatusPage
    ensures forall p :: 0x7D <= p < 0x7E ==> KindOf(p) == AddressPage
    ensures forall p :: 0x7E <= p < 0x7F ==> KindOf(p) == ConstantPage
    ensures forall p :: 0x7F <= p < 0x80 ==> KindOf(p) == FixedPage
  {
    hide MiddleOwner;
  }

  lemma TopRuns(c: Class)
    ensures ValidSpansOf(Entries())
    ensures CountBelow(Entries(), c, 0x100 * 256) == CountBelow(Entries(), c, 0x80 * 256)
            + 32 * PageTotal(ConstantPage, c) + 85 * PageTotal(EmptyPage, c) + 11 * PageTotal(BranchPage, c)
  {
    hide CountBelow, Entries, PageTotal, ClassifySpec;
    EntriesUnambiguous();
    TopKinds();
    hide KindOf;
    RunCounts(0x80, 0xA0, ConstantPage, c);
    RunCounts(0xA0, 0xF4, EmptyPage, c);
    RunCounts(0xF4, 0xF7, BranchPage, c);
    RunCounts(0xF7, 0xF8, EmptyPage, c);
    RunCounts(0xF8, 0x100, BranchPage, c);
  }

  lemma TopKinds()
    ensures forall p :: 0x80 <= p < 0xA0 ==> KindOf(p) == ConstantPage
    ensures forall p :: 0xA0 <= p < 0xF4 ==> KindOf(p) == EmptyPage
    ensures forall p :: 0xF4 <= p < 0xF7 ==> KindOf(p) == BranchPage
    ensures forall p :: 0xF7 <= p < 0xF8 ==> KindOf(p) == EmptyPage
    ensures forall p :: 0xF8 <= p < 0x100 ==> KindOf(p) == BranchPage
  {
    hide MiddleOwner, HighOwner;
  }

  /** The audit of the shipped entries counts exactly the recorded numbers. */
  lemma CountsAreExpected(c: Class)
    ensures ValidSpansOf(Entries())
    ensures c in Shipped().expectedCounts
         && CountBelow(Entries(), c, 0x1_0000) == Shipped().expectedCounts[c]
  {
    hide CountBelow, Entries;
    EntriesUnambiguous();
    LowRuns(c);
    MiddleRuns(c);
    HighRuns(c);
    TopRuns(c);
  }
}
