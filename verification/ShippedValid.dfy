/** The shipped database passes the validator, so all its guarantees apply, and
    decode_word is the hand-written decoder. */
module ShippedValid {
  import opened Bits
  import opened Isa
  import opened IsaDatabase
  import opened FieldReconstruction
  import opened Classification
  import opened Validator
  import opened Decoder
  import opened ShippedDatabase

  // ---------------------------------------------- bits of aligned constants

  /** An aligned value and a smaller one share no bit. */
  lemma AndDisjoint(h: int, l: int, k: nat)
    requires 0 <= l < Pow2(k)
    ensures And(h * Pow2(k), l) == 0 && And(l, h * Pow2(k)) == 0
  {
    Split(AndOp, h, 0, 0, l, k);
    hide Bitwise;
    AndZero(h);
    AndZero(l);
    Commutes(AndOp, 0, l);
    Commutes(AndOp, l, h * Pow2(k));
  }

  /** An aligned opcode has no bit outside its mask. */
  lemma {:induction false} NoBitOutside(q: int, n: nat)
    requires 0 <= q < Pow2(n)
    ensures And(q, -Pow2(n)) == 0
    decreases n
  {
    if n == 0 {
      assert And(0, -1) == 0;
    } else {
      NoBitOutside(q / 2, n - 1);
      Build(AndOp, q % 2, q / 2, 0, -Pow2(n - 1));
    }
  }

  lemma MaskedOpcode(base: int, k: nat)
    requires k <= 16 && 0 <= base < 0x1_0000 && base % Pow2(k) == 0
    ensures And(base, Not(0x1_0000 - Pow2(k))) == 0
  {
    Pow2Table();
    Pow2Add(16 - k, k);
    hide Bitwise, Pow2, And;
    Quotient(base, Pow2(k));
    MaskedBlock(base / Pow2(k), Pow2(k), Pow2(16 - k), k);
  }

  lemma Quotient(base: int, p: int)
    requires p > 0 && base % p == 0
    ensures base / p * p == base && p * (base / p) == base
  {
  }

  lemma MaskComplement(k: nat)
    requires k <= 16
    ensures And(Not(0x1_0000 - Pow2(k)), 0xFFFF) == Pow2(k) - 1
  {
    hide Bitwise, Pow2;
    Pow2Table();
    Pow2Add(16 - k, k);
    AndOnes(Not(0x1_0000 - Pow2(k)), 16);
    OnesComplement(Pow2(k), Pow2(16 - k));
  }

  lemma MaskedBlock(q: int, p: int, n: int, k: nat)
    requires k <= 16 && p == Pow2(k) && n == Pow2(16 - k) && n * p == 0x1_0000
    ensures 0 <= q * p < 0x1_0000 ==> And(p * q, Not(0x1_0000 - p)) == 0
  {
    hide Bitwise, Pow2;
    if 0 <= q * p < 0x1_0000 {
      QuotientBound(q * p, n, p);
      DivUnique(q * p, p, q, 0);
      NoBitOutside(q, 16 - k);
      Split(AndOp, q, 0, -n, p - 1, k);
      assert -n * p == -(n * p);
      AndZero(p - 1);
      Commutes(AndOp, 0, p - 1);
    }
  }

  lemma OnesComplement(p: int, n: int)
    requires p > 0 && n > 0 && n * p == 0x1_0000
    ensures Not(0x1_0000 - p) % 0x1_0000 == p - 1
  {
    MultipleIsFar(p, n);
    DivUnique(Not(0x1_0000 - p), 0x1_0000, -1, p - 1);
  }

  // --------------------------------------------------- fields tile their bits

  /** The fields of each shape cover the low bits from the top down. */
  lemma AddressMasks()
    ensures FieldMask(Unsigned(IndirectName, 7, 1)) == 0x80
    ensures FieldMask(Unsigned(AddressingName, 0, 7)) == 0x7F
    ensures And(0x80, 0x7F) == 0 && Or(0x80, 0x7F) == 0xFF && Or(0, 0x80) == 0x80 && And(0, 0x80) == 0
  {
    Pow2Table();
    AndDisjoint(1, 0x7F, 7);
    OrDisjoint(1, 0x7F, 7);
    OrZero(0x80);
    Commutes(OrOp, 0, 0x80);
    AndZero(0x80);
    Commutes(AndOp, 0, 0x80);
  }

  /** A lead field of the given width above bit 8, if any, and the address. */
  lemma LeadMasks(width: nat)
    requires 1 <= width <= 4
    ensures (Pow2(width) - 1) * Pow2(8) == (Pow2(width) - 1) * 256
    ensures var lead := (Pow2(width) - 1) * 256;
            && And(0, lead) == 0 && Or(0, lead) == lead
            && And(lead, 0x80) == 0 && Or(lead, 0x80) == lead + 0x80
            && And(lead + 0x80, 0x7F) == 0 && Or(lead + 0x80, 0x7F) == lead + 0xFF
            && And(lead, 0xFF) == 0 && Or(lead, 0xFF) == lead + 0xFF
  {
    Pow2Table();
    hide Bitwise, Pow2;
    var ones := Pow2(width) - 1;
    var lead := ones * 256;
    AndZero(lead);
    Commutes(AndOp, 0, lead);
    OrZero(lead);
    Commutes(OrOp, 0, lead);
    AndDisjoint(ones, 0x80, 8);
    OrDisjoint(ones, 0x80, 8);
    AndDisjoint(2 * ones + 1, 0x7F, 7);
    OrDisjoint(2 * ones + 1, 0x7F, 7);
    AndDisjoint(ones, 0xFF, 8);
    OrDisjoint(ones, 0xFF, 8);
  }

  /** The fixed bits lie above every field. */
  lemma AboveFields(m: Mnemonic, f: Field)
    requires ValidSpan(f) && f.lsb + f.width <= FieldBits(m)
    ensures And(MaskOf(m), FieldMask(f)) == 0
  {
    hide Bitwise, And, Pow2, FieldMask, FieldBits;
    Pow2Table();
    FewBits(m);
    var k := FieldBits(m);
    Pow2Add(16 - k, k);
    FieldBelow(f, k);
    Distribute(Pow2(16 - k), Pow2(k));
    AndDisjoint(Pow2(16 - k) - 1, FieldMask(f), k);
  }

  lemma FieldBelow(f: Field, k: nat)
    requires ValidSpan(f) && f.lsb + f.width <= k
    ensures 0 <= FieldMask(f) < Pow2(k)
  {
    Pow2Add(f.width, f.lsb);
    Pow2Add(f.lsb + f.width, k - f.lsb - f.width);
    hide Pow2;
    ProductOrder(Pow2(f.width), Pow2(f.lsb), Pow2(k - f.lsb - f.width));
  }

  lemma ProductOrder(a: int, p: int, q: int)
    requires a > 0 && p > 0 && q > 0
    ensures 0 <= (a - 1) * p < a * p <= (a * p) * q
  {
    Distribute(a, p);
    MultipleIsFar(p, a);
    assert p * a == a * p;
    MultipleIsFar(a * p, q);
  }

  // ---------------------------------------------------------- valid entries

  lemma EncodingValid(m: Mnemonic)
    ensures ValidEncoding(EntryOf(m))
  {
    hide Bitwise, Pow2, Isa.Match, FieldBits, FieldsOf, ConstraintsOf, VariableMask, FieldMask;
    hide DisjointFields, ValidSpans;
    SpansOf(m);
    MaskRange(m);
    FewBits(m);
    MatchBelow(m);
    MaskedOpcode(Match(m), FieldBits(m));
    MaskComplement(FieldBits(m));
    MaskPositive(FieldBits(m));
    FieldsTile(m);
  }

  lemma MatchBelow(m: Mnemonic)
    ensures 0 <= Match(m) < 0x1_0000
  {
  }

  lemma MaskPositive(k: nat)
    requires k <= 13
    ensures 1 <= Pow2(k) <= 0x1_0000
  {
    Pow2Table();
    Pow2Add(k, 16 - k);
    hide Pow2;
    ProductOrder(1, Pow2(k), Pow2(16 - k));
  }

  /** The fields of an entry are disjoint and describe exactly its low bits. */
  lemma FieldsTile(m: Mnemonic)
    ensures ValidSpans(FieldsOf(m))
    ensures DisjointFields(MaskOf(m), FieldsOf(m))
    ensures VariableMask(FieldsOf(m)) == Pow2(FieldBits(m)) - 1
  {
    hide Bitwise, And, Pow2, VariableMask, FieldMask, Isa.Match, MaskOf;
    SpansOf(m);
    var fields := FieldsOf(m);
    forall i | 0 <= i < |fields|
      ensures And(MaskOf(m), FieldMask(fields[i])) == 0
    {
      FieldsBelow(m, i);
      AboveFields(m, fields[i]);
    }
    Pow2Table();
    match ShapeOf(m)
    case TwoWord => NothingVaries();
    case Fixed => NothingVaries();
    case PlainData => TilePair(fields);
    case Shifted => TileTriple(fields);
    case WithRegister => TileTriple(fields);
    case WithPort => TileTriple(fields);
    case Immediate(_, _) => TileOne(fields);
    case RegisterImmediate => TileLark(fields);
  }

  lemma NothingVaries()
    ensures VariableMask([]) == 0
  {
  }

  lemma FieldsBelow(m: Mnemonic, i: int)
    requires 0 <= i < |FieldsOf(m)|
    ensures FieldsOf(m)[i].lsb + FieldsOf(m)[i].width <= FieldBits(m)
  {
  }

  lemma TileOne(fields: seq<Field>)
    requires |fields| == 1 && ValidSpan(fields[0]) && fields[0].lsb == 0
    ensures VariableMask(fields) == Pow2(fields[0].width) - 1
    ensures And(VariableMask(fields[..0]), FieldMask(fields[0])) == 0
  {
    var x := FieldMask(fields[0]);
    assert fields[..0] == [] && Pow2(0) == 1;
    OrZero(x);
    Commutes(OrOp, 0, x);
    AndZero(x);
    Commutes(AndOp, 0, x);
  }

  lemma TilePair(fields: seq<Field>)
    requires fields == AddressFields()
    ensures VariableMask(fields) == 0xFF
    ensures forall i :: 0 <= i < 2 ==> And(VariableMask(fields[..i]), FieldMask(fields[i])) == 0
  {
    AddressMasks();
    hide Bitwise, FieldMask;
    var a, b := Unsigned(IndirectName, 7, 1), Unsigned(AddressingName, 0, 7);
    assert fields == [a, b] && fields[..0] == [] && fields[..1] == [a];
    MaskOfOne(a);
    forall i | 0 <= i < 2
      ensures And(VariableMask(fields[..i]), FieldMask(fields[i])) == 0
    {
      if i == 0 { } else { }
    }
  }

  lemma MaskOfOne(f: Field)
    requires ValidSpan(f)
    ensures VariableMask([f]) == FieldMask(f)
    ensures And(0, FieldMask(f)) == 0
  {
    var x := FieldMask(f);
    hide Bitwise, FieldMask;
    assert [f][..0] == [];
    OrZero(x);
    Commutes(OrOp, 0, x);
    AndZero(x);
    Commutes(AndOp, 0, x);
  }

  lemma TileTriple(fields: seq<Field>)
    requires |fields| == 3 && fields[1..] == AddressFields()
    requires fields[0].lsb == 8 && 1 <= fields[0].width <= 4
    ensures VariableMask(fields) == Pow2(8 + fields[0].width) - 1
    ensures forall i :: 0 <= i < 3 ==> And(VariableMask(fields[..i]), FieldMask(fields[i])) == 0
  {
    hide Bitwise, FieldMask, Pow2;
    Pow2Table();
    Pow2Add(fields[0].width, 8);
    AddressMasks();
    LeadMasks(fields[0].width);
    LeadMask(fields[0]);
    var l, a, b := fields[0], Unsigned(IndirectName, 7, 1), Unsigned(AddressingName, 0, 7);
    assert fields[1] == fields[1..][0] && fields[2] == fields[1..][1];
    assert fields == [l, a, b] && fields[..0] == [] && fields[..1] == [l] && fields[..2] == [l, a];
    assert [l, a][..1] == [l];
    MaskOfOne(l);
    var lead := FieldMask(l);
    assert VariableMask([l, a]) == lead + 0x80;
    forall i | 0 <= i < 3
      ensures And(VariableMask(fields[..i]), FieldMask(fields[i])) == 0
    {
      if i == 0 { } else if i == 1 { } else { }
    }
  }

  lemma LeadMask(l: Field)
    requires l.lsb == 8 && ValidSpan(l)
    ensures FieldMask(l) == (Pow2(l.width) - 1) * 256
  {
    Pow2Table();
  }

  lemma TileLark(fields: seq<Field>)
    requires fields == [Unsigned(RegisterName, 8, 1), Unsigned(ConstantName, 0, 8)]
    ensures VariableMask(fields) == 0x1FF
    ensures forall i :: 0 <= i < 2 ==> And(VariableMask(fields[..i]), FieldMask(fields[i])) == 0
  {
    hide Bitwise, FieldMask, Pow2;
    Pow2Table();
    LeadMasks(1);
    LarkMasks();
    var l, b := fields[0], fields[1];
    assert fields[..0] == [] && fields[..1] == [l];
    MaskOfOne(l);
    forall i | 0 <= i < 2
      ensures And(VariableMask(fields[..i]), FieldMask(fields[i])) == 0
    {
      if i == 0 { } else { }
    }
  }

  lemma LarkMasks()
    ensures FieldMask(Unsigned(RegisterName, 8, 1)) == 0x100 && FieldMask(Unsigned(ConstantName, 0, 8)) == 0xFF
  {
    Pow2Table();
  }

  lemma EntryValid(m: Mnemonic)
    ensures ValidEntry(EntryOf(m))
  {
    hide ValidEncoding, ValidConstraint, ValidLegalValues, ValidEnvelope, Isa.Match, FieldsOf, ConstraintsOf;
    EncodingValid(m);
    RulesValid(m);
    LegalValuesValid(m);
    if IsTwoWord(m) { EnvelopeValid(m); }
  }

  lemma LegalValuesValid(m: Mnemonic)
    ensures ValidSpans(FieldsOf(m))
    ensures forall i :: 0 <= i < |FieldsOf(m)| ==> ValidLegalValues(FieldsOf(m)[i])
  {
    hide Pow2, ValidSpans;
    SpansOf(m);
    SachValues();
    forall i | 0 <= i < |FieldsOf(m)|
      ensures ValidLegalValues(FieldsOf(m)[i])
    {
      OnlyShiftsListed(m, i);
    }
  }

  lemma OnlyShiftsListed(m: Mnemonic, i: int)
    requires 0 <= i < |FieldsOf(m)|
    ensures ValidSpan(FieldsOf(m)[i])
    ensures FieldsOf(m)[i].legalValues.None? || FieldsOf(m)[i] == SachShift()
  {
    hide Pow2;
  }

  lemma SachValues()
    ensures ValidLegalValues(SachShift())
  {
    Pow2Table();
  }

  /** Small patterns have no bit outside their mask. */
  lemma SmallPattern(bits: int, mask: int)
    requires (bits == mask || bits == 0) && 0 <= mask <= 0xFFFF
    ensures ValidPattern(Pattern(mask, bits))
  {
    SelfOutside(mask);
    AndZero(Not(mask));
    Commutes(AndOp, 0, Not(mask));
  }

  lemma {:induction false} SelfOutside(x: int)
    ensures And(x, Not(x)) == 0
    decreases Magnitude(x)
  {
    if Magnitude(x) > 0 {
      SelfOutside(x / 2);
      assert Not(x) / 2 == Not(x / 2);
    }
  }

  lemma RulesValid(m: Mnemonic)
    ensures forall i :: 0 <= i < |ConstraintsOf(m)| ==> ValidConstraint(ConstraintsOf(m)[i])
  {
    hide ValidPattern;
    SmallPattern(0x80, 0x80);
    SmallPattern(0, 0x80);
    SmallPattern(0, 0x46);
    SmallPattern(0x30, 0x30);
    SmallPattern(0, 0x70);
    MarPatterns();
    var rules := IndirectRules();
    assert ValidConstraint(rules[0]) && ValidConstraint(rules[1]);
    if m.MAR? || m.SST? {
      assert ConstraintsOf(m) == [ConstraintsOf(m)[0]] + rules;
      assert ValidConstraint(ConstraintsOf(m)[0]);
    }
  }

  lemma MarPatterns()
    ensures ValidPattern(Pattern(0xFF00, 0x6800)) && ValidPattern(Pattern(0xFFFE, 0x6880))
  {
    Pow2Table();
    MaskedOpcode(0x6800, 8);
    MaskedOpcode(0x6880, 1);
    hide Bitwise;
  }

  lemma EnvelopeValid(m: Mnemonic)
    requires IsTwoWord(m)
    ensures ValidEnvelope(EntryOf(m), Pattern(0xFF00, Match(m)))
  {
    hide Bitwise, And, Pow2, Isa.Match;
    Pow2Table();
    MatchBelow(m);
    TwoWordMask(m);
    MaskedOpcode(Match(m), 8);
    MaskedOpcode(0xFF00, 0);
    BlockMask(Match(m), Match(m), 8);
  }

  lemma TwoWordMask(m: Mnemonic)
    requires IsTwoWord(m)
    ensures MaskOf(m) == 0xFFFF && Match(m) % 256 == 0
  {
  }

  // --------------------------------------------------------- valid database

  /** Every entry accepts its own opcode, which reads as zero operands. */
  lemma EntryInhabited(m: Mnemonic)
    ensures ValidSpans(FieldsOf(m)) && Inhabited(EntryOf(m))
  {
    AcceptsIsWord(m, Match(m));
    MatchBelow(m);
    ZeroOperands(m);
  }

  lemma ZeroOperands(m: Mnemonic)
    ensures Legal(Instruction(m, OperandsAt(m, Match(m)))) && Word(Instruction(m, OperandsAt(m, Match(m)))) == Match(m)
  {
    WordAt(m, Match(m)) by { MatchBelow(m); }
    LegalIsRules(m, Match(m)) by { MatchBelow(m); }
    LowZero(m);
    hide Word, Legal;
  }

  lemma LowZero(m: Mnemonic)
    ensures ShapeOf(m).PlainData? || ShapeOf(m).Shifted? || ShapeOf(m).WithRegister? || ShapeOf(m).WithPort?
            ==> Match(m) % 128 == 0 && (Match(m) / 128) % 2 == 0
    ensures m.SACH? ==> (Match(m) / 256) % 8 == 0
  {
    hide Isa.Match;
    if HasFieldByte(m) {
      FieldByteClear(m);
      PageLow(Match(m));
    }
    if m.SACH? { SachLow(); }
  }

  predicate HasFieldByte(m: Mnemonic)
  {
    ShapeOf(m).PlainData? || ShapeOf(m).Shifted? || ShapeOf(m).WithRegister? || ShapeOf(m).WithPort?
  }

  lemma SachLow()
    ensures (Match(SACH) / 256) % 8 == 0
  {
  }

  lemma FieldByteClear(m: Mnemonic)
    requires HasFieldByte(m)
    ensures Match(m) % 256 == 0
  {
    hide Isa.Match;
    Aligned(m);
    if m.SACH? { SachBase(); }
    PageOf512(Match(m));
  }

  lemma PageOf512(w: int)
    ensures w % 512 == 0 || w % 2048 == 0 || w % 4096 == 0 ==> w % 256 == 0
  {
  }

  lemma PageLow(w: int)
    requires w % 256 == 0
    ensures w % 128 == 0 && (w / 128) % 2 == 0
  {
  }

  lemma EntriesUnambiguous()
    ensures ValidSpansOf(Entries()) && Unambiguous(Entries())
  {
    forall i | 0 <= i < 60
      ensures ValidSpans(Entries()[i].fields)
    {
      SpansOf(Nth(i));
    }
    forall w | 0 <= w <= 0xFFFF
      ensures |Matches(Entries(), w)| <= 1
    {
      if |Matches(Entries(), w)| > 1 {
        MatchIsDecoded(w, 0);
        MatchIsDecoded(w, 1);
        EntriesDistinct();
        MatchesOrdered(Entries(), w, 0, 1);
      }
    }
  }

  /** Every match of a word is the entry of the instruction it decodes to. */
  lemma MatchIsDecoded(w: int, k: nat)
    requires 0 <= w <= 0xFFFF && ValidSpansOf(Entries()) && k < |Matches(Entries(), w)|
    ensures Decode(w).Some? && Matches(Entries(), w)[k].0 == EntryOf(Decode(w).value.mnemonic)
  {
    hide Matches, Decode, DictionaryOf, FieldsOf, DecodeSpec, EntryOf, Nth, ValidSpans;
    var i := MatchOwner(Entries(), w, k);
    DecodersAgree(Nth(i), w, Matches(Entries(), w)[k].1);
  }

  lemma EntriesDistinct()
    ensures Distinct(Entries()) && Distinct(Order())
  {
    hide Nth;
    forall i, j | 0 <= i < j < 60
      ensures Nth(i) != Nth(j)
    {
      PositionNth(i);
      PositionNth(j);
    }
  }

  /** Matches appear in the order of the entries, so two matches come from two
      entries; entries of one name are one entry here. */
  lemma {:induction false} MatchesOrdered(entries: seq<Entry>, w: int, a: int, b: int)
    requires ValidSpansOf(entries) && 0 <= a < b < |Matches(entries, w)|
    requires Distinct(entries)
    ensures Matches(entries, w)[a].0 != Matches(entries, w)[b].0
  {
    var n := |entries| - 1;
    if b < |Matches(entries[..n], w)| {
      MatchesOrdered(entries[..n], w, a, b);
    } else {
      var i := MatchOwner(entries[..n], w, a);
      assert entries[i] != entries[n];
    }
  }

  /** The shipped database passes every check of the validator. */
  lemma ShippedIsValid()
    ensures ValidDatabase(Shipped())
  {
    EntriesDistinct();
    EntriesUnambiguous();
    hide Nth, EntryOf, Matches, Accepts, ValidEntry, ValidSpans;
    forall i | 0 <= i < 60
      ensures ValidEntry(Entries()[i]) && Inhabited(Entries()[i]) && Entries()[i].mnemonic == Nth(i)
    {
      EntryValid(Nth(i));
      EntryInhabited(Nth(i));
      EntryName(Nth(i));
    }
    assert Mnemonics(Entries()) == Order();
    AuditSection();
  }

  lemma EntryName(m: Mnemonic)
    ensures EntryOf(m).mnemonic == m
  {
  }

  lemma AuditSection()
    ensures ValidAudit(Shipped())
  {
    hide Nth, EntryOf;
    forall c: Class
      ensures c in Shipped().definitionNames && c in Shipped().expectedCounts
      ensures Shipped().expectedCounts[c] >= 0
    {
      var names := Shipped().definitionNames;
      match c
      case DocumentedLegal => assert names[0] == c;
      case ReservedIndirectField => assert names[1] == c;
      case SimultaneousUpdate => assert names[2] == c;
      case PatternMismatch => assert names[3] == c;
      case Unlisted => assert names[4] == c;
    }
  }

  /** decode_word on the shipped database is the hand-written decoder: it finds
      an entry exactly for the words the model decodes, with the same mnemonic and
      operands, and is never ambiguous. */
  lemma DecodeWordIsDecode(w: int)
    requires 0 <= w < 0x1_0000
    ensures ValidSpansOf(Entries())
    ensures DecodeWordSpec(Entries(), w)
         == match Decode(w)
            case None => Absent
            case Some(i) => Found(EntryOf(i.mnemonic), DictionaryOf(i.operands))
  {
    EntriesUnambiguous();
    hide Matches, Decode, DictionaryOf, FieldsOf, DecodeSpec, EntryOf, Nth, ValidSpans, PositionOf;
    var ms := Matches(Entries(), w);
    if ms != [] {
      var i := MatchOwner(Entries(), w, 0);
      DecodersAgree(Nth(i), w, ms[0].1);
    }
    if Decode(w).Some? {
      var m := Decode(w).value.mnemonic;
      var i := PositionOf(m);
      NthPosition(m);
      DecodersAgree(m, w, DictionaryOf(Decode(w).value.operands));
      var k := AcceptedIsMatched(Entries(), w, i);
    }
  }
}
