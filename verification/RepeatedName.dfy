/** A database the validator accepts although an entry repeats a field name: two
    of its words decode alike, and one is not rebuilt from what it decodes to. */
module RepeatedName {
  import opened Bits
  import opened Isa
  import opened IsaDatabase
  import opened FieldReconstruction
  import opened ShadowedFields
  import opened Classification
  import opened Validator

  function Nibble(lsb: int): Field { Field(OtherName("nibble"), lsb, 4, false, None) }

  /** Opcode byte 0x7E and two nibbles of the same name. */
  function Nibbles(): Entry
  {
    Entry(LACK, 0x7E00, 0xFF00, [Nibble(0), Nibble(4)], [], None, None, 1, 1, 1)
  }

  function Repeated(): Database
  {
    Database([LACK], [LACK], 1,
      [DocumentedLegal, ReservedIndirectField, SimultaneousUpdate, PatternMismatch, Unlisted],
      map[DocumentedLegal := 256, ReservedIndirectField := 0, SimultaneousUpdate := 0,
          PatternMismatch := 0, Unlisted := 65280],
      [Nibbles()])
  }

  lemma NibbleMasks()
    ensures FieldMask(Nibble(0)) == 0x0F && FieldMask(Nibble(4)) == 0xF0
    ensures VariableMask([Nibble(0)]) == 0x0F && VariableMask([]) == 0
    ensures VariableMask([Nibble(0), Nibble(4)]) == 0xFF
    ensures And(0x0F, 0xF0) == 0 && And(0, 0x0F) == 0
  {
    Pow2Table();
    hide Bitwise, Pow2;
    assert [Nibble(0)][..0] == [] && [Nibble(0), Nibble(4)][..1] == [Nibble(0)];
    OrZero(0x0F);
    Commutes(OrOp, 0, 0x0F);
    AndZero(0x0F);
    Commutes(AndOp, 0, 0x0F);
    OrDisjoint(0x0F, 0x0F, 4);
    Commutes(OrOp, 0x0F, 0xF0);
    Split(AndOp, 0, 0x0F, 0x0F, 0, 4);
  }

  /** The fixed byte lies above both nibbles. */
  lemma FixedByte()
    ensures And(0xFF00, 0x0F) == 0 && And(0xFF00, 0xF0) == 0
    ensures And(0x7E00, Not(0xFF00)) == 0 && And(Not(0xFF00), 0xFFFF) == 0xFF
  {
    Pow2Table();
    hide Bitwise, Pow2;
    AndZero(0xFF);
    AndZero(0x0F);
    AndZero(0xF0);
    Commutes(AndOp, 0, 0x0F);
    Commutes(AndOp, 0, 0xF0);
    Commutes(AndOp, 0, 0xFF);
    AndZero(0x7E);
    Split(AndOp, 0xFF, 0, 0, 0x0F, 8);
    Split(AndOp, 0xFF, 0, 0, 0xF0, 8);
    NoBitAbove();
    Split(AndOp, 0x7E, 0, -0x100, 0xFF, 8);
    AndOnes(Not(0xFF00), 16);
  }

  lemma NoBitAbove()
    ensures And(0x7E, -0x100) == 0
  {
    Pow2Table();
    AndZero(0x7E);
    hide Bitwise, Pow2;
    AndZero(0);
    Split(AndOp, 0, 0x7E, -1, 0, 8);
    AndZero(-1);
    Commutes(AndOp, 0, -1);
  }

  lemma NibblesValid()
    ensures ValidEntry(Nibbles()) && Unrestricted(Nibbles()) && !DistinctNames(Nibbles().fields)
  {
    hide Bitwise, And, FieldMask, VariableMask;
    NibbleMasks();
    FixedByte();
    var fields := Nibbles().fields;
    assert fields[..0] == [] && fields[..1] == [Nibble(0)];
    forall i | 0 <= i < 2
      ensures And(VariableMask(fields[..i]), FieldMask(fields[i])) == 0 && And(0xFF00, FieldMask(fields[i])) == 0
    {
      if i == 0 { } else { }
    }
    assert fields[0].name == fields[1].name;
  }

  lemma NibblesAccept(low: int)
    requires 0 <= low < 256
    ensures ValidSpans(Nibbles().fields) && Accepts(Nibbles(), 0x7E00 + low)
  {
    hide Bitwise, Pow2;
    Pow2Table();
    BlockMask(0x7E00 + low, 0x7E00, 8);
    BlockMask(0x7E00, 0x7E00, 8);
  }

  /** The validator accepts the database. */
  lemma RepeatedIsValid()
    ensures ValidDatabase(Repeated())
  {
    hide Accepts, ValidEntry, ValidEncoding, DecodeSpec;
    NibblesValid();
    NibblesAccept(0);
    var entries := [Nibbles()];
    assert Repeated().instructions == entries;
    assert forall i :: 0 <= i < |entries| ==> entries[i] == Nibbles();
    forall w
      ensures |Matches(entries, w)| <= 1
    {
      assert entries[..0] == [];
      assert Matches(entries[..0], w) == [];
    }
    assert Inhabited(Nibbles());
    assert Mnemonics(entries) == [LACK];
    AuditCounts();
    assert ValidCoverage(Repeated());
  }

  lemma AuditCounts()
    ensures ValidAudit(Repeated())
  {
    forall c: Class
      ensures c in Repeated().definitionNames && c in Repeated().expectedCounts && Repeated().expectedCounts[c] >= 0
    {
      assert [DocumentedLegal, ReservedIndirectField, SimultaneousUpdate, PatternMismatch, Unlisted]
             == Repeated().definitionNames;
      match c
      case DocumentedLegal => assert Repeated().definitionNames[0] == c;
      case ReservedIndirectField => assert Repeated().definitionNames[1] == c;
      case SimultaneousUpdate => assert Repeated().definitionNames[2] == c;
      case PatternMismatch => assert Repeated().definitionNames[3] == c;
      case Unlisted => assert Repeated().definitionNames[4] == c;
    }
  }

  lemma NibblesOf(low: int)
    requires 0 <= low < 256
    ensures ValidSpans(Nibbles().fields)
    ensures Dictionary(Nibbles().fields, 0x7E00 + low) == map[OtherName("nibble") := low / 16]
  {
    Pow2Table();
    hide Bitwise, Pow2, FieldValue;
    var fields, word := Nibbles().fields, 0x7E00 + low;
    assert fields[..1] == [Nibble(0)] && [Nibble(0)][..0] == [];
    HighNibble(low);
    assert Dictionary(fields, word) == Dictionary(fields[..1], word)[fields[1].name := FieldValue(fields[1], word)];
    assert Dictionary(fields[..1], word) == Dictionary([], word)[fields[0].name := FieldValue(fields[0], word)];
  }

  lemma HighNibble(low: int)
    requires 0 <= low < 256
    ensures FieldValue(Nibble(4), 0x7E00 + low) == low / 16
  {
    Pow2Table();
    hide Bitwise, Pow2;
    RawMeaning(Nibble(4), 0x7E00 + low);
    assert (0x7E00 + low) / 16 == 0x7E0 + low / 16;
  }

  /** Two of its words decode to the same mnemonic and dictionary, and the second
      is not what its dictionary rebuilds. */
  lemma RepeatedLosesField()
    ensures ValidSpans(Nibbles().fields)
    ensures DecodeSpec(Nibbles(), 0x7E00) == Some(map[OtherName("nibble") := 0]) == DecodeSpec(Nibbles(), 0x7E01)
    ensures Rebuild(Nibbles(), map[OtherName("nibble") := 0]) != 0x7E01
  {
    hide Accepts, Dictionary, Bitwise;
    NibblesAccept(0);
    NibblesAccept(1);
    NibblesOf(0);
    NibblesOf(1);
    var values: Fields := map[OtherName("nibble") := 0];
    var fields := Nibbles().fields;
    assert fields[..1] == [Nibble(0)] && fields[..1][..0] == [];
    assert Place(Nibble(0), 0) == 0 && Place(Nibble(4), 0) == 0;
    OrZero(0);
    assert RebuildFields(fields[..1], values) == 0;
    assert RebuildFields(fields, values) == 0;
    OrZero(0x7E00);
  }
}
