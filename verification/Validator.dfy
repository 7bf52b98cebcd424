/** `validate_database`, and what its acceptance guarantees about every word. */
module Validator {
  import opened Bits
  import opened Isa
  import opened IsaDatabase
  import opened FieldReconstruction
  import opened Classification

  // ------------------------------------------------------ checks on one entry

  predicate Distinct<T(==)>(s: seq<T>)
  {
    forall i, j :: 0 <= i < j < |s| ==> s[i] != s[j]
  }

  predicate ValidLegalValues(f: Field)
    requires ValidSpan(f)
  {
    f.legalValues.Some? ==>
      && f.legalValues.value != []
      && Distinct(f.legalValues.value)
      && forall i :: 0 <= i < |f.legalValues.value| ==> 0 <= f.legalValues.value[i] < Pow2(f.width)
  }

  /** A 16-bit mask/match pattern with no bit outside the mask. */
  predicate ValidPattern(p: Pattern)
  {
    0 <= p.mask <= 0xFFFF && 0 <= p.bits <= 0xFFFF && And(p.bits, Not(p.mask)) == 0
  }

  predicate ValidConstraint(c: Constraint)
  {
    ValidPattern(c.when) && ValidPattern(c.pattern)
  }

  predicate ValidEnvelope(e: Entry, p: Pattern)
  {
    && ValidPattern(p)
    && And(p.mask, Not(e.mask)) == 0
    && And(e.bits, p.mask) == p.bits
  }

  predicate ValidEntry(e: Entry)
  {
    && ValidEncoding(e)
    && (forall i :: 0 <= i < |e.fields| ==> ValidLegalValues(e.fields[i]))
    && (forall i :: 0 <= i < |e.constraints| ==> ValidConstraint(e.constraints[i]))
    && (e.envelope.Some? ==> ValidEnvelope(e, e.envelope.value))
    && e.cycles >= 1
  }

  method CheckDistinct<T(==)>(s: seq<T>) returns (ok: bool)
    ensures ok == Distinct(s)
  {
    var i := 0;
    while i < |s|
      invariant 0 <= i <= |s| && Distinct(s[..i])
    {
      if s[i] in s[..i] { return false; }
      assert forall j :: 0 <= j < i ==> s[j] in s[..i];
      i := i + 1;
    }
    assert s[..i] == s;
    return true;
  }

  method CheckLegalValues(f: Field) returns (ok: bool)
    requires ValidSpan(f)
    ensures ok == ValidLegalValues(f)
  {
    if f.legalValues.None? { return true; }
    var values := f.legalValues.value;
    if values == [] { return false; }
    var distinct := CheckDistinct(values);
    if !distinct { return false; }
    var i := 0;
    while i < |values|
      invariant 0 <= i <= |values|
      invariant forall j :: 0 <= j < i ==> 0 <= values[j] < Pow2(f.width)
    {
      if !(0 <= values[i] < Pow2(f.width)) { return false; }
      i := i + 1;
    }
    return true;
  }

  /** One field against the bits described so far. */
  method CheckField(mask: int, variableMask: int, f: Field) returns (ok: bool)
    ensures ok <==> && ValidSpan(f) && And(variableMask, FieldMask(f)) == 0
                    && And(mask, FieldMask(f)) == 0 && ValidLegalValues(f)
  {
    if f.lsb < 0 || f.width < 1 || f.lsb + f.width > 16 { return false; }
    var fieldMask := (Pow2(f.width) - 1) * Pow2(f.lsb);
    if And(variableMask, fieldMask) != 0 { return false; }
    if And(mask, fieldMask) != 0 { return false; }
    ok := CheckLegalValues(f);
  }

  predicate GoodFields(mask: int, fields: seq<Field>)
  {
    && ValidSpans(fields) && DisjointFields(mask, fields)
    && forall i :: 0 <= i < |fields| ==> ValidLegalValues(fields[i])
  }

  lemma GoodFieldsStep(mask: int, fields: seq<Field>, i: int)
    requires 0 <= i < |fields| && GoodFields(mask, fields[..i])
    ensures GoodFields(mask, fields[..i + 1]) <==>
              && ValidSpan(fields[i]) && And(VariableMask(fields[..i]), FieldMask(fields[i])) == 0
              && And(mask, FieldMask(fields[i])) == 0 && ValidLegalValues(fields[i])
  {
    hide FieldMask, Bitwise, ValidLegalValues, ValidSpan, VariableMask, DisjointFields;
    var now, next := fields[..i], fields[..i + 1];
    assert next[i] == fields[i];
    assert forall j :: 0 <= j < i ==> next[j] == now[j];
    if ValidSpan(fields[i]) { DisjointStep(mask, fields, i); }
  }

  lemma DisjointStep(mask: int, fields: seq<Field>, i: int)
    requires 0 <= i < |fields| && ValidSpans(fields[..i + 1])
    ensures ValidSpans(fields[..i])
    ensures DisjointFields(mask, fields[..i + 1]) <==>
              && DisjointFields(mask, fields[..i]) && And(VariableMask(fields[..i]), FieldMask(fields[i])) == 0
              && And(mask, FieldMask(fields[i])) == 0
  {
    hide FieldMask, Bitwise, VariableMask, ValidSpan;
    var now, next := fields[..i], fields[..i + 1];
    assert next[..i] == now && next[i] == fields[i];
    assert forall j :: 0 <= j < i ==> next[j] == now[j] && next[..j] == now[..j];
  }

  lemma GoodFieldsPrefix(mask: int, fields: seq<Field>, i: int)
    requires 0 <= i <= |fields| && GoodFields(mask, fields)
    ensures GoodFields(mask, fields[..i])
  {
    hide FieldMask, Bitwise, ValidLegalValues;
    var now := fields[..i];
    assert forall j :: 0 <= j < i ==> fields[j] == now[j] && fields[..j] == now[..j];
  }

  /** The loop over the variable fields, with the running mask of the bits
      described so far. */
  method CheckFields(mask: int, fields: seq<Field>) returns (ok: bool, variableMask: int)
    ensures ok == GoodFields(mask, fields)
    ensures ok ==> variableMask == VariableMask(fields)
  {
    variableMask := 0;
    var i := 0;
    while i < |fields|
      invariant 0 <= i <= |fields|
      invariant GoodFields(mask, fields[..i]) && variableMask == VariableMask(fields[..i])
    {
      var good := CheckField(mask, variableMask, fields[i]);
      GoodFieldsStep(mask, fields, i);
      if !good {
        if GoodFields(mask, fields) { GoodFieldsPrefix(mask, fields, i + 1); }
        return false, 0;
      }
      variableMask := Or(variableMask, FieldMask(fields[i]));
      assert fields[..i + 1][..i] == fields[..i];
      i := i + 1;
    }
    assert fields[..i] == fields;
    return true, variableMask;
  }

  /** `_validate_constraint` for each constraint. */
  method CheckConstraints(constraints: seq<Constraint>) returns (ok: bool)
    ensures ok <==> forall i :: 0 <= i < |constraints| ==> ValidConstraint(constraints[i])
  {
    var i := 0;
    while i < |constraints|
      invariant 0 <= i <= |constraints|
      invariant forall j :: 0 <= j < i ==> ValidConstraint(constraints[j])
    {
      var c := constraints[i];
      if !ValidPattern(c.when) || !ValidPattern(c.pattern) {
        assert !ValidConstraint(constraints[i]);
        return false;
      }
      i := i + 1;
    }
    return true;
  }

  method CheckEntry(e: Entry) returns (ok: bool)
    ensures ok == ValidEntry(e)
  {
    if !(0 <= e.bits <= 0xFFFF) || !(0 <= e.mask <= 0xFFFF) { return false; }
    if And(e.bits, Not(e.mask)) != 0 { return false; }
    var fieldsOk, variableMask := CheckFields(e.mask, e.fields);
    if !fieldsOk || variableMask != And(Not(e.mask), 0xFFFF) { return false; }
    var constraintsOk := CheckConstraints(e.constraints);
    if !constraintsOk { return false; }
    if e.envelope.Some? {
      var p := e.envelope.value;
      if !(0 <= p.mask <= 0xFFFF) || !(0 <= p.bits <= 0xFFFF) { return false; }
      if And(p.bits, Not(p.mask)) != 0 || And(p.mask, Not(e.mask)) != 0 || And(e.bits, p.mask) != p.bits {
        return false;
      }
    }
    return e.cycles >= 1;
  }

  // --------------------------------------------------------- the whole database

  function Mnemonics(entries: seq<Entry>): seq<Mnemonic>
  {
    seq(|entries|, i requires 0 <= i < |entries| => entries[i].mnemonic)
  }

  predicate ValidEntries(entries: seq<Entry>)
  {
    forall i :: 0 <= i < |entries| ==> ValidEntry(entries[i])
  }

  lemma ValidEntriesSpans(entries: seq<Entry>)
    requires ValidEntries(entries)
    ensures ValidSpansOf(entries)
  {
    forall i | 0 <= i < |entries|
      ensures ValidSpans(entries[i].fields)
    {
      assert ValidEntry(entries[i]);
    }
  }

  predicate Unambiguous(entries: seq<Entry>)
    requires ValidSpansOf(entries)
  {
    forall w :: 0 <= w <= 0xFFFF ==> |Matches(entries, w)| <= 1
  }

  predicate Inhabited(e: Entry)
    requires ValidSpans(e.fields)
  {
    exists w :: 0 <= w <= 0xFFFF && Accepts(e, w)
  }

  predicate ValidCoverage(db: Database)
  {
    && |db.documented| == db.documentedCount
    && Distinct(db.documented)
    && (forall m :: m in db.supported ==> m in db.documented)
  }

  /** The declared classes and the expected counts cover the opcode space. */
  predicate ValidAudit(db: Database)
  {
    && (forall c: Class :: c in db.definitionNames && c in db.expectedCounts && db.expectedCounts[c] >= 0)
    && Distinct(db.definitionNames)
    && TotalCount(db.expectedCounts) == 0x1_0000
  }

  function TotalCount(counts: map<Class, int>): int
    requires forall c: Class :: c in counts
  {
    counts[DocumentedLegal] + counts[ReservedIndirectField] + counts[SimultaneousUpdate]
    + counts[PatternMismatch] + counts[Unlisted]
  }

  predicate ValidDatabase(db: Database)
  {
    && ValidCoverage(db)
    && ValidAudit(db)
    && ValidEntries(db.instructions)
    && Mnemonics(db.instructions) == db.supported
    && Distinct(db.supported)
    && Unambiguous(db.instructions)
    && (forall i :: 0 <= i < |db.instructions| ==> Inhabited(db.instructions[i]))
  }

  /** The entry that owns a match. */
  lemma {:induction false} MatchOwner(entries: seq<Entry>, word: int, k: int) returns (i: int)
    requires ValidSpansOf(entries) && 0 <= k < |Matches(entries, word)|
    ensures 0 <= i < |entries| && entries[i] == Matches(entries, word)[k].0
    ensures DecodeSpec(entries[i], word) == Some(Matches(entries, word)[k].1)
  {
    var n := |entries| - 1;
    if k < |Matches(entries[..n], word)| {
      i := MatchOwner(entries[..n], word, k);
    } else {
      i := n;
    }
  }

  lemma {:induction false} AcceptedIsMatched(entries: seq<Entry>, word: int, i: int) returns (k: int)
    requires ValidSpansOf(entries) && 0 <= i < |entries| && DecodeSpec(entries[i], word).Some?
    ensures 0 <= k < |Matches(entries, word)|
    ensures Matches(entries, word)[k] == (entries[i], DecodeSpec(entries[i], word).value)
  {
    var n := |entries| - 1;
    if i < n {
      k := AcceptedIsMatched(entries[..n], word, i);
    } else {
      k := |Matches(entries, word)| - 1;
    }
  }

  /** The exhaustive loop: no word decodes twice, and every entry is reached. */
  method CheckDecode(entries: seq<Entry>) returns (ok: bool)
    requires ValidSpansOf(entries) && Distinct(Mnemonics(entries))
    ensures ok <==> Unambiguous(entries) && forall i :: 0 <= i < |entries| ==> Inhabited(entries[i])
  {
    var matchCounts: map<Mnemonic, int> := map[];
    var word := 0;
    while word < 0x1_0000
      invariant 0 <= word <= 0x1_0000
      invariant forall w :: 0 <= w < word ==> |Matches(entries, w)| <= 1
      invariant forall m :: m in matchCounts ==> matchCounts[m] > 0
      invariant forall i :: 0 <= i < |entries| ==>
                  (entries[i].mnemonic in matchCounts
                   <==> exists w :: 0 <= w < word && Accepts(entries[i], w))
    {
      var r := CollectMatches(entries, word);
      var matches := r.value;
      if |matches| > 1 {
        assert !Unambiguous(entries);
        return false;
      }
      ghost var before := matchCounts;
      if |matches| == 1 {
        var m := matches[0].0.mnemonic;
        matchCounts := matchCounts[m := 1 + if m in matchCounts then matchCounts[m] else 0];
      }
      CountOneWord(entries, word, before, matchCounts);
      word := word + 1;
    }
    var i := 0;
    while i < |entries|
      invariant 0 <= i <= |entries|
      invariant forall j :: 0 <= j < i ==> Inhabited(entries[j])
    {
      if entries[i].mnemonic !in matchCounts {
        assert !Inhabited(entries[i]);
        return false;
      }
      i := i + 1;
    }
    return true;
  }

  lemma CountOneWord(entries: seq<Entry>, word: int, before: map<Mnemonic, int>, after: map<Mnemonic, int>)
    requires word >= 0 && ValidSpansOf(entries) && Distinct(Mnemonics(entries)) && |Matches(entries, word)| <= 1
    requires after.Keys == before.Keys
                          + if Matches(entries, word) == [] then {} else {Matches(entries, word)[0].0.mnemonic}
    requires forall i :: 0 <= i < |entries| ==>
               (entries[i].mnemonic in before <==> exists w :: 0 <= w < word && Accepts(entries[i], w))
    ensures forall i :: 0 <= i < |entries| ==>
              (entries[i].mnemonic in after <==> exists w :: 0 <= w < word + 1 && Accepts(entries[i], w))
  {
    forall i | 0 <= i < |entries|
      ensures entries[i].mnemonic in after <==> exists w :: 0 <= w < word + 1 && Accepts(entries[i], w)
    {
      hide Accepts, Matches;
      if Accepts(entries[i], word) {
        var k := AcceptedIsMatched(entries, word, i);
        assert entries[i].mnemonic in after;
        assert 0 <= word < word + 1 && Accepts(entries[i], word);
      } else if Matches(entries, word) != [] {
        var j := MatchOwner(entries, word, 0);
        assert Mnemonics(entries)[i] == entries[i].mnemonic && Mnemonics(entries)[j] == entries[j].mnemonic;
        assert i != j;
        OnlyEarlier(entries[i], word);
      } else {
        OnlyEarlier(entries[i], word);
      }
    }
  }

  lemma OnlyEarlier(e: Entry, word: int)
    requires ValidSpans(e.fields) && !Accepts(e, word)
    ensures (exists w :: 0 <= w < word + 1 && Accepts(e, w)) <==> exists w :: 0 <= w < word && Accepts(e, w)
  {
    hide Accepts;
    if exists w :: 0 <= w < word + 1 && Accepts(e, w) {
      var w :| 0 <= w < word + 1 && Accepts(e, w);
      assert w != word;
    }
  }

  method CheckAudit(db: Database) returns (ok: bool)
    ensures ok == ValidAudit(db)
  {
    var classes := {DocumentedLegal, ReservedIndirectField, SimultaneousUpdate, PatternMismatch, Unlisted};
    forall c: Class
      ensures c in classes
    {
      match c
      case DocumentedLegal =>
      case ReservedIndirectField =>
      case SimultaneousUpdate =>
      case PatternMismatch =>
      case Unlisted =>
    }
    if !(forall c | c in classes :: c in db.definitionNames) { return false; }
    var distinct := CheckDistinct(db.definitionNames);
    if !distinct || db.expectedCounts.Keys != classes { return false; }
    if exists c | c in classes :: db.expectedCounts[c] < 0 { return false; }
    return db.expectedCounts[DocumentedLegal] + db.expectedCounts[ReservedIndirectField]
      + db.expectedCounts[SimultaneousUpdate] + db.expectedCounts[PatternMismatch]
      + db.expectedCounts[Unlisted] == 0x1_0000;
  }

  method CheckCoverage(db: Database) returns (ok: bool)
    ensures ok == ValidCoverage(db)
  {
    if |db.documented| != db.documentedCount { return false; }
    var distinct := CheckDistinct(db.documented);
    if !distinct { return false; }
    return forall m | m in db.supported :: m in db.documented;
  }

  /** The loop over the instruction entries, collecting their names. */
  method CheckEntries(entries: seq<Entry>) returns (ok: bool, entryNames: seq<Mnemonic>)
    ensures ok == ValidEntries(entries)
    ensures ok ==> entryNames == Mnemonics(entries)
  {
    entryNames := [];
    var i := 0;
    while i < |entries|
      invariant 0 <= i <= |entries|
      invariant entryNames == Mnemonics(entries[..i])
      invariant forall j :: 0 <= j < i ==> ValidEntry(entries[j])
    {
      entryNames := entryNames + [entries[i].mnemonic];
      ok := CheckEntry(entries[i]);
      if !ok { return false, entryNames; }
      i := i + 1;
    }
    assert entries[..i] == entries;
    ok := true;
  }

  /** `validate_database`: every check must pass. */
  method ValidateDatabase(db: Database) returns (ok: bool)
    ensures ok == ValidDatabase(db)
  {
    ok := CheckCoverage(db);
    if !ok { return; }
    ok := CheckAudit(db);
    if !ok { return; }
    var entryNames;
    ok, entryNames := CheckEntries(db.instructions);
    if !ok || entryNames != db.supported { return false; }
    ok := CheckDistinct(entryNames);
    if !ok { return; }
    hide ValidEntry, Matches, Accepts, ValidAudit, ValidCoverage;
    ValidEntriesSpans(db.instructions);
    ok := CheckDecode(db.instructions);
  }

  // --------------------------------------------- what acceptance guarantees

  /** A validated envelope covers the base pattern of its entry. */
  lemma BaseInEnvelope(e: Entry, word: int)
    requires ValidEntry(e) && BaseMatch(e, word)
    ensures InEnvelope(e, word)
  {
    if e.envelope.Some? {
      hide Bitwise;
      var p := e.envelope.value;
      Subset(e.bits, e.mask);
      Commutes(AndOp, e.mask, e.bits);
      Subset(p.mask, e.mask);
      Subset(p.bits, p.mask);
      Commutes(AndOp, p.mask, p.bits);
      AndAssoc(word, e.mask, p.mask);
      AndAssoc(e.bits, e.mask, p.mask);
    }
  }

  lemma {:induction false} CandidatesNonempty(k: Kind, entries: seq<Entry>, word: int)
    requires ValidSpansOf(entries)
    ensures Candidates(k, entries, word) != {}
       <==> exists i :: 0 <= i < |entries| && IsCandidate(k, entries[i], word)
  {
    hide IsCandidate;
    if entries != [] {
      var n := |entries| - 1;
      CandidatesNonempty(k, entries[..n], word);
      assert forall i :: 0 <= i < n ==> entries[..n][i] == entries[i];
    }
  }

  /** The classes of a validated database are a sound partition of the words:
      every word has exactly one class, legal is what decode_word decodes and
      lies in the base pattern and the envelope of its entry, and unlisted is
      what no envelope covers. */
  lemma ClassesPartition(db: Database, word: int)
    requires ValidDatabase(db) && 0 <= word <= 0xFFFF
    ensures !DecodeWordSpec(db.instructions, word).Ambiguous?
    ensures ClassifySpec(db.instructions, word).Verdict?
    ensures ClassifySpec(db.instructions, word).classification == DocumentedLegal
       <==> DecodeWordSpec(db.instructions, word).Found?
    ensures ClassifySpec(db.instructions, word).classification == Unlisted
       <==> forall i :: 0 <= i < |db.instructions| ==> !InEnvelope(db.instructions[i], word)
    ensures DecodeWordSpec(db.instructions, word).Found? ==>
              var found := DecodeWordSpec(db.instructions, word);
              && found.entry in db.instructions && BaseMatch(found.entry, word) && InEnvelope(found.entry, word)
              && ClassifySpec(db.instructions, word)
                 == Verdict(DocumentedLegal, {found.entry.mnemonic}, Some(found.fields), None)
  {
    var entries := db.instructions;
    CandidatesNonempty(ReservedKind, entries, word);
    CandidatesNonempty(SimultaneousKind, entries, word);
    CandidatesNonempty(EnvelopeKind, entries, word);
    forall i | 0 <= i < |entries| && BaseMatch(entries[i], word)
      ensures IsCandidate(EnvelopeKind, entries[i], word)
    {
      BaseInEnvelope(entries[i], word);
    }
    if Matches(entries, word) != [] {
      var i := MatchOwner(entries, word, 0);
      BaseInEnvelope(entries[i], word);
    }
  }

  /** The audit of a validated database succeeds and its counts cover the whole
      opcode space. */
  lemma AuditCovers(db: Database)
    requires ValidDatabase(db)
    ensures forall w :: 0 <= w < 0x1_0000 ==> ClassifySpec(db.instructions, w).Verdict?
    ensures CountBelow(db.instructions, DocumentedLegal, 0x1_0000)
          + CountBelow(db.instructions, ReservedIndirectField, 0x1_0000)
          + CountBelow(db.instructions, SimultaneousUpdate, 0x1_0000)
          + CountBelow(db.instructions, PatternMismatch, 0x1_0000)
          + CountBelow(db.instructions, Unlisted, 0x1_0000) == 0x1_0000
  {
    hide CountBelow, ClassifySpec;
    forall w | 0 <= w < 0x1_0000
      ensures ClassifySpec(db.instructions, w).Verdict?
    {
      ClassesPartition(db, w);
    }
    CountsPartition(db.instructions, 0x1_0000);
  }
}
