/** What the validator accepts, without its own arithmetic: bit positions for the
    entries, and which entries accept a word for the decoding. */
module Acceptance {
  import opened IsaDatabase
  import opened Classification
  import opened Validator
  import opened BitTiling
  import opened Verdicts

  /** Each of the five classes is defined once and has a count, and the counts
      cover the opcode space. */
  ghost predicate AuditFits(db: Database)
  {
    && (forall c: Class :: c in db.definitionNames)
    && (forall i, j :: 0 <= i < j < |db.definitionNames| ==> db.definitionNames[i] != db.definitionNames[j])
    && (forall c: Class :: c in db.expectedCounts && db.expectedCounts[c] >= 0)
    && db.expectedCounts[DocumentedLegal] + db.expectedCounts[ReservedIndirectField]
       + db.expectedCounts[SimultaneousUpdate] + db.expectedCounts[PatternMismatch]
       + db.expectedCounts[Unlisted] == 65536
  }

  /** The documented mnemonics are counted and listed once, and the supported ones
      are among them, once each and in the order of the entries. */
  ghost predicate CoverageFits(db: Database)
  {
    && db.documentedCount == |db.documented|
    && (forall i, j :: 0 <= i < j < |db.documented| ==> db.documented[i] != db.documented[j])
    && |db.supported| == |db.instructions|
    && (forall i :: 0 <= i < |db.supported| ==>
          db.supported[i] == db.instructions[i].mnemonic && db.supported[i] in db.documented)
    && (forall i, j :: 0 <= i < j < |db.supported| ==> db.supported[i] != db.supported[j])
  }

  ghost predicate HasWord(e: Entry)
    requires ValidSpans(e.fields)
  {
    exists w :: 0 <= w <= 0xFFFF && Accepts(e, w)
  }

  /** No word is an instance of two entries, and every entry has one. */
  ghost predicate DecodeFits(entries: seq<Entry>)
    requires ValidSpansOf(entries)
  {
    && (forall w :: 0 <= w <= 0xFFFF ==> !TwoAccept(entries, w))
    && (forall i :: 0 <= i < |entries| ==> HasWord(entries[i]))
  }

  ghost predicate EntriesFit(entries: seq<Entry>)
  {
    forall i :: 0 <= i < |entries| ==> EntryFits(entries[i])
  }

  /** The validator accepts a database exactly when all of this holds. */
  lemma AcceptsExactly(db: Database)
    ensures EntriesFit(db.instructions) ==> ValidSpansOf(db.instructions)
    ensures ValidDatabase(db)
       <==> AuditFits(db) && CoverageFits(db) && EntriesFit(db.instructions) && DecodeFits(db.instructions)
  {
    hide AuditFits, CoverageFits, EntryFits, ValidEntry, Matches, Accepts, TwoAccept, ValidAudit, ValidCoverage;
    EntriesAre(db.instructions);
    AuditIs(db);
    CoverageIs(db);
    if ValidEntries(db.instructions) {
      ValidEntriesSpans(db.instructions);
      DecodeIs(db.instructions);
    }
  }

  lemma EntriesAre(entries: seq<Entry>)
    ensures ValidEntries(entries) <==> EntriesFit(entries)
    ensures EntriesFit(entries) ==> ValidSpansOf(entries)
  {
    hide EntryFits, ValidEntry;
    forall i | 0 <= i < |entries|
      ensures ValidEntry(entries[i]) <==> EntryFits(entries[i])
    {
      EntryFitsExactly(entries[i]);
    }
    if ValidEntries(entries) { ValidEntriesSpans(entries); }
  }

  lemma AuditIs(db: Database)
    ensures ValidAudit(db) <==> AuditFits(db)
  {
  }

  lemma CoverageIs(db: Database)
    ensures ValidCoverage(db) && Mnemonics(db.instructions) == db.supported && Distinct(db.supported)
       <==> CoverageFits(db)
  {
  }

  lemma DecodeIs(entries: seq<Entry>)
    requires ValidSpansOf(entries)
    ensures Unambiguous(entries) && (forall i :: 0 <= i < |entries| ==> Inhabited(entries[i])) <==> DecodeFits(entries)
  {
    hide Matches, Accepts, TwoAccept;
    forall w | 0 <= w <= 0xFFFF
      ensures |Matches(entries, w)| <= 1 <==> !TwoAccept(entries, w)
    {
      MatchesCount(entries, w);
    }
    forall i | 0 <= i < |entries|
      ensures Inhabited(entries[i]) <==> HasWord(entries[i])
    {
    }
    hide Inhabited, HasWord;
  }
}
