/** Decoding and classifying a word against the whole database, the validator,
    and what a validated database guarantees for all 65,536 words. */
module Classification {
  import opened Bits
  import opened Isa
  import opened IsaDatabase

  datatype Class =
    | DocumentedLegal | ReservedIndirectField | SimultaneousUpdate | PatternMismatch | Unlisted

  datatype Database = Database(
    documented: seq<Mnemonic>, supported: seq<Mnemonic>, documentedCount: int,
    definitionNames: seq<Class>, expectedCounts: map<Class, int>, instructions: seq<Entry>)

  type Hit = (Entry, Fields)

  predicate ValidSpansOf(entries: seq<Entry>)
  {
    forall i :: 0 <= i < |entries| ==> ValidSpans(entries[i].fields)
  }

  // ------------------------------------------------------------- decode_word

  /** The entries that accept a word, in order, with the decoded fields. */
  function Matches(entries: seq<Entry>, word: int): seq<Hit>
    requires ValidSpansOf(entries)
  {
    if entries == [] then []
    else
      var n := |entries| - 1;
      var d := DecodeSpec(entries[n], word);
      Matches(entries[..n], word) + if d.Some? then [(entries[n], d.value)] else []
  }

  datatype Lookup = Absent | Found(entry: Entry, fields: Fields) | Ambiguous | NotAWord

  function UniqueMatch(matches: seq<Hit>): Lookup
  {
    if matches == [] then Absent
    else if |matches| != 1 then Ambiguous
    else Found(matches[0].0, matches[0].1)
  }

  function DecodeWordSpec(entries: seq<Entry>, word: int): Lookup
    requires ValidSpansOf(entries)
  {
    UniqueMatch(Matches(entries, word))
  }

  method CollectMatches(entries: seq<Entry>, word: int) returns (r: Result<seq<Hit>>)
    requires ValidSpansOf(entries)
    ensures r == if entries == [] || 0 <= word <= 0xFFFF then Ok(Matches(entries, word)) else Error
  {
    var matches: seq<Hit> := [];
    var i := 0;
    while i < |entries|
      invariant 0 <= i <= |entries| && (i > 0 ==> 0 <= word <= 0xFFFF)
      invariant matches == Matches(entries[..i], word)
    {
      var operands := DecodeEntry(entries[i], word);
      if operands.Error? { return Error; }
      assert entries[..i + 1][..i] == entries[..i];
      if operands.value.Some? {
        matches := matches + [(entries[i], operands.value.value)];
      }
      i := i + 1;
    }
    assert entries[..i] == entries;
    return Ok(matches);
  }

  /** `decode_word`. */
  method DecodeWord(entries: seq<Entry>, word: int) returns (r: Lookup)
    requires ValidSpansOf(entries)
    ensures r == if entries == [] || 0 <= word <= 0xFFFF then DecodeWordSpec(entries, word) else NotAWord
  {
    var m := CollectMatches(entries, word);
    if m.Error? { return NotAWord; }
    if m.value == [] { return Absent; }
    if |m.value| != 1 { return Ambiguous; }
    return Found(m.value[0].0, m.value[0].1);
  }

  // ----------------------------------------------------------- classify_word

  function Envelope(e: Entry): Pattern
  {
    if e.envelope.Some? then e.envelope.value else Pattern(e.mask, e.bits)
  }

  predicate InEnvelope(e: Entry, word: int)
  {
    And(word, Envelope(e).mask) == And(Envelope(e).bits, Envelope(e).mask)
  }

  /** The last field of a name, as the dictionary by name keeps it. */
  function NamedField(fields: seq<Field>, name: FieldName): Option<Field>
  {
    if fields == [] then None
    else if fields[|fields| - 1].name == name then Some(fields[|fields| - 1])
    else NamedField(fields[..|fields| - 1], name)
  }

  lemma {:induction false} NamedFieldSpan(fields: seq<Field>, name: FieldName)
    requires ValidSpans(fields)
    ensures NamedField(fields, name).Some? ==> ValidSpan(NamedField(fields, name).value)
  {
    if fields != [] { NamedFieldSpan(fields[..|fields| - 1], name); }
  }

  /** The enumerated fields hold listed values, tested on the unsigned bits. */
  predicate ListedValues(fields: seq<Field>, word: int)
    requires ValidSpans(fields)
  {
    forall i :: 0 <= i < |fields| && fields[i].legalValues.Some?
                ==> Raw(fields[i], word) in fields[i].legalValues.value
  }

  /** The address bits when the entry has an indirect form and the word uses it. */
  function IndirectAddress(e: Entry, word: int): Option<int>
    requires ValidSpans(e.fields)
  {
    NamedFieldSpan(e.fields, IndirectName);
    NamedFieldSpan(e.fields, AddressingName);
    var ind, addr := NamedField(e.fields, IndirectName), NamedField(e.fields, AddressingName);
    if ind.None? || addr.None? then None
    else if And(word / Pow2(ind.value.lsb), 1) == 0 then None
    else Some(Raw(addr.value, word))
  }

  predicate Reserved(e: Entry, word: int)
    requires ValidSpans(e.fields)
  {
    BaseMatch(e, word) && IndirectAddress(e, word).Some?
    && And(IndirectAddress(e, word).value, 0x46) != 0
  }

  predicate Simultaneous(e: Entry, word: int)
    requires ValidSpans(e.fields)
  {
    BaseMatch(e, word) && IndirectAddress(e, word).Some?
    && And(IndirectAddress(e, word).value, 0x46) == 0
    && And(IndirectAddress(e, word).value, 0x30) == 0x30
    && ListedValues(e.fields, word)
  }

  datatype Kind = ReservedKind | SimultaneousKind | EnvelopeKind

  predicate IsCandidate(k: Kind, e: Entry, word: int)
    requires ValidSpans(e.fields)
  {
    match k
    case ReservedKind => Reserved(e, word)
    case SimultaneousKind => Simultaneous(e, word)
    case EnvelopeKind => InEnvelope(e, word)
  }

  /** The mnemonics of the candidates of one kind. */
  function Candidates(k: Kind, entries: seq<Entry>, word: int): set<Mnemonic>
    requires ValidSpansOf(entries)
  {
    if entries == [] then {}
    else
      var n := |entries| - 1;
      Candidates(k, entries[..n], word)
      + if IsCandidate(k, entries[n], word) then {entries[n].mnemonic} else {}
  }

  /** The one question a verdict may refer to. */
  datatype Question = OQ010

  /** A classification; only a legal word has decoded operands. */
  datatype Verdict =
    | Verdict(classification: Class, mnemonics: set<Mnemonic>, operands: Option<Fields>, question: Option<Question>)
    | AmbiguousWord
    | BadWord

  function Plain(c: Class, mnemonics: set<Mnemonic>): Verdict { Verdict(c, mnemonics, None, None) }

  /** The first class that applies, with the mnemonics that make it apply. */
  function ClassifySpec(entries: seq<Entry>, word: int): Verdict
    requires ValidSpansOf(entries)
  {
    var legal := Matches(entries, word);
    if !(0 <= word <= 0xFFFF) then BadWord
    else if |legal| > 1 then AmbiguousWord
    else if legal != [] then Verdict(DocumentedLegal, {legal[0].0.mnemonic}, Some(legal[0].1), None)
    else if Candidates(ReservedKind, entries, word) != {} then
      Plain(ReservedIndirectField, Candidates(ReservedKind, entries, word))
    else if Candidates(SimultaneousKind, entries, word) != {} then
      Verdict(SimultaneousUpdate, Candidates(SimultaneousKind, entries, word), None, Some(OQ010))
    else if Candidates(EnvelopeKind, entries, word) != {} then
      Plain(PatternMismatch, Candidates(EnvelopeKind, entries, word))
    else Plain(Unlisted, {})
  }

  method AllListed(fields: seq<Field>, word: int) returns (ok: bool)
    requires ValidSpans(fields)
    ensures ok == ListedValues(fields, word)
  {
    var i := 0;
    while i < |fields|
      invariant 0 <= i <= |fields|
      invariant ListedValues(fields[..i], word)
    {
      if fields[i].legalValues.Some?
         && And(word / Pow2(fields[i].lsb), Pow2(fields[i].width) - 1) !in fields[i].legalValues.value {
        return false;
      }
      i := i + 1;
    }
    assert fields[..i] == fields;
    return true;
  }

  /** The test one base candidate goes through in the second loop. */
  method ExamineBase(e: Entry, word: int) returns (reserved: bool, simultaneous: bool)
    requires ValidSpans(e.fields) && BaseMatch(e, word)
    ensures reserved == Reserved(e, word) && simultaneous == Simultaneous(e, word)
  {
    reserved, simultaneous := false, false;
    NamedFieldSpan(e.fields, IndirectName);
    NamedFieldSpan(e.fields, AddressingName);
    var ind, addr := NamedField(e.fields, IndirectName), NamedField(e.fields, AddressingName);
    if ind.None? || addr.None? { return; }
    var indirect := And(word / Pow2(ind.value.lsb), 1);
    var address := And(word / Pow2(addr.value.lsb), Pow2(addr.value.width) - 1);
    if indirect == 0 { return; }
    if And(address, 0x46) != 0 {
      reserved := true;
    } else if And(address, 0x30) == 0x30 {
      simultaneous := AllListed(e.fields, word);
    }
  }

  /** `classify_word`. The loop over the base candidates runs over all entries
      and skips those whose base pattern the word does not have. */
  method ClassifyWord(entries: seq<Entry>, word: int) returns (r: Verdict)
    requires ValidSpansOf(entries)
    ensures r == ClassifySpec(entries, word)
  {
    if !(0 <= word <= 0xFFFF) { return BadWord; }
    var legal := CollectMatches(entries, word);
    var pattern: set<Mnemonic> := {};
    var reserved: set<Mnemonic> := {};
    var simultaneous: set<Mnemonic> := {};
    var i := 0;
    while i < |entries|
      invariant 0 <= i <= |entries|
      invariant pattern == Candidates(EnvelopeKind, entries[..i], word)
      invariant reserved == Candidates(ReservedKind, entries[..i], word)
      invariant simultaneous == Candidates(SimultaneousKind, entries[..i], word)
    {
      var e := entries[i];
      assert entries[..i + 1][..i] == entries[..i];
      if InEnvelope(e, word) { pattern := pattern + {e.mnemonic}; }
      if BaseMatch(e, word) {
        var isReserved, isSimultaneous := ExamineBase(e, word);
        if isReserved { reserved := reserved + {e.mnemonic}; }
        if isSimultaneous { simultaneous := simultaneous + {e.mnemonic}; }
      }
      i := i + 1;
    }
    assert entries[..i] == entries;
    if |legal.value| > 1 { return AmbiguousWord; }
    if |legal.value| == 1 {
      return Verdict(DocumentedLegal, {legal.value[0].0.mnemonic}, Some(legal.value[0].1), None);
    }
    if reserved != {} { return Plain(ReservedIndirectField, reserved); }
    if simultaneous != {} { return Verdict(SimultaneousUpdate, simultaneous, None, Some(OQ010)); }
    if pattern != {} { return Plain(PatternMismatch, pattern); }
    return Plain(Unlisted, {});
  }

  // ------------------------------------------------------ audit_opcode_space

  /** How many of the words below n fall in a class. */
  function CountBelow(entries: seq<Entry>, c: Class, n: nat): nat
    requires ValidSpansOf(entries)
  {
    if n == 0 then 0
    else CountBelow(entries, c, n - 1)
         + if ClassifySpec(entries, n - 1).Verdict? && ClassifySpec(entries, n - 1).classification == c then 1 else 0
  }

  /** `audit_opcode_space`; None is the ambiguity error. */
  method AuditOpcodeSpace(entries: seq<Entry>) returns (r: Option<map<Class, int>>)
    requires ValidSpansOf(entries)
    ensures r.None? <==> exists w :: 0 <= w < 0x1_0000 && ClassifySpec(entries, w).AmbiguousWord?
    ensures r.Some? ==> forall c: Class :: c in r.value && r.value[c] == CountBelow(entries, c, 0x1_0000)
  {
    var counts := map[DocumentedLegal := 0, ReservedIndirectField := 0, SimultaneousUpdate := 0,
                      PatternMismatch := 0, Unlisted := 0];
    forall c: Class
      ensures c in counts && counts[c] == 0
    {
      match c
      case DocumentedLegal =>
      case ReservedIndirectField =>
      case SimultaneousUpdate =>
      case PatternMismatch =>
      case Unlisted =>
    }
    var word := 0;
    while word < 0x1_0000
      invariant 0 <= word <= 0x1_0000
      invariant forall c: Class :: c in counts && counts[c] == CountBelow(entries, c, word)
      invariant forall w :: 0 <= w < word ==> !ClassifySpec(entries, w).AmbiguousWord?
    {
      var v := ClassifyWord(entries, word);
      if v.AmbiguousWord? { return None; }
      counts := counts[v.classification := counts[v.classification] + 1];
      word := word + 1;
    }
    return Some(counts);
  }

  /** The five counts of any prefix of the opcode space add up to its size. */
  lemma {:induction false} CountsPartition(entries: seq<Entry>, n: nat)
    requires ValidSpansOf(entries) && n <= 0x1_0000
    requires forall w :: 0 <= w < n ==> !ClassifySpec(entries, w).AmbiguousWord?
    ensures CountBelow(entries, DocumentedLegal, n) + CountBelow(entries, ReservedIndirectField, n)
          + CountBelow(entries, SimultaneousUpdate, n) + CountBelow(entries, PatternMismatch, n)
          + CountBelow(entries, Unlisted, n) == n
  {
    hide ClassifySpec;
    if n > 0 {
      CountsPartition(entries, n - 1);
      assert ClassifySpec(entries, n - 1).Verdict? by { NotBad(entries, n - 1); }
    }
  }

  lemma NotBad(entries: seq<Entry>, w: int)
    requires ValidSpansOf(entries) && 0 <= w <= 0xFFFF
    ensures !ClassifySpec(entries, w).BadWord?
  {
  }
}
