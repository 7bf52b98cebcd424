/** The mask/match instruction database: decoding an entry, decoding and
    classifying a word, and the validator that is meant to make both sound. */
module IsaDatabase {
  import opened Bits
  import opened Isa

  datatype FieldName =
    | ConstantName | IndirectName | AddressingName | RegisterName | ShiftName | PortName
    | OtherName(text: string)

  datatype Field = Field(name: FieldName, lsb: int, width: int, signed: bool,
                         legalValues: Option<seq<int>>)

  datatype Pattern = Pattern(mask: int, bits: int)

  /** When the word has the first pattern, it must or must not have the second. */
  datatype Constraint = Require(when: Pattern, pattern: Pattern)
                      | Forbid(when: Pattern, pattern: Pattern)

  datatype Entry = Entry(mnemonic: Mnemonic, bits: int, mask: int, fields: seq<Field>,
                         constraints: seq<Constraint>, envelope: Option<Pattern>,
                         wordCount: Option<int>, minOperands: int, maxOperands: int,
                         cycles: int)

  type Fields = map<FieldName, int>

  // --------------------------------------------------------- decoding an entry

  predicate ValidSpan(f: Field)
  {
    f.lsb >= 0 && f.width >= 1 && f.lsb + f.width <= 16
  }

  function FieldMask(f: Field): int
    requires ValidSpan(f)
  {
    (Pow2(f.width) - 1) * Pow2(f.lsb)
  }

  /** `(word >> lsb) & ((1 << width) - 1)` */
  function Raw(f: Field, word: int): int
    requires ValidSpan(f)
  {
    And(word / Pow2(f.lsb), Pow2(f.width) - 1)
  }

  /** The same bits with the sign applied. */
  function FieldValue(f: Field, word: int): int
    requires ValidSpan(f)
  {
    if f.signed && And(Raw(f, word), Pow2(f.width - 1)) != 0 then Raw(f, word) - Pow2(f.width)
    else Raw(f, word)
  }

  predicate Has(word: int, p: Pattern) { And(word, p.mask) == p.bits }

  predicate BaseMatch(e: Entry, word: int) { And(word, e.mask) == And(e.bits, e.mask) }

  predicate Satisfies(word: int, c: Constraint)
  {
    Has(word, c.when) ==> (c.Require? <==> Has(word, c.pattern))
  }

  predicate LegalValue(f: Field, word: int)
    requires ValidSpan(f)
  {
    f.legalValues.Some? ==> FieldValue(f, word) in f.legalValues.value
  }

  predicate ValidSpans(fields: seq<Field>)
  {
    forall i :: 0 <= i < |fields| ==> ValidSpan(fields[i])
  }

  /** A word is an instance of the entry. */
  predicate Accepts(e: Entry, word: int)
    requires ValidSpans(e.fields)
  {
    && BaseMatch(e, word)
    && (forall i :: 0 <= i < |e.constraints| ==> Satisfies(word, e.constraints[i]))
    && (forall i :: 0 <= i < |e.fields| ==> LegalValue(e.fields[i], word))
  }

  /** The dictionary of field values; a later field of the same name replaces an
      earlier one. */
  function Dictionary(fields: seq<Field>, word: int): Fields
    requires ValidSpans(fields)
  {
    if fields == [] then map[]
    else
      var last := fields[|fields| - 1];
      Dictionary(fields[..|fields| - 1], word)[last.name := FieldValue(last, word)]
  }

  function DecodeSpec(e: Entry, word: int): Option<Fields>
    requires ValidSpans(e.fields)
  {
    if Accepts(e, word) then Some(Dictionary(e.fields, word)) else None
  }

  datatype Result<+T> = Ok(value: T) | Error

  /** `decode_entry`; Error is the ValueError for a word that is not 16 bits. */
  method DecodeEntry(e: Entry, word: int) returns (r: Result<Option<Fields>>)
    requires ValidSpans(e.fields)
    ensures r == if 0 <= word <= 0xFFFF then Ok(DecodeSpec(e, word)) else Error
  {
    if !(0 <= word <= 0xFFFF) {
      return Error;
    }
    if And(word, e.mask) != And(e.bits, e.mask) {
      return Ok(None);
    }
    var i := 0;
    while i < |e.constraints|
      invariant 0 <= i <= |e.constraints|
      invariant forall j :: 0 <= j < i ==> Satisfies(word, e.constraints[j])
    {
      var c := e.constraints[i];
      if And(word, c.when.mask) == c.when.bits {
        if c.Require? {
          if And(word, c.pattern.mask) != c.pattern.bits {
            assert !Satisfies(word, e.constraints[i]);
            return Ok(None);
          }
        } else if And(word, c.pattern.mask) == c.pattern.bits {
          assert !Satisfies(word, e.constraints[i]);
          return Ok(None);
        }
      }
      i := i + 1;
    }
    var fields: Fields := map[];
    i := 0;
    while i < |e.fields|
      invariant 0 <= i <= |e.fields|
      invariant forall j :: 0 <= j < i ==> LegalValue(e.fields[j], word)
      invariant fields == Dictionary(e.fields[..i], word)
    {
      var field := e.fields[i];
      var raw := And(word / Pow2(field.lsb), Pow2(field.width) - 1);
      if field.signed && And(raw, Pow2(field.width - 1)) != 0 {
        raw := raw - Pow2(field.width);
      }
      assert raw == FieldValue(field, word);
      if field.legalValues.Some? && raw !in field.legalValues.value {
        assert !LegalValue(e.fields[i], word);
        return Ok(None);
      }
      fields := fields[field.name := raw];
      assert e.fields[..i + 1][..i] == e.fields[..i];
      i := i + 1;
    }
    assert e.fields[..i] == e.fields;
    return Ok(Some(fields));
  }
}
