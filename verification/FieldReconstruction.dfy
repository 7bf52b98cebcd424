/** What the structural checks of the validator buy: the decoded fields of a
    word determine the word. */
module FieldReconstruction {
  import opened Bits
  import opened IsaDatabase

  /** The bits the first n fields describe. */
  function VariableMask(fields: seq<Field>): int
    requires ValidSpans(fields)
  {
    if fields == [] then 0
    else Or(VariableMask(fields[..|fields| - 1]), FieldMask(fields[|fields| - 1]))
  }

  /** No field meets an earlier one or the fixed bits. */
  predicate DisjointFields(mask: int, fields: seq<Field>)
    requires ValidSpans(fields)
  {
    forall i :: 0 <= i < |fields| ==>
      && And(VariableMask(fields[..i]), FieldMask(fields[i])) == 0
      && And(mask, FieldMask(fields[i])) == 0
  }

  /** The checks on opcode bits and fields. */
  predicate ValidEncoding(e: Entry)
  {
    && 0 <= e.bits <= 0xFFFF && 0 <= e.mask <= 0xFFFF
    && And(e.bits, Not(e.mask)) == 0
    && ValidSpans(e.fields)
    && DisjointFields(e.mask, e.fields)
    && VariableMask(e.fields) == And(Not(e.mask), 0xFFFF)
  }

  predicate DistinctNames(fields: seq<Field>)
  {
    forall i, j :: 0 <= i < j < |fields| ==> fields[i].name != fields[j].name
  }

  // ------------------------------------------------------- putting it back

  /** A field value as its bits in place. */
  function Place(f: Field, value: int): int
    requires ValidSpan(f)
  {
    value % Pow2(f.width) * Pow2(f.lsb)
  }

  function RebuildFields(fields: seq<Field>, values: Fields): int
    requires ValidSpans(fields)
    requires forall i :: 0 <= i < |fields| ==> fields[i].name in values
  {
    if fields == [] then 0
    else
      var last := fields[|fields| - 1];
      Or(RebuildFields(fields[..|fields| - 1], values), Place(last, values[last.name]))
  }

  function Rebuild(e: Entry, values: Fields): int
    requires ValidSpans(e.fields)
    requires forall i :: 0 <= i < |e.fields| ==> e.fields[i].name in values
  {
    Or(e.bits, RebuildFields(e.fields, values))
  }

  lemma RawMeaning(f: Field, word: int)
    requires ValidSpan(f)
    ensures Raw(f, word) == (word / Pow2(f.lsb)) % Pow2(f.width)
    ensures 0 <= Raw(f, word) < Pow2(f.width)
  {
    hide Bitwise, Pow2;
    AndOnes(word / Pow2(f.lsb), f.width);
  }

  lemma ModuloPeriod(r: int, p: int)
    requires 0 <= r < p
    ensures r % p == r && (r - p) % p == r
  {
    DivUnique(r, p, 0, r);
    DivUnique(r - p, p, -1, r);
  }

  /** A decoded value, re-masked and shifted back, is the word's own bits. */
  lemma PlaceValue(f: Field, word: int)
    requires ValidSpan(f)
    ensures Place(f, FieldValue(f, word)) == And(word, FieldMask(f))
  {
    hide Bitwise, Pow2;
    RawMeaning(f, word);
    ModuloPeriod(Raw(f, word), Pow2(f.width));
    AndShifted(word, Pow2(f.width) - 1, f.lsb);
  }

  lemma {:induction false} DictionaryNames(fields: seq<Field>, word: int)
    requires ValidSpans(fields)
    ensures forall i :: 0 <= i < |fields| ==> fields[i].name in Dictionary(fields, word)
    ensures forall n :: n in Dictionary(fields, word) ==> exists i :: 0 <= i < |fields| && fields[i].name == n
  {
    if fields != [] {
      var n := |fields| - 1;
      DictionaryNames(fields[..n], word);
      assert forall i :: 0 <= i < n ==> fields[i].name == fields[..n][i].name;
    }
  }

  lemma {:induction false} DictionaryLookup(fields: seq<Field>, word: int, i: int)
    requires ValidSpans(fields) && 0 <= i < |fields|
    requires forall j :: i < j < |fields| ==> fields[j].name != fields[i].name
    ensures fields[i].name in Dictionary(fields, word)
    ensures Dictionary(fields, word)[fields[i].name] == FieldValue(fields[i], word)
  {
    if i < |fields| - 1 {
      DictionaryLookup(fields[..|fields| - 1], word, i);
    }
  }

  /** The bits of a prefix of the fields, from the whole dictionary. */
  lemma {:induction false} RebuildPrefix(fields: seq<Field>, n: int, word: int)
    requires ValidSpans(fields) && DistinctNames(fields) && 0 <= n <= |fields|
    ensures forall i :: 0 <= i < n ==> fields[..n][i].name in Dictionary(fields, word)
    ensures RebuildFields(fields[..n], Dictionary(fields, word)) == And(word, VariableMask(fields[..n]))
  {
    DictionaryNames(fields, word);
    hide Bitwise, FieldMask, Place, FieldValue;
    if n == 0 {
      AndZero(word);
    } else {
      RebuildPrefix(fields, n - 1, word);
      assert fields[..n][..n - 1] == fields[..n - 1];
      var last := fields[n - 1];
      DictionaryLookup(fields, word, n - 1);
      PlaceValue(last, word);
      AndOverOr(word, VariableMask(fields[..n - 1]), FieldMask(last));
    }
  }

  lemma {:induction false} OrComplement(m: int, k: nat)
    requires 0 <= m < Pow2(k)
    ensures Or(m, And(Not(m), Pow2(k) - 1)) == Pow2(k) - 1
    decreases k
  {
    if k == 0 {
      assert Or(0, And(-1, 0)) == 0;
    } else {
      OrComplement(m / 2, k - 1);
      OrComplementStep(m % 2, m / 2, Pow2(k - 1) - 1);
    }
  }

  lemma OrComplementStep(x: int, h: int, ones: int)
    requires 0 <= x <= 1 && Or(h, And(Not(h), ones)) == ones
    ensures Or(x + 2 * h, And(Not(x + 2 * h), 1 + 2 * ones)) == 1 + 2 * ones
  {
    hide Bitwise;
    assert Not(x + 2 * h) == (1 - x) + 2 * Not(h);
    Build(AndOp, 1 - x, Not(h), 1, ones);
    Build(OrOp, x, h, 1 - x, And(Not(h), ones));
  }

  /** A word is its fixed bits and its variable bits. */
  lemma FixedAndVariable(e: Entry, word: int)
    requires ValidEncoding(e) && 0 <= word <= 0xFFFF && BaseMatch(e, word)
    ensures Or(e.bits, And(word, VariableMask(e.fields))) == word
  {
    Pow2Table();
    hide Bitwise, Pow2;
    var free := And(Not(e.mask), 0xFFFF);
    Subset(e.bits, e.mask);
    Commutes(AndOp, e.mask, e.bits);
    AndOverOr(word, e.mask, free);
    OrComplement(e.mask, 16);
    AndOnes(word, 16);
  }

  /** For a validated entry whose field names are distinct, the dictionary
      rebuilds every word it was decoded from. */
  lemma FieldsRebuildWord(e: Entry, word: int)
    requires ValidEncoding(e) && DistinctNames(e.fields) && 0 <= word <= 0xFFFF
    requires Accepts(e, word)
    ensures forall i :: 0 <= i < |e.fields| ==> e.fields[i].name in Dictionary(e.fields, word)
    ensures Rebuild(e, Dictionary(e.fields, word)) == word
  {
    hide Bitwise;
    assert e.fields[..|e.fields|] == e.fields;
    RebuildPrefix(e.fields, |e.fields|, word);
    FixedAndVariable(e, word);
  }

  lemma DecodeInjective(e: Entry, v: int, w: int)
    requires ValidEncoding(e) && DistinctNames(e.fields)
    requires 0 <= v <= 0xFFFF && 0 <= w <= 0xFFFF
    requires DecodeSpec(e, v).Some? && DecodeSpec(e, v) == DecodeSpec(e, w)
    ensures v == w
  {
    FieldsRebuildWord(e, v);
    FieldsRebuildWord(e, w);
  }
}
