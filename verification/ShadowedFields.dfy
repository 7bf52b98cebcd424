/** Fields that share a name. The dictionary keeps the value of the last one, so
    an earlier one is shadowed: exactly when that loses the word, and exactly when
    it makes two words decode alike. */
module ShadowedFields {
  import opened Bits
  import opened Isa
  import opened IsaDatabase
  import opened FieldReconstruction

  // ----------------------------------------------------- disjoint fields

  /** Distinct fields of a validated entry share no bit. */
  lemma {:induction false} EarlierFieldDisjoint(fields: seq<Field>, n: int, i: int, mask: int)
    requires ValidSpans(fields) && DisjointFields(mask, fields) && 0 <= i < n < |fields|
    ensures And(FieldMask(fields[i]), FieldMask(fields[n])) == 0
  {
    hide FieldMask;
    MaskCovers(fields[..n], i);
    hide Bitwise;
    var v, a, b := VariableMask(fields[..n]), FieldMask(fields[i]), FieldMask(fields[n]);
    assert And(v, b) == 0;
    assert And(v, a) == a;
    Commutes(AndOp, v, a);
    AndAssoc(a, v, b);
    AndZero(a);
  }

  lemma {:induction false} MaskCovers(fields: seq<Field>, i: int)
    requires ValidSpans(fields) && 0 <= i < |fields|
    ensures And(VariableMask(fields), FieldMask(fields[i])) == FieldMask(fields[i])
  {
    hide FieldMask, Bitwise;
    var n := |fields| - 1;
    var v, m, x := VariableMask(fields[..n]), FieldMask(fields[n]), FieldMask(fields[i]);
    Commutes(AndOp, Or(v, m), x);
    AndOverOr(x, v, m);
    Commutes(AndOp, x, v);
    Commutes(AndOp, x, m);
    if i < n {
      MaskCovers(fields[..n], i);
      OrAbsorb(x, m);
    } else {
      AndSelf(x);
      OrAbsorb(x, v);
    }
  }

  lemma {:induction false} AndSelf(x: int)
    ensures And(x, x) == x
    decreases Magnitude(x)
  {
    if Magnitude(x) > 0 { AndSelf(x / 2); }
  }

  lemma {:induction false} OrAbsorb(x: int, y: int)
    ensures Or(x, And(x, y)) == x && Or(And(x, y), x) == x
    decreases Magnitude(x) + Magnitude(y)
  {
    if Magnitude(x) + Magnitude(y) > 0 {
      OrAbsorb(x / 2, y / 2);
      OrAbsorbStep(x % 2, x / 2, y % 2, y / 2);
    }
  }

  lemma OrAbsorbStep(x: int, a: int, y: int, b: int)
    requires 0 <= x <= 1 && 0 <= y <= 1 && Or(a, And(a, b)) == a && Or(And(a, b), a) == a
    ensures Or(x + 2 * a, And(x + 2 * a, y + 2 * b)) == x + 2 * a
    ensures Or(And(x + 2 * a, y + 2 * b), x + 2 * a) == x + 2 * a
  {
    hide Bitwise;
    Build(AndOp, x, a, y, b);
    Build(OrOp, x, a, Bit1(AndOp, x, y), And(a, b));
    Build(OrOp, Bit1(AndOp, x, y), And(a, b), x, a);
  }

  lemma BitsOutside(e: Entry, i: int)
    requires ValidEncoding(e) && 0 <= i < |e.fields|
    ensures And(e.bits, FieldMask(e.fields[i])) == 0
  {
    hide FieldMask, Bitwise;
    var m := FieldMask(e.fields[i]);
    Subset(e.bits, e.mask);
    Commutes(AndOp, e.mask, e.bits);
    AndAssoc(e.bits, e.mask, m);
    AndZero(e.bits);
  }

  // ------------------------------------------------- what the dictionary keeps

  /** No later field has its name. */
  predicate IsLast(fields: seq<Field>, i: int)
  {
    0 <= i < |fields| && forall j :: i < j < |fields| ==> fields[j].name != fields[i].name
  }

  /** The dictionary holds the value of the last field of a name. */
  lemma {:induction false} LastOfName(fields: seq<Field>, word: int, name: FieldName) returns (last: int)
    requires ValidSpans(fields) && name in Dictionary(fields, word)
    ensures 0 <= last < |fields| && fields[last].name == name
    ensures forall j :: last < j < |fields| ==> fields[j].name != name
  {
    var n := |fields| - 1;
    last := n;
    if fields[n].name != name {
      last := LastOfName(fields[..n], word, name);
      forall j | last < j < |fields|
        ensures fields[j].name != name
      {
        if j < n { assert fields[j] == fields[..n][j]; }
      }
    }
  }

  /** Two words have the same dictionary exactly when they agree on every field
      that is the last of its name. */
  lemma SameDictionary(fields: seq<Field>, v: int, w: int)
    requires ValidSpans(fields)
    ensures Dictionary(fields, v) == Dictionary(fields, w)
       <==> forall i :: IsLast(fields, i) ==> FieldValue(fields[i], v) == FieldValue(fields[i], w)
  {
    hide Dictionary, FieldValue;
    forall i | IsLast(fields, i)
      ensures fields[i].name in Dictionary(fields, v) && fields[i].name in Dictionary(fields, w)
      ensures Dictionary(fields, v)[fields[i].name] == FieldValue(fields[i], v)
      ensures Dictionary(fields, w)[fields[i].name] == FieldValue(fields[i], w)
    {
      DictionaryLookup(fields, v, i);
      DictionaryLookup(fields, w, i);
    }
    if forall i :: IsLast(fields, i) ==> FieldValue(fields[i], v) == FieldValue(fields[i], w) {
      DictionaryNames(fields, v);
      DictionaryNames(fields, w);
      forall n | n in Dictionary(fields, v)
        ensures n in Dictionary(fields, w) && Dictionary(fields, v)[n] == Dictionary(fields, w)[n]
      {
        var i := LastOfName(fields, v, n);
        assert IsLast(fields, i);
      }
    }
  }

  /** A field reads alike exactly when its bits are alike. */
  lemma SameField(f: Field, v: int, w: int)
    requires ValidSpan(f)
    ensures FieldValue(f, v) == FieldValue(f, w) <==> And(v, FieldMask(f)) == And(w, FieldMask(f))
  {
    hide Bitwise, Pow2, And, Raw, FieldMask, Place;
    PlaceValue(f, v);
    PlaceValue(f, w);
    BitsAreRaw(f, v);
    BitsAreRaw(f, w);
    if And(v, FieldMask(f)) == And(w, FieldMask(f)) { Unscaled(Raw(f, v), Raw(f, w), Pow2(f.lsb)); }
  }

  lemma Unscaled(a: int, b: int, p: int)
    requires p > 0 && a * p == b * p
    ensures a == b
  {
    MultipleIsFar(p, a - b);
    assert p * (a - b) == a * p - b * p;
  }

  lemma BitsAreRaw(f: Field, word: int)
    requires ValidSpan(f)
    ensures And(word, FieldMask(f)) == Raw(f, word) * Pow2(f.lsb)
  {
    hide Bitwise, Pow2;
    AndShifted(word, Pow2(f.width) - 1, f.lsb);
  }

  // ----------------------------------------------------- decoding injectively

  /** Different words that agree on every field the dictionary keeps. */
  ghost predicate DifferOnlyInShadowed(fields: seq<Field>, v: int, w: int)
    requires ValidSpans(fields)
  {
    v != w && forall i :: IsLast(fields, i) ==> And(v, FieldMask(fields[i])) == And(w, FieldMask(fields[i]))
  }

  ghost predicate Injective(e: Entry)
    requires ValidSpans(e.fields)
  {
    forall v, w | 0 <= v <= 0xFFFF && 0 <= w <= 0xFFFF
               && DecodeSpec(e, v).Some? && DecodeSpec(e, v) == DecodeSpec(e, w) :: v == w
  }

  /** For every entry, whatever its constraints and listed values: decoding is
      injective if and only if no two accepted words differ only in shadowed
      fields. */
  lemma InjectiveExactly(e: Entry)
    requires ValidSpans(e.fields)
    ensures Injective(e)
       <==> !exists v, w :: 0 <= v <= 0xFFFF && 0 <= w <= 0xFFFF && Accepts(e, v) && Accepts(e, w)
                            && DifferOnlyInShadowed(e.fields, v, w)
  {
    hide Accepts, Dictionary, DifferOnlyInShadowed;
    forall v, w
      ensures v != w && Dictionary(e.fields, v) == Dictionary(e.fields, w) <==> DifferOnlyInShadowed(e.fields, v, w)
    {
      SameOrShadowed(e.fields, v, w);
    }
    if !Injective(e) {
      var v, w :| 0 <= v <= 0xFFFF && 0 <= w <= 0xFFFF
                  && DecodeSpec(e, v).Some? && DecodeSpec(e, v) == DecodeSpec(e, w) && v != w;
      assert DifferOnlyInShadowed(e.fields, v, w);
    }
    if v, w :| 0 <= v <= 0xFFFF && 0 <= w <= 0xFFFF && Accepts(e, v) && Accepts(e, w)
               && DifferOnlyInShadowed(e.fields, v, w) {
      assert DecodeSpec(e, v) == DecodeSpec(e, w);
    }
  }

  lemma SameOrShadowed(fields: seq<Field>, v: int, w: int)
    requires ValidSpans(fields)
    ensures v != w && Dictionary(fields, v) == Dictionary(fields, w) <==> DifferOnlyInShadowed(fields, v, w)
  {
    hide Dictionary, FieldMask, FieldValue, And;
    SameDictionary(fields, v, w);
    forall i | IsLast(fields, i)
      ensures FieldValue(fields[i], v) == FieldValue(fields[i], w)
         <==> And(v, FieldMask(fields[i])) == And(w, FieldMask(fields[i]))
    {
      SameField(fields[i], v, w);
    }
  }

  /** Words of a validated entry that differ only in shadowed fields do differ in
      one: a field with a later namesake. */
  lemma ShadowedFieldDiffers(e: Entry, v: int, w: int)
    requires ValidEncoding(e) && 0 <= v <= 0xFFFF && 0 <= w <= 0xFFFF && Accepts(e, v) && Accepts(e, w)
    requires DifferOnlyInShadowed(e.fields, v, w)
    ensures exists j :: 0 <= j < |e.fields| && !IsLast(e.fields, j)
                        && And(v, FieldMask(e.fields[j])) != And(w, FieldMask(e.fields[j]))
    ensures !DistinctNames(e.fields)
  {
    hide FieldMask, And;
    if forall j :: 0 <= j < |e.fields| ==> And(v, FieldMask(e.fields[j])) == And(w, FieldMask(e.fields[j])) {
      SameVariableBits(e.fields, v, w);
      FixedAndVariable(e, v);
      FixedAndVariable(e, w);
    }
  }

  lemma {:induction false} SameVariableBits(fields: seq<Field>, v: int, w: int)
    requires ValidSpans(fields)
    requires forall j :: 0 <= j < |fields| ==> And(v, FieldMask(fields[j])) == And(w, FieldMask(fields[j]))
    ensures And(v, VariableMask(fields)) == And(w, VariableMask(fields))
  {
    hide FieldMask, Bitwise;
    if fields == [] {
      AndZero(v);
      AndZero(w);
    } else {
      var n := |fields| - 1;
      SameVariableBits(fields[..n], v, w);
      AndOverOr(v, VariableMask(fields[..n]), FieldMask(fields[n]));
      AndOverOr(w, VariableMask(fields[..n]), FieldMask(fields[n]));
    }
  }

  /** Only mask and match restrict the entry. */
  predicate Unrestricted(e: Entry)
  {
    e.constraints == [] && forall i :: 0 <= i < |e.fields| ==> e.fields[i].legalValues.None?
  }

  lemma FieldMaskBounds(f: Field)
    requires ValidSpan(f)
    ensures 0 < FieldMask(f) < 0x1_0000
  {
    Pow2Table();
    Pow2Add(f.width, f.lsb);
    Pow2Add(16 - f.width - f.lsb, f.width + f.lsb);
    var a, p, q := Pow2(f.width), Pow2(f.lsb), Pow2(16 - f.width - f.lsb);
    assert a >= 2;
    hide Pow2;
    Distribute(a, p);
    MultipleIsFar(p, a - 1);
    assert p * (a - 1) == (a - 1) * p;
    MultipleIsFar(a * p, q);
    assert (a * p) * q == q * (a * p);
  }

  /** The two words of a shadowed field: all variable bits clear, and only that
      field set. Both are accepted and they differ. */
  lemma ShadowedWords(e: Entry, j: int)
    requires ValidEncoding(e) && Unrestricted(e) && 0 <= j < |e.fields|
    ensures var w := Or(e.bits, FieldMask(e.fields[j]));
            0 <= w <= 0xFFFF && w != e.bits && Accepts(e, e.bits) && Accepts(e, w)
  {
    hide FieldMask;
    var m := FieldMask(e.fields[j]);
    FieldMaskBounds(e.fields[j]);
    Pow2Table();
    hide Bitwise, Pow2;
    Bounded(OrOp, e.bits, m, 16);
    BitsOutside(e, j);
    // the fixed bits
    Commutes(AndOp, Or(e.bits, m), e.mask);
    AndOverOr(e.mask, e.bits, m);
    Commutes(AndOp, e.mask, e.bits);
    OrZero(And(e.bits, e.mask));
    // the words differ inside the field
    AndOverOr(m, e.bits, m);
    Commutes(AndOp, m, e.bits);
    AndSelf(m);
    OrZero(m);
    Commutes(OrOp, 0, m);
  }

  /** The two words of a shadowed field differ only there. */
  lemma ShadowedWordsAgree(e: Entry, j: int)
    requires ValidEncoding(e) && 0 <= j < |e.fields| && !IsLast(e.fields, j)
    requires Or(e.bits, FieldMask(e.fields[j])) != e.bits
    ensures DifferOnlyInShadowed(e.fields, e.bits, Or(e.bits, FieldMask(e.fields[j])))
  {
    hide FieldMask, Bitwise;
    var x := FieldMask(e.fields[j]);
    forall i | IsLast(e.fields, i)
      ensures And(e.bits, FieldMask(e.fields[i])) == And(Or(e.bits, x), FieldMask(e.fields[i]))
    {
      var m := FieldMask(e.fields[i]);
      FieldsDisjoint(e, i, j);
      Commutes(AndOp, Or(e.bits, x), m);
      AndOverOr(m, e.bits, x);
      Commutes(AndOp, m, e.bits);
      OrZero(And(e.bits, m));
    }
  }

  lemma FieldsDisjoint(e: Entry, i: int, j: int)
    requires ValidEncoding(e) && 0 <= i < |e.fields| && 0 <= j < |e.fields| && i != j
    ensures And(FieldMask(e.fields[i]), FieldMask(e.fields[j])) == 0
  {
    hide FieldMask, Bitwise;
    if i < j {
      EarlierFieldDisjoint(e.fields, j, i, e.mask);
    } else {
      EarlierFieldDisjoint(e.fields, i, j, e.mask);
      Commutes(AndOp, FieldMask(e.fields[i]), FieldMask(e.fields[j]));
    }
  }

  /** The validator does not ask for distinct field names, and where mask and
      match alone restrict an entry that is exactly what is missing: it decodes
      distinct words to distinct dictionaries if and only if its names differ. */
  lemma InjectiveIffDistinctNames(e: Entry)
    requires ValidEncoding(e) && Unrestricted(e)
    ensures Injective(e) <==> DistinctNames(e.fields)
  {
    hide FieldMask, Bitwise, Or, Accepts, DifferOnlyInShadowed, Injective, ValidEncoding, DistinctNames, Unrestricted;
    EncodingBits(e);
    InjectiveExactly(e);
    if v, w :| 0 <= v <= 0xFFFF && 0 <= w <= 0xFFFF && Accepts(e, v) && Accepts(e, w)
               && DifferOnlyInShadowed(e.fields, v, w) {
      ShadowedFieldDiffers(e, v, w);
    } else if !DistinctNames(e.fields) {
      var j := RepeatedName(e.fields);
      ShadowedWords(e, j);
      ShadowedWordsAgree(e, j);
    }
  }

  lemma RepeatedName(fields: seq<Field>) returns (j: int)
    requires !DistinctNames(fields)
    ensures 0 <= j < |fields| && !IsLast(fields, j)
  {
    var i, k :| 0 <= i < k < |fields| && fields[i].name == fields[k].name;
    j := i;
  }

  lemma EncodingBits(e: Entry)
    requires ValidEncoding(e)
    ensures 0 <= e.bits <= 0xFFFF && ValidSpans(e.fields)
  {
  }

  // ------------------------------------------------------ rebuilding the word

  /** The value kept under the field's name gives back the field's own bits. */
  predicate Kept(fields: seq<Field>, word: int, values: Fields, i: int)
    requires 0 <= i < |fields| && ValidSpan(fields[i]) && fields[i].name in values
  {
    Place(fields[i], values[fields[i].name]) == And(word, FieldMask(fields[i]))
  }

  lemma PlaceInMask(f: Field, value: int)
    requires ValidSpan(f)
    ensures And(FieldMask(f), Place(f, value)) == Place(f, value)
  {
    hide Bitwise, Pow2, And;
    var r, p := value % Pow2(f.width), Pow2(f.lsb);
    DivUnique(r * p, p, r, 0);
    ModuloPeriod(r, Pow2(f.width));
    RawMeaning(f, r * p);
    BitsAreRaw(f, r * p);
    SwapAnd(r * p, FieldMask(f));
  }

  lemma SwapAnd(x: int, y: int)
    ensures And(x, y) == And(y, x)
  {
    hide Bitwise;
    Commutes(AndOp, x, y);
  }

  /** The bits of one field in what the values rebuild. */
  lemma {:induction false} FieldOfRebuilt(e: Entry, n: nat, values: Fields, i: nat)
    requires ValidEncoding(e) && n <= |e.fields| && i < |e.fields|
    requires forall k :: 0 <= k < |e.fields| ==> e.fields[k].name in values
    ensures And(FieldMask(e.fields[i]), RebuildFields(e.fields[..n], values))
         == if i < n then Place(e.fields[i], values[e.fields[i].name]) else 0
  {
    hide Bitwise, FieldMask, Place, ValidEncoding;
    EncodingBits(e);
    var m := FieldMask(e.fields[i]);
    if n == 0 {
      AndZero(m);
    } else {
      FieldOfRebuilt(e, n - 1, values, i);
      assert e.fields[..n][..n - 1] == e.fields[..n - 1];
      var last := e.fields[n - 1];
      var placed := Place(last, values[last.name]);
      AndOverOr(m, RebuildFields(e.fields[..n - 1], values), placed);
      PlaceInMask(last, values[last.name]);
      if i == n - 1 {
        OrZero(placed);
        Commutes(OrOp, 0, placed);
      } else {
        FieldsDisjoint(e, i, n - 1);
        AndAssoc(m, FieldMask(last), placed);
        AndZero(placed);
        Commutes(AndOp, 0, placed);
        OrZero(And(m, RebuildFields(e.fields[..n - 1], values)));
      }
    }
  }

  lemma {:induction false} KeptRebuilds(fields: seq<Field>, n: nat, word: int, values: Fields)
    requires ValidSpans(fields) && n <= |fields|
    requires forall k :: 0 <= k < |fields| ==> fields[k].name in values && Kept(fields, word, values, k)
    ensures RebuildFields(fields[..n], values) == And(word, VariableMask(fields[..n]))
  {
    hide Bitwise, FieldMask, Place;
    if n == 0 {
      AndZero(word);
    } else {
      KeptRebuilds(fields, n - 1, word, values);
      assert fields[..n][..n - 1] == fields[..n - 1];
      assert Kept(fields, word, values, n - 1);
      AndOverOr(word, VariableMask(fields[..n - 1]), FieldMask(fields[n - 1]));
    }
  }

  /** For every validated entry, names repeated or not: the match and the decoded
      fields, re-masked and shifted back, are the word if and only if the value
      kept under each field's name gives back that field's bits. */
  lemma RebuildsExactly(e: Entry, word: int)
    requires ValidEncoding(e) && 0 <= word <= 0xFFFF && Accepts(e, word)
    ensures forall i :: 0 <= i < |e.fields| ==> e.fields[i].name in Dictionary(e.fields, word)
    ensures Rebuild(e, Dictionary(e.fields, word)) == word
       <==> forall i :: 0 <= i < |e.fields| ==> Kept(e.fields, word, Dictionary(e.fields, word), i)
  {
    hide Bitwise, FieldMask, Place, Dictionary, RebuildFields, VariableMask;
    EncodingBits(e);
    DictionaryNames(e.fields, word);
    var values, n := Dictionary(e.fields, word), |e.fields|;
    assert e.fields[..n] == e.fields;
    var rebuilt := RebuildFields(e.fields, values);
    if forall i :: 0 <= i < n ==> Kept(e.fields, word, values, i) {
      KeptRebuilds(e.fields, n, word, values);
      FixedAndVariable(e, word);
    }
    if Or(e.bits, rebuilt) == word {
      forall i | 0 <= i < n
        ensures Kept(e.fields, word, values, i)
      {
        var m := FieldMask(e.fields[i]);
        FieldOfRebuilt(e, n, values, i);
        BitsOutside(e, i);
        AndOverOr(m, e.bits, rebuilt);
        Commutes(AndOp, m, e.bits);
        Commutes(AndOp, m, word);
        OrZero(And(m, rebuilt));
        Commutes(OrOp, 0, And(m, rebuilt));
      }
    }
  }
}
