/** The checks on one entry as statements about bit positions: every one of the
    sixteen bits is either fixed by the mask or described by exactly one field. */
module BitTiling {
  import opened Bits
  import opened IsaDatabase
  import opened FieldReconstruction
  import opened Validator

  // ------------------------------------------------------------ bits of masks

  lemma {:induction false} ShiftedBit(x: int, n: nat, k: nat)
    ensures BitOf(x * Pow2(n), k) <==> k >= n && BitOf(x, k - n)
    decreases n
  {
    hide BitOf;
    if n > 0 {
      ShiftedBit(x, n - 1, if k > 0 then k - 1 else 0);
      var half := x * Pow2(n - 1);
      assert x * Pow2(n) == 2 * half;
      Doubled(half, k);
    }
  }

  lemma Doubled(x: int, k: nat)
    ensures BitOf(2 * x, k) <==> k > 0 && BitOf(x, k - 1)
  {
    hide BitOf;
    LowBit(2 * x);
    if k > 0 { HalfBit(2 * x, k); }
  }

  lemma {:induction false} OnesBit(n: nat, k: nat)
    ensures BitOf(Pow2(n) - 1, k) <==> k < n
    decreases n
  {
    hide BitOf;
    LowBit(Pow2(n) - 1);
    if n > 0 && k > 0 {
      OnesBit(n - 1, k - 1);
      HalfBit(Pow2(n) - 1, k);
      assert (Pow2(n) - 1) / 2 == Pow2(n - 1) - 1;
    } else if n == 0 {
      ZeroBit(k);
    }
  }

  lemma ZeroBit(k: nat)
    ensures !BitOf(0, k)
  {
    SmallQuotient(0, Pow2(k));
  }

  /** The bits a field describes. */
  predicate Describes(f: Field, k: nat) { f.lsb <= k < f.lsb + f.width }

  lemma FieldBit(f: Field, k: nat)
    requires ValidSpan(f)
    ensures BitOf(FieldMask(f), k) <==> Describes(f, k)
  {
    hide BitOf, Pow2;
    ShiftedBit(Pow2(f.width) - 1, f.lsb, k);
    if k >= f.lsb { OnesBit(f.width, k - f.lsb); }
  }

  lemma {:induction false} VariableBit(fields: seq<Field>, k: nat)
    requires ValidSpans(fields)
    ensures BitOf(VariableMask(fields), k) <==> exists i :: 0 <= i < |fields| && Describes(fields[i], k)
  {
    hide BitOf, Bitwise, FieldMask;
    if fields == [] {
      ZeroBit(k);
    } else {
      var n := |fields| - 1;
      VariableBit(fields[..n], k);
      FieldBit(fields[n], k);
      BitwiseAt(OrOp, VariableMask(fields[..n]), FieldMask(fields[n]), k);
      if i :| 0 <= i < |fields| && Describes(fields[i], k) {
        if i < n { assert Describes(fields[..n][i], k); }
      }
    }
  }

  ghost predicate Apart(a: int, b: int)
  {
    forall k: nat :: !(BitOf(a, k) && BitOf(b, k))
  }

  lemma AndApart(a: int, b: int)
    ensures And(a, b) == 0 <==> Apart(a, b)
  {
    hide BitOf, Bitwise;
    forall k: nat
      ensures BitOf(And(a, b), k) <==> BitOf(a, k) && BitOf(b, k)
      ensures !BitOf(0, k)
    {
      BitwiseAt(AndOp, a, b, k);
      ZeroBit(k);
    }
    if Apart(a, b) {
      forall k: nat
        ensures BitOf(And(a, b), k) <==> BitOf(0, k)
      {
      }
      SameBits(And(a, b), 0);
    }
  }

  lemma SixteenBits(x: int, k: nat)
    requires 0 <= x <= 0xFFFF
    ensures BitOf(x, k) ==> k < 16
  {
    Pow2Table();
    hide BitOf, Pow2;
    if k >= 16 { AboveBits(x, 16, k); }
  }

  /** All bits of one pattern are bits of another. */
  ghost predicate Inside(a: int, b: int)
  {
    forall k: nat :: BitOf(a, k) ==> BitOf(b, k)
  }

  lemma NotInside(a: int, b: int)
    ensures And(a, Not(b)) == 0 <==> Inside(a, b)
  {
    hide BitOf, Bitwise;
    AndApart(a, Not(b));
    forall k: nat
      ensures BitOf(Not(b), k) <==> !BitOf(b, k)
    {
      ComplementAt(b, k);
    }
  }

  // ---------------------------------------------------------------- one entry

  /** No bit is described twice, and no fixed bit is described. */
  ghost predicate FieldsApart(mask: int, fields: seq<Field>)
  {
    && (forall i, k: nat :: 0 <= i < |fields| && Describes(fields[i], k) ==> !BitOf(mask, k))
    && (forall i, j, k: nat :: 0 <= i < j < |fields| && Describes(fields[i], k) ==> !Describes(fields[j], k))
  }

  /** Every opcode bit is fixed or described. */
  ghost predicate AllDescribed(mask: int, fields: seq<Field>)
  {
    forall k: nat :: k < 16 && !BitOf(mask, k) ==> exists i :: 0 <= i < |fields| && Describes(fields[i], k)
  }

  ghost predicate Tiled(e: Entry)
  {
    && 0 <= e.bits <= 0xFFFF && 0 <= e.mask <= 0xFFFF
    && (forall i :: 0 <= i < |e.fields| ==>
          0 <= e.fields[i].lsb && 1 <= e.fields[i].width && e.fields[i].lsb + e.fields[i].width <= 16)
    && Inside(e.bits, e.mask)
    && FieldsApart(e.mask, e.fields) && AllDescribed(e.mask, e.fields)
  }

  lemma DisjointIsApart(mask: int, fields: seq<Field>)
    requires ValidSpans(fields)
    ensures DisjointFields(mask, fields) <==> FieldsApart(mask, fields)
  {
    hide BitOf, Bitwise, FieldMask, VariableMask, Describes;
    forall i | 0 <= i < |fields|
      ensures And(mask, FieldMask(fields[i])) == 0 <==> forall k: nat :: Describes(fields[i], k) ==> !BitOf(mask, k)
      ensures And(VariableMask(fields[..i]), FieldMask(fields[i])) == 0
         <==> forall j, k: nat :: 0 <= j < i && Describes(fields[j], k) ==> !Describes(fields[i], k)
    {
      FieldApart(mask, fields[i]);
      EarlierApart(fields, i);
    }
  }

  lemma FieldApart(mask: int, f: Field)
    requires ValidSpan(f)
    ensures And(mask, FieldMask(f)) == 0 <==> forall k: nat :: Describes(f, k) ==> !BitOf(mask, k)
  {
    hide BitOf, Bitwise, FieldMask, Describes;
    AndApart(mask, FieldMask(f));
    forall k: nat
      ensures BitOf(FieldMask(f), k) <==> Describes(f, k)
    {
      FieldBit(f, k);
    }
  }

  lemma EarlierApart(fields: seq<Field>, i: int)
    requires ValidSpans(fields) && 0 <= i < |fields|
    ensures And(VariableMask(fields[..i]), FieldMask(fields[i])) == 0
       <==> forall j, k: nat :: 0 <= j < i && Describes(fields[j], k) ==> !Describes(fields[i], k)
  {
    hide BitOf, Bitwise, FieldMask, VariableMask, Describes;
    AndApart(VariableMask(fields[..i]), FieldMask(fields[i]));
    forall k: nat
      ensures BitOf(FieldMask(fields[i]), k) <==> Describes(fields[i], k)
      ensures BitOf(VariableMask(fields[..i]), k) <==> exists j :: 0 <= j < i && Describes(fields[j], k)
    {
      FieldBit(fields[i], k);
      VariableBit(fields[..i], k);
      assert forall j :: 0 <= j < i ==> fields[..i][j] == fields[j];
    }
  }

  lemma CoverIsAll(mask: int, fields: seq<Field>)
    requires 0 <= mask <= 0xFFFF && ValidSpans(fields) && FieldsApart(mask, fields)
    ensures VariableMask(fields) == And(Not(mask), 0xFFFF) <==> AllDescribed(mask, fields)
  {
    hide BitOf, Bitwise, VariableMask, ValidSpans;
    forall k: nat
      ensures BitOf(VariableMask(fields), k) <==> exists i :: 0 <= i < |fields| && Describes(fields[i], k)
      ensures BitOf(And(Not(mask), 0xFFFF), k) <==> k < 16 && !BitOf(mask, k)
      ensures (exists i :: 0 <= i < |fields| && Describes(fields[i], k)) ==> k < 16 && !BitOf(mask, k)
    {
      VariableBit(fields, k);
      OutsideBit(mask, k);
      DescribedBelow(fields, k);
    }
    if AllDescribed(mask, fields) { SameBits(VariableMask(fields), And(Not(mask), 0xFFFF)); }
  }

  lemma DescribedBelow(fields: seq<Field>, k: nat)
    requires ValidSpans(fields)
    ensures forall i :: 0 <= i < |fields| && Describes(fields[i], k) ==> k < 16
  {
    forall i | 0 <= i < |fields| && Describes(fields[i], k)
      ensures k < 16
    {
      assert ValidSpan(fields[i]);
    }
  }

  lemma OutsideBit(mask: int, k: nat)
    ensures BitOf(And(Not(mask), 0xFFFF), k) <==> k < 16 && !BitOf(mask, k)
  {
    Pow2Table();
    hide BitOf, Bitwise, Pow2;
    BitwiseAt(AndOp, Not(mask), 0xFFFF, k);
    ComplementAt(mask, k);
    OnesBit(16, k);
  }

  /** The mask arithmetic of the validator accepts exactly the tilings. */
  lemma EncodingTiles(e: Entry)
    ensures ValidEncoding(e) <==> Tiled(e)
  {
    hide BitOf, Bitwise, VariableMask, DisjointFields, FieldsApart, AllDescribed, Inside;
    NotInside(e.bits, e.mask);
    if ValidSpans(e.fields) {
      DisjointIsApart(e.mask, e.fields);
      if FieldsApart(e.mask, e.fields) && 0 <= e.mask <= 0xFFFF { CoverIsAll(e.mask, e.fields); }
    }
  }

  /** A mask/match pattern that asks for no bit outside its mask. */
  ghost predicate PatternFits(p: Pattern)
  {
    0 <= p.mask <= 0xFFFF && 0 <= p.bits <= 0xFFFF && Inside(p.bits, p.mask)
  }

  /** An envelope looks only at bits the entry fixes, and asks of them what the
      entry asks. */
  ghost predicate EnvelopeFits(e: Entry, p: Pattern)
  {
    && PatternFits(p) && Inside(p.mask, e.mask)
    && forall k: nat :: BitOf(p.mask, k) ==> (BitOf(p.bits, k) <==> BitOf(e.bits, k))
  }

  ghost predicate ValuesFit(f: Field)
  {
    f.legalValues.Some? ==>
      var values := f.legalValues.value;
      && |values| > 0
      && (forall i, j :: 0 <= i < j < |values| ==> values[i] != values[j])
      && forall i :: 0 <= i < |values| ==> 0 <= values[i] && forall k: nat :: BitOf(values[i], k) ==> k < f.width
  }

  ghost predicate EntryFits(e: Entry)
  {
    && Tiled(e) && e.cycles > 0
    && (forall i :: 0 <= i < |e.fields| ==> ValuesFit(e.fields[i]))
    && (forall i :: 0 <= i < |e.constraints| ==>
          PatternFits(e.constraints[i].when) && PatternFits(e.constraints[i].pattern))
    && (e.envelope.Some? ==> EnvelopeFits(e, e.envelope.value))
  }

  lemma PatternIs(p: Pattern)
    ensures ValidPattern(p) <==> PatternFits(p)
  {
    hide Inside;
    NotInside(p.bits, p.mask);
  }

  lemma EnvelopeIs(e: Entry, p: Pattern)
    ensures ValidEnvelope(e, p) <==> EnvelopeFits(e, p)
  {
    hide BitOf, Bitwise, ValidPattern, PatternFits;
    PatternIs(p);
    NotInside(p.mask, e.mask);
    if PatternFits(p) { SameUnderMask(e.bits, p); }
  }

  lemma SameUnderMask(bits: int, p: Pattern)
    requires PatternFits(p)
    ensures And(bits, p.mask) == p.bits
       <==> forall k: nat :: BitOf(p.mask, k) ==> (BitOf(p.bits, k) <==> BitOf(bits, k))
  {
    hide BitOf, Bitwise;
    forall k: nat
      ensures BitOf(And(bits, p.mask), k) <==> BitOf(bits, k) && BitOf(p.mask, k)
    {
      BitwiseAt(AndOp, bits, p.mask, k);
    }
    if forall k: nat :: BitOf(p.mask, k) ==> (BitOf(p.bits, k) <==> BitOf(bits, k)) {
      SameBits(And(bits, p.mask), p.bits);
    }
  }

  lemma ValuesAre(f: Field)
    requires ValidSpan(f)
    ensures ValidLegalValues(f) <==> ValuesFit(f)
  {
    hide BitOf, Pow2;
    if f.legalValues.Some? {
      var values := f.legalValues.value;
      forall i | 0 <= i < |values| && 0 <= values[i]
        ensures values[i] < Pow2(f.width) <==> forall k: nat :: BitOf(values[i], k) ==> k < f.width
      {
        BitsBelow(values[i], f.width);
      }
    }
  }

  lemma {:induction false} BitsBelow(x: int, n: nat)
    requires x >= 0
    ensures x < Pow2(n) <==> forall k: nat :: BitOf(x, k) ==> k < n
  {
    hide BitOf, Bitwise;
    if x < Pow2(n) {
      forall k: nat | BitOf(x, k)
        ensures k < n
      {
        if k >= n { AboveBits(x, n, k); }
      }
    } else {
      SomeHighBit(x, n);
    }
  }

  lemma {:induction false} SomeHighBit(x: int, n: nat)
    requires x >= Pow2(n)
    ensures exists k: nat :: k >= n && BitOf(x, k)
    decreases x
  {
    hide BitOf;
    LowBit(x);
    if n > 0 {
      SomeHighBit(x / 2, n - 1);
      var k: nat :| k >= n - 1 && BitOf(x / 2, k);
      HalfBit(x, k + 1);
      assert BitOf(x, k + 1);
    } else if x > 1 {
      assert Pow2(0) == 1;
      SomeHighBit(x / 2, 0);
      var k: nat :| k >= 0 && BitOf(x / 2, k);
      HalfBit(x, k + 1);
      assert BitOf(x, k + 1);
    } else {
      assert Pow2(0) == 1 && BitOf(x, 0);
    }
  }

  /** All checks on an entry, position by position: the validator accepts exactly
      the entries whose bits are tiled, whose listed values fit their fields, whose
      constraint patterns stay inside their masks, whose envelope is wider than and
      consistent with the opcode, and that take at least one cycle. */
  lemma EntryFitsExactly(e: Entry)
    ensures ValidEntry(e) <==> EntryFits(e)
  {
    hide ValidEncoding, Tiled, ValidPattern, PatternFits, ValidEnvelope, EnvelopeFits, ValidLegalValues, ValuesFit;
    EncodingTiles(e);
    if ValidEncoding(e) {
      SpansHold(e);
      forall i | 0 <= i < |e.fields|
        ensures ValidLegalValues(e.fields[i]) <==> ValuesFit(e.fields[i])
      {
        ValuesAre(e.fields[i]);
      }
    }
    forall i | 0 <= i < |e.constraints|
      ensures ValidConstraint(e.constraints[i])
         <==> PatternFits(e.constraints[i].when) && PatternFits(e.constraints[i].pattern)
    {
      PatternIs(e.constraints[i].when);
      PatternIs(e.constraints[i].pattern);
    }
    if e.envelope.Some? { EnvelopeIs(e, e.envelope.value); }
  }

  lemma SpansHold(e: Entry)
    requires ValidEncoding(e)
    ensures ValidSpans(e.fields)
  {
  }
}
