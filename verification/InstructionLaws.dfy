/** What each instruction does to the state, in integers and bits: the signed
    values sums and loads leave, the bits of the logical operations, the cells
    stores fill, the counters, the status and the branches. Each law is about the
    state before and after an instruction that retires. */
module InstructionLaws {
  import opened Bits
  import opened Arithmetic
  import opened Isa
  import opened Semantics

  /** The registers after an instruction, one by one. */
  lemma RetireParts(s: State, i: Instruction)
    requires Executable(s, i)
    ensures var r, w := Retire(s, i), Operand(s, i);
            && r.acc == NextAcc(s, i, w) && r.p == NextP(s, i, w) && r.t == NextT(s, i, w)
            && r.ar == NextAr(s, i, w) && r.stack == NextStack(s, i) && r.status == NextStatus(s, i, w)
            && r.pc == NextPc(s, i)
  {
    hide NextAcc, NextP, NextT, NextAr, NextStack, NextStatus, NextPc, Advance, StoreIn, DataWrite;
    hide ProgramWrite, IoWrite, Operand, TrapOf;
  }

  lemma RetireCells(s: State, i: Instruction)
    requires Executable(s, i)
    ensures var r := Retire(s, i);
            && r.data == StoreIn(s.data, DataWrite(s, i)) && r.program == StoreIn(s.program, ProgramWrite(s, i))
            && r.ioOutput == StoreIn(s.ioOutput, IoWrite(s, i))
            && r.ioInput == s.ioInput && r.bioHigh == s.bioHigh && r.interruptHigh == s.interruptHigh
            && r.pending == s.pending
  {
    hide NextAcc, NextP, NextT, NextAr, NextStack, NextStatus, NextPc, Advance, StoreIn, DataWrite;
    hide ProgramWrite, IoWrite, Operand, TrapOf;
  }

  lemma Widths(s: State)
    requires WellFormed(s)
    ensures IsAcc(s.acc) && IsAcc(s.p) && IsWord(s.t) && |s.ar| == 2 && |s.stack| == 4
    ensures IsWord(s.ar[0]) && IsWord(s.ar[1]) && |s.data| == 144 && |s.program| == 4096
    ensures 0 <= s.status.arp <= 1 && 0 <= s.status.dp <= 1 && 0 <= s.pc < 4096
  {
  }

  /** The two readings of patterns: in range, and the pattern modulo its width. */
  lemma SignedReadings(x: int)
    ensures IsWord(x) ==> -0x8000 <= Signed16(x) < 0x8000 && Signed16(x) % 0x1_0000 == x
    ensures IsAcc(x) ==> -0x8000_0000 <= Signed32(x) < 0x8000_0000 && Signed32(x) % 0x1_0000_0000 == x
  {
  }

  // ---------------------------------------------------------------- operands

  /** The instructions with a data operand. */
  lemma OperandInstructions(m: Mnemonic)
    ensures AccessesData(m) <==>
              m in {ADD, ADDH, ADDS, AND, DMOV, IN, LAC, LAR, LDP, LST, LT, LTA, LTD, MPY, OR, OUT, SACL, SACH,
                    SAR, SST, SUB, SUBC, SUBH, SUBS, TBLR, TBLW, XOR, ZALH, ZALS}
  {
  }

  /** The address of a data operand: the field on the current page, always page
      one for a direct SST, or the low byte of the selected counter. */
  lemma OperandAddress(s: State, i: Instruction)
    requires Executable(s, i) && AccessesData(i.mnemonic)
    ensures HasAddress(i.operands)
    ensures var a := EffectiveAddress(s, i);
            && 0 <= a < 144 && Operand(s, i) == s.data[a]
            && (!i.operands.indirect ==>
                  a == (if i.mnemonic.SST? || s.status.dp == 1 then 128 else 0) + i.operands.field)
            && (i.operands.indirect ==> a < 256 && (s.ar[s.status.arp] - a) % 256 == 0)
  {
    OperandBounds(s, i);
    Widths(s);
    if i.operands.indirect { LowByte(s.ar[s.status.arp]); }
  }

  lemma LowByte(value: int)
    ensures 0 <= value % 256 < 256 && (value - value % 256) % 256 == 0
  {
  }

  // ------------------------------------------------------------- accumulator

  lemma Scaled(x: int, shift: nat)
    requires -0x8000 <= x < 0x8000 && shift < 16
    ensures -0x4000_0000 <= x * Pow2(shift) < 0x4000_0000
  {
    Pow2Bound(shift);
    ScaledBy(x, Pow2(shift));
  }

  lemma {:induction false} Pow2Bound(k: nat)
    requires k < 16
    ensures 1 <= Pow2(k) <= 0x8000
  {
    Pow2Table();
    hide Pow2;
    if k < 15 { Pow2Add(k, 15 - k); FactorBound(Pow2(k), Pow2(15 - k)); }
  }

  lemma FactorBound(a: int, b: int)
    requires a >= 1 && b >= 1 && a * b == 0x8000
    ensures a <= 0x8000
  {
    assert a * b >= a * 1;
  }

  lemma ScaledBy(x: int, p: int)
    requires -0x8000 <= x < 0x8000 && 1 <= p <= 0x8000
    ensures -0x4000_0000 <= x * p < 0x4000_0000
  {
    if x >= 0 {
      BoundedProduct(x, p, 0x7FFF, 0x8000);
    } else {
      BoundedProduct(-x, p, 0x8000, 0x8000);
      assert x * p == -((-x) * p);
    }
  }

  lemma ShiftedMeans(w: int, shift: nat)
    requires IsWord(w) && shift < 16
    ensures Signed32(ShiftedWord(w, shift)) == Signed16(w) * Pow2(shift)
  {
    hide Pow2, Signed32;
    SignedReadings(w);
    Scaled(Signed16(w), shift);
    WrappedReads(Signed16(w) * Pow2(shift));
  }

  /** The instructions that load the accumulator. */
  lemma LoadsMean(s: State, i: Instruction)
    requires Executable(s, i)
    ensures var r, w := Retire(s, i), Operand(s, i);
            && (i.mnemonic.LAC? ==>
                  0 <= i.operands.shift < 16 && Signed32(r.acc) == Signed16(w) * Pow2(i.operands.shift))
            && (i.mnemonic.LACK? ==> r.acc == i.operands.constant && 0 <= r.acc < 256)
            && (i.mnemonic.ZALH? ==> Signed32(r.acc) == Signed16(w) * 0x1_0000)
            && (i.mnemonic.ZALS? ==> Signed32(r.acc) == w)
            && (i.mnemonic.ZAC? ==> r.acc == 0)
            && (i.mnemonic.PAC? ==> r.acc == s.p)
            && (i.mnemonic.POP? ==> r.acc == s.stack[0])
  {
    hide ShiftedWord, Retire, Operand, TrapOf, EffectiveAddress, WellFormed, DivideStep, And, Or, Xor, Pow2;
    RetireParts(s, i);
    if i.mnemonic.LAC? { ShiftedMeans(Operand(s, i), i.operands.shift); }
  }

  /** The integer a sum adds to the signed accumulator; None for other
      instructions. The high and the low variants do and do not extend the sign. */
  function Addend(s: State, i: Instruction, w: int): Option<int>
    requires Legal(i)
  {
    match i.mnemonic
    case ADD => Some(Signed16(w) * Pow2(i.operands.shift))
    case SUB => Some(-(Signed16(w) * Pow2(i.operands.shift)))
    case ADDS => Some(w)
    case SUBS => Some(-w)
    case SUBH => Some(-(Signed16(w) * 0x1_0000))
    case APAC | LTA | LTD => Some(Signed32(s.p))
    case SPAC => Some(-Signed32(s.p))
    case _ => None
  }

  /** Adding an integer under the overflow rules of the machine. */
  predicate AddsUnderOverflow(before: State, after: State, amount: int)
  {
    var exact := Signed32(before.acc) + amount;
    && (Fits32(exact) ==> Signed32(after.acc) == exact && after.status.ov == before.status.ov)
    && (!Fits32(exact) ==>
          && after.status.ov
          && Signed32(after.acc) == if before.status.ovm then (if exact < 0 then -0x8000_0000 else 0x7FFF_FFFF)
                                    else if exact < 0 then exact + 0x1_0000_0000 else exact - 0x1_0000_0000)
  }

  /** Every sum and difference: the exact integer when it fits, otherwise OV and
      the clamped or the wrapped value. */
  lemma SumsMean(s: State, i: Instruction)
    requires Executable(s, i) && Addend(s, i, Operand(s, i)).Some?
    ensures AddsUnderOverflow(s, Retire(s, i), Addend(s, i, Operand(s, i)).value)
  {
    hide Retire, Operand, TrapOf, EffectiveAddress, WellFormed, Addend, Signed32, Signed16, Stored, Fits32;
    RetireParts(s, i);
    Widths(s);
    SumIsAddend(s, i, Operand(s, i));
    var op := AccOpOf(s, i, Operand(s, i)).value;
    StoredMeaning(s.acc, op, s.status.ovm);
    ExactIsSum(s.acc, op);
    SumParts(s, i, Operand(s, i));
  }

  lemma SumIsAddend(s: State, i: Instruction, w: int)
    requires WellFormed(s) && Legal(i) && IsWord(w) && Addend(s, i, w).Some?
    ensures AccOpOf(s, i, w).Some? && IsAcc(AccOpOf(s, i, w).value.value)
    ensures SignedDelta(AccOpOf(s, i, w).value) == Addend(s, i, w).value
  {
    hide ShiftedWord, Pow2;
    if i.mnemonic.ADD? || i.mnemonic.SUB? { ShiftedMeans(w, i.operands.shift); }
  }

  lemma SumParts(s: State, i: Instruction, w: int)
    requires WellFormed(s) && Legal(i) && AccOpOf(s, i, w).Some?
    ensures var op := AccOpOf(s, i, w).value;
            && NextAcc(s, i, w) == Stored(Exact(s.acc, op), s.status.ovm)
            && NextStatus(s, i, w).ov == (s.status.ov || !Fits32(Exact(s.acc, op)))
  {
    hide AccOpOf, Stored, Exact, Fits32, WellFormed;
  }

  /** ADDH adds to the high half alone, without touching OV. */
  lemma AddhMeans(s: State, i: Instruction)
    requires Executable(s, i) && i.mnemonic.ADDH?
    ensures var r, w := Retire(s, i), Operand(s, i);
            && r.acc % 0x1_0000 == s.acc % 0x1_0000 && IsAcc(r.acc)
            && (r.acc - s.acc - w * 0x1_0000) % 0x1_0000_0000 == 0 && r.status.ov == s.status.ov
  {
    hide Retire, Operand, TrapOf, EffectiveAddress, WellFormed;
    RetireParts(s, i);
    Widths(s);
    var w := Operand(s, i);
    HighSum(s.acc / 0x1_0000, s.acc % 0x1_0000, w);
  }

  lemma HighSum(high: int, low: int, w: int)
    requires IsWord(high) && IsWord(low) && IsWord(w)
    ensures var sum := (high + w) % 0x1_0000 * 0x1_0000 + low;
            && sum % 0x1_0000 == low && IsAcc(sum)
            && (sum - (high * 0x1_0000 + low) - w * 0x1_0000) % 0x1_0000_0000 == 0
  {
    var carry := if high + w < 0x1_0000 then 0 else 1;
    assert (high + w) % 0x1_0000 == high + w - carry * 0x1_0000;
  }

  /** The logical operations bit by bit: AND clears the high half, OR and XOR keep
      it. */
  lemma LogicMeans(s: State, i: Instruction, k: nat)
    requires Executable(s, i) && k < 32 && (i.mnemonic.AND? || i.mnemonic.OR? || i.mnemonic.XOR?)
    ensures IsAcc(Retire(s, i).acc)
    ensures var a, b, r := BitOf(s.acc, k), BitOf(Operand(s, i), k), BitOf(Retire(s, i).acc, k);
            && (k >= 16 ==> !b)
            && (i.mnemonic.AND? ==> (r <==> a && b))
            && (i.mnemonic.OR? ==> (r <==> a || b))
            && (i.mnemonic.XOR? ==> (r <==> a != b))
  {
    hide Retire, Operand, TrapOf, EffectiveAddress, WellFormed, BitOf, Bitwise, NextAcc, Pow2;
    Pow2Table();
    RetireParts(s, i);
    Widths(s);
    NextAccWidth(s, i);
    var w := Operand(s, i);
    LogicIs(s, i, w);
    if k >= 16 { AboveBits(w, 16, k); }
    if i.mnemonic.AND? {
      BitwiseAt(AndOp, s.acc, w, k);
    } else if i.mnemonic.OR? {
      BitwiseAt(OrOp, s.acc, w, k);
    } else {
      BitwiseAt(XorOp, s.acc, w, k);
    }
  }

  /** On the whole accumulator the three operations are the plain ones. */
  lemma LogicIs(s: State, i: Instruction, w: int)
    requires WellFormed(s) && Legal(i) && IsWord(w)
    ensures i.mnemonic.AND? ==> NextAcc(s, i, w) == And(s.acc, w)
    ensures i.mnemonic.OR? ==> NextAcc(s, i, w) == Or(s.acc, w)
    ensures i.mnemonic.XOR? ==> NextAcc(s, i, w) == Xor(s.acc, w)
  {
    hide Bitwise, WellFormed, Pow2;
    Pow2Table();
    AndLowPart(s.acc, w, 16);
    Split(XorOp, s.acc / 0x1_0000, s.acc % 0x1_0000, 0, w, 16);
    XorZero(s.acc / 0x1_0000);
  }

  lemma {:induction false} XorZero(a: int)
    ensures Xor(a, 0) == a
    decreases Magnitude(a)
  {
    if Magnitude(a) > 0 { XorZero(a / 2); }
  }

  /** The magnitude of the accumulator; -2^31 has none and stays, or is clamped in
      overflow mode. OV is kept. */
  lemma AbsMeans(s: State, i: Instruction)
    requires Executable(s, i) && i.mnemonic.ABS?
    ensures var a, r := Signed32(s.acc), Retire(s, i);
            && r.status.ov == s.status.ov
            && Signed32(r.acc) == if a >= 0 then a else if a > -0x8000_0000 then -a
                                  else if s.status.ovm then 0x7FFF_FFFF else a
  {
    hide Retire, Operand, TrapOf, WellFormed;
    RetireParts(s, i);
    Widths(s);
  }

  /** The multiplier: the signed product, except that -32768 by -32768 comes out
      with the sign reversed. */
  lemma MultiplyMeans(s: State, i: Instruction)
    requires Executable(s, i) && (i.mnemonic.MPY? || i.mnemonic.MPYK?)
    ensures var r, w := Retire(s, i), Operand(s, i);
            && IsAcc(r.p)
            && (i.mnemonic.MPY? && !(s.t == 0x8000 && w == 0x8000) ==> Signed32(r.p) == Signed16(s.t) * Signed16(w))
            && (i.mnemonic.MPY? && s.t == 0x8000 && w == 0x8000 ==> Signed32(r.p) == -0x4000_0000)
            && (i.mnemonic.MPYK? ==> Signed32(r.p) == Signed16(s.t) * i.operands.constant)
  {
    hide Retire, Operand, TrapOf, EffectiveAddress, WellFormed, Signed16, Signed32, NextAcc, NextAr, NextStatus;
    RetireParts(s, i);
    Widths(s);
    SignedReadings(s.t);
    if i.mnemonic.MPY? {
      ProductReads(s.t, Operand(s, i));
    } else {
      ProductBound(Signed16(s.t), i.operands.constant);
      WrappedReads(Signed16(s.t) * i.operands.constant);
    }
  }

  lemma ProductReads(t: int, w: int)
    requires IsWord(t) && IsWord(w)
    ensures IsAcc(Product(t, w))
    ensures Signed32(Product(t, w)) == if t == 0x8000 && w == 0x8000 then -0x4000_0000 else Signed16(t) * Signed16(w)
  {
    hide Signed16;
    SignedReadings(t);
    SignedReadings(w);
    ProductBound(Signed16(t), Signed16(w));
    WrappedReads(Signed16(t) * Signed16(w));
  }

  /** A wrapped number that fits reads back. */
  lemma WrappedReads(v: int)
    ensures IsAcc(v % 0x1_0000_0000) && (Fits32(v) ==> Signed32(v % 0x1_0000_0000) == v)
  {
  }

  /** T takes the operand of LT, LTA and LTD. */
  lemma FactorMeans(s: State, i: Instruction)
    requires Executable(s, i)
    ensures Retire(s, i).t == if i.mnemonic in {LT, LTA, LTD} then Operand(s, i) else s.t
  {
    hide Retire, Operand, TrapOf, WellFormed;
    RetireParts(s, i);
  }

  /** The divide step on every input: with the divisor at bit 15, subtract it and
      shift a one in when the 32-bit difference is not negative, else shift a zero
      in; OV records a difference that leaves the signed range. */
  lemma SubcMeans(s: State, i: Instruction)
    requires Executable(s, i) && i.mnemonic.SUBC?
    ensures var r, w := Retire(s, i), Operand(s, i);
            var difference := Signed32(s.acc) - w * 0x8000;
            var reduced := if Fits32(difference) then difference else difference + 0x1_0000_0000;
            && Fits32(reduced) && IsAcc(r.acc)
            && (reduced >= 0 ==> r.acc == 2 * reduced + 1)
            && (reduced < 0 ==> (r.acc - 2 * s.acc) % 0x1_0000_0000 == 0)
            && (r.status.ov <==> s.status.ov || !Fits32(difference))
  {
    hide Retire, Operand, TrapOf, EffectiveAddress, WellFormed, NextP, NextAr, DivideStep, DivideOverflows;
    RetireParts(s, i);
    Widths(s);
    DivideParts(s, i, Operand(s, i));
    StepMeans(s.acc, Operand(s, i));
  }

  lemma DivideParts(s: State, i: Instruction, w: int)
    requires WellFormed(s) && Legal(i) && i.mnemonic.SUBC?
    ensures NextAcc(s, i, w) == DivideStep(s.acc, w)
    ensures NextStatus(s, i, w).ov == (s.status.ov || DivideOverflows(s.acc, w))
  {
    hide DivideStep, DivideOverflows;
  }

  lemma StepMeans(acc: int, w: int)
    requires IsAcc(acc) && IsWord(w)
    ensures var difference := Signed32(acc) - w * 0x8000;
            var reduced := if Fits32(difference) then difference else difference + 0x1_0000_0000;
            && Fits32(reduced) && IsAcc(DivideStep(acc, w))
            && (reduced >= 0 ==> DivideStep(acc, w) == 2 * reduced + 1)
            && (reduced < 0 ==> (DivideStep(acc, w) - 2 * acc) % 0x1_0000_0000 == 0)
            && (DivideOverflows(acc, w) <==> !Fits32(difference))
  {
    var low := (acc - w * 0x8000) % 0x1_0000_0000;
    var difference := Signed32(acc) - w * 0x8000;
    var reduced := if Fits32(difference) then difference else difference + 0x1_0000_0000;
    assert low == if reduced >= 0 then reduced else reduced + 0x1_0000_0000;
  }
}
