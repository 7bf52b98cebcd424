/** The rest of an instruction's effect: memories, counters, status, program
    counter and stack, what no instruction but the named ones changes, the bus
    cycles of the log, and reset. */
module StateLaws {
  import opened Bits
  import opened Arithmetic
  import opened Isa
  import opened Semantics
  import opened InstructionLaws

  // ---------------------------------------------------------------- memories

  /** The word SST stores: each status bit in its place, ones in all others. */
  predicate HoldsStatus(word: int, status: Status)
  {
    && IsWord(word)
    && (word / 0x8000 == 1 <==> status.ov) && (word / 0x4000 % 2 == 1 <==> status.ovm)
    && (word / 0x2000 % 2 == 1 <==> status.intm) && word / 0x200 % 16 == 15
    && word / 0x100 % 2 == status.arp && word / 2 % 128 == 127 && word % 2 == status.dp
  }

  lemma StatusWordHolds(status: Status)
    requires 0 <= status.arp <= 1 && 0 <= status.dp <= 1
    ensures HoldsStatus(StatusWord(status), status)
  {
    var ov, ovm, intm := if status.ov then 1 else 0, if status.ovm then 1 else 0, if status.intm then 1 else 0;
    var low := 0x1EFE + status.arp * 0x100 + status.dp;
    hide HoldsStatus, StatusWord;
    StatusSum(status, ov, ovm, intm);
    HighFields(ov, ovm, intm, low);
    LowFields(ov * 4 + ovm * 2 + intm, status.arp, status.dp);
    FieldsHold(StatusWord(status), status, ov, ovm, intm);
  }

  lemma StatusSum(status: Status, ov: int, ovm: int, intm: int)
    requires 0 <= status.arp <= 1 && 0 <= status.dp <= 1
    requires ov == (if status.ov then 1 else 0) && ovm == (if status.ovm then 1 else 0)
    requires intm == (if status.intm then 1 else 0)
    ensures StatusWord(status) == (ov * 4 + ovm * 2 + intm) * 0x2000 + (0x1EFE + status.arp * 0x100 + status.dp)
    ensures IsWord(StatusWord(status))
  {
  }

  lemma FieldsHold(word: int, status: Status, ov: int, ovm: int, intm: int)
    requires IsWord(word)
    requires ov == (if status.ov then 1 else 0) && ovm == (if status.ovm then 1 else 0)
    requires intm == (if status.intm then 1 else 0)
    requires word / 0x8000 == ov && word / 0x4000 % 2 == ovm && word / 0x2000 % 2 == intm
    requires word / 0x200 % 16 == 15 && word / 0x100 % 2 == status.arp
    requires word / 2 % 128 == 127 && word % 2 == status.dp
    ensures HoldsStatus(word, status)
  {
  }

  lemma HighFields(ov: int, ovm: int, intm: int, low: int)
    requires 0 <= ov <= 1 && 0 <= ovm <= 1 && 0 <= intm <= 1 && 0 <= low < 0x2000
    ensures var word := (ov * 4 + ovm * 2 + intm) * 0x2000 + low;
            word / 0x8000 == ov && word / 0x4000 % 2 == ovm && word / 0x2000 % 2 == intm
  {
    var word := (ov * 4 + ovm * 2 + intm) * 0x2000 + low;
    DivUnique(word, 0x2000, ov * 4 + ovm * 2 + intm, low);
    DivUnique(word, 0x4000, ov * 2 + ovm, intm * 0x2000 + low);
    DivUnique(word, 0x8000, ov, ovm * 0x4000 + intm * 0x2000 + low);
  }

  lemma LowFields(top: int, arp: int, dp: int)
    requires 0 <= arp <= 1 && 0 <= dp <= 1
    ensures var word := top * 0x2000 + (0x1EFE + arp * 0x100 + dp);
            word / 0x200 % 16 == 15 && word / 0x100 % 2 == arp && word / 2 % 128 == 127 && word % 2 == dp
  {
    var word := top * 0x2000 + (0x1EFE + arp * 0x100 + dp);
    DivUnique(word, 0x200, top * 16 + 15, arp * 0x100 + 0xFE + dp);
    DivUnique(word, 0x100, top * 32 + 30 + arp, 0xFE + dp);
    DivUnique(word, 2, top * 0x1000 + 0xF7F + arp * 0x80, dp);
    DivUnique(top * 16 + 15, 16, top, 15);
    DivUnique(top * 32 + 30 + arp, 2, top * 16 + 15, arp);
    DivUnique(top * 0x1000 + 0xF7F + arp * 0x80, 128, top * 32 + 30 + arp, 127);
  }

  lemma HighHalfIs(acc: int, shift: nat)
    requires IsAcc(acc) && (shift == 0 || shift == 1 || shift == 4)
    ensures HighHalf(acc, shift) == acc / Pow2(16 - shift) % 0x1_0000
  {
    Pow2Table();
    hide Pow2;
    if shift == 0 { } else if shift == 1 { HighHalfBy(acc, 2, 0x8000); } else { HighHalfBy(acc, 16, 0x1000); }
  }

  lemma HighHalfBy(acc: int, up: int, down: int)
    requires IsAcc(acc) && ((up == 2 && down == 0x8000) || (up == 16 && down == 0x1000))
    ensures acc * up % 0x1_0000_0000 / 0x1_0000 == acc / down % 0x1_0000
  {
    var q, r := acc / down, acc % down;
    var h, l := q / 0x1_0000, q % 0x1_0000;
    DivUnique(acc * up, 0x1_0000_0000, h, l * 0x1_0000 + r * up);
    DivUnique(l * 0x1_0000 + r * up, 0x1_0000, l, r * up);
  }

  /** Every store: the cell it fills and the value, with all other cells of the
      three memories kept. */
  lemma StoresMean(s: State, i: Instruction)
    requires Executable(s, i) && AccessesData(i.mnemonic)
    ensures HasAddress(i.operands) && WellFormed(Retire(s, i))
    ensures var r, a, w := Retire(s, i), EffectiveAddress(s, i), Operand(s, i);
            && 0 <= a < 144 && w == s.data[a]
            && match i.mnemonic
               case SACL => r.data == s.data[a := s.acc % 0x1_0000]
               case SACH => r.data == s.data[a := s.acc / Pow2(16 - i.operands.shift) % 0x1_0000]
               case SAR => r.data == s.data[a := r.ar[i.operands.register]]
               case SST => HoldsStatus(r.data[a], s.status) && r.data == s.data[a := r.data[a]]
               case DMOV => a + 1 < 144 && r.data == s.data[a + 1 := w]
               case LTD => a + 1 < 144 && r.data == s.data[a + 1 := w]
               case IN => r.data == s.data[a := s.ioInput[i.operands.port] % 0x1_0000]
               case TBLR => r.data == s.data[a := s.program[s.acc % 4096]]
               case _ => r.data == s.data
    ensures Retire(s, i).program == if i.mnemonic.TBLW? then s.program[s.acc % 4096 := Operand(s, i)] else s.program
    ensures Retire(s, i).ioOutput
         == if i.mnemonic.OUT? then s.ioOutput[i.operands.port := Operand(s, i)] else s.ioOutput
  {
    hide Retire, TrapOf, EffectiveAddress, WellFormed, Operand, HoldsStatus, StatusWord, Pow2, HighHalf;
    hide StoredRegister;
    RetireKeepsWidths(s, i);
    RetireCells(s, i);
    OperandBounds(s, i);
    Widths(s);
    Memories(s);
    if i.mnemonic.SACH? { HighHalfIs(s.acc, i.operands.shift); }
    if i.mnemonic.SST? { StatusWordHolds(s.status); }
    if i.mnemonic.SAR? { StoredIsKept(s, i); }
  }

  lemma Memories(s: State)
    requires WellFormed(s)
    ensures |s.data| == 144 && |s.program| == 4096 && |s.ioInput| == 8 && |s.ioOutput| == 8
    ensures 0 <= s.acc % 4096 < 4096
  {
  }

  /** SAR stores the value its register holds afterwards. */
  lemma StoredIsKept(s: State, i: Instruction)
    requires Executable(s, i) && i.mnemonic.SAR?
    ensures |Retire(s, i).ar| == 2 && StoredRegister(s, i) == Retire(s, i).ar[i.operands.register]
  {
    hide Retire, TrapOf, EffectiveAddress, Operand, Moved, CounterDelta;
    RetireParts(s, i);
    Widths(s);
    SameCount(s.ar[s.status.arp]);
  }

  lemma SameCount(value: int)
    ensures Moved(value, 0) == value
  {
  }

  /** Instructions without a data operand leave all memories alone. */
  lemma NothingStored(s: State, i: Instruction)
    requires Executable(s, i) && !AccessesData(i.mnemonic)
    ensures Retire(s, i).data == s.data && Retire(s, i).program == s.program && Retire(s, i).ioOutput == s.ioOutput
  {
    hide Retire, TrapOf, Operand;
    RetireCells(s, i);
  }

  // ---------------------------------------------------------------- counters

  /** The low nine bits moved by d, the upper seven kept. */
  predicate Counted(before: int, after: int, d: int)
  {
    after / 512 == before / 512 && (after - before - d) % 512 == 0
  }

  lemma MovedCounts(value: int, d: int)
    ensures Counted(value, Moved(value, d), d)
  {
    if d != 0 {
      var q, r := value / 512, (value + d) % 512;
      DivUnique(q * 512 + r, 512, q, r);
      assert value + d - r == 512 * ((value + d) / 512);
      assert Moved(value, d) - value - d == 512 * (q - (value + d) / 512);
    }
  }

  /** What an indirect control asks of the selected counter: bit 5 counts up, else
      bit 4 down. */
  function Asked(o: Operands): int
    requires HasAddress(o)
  {
    if !o.indirect then 0 else if o.field / 32 % 2 == 1 then 1 else if o.field / 16 % 2 == 1 then -1 else 0
  }

  lemma AskedIsDelta(o: Operands)
    requires HasAddress(o) && o.indirect
    ensures CounterDelta(o.field) == Asked(o)
  {
    Pow2Table();
    hide Pow2;
  }

  /** Both counters after every instruction: the named loads, BANZ, and the update
      an indirect operand asks of the selected counter, which LAR into that very
      counter suppresses. */
  lemma CountersMean(s: State, i: Instruction)
    requires Executable(s, i)
    ensures |Retire(s, i).ar| == |s.ar| == 2 && 0 <= s.status.arp <= 1
    ensures var r, selected := Retire(s, i), s.status.arp;
            match i.mnemonic
            case LARK => r.ar == s.ar[i.operands.register := i.operands.constant]
            case LAR =>
              && r.ar[i.operands.register] == Operand(s, i)
              && Counted(s.ar[1 - i.operands.register], r.ar[1 - i.operands.register],
                         if selected == i.operands.register then 0 else Asked(i.operands))
            case BANZ => Counted(s.ar[selected], r.ar[selected], -1) && r.ar[1 - selected] == s.ar[1 - selected]
            case _ =>
              && r.ar[1 - selected] == s.ar[1 - selected]
              && Counted(s.ar[selected], r.ar[selected], if HasAddress(i.operands) then Asked(i.operands) else 0)
  {
    hide Retire, TrapOf, EffectiveAddress, Operand, Moved, CounterDelta, Counted, Asked;
    RetireParts(s, i);
    Widths(s);
    NotCounted(s.ar[0]);
    NotCounted(s.ar[1]);
    if i.mnemonic.BANZ? { MovedCounts(s.ar[s.status.arp], -1); }
    if HasAddress(i.operands) {
      Direct(i.operands);
      if i.operands.indirect {
        AskedIsDelta(i.operands);
        MovedCounts(s.ar[s.status.arp], Asked(i.operands));
      }
    }
  }

  lemma NotCounted(value: int)
    ensures Counted(value, value, 0)
  {
  }

  lemma Direct(o: Operands)
    requires HasAddress(o)
    ensures !o.indirect ==> Asked(o) == 0
  {
  }

  // ------------------------------------------------------------------ status

  /** The status after every instruction. OV is that of `SumsMean` for sums and of
      the divide step for SUBC. */
  lemma StatusMean(s: State, i: Instruction)
    requires Executable(s, i)
    ensures var r, w := Retire(s, i).status, Operand(s, i);
            && (i.mnemonic.BV? ==> !r.ov)
            && (i.mnemonic.LST? ==> (r.ov <==> w / 0x8000 == 1))
            && (i.mnemonic !in {ADD, ADDS, APAC, BV, LST, LTA, LTD, SPAC, SUB, SUBC, SUBH, SUBS} ==>
                  r.ov == s.status.ov)
            && (r.ovm <==> if i.mnemonic.SOVM? then true else if i.mnemonic.ROVM? then false
                           else if i.mnemonic.LST? then w / 0x4000 % 2 == 1 else s.status.ovm)
            && (r.intm <==> i.mnemonic.DINT? || (s.status.intm && !i.mnemonic.EINT?))
            && r.dp == (if i.mnemonic.LDPK? then i.operands.constant
                        else if i.mnemonic.LDP? || i.mnemonic.LST? then w % 2 else s.status.dp)
            && r.arp == (if i.mnemonic.LARP? then i.operands.constant
                         else if i.mnemonic.LST? then w / 0x100 % 2
                         else if HasAddress(i.operands) && i.operands.indirect && i.operands.field / 8 % 2 == 0
                         then i.operands.field % 2
                         else s.status.arp)
  {
    hide Retire, TrapOf, EffectiveAddress, Operand, WellFormed, Stored, Exact, DivideOverflows, Fits32;
    RetireParts(s, i);
    OvKept(s, i, Operand(s, i));
    NextArp(i);
  }

  lemma OvKept(s: State, i: Instruction, w: int)
    requires Legal(i) && IsWord(w)
    ensures i.mnemonic.BV? ==> !NextOv(s, i, w)
    ensures i.mnemonic.LST? ==> (NextOv(s, i, w) <==> w / 0x8000 == 1)
    ensures i.mnemonic !in {ADD, ADDS, APAC, BV, LST, LTA, LTD, SPAC, SUB, SUBC, SUBH, SUBS} ==>
              NextOv(s, i, w) == s.status.ov
  {
    hide Exact, DivideOverflows, Fits32, ShiftedWord;
  }

  lemma NextArp(i: Instruction)
    ensures IsIndirect(i) ==> (ControlBit(i.operands.field, 3) <==> i.operands.field / 8 % 2 == 1)
  {
    Pow2Table();
    hide Pow2;
  }

  // ------------------------------------------------------- program counter

  /** The condition of every branch. */
  predicate Condition(s: State, m: Mnemonic)
  {
    match m
    case BGEZ => s.acc < 0x8000_0000
    case BGZ => 0 < s.acc < 0x8000_0000
    case BLEZ => s.acc == 0 || s.acc >= 0x8000_0000
    case BLZ => s.acc >= 0x8000_0000
    case BNZ => s.acc != 0
    case BZ => s.acc == 0
    case BANZ => 0 <= s.status.arp < |s.ar| && s.ar[s.status.arp] % 512 != 0
    case BV => s.status.ov
    case BIOZ => !s.bioHigh
    case _ => m.B? || m.CALL?
  }

  /** Where the program continues: at the second word when the condition of a
      two-word instruction holds and two words on when not; CALA and RET go where
      they say; all others one word on, around the end of the memory. */
  lemma ContinuesMean(s: State, i: Instruction)
    requires Executable(s, i)
    ensures |s.program| == 4096 && 0 <= s.pc < 4096 && |s.stack| == 4
    ensures Retire(s, i).pc ==
              if i.mnemonic in {B, BANZ, BGEZ, BGZ, BIOZ, BLEZ, BLZ, BNZ, BV, BZ, CALL} then
                if Condition(s, i.mnemonic) then s.program[(s.pc + 1) % 4096] else (s.pc + 2) % 4096
              else if i.mnemonic.CALA? then s.acc % 4096
              else if i.mnemonic.RET? then s.stack[0]
              else (s.pc + 1) % 4096
  {
    hide Retire, TrapOf, EffectiveAddress, Operand, WellFormed, Condition, BranchTaken;
    RetireParts(s, i);
    Widths(s);
    if IsTwoWord(i.mnemonic) { ConditionIs(s, i.mnemonic); }
  }

  lemma ConditionIs(s: State, m: Mnemonic)
    requires WellFormed(s) && IsTwoWord(m)
    ensures Condition(s, m) <==> BranchTaken(s, m)
  {
    Widths(s);
    hide WellFormed;
  }

  /** The stack after every instruction, and what goes on it. */
  lemma StackMeans(s: State, i: Instruction)
    requires Executable(s, i)
    ensures |s.stack| == 4
    ensures Retire(s, i).stack == match i.mnemonic
              case CALL => [(s.pc + 2) % 4096] + s.stack[..3]
              case CALA => [(s.pc + 1) % 4096] + s.stack[..3]
              case PUSH => [s.acc % 4096] + s.stack[..3]
              case POP => s.stack[1..] + [s.stack[3]]
              case RET => s.stack[1..] + [s.stack[3]]
              case TBLR => s.stack[..3] + [s.stack[2]]
              case TBLW => s.stack[..3] + [s.stack[2]]
              case _ => s.stack
  {
    hide Retire, TrapOf, EffectiveAddress, Operand, WellFormed;
    RetireParts(s, i);
    Widths(s);
  }

  // ------------------------------------------------------------------- traps

  /** Every exception with what it reports: the second word of a two-word
      instruction that is no program address, or the first data address past the
      memory that the instruction would use. */
  lemma TrapsMean(s: State, i: Instruction)
    requires WellFormed(s) && Legal(i)
    ensures |s.program| == 4096 && 0 <= s.pc < 4096 && (AccessesData(i.mnemonic) ==> HasAddress(i.operands))
    ensures var opcode, next := s.program[s.pc], (s.pc + 1) % 4096;
            TrapOf(s, i) ==
              if IsTwoWord(i.mnemonic) then
                if s.program[next] < 4096 then None
                else Some(UnsupportedProgramOperand(s.pc, opcode, next, s.program[next]))
              else if !AccessesData(i.mnemonic) then None
              else
                var a := EffectiveAddress(s, i);
                if a > 143 then Some(UnsupportedDataAddress(s.pc, opcode, a))
                else if a == 143 && (i.mnemonic.DMOV? || i.mnemonic.LTD?)
                then Some(UnsupportedDataAddress(s.pc, opcode, 144))
                else None
  {
    hide EffectiveAddress, AllWords, AllAddresses;
  }

  // ------------------------------------------------------------------ frames

  /** What all instructions but the named ones leave alone. */
  lemma RegistersKept(s: State, i: Instruction)
    requires Executable(s, i)
    ensures || i.mnemonic in {ABS, ADD, ADDH, ADDS, AND, APAC, LAC, LACK, LTA, LTD, OR, PAC, POP, SPAC, SUB,
                              SUBC, SUBH, SUBS, XOR, ZAC, ZALH, ZALS}
            || Retire(s, i).acc == s.acc
    ensures i.mnemonic !in {MPY, MPYK} ==> Retire(s, i).p == s.p
    ensures var r := Retire(s, i);
            && r.ioInput == s.ioInput && r.bioHigh == s.bioHigh && r.interruptHigh == s.interruptHigh
            && r.pending == s.pending
  {
    hide Retire, TrapOf, EffectiveAddress, Operand, WellFormed, Stored, Exact, DivideStep, ShiftedWord;
    RetireParts(s, i);
    RetireCells(s, i);
  }

  /** A reset goes to address 0 with interrupts masked, forgets a request and its
      deferral, and keeps everything else; the next step fetches word 0. */
  lemma ResetMeans(s: State)
    requires WellFormed(s)
    ensures var r := ResetState(s);
            && WellFormed(r) && r.pc == 0 && r.status.intm && !r.pending && !r.delayOne && !r.entryPending
            && r.(pc := s.pc, status := s.status, pending := s.pending, delayOne := s.delayOne,
                  entryPending := s.entryPending) == s
            && r.status.(intm := s.status.intm) == s.status
            && (Step(r).Stepped? ==>
                  && Step(r).trace.pc == 0 && Step(r).trace.opcode == s.program[0]
                  && Step(r).trace.event.Executed?)
  {
    hide TrapOf, Retire, Log, DetailsOf, Decoder.Decode, AllWords, AllAddresses;
  }

  /** An interrupt entry stacks the program counter and goes to address 2 with
      interrupts masked, in one cycle; registers and memories stay. */
  lemma EntryMeans(s: State)
    requires WellFormed(s)
    ensures var r := EnterInterrupt(s);
            && r.pc == 2 && r.stack == [s.pc] + s.stack[..3] && r.status == s.status.(intm := true)
            && !r.pending && !r.delayOne && !r.entryPending && r.cycles == s.cycles + 1
            && r.acc == s.acc && r.p == s.p && r.t == s.t && r.ar == s.ar && r.data == s.data
            && r.program == s.program && r.ioInput == s.ioInput && r.ioOutput == s.ioOutput
  {
  }
}
