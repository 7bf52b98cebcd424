/** Saving and restoring: what a routine stores and later loads again is what was
    there, whatever happened in between as long as the saved cells are kept. */
module Context {
  import opened Bits
  import opened Arithmetic
  import opened Isa
  import opened Semantics
  import opened InstructionLaws
  import opened StateLaws

  /** One instruction with its data operand in a given cell. */
  ghost predicate Does(s: State, i: Instruction, m: Mnemonic, a: int, r: State)
  {
    && i.mnemonic == m && AccessesData(m) && Executable(s, i) && HasAddress(i.operands)
    && EffectiveAddress(s, i) == a && r == Retire(s, i)
  }

  /** SACH without a shift. */
  ghost predicate SavesHigh(s: State, i: Instruction, a: int, r: State)
  {
    Does(s, i, SACH, a, r) && i.operands.ShiftData? && i.operands.shift == 0
  }

  /** SAR or LAR with a given register. */
  ghost predicate DoesRegister(s: State, i: Instruction, m: Mnemonic, register: int, a: int, r: State)
  {
    Does(s, i, m, a, r) && i.operands.RegisterData? && i.operands.register == register
  }

  /** A later state still has the words of the saved cells. */
  predicate SameCells(later: State, saved: State, cells: set<int>)
  {
    && |later.data| == |saved.data| == 144
    && forall a :: a in cells ==> 0 <= a < 144 && later.data[a] == saved.data[a]
  }

  lemma SignedIsInjective(x: int, y: int)
    requires IsAcc(x) && IsAcc(y) && Signed32(x) == Signed32(y)
    ensures x == y
  {
  }

  lemma Halves(acc: int)
    requires IsAcc(acc)
    ensures IsWord(acc / 0x1_0000) && IsWord(acc % 0x1_0000)
    ensures Signed16(acc / 0x1_0000) * 0x1_0000 + acc % 0x1_0000 == Signed32(acc)
  {
  }

  /** SACL leaves the low half in its cell. */
  lemma LowSaved(s: State, i: Instruction, a: int, r: State)
    requires Does(s, i, SACL, a, r)
    ensures 0 <= a < 144 == |s.data| && r.data == s.data[a := s.acc % 0x1_0000] && r.acc == s.acc
  {
    hide Retire, WellFormed, EffectiveAddress, TrapOf, Operand;
    StoresMean(s, i);
    RegistersKept(s, i);
    Memories(s);
  }

  /** SACH without a shift leaves the high half. */
  lemma HighSaved(s: State, i: Instruction, a: int, r: State)
    requires SavesHigh(s, i, a, r)
    ensures IsAcc(s.acc) && 0 <= a < 144 == |s.data| && r.data == s.data[a := s.acc / 0x1_0000] && r.acc == s.acc
  {
    Pow2Table();
    hide Retire, WellFormed, EffectiveAddress, TrapOf, Operand, Pow2;
    StoresMean(s, i);
    RegistersKept(s, i);
    Memories(s);
    Widths(s);
    Halves(s.acc);
  }

  /** ZALH and ADDS put two words together and cannot overflow. */
  lemma Joined(q0: State, j0: Instruction, high: int, q1: State, j1: Instruction, low: int, q2: State)
    requires Does(q0, j0, ZALH, high, q1) && Does(q1, j1, ADDS, low, q2)
    ensures 0 <= high < 144 == |q0.data| && 0 <= low < 144 && q2.data == q1.data == q0.data
    ensures IsAcc(q2.acc) && Signed32(q2.acc) == Signed16(q0.data[high]) * 0x1_0000 + q0.data[low]
    ensures q2.status.ov == q0.status.ov
  {
    hide Retire, WellFormed, EffectiveAddress, TrapOf, Operand, Signed32, Signed16;
    StoresMean(q0, j0);
    StoresMean(q1, j1);
    Memories(q0);
    LoadsMean(q0, j0);
    SumsMean(q1, j1);
    StatusMean(q0, j0);
    RetireKeepsWidths(q1, j1);
    Widths(q2);
    JoinFits(Operand(q0, j0), Operand(q1, j1));
  }

  lemma JoinFits(high: int, low: int)
    requires IsWord(high) && IsWord(low)
    ensures Fits32(Signed16(high) * 0x1_0000 + low)
  {
  }

  /** The accumulator saved with SACH and SACL comes back with ZALH and ADDS, in
      either overflow mode and without touching OV. */
  lemma AccumulatorRestored(s0: State, i0: Instruction, high: int, s1: State, i1: Instruction, low: int, s2: State,
                            q0: State, j0: Instruction, q1: State, j1: Instruction, q2: State)
    requires SavesHigh(s0, i0, high, s1) && Does(s1, i1, SACL, low, s2) && high != low
    requires SameCells(q0, s2, {high, low})
    requires Does(q0, j0, ZALH, high, q1) && Does(q1, j1, ADDS, low, q2)
    ensures q2.acc == s0.acc && q2.status.ov == q0.status.ov
  {
    hide Does, SavesHigh, Signed16, Signed32;
    HighSaved(s0, i0, high, s1);
    LowSaved(s1, i1, low, s2);
    Joined(q0, j0, high, q1, j1, low, q2);
    Halves(s0.acc);
    SignedIsInjective(q2.acc, s0.acc);
  }

  /** What SST saves LST restores, but for the interrupt mask, which stays. */
  lemma StatusRestored(s: State, i: Instruction, a: int, r: State, q: State, j: Instruction, u: State)
    requires Does(s, i, SST, a, r) && Does(q, j, LST, a, u)
    requires SameCells(q, r, {a})
    ensures u.status == s.status.(intm := q.status.intm)
  {
    hide Retire, WellFormed, EffectiveAddress, TrapOf, Operand;
    StoresMean(s, i);
    StoresMean(q, j);
    StatusMean(q, j);
  }

  lemma SstKeeps(s: State, i: Instruction, a: int, r: State)
    requires Does(s, i, SST, a, r)
    ensures 0 <= a < 144 == |s.data| == |r.data| && r.acc == s.acc && r.data == s.data[a := r.data[a]]
  {
    hide Retire, WellFormed, EffectiveAddress, TrapOf, Operand, HoldsStatus;
    StoresMean(s, i);
    RegistersKept(s, i);
    Memories(s);
  }

  lemma LstKeeps(s: State, i: Instruction, a: int, r: State)
    requires Does(s, i, LST, a, r)
    ensures r.acc == s.acc && r.data == s.data
  {
    hide Retire, WellFormed, EffectiveAddress, TrapOf, Operand;
    StoresMean(s, i);
    RegistersKept(s, i);
  }

  /** The whole context of an interrupt routine: SST, SACH, SACL on the way in and
      ZALH, ADDS, LST on the way out give back the accumulator, OV, OVM, ARP and
      DP, however the routine and the addressing changed them. */
  lemma ContextRestored(s0: State, i0: Instruction, status: int, s1: State, i1: Instruction, high: int, s2: State,
                        i2: Instruction, low: int, s3: State, q0: State, j0: Instruction, q1: State,
                        j1: Instruction, q2: State, j2: Instruction, q3: State)
    requires Does(s0, i0, SST, status, s1) && SavesHigh(s1, i1, high, s2) && Does(s2, i2, SACL, low, s3)
    requires status != high && status != low && high != low && SameCells(q0, s3, {status, high, low})
    requires Does(q0, j0, ZALH, high, q1) && Does(q1, j1, ADDS, low, q2) && Does(q2, j2, LST, status, q3)
    ensures q3.acc == s0.acc && q3.status == s0.status.(intm := q2.status.intm)
  {
    hide Does, SavesHigh;
    SstKeeps(s0, i0, status, s1);
    HighSaved(s1, i1, high, s2);
    LowSaved(s2, i2, low, s3);
    Joined(q0, j0, high, q1, j1, low, q2);
    AccumulatorRestored(s1, i1, high, s2, i2, low, s3, q0, j0, q1, j1, q2);
    StatusRestored(s0, i0, status, s1, q2, j2, q3);
    LstKeeps(q2, j2, status, q3);
  }

  /** A counter stored by SAR and loaded by LAR comes back as SAR left it. */
  lemma CounterRestored(s: State, i: Instruction, k: int, a: int, r: State, q: State, j: Instruction, u: State)
    requires DoesRegister(s, i, SAR, k, a, r) && DoesRegister(q, j, LAR, k, a, u) && SameCells(q, r, {a})
    ensures 0 <= k < |u.ar| == |r.ar| == 2 && u.ar[k] == r.ar[k]
  {
    hide Retire, WellFormed, EffectiveAddress, TrapOf, Operand, Counted, Asked;
    StoresMean(s, i);
    StoresMean(q, j);
    CountersMean(s, i);
    CountersMean(q, j);
    Memories(s);
  }

  // ------------------------------------------------------------------- twice

  lemma SameAccumulator(x: int, y: int)
    requires IsAcc(x) && IsAcc(y) && forall k: nat :: k < 32 ==> (BitOf(x, k) <==> BitOf(y, k))
    ensures x == y
  {
    hide BitOf;
    Pow2Table();
    Pow2Add(16, 16);
    forall k: nat
      ensures BitOf(x, k) <==> BitOf(y, k)
    {
      if k >= 32 {
        AboveBits(x, 32, k);
        AboveBits(y, 32, k);
      }
    }
    SameBits(x, y);
  }

  /** XOR with the same word twice, AND with it twice, OR with it twice. */
  lemma LogicTwice(s: State, i: Instruction, r: State, j: Instruction, u: State)
    requires Executable(s, i) && r == Retire(s, i) && Executable(r, j) && u == Retire(r, j)
    requires i.mnemonic == j.mnemonic && Operand(s, i) == Operand(r, j)
    requires i.mnemonic.XOR? || i.mnemonic.AND? || i.mnemonic.OR?
    ensures u.acc == if i.mnemonic.XOR? then s.acc else r.acc
  {
    hide Retire, TrapOf, EffectiveAddress, Operand, BitOf, WellFormed;
    Widths(s);
    LogicMeans(s, i, 0);
    LogicMeans(r, j, 0);
    var before := if i.mnemonic.XOR? then s.acc else r.acc;
    forall k: nat | k < 32
      ensures BitOf(u.acc, k) <==> BitOf(before, k)
    {
      LogicMeans(s, i, k);
      LogicMeans(r, j, k);
    }
    SameAccumulator(u.acc, before);
  }
}
