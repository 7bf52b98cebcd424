/** The bus cycles an instruction's log shows. */
module Bus {
  import opened Isa
  import opened Semantics

  /** A transaction outside the data memory, which takes the external bus. */
  predicate External(x: Transaction) { !x.space.DataSpace? }

  /** The instructions whose second cycle is internal. */
  predicate IsStackMove(m: Mnemonic) { m in {CALA, POP, PUSH, RET} }

  predicate ReadsData(m: Mnemonic)
  {
    m in {ADD, ADDH, ADDS, AND, DMOV, LAC, LAR, LDP, LST, LT, LTA, LTD, MPY, OR, OUT, SUB, SUBC, SUBH, SUBS, TBLW,
          XOR, ZALH, ZALS}
  }

  predicate WritesData(m: Mnemonic) { m in {DMOV, IN, LTD, SACH, SACL, SAR, SST, TBLR} }

  predicate FetchFirst(s: State, log: seq<Transaction>)
    requires WellFormed(s)
  {
    && |log| > 0 && log[0] == Transaction(s.cycles, ProgramSpace, InstructionFetch, s.pc, s.program[s.pc])
    && forall k :: 0 < k < |log| ==> !log[k].operation.InstructionFetch?
  }

  ghost predicate InUse(log: seq<Transaction>, c: int)
  {
    exists x :: x in log && External(x) && x.cycle == c
  }

  /** One external transaction a cycle, in every cycle of the instruction but the
      internal one of a stack move. */
  ghost predicate BusFilled(log: seq<Transaction>, first: int, cycles: int)
  {
    && (forall k :: 0 <= k < |log| && External(log[k]) ==> first <= log[k].cycle < first + cycles)
    && (forall j, k :: 0 <= j < k < |log| && External(log[j]) && External(log[k]) ==> log[j].cycle < log[k].cycle)
    && (forall c :: first <= c < first + cycles ==> InUse(log, c))
  }

  /** The data accesses: in the last cycle, and exactly the ones an instruction is
      documented to make. */
  ghost predicate DataAccesses(log: seq<Transaction>, m: Mnemonic, last: int)
  {
    && (forall x :: x in log && !External(x) ==> x.cycle == last && (x.operation.Read? || x.operation.Write?))
    && ((exists x :: x in log && !External(x) && x.operation.Read?) <==> ReadsData(m))
    && ((exists x :: x in log && !External(x) && x.operation.Write?) <==> WritesData(m))
  }

  /** The log of every instruction: its fetch first, the external bus in use once
      in each of its cycles, the data memory in the last one. */
  lemma BusCycles(s: State, i: Instruction)
    requires Executable(s, i)
    ensures FetchFirst(s, Log(s, i))
    ensures BusFilled(Log(s, i), s.cycles, if IsStackMove(i.mnemonic) then 1 else Duration(i.mnemonic))
    ensures DataAccesses(Log(s, i), i.mnemonic, s.cycles + Duration(i.mnemonic) - 1)
  {
    hide EffectiveAddress, Operand, TrapOf, DataLog, ReadsData, WritesData, Duration, BusFilled, DataAccesses;
    hide IsStackMove;
    Shapes(i.mnemonic);
    if IsTwoWord(i.mnemonic) {
      assert Log(s, i)[0].operation.InstructionFetch?;
      Pair(Log(s, i), i.mnemonic, s.cycles);
    } else if !AccessesData(i.mnemonic) {
      Single(Log(s, i), i.mnemonic, s.cycles);
    } else {
      DataBus(s, i);
    }
  }

  lemma Shapes(m: Mnemonic)
    ensures IsTwoWord(m) ==> Duration(m) == 2 && !IsStackMove(m)
    ensures !IsTwoWord(m) && !AccessesData(m) ==> Duration(m) == if IsStackMove(m) then 2 else 1
    ensures AccessesData(m) ==> !IsStackMove(m)
    ensures !AccessesData(m) ==> !ReadsData(m) && !WritesData(m)
  {
    hide ReadsData, WritesData;
    NoAccess(m);
  }

  lemma NoAccess(m: Mnemonic)
    ensures !AccessesData(m) ==> !ReadsData(m) && !WritesData(m)
  {
  }

  lemma Pair(log: seq<Transaction>, m: Mnemonic, first: int)
    requires |log| == 2 && External(log[0]) && External(log[1]) && log[0].cycle == first && log[1].cycle == first + 1
    requires !ReadsData(m) && !WritesData(m)
    ensures BusFilled(log, first, 2) && DataAccesses(log, m, first + 1)
  {
    hide ReadsData, WritesData;
    assert log[0] in log && log[1] in log;
  }

  lemma Single(log: seq<Transaction>, m: Mnemonic, first: int)
    requires |log| == 1 && External(log[0]) && log[0].cycle == first
    requires !ReadsData(m) && !WritesData(m)
    ensures BusFilled(log, first, 1)
    ensures forall last :: DataAccesses(log, m, last)
  {
    hide ReadsData, WritesData;
    assert log[0] in log;
  }

  lemma DataBus(s: State, i: Instruction)
    requires Executable(s, i) && AccessesData(i.mnemonic) && !IsTwoWord(i.mnemonic)
    ensures FetchFirst(s, Log(s, i))
    ensures BusFilled(Log(s, i), s.cycles, Duration(i.mnemonic))
    ensures DataAccesses(Log(s, i), i.mnemonic, s.cycles + Duration(i.mnemonic) - 1)
  {
    hide EffectiveAddress, Operand, TrapOf, ReadsData, WritesData, Duration, BusFilled, DataAccesses, WellFormed;
    DataShapes(i.mnemonic);
    var log := Log(s, i);
    if i.mnemonic.TBLR? || i.mnemonic.TBLW? {
      TableBus(log, i.mnemonic, s.cycles);
    } else if i.mnemonic.IN? || i.mnemonic.OUT? {
      PortBus(log, i.mnemonic, s.cycles);
    } else {
      PlainBus(log, i.mnemonic, s.cycles);
    }
  }

  lemma DataShapes(m: Mnemonic)
    requires AccessesData(m)
    ensures Duration(m) == if m.TBLR? || m.TBLW? then 3 else if m.IN? || m.OUT? then 2 else 1
    ensures ReadsData(m) <==> !(m.IN? || m.TBLR? || m.SACL? || m.SACH? || m.SAR? || m.SST?)
    ensures WritesData(m) <==> !ReadsData(m) || m.DMOV? || m.LTD?
  {
  }

  lemma TableBus(log: seq<Transaction>, m: Mnemonic, first: int)
    requires |log| == 4 && log[0].cycle == first && log[1].cycle == first + 1
    requires log[2].cycle == first + 2 && log[3].cycle == first + 2
    requires External(log[0]) && External(log[1]) && External(log[2]) != External(log[3])
    requires ReadsData(m) != WritesData(m)
    requires var x := if External(log[2]) then log[3] else log[2];
             if ReadsData(m) then x.operation.Read? else x.operation.Write?
    ensures BusFilled(log, first, 3) && DataAccesses(log, m, first + 2)
  {
    hide ReadsData, WritesData;
    assert log[0] in log && log[1] in log && log[2] in log && log[3] in log;
  }

  lemma PortBus(log: seq<Transaction>, m: Mnemonic, first: int)
    requires |log| == 3 && log[0].cycle == first && log[1].cycle == first + 1 && log[2].cycle == first + 1
    requires External(log[0]) && External(log[1]) != External(log[2])
    requires ReadsData(m) != WritesData(m)
    requires var x := if External(log[1]) then log[2] else log[1];
             if ReadsData(m) then x.operation.Read? else x.operation.Write?
    ensures BusFilled(log, first, 2) && DataAccesses(log, m, first + 1)
  {
    hide ReadsData, WritesData;
    assert log[0] in log && log[1] in log && log[2] in log;
  }

  lemma PlainBus(log: seq<Transaction>, m: Mnemonic, first: int)
    requires 2 <= |log| <= 3 && External(log[0])
    requires forall k :: 0 <= k < |log| ==> log[k].cycle == first
    requires forall k :: 0 < k < |log| ==> !External(log[k])
    requires if ReadsData(m) then log[1].operation.Read? else log[1].operation.Write?
    requires WritesData(m) <==> !ReadsData(m) || |log| == 3
    requires |log| == 3 ==> log[2].operation.Write?
    ensures BusFilled(log, first, 1) && DataAccesses(log, m, first)
  {
    hide ReadsData, WritesData;
    assert log[0] in log && log[1] in log;
    assert |log| == 3 ==> log[2] in log;
  }
}
