/** Straight-line execution with interrupts inactive: repeated steps retire the
    instructions the program counter finds. */
module Execution {
  import opened Arithmetic
  import opened Isa
  import opened Decoder
  import opened Semantics
  import opened Runs

  /** The state after n calls of `step`. */
  function After(s: State, n: nat): (r: State)
    requires WellFormed(s)
    ensures WellFormed(r) && (n == 0 ==> r == s)
  {
    if n == 0 then s
    else
      var before := After(s, n - 1);
      StepCases(before);
      Step(before).after
  }

  lemma AfterStep(s: State, n: nat)
    requires WellFormed(s)
    ensures After(s, n + 1) == Step(After(s, n)).after
  {
    hide Step, WellFormed;
  }

  /** The k-th program word from the program counter on. */
  function Fetched(s: State, k: nat): int
    requires WellFormed(s)
  {
    s.program[(s.pc + k) % 4096]
  }

  lemma NextPosition(pc: int, n: nat)
    requires n > 0
    ensures ((pc + (n - 1)) % 4096 + 1) % 4096 == (pc + n) % 4096
  {
  }

  /** No interrupt is under way, and none can start without an EINT. */
  predicate Quiet(s: State)
  {
    && !s.entryPending && !s.delayOne
    && (s.status.intm || (!s.pending && s.interruptHigh))
  }

  /** The instruction the next step fetches can be executed. */
  predicate Next(s: State, i: Instruction)
    requires WellFormed(s)
  {
    Decode(s.program[s.pc]) == Some(i) && Legal(i) && TrapOf(s, i).None?
  }

  /** A quiet step of any instruction but EINT retires it and stays quiet. */
  lemma QuietStep(s: State, i: Instruction)
    requires WellFormed(s) && Quiet(s) && Next(s, i) && !i.mnemonic.EINT?
    ensures Executable(s, i)
    ensures Step(s).after == Retire(s, i).(pending := s.pending || !s.interruptHigh)
    ensures Quiet(Step(s).after)
  {
    hide Step, Decode, TrapOf, Retire, Legal, WellFormed, Quiet;
    assert !s.entryPending by { QuietMeans(s); }
    StepCases(s);
    LatchKeepsTrap(s, i);
    LatchedRetire(s, i);
  }

  lemma QuietMeans(s: State)
    requires Quiet(s)
    ensures !s.entryPending
  {
  }

  /** A request latched by a masked pin changes nothing else. */
  lemma LatchedRetire(s: State, i: Instruction)
    requires Executable(s, i) && Executable(Latch(s), i) && Quiet(s) && !i.mnemonic.EINT?
    ensures Retire(Latch(s), i) == Retire(s, i).(pending := s.pending || !s.interruptHigh)
    ensures Quiet(Retire(s, i).(pending := s.pending || !s.interruptHigh))
  {
    hide TrapOf, Legal, WellFormed;
    LatchedParts(s, i);
    hide NextAcc, NextP, NextAr, NextStack, NextPc, NextOv, StoreIn, DataWrite, ProgramWrite, IoWrite;
    hide Operand, EffectiveAddress;
  }

  lemma LatchedParts(s: State, i: Instruction)
    requires Executable(s, i) && Executable(Latch(s), i)
    ensures Operand(Latch(s), i) == Operand(s, i)
    ensures NextPc(Latch(s), i) == NextPc(s, i) && NextStack(Latch(s), i) == NextStack(s, i)
    ensures DataWrite(Latch(s), i) == DataWrite(s, i) && ProgramWrite(Latch(s), i) == ProgramWrite(s, i)
    ensures IoWrite(Latch(s), i) == IoWrite(s, i)
    ensures var w := Operand(s, i);
            && NextAcc(Latch(s), i, w) == NextAcc(s, i, w) && NextP(Latch(s), i, w) == NextP(s, i, w)
            && NextAr(Latch(s), i, w) == NextAr(s, i, w) && NextStatus(Latch(s), i, w) == NextStatus(s, i, w)
  {
    hide TrapOf, NextAcc, NextP, NextAr, NextStatus;
    LatchedRegisters(s, i, Operand(s, i));
  }

  lemma LatchedRegisters(s: State, i: Instruction, w: int)
    requires Executable(s, i) && Executable(Latch(s), i) && 0 <= w < 0x1_0000
    ensures NextAcc(Latch(s), i, w) == NextAcc(s, i, w) && NextP(Latch(s), i, w) == NextP(s, i, w)
    ensures NextAr(Latch(s), i, w) == NextAr(s, i, w) && NextStatus(Latch(s), i, w) == NextStatus(s, i, w)
  {
    hide TrapOf, NextAcc, NextP, NextAr, WellFormed;
    LatchedSums(s, i, w);
    LatchedCounters(s, i, w);
  }

  lemma LatchedSums(s: State, i: Instruction, w: int)
    requires Executable(s, i) && Executable(Latch(s), i) && 0 <= w < 0x1_0000
    ensures NextAcc(Latch(s), i, w) == NextAcc(s, i, w) && NextP(Latch(s), i, w) == NextP(s, i, w)
    ensures NextOv(Latch(s), i, w) == NextOv(s, i, w)
  {
    hide TrapOf, WellFormed, Stored, Exact, Fits32, DivideStep, DivideOverflows, ShiftedWord;
  }

  lemma LatchedCounters(s: State, i: Instruction, w: int)
    requires Executable(s, i) && Executable(Latch(s), i) && 0 <= w < 0x1_0000
    ensures NextAr(Latch(s), i, w) == NextAr(s, i, w)
  {
    hide TrapOf;
  }
}
