/** The divide idiom on the machine: sixteen SUBC instructions in a row. */
module Division {
  import opened Arithmetic
  import opened Isa
  import opened Decoder
  import opened DecoderInverse
  import opened Semantics
  import opened Execution

  function Subc(field: int): Instruction { Instruction(SUBC, Data(false, field)) }

  lemma RetireSubc(s: State, field: int)
    requires Executable(s, Subc(field))
    ensures var d := s.data[EffectiveAddress(s, Subc(field))];
            var r := Retire(s, Subc(field));
            && IsWord(d)
            && r.acc == DivideStep(s.acc, d) && r.data == s.data && r.program == s.program
            && r.pc == (s.pc + 1) % 4096 && r.cycles == s.cycles + 1
            && r.status == s.status.(ov := s.status.ov || DivideOverflows(s.acc, d))
  {
    hide DivideStep, DivideOverflows, EffectiveAddress, Advance, TrapOf;
  }

  /** What sixteen consecutive program words hold. */
  predicate SubcProgram(s: State, field: int)
    requires WellFormed(s)
  {
    forall k :: 0 <= k < 16 ==> Fetched(s, k) == Word(Subc(field))
  }

  lemma SubcIsNext(now: State, field: int)
    requires WellFormed(now) && 0 <= field < 128 && now.status.dp * 128 + field < 144
    requires now.program[now.pc] == Word(Subc(field))
    ensures Next(now, Subc(field))
    ensures EffectiveAddress(now, Subc(field)) == now.status.dp * 128 + field >= 0
  {
    DecodeAfterWord(Subc(field));
    hide Decode, Word;
  }

  /** Some one of the first n steps overflows. */
  predicate AnyOverflow(acc: int, d: int, n: nat)
  {
    n > 0 && (AnyOverflow(acc, d, n - 1) || DivideOverflows(DivideSteps(acc, d, n - 1), d))
  }

  lemma {:induction false} NeverOverflows(acc: int, d: int, n: nat)
    requires 1 <= d <= 0x8000 && 0 <= acc < d * 0x1_0000
    ensures !AnyOverflow(acc, d, n)
  {
    hide DivideOverflows, DivideSteps;
    SubcKeepsOverflowClear(d);
    if n > 0 {
      NeverOverflows(acc, d, n - 1);
      assert !DivideOverflows(DivideSteps(acc, d, n - 1), d);
    }
  }

  /** The state after n of the divide steps. */
  predicate Divided(s: State, now: State, d: int, n: nat)
  {
    && Quiet(now) && now.acc == DivideSteps(s.acc, d, n)
    && now.data == s.data && now.program == s.program && now.pc == (s.pc + n) % 4096
    && now.cycles == s.cycles + n && now.status == s.status.(ov := s.status.ov || AnyOverflow(s.acc, d, n))
  }

  lemma {:induction false} SubcRun(s: State, field: int, n: nat)
    requires WellFormed(s) && Quiet(s) && 0 <= field < 128 && 0 <= s.status.dp * 128 + field < 144 && n <= 16
    requires SubcProgram(s, field)
    ensures Divided(s, After(s, n), s.data[s.status.dp * 128 + field], n)
  {
    hide SubcProgram, Word, Step, Quiet, WellFormed, After, Divided, Fetched;
    CellExists(s, field);
    var d := s.data[s.status.dp * 128 + field];
    DividedStart(s, d);
    if n > 0 {
      SubcFetched(s, field, n - 1);
      SubcRun(s, field, n - 1);
      AfterStep(s, n - 1);
      SubcAdvance(s, After(s, n - 1), d, field, n);
    }
  }

  lemma CellExists(s: State, field: int)
    requires WellFormed(s) && 0 <= field < 128 && s.status.dp * 128 + field < 144
    ensures 0 <= s.status.dp * 128 + field < |s.data|
    ensures IsWord(s.data[s.status.dp * 128 + field]) && IsAcc(s.acc)
  {
  }

  lemma SubcFetched(s: State, field: int, k: nat)
    requires WellFormed(s) && SubcProgram(s, field) && k < 16
    ensures Fetched(s, k) == Word(Subc(field))
  {
    hide WellFormed;
  }

  lemma DividedStart(s: State, d: int)
    requires WellFormed(s) && Quiet(s)
    ensures Divided(s, s, d, 0)
  {
  }

  lemma SubcAdvance(s: State, now: State, d: int, field: int, n: nat)
    requires WellFormed(s) && WellFormed(now) && 0 <= field < 128 && 0 <= s.status.dp * 128 + field < 144
    requires d == s.data[s.status.dp * 128 + field] && n > 0
    requires Fetched(s, n - 1) == Word(Subc(field)) && Divided(s, now, d, n - 1)
    ensures Divided(s, Step(now).after, d, n)
  {
    hide Word, DivideStep, DivideOverflows, Step, Quiet, WellFormed;
    SubcStep(now, field);
    NextPosition(s.pc, n);
  }

  /** One quiet step of a SUBC. */
  lemma SubcStep(now: State, field: int)
    requires WellFormed(now) && Quiet(now) && 0 <= field < 128 && now.status.dp * 128 + field < 144
    requires now.program[now.pc] == Word(Subc(field))
    ensures now.status.dp * 128 + field >= 0
    ensures var d := now.data[now.status.dp * 128 + field];
            var r := Step(now).after;
            && Quiet(r) && IsWord(d)
            && r.acc == DivideStep(now.acc, d) && r.data == now.data && r.program == now.program
            && r.pc == (now.pc + 1) % 4096 && r.cycles == now.cycles + 1
            && r.status == now.status.(ov := now.status.ov || DivideOverflows(now.acc, d))
  {
    hide Decode, Word, DivideStep, DivideOverflows, Step, Quiet, Retire, WellFormed, EffectiveAddress, TrapOf;
    SubcIsNext(now, field);
    QuietStep(now, Subc(field));
    RetireSubc(now, field);
  }

  /** Run with interrupts inactive, sixteen SUBC divide: every 16-bit divisor and
      every dividend whose quotient fits leave the remainder in the high half
      and the quotient in the low half, with data and all status but OV kept; and OV is
      kept when the divisor is at most 0x8000. */
  lemma SubcProgramDivides(s: State, field: int)
    requires WellFormed(s) && Quiet(s) && 0 <= field < 128 && s.status.dp * 128 + field < 144
    requires SubcProgram(s, field)
    requires 1 <= s.data[s.status.dp * 128 + field]
    requires s.acc < s.data[s.status.dp * 128 + field] * 0x1_0000
    ensures var d := s.data[s.status.dp * 128 + field];
            var done := After(s, 16);
            && done.acc == (s.acc % d) * 0x1_0000 + s.acc / d
            && done.data == s.data && done.pc == (s.pc + 16) % 4096 && done.cycles == s.cycles + 16
            && done.status == s.status.(ov := done.status.ov)
            && (d <= 0x8000 ==> done.status.ov == s.status.ov)
  {
    hide Quiet, After, DivideSteps, DivideOverflows, SubcProgram, AnyOverflow, WellFormed, Word;
    CellExists(s, field);
    var d := s.data[s.status.dp * 128 + field];
    SubcRun(s, field, 16);
    SubcDivides(s.acc, d);
    if d <= 0x8000 { NeverOverflows(s.acc, d, 16); }
  }
}
