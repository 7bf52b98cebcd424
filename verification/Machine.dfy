/** The interpreter: an object whose fields `step` updates in place, with the log
    and the effects computed by separate code, as in the source. */
module Machine {
  import opened Bits
  import opened Arithmetic
  import opened Isa
  import opened Decoder
  import opened Semantics

  /** What a call of `step` returns or raises. */
  datatype StepResult = Returned(trace: Trace) | Raised(trap: Trap)

  // --------------------------------------------------------------- loading

  datatype LoadError =
    | BadByteOrder | OddByteCount | OriginOutOfRange | ImageTooLarge | WordOutOfRange(address: int)

  /** How many leading words can be stored from an address on. */
  function Loadable(words: seq<int>, origin: int): (k: nat)
    ensures k <= |words| && (0 <= origin <= 4096 ==> origin + k <= 4096)
    decreases words
  {
    if words == [] || origin >= 4096 || !IsWord(words[0]) then 0
    else 1 + Loadable(words[1..], origin + 1)
  }

  function LoadErrorOf(words: seq<int>, origin: int): Option<LoadError>
  {
    var k := Loadable(words, origin);
    if !(0 <= origin < 4096) then Some(OriginOutOfRange)
    else if k == |words| then None
    else if origin + k >= 4096 then Some(ImageTooLarge)
    else Some(WordOutOfRange(origin + k))
  }

  /** Memory with a block of words replaced. */
  function Overlay(memory: seq<int>, origin: int, words: seq<int>): seq<int>
    requires 0 <= origin && origin + |words| <= |memory|
  {
    memory[..origin] + words + memory[origin + |words|..]
  }

  lemma OverlayNothing(memory: seq<int>, origin: int, none: seq<int>)
    requires 0 <= origin <= |memory| && |none| == 0
    ensures Overlay(memory, origin, none) == memory
  {
  }

  lemma OverlayNext(memory: seq<int>, origin: int, words: seq<int>, k: nat)
    requires 0 <= origin && k < |words| && origin + k < |memory|
    ensures Overlay(memory, origin, words[..k + 1]) == Overlay(memory, origin, words[..k])[origin + k := words[k]]
  {
  }

  lemma OverlayKeepsWords(memory: seq<int>, origin: int, words: seq<int>)
    requires 0 <= origin && origin + |words| <= |memory| && AllWords(memory) && AllWords(words)
    ensures AllWords(Overlay(memory, origin, words))
  {
  }

  /** Every stored word fits, and the next one, if any, does not. */
  lemma {:induction false} LoadableIsLongest(words: seq<int>, origin: int)
    requires 0 <= origin <= 4096
    ensures var k := Loadable(words, origin);
            && origin + k <= 4096
            && (forall i :: 0 <= i < k ==> IsWord(words[i]))
            && (k < |words| ==> origin + k == 4096 || !IsWord(words[k]))
    decreases words
  {
    if words != [] && origin < 4096 && IsWord(words[0]) {
      LoadableIsLongest(words[1..], origin + 1);
      forall i | 0 <= i < Loadable(words, origin)
        ensures IsWord(words[i])
      {
        if i > 0 { assert words[i] == words[1..][i - 1]; }
      }
    }
  }

  predicate AllBytes(s: seq<int>)
  {
    forall i :: 0 <= i < |s| ==> 0 <= s[i] < 256
  }

  /** The words of an even number of bytes. */
  function WordsOf(bytes: seq<int>, big: bool): (words: seq<int>)
    requires |bytes| % 2 == 0
    ensures |words| == |bytes| / 2
  {
    if bytes == [] then []
    else
      var n := |bytes| - 2;
      WordsOf(bytes[..n], big)
      + [if big then bytes[n] * 256 + bytes[n + 1] else bytes[n + 1] * 256 + bytes[n]]
  }

  /** Why a raw image in a known byte order is not loaded, if it is not. */
  function BinaryErrorOf(content: seq<int>, big: bool, origin: int): Option<LoadError>
  {
    if |content| % 2 == 1 then Some(OddByteCount) else LoadErrorOf(WordsOf(content, big), origin)
  }

  // ------------------------------------------------------- static functions

  /** `_accumulator_branch_taken` */
  function AccumulatorBranchTaken(m: Mnemonic, accumulator: int): (taken: bool)
    requires IsAccumulatorBranch(m) && IsAcc(accumulator)
    ensures m.BGEZ? ==> taken == (Signed32(accumulator) >= 0)
    ensures m.BGZ? ==> taken == (Signed32(accumulator) > 0)
    ensures m.BLEZ? ==> taken == (Signed32(accumulator) <= 0)
    ensures m.BLZ? ==> taken == (Signed32(accumulator) < 0)
    ensures m.BNZ? ==> taken == (Signed32(accumulator) != 0)
    ensures m.BZ? ==> taken == (Signed32(accumulator) == 0)
  {
    SignTest32(accumulator);
    var negative := And(accumulator, 0x8000_0000) != 0;
    var zero := accumulator == 0;
    match m
    case BGEZ => !negative
    case BGZ => !negative && !zero
    case BLEZ => negative || zero
    case BLZ => negative
    case BNZ => !zero
    case BZ => zero
  }

  lemma SignTest32(acc: int)
    requires IsAcc(acc)
    ensures And(acc, 0x8000_0000) != 0 <==> acc >= 0x8000_0000
  {
    Pow2Table();
    TopBit(acc, 31);
  }

  lemma DivideOverflowIsSub(acc: int, word: int)
    requires IsAcc(acc) && IsWord(word)
    ensures DivideOverflows(acc, word) <==> !Fits32(Exact(acc, SubOp(word * 0x8000)))
  {
  }

  /** The two results of the divide step, by the sign test of the source. */
  lemma DivideCases(acc: int, word: int, operand: int, intermediate: int)
    requires IsAcc(acc) && IsWord(word) && operand == word * 0x8000
    requires intermediate == (acc - operand) % 0x1_0000_0000
    ensures SubOverflowTest(acc, operand, intermediate) <==> DivideOverflows(acc, word)
    ensures DivideStep(acc, word)
         == if And(intermediate, 0x8000_0000) != 0 then (acc * 2) % 0x1_0000_0000
            else (intermediate * 2 + 1) % 0x1_0000_0000
  {
    hide And, SubOverflowTest, DivideOverflows, Fits32, Exact;
    DivideOverflowIsSub(acc, word);
    SubOverflowExact(acc, operand);
    SignTest32(intermediate);
  }

  /** The control bits of the addressing field. */
  lemma ControlTests(field: int)
    requires 0 <= field < 128
    ensures And(field, 0x20) != 0 <==> ControlBit(field, 5)
    ensures And(field, 0x10) != 0 <==> ControlBit(field, 4)
    ensures And(field, 0x08) != 0 <==> ControlBit(field, 3)
    ensures And(field, 1) == field % 2
  {
    Pow2Table();
    ControlMasks(field);
    hide And, Pow2;
  }

  lemma ModifyIsMoved(value: int, delta: int)
    requires IsWord(value) && (delta == 1 || delta == -1)
    ensures ModifyCounter(value, delta) == Moved(value, delta)
  {
    CounterIsCircular(value, delta);
  }

  class Model {
    var pc: int
    var acc: int
    var p: int
    var t: int
    var ar: seq<int>
    var stack: seq<int>
    var ov: bool
    var ovm: bool
    var intm: bool
    var arp: int
    var dp: int
    var interruptPending: bool
    var interruptDelayOne: bool
    var interruptEntryPending: bool
    var cycleCount: int
    var bioInputHigh: bool
    var interruptInputHigh: bool
    const program: array<int>
    const data: array<int>
    const ioInput: array<int>
    const ioOutput: array<int>

    ghost predicate Shape()
      reads this
    {
      && program.Length == 4096 && data.Length == 144 && ioInput.Length == 8 && ioOutput.Length == 8
      && ioInput != ioOutput
    }

    ghost function Snapshot(): State
      reads this, program, data, ioInput, ioOutput
    {
      State(pc, acc, p, t, ar, stack, Status(ov, ovm, intm, arp, dp),
            interruptPending, interruptDelayOne, interruptEntryPending, cycleCount,
            program[..], data[..], ioInput[..], ioOutput[..], bioInputHigh, interruptInputHigh)
    }

    ghost predicate Valid()
      reads this, program, data, ioInput, ioOutput
    {
      Shape() && WellFormed(Snapshot())
    }

    constructor ()
      ensures Valid() && fresh(program) && fresh(data) && fresh(ioInput) && fresh(ioOutput)
      ensures Snapshot() == State(0, 0, 0, 0, [0, 0], [0, 0, 0, 0], Status(false, false, false, 0, 0),
                              false, false, false, 0, seq(4096, _ => 0), seq(144, _ => 0),
                              seq(8, _ => 0), seq(8, _ => 0), true, true)
    {
      pc, acc, p, t := 0, 0, 0, 0;
      ar, stack := [0, 0], [0, 0, 0, 0];
      ov, ovm, intm, arp, dp := false, false, false, 0, 0;
      interruptPending, interruptDelayOne, interruptEntryPending := false, false, false;
      cycleCount := 0;
      bioInputHigh, interruptInputHigh := true, true;
      program := new int[4096](_ => 0);
      data := new int[144](_ => 0);
      ioInput := new int[8](_ => 0);
      ioOutput := new int[8](_ => 0);
    }

    /** `reset_at_instruction_boundary` */
    method Reset()
      requires Valid()
      modifies `pc, `intm, `interruptPending, `interruptDelayOne, `interruptEntryPending
      ensures Valid() && Snapshot() == ResetState(old(Snapshot()))
    {
      hide AllWords, AllAddresses;
      pc := 0;
      intm := true;
      interruptPending := false;
      interruptDelayOne := false;
      interruptEntryPending := false;
    }

    /** `_add_accumulator` */
    method AddAccumulator(addend: int)
      requires IsAcc(acc) && IsAcc(addend)
      modifies `acc, `ov
      ensures acc == Stored(Exact(old(acc), AddOp(addend)), ovm)
      ensures ov == (old(ov) || !Fits32(Exact(old(acc), AddOp(addend))))
      ensures IsAcc(acc)
    {
      hide And, AddOverflowTest, Exact, Stored, Fits32;
      var oldAcc := acc;
      AddOverflowExact(oldAcc, addend);
      SignTest32(oldAcc);
      StoredCases(oldAcc, AddOp(addend), ovm);
      var wrapped := (oldAcc + addend) % 0x1_0000_0000;
      var overflow := AddOverflowTest(oldAcc, addend, wrapped);
      if overflow {
        ov := true;
        if ovm {
          acc := if And(oldAcc, 0x8000_0000) != 0 then 0x8000_0000 else 0x7FFF_FFFF;
          return;
        }
      }
      acc := wrapped;
    }

    /** `_subtract_accumulator` */
    method SubtractAccumulator(subtrahend: int)
      requires IsAcc(acc) && IsAcc(subtrahend)
      modifies `acc, `ov
      ensures acc == Stored(Exact(old(acc), SubOp(subtrahend)), ovm)
      ensures ov == (old(ov) || !Fits32(Exact(old(acc), SubOp(subtrahend))))
      ensures IsAcc(acc)
    {
      hide And, SubOverflowTest, Exact, Stored, Fits32;
      var oldAcc := acc;
      SubOverflowExact(oldAcc, subtrahend);
      SignTest32(oldAcc);
      StoredCases(oldAcc, SubOp(subtrahend), ovm);
      var wrapped := (oldAcc - subtrahend) % 0x1_0000_0000;
      var overflow := SubOverflowTest(oldAcc, subtrahend, wrapped);
      if overflow {
        ov := true;
        if ovm {
          acc := if And(oldAcc, 0x8000_0000) != 0 then 0x8000_0000 else 0x7FFF_FFFF;
          return;
        }
      }
      acc := wrapped;
    }

    /** `_conditional_subtract` */
    method ConditionalSubtract(word: int)
      requires IsAcc(acc) && IsWord(word)
      modifies `acc, `ov
      ensures acc == DivideStep(old(acc), word)
      ensures ov == (old(ov) || DivideOverflows(old(acc), word))
    {
      var oldAcc := acc;
      var operand := word * 0x8000;
      var intermediate := (oldAcc - operand) % 0x1_0000_0000;
      DivideCases(oldAcc, word, operand, intermediate);
      hide And, SubOverflowTest, DivideStep, DivideOverflows;
      var overflow := SubOverflowTest(oldAcc, operand, intermediate);
      if overflow {
        ov := true;
      }
      if And(intermediate, 0x8000_0000) != 0 {
        acc := (oldAcc * 2) % 0x1_0000_0000;
      } else {
        acc := (intermediate * 2 + 1) % 0x1_0000_0000;
      }
    }

    /** `_advance_interrupt_pipeline` */
    method AdvanceInterruptPipeline(retired: Mnemonic)
      modifies `interruptDelayOne, `interruptEntryPending
      ensures Latches(interruptDelayOne, interruptEntryPending)
           == Advance(Latches(old(interruptDelayOne), old(interruptEntryPending)),
                      interruptPending, intm, retired)
    {
      if interruptDelayOne {
        if intm {
          interruptDelayOne := false;
        } else if retired.MPY? || retired.MPYK? {
          interruptDelayOne := true;
        } else {
          interruptDelayOne := false;
          interruptEntryPending := true;
        }
      } else if interruptPending && !intm {
        interruptDelayOne := true;
      }
    }

    /** The end of every instruction: its cycles, then the interrupt latches. */
    method Elapse(cycles: int, retired: Mnemonic)
      modifies `cycleCount, `interruptDelayOne, `interruptEntryPending
      ensures cycleCount == old(cycleCount) + cycles
      ensures Latches(interruptDelayOne, interruptEntryPending)
           == Advance(Latches(old(interruptDelayOne), old(interruptEntryPending)),
                      interruptPending, intm, retired)
    {
      cycleCount := cycleCount + cycles;
      AdvanceInterruptPipeline(retired);
    }

    // ------------------------------------------------------------- loading

    /** `load_words`: words are stored one by one, so a failure leaves the words
        before it in place. */
    method LoadWords(words: seq<int>, origin: int) returns (error: Option<LoadError>)
      requires Valid()
      modifies program
      ensures Valid()
      ensures error == LoadErrorOf(words, origin)
      ensures program[..]
              == if 0 <= origin < 4096 then Overlay(old(program[..]), origin, words[..Loadable(words, origin)])
                             else old(program[..])
    {
      hide Loadable, Overlay, AllWords;
      if !(0 <= origin < 4096) {
        return Some(OriginOutOfRange);
      }
      LoadableIsLongest(words, origin);
      ghost var before := program[..];
      OverlayKeepsWords(before, origin, words[..Loadable(words, origin)]);
      error := None;
      var offset := 0;
      OverlayNothing(before, origin, words[..0]);
      while offset < |words|
        invariant 0 <= offset <= Loadable(words, origin)
        invariant program[..] == Overlay(before, origin, words[..offset])
      {
        var address := origin + offset;
        if address >= 4096 {
          return Some(ImageTooLarge);
        }
        var word := words[offset];
        if !(0 <= word <= 0xFFFF) {
          return Some(WordOutOfRange(address));
        }
        OverlayNext(before, origin, words, offset);
        program[address] := word;
        offset := offset + 1;
      }
    }

    /** `load_binary`: two bytes a word, in the stated order. */
    method LoadBinary(content: seq<int>, byteOrder: string, origin: int) returns (error: Option<LoadError>)
      requires Valid() && AllBytes(content)
      modifies program
      ensures Valid()
      ensures byteOrder != "big" && byteOrder != "little" ==> error == Some(BadByteOrder)
      ensures byteOrder == "big" || byteOrder == "little" ==>
                error == BinaryErrorOf(content, byteOrder == "big", origin)
      ensures program[..] == if (byteOrder != "big" && byteOrder != "little")
                                || |content| % 2 == 1 || !(0 <= origin < 4096)
                             then old(program[..])
                             else var words := WordsOf(content, byteOrder == "big");
                                  Overlay(old(program[..]), origin, words[..Loadable(words, origin)])
    {
      if byteOrder != "big" && byteOrder != "little" {
        return Some(BadByteOrder);
      }
      if |content| % 2 == 1 {
        return Some(OddByteCount);
      }
      var words := WordsOf(content, byteOrder == "big");
      error := LoadWords(words, origin);
    }

    // ------------------------------------------ effects, one group at a time

    /** Saturating arithmetic and the divide step. */
    method ExecuteArithmetic(i: Instruction, ea: int, ghost s: State, ghost w: int)
      requires Shape() && WellFormed(s) && Legal(i) && IsArithmetic(i.mnemonic)
      requires acc == s.acc && ov == s.status.ov && ovm == s.status.ovm && p == s.p && t == s.t
      requires AccessesData(i.mnemonic) ==> 0 <= ea < 144 && data[ea] == w && IsWord(w)
      modifies `acc, `ov, `t
      ensures acc == NextAcc(s, i, w) && ov == NextOv(s, i, w) && t == NextT(s, i, w)
    {
      hide Bitwise, Pow2, DivideStep, DivideOverflows, ShiftedWord, LegalAddress, Word, Stored, Exact, Fits32;
      hide AllWords, AllAddresses;
      var m := i.mnemonic;
      if m.LACK? {
        acc := i.operands.constant;
      } else if m.LAC? {
        acc := ShiftedWord(data[ea], i.operands.shift);
      } else if m.ADDH? {
        var high := (acc / 0x1_0000 + data[ea]) % 0x1_0000;
        acc := high * 0x1_0000 + acc % 0x1_0000;
      } else if m.SUBC? {
        ConditionalSubtract(data[ea]);
      } else {
        ExecuteSum(i, ea, s, w);
      }
    }

    /** The saturating sums and differences. */
    method ExecuteSum(i: Instruction, ea: int, ghost s: State, ghost w: int)
      requires Shape() && WellFormed(s) && Legal(i) && AccOpOf(s, i, w).Some?
      requires IsArithmetic(i.mnemonic)
      requires acc == s.acc && ov == s.status.ov && ovm == s.status.ovm && p == s.p && t == s.t
      requires AccessesData(i.mnemonic) ==> 0 <= ea < 144 && data[ea] == w && IsWord(w)
      modifies `acc, `ov, `t
      ensures acc == NextAcc(s, i, w) && ov == NextOv(s, i, w) && t == NextT(s, i, w)
    {
      hide Bitwise, Pow2, DivideStep, DivideOverflows, ShiftedWord, LegalAddress, Word, Stored, Exact, Fits32;
      hide AllWords, AllAddresses, NextAcc, NextOv;
      SumMeans(s, i, w);
      var m := i.mnemonic;
      if m.LTA? {
        t := data[ea];
        AddAccumulator(p);
      } else if m.APAC? {
        AddAccumulator(p);
      } else if m.SPAC? {
        SubtractAccumulator(p);
      } else if m.ADDS? {
        AddAccumulator(data[ea]);
      } else if m.ADD? {
        AddAccumulator(ShiftedWord(data[ea], i.operands.shift));
      } else if m.SUB? {
        SubtractAccumulator(ShiftedWord(data[ea], i.operands.shift));
      } else if m.SUBH? {
        SubtractAccumulator(data[ea] * 0x1_0000);
      } else {
        SubtractAccumulator(data[ea]);
      }
    }

    /** MPY and MPYK. */
    method Multiply(i: Instruction, ea: int, ghost s: State, ghost w: int)
      requires Shape() && Legal(i) && (i.mnemonic.MPY? || i.mnemonic.MPYK?) && t == s.t
      requires i.mnemonic.MPY? ==> 0 <= ea < 144 && data[ea] == w && IsWord(w)
      modifies `p
      ensures p == NextP(s, i, w)
    {
      hide Bitwise, LegalAddress, AllWords, AllAddresses;
      if i.mnemonic.MPY? {
        var word := data[ea];
        if t == 0x8000 && word == 0x8000 {
          p := 0xC000_0000;
        } else {
          var signedT := if t < 0x8000 then t else t - 0x1_0000;
          var signedData := if word < 0x8000 then word else word - 0x1_0000;
          p := (signedT * signedData) % 0x1_0000_0000;
        }
      } else {
        var signedT := if t < 0x8000 then t else t - 0x1_0000;
        p := (signedT * i.operands.constant) % 0x1_0000_0000;
      }
    }

    /** Loads, logic and the multiplier. */
    method ExecuteLogic(i: Instruction, ea: int, ghost s: State, ghost w: int)
      requires Shape() && WellFormed(s) && Legal(i) && IsLogic(i.mnemonic)
      requires acc == s.acc && ovm == s.status.ovm && p == s.p && t == s.t
      requires AccessesData(i.mnemonic) ==> 0 <= ea < 144 && data[ea] == w && IsWord(w)
      modifies `acc, `p, `t
      ensures acc == NextAcc(s, i, w) && p == NextP(s, i, w) && t == NextT(s, i, w)
    {
      hide Bitwise, And, Or, Xor, LegalAddress, AllWords, AllAddresses, NextP;
      ProductKept(s, i, w);
      SignTest32(acc);
      var m := i.mnemonic;
      if m.LT? {
        t := data[ea];
      } else if m.MPY? || m.MPYK? {
        Multiply(i, ea, s, w);
      } else if m.PAC? {
        acc := p;
      } else if m.ZALH? {
        acc := data[ea] * 0x1_0000;
      } else if m.ZALS? {
        acc := data[ea];
      } else if m.XOR? {
        acc := acc / 0x1_0000 * 0x1_0000 + Xor(acc % 0x1_0000, data[ea]);
      } else if m.AND? {
        acc := And(acc % 0x1_0000, data[ea]);
      } else if m.OR? {
        acc := Or(acc, data[ea]);
      } else if m.ABS? {
        if And(acc, 0x8000_0000) != 0 {
          if acc == 0x8000_0000 && ovm {
            acc := 0x7FFF_FFFF;
          } else {
            acc := (-acc) % 0x1_0000_0000;
          }
        }
      } else {
        acc := 0;
      }
    }

    /** Auxiliary-register loads and the status bits. */
    method ExecuteStatus(i: Instruction, ea: int, ghost s: State, ghost w: int)
      requires Shape() && WellFormed(s) && Legal(i) && IsStatus(i.mnemonic) && IsWord(w)
      requires ar == s.ar && Status(ov, ovm, intm, arp, dp) == s.status
      requires AccessesData(i.mnemonic) ==> 0 <= ea < 144 && data[ea] == w
      modifies `ar, `ov, `ovm, `intm, `arp, `dp
      ensures ar == LoadedAr(s, i, w)
      ensures Status(ov, ovm, intm, arp, dp) == LoadedStatus(s, i, w)
    {
      hide And, LegalAddress, AllWords, AllAddresses, WellFormed, LoadedAr, LoadedStatus;
      CounterPair(s);
      StatusTests(w);
      StatusEffects(s, i, w);
      var m := i.mnemonic;
      if m.LAR? {
        ar := ar[i.operands.register := data[ea]];
      } else if m.LDP? {
        dp := And(data[ea], 1);
      } else if m.LST? {
        UnpackStatus(data[ea]);
      } else {
        ExecuteImmediate(i, s, w);
      }
    }

    /** LST: the status bits of a word, in their places. */
    method UnpackStatus(statusWord: int)
      requires IsWord(statusWord)
      modifies `ov, `ovm, `arp, `dp
      ensures ov == (statusWord >= 0x8000) && ovm == ((statusWord / 0x4000) % 2 == 1)
      ensures arp == (statusWord / 256) % 2 && dp == statusWord % 2
    {
      hide And;
      StatusTests(statusWord);
      ov := And(statusWord, 0x8000) != 0;
      ovm := And(statusWord, 0x4000) != 0;
      arp := And(statusWord / 256, 1);
      dp := And(statusWord, 1);
    }

    /** Constants and single status bits. */
    method ExecuteImmediate(i: Instruction, ghost s: State, ghost w: int)
      requires WellFormed(s) && Legal(i) && IsStatus(i.mnemonic)
              && !(i.mnemonic.LAR? || i.mnemonic.LDP? || i.mnemonic.LST?)
      requires ar == s.ar && Status(ov, ovm, intm, arp, dp) == s.status
      modifies `ar, `ovm, `intm, `arp, `dp
      ensures ar == LoadedAr(s, i, w)
      ensures Status(ov, ovm, intm, arp, dp) == LoadedStatus(s, i, w)
    {
      hide LegalAddress, AllWords, AllAddresses, WellFormed, LoadedAr, LoadedStatus;
      CounterPair(s);
      StatusEffects(s, i, w);
      var m := i.mnemonic;
      if m.LARK? {
        ar := ar[i.operands.register := i.operands.constant];
      } else if m.LARP? {
        arp := i.operands.constant;
      } else if m.LDPK? {
        dp := i.operands.constant;
      } else {
        ExecuteMode(i, s, w);
      }
    }

    /** The overflow mode and the interrupt mask. */
    method ExecuteMode(i: Instruction, ghost s: State, ghost w: int)
      requires WellFormed(s) && Legal(i) && IsMode(i.mnemonic)
      requires ar == s.ar && Status(ov, ovm, intm, arp, dp) == s.status
      modifies `ovm, `intm
      ensures ar == LoadedAr(s, i, w)
      ensures Status(ov, ovm, intm, arp, dp) == LoadedStatus(s, i, w)
    {
      hide LegalAddress, AllWords, AllAddresses, WellFormed, LoadedAr, LoadedStatus;
      StatusEffects(s, i, w);
      var m := i.mnemonic;
      if m.ROVM? {
        ovm := false;
      } else if m.SOVM? {
        ovm := true;
      } else if m.DINT? {
        intm := true;
      } else if m.EINT? {
        intm := false;
      }
    }

    /** Before a store: only the program counter has moved. */
    ghost predicate Storing(s: State, i: Instruction, ea: int)
      reads this, program, data, ioInput, ioOutput
    {
      && Valid() && Executable(s, i) && IsStore(i.mnemonic) && ea == EffectiveAddress(s, i)
      && Snapshot() == s.(pc := FollowingAddress(s))
    }

    /** After it: the memories, the stack, and what LTD adds. */
    ghost predicate StoreDone(s: State, i: Instruction)
      requires Executable(s, i)
      reads this, program, data, ioOutput
    {
      && data[..] == StoreIn(s.data, DataWrite(s, i))
      && program[..] == StoreIn(s.program, ProgramWrite(s, i))
      && ioOutput[..] == StoreIn(s.ioOutput, IoWrite(s, i))
      && stack == NextStack(s, i)
      && acc == NextAcc(s, i, Operand(s, i)) && ov == NextOv(s, i, Operand(s, i))
      && t == NextT(s, i, Operand(s, i))
    }

    /** Writes to the data, program and output memories. */
    method ExecuteStores(i: Instruction, ea: int, transactionData: int, ghost s: State)
      requires Storing(s, i, ea)
      requires i.mnemonic.SST? ==> transactionData == StatusWord(s.status)
      modifies `acc, `ov, `t, `stack, data, program, ioOutput
      ensures StoreDone(s, i)
    {
      var m := i.mnemonic;
      assert IsStore(m);
      hide Storing, StoreDone, Executable, StatusWord;
      if m.LTD? || m.DMOV? {
        MoveData(i, ea, s);
      } else if m.IN? || m.OUT? {
        MovePort(i, ea, s);
      } else if m.TBLR? || m.TBLW? {
        MoveTable(i, ea, s);
      } else {
        StoreRegister(i, ea, transactionData, s);
      }
    }

    /** LTD and DMOV. */
    method MoveData(i: Instruction, ea: int, ghost s: State)
      requires Storing(s, i, ea) && MovesData(i.mnemonic)
      modifies `acc, `ov, `t, data
      ensures StoreDone(s, i)
    {
      hide Bitwise, Pow2, EffectiveAddress, TrapOf, Exact, Stored, Fits32, Operand, StatusWord, AllWords, AllAddresses;
      hide Word, Match, Decode, LegalAddress;
      OperandBounds(s, i);
      var word := data[ea];
      data[ea + 1] := word;
      if i.mnemonic.LTD? {
        t := word;
        AddAccumulator(p);
      }
    }

    /** IN and OUT. */
    method MovePort(i: Instruction, ea: int, ghost s: State)
      requires Storing(s, i, ea) && (i.mnemonic.IN? || i.mnemonic.OUT?)
      modifies data, ioOutput
      ensures StoreDone(s, i)
    {
      hide Bitwise, Pow2, EffectiveAddress, TrapOf, Exact, Stored, Fits32, Operand, StatusWord, AllWords, AllAddresses;
      hide Word, Match, Decode, LegalAddress;
      OperandBounds(s, i);
      if i.mnemonic.IN? {
        data[ea] := ioInput[i.operands.port] % 0x1_0000;
      } else {
        ioOutput[i.operands.port] := data[ea] % 0x1_0000;
      }
    }

    /** TBLR and TBLW. */
    method MoveTable(i: Instruction, ea: int, ghost s: State)
      requires Storing(s, i, ea) && (i.mnemonic.TBLR? || i.mnemonic.TBLW?)
      modifies `stack, data, program
      ensures StoreDone(s, i)
    {
      hide Bitwise, Pow2, EffectiveAddress, TrapOf, Exact, Stored, Fits32, Operand, StatusWord, AllWords, AllAddresses;
      hide Word, Match, Decode, LegalAddress;
      hide NextAcc, NextOv, NextT, NextStack, StoreIn, DataWrite, ProgramWrite, IoWrite;
      OperandBounds(s, i);
      TableIsDone(s, i);
      if i.mnemonic.TBLR? { ReadTable(ea, s); } else { WriteTable(ea, s); }
      stack := stack[3 := stack[2]];
    }

    /** A word of program memory moves to the data memory. */
    method ReadTable(ea: int, ghost s: State)
      requires Valid() && 0 <= ea < 144
      requires WellFormed(s) && Snapshot() == s.(pc := FollowingAddress(s))
      modifies data
      ensures data[..] == s.data[ea := s.program[s.acc % 4096]]
    {
      hide Bitwise, Pow2, AllAddresses;
      data[ea] := program[acc % 4096] % 0x1_0000;
    }

    /** A word of data memory moves to the program memory. */
    method WriteTable(ea: int, ghost s: State)
      requires Valid() && 0 <= ea < 144
      requires WellFormed(s) && Snapshot() == s.(pc := FollowingAddress(s))
      modifies program
      ensures program[..] == s.program[s.acc % 4096 := s.data[ea]]
    {
      hide Bitwise, Pow2, AllAddresses;
      program[acc % 4096] := data[ea] % 0x1_0000;
    }

    /** SACL, SACH, SAR and SST. */
    method StoreRegister(i: Instruction, ea: int, transactionData: int, ghost s: State)
      requires Storing(s, i, ea) && IsRegisterStore(i.mnemonic)
      requires i.mnemonic.SST? ==> transactionData == StatusWord(s.status)
      modifies data
      ensures StoreDone(s, i)
    {
      hide Bitwise, Pow2, EffectiveAddress, TrapOf, Exact, Stored, Fits32, Operand, StatusWord, AllWords, AllAddresses;
      hide Word, Match, Decode, LegalAddress;
      OperandBounds(s, i);
      if i.mnemonic.SACL? {
        data[ea] := acc % 0x1_0000;
      } else if i.mnemonic.SACH? {
        var shifted := (acc * Pow2(i.operands.shift)) % 0x1_0000_0000;
        data[ea] := shifted / 0x1_0000;
      } else if i.mnemonic.SAR? {
        data[ea] := StoredValue(i);
      } else {
        data[ea] := transactionData;
      }
    }

    /** The value SAR stores: the counter after its own indirect update. */
    function StoredValue(i: Instruction): int
      requires Valid() && Legal(i) && i.operands.RegisterData?
      reads this, program, data, ioInput, ioOutput
      ensures StoredValue(i) == StoredRegister(Snapshot(), i)
    {
      var value := ar[i.operands.register];
      ControlTests(i.operands.field);
      ModifyIsMoved(value, 1);
      ModifyIsMoved(value, -1);
      hide And, ModifyCounter, ControlBit, Moved;
      if i.operands.indirect && i.operands.register == arp then
        if And(i.operands.field, 0x20) != 0 then ModifyCounter(value, 1)
        else if And(i.operands.field, 0x10) != 0 then ModifyCounter(value, -1)
        else assert Moved(value, 0) == value by { MovedZero(value); } value
      else value
    }

    /** The word the data, port and table transactions carry. */
    method TransactionWord(i: Instruction, ea: int) returns (transactionData: int)
      requires Valid() && Executable(Snapshot(), i) && AccessesData(i.mnemonic)
      requires ea == EffectiveAddress(Snapshot(), i)
      ensures transactionData == LoggedWord(Snapshot(), i)
    {
      hide Bitwise, Pow2, EffectiveAddress, TrapOf, Operand, StatusWord, PackStatus, StoredRegister;
      hide DataLog, Decode, Word, LegalAddress, Match, AllWords, AllAddresses, HighHalf;
      OperandBounds(Snapshot(), i);
      var m := i.mnemonic;
      if m.IN? {
        transactionData := ioInput[i.operands.port] % 0x1_0000;
      } else if m.TBLR? {
        transactionData := program[acc % 4096];
      } else if m.SACL? {
        transactionData := acc % 0x1_0000;
      } else if m.SAR? {
        transactionData := StoredValue(i);
      } else if m.SST? {
        transactionData := PackStatus(ov, ovm, intm, arp, dp);
        PackIsStatusWord(ov, ovm, intm, arp, dp);
      } else if m.SACH? {
        transactionData := HighHalf(acc, i.operands.shift);
      } else {
        transactionData := data[ea];
      }
    }

    /** The data, port and table transactions. */
    method LogData(i: Instruction, ea: int, transactionData: int) returns (log: seq<Transaction>)
      requires Valid() && Executable(Snapshot(), i) && AccessesData(i.mnemonic)
      requires ea == EffectiveAddress(Snapshot(), i) && transactionData == LoggedWord(Snapshot(), i)
      ensures log == DataLog(Snapshot(), i)
    {
      hide Bitwise, Pow2, EffectiveAddress, TrapOf, Operand, StatusWord, PackStatus, StoredRegister;
      hide HighHalf, Decode, Word, LegalAddress, Match, WellFormed;
      var m := i.mnemonic;
      if m.IN? {
        log := [Transaction(cycleCount + 1, IoSpace, Read, i.operands.port, transactionData),
                Transaction(cycleCount + 1, DataSpace, Write, ea, transactionData)];
      } else if m.OUT? {
        log := [Transaction(cycleCount + 1, DataSpace, Read, ea, transactionData),
                Transaction(cycleCount + 1, IoSpace, Write, i.operands.port, transactionData)];
      } else if m.TBLR? || m.TBLW? {
        log := LogTable(m, ea, transactionData);
      } else {
        var writes := m.SACL? || m.SACH? || m.SAR? || m.SST?;
        log := [Transaction(cycleCount, DataSpace, if writes then Write else Read, ea, transactionData)];
      }
      if m.DMOV? || m.LTD? {
        log := log + [Transaction(cycleCount, DataSpace, Write, ea + 1, transactionData)];
      }
    }

    method LogTable(m: Mnemonic, ea: int, transactionData: int) returns (log: seq<Transaction>)
      requires Valid() && (m.TBLR? || m.TBLW?)
      ensures log ==
        [Transaction(cycleCount + 1, ProgramSpace, DiscardedPrefetch, (pc + 1) % 4096, program[(pc + 1) % 4096])] +
        if m.TBLR? then
          [Transaction(cycleCount + 2, ProgramSpace, TableRead, acc % 4096, transactionData),
           Transaction(cycleCount + 2, DataSpace, Write, ea, transactionData)]
        else
          [Transaction(cycleCount + 2, DataSpace, Read, ea, transactionData),
           Transaction(cycleCount + 2, ProgramSpace, TableWrite, acc % 4096, transactionData)]
    {
      var following := (pc + 1) % 4096;
      log := [Transaction(cycleCount + 1, ProgramSpace, DiscardedPrefetch, following, program[following])];
      if m.TBLR? {
        log := log + [Transaction(cycleCount + 2, ProgramSpace, TableRead, acc % 4096, transactionData),
                      Transaction(cycleCount + 2, DataSpace, Write, ea, transactionData)];
      } else {
        log := log + [Transaction(cycleCount + 2, DataSpace, Read, ea, transactionData),
                      Transaction(cycleCount + 2, ProgramSpace, TableWrite, acc % 4096, transactionData)];
      }
    }

    /** The counter and ARP update of an indirect operand. */
    method IndirectUpdate(i: Instruction, selectedArp: int, ghost s: State, ghost w: int)
      requires WellFormed(s) && Legal(i) && IsIndirect(i) && selectedArp == s.status.arp && IsWord(w)
      requires ar == LoadedAr(s, i, w)
      requires arp == if i.mnemonic.LST? then NextStatus(s, i, w).arp else s.status.arp
      modifies `ar, `arp
      ensures ar == NextAr(s, i, w) && arp == NextStatus(s, i, w).arp
    {
      hide And, ModifyCounter, ControlBit, Moved, NextOv, LegalControl, WellFormed;
      var control := i.operands.field;
      ControlTests(control);
      LoadedWords(s, i, w);
      var suppress := i.mnemonic.LAR? && i.operands.register == selectedArp;
      ModifyIsMoved(ar[selectedArp], 1);
      ModifyIsMoved(ar[selectedArp], -1);
      MovedZero(ar[selectedArp]);
      if !suppress {
        if And(control, 0x20) != 0 {
          ar := ar[selectedArp := ModifyCounter(ar[selectedArp], 1)];
        } else if And(control, 0x10) != 0 {
          ar := ar[selectedArp := ModifyCounter(ar[selectedArp], -1)];
        }
      }
      if And(control, 0x08) == 0 && !i.mnemonic.LST? {
        arp := And(control, 1);
      }
    }

    // ------------------------------------------------- one call of `step`

    /** CALA, POP, PUSH and RET. */
    method MoveStack(i: Instruction)
      requires Valid() && Executable(Snapshot(), i) && IsStackOperation(i.mnemonic)
      modifies `pc, `stack, `acc
      ensures pc == NextPc(old(Snapshot()), i)
      ensures stack == NextStack(old(Snapshot()), i)
      ensures acc == if i.mnemonic.POP? then old(stack)[0] else old(acc)
    {
      hide Bitwise, Decode, TrapOf, Operand, Match, Word, AllWords, Legal;
      if i.mnemonic.CALA? {
        var returnAddress := (pc + 1) % 4096;
        stack := [returnAddress, stack[0] % 4096, stack[1] % 4096, stack[2] % 4096];
        pc := acc % 4096;
      } else if i.mnemonic.POP? || i.mnemonic.RET? {
        var oldTop := stack[0] % 4096;
        var oldBottom := stack[3] % 4096;
        stack := [stack[1] % 4096, stack[2] % 4096, oldBottom, oldBottom];
        if i.mnemonic.POP? {
          acc := oldTop;
          pc := (pc + 1) % 4096;
        } else {
          pc := oldTop;
        }
      } else {
        stack := [acc % 4096, stack[0] % 4096, stack[1] % 4096, stack[2] % 4096];
        pc := (pc + 1) % 4096;
      }
    }

    method StackAndElapse(i: Instruction)
      requires Valid() && Executable(Snapshot(), i) && IsStackOperation(i.mnemonic)
      modifies `pc, `stack, `acc, `cycleCount, `interruptDelayOne, `interruptEntryPending
      ensures pc == NextPc(old(Snapshot()), i)
      ensures stack == NextStack(old(Snapshot()), i)
      ensures acc == if i.mnemonic.POP? then old(stack)[0] else old(acc)
      ensures cycleCount == old(cycleCount) + 2
      ensures Latches(interruptDelayOne, interruptEntryPending)
           == Advance(Latches(old(interruptDelayOne), old(interruptEntryPending)), interruptPending, intm, i.mnemonic)
    {
      hide Bitwise, Decode, Operand, Match, Word, NextPc, NextStack, Advance, TrapOf, Legal, AllWords, AllAddresses;
      hide WellFormed;
      MoveStack(i);
      Elapse(2, i.mnemonic);
    }

    /** The one-word instructions that use the stack. */
    method ExecuteStack(i: Instruction, opcode: int, fetch: Transaction) returns (r: StepResult)
      requires Valid() && Legal(i) && IsStackOperation(i.mnemonic)
      requires opcode == program[pc] && fetch == FetchOf(Snapshot())
      modifies this
      ensures Agrees(r, Snapshot(), Execute(old(Snapshot()), i))
    {
      hide Bitwise, And, Decode, Operand, Match, Word, NextPc, NextStack, NextAr, NextOv, TrapOf, AllWords;
      hide AllAddresses;
      hide Legal, Advance, Execute;
      ghost var s := Snapshot();
      StackOutcome(s, i);
      var oldPc := pc;
      StackAndElapse(i);
      r := Returned(Trace(oldPc, opcode, Executed(i), NoDetails, 2, [fetch]));
    }

    /** Branches and CALL, once the target word is known to be an address. */
    method ExecuteBranch(i: Instruction, target: int) returns (details: Details)
      requires Valid() && Executable(Snapshot(), i) && IsTwoWord(i.mnemonic)
      requires target == program[(pc + 1) % 4096]
      modifies `pc, `ar, `stack, `ov
      ensures pc == NextPc(old(Snapshot()), i)
      ensures ar == NextAr(old(Snapshot()), i, 0)
      ensures stack == NextStack(old(Snapshot()), i)
      ensures ov == NextOv(old(Snapshot()), i, 0)
      ensures details == BranchDetails(old(Snapshot()), i.mnemonic, target)
    {
      hide Bitwise, And, Decode, TrapOf, Operand, Match, Word, ModifyCounter, Moved, Exact, AccOpOf;
      CounterLow(ar[arp]);
      ModifyIsMoved(ar[arp], -1);
      TwoWordIsNoAccOp(i, Snapshot());
      var m := i.mnemonic;
      var skip := (pc + 2) % 4096;
      if m.BANZ? {
        var branchTaken := And(ar[arp], 0x01FF) != 0;
        details := CountedBranch(arp, target, branchTaken);
        ar := ar[arp := ModifyCounter(ar[arp], -1)];
        pc := if branchTaken then target else skip;
      } else if m.B? {
        details := Jump(target);
        pc := target;
      } else if m.BV? {
        var branchTaken := ov;
        details := Branch(target, branchTaken);
        pc := if branchTaken then target else skip;
        if branchTaken {
          ov := false;
        }
      } else if m.BIOZ? {
        var branchTaken := !bioInputHigh;
        details := Branch(target, branchTaken);
        pc := if branchTaken then target else skip;
      } else if m.CALL? {
        details := Jump(target);
        stack := [skip, stack[0], stack[1], stack[2]];
        pc := target;
      } else {
        var branchTaken := AccumulatorBranchTaken(m, acc);
        details := Branch(target, branchTaken);
        pc := if branchTaken then target else skip;
      }
    }

    method BranchAndElapse(i: Instruction, target: int) returns (details: Details)
      requires Valid() && Executable(Snapshot(), i) && IsTwoWord(i.mnemonic)
      requires target == program[(pc + 1) % 4096]
      modifies `pc, `ar, `stack, `ov, `cycleCount, `interruptDelayOne, `interruptEntryPending
      ensures pc == NextPc(old(Snapshot()), i)
      ensures ar == NextAr(old(Snapshot()), i, 0)
      ensures stack == NextStack(old(Snapshot()), i)
      ensures ov == NextOv(old(Snapshot()), i, 0)
      ensures cycleCount == old(cycleCount) + 2
      ensures Latches(interruptDelayOne, interruptEntryPending)
           == Advance(Latches(old(interruptDelayOne), old(interruptEntryPending)), interruptPending, intm, i.mnemonic)
      ensures details == BranchDetails(old(Snapshot()), i.mnemonic, target)
    {
      hide Bitwise, And, Decode, Operand, Match, Word, NextPc, NextAr, NextStack, NextOv, BranchDetails, Advance;
      hide TrapOf, Legal, AllWords, AllAddresses, WellFormed;
      details := ExecuteBranch(i, target);
      Elapse(2, i.mnemonic);
    }

    /** The two-word instructions: fetch the target word, then branch or call. */
    method ExecuteControlFlow(i: Instruction, opcode: int, fetch: Transaction) returns (r: StepResult)
      requires Valid() && Legal(i) && IsTwoWord(i.mnemonic)
      requires opcode == program[pc] && fetch == FetchOf(Snapshot())
      modifies this
      ensures Agrees(r, Snapshot(), Execute(old(Snapshot()), i))
    {
      hide Bitwise, And, Decode, Operand, Match, Word, NextPc, NextAr, NextStack, NextOv, AccOpOf, BranchTaken;
      hide TrapOf, Legal, Advance, AllWords, AllAddresses, BranchDetails;
      ghost var s := Snapshot();
      var oldPc := pc;
      var operandAddress := (oldPc + 1) % 4096;
      var operandWord := program[operandAddress];
      WordOfProgram(s, operandAddress);
      AddressTest(operandWord);
      if And(operandWord, 0xF000) != 0 {
        TwoWordTrap(s, i);
        return Raised(UnsupportedProgramOperand(oldPc, opcode, operandAddress, operandWord));
      }
      r := FollowBranch(i, opcode, fetch, operandAddress, operandWord);
    }

    method FollowBranch(i: Instruction, opcode: int, fetch: Transaction, operandAddress: int, operandWord: int)
      returns (r: StepResult)
      requires Valid() && Legal(i) && IsTwoWord(i.mnemonic)
      requires opcode == program[pc] && fetch == FetchOf(Snapshot())
      requires operandAddress == (pc + 1) % 4096 && operandWord == program[operandAddress] < 4096
      modifies this
      ensures Agrees(r, Snapshot(), Execute(old(Snapshot()), i))
    {
      hide Bitwise, And, Decode, Operand, Match, Word, NextPc, NextAr, NextStack, NextOv, AccOpOf, BranchTaken;
      hide TrapOf, Legal, Advance, AllWords, AllAddresses, BranchDetails, Execute;
      ghost var s := Snapshot();
      BranchOutcome(s, i);
      WordOfProgram(s, operandAddress);
      var oldPc := pc;
      var log := [fetch, Transaction(cycleCount + 1, ProgramSpace, FollowingWordFetch, operandAddress, operandWord)];
      var details := BranchAndElapse(i, operandWord % 4096);
      r := Returned(Trace(oldPc, opcode, Executed(i), details, 2, log));
    }

    /** The data address of an ordinary instruction, the counter it selects, and
        the exceptions raised before anything changes. */
    method Address(i: Instruction, opcode: int) returns (ea: int, selectedArp: Option<int>, trap: Option<Trap>)
      requires Valid() && Legal(i) && IsOrdinary(i.mnemonic) && opcode == program[pc]
      ensures trap == TrapOf(Snapshot(), i)
      ensures IsIndirect(i) ==> selectedArp == Some(arp)
      ensures AccessesData(i.mnemonic) ==> ea == EffectiveAddress(Snapshot(), i)
    {
      hide Bitwise, And, Decode, Match, Word, AllWords, AllAddresses;
      var m := i.mnemonic;
      ea, selectedArp, trap := 0, None, None;
      if m.MAR? && i.operands.indirect {
        selectedArp := Some(arp);
      }
      if AccessesData(m) {
        if i.operands.indirect {
          selectedArp := Some(arp);
          ea := ar[arp] % 256;
        } else if m.SST? {
          ea := 0x80 + i.operands.field;
        } else {
          ea := dp * 128 + i.operands.field;
        }
        if ea >= DATA_WORDS {
          trap := Some(UnsupportedDataAddress(pc, opcode, ea));
        } else if (m.DMOV? || m.LTD?) && ea + 1 >= DATA_WORDS {
          trap := Some(UnsupportedDataAddress(pc, opcode, ea + 1));
        }
      }
    }

    /** Between the log and the effects: only the program counter has moved. */
    ghost predicate Logged(s: State, i: Instruction, ea: int, word: int)
      reads this, program, data, ioInput, ioOutput
    {
      && Valid() && Executable(s, i) && IsOrdinary(i.mnemonic)
      && Snapshot() == s.(pc := FollowingAddress(s))
      && (AccessesData(i.mnemonic) ==> ea == EffectiveAddress(s, i) && word == LoggedWord(s, i))
    }

    /** Between the effects and the indirect update. */
    ghost predicate Effected(s: State, i: Instruction)
      requires Executable(s, i)
      reads this, program, data, ioOutput
    {
      var w := Operand(s, i);
      && acc == NextAcc(s, i, w) && p == NextP(s, i, w) && t == NextT(s, i, w)
      && ar == LoadedAr(s, i, w) && stack == NextStack(s, i)
      && Status(ov, ovm, intm, arp, dp) == LoadedStatus(s, i, w)
      && data[..] == StoreIn(s.data, DataWrite(s, i))
      && program[..] == StoreIn(s.program, ProgramWrite(s, i))
      && ioOutput[..] == StoreIn(s.ioOutput, IoWrite(s, i))
    }

    /** The effects of an ordinary instruction. The last branch stands for the
        AssertionError about an unhandled mnemonic. */
    method ExecuteEffects(i: Instruction, ea: int, transactionData: int, ghost s: State)
      requires Logged(s, i, ea, transactionData)
      modifies `acc, `p, `t, `ar, `stack, `ov, `ovm, `intm, `arp, `dp, data, program, ioOutput
      ensures Effected(s, i)
    {
      var m := i.mnemonic;
      assert IsOrdinary(m);
      hide Logged, Effected, Executable;
      if IsArithmetic(m) {
        EffectOfArithmetic(i, ea, transactionData, s);
      } else if IsLogic(m) {
        EffectOfLogic(i, ea, transactionData, s);
      } else if IsStatus(m) {
        EffectOfStatus(i, ea, transactionData, s);
      } else if IsStore(m) {
        EffectOfStore(i, ea, transactionData, s);
      } else {
        assert false;
      }
    }

    method EffectOfArithmetic(i: Instruction, ea: int, transactionData: int, ghost s: State)
      requires Logged(s, i, ea, transactionData) && IsArithmetic(i.mnemonic)
      modifies `acc, `ov, `t
      ensures Effected(s, i)
    {
      hide Bitwise, And, Decode, Match, Word, EffectiveAddress, Operand, TrapOf, AllWords, AllAddresses, MovesData;
      hide NextAcc, NextP, NextT, NextStack, NextStatus, NextOv, LoadedAr, LoadedStatus, StoreIn, DataWrite;
      hide ProgramWrite, IoWrite;
      hide Legal, StatusWord, WellFormed;
      ghost var w := Operand(s, i);
      if AccessesData(i.mnemonic) { OperandBounds(s, i); }
      ArithmeticEffect(s, i);
      ExecuteArithmetic(i, ea, s, w);
    }

    method EffectOfLogic(i: Instruction, ea: int, transactionData: int, ghost s: State)
      requires Logged(s, i, ea, transactionData) && IsLogic(i.mnemonic)
      modifies `acc, `p, `t
      ensures Effected(s, i)
    {
      hide Bitwise, And, Decode, Match, Word, EffectiveAddress, Operand, TrapOf, AllWords, AllAddresses, MovesData;
      hide NextAcc, NextP, NextT, NextStack, NextStatus, NextOv, LoadedAr, LoadedStatus, StoreIn, DataWrite;
      hide ProgramWrite, IoWrite;
      hide Legal, StatusWord, WellFormed;
      ghost var w := Operand(s, i);
      if AccessesData(i.mnemonic) { OperandBounds(s, i); }
      LogicEffect(s, i);
      ExecuteLogic(i, ea, s, w);
    }

    method EffectOfStatus(i: Instruction, ea: int, transactionData: int, ghost s: State)
      requires Logged(s, i, ea, transactionData) && IsStatus(i.mnemonic)
      modifies `ar, `ov, `ovm, `intm, `arp, `dp
      ensures Effected(s, i)
    {
      hide Bitwise, And, Decode, Match, Word, EffectiveAddress, Operand, TrapOf, AllWords, AllAddresses, MovesData;
      hide NextAcc, NextP, NextT, NextStack, NextStatus, NextOv, LoadedAr, LoadedStatus, StoreIn, DataWrite;
      hide ProgramWrite, IoWrite;
      hide Legal, StatusWord, WellFormed;
      ghost var w := Operand(s, i);
      if AccessesData(i.mnemonic) { OperandBounds(s, i); }
      StatusEffect(s, i);
      ExecuteStatus(i, ea, s, w);
    }

    method EffectOfStore(i: Instruction, ea: int, transactionData: int, ghost s: State)
      requires Logged(s, i, ea, transactionData) && IsStore(i.mnemonic)
      modifies `acc, `ov, `t, `stack, data, program, ioOutput
      ensures Effected(s, i)
    {
      hide Bitwise, And, Decode, Match, Word, EffectiveAddress, Operand, TrapOf, AllWords, AllAddresses, MovesData;
      hide NextAcc, NextP, NextT, NextStack, NextStatus, NextOv, LoadedAr, LoadedStatus, StoreIn, DataWrite;
      hide ProgramWrite, IoWrite;
      hide Legal, StatusWord, WellFormed;
      ghost var w := Operand(s, i);
      if AccessesData(i.mnemonic) { OperandBounds(s, i); }
      StoreEffect(s, i);
      ExecuteStores(i, ea, transactionData, s);
    }

    /** Indirect update, time and interrupt latches. The assertion is the
        source's own: an indirect operand has selected a counter. */
    method Finish(i: Instruction, selectedArp: Option<int>, ghost s: State) returns (cycles: int)
      requires Executable(s, i) && IsOrdinary(i.mnemonic)
      requires ar == LoadedAr(s, i, Operand(s, i))
      requires Status(ov, ovm, intm, arp, dp) == LoadedStatus(s, i, Operand(s, i))
      requires IsIndirect(i) ==> selectedArp == Some(s.status.arp)
      modifies `ar, `arp, `cycleCount, `interruptDelayOne, `interruptEntryPending
      ensures ar == NextAr(s, i, Operand(s, i))
      ensures Status(ov, ovm, intm, arp, dp) == NextStatus(s, i, Operand(s, i))
      ensures cycles == Duration(i.mnemonic) && cycleCount == old(cycleCount) + cycles
      ensures Latches(interruptDelayOne, interruptEntryPending)
           == Advance(Latches(old(interruptDelayOne), old(interruptEntryPending)), interruptPending, intm, i.mnemonic)
    {
      hide Bitwise, And, Decode, Match, Word, EffectiveAddress, Operand, TrapOf, AllWords, AllAddresses;
      hide NextStatus, NextOv, NextAr, LoadedAr, Legal, Advance, WellFormed;
      ghost var w := Operand(s, i);
      IndirectEffect(s, i, w);
      if IsIndirect(i) {
        assert selectedArp.Some?;
        IndirectUpdate(i, selectedArp.value, s, w);
      }
      cycles := if i.mnemonic.TBLR? || i.mnemonic.TBLW? then 3 else if i.mnemonic.IN? || i.mnemonic.OUT? then 2 else 1;
      Elapse(cycles, i.mnemonic);
    }

    /** Every other instruction: log, effects, counter update, cycles, latches. */
    method ExecuteOrdinary(i: Instruction, opcode: int, fetch: Transaction) returns (r: StepResult)
      requires Valid() && Legal(i) && IsOrdinary(i.mnemonic)
      requires opcode == program[pc] && fetch == FetchOf(Snapshot())
      modifies this, data, program, ioOutput
      ensures Agrees(r, Snapshot(), Execute(old(Snapshot()), i))
    {
      ghost var s := Snapshot();
      hide Bitwise, And, Decode, Match, Word, EffectiveAddress, Operand, TrapOf, AllWords, AllAddresses;
      hide Effected, Logged;
      hide Legal, Retire, Log, DataLog, LoggedWord, Advance, NextPc;
      var oldPc := pc;
      var ea, selectedArp, trap := Address(i, opcode);
      if trap.Some? {
        return Raised(trap.value);
      }
      RetireOrdinary(s, i);
      var log := [fetch];
      var details, transactionData := NoDetails, 0;
      if AccessesData(i.mnemonic) {
        details := AccessDetails(i.mnemonic, ea, acc);
        transactionData := TransactionWord(i, ea);
        var more := LogData(i, ea, transactionData);
        log := log + more;
      }
      MovePc(i, ea, transactionData, s);
      var cycles := Complete(i, ea, selectedArp, transactionData, s);
      r := Returned(Trace(oldPc, opcode, Executed(i), details, cycles, log));
    }

    /** The program counter moves on before the effects. */
    method MovePc(i: Instruction, ea: int, transactionData: int, ghost s: State)
      requires Valid() && s == Snapshot() && Executable(s, i) && IsOrdinary(i.mnemonic)
      requires AccessesData(i.mnemonic) ==> ea == EffectiveAddress(s, i) && transactionData == LoggedWord(s, i)
      modifies `pc
      ensures Logged(s, i, ea, transactionData)
    {
      hide Bitwise, And, Decode, Match, Word, EffectiveAddress, LoggedWord, TrapOf, AllWords, AllAddresses, Legal;
      pc := (pc + 1) % 4096;
    }

    /** The fields of a retired instruction. */
    ghost predicate Completed(s: State, i: Instruction)
      requires Executable(s, i)
      reads this, program, data, ioOutput
    {
      var w := Operand(s, i);
      && acc == NextAcc(s, i, w) && p == NextP(s, i, w) && t == NextT(s, i, w)
      && ar == NextAr(s, i, w) && stack == NextStack(s, i)
      && Status(ov, ovm, intm, arp, dp) == NextStatus(s, i, w)
      && data[..] == StoreIn(s.data, DataWrite(s, i))
      && program[..] == StoreIn(s.program, ProgramWrite(s, i))
      && ioOutput[..] == StoreIn(s.ioOutput, IoWrite(s, i))
      && cycleCount == s.cycles + Duration(i.mnemonic)
      && Latches(interruptDelayOne, interruptEntryPending)
         == Advance(Latches(s.delayOne, s.entryPending), s.pending, intm, i.mnemonic)
    }

    method EffectAndFinish(i: Instruction, ea: int, selectedArp: Option<int>, transactionData: int, ghost s: State)
      returns (cycles: int)
      requires Logged(s, i, ea, transactionData)
      requires IsIndirect(i) ==> selectedArp == Some(s.status.arp)
      modifies `acc, `p, `t, `ar, `stack, `ov, `ovm, `intm, `arp, `dp, data, program, ioOutput
      modifies `cycleCount, `interruptDelayOne, `interruptEntryPending
      ensures Completed(s, i) && cycles == Duration(i.mnemonic)
    {
      hide Bitwise, And, Decode, Match, Word, EffectiveAddress, Operand, TrapOf, AllWords, AllAddresses;
      hide NextAcc, NextP, NextT, NextStack, NextStatus, NextOv, LoadedAr, StoreIn, DataWrite, ProgramWrite, IoWrite;
      hide Legal, Advance, LoadedStatus, NextAr, LoggedWord, WellFormed;
      ExecuteEffects(i, ea, transactionData, s);
      cycles := Finish(i, selectedArp, s);
    }

    /** From the log to the end of the instruction. */
    method Complete(i: Instruction, ea: int, selectedArp: Option<int>, transactionData: int, ghost s: State)
      returns (cycles: int)
      requires Logged(s, i, ea, transactionData)
      requires IsIndirect(i) ==> selectedArp == Some(s.status.arp)
      modifies this, data, program, ioOutput
      ensures Snapshot() == Retire(s, i) && cycles == Duration(i.mnemonic)
    {
      hide Bitwise, And, Decode, Match, Word, EffectiveAddress, Operand, TrapOf, AllWords, AllAddresses;
      hide NextAcc, NextP, NextT, NextStack, NextStatus, NextOv, StoreIn, DataWrite, ProgramWrite, IoWrite;
      hide Legal, Advance, NextAr, NextPc, LoggedWord, Log, DataLog, WellFormed;
      RetireOrdinary(s, i);
      cycles := EffectAndFinish(i, ea, selectedArp, transactionData, s);
    }

    /** The dummy cycle: stack the program counter and go to the vector. */
    method TakeVector()
      requires |stack| == 4
      modifies `pc, `stack, `intm, `interruptPending, `interruptDelayOne, `interruptEntryPending, `cycleCount
      ensures pc == 2 && stack == Push(old(stack), old(pc)) && intm && !interruptPending
      ensures !interruptDelayOne && !interruptEntryPending && cycleCount == old(cycleCount) + 1
    {
      stack := [pc, stack[0], stack[1], stack[2]];
      pc := 2;
      intm := true;
      interruptPending := false;
      interruptDelayOne := false;
      interruptEntryPending := false;
      cycleCount := cycleCount + 1;
    }

    method EnterInterruptRoutine(opcode: int) returns (r: StepResult)
      requires Valid() && opcode == program[pc]
      modifies this
      ensures Snapshot() == EnterInterrupt(old(Snapshot()))
      ensures r == Returned(Trace(old(pc), opcode, InterruptEntry, EntryDetails(old(pc), 2), 1,
                [Transaction(old(cycleCount), ProgramSpace, InterruptDummyFetch, old(pc), opcode)]))
    {
      hide AllWords, AllAddresses, Decode;
      var log := [Transaction(cycleCount, ProgramSpace, InterruptDummyFetch, pc, opcode)];
      r := Returned(Trace(pc, opcode, InterruptEntry, EntryDetails(pc, 2), 1, log));
      TakeVector();
    }

    /** The three groups a decoded instruction belongs to. */
    method ExecuteDecoded(i: Instruction, opcode: int, fetch: Transaction) returns (r: StepResult)
      requires Valid() && Legal(i)
      requires opcode == program[pc] && fetch == FetchOf(Snapshot())
      modifies this, data, program, ioOutput
      ensures Agrees(r, Snapshot(), Execute(old(Snapshot()), i))
    {
      hide Bitwise, And, Decode, Word, Match, Execute, AllWords, AllAddresses, Legal, Agrees;
      if IsStackOperation(i.mnemonic) {
        r := ExecuteStack(i, opcode, fetch);
      } else if IsTwoWord(i.mnemonic) {
        r := ExecuteControlFlow(i, opcode, fetch);
      } else {
        r := ExecuteOrdinary(i, opcode, fetch);
      }
    }

    /** `step`: enter a pending interrupt, or fetch, decode and execute. */
    method Step() returns (r: StepResult)
      requires Valid()
      modifies this, data, program, ioOutput
      ensures Agrees(r, Snapshot(), Semantics.Step(old(Snapshot())))
      ensures Valid()
    {
      ghost var s := Snapshot();
      var opcode := program[pc];
      assert IsWord(opcode);
      hide Bitwise, And, Decode, Word, Match, Execute, AllWords, AllAddresses, Legal;
      StepKeepsWidths(s);
      if interruptEntryPending {
        r := EnterInterruptRoutine(opcode);
        return;
      }
      if !interruptInputHigh {
        interruptPending := true;
      }
      var fetch := Transaction(cycleCount, ProgramSpace, InstructionFetch, pc, opcode);
      var decoded := Decode(opcode);
      if decoded.None? {
        return Raised(UnsupportedOpcode(pc, opcode));
      }
      r := ExecuteDecoded(decoded.value, opcode, fetch);
    }
  }

  lemma TwoWordIsNoAccOp(i: Instruction, s: State)
    requires Legal(i) && IsTwoWord(i.mnemonic)
    ensures AccOpOf(s, i, 0).None?
  {
  }

  /** Only the multiplications change the product register. */
  lemma ProductKept(s: State, i: Instruction, w: int)
    requires Legal(i)
    ensures !i.mnemonic.MPY? && !i.mnemonic.MPYK? ==> NextP(s, i, w) == s.p
  {
  }

  /** What BANZ tests. */
  lemma CounterLow(value: int)
    ensures And(value, 0x01FF) == value % 512
  {
    Pow2Table();
    AndOnes(value, 9);
  }

  /** What the table instructions change. */
  lemma TableIsDone(s: State, i: Instruction)
    requires Executable(s, i) && (i.mnemonic.TBLR? || i.mnemonic.TBLW?)
    ensures var ea, cell, w := EffectiveAddress(s, i), s.acc % 4096, Operand(s, i);
            && 0 <= ea < 144 && w == s.data[ea]
            && StoreIn(s.data, DataWrite(s, i))
               == (if i.mnemonic.TBLR? then s.data[ea := s.program[cell]] else s.data)
            && StoreIn(s.program, ProgramWrite(s, i)) == (if i.mnemonic.TBLW? then s.program[cell := w] else s.program)
            && StoreIn(s.ioOutput, IoWrite(s, i)) == s.ioOutput
            && NextStack(s, i) == s.stack[3 := s.stack[2]]
            && NextAcc(s, i, w) == s.acc && NextOv(s, i, w) == s.status.ov && NextT(s, i, w) == s.t
  {
    hide EffectiveAddress, AllWords, AllAddresses;
    OperandBounds(s, i);
  }

  lemma WordOfProgram(s: State, address: int)
    requires WellFormed(s) && 0 <= address < 4096
    ensures IsWord(s.program[address])
  {
  }

  predicate IsStackOperation(m: Mnemonic) { m.CALA? || m.POP? || m.PUSH? || m.RET? }

  lemma OneWordNeverTraps(s: State, i: Instruction)
    requires WellFormed(s) && Legal(i) && IsStackOperation(i.mnemonic)
    ensures TrapOf(s, i).None?
  {
  }

  lemma TwoWordTrap(s: State, i: Instruction)
    requires WellFormed(s) && Legal(i) && IsTwoWord(i.mnemonic)
    ensures var word := s.program[FollowingAddress(s)];
            TrapOf(s, i) == if word >= 4096
              then Some(UnsupportedProgramOperand(s.pc, s.program[s.pc], FollowingAddress(s), word)) else None
  {
  }

  predicate IsControl(m: Mnemonic) { IsStackOperation(m) || IsTwoWord(m) }

  lemma ControlRegisters(s: State, i: Instruction)
    requires Executable(s, i) && IsControl(i.mnemonic)
    ensures Operand(s, i) == 0 && NextP(s, i, 0) == s.p && NextT(s, i, 0) == s.t
    ensures NextAcc(s, i, 0) == if i.mnemonic.POP? then s.stack[0] else s.acc
    ensures IsStackOperation(i.mnemonic) ==> NextAr(s, i, 0) == s.ar && NextOv(s, i, 0) == s.status.ov
  {
    hide TrapOf, AllWords, AllAddresses, Bitwise, Exact;
  }

  lemma ControlStatus(s: State, i: Instruction)
    requires Executable(s, i) && IsControl(i.mnemonic)
    ensures NextStatus(s, i, 0) == s.status.(ov := NextOv(s, i, 0))
  {
    hide TrapOf, WellFormed, NextOv;
  }

  lemma ControlWrites(s: State, i: Instruction)
    requires Executable(s, i) && IsControl(i.mnemonic)
    ensures StoreIn(s.data, DataWrite(s, i)) == s.data && StoreIn(s.program, ProgramWrite(s, i)) == s.program
    ensures StoreIn(s.ioOutput, IoWrite(s, i)) == s.ioOutput
    ensures Duration(i.mnemonic) == 2 && !AccessesData(i.mnemonic)
  {
    hide TrapOf, WellFormed, EffectiveAddress;
  }

  /** The state control flow leaves. */
  function ControlState(s: State, i: Instruction): State
    requires Executable(s, i)
  {
    var latches := Advance(Latches(s.delayOne, s.entryPending), s.pending, s.status.intm, i.mnemonic);
    s.(pc := NextPc(s, i), acc := if i.mnemonic.POP? then s.stack[0] else s.acc,
       ar := NextAr(s, i, 0), stack := NextStack(s, i),
       status := s.status.(ov := NextOv(s, i, 0)), cycles := s.cycles + 2,
       delayOne := latches.delayOne, entryPending := latches.entryPending)
  }

  lemma RetireControl(s: State, i: Instruction)
    requires Executable(s, i) && IsControl(i.mnemonic)
    ensures Retire(s, i) == ControlState(s, i)
  {
    hide Advance, NextPc, NextAcc, NextP, NextT, NextAr, NextStack, NextStatus, NextOv, Operand, TrapOf, Legal;
    hide StoreIn, DataWrite, ProgramWrite, IoWrite, Duration, IsStackOperation, AllWords, AllAddresses, IsControl;
    ControlRegisters(s, i);
    ControlStatus(s, i);
    ControlWrites(s, i);
  }

  /** A stack operation always retires. */
  lemma StackOutcome(s: State, i: Instruction)
    requires WellFormed(s) && Legal(i) && IsStackOperation(i.mnemonic)
    ensures Executable(s, i)
    ensures Execute(s, i)
            == Stepped(Trace(s.pc, s.program[s.pc], Executed(i), NoDetails, 2, [FetchOf(s)]), ControlState(s, i))
    ensures NextAr(s, i, 0) == s.ar && NextOv(s, i, 0) == s.status.ov
  {
    hide TrapOf, Retire, ControlState, Duration, AllWords, AllAddresses, Legal, DataLog;
    OneWordNeverTraps(s, i);
    RetireControl(s, i);
    ControlWrites(s, i);
    ControlRegisters(s, i);
  }

  /** A two-word instruction retires when its second word is an address. */
  lemma BranchOutcome(s: State, i: Instruction)
    requires WellFormed(s) && Legal(i) && IsTwoWord(i.mnemonic) && s.program[FollowingAddress(s)] < 4096
    ensures Executable(s, i)
    ensures var at, word := FollowingAddress(s), s.program[FollowingAddress(s)];
            Execute(s, i) == Stepped(Trace(s.pc, s.program[s.pc], Executed(i), BranchDetails(s, i.mnemonic, word), 2,
                [FetchOf(s), Transaction(s.cycles + 1, ProgramSpace, FollowingWordFetch, at, word)]),
              ControlState(s, i))
    ensures !i.mnemonic.POP?
  {
    hide TrapOf, Retire, ControlState, Duration, AllWords, AllAddresses, Legal, DataLog, BranchDetails;
    TwoWordTrap(s, i);
    RetireControl(s, i);
    ControlWrites(s, i);
  }

  /** The transaction every instruction starts with. */
  function FetchOf(s: State): Transaction
    requires WellFormed(s)
  {
    Transaction(s.cycles, ProgramSpace, InstructionFetch, s.pc, s.program[s.pc])
  }

  /** The object did what the specification says: the same trace or exception,
      and the same state. */
  ghost predicate Agrees(r: StepResult, now: State, o: Outcome)
  {
    && now == o.after
    && r == match o
            case Stepped(trace, _) => Returned(trace)
            case Trapped(trap, _) => Raised(trap)
  }

  predicate IsOrdinary(m: Mnemonic) { !IsStackOperation(m) && !IsTwoWord(m) }

  /** The status after the effects and before the indirect update. */
  ghost function LoadedStatus(s: State, i: Instruction, w: int): Status
    requires Legal(i)
  {
    var status := NextStatus(s, i, w);
    if i.mnemonic.LARP? || i.mnemonic.LST? then status else status.(arp := s.status.arp)
  }

  /** No memory is written. */
  ghost predicate NoStore(s: State, i: Instruction)
    requires Executable(s, i)
  {
    && StoreIn(s.data, DataWrite(s, i)) == s.data
    && StoreIn(s.program, ProgramWrite(s, i)) == s.program
    && StoreIn(s.ioOutput, IoWrite(s, i)) == s.ioOutput
  }

  lemma ArithmeticEffect(s: State, i: Instruction)
    requires Executable(s, i) && IsArithmetic(i.mnemonic)
    ensures var w := Operand(s, i);
            && NextP(s, i, w) == s.p && LoadedAr(s, i, w) == s.ar && NextStack(s, i) == s.stack
            && LoadedStatus(s, i, w) == s.status.(ov := NextOv(s, i, w))
    ensures NoStore(s, i)
  {
    hide EffectiveAddress, TrapOf, Bitwise, NextOv, Operand;
  }

  lemma LogicEffect(s: State, i: Instruction)
    requires Executable(s, i) && IsLogic(i.mnemonic)
    ensures var w := Operand(s, i);
            && LoadedAr(s, i, w) == s.ar && NextStack(s, i) == s.stack && LoadedStatus(s, i, w) == s.status
    ensures NoStore(s, i)
  {
    hide EffectiveAddress, TrapOf, Bitwise, Operand;
  }

  lemma StatusEffect(s: State, i: Instruction)
    requires Executable(s, i) && IsStatus(i.mnemonic)
    ensures var w := Operand(s, i);
            && NextAcc(s, i, w) == s.acc && NextP(s, i, w) == s.p && NextT(s, i, w) == s.t
            && NextStack(s, i) == s.stack
            && LoadedStatus(s, i, w) == if i.mnemonic.LARP? || i.mnemonic.LST? then NextStatus(s, i, w)
                                        else NextStatus(s, i, w).(arp := s.status.arp)
    ensures NoStore(s, i)
  {
    hide EffectiveAddress, TrapOf, Bitwise, Operand, NextStatus;
  }

  lemma StoreEffect(s: State, i: Instruction)
    requires Executable(s, i) && IsStore(i.mnemonic)
    ensures var w := Operand(s, i);
            && NextP(s, i, w) == s.p && LoadedAr(s, i, w) == s.ar
            && LoadedStatus(s, i, w) == s.status.(ov := NextOv(s, i, w))
    ensures i.mnemonic.SST? ==> LoggedWord(s, i) == StatusWord(s.status)
  {
    hide EffectiveAddress, TrapOf, Bitwise, Operand, NextOv, StatusWord;
  }

  /** What the indirect update has left to do. */
  lemma IndirectEffect(s: State, i: Instruction, w: int)
    requires WellFormed(s) && Legal(i)
    ensures !IsIndirect(i) ==>
              NextAr(s, i, w) == LoadedAr(s, i, w) || i.mnemonic.BANZ?
    ensures !IsIndirect(i) ==> LoadedStatus(s, i, w) == NextStatus(s, i, w)
    ensures IsIndirect(i) ==> !i.mnemonic.LARP?
  {
    hide Bitwise, NextOv;
  }

  /** A retired instruction, field by field. */
  lemma RetireOrdinary(s: State, i: Instruction)
    requires Executable(s, i) && IsOrdinary(i.mnemonic)
    ensures Log(s, i) == [FetchOf(s)] + if AccessesData(i.mnemonic) then DataLog(s, i) else []
    ensures NextPc(s, i) == FollowingAddress(s)
    ensures DetailsOf(s, i) == if AccessesData(i.mnemonic) then AccessDetails(i.mnemonic, EffectiveAddress(s, i), s.acc)
                               else NoDetails
  {
    hide EffectiveAddress, TrapOf, Bitwise, DataLog;
  }

  lemma StepKeepsWidths(s: State)
    requires WellFormed(s)
    ensures WellFormed(Semantics.Step(s).after)
  {
    var opcode, i := s.program[s.pc], Decode(s.program[s.pc]);
    hide Decode, Retire, TrapOf;
    if !s.entryPending && i.Some? && TrapOf(Latch(s), i.value).None? {
      assert Accounts(i, opcode);
      RetireKeepsWidths(Latch(s), i.value);
    }
  }

  /** The word an instruction with a data operand reads or writes. */
  ghost function LoggedWord(s: State, i: Instruction): int
    requires Executable(s, i) && AccessesData(i.mnemonic)
  {
    match i.mnemonic
    case IN => s.ioInput[i.operands.port] % 0x1_0000
    case TBLR => s.program[s.acc % 4096]
    case SACL => s.acc % 0x1_0000
    case SACH => HighHalf(s.acc, i.operands.shift)
    case SAR => StoredRegister(s, i)
    case SST => StatusWord(s.status)
    case _ => Operand(s, i)
  }

  lemma LoadedWords(s: State, i: Instruction, w: int)
    requires WellFormed(s) && Legal(i) && IsWord(w)
    ensures |LoadedAr(s, i, w)| == 2 && AllWords(LoadedAr(s, i, w)) && 0 <= s.status.arp < 2
  {
  }

  /** The status word assembled with shifts and ORs. */
  function PackStatus(ov: bool, ovm: bool, intm: bool, arp: int, dp: int): int
  {
    var b := (x: bool) => if x then 1 else 0;
    Or(Or(Or(Or(Or(b(ov) * 0x8000, b(ovm) * 0x4000), b(intm) * 0x2000), 0x1EFE),
          (arp % 2) * 256), dp % 2)
  }

  lemma PackIsStatusWord(ov: bool, ovm: bool, intm: bool, arp: int, dp: int)
    ensures PackStatus(ov, ovm, intm, arp, dp) == StatusWord(Status(ov, ovm, intm, arp, dp))
  {
    Pow2Table();
    var x, y, z := if ov then 1 else 0, if ovm then 1 else 0, if intm then 1 else 0;
    hide Bitwise, Pow2;
    OrDisjoint(x, y * 0x4000, 15);
    OrDisjoint(2 * x + y, z * 0x2000, 14);
    OrDisjoint(4 * x + 2 * y + z, 0x1EFE, 13);
    InsertBit8((4 * x + 2 * y + z) * 16 + 15, arp % 2);
    OrDisjoint(((4 * x + 2 * y + z) * 16 + 15) * 256 + 127 + 128 * (arp % 2), dp % 2, 1);
  }

  /** Bit 8 of 0xFEFE-like words is free. */
  lemma InsertBit8(q: int, bit: int)
    requires bit == 0 || bit == 1
    ensures Or(q * 512 + 0xFE, bit * 256) == q * 512 + 0xFE + bit * 256
  {
    Pow2Table();
    hide Bitwise, Pow2;
    Split(OrOp, q, 0xFE, 0, bit * 256, 9);
    OrZero(q);
    OrDisjoint(bit, 0xFE, 8);
    Commutes(OrOp, 0xFE, bit * 256);
  }

  lemma MovedZero(value: int)
    ensures Moved(value, 0) == value
  {
  }

  predicate IsLogic(m: Mnemonic)
  {
    m.LT? || m.MPY? || m.MPYK? || m.PAC? || m.ZALH? || m.ZALS? || m.XOR? || m.AND? || m.OR? || m.ABS? || m.ZAC?
  }

  predicate IsMode(m: Mnemonic)
  {
    m.ROVM? || m.SOVM? || m.DINT? || m.EINT? || m.MAR? || m.NOP?
  }

  lemma CounterPair(s: State)
    requires WellFormed(s)
    ensures |s.ar| == 2
  {
  }

  /** A sum is the exact integer, stored and flagged. */
  lemma SumMeans(s: State, i: Instruction, w: int)
    requires WellFormed(s) && Legal(i) && AccOpOf(s, i, w).Some?
    ensures var op := AccOpOf(s, i, w).value;
            && NextAcc(s, i, w) == Stored(Exact(s.acc, op), s.status.ovm)
            && NextOv(s, i, w) == (s.status.ov || !Fits32(Exact(s.acc, op)))
  {
    hide Stored, Exact, Fits32, ShiftedWord;
  }

  predicate IsStatus(m: Mnemonic)
  {
    m.LAR? || m.LDP? || m.LST? || m.LARK? || m.LARP? || m.LDPK? || m.ROVM? || m.SOVM? || m.DINT?
    || m.EINT? || m.MAR? || m.NOP?
  }

  /** What the status instructions load, before any indirect update. */
  lemma StatusEffects(s: State, i: Instruction, w: int)
    requires WellFormed(s) && Legal(i) && IsStatus(i.mnemonic)
    ensures |s.ar| == 2
    ensures LoadedAr(s, i, w) == match i.mnemonic
              case LAR => s.ar[i.operands.register := w]
              case LARK => s.ar[i.operands.register := i.operands.constant]
              case _ => s.ar
    ensures var before := s.status;
            LoadedStatus(s, i, w) == match i.mnemonic
              case LDP => before.(dp := w % 2)
              case LDPK => before.(dp := i.operands.constant)
              case LARP => before.(arp := i.operands.constant)
              case LST => Status(w >= 0x8000, (w / 0x4000) % 2 == 1, before.intm, (w / 256) % 2, w % 2)
              case SOVM => before.(ovm := true)
              case ROVM => before.(ovm := false)
              case DINT => before.(intm := true)
              case EINT => before.(intm := false)
              case _ => before
  {
    hide NextOv, ControlBit, LegalAddress, AllWords, AllAddresses;
    StatusOverflow(s, i, w);
  }

  lemma StatusOverflow(s: State, i: Instruction, w: int)
    requires Legal(i) && IsStatus(i.mnemonic)
    ensures NextOv(s, i, w) == if i.mnemonic.LST? then w >= 0x8000 else s.status.ov
  {
  }

  predicate IsRegisterStore(m: Mnemonic) { m.SACL? || m.SACH? || m.SAR? || m.SST? }

  predicate IsStore(m: Mnemonic)
  {
    m.LTD? || m.DMOV? || m.IN? || m.OUT? || m.TBLR? || m.TBLW? || m.SACL? || m.SACH? || m.SAR? || m.SST?
  }

  /** The bits LST and LDP look at. */
  lemma StatusTests(w: int)
    requires IsWord(w)
    ensures And(w, 1) == w % 2 && And(w / 256, 1) == (w / 256) % 2
    ensures And(w, 0x8000) != 0 <==> w >= 0x8000
    ensures And(w, 0x4000) != 0 <==> (w / 0x4000) % 2 == 1
  {
    Pow2Table();
    AndOnes(w, 1);
    AndOnes(w / 256, 1);
    TopBit(w, 15);
    hide Bitwise, Pow2;
    Window(w, 14, 1);
  }

  predicate IsArithmetic(m: Mnemonic)
  {
    m.LACK? || m.LAC? || m.LTA? || m.APAC? || m.SPAC? || m.ADDS? || m.ADDH? || m.ADD? || m.SUB?
    || m.SUBH? || m.SUBS? || m.SUBC?
  }

  /** Auxiliary registers after a load and before the indirect update. */
  ghost function LoadedAr(s: State, i: Instruction, w: int): seq<int>
    requires WellFormed(s) && Legal(i)
  {
    match i.mnemonic
    case LARK => s.ar[i.operands.register := i.operands.constant]
    case LAR => s.ar[i.operands.register := w]
    case _ => s.ar
  }
}
