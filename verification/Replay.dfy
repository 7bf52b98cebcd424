/** The transaction log explains the memories: replaying the logged writes of any
    run gives the final memories, and every logged read saw the memory or port as
    it was when its step began. */
module Replay {
  import opened Isa
  import opened Decoder
  import opened Semantics
  import opened Runs

  datatype Memories = Memories(program: seq<int>, data: seq<int>, ioOutput: seq<int>)

  function MemoriesOf(s: State): Memories
  {
    Memories(s.program, s.data, s.ioOutput)
  }

  /** The memories after one transaction: only writes change anything. */
  function Perform(m: Memories, x: Transaction): Memories
  {
    if x.operation.TableWrite? then m.(program := StoreIn(m.program, At(x.address, x.data)))
    else if x.operation.Write? && x.space.DataSpace? then m.(data := StoreIn(m.data, At(x.address, x.data)))
    else if x.operation.Write? && x.space.IoSpace? then m.(ioOutput := StoreIn(m.ioOutput, At(x.address, x.data)))
    else m
  }

  function Replayed(m: Memories, log: seq<Transaction>): Memories
    decreases log
  {
    if log == [] then m else Replayed(Perform(m, log[0]), log[1..])
  }

  lemma {:induction false} ReplayAppend(m: Memories, a: seq<Transaction>, b: seq<Transaction>)
    ensures Replayed(m, a + b) == Replayed(Replayed(m, a), b)
    decreases a
  {
    if a == [] {
      assert a + b == b;
    } else {
      assert (a + b)[1..] == a[1..] + b;
      ReplayAppend(Perform(m, a[0]), a[1..], b);
    }
  }

  /** Replaying a log of at most three transactions, spelled out. */
  lemma ReplayShort(m: Memories, log: seq<Transaction>)
    requires |log| <= 3
    ensures Replayed(m, log)
         == (var m1 := if |log| > 0 then Perform(m, log[0]) else m;
             var m2 := if |log| > 1 then Perform(m1, log[1]) else m1;
             if |log| > 2 then Perform(m2, log[2]) else m2)
  {
    hide Perform;
    if |log| > 0 {
      var m1, l1 := Perform(m, log[0]), log[1..];
      assert Replayed(m, log) == Replayed(m1, l1);
      if |log| > 1 {
        var m2, l2 := Perform(m1, l1[0]), l1[1..];
        assert Replayed(m1, l1) == Replayed(m2, l2);
        if |log| > 2 {
          assert Replayed(m2, l2) == Replayed(Perform(m2, l2[0]), l2[1..]);
        }
      }
    }
  }

  // ---------------------------------------------------------------- one step

  /** The memory part of an instruction's log is its memory part. */
  lemma DataLogReplays(s: State, i: Instruction)
    requires Executable(s, i) && AccessesData(i.mnemonic)
    ensures |DataLog(s, i)| <= 3
    ensures Replayed(MemoriesOf(s), DataLog(s, i))
         == Memories(StoreIn(s.program, ProgramWrite(s, i)), StoreIn(s.data, DataWrite(s, i)),
                     StoreIn(s.ioOutput, IoWrite(s, i)))
  {
    hide Replayed, EffectiveAddress, TrapOf, StatusWord, StoredRegister, HighHalf, WellFormed, StoreIn, Legal;
    hide Operand;
    StoreNowhere(s);
    ReplayShort(MemoriesOf(s), DataLog(s, i));
  }

  lemma StoreNowhere(s: State)
    ensures StoreIn(s.program, Nowhere) == s.program && StoreIn(s.data, Nowhere) == s.data
    ensures StoreIn(s.ioOutput, Nowhere) == s.ioOutput
  {
  }

  /** The log computed from the state before an instruction replays to the
      memories its separately computed effects leave. */
  lemma RetireReplays(s: State, i: Instruction)
    requires Executable(s, i)
    ensures Replayed(MemoriesOf(s), Log(s, i)) == MemoriesOf(Retire(s, i))
  {
    hide EffectiveAddress, TrapOf, WellFormed, StoreIn, Legal, DataLog, Perform;
    hide Operand, Replayed, NextAcc, NextP, NextAr, NextStack, NextStatus, NextPc, Advance;
    StoreNowhere(s);
    var log := Log(s, i);
    var fetch, rest := log[..1], log[1..];
    assert log == fetch + rest;
    ReplayAppend(MemoriesOf(s), fetch, rest);
    ReplayShort(MemoriesOf(s), fetch);
    FetchWritesNothing(MemoriesOf(s), fetch[0]);
    if AccessesData(i.mnemonic) {
      AccessIsOneWord(i.mnemonic);
      assert rest == DataLog(s, i);
      DataLogReplays(s, i);
    } else {
      ReplayShort(MemoriesOf(s), rest);
      if |rest| > 0 { FetchWritesNothing(MemoriesOf(s), rest[0]); }
    }
  }

  lemma AccessIsOneWord(m: Mnemonic)
    ensures AccessesData(m) ==> !IsTwoWord(m)
  {
  }

  lemma FetchWritesNothing(m: Memories, x: Transaction)
    requires x.operation.InstructionFetch? || x.operation.FollowingWordFetch? || x.operation.InterruptDummyFetch?
    ensures Perform(m, x) == m
  {
  }

  lemma StepReplays(s: State)
    requires WellFormed(s)
    ensures Step(s).Stepped? ==> Replayed(MemoriesOf(s), Step(s).trace.log) == MemoriesOf(Step(s).after)
    ensures Step(s).Trapped? ==> MemoriesOf(s) == MemoriesOf(Step(s).after)
  {
    var opcode, i := s.program[s.pc], Decode(s.program[s.pc]);
    hide Decode, Retire, TrapOf, Log, Replayed, Perform, WellFormed;
    if s.entryPending {
      ReplayShort(MemoriesOf(s), Step(s).trace.log);
      FetchWritesNothing(MemoriesOf(s), Step(s).trace.log[0]);
    } else if i.Some? {
      assert Accounts(i, opcode);
      LatchKeepsTrap(s, i.value);
      if TrapOf(Latch(s), i.value).None? { RetireReplays(Latch(s), i.value); }
    }
  }

  // -------------------------------------------------------------- whole runs

  function LogOf(s: State, a: Action): seq<Transaction>
    requires WellFormed(s)
  {
    if a.StepCall? && Step(s).Stepped? then Step(s).trace.log else []
  }

  /** Everything the steps of a run logged, in order. */
  function RunLog(s: State, actions: seq<Action>, n: nat): seq<Transaction>
    requires WellFormed(s) && AllAllowed(actions) && n <= |actions|
  {
    if n == 0 then [] else RunLog(s, actions, n - 1) + LogOf(StateAt(s, actions, n - 1), actions[n - 1])
  }

  lemma ActionReplays(s: State, a: Action)
    requires WellFormed(s) && Allowed(a)
    ensures Replayed(MemoriesOf(s), LogOf(s, a)) == MemoriesOf(Apply(s, a))
  {
    hide Step, Perform;
    StepReplays(s);
    ReplayShort(MemoriesOf(s), []);
  }

  /** Folding the logged writes of a run over the first memories gives the last
      ones, through traps, resets, interrupts and pin changes. */
  lemma {:induction false} RunReplays(s: State, actions: seq<Action>, n: nat)
    requires WellFormed(s) && AllAllowed(actions) && n <= |actions|
    ensures Replayed(MemoriesOf(s), RunLog(s, actions, n)) == MemoriesOf(StateAt(s, actions, n))
  {
    hide StateAt, Step, Perform, WellFormed, Apply, LogOf, Replayed;
    ReplayShort(MemoriesOf(s), []);
    if n > 0 {
      RunStep(s, actions, n - 1);
      RunReplays(s, actions, n - 1);
      var now := StateAt(s, actions, n - 1);
      ActionReplays(now, actions[n - 1]);
      ReplayAppend(MemoriesOf(s), RunLog(s, actions, n - 1), LogOf(now, actions[n - 1]));
    }
  }

  // ------------------------------------------------------------ true reads

  /** A logged transaction names a real cell, and a read saw what was there. */
  predicate IsTrue(s: State, x: Transaction)
    requires WellFormed(s)
  {
    match x.space
    case ProgramSpace =>
      && 0 <= x.address < 4096
      && (!x.operation.TableWrite? ==> x.data == s.program[x.address])
    case DataSpace =>
      && 0 <= x.address < 144
      && (x.operation.Read? ==> x.data == s.data[x.address])
    case IoSpace =>
      && 0 <= x.address < 8
      && (x.operation.Read? ==> x.data == s.ioInput[x.address] % 0x1_0000)
  }

  /** Its operation belongs to its space. */
  predicate IsProper(x: Transaction)
  {
    x.space.ProgramSpace? <==> !(x.operation.Read? || x.operation.Write?)
  }

  /** In cycle order inside a window. */
  predicate InOrder(log: seq<Transaction>, from: int, until: int)
  {
    && (forall k :: 0 <= k < |log| ==> from <= log[k].cycle < until)
    && (forall j, k :: 0 <= j < k < |log| ==> log[j].cycle <= log[k].cycle)
  }

  lemma InOrderAppend(a: seq<Transaction>, b: seq<Transaction>, from: int, mid: int, until: int)
    requires from <= mid <= until && InOrder(a, from, mid) && InOrder(b, mid, until)
    ensures InOrder(a + b, from, until)
  {
  }

  /** All of a log is true of a state, in cycle order inside a window. */
  predicate Explains(s: State, log: seq<Transaction>, from: int, until: int)
    requires WellFormed(s)
  {
    && InOrder(log, from, until)
    && forall k :: 0 <= k < |log| ==> IsTrue(s, log[k]) && IsProper(log[k])
  }

  lemma DataLogExplains(s: State, i: Instruction)
    requires Executable(s, i) && AccessesData(i.mnemonic)
    ensures Explains(s, DataLog(s, i), s.cycles, s.cycles + Duration(i.mnemonic))
  {
    OperandBounds(s, i);
    hide EffectiveAddress, TrapOf, StatusWord, StoredRegister, HighHalf, AllWords, AllAddresses, Operand, LegalAddress;
    var log := DataLog(s, i);
    assert |log| == if i.mnemonic.TBLR? || i.mnemonic.TBLW? then 3
                    else if i.mnemonic.IN? || i.mnemonic.OUT? || MovesData(i.mnemonic) then 2 else 1;
    assert IsTrue(s, log[0]) && IsProper(log[0]);
    if |log| > 1 { assert IsTrue(s, log[1]) && IsProper(log[1]); }
    if |log| > 2 { assert IsTrue(s, log[2]) && IsProper(log[2]); }
    hide IsTrue, IsProper;
    forall k | 0 <= k < |log|
      ensures IsTrue(s, log[k]) && IsProper(log[k])
    {
      if k == 0 {} else if k == 1 {} else {}
    }
  }

  lemma RetireExplains(s: State, i: Instruction)
    requires Executable(s, i)
    ensures Explains(s, Log(s, i), s.cycles, s.cycles + Duration(i.mnemonic))
    ensures Retire(s, i).cycles == s.cycles + Duration(i.mnemonic)
  {
    hide EffectiveAddress, TrapOf, AllWords, AllAddresses, Operand, DataLog, Legal, NextAcc, NextP, NextAr;
    hide NextStack, NextStatus, NextPc, Advance, StoreIn;
    if AccessesData(i.mnemonic) {
      AccessIsOneWord(i.mnemonic);
      DataLogExplains(s, i);
    }
  }

  /** Every transaction of a step was true when the step began, lies in the
      step's own cycles and comes in cycle order. */
  lemma StepExplains(s: State)
    requires WellFormed(s) && Step(s).Stepped?
    ensures var t := Step(s).trace;
            && t.pc == s.pc && t.opcode == s.program[s.pc]
            && t.duration >= 1 && Step(s).after.cycles == s.cycles + t.duration
            && Explains(s, t.log, s.cycles, s.cycles + t.duration)
  {
    var opcode, i := s.program[s.pc], Decode(s.program[s.pc]);
    hide Decode, Retire, TrapOf, Log;
    if !s.entryPending {
      assert Accounts(i, opcode);
      LatchKeepsTrap(s, i.value);
      RetireExplains(Latch(s), i.value);
      SameMemoriesExplain(s, Latch(s), Log(Latch(s), i.value), s.cycles, s.cycles + Duration(i.value.mnemonic));
    }
  }

  lemma SameMemoriesExplain(s: State, latched: State, log: seq<Transaction>, from: int, until: int)
    requires WellFormed(s) && latched == Latch(s) && WellFormed(latched) && Explains(latched, log, from, until)
    ensures Explains(s, log, from, until)
  {
    forall k | 0 <= k < |log|
      ensures IsTrue(s, log[k])
    {
      assert IsTrue(latched, log[k]);
    }
  }

  /** Time: the cycle counter only moves with steps, by what they report. */
  lemma RunExplains(s: State, actions: seq<Action>, n: nat)
    requires WellFormed(s) && AllAllowed(actions) && n < |actions|
    ensures var now, t := StateAt(s, actions, n), TraceAt(s, actions, n);
            match t
            case Some(trace) =>
              && trace.duration >= 1 && trace.pc == now.pc && trace.opcode == now.program[now.pc]
              && Explains(now, trace.log, now.cycles, now.cycles + trace.duration)
              && StateAt(s, actions, n + 1).cycles == now.cycles + trace.duration
            case None => StateAt(s, actions, n + 1).cycles == now.cycles
  {
    hide StateAt, TraceAt, WellFormed, Explains, Step, Decode, Retire, TrapOf;
    var now := StateAt(s, actions, n);
    RunStep(s, actions, n);
    StepCases(now);
    if Step(now).Stepped? { StepExplains(now); }
  }

  /** Along a whole run the log is in cycle order, and ends before the counter. */
  lemma {:induction false} RunLogOrdered(s: State, actions: seq<Action>, n: nat)
    requires WellFormed(s) && AllAllowed(actions) && n <= |actions|
    ensures s.cycles <= StateAt(s, actions, n).cycles
    ensures InOrder(RunLog(s, actions, n), s.cycles, StateAt(s, actions, n).cycles)
  {
    hide StateAt, WellFormed, TraceAt, IsTrue, IsProper, Step, Apply, InOrder;
    if n > 0 {
      RunLogOrdered(s, actions, n - 1);
      RunExplains(s, actions, n - 1);
      RunStep(s, actions, n - 1);
      var now, next := StateAt(s, actions, n - 1), StateAt(s, actions, n);
      var more := LogOf(now, actions[n - 1]);
      if more == [] { EmptyInOrder(more, now.cycles, next.cycles); }
      InOrderAppend(RunLog(s, actions, n - 1), more, s.cycles, now.cycles, next.cycles);
    } else {
      EmptyInOrder(RunLog(s, actions, n), s.cycles, s.cycles);
    }
  }

  lemma EmptyInOrder(log: seq<Transaction>, from: int, until: int)
    requires log == []
    ensures InOrder(log, from, until)
  {
  }
}
