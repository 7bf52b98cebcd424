/** Runs of the machine: any interleaving of steps, resets and pin changes, with
    steps that raise an exception included. */
module Runs {
  import opened Isa
  import opened Decoder
  import opened Semantics

  datatype Action =
    | StepCall
    | ResetCall
    | SetInterruptPin(high: bool)
    | SetBioPin(high: bool)
    | SetInput(port: int, value: int)

  predicate Allowed(a: Action)
  {
    a.SetInput? ==> 0 <= a.port < 8
  }

  predicate AllAllowed(actions: seq<Action>)
  {
    forall i :: 0 <= i < |actions| ==> Allowed(actions[i])
  }

  function Apply(s: State, a: Action): State
    requires WellFormed(s) && Allowed(a)
  {
    match a
    case StepCall => Step(s).after
    case ResetCall => ResetState(s)
    case SetInterruptPin(high) => s.(interruptHigh := high)
    case SetBioPin(high) => s.(bioHigh := high)
    case SetInput(port, value) => s.(ioInput := s.ioInput[port := value])
  }

  /** The state before action i of a run, and after the last one for i at the end. */
  function StateAt(s: State, actions: seq<Action>, i: nat): (r: State)
    requires WellFormed(s) && AllAllowed(actions) && i <= |actions|
    ensures WellFormed(r) && (i == 0 ==> r == s)
  {
    if i == 0 then s
    else
      var before := StateAt(s, actions, i - 1);
      ApplyKeepsWidths(before, actions[i - 1]);
      Apply(before, actions[i - 1])
  }

  /** What a step executed, if action i is a step that did not raise. */
  function EventAt(s: State, actions: seq<Action>, i: nat): Option<Event>
    requires WellFormed(s) && AllAllowed(actions) && i < |actions|
  {
    var o := Step(StateAt(s, actions, i));
    if actions[i].StepCall? && o.Stepped? then Some(o.trace.event) else None
  }

  function TraceAt(s: State, actions: seq<Action>, i: nat): Option<Trace>
    requires WellFormed(s) && AllAllowed(actions) && i < |actions|
  {
    var o := Step(StateAt(s, actions, i));
    if actions[i].StepCall? && o.Stepped? then Some(o.trace) else None
  }

  /** One action of a run. */
  lemma RunStep(s: State, actions: seq<Action>, i: nat)
    requires WellFormed(s) && AllAllowed(actions) && i < |actions|
    ensures Allowed(actions[i])
    ensures StateAt(s, actions, i + 1) == Apply(StateAt(s, actions, i), actions[i])
    ensures var o := Step(StateAt(s, actions, i));
            TraceAt(s, actions, i) == if actions[i].StepCall? && o.Stepped? then Some(o.trace) else None
    ensures EventAt(s, actions, i)
            == if TraceAt(s, actions, i).Some? then Some(TraceAt(s, actions, i).value.event) else None
  {
    hide Step, Apply;
  }

  // --------------------------------------------------- totality of one step

  predicate EntersInterrupt(s: State)
    requires WellFormed(s)
  {
    Step(s).Stepped? && Step(s).trace.event == InterruptEntry && Step(s).after == EnterInterrupt(s)
  }

  /** The step executes an instruction, which retires or traps. */
  predicate RunsInstruction(s: State, i: Instruction)
    requires WellFormed(s)
  {
    && Legal(i)
    && if TrapOf(Latch(s), i).Some? then Step(s) == Trapped(TrapOf(Latch(s), i).value, Latch(s))
       else && Step(s).Stepped? && Step(s).trace.event == Executed(i)
            && Step(s).after == Retire(Latch(s), i)
  }

  /** The three ways a step goes, with their exact conditions. */
  lemma StepCases(s: State)
    requires WellFormed(s)
    ensures WellFormed(Step(s).after)
    ensures s.entryPending ==> EntersInterrupt(s)
    ensures !s.entryPending && Decode(s.program[s.pc]).None? ==>
              Step(s) == Trapped(UnsupportedOpcode(s.pc, s.program[s.pc]), Latch(s))
    ensures !s.entryPending && Decode(s.program[s.pc]).Some? ==> RunsInstruction(s, Decode(s.program[s.pc]).value)
  {
    var i := Decode(s.program[s.pc]);
    hide Decode, Retire, TrapOf, Log;
    if !s.entryPending && i.Some? {
      assert Accounts(i, s.program[s.pc]);
      if TrapOf(Latch(s), i.value).None? { RetireKeepsWidths(Latch(s), i.value); }
    }
  }

  /** What the details of a trace say came about: the reported decision is the
      condition of the branch in the state before it and decides where the run
      continues, a reported move or table access moves the word between the two
      cells it names, and every data transaction of an access is at the reported
      address. */
  predicate DetailsHold(s: State, event: Event, details: Details, log: seq<Transaction>, r: State)
    requires WellFormed(s)
  {
    match event
    case InterruptEntry =>
      && details.EntryDetails? && details.returnAddress == s.pc
      && r.stack == Push(s.stack, details.returnAddress) && r.pc == details.vector
    case Executed(i) => DetailsOfInstruction(s, i.mnemonic, details, log, r)
  }

  predicate DetailsOfInstruction(s: State, m: Mnemonic, details: Details, log: seq<Transaction>, r: State)
    requires WellFormed(s)
  {
    match details
    case EntryDetails(_, _) => false
    case NoDetails =>
      !IsTwoWord(m) && !AccessesData(m) && forall x :: x in log ==> x.space == ProgramSpace
    case Jump(address) =>
      (m.B? || m.CALL?) && address == s.program[FollowingAddress(s)] && r.pc == address
    case Branch(address, taken) =>
      && IsTwoWord(m) && address == s.program[FollowingAddress(s)]
      && (taken <==> BranchTaken(s, m)) && r.pc == if taken then address else (s.pc + 2) % 4096
    case CountedBranch(register, address, taken) =>
      && m.BANZ? && register == s.status.arp && address == s.program[FollowingAddress(s)]
      && (taken <==> s.ar[register] % 512 != 0) && r.pc == if taken then address else (s.pc + 2) % 4096
    case DataAccess(address) =>
      && 0 <= address < 144 && |r.data| == 144
      && (forall x :: x in log && x.space == DataSpace ==> x.address == address)
      && (forall a :: 0 <= a < 144 && a != address ==> r.data[a] == s.data[a])
    case DataMove(address, target) =>
      && MovesData(m) && 0 <= address < target == address + 1 < 144
      && r.data == s.data[target := s.data[address]]
    case TableAccess(address, cell) =>
      && 0 <= address < 144 && cell == s.acc % 4096
      && if m.TBLR? then r.data == s.data[address := s.program[cell]] && r.program == s.program
         else m.TBLW? && r.program == s.program[cell := s.data[address]] && r.data == s.data
  }

  lemma DetailsTell(s: State)
    requires WellFormed(s) && Step(s).Stepped?
    ensures Step(s).trace.pc == s.pc && (Step(s).trace.event.InterruptEntry? <==> s.entryPending)
    ensures DetailsHold(s, Step(s).trace.event, Step(s).trace.details, Step(s).trace.log, Step(s).after)
  {
    hide Decode, Retire, TrapOf, Log, DetailsHold, DetailsOf;
    if s.entryPending {
      EntryTells(s, Step(s).trace.log);
    } else {
      assert Accounts(Decode(s.program[s.pc]), s.program[s.pc]);
      var i := Decode(s.program[s.pc]).value;
      LatchTells(s, Executed(i), DetailsOf(Latch(s), i), Log(Latch(s), i), Retire(Latch(s), i));
      RetireTells(Latch(s), i);
    }
  }

  lemma EntryTells(s: State, log: seq<Transaction>)
    requires WellFormed(s) && s.entryPending
    ensures DetailsHold(s, InterruptEntry, EntryDetails(s.pc, 2), log, EnterInterrupt(s))
  {
  }

  lemma LatchTells(s: State, event: Event, details: Details, log: seq<Transaction>, r: State)
    requires WellFormed(s)
    ensures DetailsHold(Latch(s), event, details, log, r) <==> DetailsHold(s, event, details, log, r)
  {
  }

  lemma RetireTells(s: State, i: Instruction)
    requires Executable(s, i)
    ensures DetailsHold(s, Executed(i), DetailsOf(s, i), Log(s, i), Retire(s, i))
  {
    hide EffectiveAddress, Operand, DataLog, Retire, DataWrite, TrapOf, DetailsHold, BranchTaken;
    if IsTwoWord(i.mnemonic) {
      BranchTells(s, i);
    } else if AccessesData(i.mnemonic) {
      AccessTells(s, i);
    } else {
      NothingTells(s, i);
    }
  }

  lemma NothingTells(s: State, i: Instruction)
    requires Executable(s, i) && !IsTwoWord(i.mnemonic) && !AccessesData(i.mnemonic)
    ensures DetailsHold(s, Executed(i), NoDetails, Log(s, i), Retire(s, i))
  {
    hide Retire, TrapOf;
  }

  lemma BranchTells(s: State, i: Instruction)
    requires Executable(s, i) && IsTwoWord(i.mnemonic)
    ensures DetailsHold(s, Executed(i), DetailsOf(s, i), Log(s, i), Retire(s, i))
  {
    hide Operand, TrapOf, Advance, NextAcc, NextP, NextT, NextAr, NextStack, NextStatus, StoreIn, Log;
  }

  lemma AccessTells(s: State, i: Instruction)
    requires Executable(s, i) && AccessesData(i.mnemonic) && !IsTwoWord(i.mnemonic)
    ensures DetailsHold(s, Executed(i), DetailsOf(s, i), Log(s, i), Retire(s, i))
  {
    hide Retire, TrapOf, EffectiveAddress, Log;
    OperandIs(s, i);
    RetireMemories(s, i);
    if !MovesData(i.mnemonic) { LogAddresses(s, i); }
  }

  lemma OperandIs(s: State, i: Instruction)
    requires Executable(s, i) && AccessesData(i.mnemonic)
    ensures var ea := EffectiveAddress(s, i);
            0 <= ea < (if MovesData(i.mnemonic) then 143 else 144) && Operand(s, i) == s.data[ea]
  {
  }

  lemma RetireMemories(s: State, i: Instruction)
    requires Executable(s, i)
    ensures Retire(s, i).data == StoreIn(s.data, DataWrite(s, i))
    ensures Retire(s, i).program == StoreIn(s.program, ProgramWrite(s, i))
  {
    hide EffectiveAddress, DataWrite, StoreIn, TrapOf, NextAcc, NextAr, NextStatus, NextStack, NextP, NextT;
  }

  lemma LogAddresses(s: State, i: Instruction)
    requires Executable(s, i) && AccessesData(i.mnemonic) && !MovesData(i.mnemonic)
    ensures forall x :: x in Log(s, i) && x.space == DataSpace ==> x.address == EffectiveAddress(s, i)
  {
    hide EffectiveAddress, TrapOf, Operand;
  }

  /** A step that raises changes nothing except that it may latch a request the
      pin asserts; with the pin high it changes nothing at all. */
  lemma TrapIsAtomic(s: State)
    requires WellFormed(s) && Step(s).Trapped?
    ensures Step(s).after == s.(pending := s.pending || !s.interruptHigh)
    ensures s.interruptHigh ==> Step(s).after == s
    ensures !s.entryPending
  {
    StepCases(s);
    hide Decode, Retire, TrapOf, Step;
  }

  /** Exactly when `step` raises. */
  lemma RaisesExactly(s: State)
    requires WellFormed(s)
    ensures Step(s).Trapped? <==>
      && !s.entryPending
      && match Decode(s.program[s.pc])
         case None => true
         case Some(i) =>
           || (IsTwoWord(i.mnemonic) && s.program[FollowingAddress(s)] >= 4096)
           || (AccessesData(i.mnemonic) && HasAddress(i.operands)
               && EffectiveAddress(s, i) >= if MovesData(i.mnemonic) then 143 else 144)
  {
    StepCases(s);
    var d := Decode(s.program[s.pc]);
    if !s.entryPending && d.Some? { LatchKeepsTrap(s, d.value); }
    hide Decode, Retire, Step, EffectiveAddress;
  }

  /** The latch of a pin request cannot influence which trap is raised. */
  lemma LatchKeepsTrap(s: State, i: Instruction)
    requires WellFormed(s) && Legal(i)
    ensures WellFormed(Latch(s)) && TrapOf(Latch(s), i) == TrapOf(s, i)
  {
  }

  lemma ApplyKeepsWidths(s: State, a: Action)
    requires WellFormed(s) && Allowed(a)
    ensures WellFormed(Apply(s, a))
  {
    if a.StepCall? { StepCases(s); }
    hide Step, AllAddresses;
  }
}
