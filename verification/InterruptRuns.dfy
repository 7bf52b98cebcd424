/** The interrupt deferral over whole runs. */
module InterruptRuns {
  import opened Isa
  import opened Decoder
  import opened Semantics
  import opened Runs

  /** The part of the state that decides when an interrupt is entered. */
  datatype Request = Request(pending: bool, intm: bool, latches: Latches)

  function RequestOf(s: State): Request
  {
    Request(s.pending, s.status.intm, Latches(s.delayOne, s.entryPending))
  }

  /** At most one latch is set, and either one implies an enabled, pending request. */
  predicate Deferred(r: Request)
  {
    && !(r.latches.delayOne && r.latches.entryPending)
    && (r.latches.delayOne || r.latches.entryPending ==> r.pending && !r.intm)
  }

  /** How an action may move the request: entries need the entry latch,
      instructions need it clear, everything else keeps interrupts as they are. */
  predicate Moves(b: Request, a: Action, e: Option<Event>, r: Request)
  {
    match e
    case Some(InterruptEntry) => b.latches.entryPending && r == Request(false, true, Latches(false, false))
    case Some(Executed(i)) =>
      && !a.ResetCall?
      && !b.latches.entryPending && (b.pending ==> r.pending)
      && r.intm == (if i.mnemonic.DINT? then true else if i.mnemonic.EINT? then false else b.intm)
      && r.latches == Advance(b.latches, r.pending, r.intm, i.mnemonic)
    case None =>
      if a.ResetCall? then r == Request(false, true, Latches(false, false))
      else r.intm == b.intm && r.latches == b.latches && (b.pending ==> r.pending)
  }

  /** What retiring an instruction does to the interrupt state. */
  lemma RetireLatches(s: State, i: Instruction)
    requires Executable(s, i)
    ensures var r := Retire(s, i);
            && r.pending == s.pending
            && r.status.intm == (if i.mnemonic.DINT? then true else if i.mnemonic.EINT? then false else s.status.intm)
            && Latches(r.delayOne, r.entryPending)
               == Advance(Latches(s.delayOne, s.entryPending), s.pending, r.status.intm, i.mnemonic)
  {
    hide NextOv, NextAcc, NextAr, NextPc, NextP, NextStack, DataWrite, ProgramWrite, IoWrite, StoreIn, TrapOf;
    hide Operand, EffectiveAddress, Advance;
  }

  /** Every action of every run moves the request in one of these ways. */
  lemma RunMoves(s: State, actions: seq<Action>, i: nat)
    requires WellFormed(s) && AllAllowed(actions) && i < |actions|
    ensures Moves(RequestOf(StateAt(s, actions, i)), actions[i], EventAt(s, actions, i),
                  RequestOf(StateAt(s, actions, i + 1)))
  {
    hide Step, StateAt, WellFormed, Moves;
    var before, a := StateAt(s, actions, i), actions[i];
    RunStep(s, actions, i);
    if a.StepCall? { StepMoves(before); } else { OtherMoves(before, a); }
  }

  lemma StepMoves(s: State)
    requires WellFormed(s)
    ensures Moves(RequestOf(s), StepCall, if Step(s).Stepped? then Some(Step(s).trace.event) else None,
                  RequestOf(Step(s).after))
  {
    hide Decode, Retire, TrapOf, Step, NextStatus;
    StepCases(s);
    var d := Decode(s.program[s.pc]);
    if !s.entryPending && d.Some? && TrapOf(Latch(s), d.value).None? { RetireLatches(Latch(s), d.value); }
  }

  lemma OtherMoves(s: State, a: Action)
    requires WellFormed(s) && Allowed(a) && !a.StepCall?
    ensures Moves(RequestOf(s), a, None, RequestOf(Apply(s, a)))
  {
    hide Step;
  }

  /** Safety: in every run from a state where it holds, whatever the pins and
      resets do, the two latches are never both set and either one implies a
      pending request and interrupts enabled. */
  lemma {:induction false} DeferredAlways(s: State, actions: seq<Action>, i: nat)
    requires WellFormed(s) && AllAllowed(actions) && i <= |actions| && Deferred(RequestOf(s))
    ensures Deferred(RequestOf(StateAt(s, actions, i)))
  {
    hide StateAt, EventAt, WellFormed, Step;
    if i > 0 {
      DeferredAlways(s, actions, i - 1);
      RunMoves(s, actions, i - 1);
    }
  }

  predicate EntersAt(s: State, actions: seq<Action>, i: nat)
    requires WellFormed(s) && AllAllowed(actions) && i < |actions|
  {
    EventAt(s, actions, i) == Some(InterruptEntry)
  }

  predicate RetiresAt(s: State, actions: seq<Action>, i: nat)
    requires WellFormed(s) && AllAllowed(actions) && i < |actions|
  {
    EventAt(s, actions, i).Some? && EventAt(s, actions, i).value.Executed?
  }

  predicate EintAt(s: State, actions: seq<Action>, i: nat)
    requires WellFormed(s) && AllAllowed(actions) && i < |actions|
  {
    RetiresAt(s, actions, i) && EventAt(s, actions, i).value.instruction.mnemonic.EINT?
  }

  /** An EINT in (lo, hi) with a later instruction in (lo, hi). */
  predicate EintAndOneMore(s: State, actions: seq<Action>, lo: nat, hi: nat)
    requires WellFormed(s) && AllAllowed(actions) && hi <= |actions|
  {
    exists k, m :: lo < k < m < hi && EintAt(s, actions, k) && RetiresAt(s, actions, m)
  }

  predicate EintSince(s: State, actions: seq<Action>, lo: nat, hi: nat)
    requires WellFormed(s) && AllAllowed(actions) && hi <= |actions|
  {
    exists k :: lo < k < hi && EintAt(s, actions, k)
  }

  /** How far the way to the next interrupt has come. */
  predicate OnTheWay(s: State, actions: seq<Action>, lo: nat, hi: nat)
    requires WellFormed(s) && AllAllowed(actions) && hi <= |actions|
  {
    var now := RequestOf(StateAt(s, actions, hi));
    || now.intm
    || (!now.latches.entryPending && EintSince(s, actions, lo, hi))
    || EintAndOneMore(s, actions, lo, hi)
  }

  lemma {:induction false} SinceEntry(s: State, actions: seq<Action>, lo: nat, hi: nat)
    requires WellFormed(s) && AllAllowed(actions) && lo < hi <= |actions| && Deferred(RequestOf(s))
    requires EntersAt(s, actions, lo)
    ensures OnTheWay(s, actions, lo, hi)
    decreases hi
  {
    hide StateAt, EventAt, WellFormed, EintAndOneMore, EintSince;
    RunMoves(s, actions, hi - 1);
    if hi - 1 > lo {
      DeferredAlways(s, actions, hi - 1);
      SinceEntry(s, actions, lo, hi - 1);
      SinceEntryStep(s, actions, lo, hi);
    }
  }

  lemma SinceEntryStep(s: State, actions: seq<Action>, lo: nat, hi: nat)
    requires WellFormed(s) && AllAllowed(actions) && lo + 1 < hi <= |actions|
    requires Deferred(RequestOf(StateAt(s, actions, hi - 1))) && OnTheWay(s, actions, lo, hi - 1)
    ensures OnTheWay(s, actions, lo, hi)
  {
    hide StateAt, EventAt, WellFormed, RequestOf;
    var p := hi - 1;
    RunMoves(s, actions, p);
    var before, after := RequestOf(StateAt(s, actions, p)), RequestOf(StateAt(s, actions, hi));
    if EintAndOneMore(s, actions, lo, p) {
      assert EintAndOneMore(s, actions, lo, hi);
    } else if before.intm {
      assert after.intm || EintAt(s, actions, p);
    } else if RetiresAt(s, actions, p) {
      assert EintAndOneMore(s, actions, lo, hi);
    } else {
      assert EintSince(s, actions, lo, hi);
    }
  }

  /** Between two interrupt entries an EINT retires, and after it at least one
      further instruction. */
  lemma EintBetweenEntries(s: State, actions: seq<Action>, i: nat, j: nat)
    requires WellFormed(s) && AllAllowed(actions) && i < j < |actions| && Deferred(RequestOf(s))
    requires EntersAt(s, actions, i) && EntersAt(s, actions, j)
    ensures EintAndOneMore(s, actions, i, j)
  {
    hide StateAt, EventAt, WellFormed, EintAndOneMore;
    SinceEntry(s, actions, i, j);
    DeferredAlways(s, actions, j);
    RunMoves(s, actions, j);
  }

  // ----------------------------------------------------------------- latency

  /** No reset, and every instruction that retires is a multiply. */
  predicate OnlyMultiplies(s: State, actions: seq<Action>, n: nat)
    requires WellFormed(s) && AllAllowed(actions) && n <= |actions|
  {
    forall i :: 0 <= i < n ==>
      && !actions[i].ResetCall?
      && (RetiresAt(s, actions, i) ==> IsMultiply(EventAt(s, actions, i).value.instruction.mnemonic))
  }

  lemma {:induction false} MultipliesDefer(s: State, actions: seq<Action>, n: nat)
    requires WellFormed(s) && AllAllowed(actions) && n <= |actions|
    requires Deferred(RequestOf(s)) && s.delayOne && OnlyMultiplies(s, actions, n)
    ensures Deferred(RequestOf(StateAt(s, actions, n))) && RequestOf(StateAt(s, actions, n)).latches.delayOne
  {
    hide StateAt, EventAt, WellFormed, Step;
    if n > 0 {
      MultipliesDefer(s, actions, n - 1);
      RunMoves(s, actions, n - 1);
      assert RetiresAt(s, actions, n - 1) ==> IsMultiply(EventAt(s, actions, n - 1).value.instruction.mnemonic);
    }
  }

  /** The entry of an interrupt from a state: the dummy cycle stacks the program
      counter, masks interrupts, drops the request and goes to the vector. */
  predicate EntersNext(now: State)
    requires WellFormed(now)
  {
    && EntersInterrupt(now)
    && Step(now).after.pc == 2 && Step(now).after.status.intm && !Step(now).after.pending
    && Step(now).after.stack == [now.pc] + now.stack[..3]
  }

  /** Latency: from a deferred request, however many multiplies retire first and
      whatever the pins do or the steps raise meanwhile, the first other
      instruction to retire is followed at once by the interrupt entry. DINT
      alone cancels the entry, and it leaves the request pending. */
  lemma InterruptLatency(s: State, actions: seq<Action>, n: nat)
    requires WellFormed(s) && AllAllowed(actions) && n < |actions|
    requires Deferred(RequestOf(s)) && s.delayOne && OnlyMultiplies(s, actions, n)
    requires RetiresAt(s, actions, n)
    requires !IsMultiply(EventAt(s, actions, n).value.instruction.mnemonic)
    ensures var dint := EventAt(s, actions, n).value.instruction.mnemonic.DINT?;
            && RequestOf(StateAt(s, actions, n + 1)) == Request(true, dint, Latches(false, !dint))
            && (!dint ==> EntersNext(StateAt(s, actions, n + 1)))
  {
    hide StateAt, EventAt, WellFormed, Step, Decode, Retire, OnlyMultiplies;
    MultipliesDefer(s, actions, n);
    RunMoves(s, actions, n);
    EntryFollows(StateAt(s, actions, n + 1));
  }

  lemma EntryFollows(now: State)
    requires WellFormed(now)
    ensures now.entryPending ==> EntersNext(now)
  {
    hide Step, Decode, Retire;
    StepCases(now);
  }
}
