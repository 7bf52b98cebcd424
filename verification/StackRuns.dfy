/** The four-level hardware stack against an unbounded one, over whole runs. */
module StackRuns {
  import opened Isa
  import opened Decoder
  import opened Semantics
  import opened Runs

  /** What an action does to a stack. */
  datatype Move = PushMove(value: int) | PopMove | TableMove | Still

  function MoveOf(s: State, a: Action): Move
    requires WellFormed(s)
  {
    if !a.StepCall? || Step(s).Trapped? then Still
    else match Step(s).trace.event
      case InterruptEntry => PushMove(s.pc)
      case Executed(i) => InstructionMove(s, i.mnemonic)
  }

  function InstructionMove(s: State, m: Mnemonic): Move
  {
    match m
    case CALL => PushMove((s.pc + 2) % 4096)
    case CALA => PushMove((s.pc + 1) % 4096)
    case PUSH => PushMove(s.acc % 4096)
    case POP => PopMove
    case RET => PopMove
    case TBLR => TableMove
    case TBLW => TableMove
    case _ => Still
  }

  /** Four levels: a push drops the bottom entry, a pop keeps it twice, and the
      table instructions overwrite it. */
  function Hardware(stack: seq<int>, m: Move): seq<int>
    requires |stack| == 4
  {
    match m
    case PushMove(v) => Push(stack, v)
    case PopMove => Pop(stack)
    case TableMove => OverwriteBottom(stack)
    case Still => stack
  }

  lemma RetireStack(s: State, i: Instruction)
    requires Executable(s, i)
    ensures Retire(s, i).stack == Hardware(s.stack, InstructionMove(s, i.mnemonic))
    ensures i.mnemonic.RET? ==> Retire(s, i).pc == s.stack[0]
    ensures i.mnemonic.POP? ==> Retire(s, i).acc == s.stack[0]
  {
    hide NextAr, NextP, NextStatus, Advance, DataWrite, ProgramWrite, IoWrite, StoreIn, TrapOf, Operand;
    hide EffectiveAddress;
    hide Legal;
  }

  predicate ReturnsAt(s: State, actions: seq<Action>, n: nat)
    requires WellFormed(s) && AllAllowed(actions) && n < |actions|
  {
    var e := EventAt(s, actions, n);
    e.Some? && e.value.Executed? && e.value.instruction.mnemonic.RET?
  }

  /** Every action of a run moves the hardware stack as its move says, and RET
      goes to the top entry. */
  lemma RunMovesStack(s: State, actions: seq<Action>, n: nat)
    requires WellFormed(s) && AllAllowed(actions) && n < |actions|
    ensures var now := StateAt(s, actions, n);
            && |now.stack| == 4
            && StateAt(s, actions, n + 1).stack == Hardware(now.stack, MoveOf(now, actions[n]))
            && (ReturnsAt(s, actions, n) ==>
                  MoveOf(now, actions[n]).PopMove? && StateAt(s, actions, n + 1).pc == now.stack[0])
  {
    hide StateAt, EventAt, TraceAt, Step, Decode, Retire, TrapOf, Hardware;
    var now := StateAt(s, actions, n);
    RunStep(s, actions, n);
    if actions[n].StepCall? {
      StepCases(now);
      StepMovesStack(now);
    } else {
      StillKeeps(now.stack);
    }
  }

  lemma StillKeeps(stack: seq<int>)
    ensures |stack| == 4 ==> Hardware(stack, Still) == stack
  {
  }

  lemma StepMovesStack(s: State)
    requires WellFormed(s)
    ensures Step(s).after.stack == Hardware(s.stack, MoveOf(s, StepCall))
    ensures Step(s).Stepped? && Step(s).trace.event.Executed? && Step(s).trace.event.instruction.mnemonic.RET? ==>
              MoveOf(s, StepCall).PopMove? && Step(s).after.pc == s.stack[0]
  {
    hide Step, Decode, Retire, TrapOf, Hardware, InstructionMove;
    StepCases(s);
    StillKeeps(s.stack);
    var i := Decode(s.program[s.pc]);
    if s.entryPending {
      EntryStack(s);
    } else if i.Some? && TrapOf(Latch(s), i.value).None? {
      RetireStack(Latch(s), i.value);
      LatchMove(s, i.value.mnemonic);
    }
  }

  lemma EntryStack(s: State)
    requires WellFormed(s)
    ensures EnterInterrupt(s).stack == Hardware(s.stack, PushMove(s.pc))
  {
  }

  lemma LatchMove(s: State, m: Mnemonic)
    ensures InstructionMove(Latch(s), m) == InstructionMove(s, m)
    ensures m.RET? ==> InstructionMove(s, m).PopMove?
  {
  }

  // ------------------------------------------------------- the unbounded stack

  /** An unbounded stack, top first, and how many of its top entries the
      hardware still holds. */
  datatype Ideal = Ideal(entries: seq<int>, valid: nat)

  function IdealMove(t: Ideal, m: Move): Ideal
  {
    match m
    case PushMove(v) => Ideal([v] + t.entries, if t.valid < 4 then t.valid + 1 else 4)
    case PopMove => Ideal(if t.entries == [] then [] else t.entries[1..], if t.valid > 0 then t.valid - 1 else 0)
    case TableMove => Ideal(t.entries, if t.valid < 3 then t.valid else 3)
    case Still => t
  }

  function IdealAt(s: State, actions: seq<Action>, n: nat): Ideal
    requires WellFormed(s) && AllAllowed(actions) && n <= |actions|
  {
    if n == 0 then Ideal([], 0)
    else IdealMove(IdealAt(s, actions, n - 1), MoveOf(StateAt(s, actions, n - 1), actions[n - 1]))
  }

  predicate Holds(stack: seq<int>, t: Ideal)
  {
    |stack| == 4 && t.valid <= 4 && t.valid <= |t.entries| && stack[..t.valid] == t.entries[..t.valid]
  }

  lemma MoveHolds(stack: seq<int>, t: Ideal, m: Move)
    requires Holds(stack, t)
    ensures Holds(Hardware(stack, m), IdealMove(t, m))
  {
    var after, next := Hardware(stack, m), IdealMove(t, m);
    forall k | 0 <= k < next.valid
      ensures after[k] == next.entries[k]
    {
      if m.PushMove? && k > 0 { assert stack[..t.valid][k - 1] == t.entries[..t.valid][k - 1]; }
      if m.PopMove? { assert stack[..t.valid][k + 1] == t.entries[..t.valid][k + 1]; }
      if !m.PushMove? && !m.PopMove? { assert stack[..t.valid][k] == t.entries[..t.valid][k]; }
    }
  }

  /** In every run from any state the hardware agrees with the unbounded stack on
      the tracked top entries. */
  lemma {:induction false} StackRefines(s: State, actions: seq<Action>, n: nat)
    requires WellFormed(s) && AllAllowed(actions) && n <= |actions|
    ensures Holds(StateAt(s, actions, n).stack, IdealAt(s, actions, n))
  {
    hide StateAt, MoveOf, Hardware, IdealMove, Step;
    if n > 0 {
      StackRefines(s, actions, n - 1);
      RunMovesStack(s, actions, n - 1);
      var now := StateAt(s, actions, n - 1);
      MoveHolds(now.stack, IdealAt(s, actions, n - 1), MoveOf(now, actions[n - 1]));
    }
  }

  /** Never more than four entries, never a pop when empty, and at most three at
      a table instruction. */
  predicate Disciplined(s: State, actions: seq<Action>, n: nat)
    requires WellFormed(s) && AllAllowed(actions) && n <= |actions|
  {
    forall k :: 0 <= k < n ==> Fits(|IdealAt(s, actions, k).entries|, MoveOf(StateAt(s, actions, k), actions[k]))
  }

  predicate Fits(depth: nat, m: Move)
  {
    match m
    case PushMove(_) => depth < 4
    case PopMove => depth > 0
    case TableMove => depth <= 3
    case Still => true
  }

  lemma MoveFits(t: Ideal, m: Move)
    requires t.valid == |t.entries| <= 4 && Fits(|t.entries|, m)
    ensures IdealMove(t, m).valid == |IdealMove(t, m).entries| <= 4
  {
  }

  lemma {:induction false} DisciplinedDepth(s: State, actions: seq<Action>, n: nat)
    requires WellFormed(s) && AllAllowed(actions) && n <= |actions| && Disciplined(s, actions, n)
    ensures IdealAt(s, actions, n).valid == |IdealAt(s, actions, n).entries| <= 4
  {
    hide StateAt, MoveOf, IdealMove, Fits, WellFormed;
    if n > 0 {
      DisciplinedDepth(s, actions, n - 1);
      var m := MoveOf(StateAt(s, actions, n - 1), actions[n - 1]);
      assert Fits(|IdealAt(s, actions, n - 1).entries|, m);
      MoveFits(IdealAt(s, actions, n - 1), m);
    }
  }

  /** In a disciplined run the hardware holds the whole unbounded stack, and each
      RET goes to its top. */
  lemma DisciplinedStackIsExact(s: State, actions: seq<Action>, n: nat)
    requires WellFormed(s) && AllAllowed(actions) && n <= |actions| && Disciplined(s, actions, n)
    ensures IdealAt(s, actions, n).valid == |IdealAt(s, actions, n).entries| <= 4
    ensures StateAt(s, actions, n).stack[..|IdealAt(s, actions, n).entries|] == IdealAt(s, actions, n).entries
    ensures n < |actions| && ReturnsAt(s, actions, n) && IdealAt(s, actions, n).entries != [] ==>
              StateAt(s, actions, n + 1).pc == IdealAt(s, actions, n).entries[0]
  {
    hide StateAt, IdealAt, MoveOf, Hardware, Step, ReturnsAt, Disciplined, WellFormed;
    DisciplinedDepth(s, actions, n);
    StackRefines(s, actions, n);
    var t, stack := IdealAt(s, actions, n), StateAt(s, actions, n).stack;
    assert t.entries[..t.valid] == t.entries;
    if n < |actions| {
      RunMovesStack(s, actions, n);
      if t.entries != [] { assert stack[0] == stack[..t.valid][0]; }
    }
  }

  // ------------------------------------------------------ matching returns

  function Delta(m: Move): int
  {
    match m case PushMove(_) => 1 case PopMove => -1 case _ => 0
  }

  /** Entries at or above the one pushed by action i, before action k. */
  function RelativeDepth(s: State, actions: seq<Action>, i: nat, k: nat): int
    requires WellFormed(s) && AllAllowed(actions) && i < k <= |actions|
    decreases k
  {
    if k == i + 1 then 1
    else RelativeDepth(s, actions, i, k - 1) + Delta(MoveOf(StateAt(s, actions, k - 1), actions[k - 1]))
  }

  /** From the push by action i up to action j the entry stays within the four
      levels, and within three at a table instruction. */
  predicate Nested(s: State, actions: seq<Action>, i: nat, j: nat)
    requires WellFormed(s) && AllAllowed(actions) && i < j <= |actions|
  {
    forall k :: i < k <= j ==>
      && 1 <= RelativeDepth(s, actions, i, k) <= 4
      && (k < j && MoveOf(StateAt(s, actions, k), actions[k]).TableMove? ==> RelativeDepth(s, actions, i, k) <= 3)
  }

  lemma {:induction false} EntrySurvives(s: State, actions: seq<Action>, i: nat, j: nat)
    requires WellFormed(s) && AllAllowed(actions) && i < j <= |actions| && Nested(s, actions, i, j)
    requires MoveOf(StateAt(s, actions, i), actions[i]).PushMove?
    ensures 1 <= RelativeDepth(s, actions, i, j) <= 4 && |StateAt(s, actions, j).stack| == 4
    ensures StateAt(s, actions, j).stack[RelativeDepth(s, actions, i, j) - 1]
         == MoveOf(StateAt(s, actions, i), actions[i]).value
    decreases j
  {
    hide StateAt, MoveOf, Step, ReturnsAt, WellFormed, Hardware, Nested, RelativeDepth;
    NestedAt(s, actions, i, j);
    DepthStep(s, actions, i, j);
    RunMovesStack(s, actions, j - 1);
    if j > i + 1 {
      NestedPrefix(s, actions, i, j);
      EntrySurvives(s, actions, i, j - 1);
      EntryMoves(StateAt(s, actions, j - 1).stack, MoveOf(StateAt(s, actions, j - 1), actions[j - 1]),
                 RelativeDepth(s, actions, i, j - 1));
    } else {
      EntryPushed(StateAt(s, actions, i).stack, MoveOf(StateAt(s, actions, i), actions[i]));
    }
  }

  lemma NestedAt(s: State, actions: seq<Action>, i: nat, j: nat)
    requires WellFormed(s) && AllAllowed(actions) && i < j <= |actions| && Nested(s, actions, i, j)
    ensures 1 <= RelativeDepth(s, actions, i, j) <= 4
  {
    hide StateAt, MoveOf, RelativeDepth, WellFormed;
  }

  lemma DepthStep(s: State, actions: seq<Action>, i: nat, j: nat)
    requires WellFormed(s) && AllAllowed(actions) && i < j <= |actions|
    ensures RelativeDepth(s, actions, i, j)
         == if j == i + 1 then 1
            else RelativeDepth(s, actions, i, j - 1) + Delta(MoveOf(StateAt(s, actions, j - 1), actions[j - 1]))
  {
    hide StateAt, MoveOf, WellFormed;
  }

  lemma EntryPushed(stack: seq<int>, m: Move)
    requires |stack| == 4 && m.PushMove?
    ensures |Hardware(stack, m)| == 4 && Hardware(stack, m)[0] == m.value
  {
  }

  /** An entry moves with the depth, as long as it stays on the four levels. */
  lemma EntryMoves(stack: seq<int>, m: Move, depth: int)
    requires |stack| == 4 && 1 <= depth <= 4 && 1 <= depth + Delta(m) <= 4 && (m.TableMove? ==> depth <= 3)
    ensures |Hardware(stack, m)| == 4 && Hardware(stack, m)[depth + Delta(m) - 1] == stack[depth - 1]
  {
  }

  lemma NestedPrefix(s: State, actions: seq<Action>, i: nat, j: nat)
    requires WellFormed(s) && AllAllowed(actions) && i + 1 < j <= |actions| && Nested(s, actions, i, j)
    ensures Nested(s, actions, i, j - 1)
    ensures MoveOf(StateAt(s, actions, j - 1), actions[j - 1]).TableMove? ==> RelativeDepth(s, actions, i, j - 1) <= 3
  {
    hide StateAt, MoveOf, RelativeDepth, WellFormed;
  }

  /** Calls and interrupts nest: the RET that brings the depth back to that of
      the push returns to the pushed address, whatever the stack held before. */
  lemma ReturnsMatch(s: State, actions: seq<Action>, i: nat, j: nat)
    requires WellFormed(s) && AllAllowed(actions) && i < j < |actions| && Nested(s, actions, i, j)
    requires MoveOf(StateAt(s, actions, i), actions[i]).PushMove?
    requires ReturnsAt(s, actions, j) && RelativeDepth(s, actions, i, j) == 1
    ensures StateAt(s, actions, j + 1).pc == MoveOf(StateAt(s, actions, i), actions[i]).value
  {
    hide StateAt, MoveOf, Step, ReturnsAt, WellFormed, RelativeDepth, Nested;
    EntrySurvives(s, actions, i, j);
    RunMovesStack(s, actions, j);
  }
}
