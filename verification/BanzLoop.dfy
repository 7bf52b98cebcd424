/** A BANZ that branches to itself counts its auxiliary register down. */
module BanzLoop {
  import opened Bits
  import opened Isa
  import opened Decoder
  import opened DecoderInverse
  import opened Semantics
  import opened Execution

  function Banz(): Instruction { Instruction(BANZ, NoOperands) }

  /** The program counter is at a BANZ whose target is itself. */
  predicate AtLoop(s: State)
    requires WellFormed(s)
  {
    s.program[s.pc] == Word(Banz()) && s.program[FollowingAddress(s)] == s.pc
  }

  /** The counter register with its low nine bits replaced. */
  function Counted(s: State, low: int): seq<int>
    requires WellFormed(s)
  {
    s.ar[s.status.arp := s.ar[s.status.arp] / 512 * 512 + low]
  }

  /** One quiet step of the loop. */
  lemma LoopStep(s: State)
    requires WellFormed(s) && Quiet(s) && AtLoop(s)
    ensures var low, r := s.ar[s.status.arp] % 512, Step(s).after;
            && Quiet(r) && r.program == s.program && r.data == s.data && r.acc == s.acc && r.status == s.status
            && r.cycles == s.cycles + 2
            && r.ar == Counted(s, (low - 1) % 512)
            && r.pc == if low != 0 then s.pc else (s.pc + 2) % 4096
  {
    hide Step, Decode, Word, Quiet, Moved;
    DecodeAfterWord(Banz());
    BanzRetires(s);
    QuietStep(s, Banz());
  }

  lemma BanzRetires(s: State)
    requires WellFormed(s) && s.program[FollowingAddress(s)] == s.pc
    ensures Legal(Banz()) && TrapOf(s, Banz()).None?
    ensures var low, r := s.ar[s.status.arp] % 512, Retire(s, Banz());
            && r.program == s.program && r.data == s.data && r.acc == s.acc && r.status == s.status
            && r.cycles == s.cycles + 2
            && r.ar == Counted(s, (low - 1) % 512)
            && r.pc == if low != 0 then s.pc else (s.pc + 2) % 4096
  {
    hide Advance;
    LowMinusOne(s.ar[s.status.arp]);
  }

  lemma LowMinusOne(value: int)
    ensures Moved(value, -1) == value / 512 * 512 + (value % 512 - 1) % 512
  {
    assert value == value / 512 * 512 + value % 512;
  }

  /** The state after k rounds that all branched back. */
  predicate Looping(s: State, now: State, k: nat)
    requires WellFormed(s)
  {
    && Quiet(now) && now.program == s.program && now.data == s.data && now.acc == s.acc && now.status == s.status
    && now.pc == s.pc && now.cycles == s.cycles + 2 * k
    && now.ar == Counted(s, s.ar[s.status.arp] % 512 - k)
  }

  lemma {:induction false} LoopRuns(s: State, k: nat)
    requires WellFormed(s) && Quiet(s) && AtLoop(s) && k <= s.ar[s.status.arp] % 512
    ensures Looping(s, After(s, k), k)
  {
    hide WellFormed, Quiet, AtLoop, After, Step, Looping;
    if k == 0 {
      LoopStarts(s);
    } else {
      Shapes(s);
      LoopRuns(s, k - 1);
      AfterStep(s, k - 1);
      LoopContinues(s, After(s, k - 1), k);
    }
  }

  lemma Shapes(s: State)
    requires WellFormed(s)
    ensures |s.ar| == 2 && 0 <= s.status.arp < 2 && s.ar[s.status.arp] >= 0
  {
  }

  lemma LoopStarts(s: State)
    requires WellFormed(s) && Quiet(s)
    ensures Looping(s, s, 0)
  {
  }

  lemma LoopContinues(s: State, now: State, k: nat)
    requires WellFormed(s) && WellFormed(now) && AtLoop(s) && 0 < k <= s.ar[s.status.arp] % 512
    requires Looping(s, now, k - 1)
    ensures Looping(s, Step(now).after, k)
  {
    hide Step, Quiet;
    SameCounter(s.ar[s.status.arp], s.ar[s.status.arp] % 512 - (k - 1));
    LoopStep(now);
  }

  lemma SameCounter(value: int, low: int)
    requires 0 <= low < 512
    ensures (value / 512 * 512 + low) % 512 == low && (value / 512 * 512 + low) / 512 == value / 512
    ensures low > 0 ==> (low - 1) % 512 == low - 1
    ensures low == 0 ==> (low - 1) % 512 == 511
  {
    DivUnique(value / 512 * 512 + low, 512, value / 512, low);
  }

  /** The loop ends for every counter value, after exactly one round more than
      its low nine bits say, with those bits all ones and memories, accumulator and status kept. */
  lemma LoopEnds(s: State)
    requires WellFormed(s) && Quiet(s) && AtLoop(s)
    ensures var low := s.ar[s.status.arp] % 512;
            var done := After(s, low + 1);
            && done.pc == (s.pc + 2) % 4096 && done.ar == Counted(s, 511)
            && done.cycles == s.cycles + 2 * (low + 1)
            && done.data == s.data && done.program == s.program && done.acc == s.acc && done.status == s.status
            && forall k :: 0 <= k <= low ==> After(s, k).pc == s.pc
  {
    hide WellFormed, Quiet, AtLoop, After, Step, Looping;
    Shapes(s);
    var low := s.ar[s.status.arp] % 512;
    forall k | 0 <= k <= low
      ensures After(s, k).pc == s.pc
    {
      LoopRuns(s, k);
      StillThere(s, After(s, k), k);
    }
    LoopRuns(s, low);
    AfterStep(s, low);
    LoopLeaves(s, After(s, low));
  }

  lemma StillThere(s: State, now: State, k: nat)
    requires WellFormed(s) && Looping(s, now, k)
    ensures now.pc == s.pc
  {
    hide WellFormed, Quiet;
  }

  lemma LoopLeaves(s: State, now: State)
    requires WellFormed(s) && WellFormed(now) && AtLoop(s) && Looping(s, now, s.ar[s.status.arp] % 512)
    ensures var done := Step(now).after;
            && done.pc == (s.pc + 2) % 4096 && done.ar == Counted(s, 511)
            && done.cycles == s.cycles + 2 * (s.ar[s.status.arp] % 512 + 1)
            && done.data == s.data && done.program == s.program && done.acc == s.acc && done.status == s.status
  {
    hide Step, Quiet;
    SameCounter(s.ar[s.status.arp], 0);
    LoopStep(now);
  }
}
