/** MAR with an unchanged counter and a new ARP shares its word with LARP; the
    machine cannot tell them apart. */
module Alias {
  import opened Isa
  import opened Semantics

  /** What the machine does for MAR with any addressing field, the shared word's
      included: no data access, the counter update, the new ARP, one cycle. */
  function MarEffect(s: State, indirect: bool, field: int): State
    requires WellFormed(s)
  {
    var latches := Advance(Latches(s.delayOne, s.entryPending), s.pending, s.status.intm, MAR);
    s.(pc := (s.pc + 1) % 4096,
       ar := if indirect then s.ar[s.status.arp := Moved(s.ar[s.status.arp], CounterDelta(field))] else s.ar,
       status := if indirect && !ControlBit(field, 3) then s.status.(arp := field % 2) else s.status,
       cycles := s.cycles + 1, delayOne := latches.delayOne, entryPending := latches.entryPending)
  }

  lemma MarRetires(s: State, indirect: bool, field: int)
    requires Executable(s, Instruction(MAR, Data(indirect, field)))
    ensures Retire(s, Instruction(MAR, Data(indirect, field))) == MarEffect(s, indirect, field)
  {
    hide ControlBit, LegalControl, CounterDelta, Moved;
  }

  /** LARP k does what MAR with counter unchanged and next ARP k would do. */
  lemma LarpIsMar(s: State, k: int)
    requires WellFormed(s) && 0 <= k < 2
    ensures Executable(s, Instruction(LARP, Constant(k)))
    ensures Retire(s, Instruction(LARP, Constant(k))) == MarEffect(s, true, k)
  {
    ControlOfSmall(k);
    SameCounter(s);
    hide ControlBit, CounterDelta, Moved;
  }

  lemma ControlOfSmall(k: int)
    requires 0 <= k < 2
    ensures CounterDelta(k) == 0 && !ControlBit(k, 3)
  {
  }

  lemma SameCounter(s: State)
    requires WellFormed(s)
    ensures s.ar[s.status.arp := Moved(s.ar[s.status.arp], 0)] == s.ar
  {
  }
}
