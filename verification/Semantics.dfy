/** What one step of the machine means, component by component: a pure
    specification that the imperative model is proved against. */
module Semantics {
  import opened Bits
  import opened Arithmetic
  import opened Isa
  import opened Decoder

  const PROGRAM_WORDS := 4096
  const DATA_WORDS := 144

  datatype Status = Status(ov: bool, ovm: bool, intm: bool, arp: int, dp: int)

  /** Programmer-visible state, memories, input pins and the interrupt latches. */
  datatype State = State(
    pc: int, acc: int, p: int, t: int, ar: seq<int>, stack: seq<int>, status: Status,
    pending: bool, delayOne: bool, entryPending: bool, cycles: int,
    program: seq<int>, data: seq<int>, ioInput: seq<int>, ioOutput: seq<int>,
    bioHigh: bool, interruptHigh: bool)

  predicate AllWords(s: seq<int>)
  {
    forall i :: 0 <= i < |s| ==> IsWord(s[i])
  }

  predicate AllAddresses(s: seq<int>)
  {
    forall i :: 0 <= i < |s| ==> 0 <= s[i] < 4096
  }

  predicate IsBit(x: int) { x == 0 || x == 1 }

  /** Every register holds a pattern of its width. Input ports are unconstrained:
      the machine masks what it reads from them. */
  predicate WellFormed(s: State)
  {
    && 0 <= s.pc < 4096 && IsAcc(s.acc) && IsAcc(s.p) && IsWord(s.t)
    && |s.ar| == 2 && AllWords(s.ar)
    && |s.stack| == 4 && AllAddresses(s.stack)
    && IsBit(s.status.arp) && IsBit(s.status.dp)
    && |s.program| == 4096 && AllWords(s.program)
    && |s.data| == 144 && AllWords(s.data)
    && |s.ioInput| == 8 && |s.ioOutput| == 8 && AllWords(s.ioOutput)
  }

  // -------------------------------------------------------------- the log

  datatype Space = ProgramSpace | DataSpace | IoSpace

  datatype Operation =
    | InterruptDummyFetch | InstructionFetch | FollowingWordFetch | DiscardedPrefetch
    | TableRead | TableWrite | Read | Write

  datatype Transaction =
    Transaction(cycle: int, space: Space, operation: Operation, address: int, data: int)

  datatype Event = InterruptEntry | Executed(instruction: Instruction)

  /** What a trace adds to the decoded operands: the addresses an instruction
      used and whether a branch was taken. */
  datatype Details =
    | NoDetails
    | EntryDetails(returnAddress: int, vector: int)
    | Jump(programAddress: int)
    | Branch(programAddress: int, taken: bool)
    | CountedBranch(register: int, programAddress: int, taken: bool)
    | DataAccess(effectiveAddress: int)
    | DataMove(effectiveAddress: int, moveAddress: int)
    | TableAccess(effectiveAddress: int, programAddress: int)

  datatype Trace =
    Trace(pc: int, opcode: int, event: Event, details: Details, duration: int, log: seq<Transaction>)

  datatype Trap =
    | UnsupportedOpcode(pc: int, opcode: int)
    | UnsupportedDataAddress(pc: int, opcode: int, address: int)
    | UnsupportedProgramOperand(pc: int, opcode: int, address: int, word: int)

  datatype Outcome = Stepped(trace: Trace, after: State) | Trapped(trap: Trap, after: State)

  // ---------------------------------------------------------- addressing

  /** The instructions with a data-memory operand. */
  predicate AccessesData(m: Mnemonic)
  {
    match ShapeOf(m)
    case PlainData => !m.MAR?
    case Shifted => true
    case WithRegister => true
    case WithPort => true
    case _ => false
  }

  predicate HasAddress(o: Operands)
  {
    o.Data? || o.ShiftData? || o.RegisterData? || o.PortData?
  }

  predicate MovesData(m: Mnemonic) { m.DMOV? || m.LTD? }

  function EffectiveAddress(s: State, i: Instruction): int
    requires WellFormed(s) && HasAddress(i.operands)
  {
    if i.operands.indirect then s.ar[s.status.arp] % 256
    else if i.mnemonic.SST? then 0x80 + i.operands.field
    else s.status.dp * 128 + i.operands.field
  }

  function FollowingAddress(s: State): int { (s.pc + 1) % 4096 }

  /** Why an instruction cannot be executed in this state, if it cannot. */
  function TrapOf(s: State, i: Instruction): Option<Trap>
    requires WellFormed(s) && Legal(i)
  {
    var opcode := s.program[s.pc];
    if IsTwoWord(i.mnemonic) then
      var word := s.program[FollowingAddress(s)];
      if word >= 4096 then Some(UnsupportedProgramOperand(s.pc, opcode, FollowingAddress(s), word))
      else None
    else if AccessesData(i.mnemonic) then
      var address := EffectiveAddress(s, i);
      if address >= DATA_WORDS then Some(UnsupportedDataAddress(s.pc, opcode, address))
      else if MovesData(i.mnemonic) && address + 1 >= DATA_WORDS then
        Some(UnsupportedDataAddress(s.pc, opcode, address + 1))
      else None
    else None
  }

  predicate Executable(s: State, i: Instruction)
  {
    WellFormed(s) && Legal(i) && TrapOf(s, i).None?
  }

  /** The word at the effective address. */
  function Operand(s: State, i: Instruction): (w: int)
    requires Executable(s, i)
    ensures IsWord(w)
  {
    if AccessesData(i.mnemonic) then
      AddressNonnegative(s, i);
      s.data[EffectiveAddress(s, i)]
    else 0
  }

  lemma AddressNonnegative(s: State, i: Instruction)
    requires WellFormed(s) && Legal(i) && HasAddress(i.operands)
    ensures EffectiveAddress(s, i) >= 0
  {
  }

  /** The address an executable instruction uses is a data address. */
  lemma OperandBounds(s: State, i: Instruction)
    requires Executable(s, i) && AccessesData(i.mnemonic)
    ensures HasAddress(i.operands)
    ensures 0 <= EffectiveAddress(s, i) < 144
    ensures MovesData(i.mnemonic) ==> EffectiveAddress(s, i) + 1 < 144
    ensures Operand(s, i) == s.data[EffectiveAddress(s, i)]
  {
  }

  // -------------------------------------------------------- accumulator unit

  /** The 32-bit pattern of a word shifted left after sign extension. */
  function ShiftedWord(w: int, shift: nat): (r: int)
    ensures IsAcc(r)
  {
    (Signed16(w) * Pow2(shift)) % 0x1_0000_0000
  }

  /** The saturating addition or subtraction an instruction performs. */
  function AccOpOf(s: State, i: Instruction, w: int): Option<AccOp>
    requires Legal(i)
  {
    match i.mnemonic
    case ADD => Some(AddOp(ShiftedWord(w, i.operands.shift)))
    case SUB => Some(SubOp(ShiftedWord(w, i.operands.shift)))
    case ADDS => Some(AddOp(w))
    case SUBS => Some(SubOp(w))
    case SUBH => Some(SubOp(w * 0x1_0000))
    case APAC => Some(AddOp(s.p))
    case LTA => Some(AddOp(s.p))
    case LTD => Some(AddOp(s.p))
    case SPAC => Some(SubOp(s.p))
    case _ => None
  }

  function Absolute(acc: int, ovm: bool): int
  {
    if acc < 0x8000_0000 then acc
    else if acc == 0x8000_0000 then (if ovm then 0x7FFF_FFFF else acc)
    else 0x1_0000_0000 - acc
  }

  function NextAcc(s: State, i: Instruction, w: int): int
    requires WellFormed(s) && Legal(i)
  {
    var op := AccOpOf(s, i, w);
    if op.Some? then Stored(Exact(s.acc, op.value), s.status.ovm)
    else match i.mnemonic
      case LACK => i.operands.constant
      case LAC => ShiftedWord(w, i.operands.shift)
      case ADDH => (s.acc / 0x1_0000 + w) % 0x1_0000 * 0x1_0000 + s.acc % 0x1_0000
      case SUBC => DivideStep(s.acc, w)
      case XOR => s.acc / 0x1_0000 * 0x1_0000 + Xor(s.acc % 0x1_0000, w)
      case AND => And(s.acc % 0x1_0000, w)
      case OR => Or(s.acc, w)
      case ZALH => w * 0x1_0000
      case ZALS => w
      case PAC => s.p
      case ABS => Absolute(s.acc, s.status.ovm)
      case ZAC => 0
      case POP => s.stack[0]
      case _ => s.acc
  }

  /** The product as the multiplier forms it: the one product that needs 32 bits
      for its magnitude comes out as 0xC0000000. */
  function Product(t: int, w: int): int
  {
    if t == 0x8000 && w == 0x8000 then 0xC000_0000
    else (Signed16(t) * Signed16(w)) % 0x1_0000_0000
  }

  function NextP(s: State, i: Instruction, w: int): int
    requires Legal(i)
  {
    match i.mnemonic
    case MPY => Product(s.t, w)
    case MPYK => (Signed16(s.t) * i.operands.constant) % 0x1_0000_0000
    case _ => s.p
  }

  function NextT(s: State, i: Instruction, w: int): int
  {
    if i.mnemonic.LT? || i.mnemonic.LTA? || i.mnemonic.LTD? then w else s.t
  }

  // ------------------------------------------------- status and counters

  function ControlBit(field: int, bit: nat): bool
  {
    (field / Pow2(bit)) % 2 == 1
  }

  /** The counter change an indirect operand asks for. */
  function CounterDelta(field: int): int
  {
    if ControlBit(field, 5) then 1 else if ControlBit(field, 4) then -1 else 0
  }

  predicate IsIndirect(i: Instruction)
  {
    HasAddress(i.operands) && i.operands.indirect
  }

  predicate BranchTaken(s: State, m: Mnemonic)
    requires WellFormed(s)
  {
    match m
    case BGEZ => Signed32(s.acc) >= 0
    case BGZ => Signed32(s.acc) > 0
    case BLEZ => Signed32(s.acc) <= 0
    case BLZ => Signed32(s.acc) < 0
    case BNZ => Signed32(s.acc) != 0
    case BZ => Signed32(s.acc) == 0
    case BANZ => s.ar[s.status.arp] % 512 != 0
    case BV => s.status.ov
    case BIOZ => !s.bioHigh
    case _ => true
  }

  function NextOv(s: State, i: Instruction, w: int): bool
    requires Legal(i)
  {
    var op := AccOpOf(s, i, w);
    if op.Some? then s.status.ov || !Fits32(Exact(s.acc, op.value))
    else match i.mnemonic
      case SUBC => s.status.ov || DivideOverflows(s.acc, w)
      case LST => w >= 0x8000
      case BV => false
      case _ => s.status.ov
  }

  function NextStatus(s: State, i: Instruction, w: int): Status
    requires Legal(i)
  {
    Status(
      NextOv(s, i, w),
      match i.mnemonic
        case SOVM => true
        case ROVM => false
        case LST => (w / 0x4000) % 2 == 1
        case _ => s.status.ovm,
      match i.mnemonic
        case DINT => true
        case EINT => false
        case _ => s.status.intm,
      if i.mnemonic.LARP? then i.operands.constant
      else if i.mnemonic.LST? then (w / 256) % 2
      else if IsIndirect(i) && !ControlBit(i.operands.field, 3) then i.operands.field % 2
      else s.status.arp,
      match i.mnemonic
        case LDPK => i.operands.constant
        case LDP => w % 2
        case LST => w % 2
        case _ => s.status.dp)
  }

  /** A counter moved by one inside its low nine bits. */
  function Moved(value: int, delta: int): int
  {
    if delta == 0 then value else (value / 512) * 512 + (value + delta) % 512
  }

  function NextAr(s: State, i: Instruction, w: int): seq<int>
    requires WellFormed(s) && Legal(i)
  {
    var selected := s.status.arp;
    match i.mnemonic
    case BANZ => s.ar[selected := Moved(s.ar[selected], -1)]
    case LARK => s.ar[i.operands.register := i.operands.constant]
    case LAR =>
      var loaded := s.ar[i.operands.register := w];
      if i.operands.indirect && i.operands.register != selected then
        loaded[selected := Moved(loaded[selected], CounterDelta(i.operands.field))]
      else loaded
    case _ =>
      if IsIndirect(i) then s.ar[selected := Moved(s.ar[selected], CounterDelta(i.operands.field))]
      else s.ar
  }

  // ------------------------------------------------------- control and stack

  function Push(stack: seq<int>, value: int): seq<int>
    requires |stack| == 4
  {
    [value, stack[0], stack[1], stack[2]]
  }

  /** The bottom entry is kept twice. */
  function Pop(stack: seq<int>): seq<int>
    requires |stack| == 4
  {
    [stack[1], stack[2], stack[3], stack[3]]
  }

  /** The bottom entry is lost to the entry above it. */
  function OverwriteBottom(stack: seq<int>): seq<int>
    requires |stack| == 4
  {
    [stack[0], stack[1], stack[2], stack[2]]
  }

  function NextStack(s: State, i: Instruction): seq<int>
    requires WellFormed(s)
  {
    match i.mnemonic
    case CALL => Push(s.stack, (s.pc + 2) % 4096)
    case CALA => Push(s.stack, (s.pc + 1) % 4096)
    case PUSH => Push(s.stack, s.acc % 4096)
    case POP => Pop(s.stack)
    case RET => Pop(s.stack)
    case TBLR => OverwriteBottom(s.stack)
    case TBLW => OverwriteBottom(s.stack)
    case _ => s.stack
  }

  function NextPc(s: State, i: Instruction): int
    requires Executable(s, i)
  {
    if IsTwoWord(i.mnemonic) then
      if BranchTaken(s, i.mnemonic) then s.program[FollowingAddress(s)] else (s.pc + 2) % 4096
    else match i.mnemonic
      case CALA => s.acc % 4096
      case RET => s.stack[0]
      case _ => (s.pc + 1) % 4096
  }

  function Duration(m: Mnemonic): int
  {
    if m.TBLR? || m.TBLW? then 3
    else if IsTwoWord(m) || m.CALA? || m.POP? || m.PUSH? || m.RET? || m.IN? || m.OUT? then 2
    else 1
  }

  // --------------------------------------------------------------- memories

  datatype Cell = Nowhere | At(address: int, value: int)

  function StoreIn(memory: seq<int>, c: Cell): seq<int>
  {
    if c.At? && 0 <= c.address < |memory| then memory[c.address := c.value] else memory
  }

  /** The word SST stores: the status bits in their places, ones elsewhere. */
  function StatusWord(status: Status): int
  {
    (if status.ov then 0x8000 else 0) + (if status.ovm then 0x4000 else 0)
    + (if status.intm then 0x2000 else 0) + 0x1EFE + (status.arp % 2) * 256 + status.dp % 2
  }

  /** SAR stores the counter as its own indirect update leaves it. */
  function StoredRegister(s: State, i: Instruction): int
    requires WellFormed(s) && Legal(i) && i.operands.RegisterData?
  {
    var value := s.ar[i.operands.register];
    if i.operands.indirect && i.operands.register == s.status.arp
    then Moved(value, CounterDelta(i.operands.field)) else value
  }

  /** What SACH stores. */
  function HighHalf(acc: int, shift: nat): int
  {
    (acc * Pow2(shift)) % 0x1_0000_0000 / 0x1_0000
  }

  function DataWrite(s: State, i: Instruction): Cell
    requires Executable(s, i)
  {
    if !AccessesData(i.mnemonic) then Nowhere
    else
      var ea := EffectiveAddress(s, i);
      match i.mnemonic
      case SACL => At(ea, s.acc % 0x1_0000)
      case SACH => At(ea, HighHalf(s.acc, i.operands.shift))
      case SAR => At(ea, StoredRegister(s, i))
      case SST => At(ea, StatusWord(s.status))
      case DMOV => At(ea + 1, Operand(s, i))
      case LTD => At(ea + 1, Operand(s, i))
      case IN => At(ea, s.ioInput[i.operands.port] % 0x1_0000)
      case TBLR => At(ea, s.program[s.acc % 4096])
      case _ => Nowhere
  }

  function ProgramWrite(s: State, i: Instruction): Cell
    requires Executable(s, i)
  {
    if i.mnemonic.TBLW? then At(s.acc % 4096, Operand(s, i)) else Nowhere
  }

  function IoWrite(s: State, i: Instruction): Cell
    requires Executable(s, i)
  {
    if i.mnemonic.OUT? then At(i.operands.port, Operand(s, i)) else Nowhere
  }

  // ---------------------------------------------------------- interrupt latches

  datatype Latches = Latches(delayOne: bool, entryPending: bool)

  predicate IsMultiply(m: Mnemonic) { m.MPY? || m.MPYK? }

  /** The deferral sequence after an instruction retires. */
  function Advance(l: Latches, pending: bool, intm: bool, m: Mnemonic): Latches
  {
    if l.delayOne then
      if intm then Latches(false, l.entryPending)
      else if IsMultiply(m) then Latches(true, l.entryPending)
      else Latches(false, true)
    else if pending && !intm then Latches(true, l.entryPending)
    else l
  }

  // ------------------------------------------------------- widths are kept

  lemma NextAccWidth(s: State, i: Instruction)
    requires Executable(s, i)
    ensures IsAcc(NextAcc(s, i, Operand(s, i)))
  {
    hide Bitwise, Pow2, Decode, Operand, Exact, EffectiveAddress;
    var w := Operand(s, i);
    Pow2Table();
    Bounded(XorOp, s.acc % 0x1_0000, w, 16);
    AndBounded(s.acc % 0x1_0000, w, 16);
    OrWidth(s.acc, w);
  }

  lemma OrWidth(acc: int, w: int)
    requires IsAcc(acc) && IsWord(w)
    ensures IsAcc(Or(acc, w))
  {
    Pow2Table();
    Pow2Add(16, 16);
    Bounded(OrOp, acc, w, 32);
  }

  lemma NextArWidth(s: State, i: Instruction)
    requires Executable(s, i)
    ensures |NextAr(s, i, Operand(s, i))| == 2 && AllWords(NextAr(s, i, Operand(s, i)))
  {
    hide Bitwise, Pow2, Decode, Operand, EffectiveAddress, CounterDelta, TrapOf;
    MovedWidths();
  }

  lemma MovedWidths()
    ensures forall v, d: int :: IsWord(v) ==> IsWord(Moved(v, d))
  {
    forall v, d: int | IsWord(v)
      ensures IsWord(Moved(v, d))
    {
      MovedWidth(v, d);
    }
  }

  lemma MovedWidth(v: int, d: int)
    requires IsWord(v)
    ensures IsWord(Moved(v, d)) && Moved(v, d) / 512 == v / 512
  {
  }

  lemma WritesWidth(s: State, i: Instruction)
    requires Executable(s, i)
    ensures AllWords(StoreIn(s.data, DataWrite(s, i)))
    ensures AllWords(StoreIn(s.program, ProgramWrite(s, i)))
    ensures AllWords(StoreIn(s.ioOutput, IoWrite(s, i)))
  {
    hide Bitwise, Pow2, Decode, EffectiveAddress, CounterDelta, TrapOf, Operand;
    MovedWidths();
  }

  /** Retiring an instruction keeps every register and memory word in its width. */
  lemma RetireKeepsWidths(s: State, i: Instruction)
    requires Executable(s, i)
    ensures WellFormed(Retire(s, i))
  {
    hide NextAcc, NextAr, NextPc, DataWrite, ProgramWrite, IoWrite, TrapOf, Decode, Bitwise, Pow2;
    hide NextOv, Advance, EffectiveAddress, Operand;
    NextAccWidth(s, i);
    NextArWidth(s, i);
    WritesWidth(s, i);
    PcWidth(s, i);
  }

  lemma PcWidth(s: State, i: Instruction)
    requires Executable(s, i)
    ensures 0 <= NextPc(s, i) < 4096
  {
    hide EffectiveAddress, BranchTaken;
  }

  // ------------------------------------------------------------------- a step

  function Latch(s: State): State
  {
    s.(pending := s.pending || !s.interruptHigh)
  }

  /** The state after an instruction that does not trap. */
  function Retire(s: State, i: Instruction): State
    requires Executable(s, i)
  {
    var w := Operand(s, i);
    var status := NextStatus(s, i, w);
    var latches := Advance(Latches(s.delayOne, s.entryPending), s.pending, status.intm, i.mnemonic);
    State(NextPc(s, i), NextAcc(s, i, w), NextP(s, i, w), NextT(s, i, w), NextAr(s, i, w),
          NextStack(s, i), status, s.pending, latches.delayOne, latches.entryPending,
          s.cycles + Duration(i.mnemonic),
          StoreIn(s.program, ProgramWrite(s, i)), StoreIn(s.data, DataWrite(s, i)),
          s.ioInput, StoreIn(s.ioOutput, IoWrite(s, i)), s.bioHigh, s.interruptHigh)
  }

  /** The transactions of an instruction, in the order of the cycles. */
  function Log(s: State, i: Instruction): seq<Transaction>
    requires Executable(s, i)
  {
    [Transaction(s.cycles, ProgramSpace, InstructionFetch, s.pc, s.program[s.pc])] +
    if IsTwoWord(i.mnemonic) then
      [Transaction(s.cycles + 1, ProgramSpace, FollowingWordFetch, FollowingAddress(s),
                   s.program[FollowingAddress(s)])]
    else if !AccessesData(i.mnemonic) then []
    else DataLog(s, i)
  }

  function DataLog(s: State, i: Instruction): seq<Transaction>
    requires Executable(s, i) && AccessesData(i.mnemonic)
  {
    var ea := EffectiveAddress(s, i);
    var w := Operand(s, i);
    var c := s.cycles;
    match i.mnemonic
    case IN =>
      [Transaction(c + 1, IoSpace, Read, i.operands.port, s.ioInput[i.operands.port] % 0x1_0000),
       Transaction(c + 1, DataSpace, Write, ea, s.ioInput[i.operands.port] % 0x1_0000)]
    case OUT =>
      [Transaction(c + 1, DataSpace, Read, ea, w), Transaction(c + 1, IoSpace, Write, i.operands.port, w)]
    case TBLR =>
      [Transaction(c + 1, ProgramSpace, DiscardedPrefetch, FollowingAddress(s), s.program[FollowingAddress(s)]),
       Transaction(c + 2, ProgramSpace, TableRead, s.acc % 4096, s.program[s.acc % 4096]),
       Transaction(c + 2, DataSpace, Write, ea, s.program[s.acc % 4096])]
    case TBLW =>
      [Transaction(c + 1, ProgramSpace, DiscardedPrefetch, FollowingAddress(s), s.program[FollowingAddress(s)]),
       Transaction(c + 2, DataSpace, Read, ea, w),
       Transaction(c + 2, ProgramSpace, TableWrite, s.acc % 4096, w)]
    case SACL => [Transaction(c, DataSpace, Write, ea, s.acc % 0x1_0000)]
    case SACH =>
      [Transaction(c, DataSpace, Write, ea, HighHalf(s.acc, i.operands.shift))]
    case SAR => [Transaction(c, DataSpace, Write, ea, StoredRegister(s, i))]
    case SST => [Transaction(c, DataSpace, Write, ea, StatusWord(s.status))]
    case _ =>
      [Transaction(c, DataSpace, Read, ea, w)] +
      if MovesData(i.mnemonic) then [Transaction(c, DataSpace, Write, ea + 1, w)] else []
  }

  /** The addresses and the branch decision a trace reports. */
  function DetailsOf(s: State, i: Instruction): Details
    requires Executable(s, i)
  {
    if IsTwoWord(i.mnemonic) then BranchDetails(s, i.mnemonic, s.program[FollowingAddress(s)])
    else if !AccessesData(i.mnemonic) then NoDetails
    else AccessDetails(i.mnemonic, EffectiveAddress(s, i), s.acc)
  }

  function BranchDetails(s: State, m: Mnemonic, target: int): Details
    requires WellFormed(s)
  {
    if m.B? || m.CALL? then Jump(target)
    else if m.BANZ? then CountedBranch(s.status.arp, target, BranchTaken(s, m))
    else Branch(target, BranchTaken(s, m))
  }

  function AccessDetails(m: Mnemonic, ea: int, acc: int): Details
  {
    if MovesData(m) then DataMove(ea, ea + 1)
    else if m.TBLR? || m.TBLW? then TableAccess(ea, acc % 4096)
    else DataAccess(ea)
  }

  /** The dummy cycle that enters the interrupt routine. */
  function EnterInterrupt(s: State): State
    requires WellFormed(s)
  {
    s.(stack := Push(s.stack, s.pc), pc := 2, status := s.status.(intm := true), pending := false,
       delayOne := false, entryPending := false, cycles := s.cycles + 1)
  }

  /** An instruction in a latched state: it retires, or traps and changes nothing. */
  function Execute(s: State, i: Instruction): Outcome
    requires WellFormed(s) && Legal(i)
  {
    if TrapOf(s, i).Some? then Trapped(TrapOf(s, i).value, s)
    else
      Stepped(Trace(s.pc, s.program[s.pc], Executed(i), DetailsOf(s, i), Duration(i.mnemonic), Log(s, i)), Retire(s, i))
  }

  /** One call of `step`. */
  function Step(s: State): Outcome
    requires WellFormed(s)
  {
    var opcode := s.program[s.pc];
    if s.entryPending then
      Stepped(Trace(s.pc, opcode, InterruptEntry, EntryDetails(s.pc, 2), 1,
                [Transaction(s.cycles, ProgramSpace, InterruptDummyFetch, s.pc, opcode)]),
              EnterInterrupt(s))
    else
      var i := Decode(opcode);
      if i.None? then Trapped(UnsupportedOpcode(s.pc, opcode), Latch(s))
      else
        assert Accounts(i, opcode);
        Execute(Latch(s), i.value)
  }

  /** What a reset between steps changes. */
  function ResetState(s: State): State
  {
    s.(pc := 0, status := s.status.(intm := true), pending := false, delayOne := false, entryPending := false)
  }
}
