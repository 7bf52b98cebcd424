/** The multiply-accumulate idiom ZAC; LT; MPY; (LTD; MPY)*; APAC computes a
    convolution sum and moves the delay line by one word. */
module Fir {
  import opened Arithmetic
  import opened Isa
  import opened Decoder
  import opened DecoderInverse
  import opened Semantics
  import opened Execution

  /** The accumulator with its overflow flag. */
  function AccOf(s: State): AccState { AccState(s.acc, s.status.ov) }

  /** What the five instructions do to the registers a filter uses, in either
      overflow mode. */
  lemma RetireMac(s: State, i: Instruction)
    requires Executable(s, i)
    requires i.mnemonic.ZAC? || i.mnemonic.LT? || i.mnemonic.MPY? || i.mnemonic.LTD? || i.mnemonic.APAC?
    ensures var r, w := Retire(s, i), Operand(s, i);
            && r.status.ovm == s.status.ovm
            && AccOf(r) == (if i.mnemonic.ZAC? then AccState(0, s.status.ov)
                            else if i.mnemonic.LTD? || i.mnemonic.APAC? then
                              Accumulate(AccOf(s), s.status.ovm, AddOp(s.p))
                            else AccOf(s))
            && r.p == (if i.mnemonic.MPY? then Product(s.t, w) else s.p)
            && r.t == (if i.mnemonic.LT? || i.mnemonic.LTD? then w else s.t)
            && r.program == s.program && r.pc == (s.pc + 1) % 4096 && r.status.dp == s.status.dp
            && r.data == (if i.mnemonic.LTD? then s.data[EffectiveAddress(s, i) + 1 := w] else s.data)
  {
    hide Retire, Operand, EffectiveAddress, Accumulate;
    if i.mnemonic.ZAC? || i.mnemonic.APAC? { RetireSum(s, i); } else { RetireOperand(s, i); }
  }

  lemma RetireSum(s: State, i: Instruction)
    requires Executable(s, i) && (i.mnemonic.ZAC? || i.mnemonic.APAC?)
    ensures var r := Retire(s, i);
            && r.status.ovm == s.status.ovm
            && AccOf(r) == (if i.mnemonic.ZAC? then AccState(0, s.status.ov)
                            else Accumulate(AccOf(s), s.status.ovm, AddOp(s.p)))
            && r.p == s.p && r.t == s.t && r.data == s.data
            && r.program == s.program && r.pc == (s.pc + 1) % 4096 && r.status.dp == s.status.dp
  {
    hide Stored, Exact, EffectiveAddress, Operand, TrapOf, Advance, NextAr, Fits32, AllWords, AllAddresses;
  }

  lemma RetireOperand(s: State, i: Instruction)
    requires Executable(s, i) && (i.mnemonic.LT? || i.mnemonic.MPY? || i.mnemonic.LTD?)
    ensures var r, w := Retire(s, i), Operand(s, i);
            && r.status.ovm == s.status.ovm
            && AccOf(r) == (if i.mnemonic.LTD? then Accumulate(AccOf(s), s.status.ovm, AddOp(s.p)) else AccOf(s))
            && r.p == (if i.mnemonic.MPY? then Product(s.t, w) else s.p)
            && r.t == (if i.mnemonic.LT? || i.mnemonic.LTD? then w else s.t)
            && r.program == s.program && r.pc == (s.pc + 1) % 4096 && r.status.dp == s.status.dp
            && r.data == (if i.mnemonic.LTD? then s.data[EffectiveAddress(s, i) + 1 := w] else s.data)
  {
    hide Stored, Exact, EffectiveAddress, Operand, TrapOf, Advance, NextAr, Fits32, AllWords, AllAddresses;
    OperandBounds(s, i);
  }

  // ------------------------------------------------------------ the program

  /** A filter: the first cell of its delay line, and the coefficient cell of each
      tap, the oldest sample first. */
  datatype Filter = Filter(base: int, coefficients: seq<int>)

  /** The delay line and coefficients lie in the data memory, and no coefficient
      is a cell that was already overwritten when its tap is computed. */
  predicate Fits(f: Filter)
  {
    var n := |f.coefficients|;
    && n >= 1 && 0 <= f.base && f.base + n <= 144
    && forall j :: 0 <= j < n ==>
         && 0 <= f.coefficients[j] < 144
         && !(f.base + n - j <= f.coefficients[j] < f.base + n)
  }

  function Length(f: Filter): nat { 2 * |f.coefficients| + 2 }

  /** The sample cell of tap j. */
  function Sample(f: Filter, j: int): int { f.base + |f.coefficients| - 1 - j }

  /** Instruction k of the program, and the data cell it uses. */
  function MnemonicOf(f: Filter, k: nat): Mnemonic
  {
    if k == 0 then ZAC else if k == 1 then LT else if k == Length(f) - 1 then APAC
    else if k % 2 == 0 then MPY else LTD
  }

  function CellOf(f: Filter, k: nat): int
    requires 1 <= k < Length(f) - 1
  {
    if k % 2 == 0 then f.coefficients[k / 2 - 1] else Sample(f, k / 2)
  }

  /** Step k of the run fetches instruction k, however it addresses its cell. */
  predicate RunsAt(s: State, f: Filter, k: nat)
    requires WellFormed(s) && k < Length(f)
  {
    var now := After(s, k);
    var d := Decode(now.program[now.pc]);
    && d.Some? && Legal(d.value) && d.value.mnemonic == MnemonicOf(f, k)
    && (1 <= k < Length(f) - 1 ==>
          HasAddress(d.value.operands) && EffectiveAddress(now, d.value) == CellOf(f, k))
  }

  predicate RunsFilter(s: State, f: Filter)
    requires WellFormed(s)
  {
    forall k :: 0 <= k < Length(f) ==> RunsAt(s, f, k)
  }

  // ---------------------------------------------------------------- the sum

  /** The product of tap j, from the memory before the run. */
  function Term(data: seq<int>, f: Filter, j: int): int
    requires |data| == 144 && Fits(f) && 0 <= j < |f.coefficients|
  {
    Product(data[Sample(f, j)], data[f.coefficients[j]])
  }

  function Sum(data: seq<int>, f: Filter, n: nat): int
    requires |data| == 144 && Fits(f) && n <= |f.coefficients|
  {
    if n == 0 then 0 else Sum(data, f, n - 1) + Term(data, f, n - 1)
  }

  /** The additions of the first n taps, in order. */
  function Additions(data: seq<int>, f: Filter, n: nat): (r: seq<AccOp>)
    requires |data| == 144 && Fits(f) && n <= |f.coefficients|
  {
    if n == 0 then [] else Additions(data, f, n - 1) + [AddOp(Term(data, f, n - 1))]
  }

  /** The accumulator and OV after the first n taps of a run that starts in s. */
  function Accumulated(s: State, f: Filter, n: nat): AccState
    requires |s.data| == 144 && Fits(f) && n <= |f.coefficients|
  {
    AccumulateAll(AccState(0, s.status.ov), s.status.ovm, Additions(s.data, f, n))
  }

  lemma OneMoreTap(s: State, f: Filter, n: nat)
    requires |s.data| == 144 && Fits(f) && 0 < n <= |f.coefficients|
    ensures Accumulated(s, f, n) == Accumulate(Accumulated(s, f, n - 1), s.status.ovm, AddOp(Term(s.data, f, n - 1)))
  {
    hide Fits, Term, Accumulate;
    AccumulateOneMore(AccState(0, s.status.ov), s.status.ovm, Additions(s.data, f, n - 1),
      AddOp(Term(s.data, f, n - 1)));
  }

  lemma NoTaps(s: State, f: Filter)
    requires |s.data| == 144 && Fits(f)
    ensures Accumulated(s, f, 0) == AccState(0, s.status.ov)
  {
  }

  /** The delay line after j moves: the j highest cells below its end hold what
      the cell before them held. */
  function Shifted(data: seq<int>, f: Filter, j: nat): (r: seq<int>)
    requires |data| == 144 && Fits(f) && j < |f.coefficients|
    ensures |r| == 144
  {
    seq(144, a requires 0 <= a < 144 =>
      if f.base + |f.coefficients| - j <= a < f.base + |f.coefficients| then data[a - 1] else data[a])
  }

  /** The state in the middle of tap j: its product is formed, the ones before it
      are accumulated. */
  predicate AtTap(s: State, now: State, f: Filter, j: nat)
    requires |s.data| == 144 && Fits(f) && j < |f.coefficients|
  {
    && Quiet(now) && now.status.ovm == s.status.ovm
    && AccOf(now) == Accumulated(s, f, j)
    && now.p == Term(s.data, f, j)
    && now.data == Shifted(s.data, f, j)
  }

  /** What a step of the program does to the registers and the data memory. */
  predicate MacMoves(now: State, r: State, f: Filter, k: nat)
    requires k < Length(f)
  {
    var m := MnemonicOf(f, k);
    && Quiet(r) && r.status.ovm == now.status.ovm && |now.data| == 144
    && AccOf(r) == (if m.ZAC? then AccState(0, now.status.ov)
                    else if m.LTD? || m.APAC? then Accumulate(AccOf(now), now.status.ovm, AddOp(now.p))
                    else AccOf(now))
    && if 1 <= k < Length(f) - 1 then
         var c := CellOf(f, k);
         && 0 <= c < 144 && (m.LTD? ==> c < 143)
         && r.p == (if m.MPY? then Product(now.t, now.data[c]) else now.p)
         && r.t == (if m.MPY? then now.t else now.data[c])
         && r.data == (if m.LTD? then now.data[c + 1 := now.data[c]] else now.data)
       else r.data == now.data
  }

  /** It moves on to the next word of the same program, on the same page. */
  predicate MovesOn(now: State, r: State)
  {
    r.program == now.program && r.pc == (now.pc + 1) % 4096 && r.status.dp == now.status.dp
  }

  /** One quiet step of the program. */
  lemma MacStep(s: State, f: Filter, k: nat)
    requires WellFormed(s) && Fits(f) && k < Length(f) && RunsAt(s, f, k)
    requires Quiet(After(s, k))
    ensures MacMoves(After(s, k), After(s, k + 1), f, k) && MovesOn(After(s, k), After(s, k + 1))
  {
    var now := After(s, k);
    var d := Decode(now.program[now.pc]);
    hide Decode, After, Step, Quiet, WellFormed, EffectiveAddress, MacMoves, Legal, Fits;
    AfterStep(s, k);
    MacStepFrom(now, d.value, f, k);
  }

  lemma MacStepFrom(now: State, i: Instruction, f: Filter, k: nat)
    requires WellFormed(now) && Fits(f) && k < Length(f) && Quiet(now)
    requires Decode(now.program[now.pc]) == Some(i) && Legal(i) && i.mnemonic == MnemonicOf(f, k)
    requires 1 <= k < Length(f) - 1 ==> HasAddress(i.operands) && EffectiveAddress(now, i) == CellOf(f, k)
    ensures MacMoves(now, Step(now).after, f, k) && MovesOn(now, Step(now).after)
  {
    hide Decode, Step, Retire, Quiet, WellFormed, EffectiveAddress, Product, Legal, Operand, Fits, CellOf, Next;
    hide Accumulate;
    CellBounds(f, k);
    MacNeverTraps(now, i);
    NextMeans(now, i);
    QuietStep(now, i);
    RetireMac(now, i);
    if AccessesData(i.mnemonic) { OperandBounds(now, i); }
  }

  lemma NextMeans(now: State, i: Instruction)
    requires WellFormed(now) && Decode(now.program[now.pc]) == Some(i) && Legal(i) && TrapOf(now, i).None?
    ensures Next(now, i) && |now.data| == 144
  {
  }

  lemma CellBounds(f: Filter, k: nat)
    requires Fits(f) && k < Length(f)
    ensures 1 <= k < Length(f) - 1 ==> 0 <= CellOf(f, k) < 144
    ensures MnemonicOf(f, k).LTD? ==> 1 <= k < Length(f) - 1 && CellOf(f, k) + 1 < 144
    ensures AccessesData(MnemonicOf(f, k)) <==> 1 <= k < Length(f) - 1
  {
    if k == Length(f) - 1 { assert MnemonicOf(f, k).APAC?; }
  }

  lemma MacNeverTraps(now: State, i: Instruction)
    requires WellFormed(now) && Legal(i)
    requires i.mnemonic.ZAC? || i.mnemonic.LT? || i.mnemonic.MPY? || i.mnemonic.LTD? || i.mnemonic.APAC?
    requires AccessesData(i.mnemonic) ==>
               HasAddress(i.operands) && EffectiveAddress(now, i) < if i.mnemonic.LTD? then 143 else 144
    ensures TrapOf(now, i).None?
  {
    hide EffectiveAddress;
  }

  // ------------------------------------------------------------- the theorem

  /** Moving one more cell of the delay line. */
  lemma ShiftMore(data: seq<int>, f: Filter, j: nat)
    requires |data| == 144 && Fits(f) && 0 < j < |f.coefficients|
    ensures var c := Sample(f, j);
            && 0 <= c < 143
            && Shifted(data, f, j - 1)[c] == data[c]
            && Shifted(data, f, j - 1)[c + 1 := data[c]] == Shifted(data, f, j)
  {
  }

  /** The coefficient of a tap is still in place when the tap is computed. */
  lemma CoefficientKept(data: seq<int>, f: Filter, j: nat)
    requires |data| == 144 && Fits(f) && j < |f.coefficients|
    ensures 0 <= f.coefficients[j] < 144
    ensures Shifted(data, f, j)[f.coefficients[j]] == data[f.coefficients[j]]
  {
  }

  lemma ShiftNone(data: seq<int>, f: Filter)
    requires |data| == 144 && Fits(f)
    ensures Shifted(data, f, 0) == data && 0 <= Sample(f, 0) < 144
  {
  }

  /** ZAC; LT; MPY: the first tap. */
  lemma FirstTap(s: State, f: Filter)
    requires WellFormed(s) && |s.data| == 144 && Quiet(s) && Fits(f) && RunsFilter(s, f)
    ensures AtTap(s, After(s, 3), f, 0)
  {
    hide RunsFilter, RunsAt, After, Quiet, WellFormed, MacMoves, AtTap, Fits;
    HasTaps(f);
    FilterStep(s, f, 0);
    FilterStep(s, f, 1);
    FilterStep(s, f, 2);
    MacStep(s, f, 0);
    MacMeans(After(s, 0), After(s, 1), f, 0);
    MacStep(s, f, 1);
    MacMeans(After(s, 1), After(s, 2), f, 1);
    MacStep(s, f, 2);
    StartTap(s, After(s, 1), After(s, 2), After(s, 3), f);
  }

  lemma MacMeans(now: State, r: State, f: Filter, k: nat)
    requires k < Length(f) && MacMoves(now, r, f, k)
    ensures Quiet(r) && r.status.ovm == now.status.ovm
  {
    hide CellOf, MnemonicOf, Quiet, Accumulate;
  }

  lemma StartTap(a: State, b: State, c: State, d: State, f: Filter)
    requires |a.data| == 144 && Fits(f)
    requires MacMoves(a, b, f, 0) && MacMoves(b, c, f, 1) && MacMoves(c, d, f, 2)
    ensures AtTap(a, d, f, 0)
  {
    ShiftNone(a.data, f);
    CoefficientKept(a.data, f, 0);
    NoTaps(a, f);
    hide Quiet, Product, Shifted, Accumulated;
    assert CellOf(f, 1) == Sample(f, 0) && CellOf(f, 2) == f.coefficients[0];
  }

  /** LTD; MPY: accumulate the last product, move a sample, form the next product. */
  lemma NextTap(s: State, f: Filter, j: nat)
    requires WellFormed(s) && |s.data| == 144 && Fits(f) && RunsFilter(s, f) && 0 < j < |f.coefficients|
    requires AtTap(s, After(s, 2 * j + 1), f, j - 1)
    ensures AtTap(s, After(s, 2 * j + 3), f, j)
  {
    hide RunsFilter, RunsAt, After, WellFormed, MacMoves, Fits, MnemonicOf, CellOf, Quiet, Shifted, AtTap;
    var k := 2 * j + 1;
    TapCells(f, j);
    AtTapMeans(s, After(s, k), f, j - 1);
    FilterStep(s, f, k);
    MacStep(s, f, k);
    MacMeans(After(s, k), After(s, k + 1), f, k);
    FilterStep(s, f, k + 1);
    MacStep(s, f, k + 1);
    AdvanceTap(s, After(s, k), After(s, k + 1), After(s, k + 2), f, j);
  }

  lemma FilterStep(s: State, f: Filter, k: nat)
    requires WellFormed(s) && RunsFilter(s, f) && k < Length(f)
    ensures RunsAt(s, f, k)
  {
    hide RunsAt, WellFormed;
  }

  lemma AtTapMeans(s: State, now: State, f: Filter, j: nat)
    requires |s.data| == 144 && Fits(f) && j < |f.coefficients| && AtTap(s, now, f, j)
    ensures Quiet(now) && now.status.ovm == s.status.ovm
  {
    hide Quiet;
  }

  lemma AdvanceTap(s: State, now: State, mid: State, next: State, f: Filter, j: nat)
    requires |s.data| == 144 && Fits(f) && 0 < j < |f.coefficients| && 2 * j + 2 < Length(f)
    requires AtTap(s, now, f, j - 1)
    requires MacMoves(now, mid, f, 2 * j + 1) && MacMoves(mid, next, f, 2 * j + 2)
    ensures AtTap(s, next, f, j)
  {
    hide Quiet, Product, Shifted, Fits, MnemonicOf, CellOf, Sample, Length, Accumulate, Accumulated;
    ShiftMore(s.data, f, j);
    CoefficientKept(s.data, f, j);
    TapCells(f, j);
    OneMoreTap(s, f, j);
  }

  lemma TapCells(f: Filter, j: nat)
    requires Fits(f) && 0 < j < |f.coefficients|
    ensures 1 <= 2 * j + 1 < 2 * j + 2 < Length(f) - 1
    ensures MnemonicOf(f, 2 * j + 1) == LTD && CellOf(f, 2 * j + 1) == Sample(f, j)
    ensures MnemonicOf(f, 2 * j + 2) == MPY && CellOf(f, 2 * j + 2) == f.coefficients[j]
  {
  }

  lemma {:induction false} ReachesTap(s: State, f: Filter, j: nat)
    requires WellFormed(s) && |s.data| == 144 && Quiet(s) && Fits(f) && RunsFilter(s, f)
    requires j < |f.coefficients|
    ensures AtTap(s, After(s, 2 * j + 3), f, j)
  {
    hide RunsFilter, After, Quiet, WellFormed, AtTap, Fits;
    if j == 0 {
      FirstTap(s, f);
    } else {
      ReachesTap(s, f, j - 1);
      NextTap(s, f, j);
    }
  }

  /** The delay line moved by one: every cell but the newest holds what the one
      before it held, and all other data are unchanged. */
  predicate LineMoved(before: seq<int>, after: seq<int>, f: Filter)
    requires |before| == 144 && Fits(f)
  {
    var n := |f.coefficients|;
    after == before[..f.base + 1] + before[f.base..f.base + n - 1] + before[f.base + n..]
  }

  /** For any number of taps that fits in the data memory and in either overflow
      mode, the run adds the products of the taps to a zero accumulator in order,
      saturating or wrapping as the mode says, and moves the delay line by one. */
  lemma FirAccumulates(s: State, f: Filter)
    requires WellFormed(s) && Quiet(s) && Fits(f) && RunsFilter(s, f)
    ensures |s.data| == 144
    ensures var done := After(s, Length(f));
            && AccOf(done) == Accumulated(s, f, |f.coefficients|)
            && LineMoved(s.data, done.data, f)
            && Quiet(done) && done.status.ovm == s.status.ovm
  {
    hide RunsFilter, RunsAt, After, Quiet, WellFormed, Shifted, Fits, MacMoves, AtTap, Accumulated, LineMoved;
    DataLength(s);
    HasTaps(f);
    var k := Length(f) - 1;
    ReachesTap(s, f, |f.coefficients| - 1);
    AtTapMeans(s, After(s, k), f, |f.coefficients| - 1);
    FilterStep(s, f, k);
    MacStep(s, f, k);
    LastTap(s, After(s, k), After(s, k + 1), f);
  }

  /** What that leaves: with overflow mode off the sum of the products modulo
      2^32; in either mode OV is set exactly when it was set before or the sum left
      the signed range at some tap. */
  lemma FirCorrect(s: State, f: Filter)
    requires WellFormed(s) && Quiet(s) && Fits(f) && RunsFilter(s, f)
    ensures |s.data| == 144
    ensures var n := |f.coefficients|;
            var done := After(s, Length(f));
            && (!s.status.ovm ==> done.acc == Sum(s.data, f, n) % 0x1_0000_0000)
            && (done.status.ov <==>
                  s.status.ov || exists j :: 0 <= j < n && LeavesRange(s, f, j))
            && done.data == s.data[..f.base + 1] + s.data[f.base..f.base + n - 1] + s.data[f.base + n..]
            && Quiet(done) && done.status.ovm == s.status.ovm
  {
    hide RunsFilter, After, Quiet, WellFormed, Fits, Sum, LeavesRange, Additions;
    FirAccumulates(s, f);
    HasTaps(f);
    var n, start := |f.coefficients|, AccState(0, s.status.ov);
    AdditionsAre(s.data, f, n);
    if !s.status.ovm { WrappedTotal(start, Additions(s.data, f, n)); }
    TapOverflows(s, f);
  }

  /** Adding tap j leaves the signed range. */
  predicate LeavesRange(s: State, f: Filter, j: nat)
    requires |s.data| == 144 && Fits(f) && j < |f.coefficients|
  {
    !Fits32(Exact(Accumulated(s, f, j).acc, AddOp(Term(s.data, f, j))))
  }

  lemma {:induction false} AdditionsAre(data: seq<int>, f: Filter, n: nat)
    requires |data| == 144 && Fits(f) && n <= |f.coefficients|
    ensures |Additions(data, f, n)| == n && Total(Additions(data, f, n)) == Sum(data, f, n)
    ensures forall op | op in Additions(data, f, n) :: IsAcc(op.value)
  {
    hide Fits, Term, AccumulateAll, Total, SignedTotal;
    if n > 0 {
      AdditionsAre(data, f, n - 1);
      AccumulateOneMore(AccState(0, false), false, Additions(data, f, n - 1), AddOp(Term(data, f, n - 1)));
      TermIsAcc(data, f, n - 1);
    } else {
      NothingTotal();
    }
  }

  lemma NothingTotal()
    ensures Total([]) == 0
  {
  }

  lemma {:induction false} AdditionAt(data: seq<int>, f: Filter, n: nat, j: nat)
    requires |data| == 144 && Fits(f) && j < n <= |f.coefficients|
    ensures |Additions(data, f, n)| == n
    ensures Additions(data, f, n)[..j] == Additions(data, f, j)
    ensures Additions(data, f, n)[j] == AddOp(Term(data, f, j))
  {
    hide Fits, Term, AccumulateAll, Total, SignedTotal;
    AdditionsAre(data, f, n);
    AdditionsAre(data, f, n - 1);
    if j < n - 1 {
      AdditionAt(data, f, n - 1, j);
      assert Additions(data, f, n)[..j] == Additions(data, f, n - 1)[..j];
    } else {
      assert Additions(data, f, n)[..j] == Additions(data, f, n - 1);
    }
  }

  lemma TermIsAcc(data: seq<int>, f: Filter, j: nat)
    requires |data| == 144 && Fits(f) && j < |f.coefficients|
    ensures IsAcc(Term(data, f, j))
  {
    hide Signed16;
  }

  lemma TapOverflows(s: State, f: Filter)
    requires |s.data| == 144 && Fits(f)
    ensures Accumulated(s, f, |f.coefficients|).ov
       <==> s.status.ov || exists j :: 0 <= j < |f.coefficients| && LeavesRange(s, f, j)
  {
    hide Fits, Term, Additions, Exact, Fits32, AccumulateAll;
    var n, start := |f.coefficients|, AccState(0, s.status.ov);
    var ops := Additions(s.data, f, n);
    AdditionsAre(s.data, f, n);
    OverflowIsSticky(start, s.status.ovm, ops);
    forall j | 0 <= j < n
      ensures LeavesRange(s, f, j) <==> !Fits32(Exact(AccBefore(start, s.status.ovm, ops, j), ops[j]))
    {
      AdditionAt(s.data, f, n, j);
    }
    assert |ops| == n;
  }

  lemma HasTaps(f: Filter)
    requires Fits(f)
    ensures |f.coefficients| >= 1 && 0 <= f.base && f.base + |f.coefficients| <= 144
  {
  }

  lemma LastTap(s: State, now: State, done: State, f: Filter)
    requires |s.data| == 144 && Fits(f) && AtTap(s, now, f, |f.coefficients| - 1)
    requires MacMoves(now, done, f, Length(f) - 1)
    ensures AccOf(done) == Accumulated(s, f, |f.coefficients|)
    ensures LineMoved(s.data, done.data, f)
    ensures Quiet(done) && done.status.ovm == s.status.ovm
  {
    hide Quiet, Shifted, MnemonicOf, CellOf, Product, Term, Fits, Accumulate, Accumulated;
    HasTaps(f);
    WholeShift(s.data, f);
    LastIsApac(f);
    OneMoreTap(s, f, |f.coefficients|);
  }

  lemma LastIsApac(f: Filter)
    ensures |f.coefficients| > 0 ==> MnemonicOf(f, Length(f) - 1) == APAC
  {
  }

  lemma WholeShift(data: seq<int>, f: Filter)
    requires |data| == 144 && Fits(f)
    ensures var n := |f.coefficients|;
            Shifted(data, f, n - 1) == data[..f.base + 1] + data[f.base..f.base + n - 1] + data[f.base + n..]
  {
  }

  // ---------------------------------------------- the program in memory

  function Direct(m: Mnemonic, field: int): Instruction
  {
    Instruction(m, if AccessesData(m) then Data(false, field) else NoOperands)
  }

  function FieldOf(s: State, f: Filter, k: nat): int
  {
    if 1 <= k < Length(f) - 1 then CellOf(f, k) - s.status.dp * 128 else 0
  }

  /** The words from the program counter on are the filter's instructions with
      direct addresses on the current page. */
  predicate DirectProgram(s: State, f: Filter)
    requires WellFormed(s)
  {
    forall k :: 0 <= k < Length(f) ==>
      0 <= FieldOf(s, f, k) < 128 && Fetched(s, k) == Word(Direct(MnemonicOf(f, k), FieldOf(s, f, k)))
  }

  predicate OnProgram(s: State, now: State, k: nat)
  {
    && Quiet(now) && now.program == s.program
    && now.pc == (s.pc + k) % 4096 && now.status.dp == s.status.dp
  }

  lemma DirectNext(s: State, now: State, f: Filter, k: nat)
    requires WellFormed(s) && WellFormed(now) && Fits(f) && DirectProgram(s, f) && k < Length(f) && OnProgram(s, now, k)
    ensures var d := Decode(now.program[now.pc]);
            && d.Some? && Legal(d.value) && d.value.mnemonic == MnemonicOf(f, k)
            && (1 <= k < Length(f) - 1 ==>
                  HasAddress(d.value.operands) && EffectiveAddress(now, d.value) == CellOf(f, k))
  {
    hide Decode, Word, Quiet, WellFormed, Fits, CellOf, MnemonicOf;
    var i := Direct(MnemonicOf(f, k), FieldOf(s, f, k));
    assert Fetched(s, k) == Word(i);
    CellBounds(f, k);
    MacShape(MnemonicOf(f, k), f, k);
    DecodeAfterWord(i);
  }

  lemma MacShape(m: Mnemonic, f: Filter, k: nat)
    requires m == MnemonicOf(f, k)
    ensures ShapeOf(m) == if AccessesData(m) then PlainData else Fixed
    ensures !m.SST? && !m.MAR?
  {
  }

  lemma {:induction false} DirectReaches(s: State, f: Filter, k: nat)
    requires WellFormed(s) && Quiet(s) && Fits(f) && DirectProgram(s, f) && k <= Length(f)
    ensures OnProgram(s, After(s, k), k)
    ensures forall j :: 0 <= j < k ==> RunsAt(s, f, j)
  {
    hide DirectProgram, After, Quiet, WellFormed, Fits, Length, Decode, EffectiveAddress, Legal, MacMoves;
    if k > 0 {
      DirectReaches(s, f, k - 1);
      DirectNext(s, After(s, k - 1), f, k - 1);
      MacStep(s, f, k - 1);
      MacMeans(After(s, k - 1), After(s, k), f, k - 1);
      NextPosition(s.pc, k);
    } else {
      PcInRange(s);
    }
  }

  lemma PcInRange(s: State)
    requires WellFormed(s)
    ensures s.pc % 4096 == s.pc
  {
  }

  /** The words of the filter in program memory, with direct addresses, compute
      the filter. */
  lemma FirProgram(s: State, f: Filter)
    requires WellFormed(s) && Quiet(s) && Fits(f) && DirectProgram(s, f)
    ensures RunsFilter(s, f) && |s.data| == 144
    ensures var n := |f.coefficients|;
            var done := After(s, Length(f));
            && AccOf(done) == Accumulated(s, f, n)
            && (!s.status.ovm ==> done.acc == Sum(s.data, f, n) % 0x1_0000_0000)
            && done.data == s.data[..f.base + 1] + s.data[f.base..f.base + n - 1] + s.data[f.base + n..]
            && done.pc == (s.pc + Length(f)) % 4096
  {
    hide DirectProgram, After, Quiet, WellFormed, Fits, RunsAt, Length, Sum, Accumulated, LeavesRange;
    DirectReaches(s, f, Length(f));
    FirAccumulates(s, f);
    FirCorrect(s, f);
  }

  // ------------------------------------------------------ the signed reading

  /** The signed sum of products a filter is meant to compute. */
  function SignedSum(data: seq<int>, f: Filter, n: nat): int
    requires |data| == 144 && Fits(f) && n <= |f.coefficients|
  {
    if n == 0 then 0
    else SignedSum(data, f, n - 1) + Signed16(data[Sample(f, n - 1)]) * Signed16(data[f.coefficients[n - 1]])
  }

  /** The tap multiplies -32768 by -32768. */
  predicate ExtremeTap(data: seq<int>, f: Filter, j: nat)
    requires |data| == 144 && Fits(f) && j < |f.coefficients|
  {
    data[Sample(f, j)] == 0x8000 && data[f.coefficients[j]] == 0x8000
  }

  /** How many of the first n taps do. */
  function Extremes(data: seq<int>, f: Filter, n: nat): nat
    requires |data| == 144 && Fits(f) && n <= |f.coefficients|
  {
    if n == 0 then 0 else Extremes(data, f, n - 1) + if ExtremeTap(data, f, n - 1) then 1 else 0
  }

  /** Each extreme tap contributes -2^30 in place of 2^30. */
  lemma TermMeaning(data: seq<int>, f: Filter, j: nat)
    requires |data| == 144 && Fits(f) && j < |f.coefficients| && AllWords(data)
    ensures Signed32(Term(data, f, j))
         == Signed16(data[Sample(f, j)]) * Signed16(data[f.coefficients[j]])
            - if ExtremeTap(data, f, j) then 0x8000_0000 else 0
  {
    ProductMeaning(data[Sample(f, j)], data[f.coefficients[j]]);
  }

  lemma ProductMeaning(t: int, w: int)
    requires IsWord(t) && IsWord(w)
    ensures Signed32(Product(t, w))
         == Signed16(t) * Signed16(w) - if t == 0x8000 && w == 0x8000 then 0x8000_0000 else 0
  {
    ProductBound(Signed16(t), Signed16(w));
    if t == 0x8000 && w == 0x8000 { assert Signed16(t) * Signed16(w) == 0x4000_0000; }
  }

  /** The additions of the taps sum up to the convolution, short of 2^31 for each
      extreme tap. */
  lemma {:induction false} AdditionsAreSigned(data: seq<int>, f: Filter, n: nat)
    requires |data| == 144 && Fits(f) && n <= |f.coefficients| && AllWords(data)
    ensures SignedTotal(Additions(data, f, n)) == SignedSum(data, f, n) - 0x8000_0000 * Extremes(data, f, n)
  {
    hide Fits, Term, AllWords, Signed16, Signed32, ExtremeTap, AccumulateAll, Total;
    if n > 0 {
      AdditionsAreSigned(data, f, n - 1);
      TermMeaning(data, f, n - 1);
      AccumulateOneMore(AccState(0, false), false, Additions(data, f, n - 1), AddOp(Term(data, f, n - 1)));
    }
  }

  lemma {:induction false} SumIsSigned(data: seq<int>, f: Filter, n: nat)
    requires |data| == 144 && Fits(f) && n <= |f.coefficients|
    ensures Sum(data, f, n) % 0x1_0000_0000 == SignedTotal(Additions(data, f, n)) % 0x1_0000_0000
  {
    hide Fits, Term, Signed32, AccumulateAll, Total;
    if n > 0 {
      SumIsSigned(data, f, n - 1);
      AccumulateOneMore(AccState(0, false), false, Additions(data, f, n - 1), AddOp(Term(data, f, n - 1)));
      SameModulo(Sum(data, f, n - 1), SignedTotal(Additions(data, f, n - 1)), Term(data, f, n - 1));
    }
  }

  lemma SameModulo(a: int, b: int, x: int)
    requires a % 0x1_0000_0000 == b % 0x1_0000_0000
    ensures (a + x) % 0x1_0000_0000 == (b + Signed32(x)) % 0x1_0000_0000
  {
    var d := (a - b) / 0x1_0000_0000;
    assert a == b + 0x1_0000_0000 * d;
  }

  /** With overflow mode off, however far partial sums leave the range, the
      accumulator reads back as the signed convolution exactly when that fits in
      32 bits and an even number of taps multiplies -32768 by -32768. */
  lemma FirSigned(s: State, f: Filter)
    requires WellFormed(s) && Quiet(s) && !s.status.ovm && Fits(f) && RunsFilter(s, f)
    ensures |s.data| == 144
    ensures var n, acc := |f.coefficients|, After(s, Length(f)).acc;
            Signed32(acc) == SignedSum(s.data, f, n) <==>
              Fits32(SignedSum(s.data, f, n)) && Extremes(s.data, f, n) % 2 == 0
  {
    hide RunsFilter, Fits, Quiet, Sum, SignedSum, After, WellFormed, Extremes, LeavesRange, Additions;
    FirCorrect(s, f);
    DataLength(s);
    SumIsSigned(s.data, f, |f.coefficients|);
    AdditionsAreSigned(s.data, f, |f.coefficients|);
    Halves(SignedSum(s.data, f, |f.coefficients|), Extremes(s.data, f, |f.coefficients|));
  }

  lemma Halves(sum: int, extremes: nat)
    ensures Signed32((sum - 0x8000_0000 * extremes) % 0x1_0000_0000) == sum
       <==> Fits32(sum) && extremes % 2 == 0
  {
    var half := extremes / 2;
    assert sum - 0x8000_0000 * extremes == sum - 0x8000_0000 * (extremes % 2) - 0x1_0000_0000 * half;
    DropTurns(sum - 0x8000_0000 * (extremes % 2), half);
  }

  lemma DropTurns(x: int, turns: int)
    ensures (x - 0x1_0000_0000 * turns) % 0x1_0000_0000 == x % 0x1_0000_0000
  {
  }

  /** The corollary for filters without an extreme tap. */
  lemma FirConvolves(s: State, f: Filter)
    requires WellFormed(s) && Quiet(s) && !s.status.ovm && Fits(f) && RunsFilter(s, f)
    requires |s.data| == 144 && Extremes(s.data, f, |f.coefficients|) == 0
    requires Fits32(SignedSum(s.data, f, |f.coefficients|))
    ensures Signed32(After(s, Length(f)).acc) == SignedSum(s.data, f, |f.coefficients|)
  {
    hide RunsFilter, Fits, Quiet, SignedSum, After, WellFormed, Extremes;
    FirSigned(s, f);
  }

  /** In either overflow mode a clear OV at the end certifies the sum: it is then
      the signed convolution exactly when no tap is extreme. */
  lemma FirCertified(s: State, f: Filter)
    requires WellFormed(s) && Quiet(s) && Fits(f) && RunsFilter(s, f)
    requires !After(s, Length(f)).status.ov
    ensures |s.data| == 144 && !s.status.ov
    ensures var n, acc := |f.coefficients|, After(s, Length(f)).acc;
            && Signed32(acc) == SignedSum(s.data, f, n) - 0x8000_0000 * Extremes(s.data, f, n)
            && (Signed32(acc) == SignedSum(s.data, f, n) <==> Extremes(s.data, f, n) == 0)
  {
    hide RunsFilter, Fits, Quiet, SignedSum, After, WellFormed, Extremes, Additions, AccumulateAll;
    FirAccumulates(s, f);
    DataLength(s);
    AdditionsAre(s.data, f, |f.coefficients|);
    AdditionsAreSigned(s.data, f, |f.coefficients|);
    ClearOvIsExact(AccState(0, s.status.ov), s.status.ovm, Additions(s.data, f, |f.coefficients|));
  }

  lemma DataLength(s: State)
    requires WellFormed(s)
    ensures |s.data| == 144 && AllWords(s.data)
  {
  }
}
