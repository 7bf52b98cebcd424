/** The accumulator arithmetic: wrapping and saturating addition, the divide
    step and the circular counters. Bit patterns are natural numbers. */
module Arithmetic {
  import opened Bits

  /** The two's-complement reading of a 32-bit pattern. */
  function Signed32(x: int): int
  {
    if x < 0x8000_0000 then x else x - 0x1_0000_0000
  }

  /** The two's-complement reading of a 16-bit word. */
  function Signed16(x: int): int
  {
    if x < 0x8000 then x else x - 0x1_0000
  }

  predicate Fits32(v: int)
  {
    -0x8000_0000 <= v < 0x8000_0000
  }

  predicate IsAcc(x: int) { 0 <= x < 0x1_0000_0000 }
  predicate IsWord(x: int) { 0 <= x < 0x1_0000 }

  // ------------------------------------------------ saturating accumulation

  datatype AccOp = AddOp(value: int) | SubOp(value: int)

  datatype AccState = AccState(acc: int, ov: bool)

  /** The integer an operation asks for. */
  function Exact(acc: int, op: AccOp): int
  {
    match op
    case AddOp(v) => Signed32(acc) + Signed32(v)
    case SubOp(v) => Signed32(acc) - Signed32(v)
  }

  /** What the hardware keeps of that integer: the nearest representable value
      in overflow mode, the integer modulo 2^32 otherwise. */
  function Stored(exact: int, ovm: bool): int
  {
    if Fits32(exact) || !ovm then exact % 0x1_0000_0000
    else if exact < 0 then 0x8000_0000
    else 0x7FFF_FFFF
  }

  function Accumulate(s: AccState, ovm: bool, op: AccOp): AccState
  {
    AccState(Stored(Exact(s.acc, op), ovm), s.ov || !Fits32(Exact(s.acc, op)))
  }

  /** The overflow tests of the source, on bit patterns. */
  function AddOverflowTest(acc: int, addend: int, wrapped: int): bool
  {
    And(And(Not(Xor(acc, addend)), Xor(acc, wrapped)), 0x8000_0000) != 0
  }

  function SubOverflowTest(acc: int, subtrahend: int, wrapped: int): bool
  {
    And(And(Xor(acc, subtrahend), Xor(acc, wrapped)), 0x8000_0000) != 0
  }

  /** The bit test sees exactly the sums that leave the signed 32-bit range. */
  lemma AddOverflowExact(acc: int, addend: int)
    requires IsAcc(acc) && IsAcc(addend)
    ensures AddOverflowTest(acc, addend, (acc + addend) % 0x1_0000_0000)
       <==> !Fits32(Exact(acc, AddOp(addend)))
  {
    Pow2Table();
    hide Bitwise, Pow2;
    var wrapped := (acc + addend) % 0x1_0000_0000;
    XorTop(acc, addend, 31);
    XorTop(acc, wrapped, 31);
    AndTop(Not(Xor(acc, addend)), Xor(acc, wrapped), 31);
    TopBit(And(Not(Xor(acc, addend)), Xor(acc, wrapped)), 31);
  }

  lemma SubOverflowExact(acc: int, subtrahend: int)
    requires IsAcc(acc) && IsAcc(subtrahend)
    ensures SubOverflowTest(acc, subtrahend, (acc - subtrahend) % 0x1_0000_0000)
       <==> !Fits32(Exact(acc, SubOp(subtrahend)))
  {
    Pow2Table();
    hide Bitwise, Pow2;
    var wrapped := (acc - subtrahend) % 0x1_0000_0000;
    XorTop(acc, subtrahend, 31);
    XorTop(acc, wrapped, 31);
    AndTop(Xor(acc, subtrahend), Xor(acc, wrapped), 31);
    TopBit(And(Xor(acc, subtrahend), Xor(acc, wrapped)), 31);
  }

  /** Without overflow the stored pattern reads back as the exact integer; with
      overflow it is the clamped end of the range or off by 2^32. */
  lemma StoredMeaning(acc: int, op: AccOp, ovm: bool)
    requires IsAcc(acc) && IsAcc(op.value)
    ensures IsAcc(Stored(Exact(acc, op), ovm))
    ensures Signed32(Stored(Exact(acc, op), ovm))
         == (var e := Exact(acc, op);
             if Fits32(e) then e
             else if ovm then (if e < 0 then -0x8000_0000 else 0x7FFF_FFFF)
             else if e < 0 then e + 0x1_0000_0000 else e - 0x1_0000_0000)
  {
  }

  function Delta(op: AccOp): int
  {
    match op case AddOp(v) => v case SubOp(v) => -v
  }

  lemma WrapsModulo(acc: int, op: AccOp, rest: int)
    requires IsAcc(acc) && IsAcc(op.value)
    ensures (Stored(Exact(acc, op), false) + rest) % 0x1_0000_0000
         == (acc + (Delta(op) + rest)) % 0x1_0000_0000
  {
    var e := Exact(acc, op);
    ModuloShift(e, rest, acc + Delta(op) - e);
  }

  lemma ModuloShift(x: int, rest: int, shift: int)
    requires shift in {-0x1_0000_0000, 0, 0x1_0000_0000, 0x2_0000_0000}
    ensures (x % 0x1_0000_0000 + rest) % 0x1_0000_0000 == (x + shift + rest) % 0x1_0000_0000
  {
    assert (x + shift) % 0x1_0000_0000 == x % 0x1_0000_0000;
    var q := (x + shift) / 0x1_0000_0000;
    var r := (x + shift) % 0x1_0000_0000;
    assert x + shift + rest == (r + rest) + 0x1_0000_0000 * q;
  }

  /** The value the source computes: the wrapped one, or the end of the range on
      the side of the old accumulator. */
  lemma StoredCases(acc: int, op: AccOp, ovm: bool)
    requires IsAcc(acc) && IsAcc(op.value)
    ensures IsAcc(Stored(Exact(acc, op), ovm))
    ensures Stored(Exact(acc, op), ovm)
         == if !Fits32(Exact(acc, op)) && ovm
            then (if acc >= 0x8000_0000 then 0x8000_0000 else 0x7FFF_FFFF)
            else (acc + Delta(op)) % 0x1_0000_0000
  {
    WrapsModulo(acc, op, 0);
  }

  function AccumulateAll(s: AccState, ovm: bool, ops: seq<AccOp>): AccState
    decreases ops
  {
    if ops == [] then s else AccumulateAll(Accumulate(s, ovm, ops[0]), ovm, ops[1..])
  }

  /** The accumulator before operation i of a sequence. */
  function AccBefore(s: AccState, ovm: bool, ops: seq<AccOp>, i: nat): int
    requires i <= |ops|
  {
    AccumulateAll(s, ovm, ops[..i]).acc
  }

  /** OV is sticky: after any sequence it is set exactly when it was set before
      or some operation of the sequence left the signed range. */
  lemma {:induction false} OverflowIsSticky(s: AccState, ovm: bool, ops: seq<AccOp>)
    ensures AccumulateAll(s, ovm, ops).ov
       <==> s.ov || exists i :: 0 <= i < |ops|
                      && !Fits32(Exact(AccBefore(s, ovm, ops, i), ops[i]))
    decreases ops
  {
    if ops != [] {
      var s1 := Accumulate(s, ovm, ops[0]);
      OverflowIsSticky(s1, ovm, ops[1..]);
      forall i | 0 < i < |ops|
        ensures AccBefore(s, ovm, ops, i) == AccBefore(s1, ovm, ops[1..], i - 1)
      {
        assert ops[..i][1..] == ops[1..][..i - 1];
      }
      assert AccBefore(s, ovm, ops, 0) == s.acc by { assert ops[..0] == []; }
      forall j | 0 <= j < |ops[1..]| &&
                 !Fits32(Exact(AccBefore(s1, ovm, ops[1..], j), ops[1..][j]))
        ensures !Fits32(Exact(AccBefore(s, ovm, ops, j + 1), ops[j + 1]))
      {
      }
      forall i | 0 < i < |ops| && !Fits32(Exact(AccBefore(s, ovm, ops, i), ops[i]))
        ensures !Fits32(Exact(AccBefore(s1, ovm, ops[1..], i - 1), ops[1..][i - 1]))
      {
      }
    }
  }

  /** The running total an operation sequence asks for. */
  function Total(ops: seq<AccOp>): int
  {
    if ops == [] then 0 else Delta(ops[0]) + Total(ops[1..])
  }

  /** With overflow mode off, no order of overflows loses anything modulo 2^32. */
  lemma {:induction false} WrappedTotal(s: AccState, ops: seq<AccOp>)
    requires IsAcc(s.acc) && forall op | op in ops :: IsAcc(op.value)
    ensures AccumulateAll(s, false, ops).acc == (s.acc + Total(ops)) % 0x1_0000_0000
    decreases ops
  {
    if ops != [] {
      var s1 := Accumulate(s, false, ops[0]);
      WrapsModulo(s.acc, ops[0], Total(ops[1..]));
      WrappedTotal(s1, ops[1..]);
    }
  }

  lemma {:induction false} AccumulateOneMore(s: AccState, ovm: bool, ops: seq<AccOp>, op: AccOp)
    ensures AccumulateAll(s, ovm, ops + [op]) == Accumulate(AccumulateAll(s, ovm, ops), ovm, op)
    ensures Total(ops + [op]) == Total(ops) + Delta(op)
    ensures SignedTotal(ops + [op]) == SignedTotal(ops) + SignedDelta(op)
    decreases ops
  {
    hide Accumulate, Delta, SignedDelta;
    if ops != [] {
      assert (ops + [op])[0] == ops[0] && (ops + [op])[1..] == ops[1..] + [op];
      AccumulateOneMore(Accumulate(s, ovm, ops[0]), ovm, ops[1..], op);
    }
  }

  function SignedDelta(op: AccOp): int
  {
    match op case AddOp(v) => Signed32(v) case SubOp(v) => -Signed32(v)
  }

  /** The total of an operation sequence over the integers its words stand for. */
  function SignedTotal(ops: seq<AccOp>): int
  {
    if ops == [] then 0 else SignedDelta(ops[0]) + SignedTotal(ops[1..])
  }

  /** What a clear OV guarantees, in either overflow mode: the signed accumulator
      is the exact integer result. */
  lemma {:induction false} ClearOvIsExact(s: AccState, ovm: bool, ops: seq<AccOp>)
    requires IsAcc(s.acc) && forall op | op in ops :: IsAcc(op.value)
    ensures !AccumulateAll(s, ovm, ops).ov ==>
              !s.ov && Signed32(AccumulateAll(s, ovm, ops).acc) == Signed32(s.acc) + SignedTotal(ops)
    decreases ops
  {
    hide Exact, Stored;
    if ops != [] {
      var s1 := Accumulate(s, ovm, ops[0]);
      StoredMeaning(s.acc, ops[0], ovm);
      ExactIsSum(s.acc, ops[0]);
      ClearOvIsExact(s1, ovm, ops[1..]);
    }
  }

  lemma ExactIsSum(acc: int, op: AccOp)
    ensures Exact(acc, op) == Signed32(acc) + SignedDelta(op)
  {
  }

  // ---------------------------------------------------------------- products

  lemma BoundedProduct(x: nat, y: nat, m: nat, n: nat)
    requires x <= m && y <= n
    ensures 0 <= x * y <= m * n
  {
    assert x * y <= m * y;
    assert m * y <= m * n;
  }

  /** Products of signed words. */
  lemma ProductBound(a: int, b: int)
    requires -0x8000 <= a < 0x8000 && -0x8000 <= b < 0x8000
    ensures -0x4000_0000 <= a * b <= 0x4000_0000
  {
    var x, y := if a < 0 then -a else a, if b < 0 then -b else b;
    BoundedProduct(x, y, 0x8000, 0x8000);
    SameMagnitude(a, b);
  }

  lemma SameMagnitude(a: int, b: int)
    ensures var x, y := if a < 0 then -a else a, if b < 0 then -b else b;
            a * b == if (a < 0) == (b < 0) then x * y else -(x * y)
  {
  }

  // ------------------------------------------------------------ divide step

  /** One SUBC: subtract the divisor shifted left by 15, keep the difference and
      shift a one in when it is not negative, else only shift. */
  function DivideStep(acc: int, word: int): (r: int)
    ensures IsAcc(r)
  {
    var intermediate := (acc - word * 0x8000) % 0x1_0000_0000;
    if intermediate >= 0x8000_0000 then (2 * acc) % 0x1_0000_0000
    else (2 * intermediate + 1) % 0x1_0000_0000
  }

  /** The stage that sets OV: the subtraction before the shift. */
  predicate DivideOverflows(acc: int, word: int)
  {
    !Fits32(Signed32(acc) - word * 0x8000)
  }

  function DivideSteps(acc: int, word: int, n: nat): int
  {
    if n == 0 then acc else DivideStep(DivideSteps(acc, word, n - 1), word)
  }

  /** The quotient bits produced by the first n steps. */
  ghost function QuotientBits(acc: int, word: int, n: nat): nat
  {
    if n == 0 then 0
    else 2 * QuotientBits(acc, word, n - 1)
         + if DivideSteps(acc, word, n - 1) >= word * 0x8000 then 1 else 0
  }

  lemma DivideOneStep(acc: int, d: int)
    requires 1 <= d <= 0xFFFF && 0 <= acc < d * 0x1_0000
    ensures DivideStep(acc, d)
         == if acc >= d * 0x8000 then 2 * acc - d * 0x1_0000 + 1 else 2 * acc
    ensures 0 <= DivideStep(acc, d) < d * 0x1_0000
    ensures DivideOverflows(acc, d) <==> acc >= 0x8000_0000
  {
  }

  lemma {:induction false} DivideInvariant(dividend: int, d: int, n: nat)
    requires 1 <= d <= 0xFFFF && 0 <= dividend < d * 0x1_0000
    ensures 0 <= DivideSteps(dividend, d, n) < d * 0x1_0000
    ensures QuotientBits(dividend, d, n) < Pow2(n)
    ensures DivideSteps(dividend, d, n)
         == Pow2(n) * dividend - QuotientBits(dividend, d, n) * (d * 0x1_0000 - 1)
  {
    if n > 0 {
      DivideInvariant(dividend, d, n - 1);
      var a, q, p := DivideSteps(dividend, d, n - 1), QuotientBits(dividend, d, n - 1), Pow2(n - 1);
      DivideOneStep(a, d);
      var b := if a >= d * 0x8000 then 1 else 0;
      DivideAlgebra(dividend, p, q, b, d * 0x1_0000 - 1);
    }
  }

  lemma DivideAlgebra(dividend: int, p: int, q: int, b: int, m: int)
    requires b == 0 || b == 1
    ensures 2 * (p * dividend - q * m) - b * m == (2 * p) * dividend - (2 * q + b) * m
  {
  }

  /** Sixteen divide steps leave the remainder above the quotient, for every
      16-bit divisor and every dividend whose quotient fits in 16 bits. */
  lemma SubcDivides(dividend: int, d: int)
    requires 1 <= d <= 0xFFFF && 0 <= dividend < d * 0x1_0000
    ensures DivideSteps(dividend, d, 16) == (dividend % d) * 0x1_0000 + dividend / d
  {
    hide DivideSteps, QuotientBits;
    DivideInvariant(dividend, d, 16);
    Pow2Table();
    var a, q := DivideSteps(dividend, d, 16), QuotientBits(dividend, d, 16);
    var r := dividend - q * d;
    assert q * (d * 0x1_0000 - 1) == (q * d) * 0x1_0000 - q;
    assert a == r * 0x1_0000 + q;
    assert 0 <= r < d;
    DivUnique(dividend, d, q, r) by { assert q * d == d * q; }
  }

  /** No step of a division sets OV when the divisor is at most 0x8000, and for
      every larger divisor some dividend in range sets it at the first step. */
  lemma SubcKeepsOverflowClear(d: int)
    requires 1 <= d <= 0xFFFF
    ensures (forall dividend, n: nat | 0 <= dividend < d * 0x1_0000 ::
               !DivideOverflows(DivideSteps(dividend, d, n), d))
       <==> d <= 0x8000
  {
    if d <= 0x8000 {
      forall dividend, n: nat | 0 <= dividend < d * 0x1_0000
        ensures !DivideOverflows(DivideSteps(dividend, d, n), d)
      {
        DivideInvariant(dividend, d, n);
        DivideOneStep(DivideSteps(dividend, d, n), d);
      }
    } else {
      var w := 0x8000_0000;
      assert DivideOverflows(DivideSteps(w, d, 0), d);
    }
  }

  // ---------------------------------------------------- auxiliary registers

  /** Only the low nine bits of an auxiliary register count, and they wrap. */
  function ModifyCounter(value: int, delta: int): (r: int)
  {
    Or(And(value, 0xFE00), And(value + delta, 0x01FF))
  }

  lemma CounterIsCircular(value: int, delta: int)
    requires IsWord(value)
    ensures IsWord(ModifyCounter(value, delta))
    ensures ModifyCounter(value, delta) == (value / 512) * 512 + (value + delta) % 512
  {
    Pow2Table();
    hide Bitwise, Pow2;
    AndShifted(value, 127, 9);
    AndOnes(value / 512, 7);
    AndOnes(value + delta, 9);
    OrDisjoint(value / 512, (value + delta) % 512, 9);
  }

  function CountBy(value: int, delta: int, n: nat): int
  {
    if n == 0 then value else ModifyCounter(CountBy(value, delta, n - 1), delta)
  }

  lemma {:induction false} CountByClosed(value: int, delta: int, n: nat)
    requires IsWord(value)
    ensures IsWord(CountBy(value, delta, n))
    ensures CountBy(value, delta, n) == (value / 512) * 512 + (value + n * delta) % 512
  {
    hide ModifyCounter;
    if n > 0 {
      var before := CountBy(value, delta, n - 1);
      CountByClosed(value, delta, n - 1);
      CounterIsCircular(before, delta);
      assert n * delta == (n - 1) * delta + delta;
      SameRing(value, before, (n - 1) * delta, delta);
    }
  }

  lemma SameRing(value: int, before: int, moved: int, delta: int)
    requires IsWord(value)
    requires before == (value / 512) * 512 + (value + moved) % 512
    ensures before / 512 == value / 512
    ensures (before + delta) % 512 == (value + moved + delta) % 512
  {
  }

  /** The counter is a ring of 512 positions inside the upper seven bits: n
      counts in one direction return to the start exactly when 512 divides n,
      and counting up and down are inverse. */
  lemma CounterRing(value: int, n: nat)
    requires IsWord(value)
    ensures CountBy(value, 1, n) == value <==> n % 512 == 0
    ensures CountBy(value, -1, n) == value <==> n % 512 == 0
    ensures ModifyCounter(ModifyCounter(value, 1), -1) == value
    ensures ModifyCounter(ModifyCounter(value, -1), 1) == value
  {
    hide ModifyCounter, CountBy;
    CountByClosed(value, 1, n);
    CountByClosed(value, -1, n);
    var m: int := n;
    assert n * 1 == m && n * -1 == -m;
    RingReturn(value, m);
    RingReturn(value, -m);
    assert (-m) % 512 == 0 <==> m % 512 == 0;
    CountBack(value, 1);
    CountBack(value, -1);
  }

  lemma RingReturn(value: int, moved: int)
    requires IsWord(value)
    ensures (value / 512) * 512 + (value + moved) % 512 == value <==> moved % 512 == 0
  {
  }

  lemma CountBack(value: int, delta: int)
    requires IsWord(value)
    ensures ModifyCounter(ModifyCounter(value, delta), -delta) == value
  {
    hide ModifyCounter;
    CounterIsCircular(value, delta);
    var next := ModifyCounter(value, delta);
    CounterIsCircular(next, -delta);
    SameRing(value, next, delta, -delta);
  }
}
