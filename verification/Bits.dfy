/** Bitwise operators on unbounded integers, as Python defines them: every
    integer is an infinite two's-complement bit string, so -1 is all ones. */
module Bits {

  datatype BitOp = AndOp | OrOp | XorOp

  function Pow2(k: nat): (p: int)
    ensures p > 0
  {
    if k == 0 then 1 else 2 * Pow2(k - 1)
  }

  /** The operator on a single bit. */
  function Bit1(op: BitOp, x: int, y: int): int
  {
    match op
    case AndOp => if x == 1 && y == 1 then 1 else 0
    case OrOp => if x == 1 || y == 1 then 1 else 0
    case XorOp => if x != y then 1 else 0
  }

  /** How far a number is from the fixed points 0 and -1 of halving. */
  function Magnitude(a: int): nat
  {
    if a >= 0 then a else -1 - a
  }

  function Bitwise(op: BitOp, a: int, b: int): (r: int)
    decreases Magnitude(a) + Magnitude(b)
  {
    if Magnitude(a) == 0 && Magnitude(b) == 0 then
      -Bit1(op, -a, -b)
    else
      Bit1(op, a % 2, b % 2) + 2 * Bitwise(op, a / 2, b / 2)
  }

  function And(a: int, b: int): int { Bitwise(AndOp, a, b) }
  function Or(a: int, b: int): int { Bitwise(OrOp, a, b) }
  function Xor(a: int, b: int): int { Bitwise(XorOp, a, b) }
  function Not(a: int): int { -1 - a }

  // ---------------------------------------------------------------- powers

  /** Quotient and remainder are determined by the division equation. */
  lemma DivUnique(a: int, d: int, q: int, r: int)
    requires d > 0 && a == d * q + r && 0 <= r < d
    ensures a / d == q && a % d == r
  {
    var k := q - a / d;
    assert d * k == d * q - d * (a / d) == a % d - r;
    MultipleIsFar(d, k);
  }

  lemma {:induction false} MultipleIsFar(d: int, k: int)
    requires d > 0
    ensures k > 0 ==> d * k >= d
    ensures k < 0 ==> d * k <= -d
    decreases if k > 0 then k else -k
  {
    if k > 1 {
      MultipleIsFar(d, k - 1);
      assert d * k == d * (k - 1) + d;
    } else if k < -1 {
      MultipleIsFar(d, k + 1);
      assert d * k == d * (k + 1) - d;
    } else if k == -1 {
      assert d * -1 == -d;
    }
  }

  lemma {:induction false} Pow2Add(j: nat, k: nat)
    ensures Pow2(j + k) == Pow2(j) * Pow2(k)
  {
    if j > 0 {
      Pow2Add(j - 1, k);
      assert 2 * (Pow2(j - 1) * Pow2(k)) == (2 * Pow2(j - 1)) * Pow2(k);
    }
  }

  lemma Pow2Table()
    ensures Pow2(0) == 1 && Pow2(1) == 2 && Pow2(2) == 4 && Pow2(3) == 8 && Pow2(4) == 16
    ensures Pow2(5) == 32 && Pow2(6) == 64 && Pow2(7) == 128 && Pow2(8) == 256
    ensures Pow2(9) == 512 && Pow2(10) == 1024 && Pow2(11) == 2048 && Pow2(12) == 4096
    ensures Pow2(13) == 8192 && Pow2(14) == 16384 && Pow2(15) == 0x8000
    ensures Pow2(16) == 0x1_0000 && Pow2(31) == 0x8000_0000
  {
    assert Pow2(1) == 2 && Pow2(2) == 4;
    assert Pow2(3) == 8 && Pow2(4) == 16;
    assert Pow2(5) == 32 && Pow2(6) == 64;
    assert Pow2(7) == 128 && Pow2(8) == 256;
    Pow2Add(8, 1);
    Pow2Add(8, 2);
    Pow2Add(8, 3);
    Pow2Add(8, 4);
    Pow2Add(8, 5);
    Pow2Add(8, 6);
    Pow2Add(8, 7);
    Pow2Add(8, 8);
    Pow2Add(16, 15);
  }

  // --------------------------------------------------------- bitwise algebra

  /** One step of the recursion, also at the fixed points. */
  lemma Unfold(op: BitOp, a: int, b: int)
    ensures Bitwise(op, a, b) == Bit1(op, a % 2, b % 2) + 2 * Bitwise(op, a / 2, b / 2)
  {
  }

  /** The same step for numbers given by their low bit and the rest. */
  lemma Build(op: BitOp, x: int, h: int, y: int, g: int)
    requires 0 <= x <= 1 && 0 <= y <= 1
    ensures Bitwise(op, x + 2 * h, y + 2 * g) == Bit1(op, x, y) + 2 * Bitwise(op, h, g)
  {
    var a, b := x + 2 * h, y + 2 * g;
    assert a % 2 == x && a / 2 == h && b % 2 == y && b / 2 == g;
    Unfold(op, a, b);
  }

  lemma {:induction false} Commutes(op: BitOp, a: int, b: int)
    ensures Bitwise(op, a, b) == Bitwise(op, b, a)
    decreases Magnitude(a) + Magnitude(b)
  {
    if Magnitude(a) + Magnitude(b) > 0 {
      Commutes(op, a / 2, b / 2);
    }
  }

  lemma {:induction false} AndZero(a: int)
    ensures And(a, 0) == 0
    decreases Magnitude(a)
  {
    if Magnitude(a) > 0 { AndZero(a / 2); }
  }

  lemma {:induction false} OrZero(a: int)
    ensures Or(a, 0) == a
    decreases Magnitude(a)
  {
    if Magnitude(a) > 0 { OrZero(a / 2); }
  }

  lemma ZeroZero(op: BitOp)
    ensures Bitwise(op, 0, 0) == 0
  {
  }

  /** A bitwise operator acts on the high and on the low k bits separately. */
  lemma {:induction false} Split(op: BitOp, q: int, r: int, s: int, t: int, k: nat)
    requires 0 <= r < Pow2(k) && 0 <= t < Pow2(k)
    ensures Bitwise(op, q * Pow2(k) + r, s * Pow2(k) + t)
         == Bitwise(op, q, s) * Pow2(k) + Bitwise(op, r, t)
    decreases k
  {
    hide Bitwise;
    if k == 0 {
      assert Bitwise(op, 0, 0) == 0 by { ZeroZero(op); }
      assert q * Pow2(k) + r == q && s * Pow2(k) + t == s;
    } else {
      var p := Pow2(k - 1);
      Split(op, q, r / 2, s, t / 2, k - 1);
      Build(op, r % 2, r / 2, t % 2, t / 2);
      Build(op, r % 2, q * p + r / 2, t % 2, s * p + t / 2);
      HalveShifted(q, p, r);
      HalveShifted(s, p, t);
      HalveShifted(Bitwise(op, q, s), p, 0);
    }
  }

  lemma HalveShifted(q: int, p: int, r: int)
    ensures q * (2 * p) + r == r % 2 + 2 * (q * p + r / 2)
  {
  }

  /** A result of k-bit operands has k bits. */
  lemma {:induction false} Bounded(op: BitOp, a: int, b: int, k: nat)
    requires 0 <= a < Pow2(k) && 0 <= b < Pow2(k)
    ensures 0 <= Bitwise(op, a, b) < Pow2(k)
    decreases k
  {
    if k > 0 {
      Bounded(op, a / 2, b / 2, k - 1);
      Unfold(op, a, b);
    }
  }

  /** AND with a number of k bits has k bits, whatever the other operand. */
  lemma AndBounded(a: int, b: int, k: nat)
    requires 0 <= b < Pow2(k)
    ensures 0 <= And(a, b) < Pow2(k)
  {
    AndLowPart(a, b, k);
    Bounded(AndOp, a % Pow2(k), b, k);
  }

  /** Only the low k bits of a number meet a k-bit mask. */
  lemma AndLowPart(a: int, m: int, k: nat)
    requires 0 <= m < Pow2(k)
    ensures And(a, m) == And(a % Pow2(k), m)
  {
    hide Bitwise;
    var q := a / Pow2(k);
    assert a == q * Pow2(k) + a % Pow2(k);
    Split(AndOp, q, a % Pow2(k), 0, m, k);
    AndZero(q);
  }

  /** Masking with k ones is the remainder by 2^k, for negative numbers too. */
  lemma {:induction false} AndOnes(a: int, k: nat)
    ensures And(a, Pow2(k) - 1) == a % Pow2(k)
  {
    AndLowPart(a, Pow2(k) - 1, k);
    AndOnesFull(a % Pow2(k), k);
  }

  lemma {:induction false} AndOnesFull(r: int, k: nat)
    requires 0 <= r < Pow2(k)
    ensures And(r, Pow2(k) - 1) == r
    decreases k
  {
    if k > 0 {
      AndOnesFull(r / 2, k - 1);
      Build(AndOp, r % 2, r / 2, 1, Pow2(k - 1) - 1);
    }
  }

  /** A mask shifted left by k looks at the bits from k up. */
  lemma AndShifted(a: int, m: int, k: nat)
    ensures And(a, m * Pow2(k)) == And(a / Pow2(k), m) * Pow2(k)
  {
    hide Bitwise;
    var q := a / Pow2(k);
    assert a == q * Pow2(k) + a % Pow2(k);
    Split(AndOp, q, a % Pow2(k), m, 0, k);
    AndZero(a % Pow2(k));
  }

  /** A shifted value and a smaller one share no bit, so OR is addition. */
  lemma OrDisjoint(h: int, l: int, k: nat)
    requires 0 <= l < Pow2(k)
    ensures Or(h * Pow2(k), l) == h * Pow2(k) + l
  {
    Split(OrOp, h, 0, 0, l, k);
    OrZero(h);
    OrZero(l);
    Commutes(OrOp, 0, l);
  }

  lemma {:induction false} AndAssoc(a: int, b: int, c: int)
    ensures And(And(a, b), c) == And(a, And(b, c))
    decreases Magnitude(a) + Magnitude(b) + Magnitude(c)
  {
    if Magnitude(a) + Magnitude(b) + Magnitude(c) > 0 {
      AndAssoc(a / 2, b / 2, c / 2);
      AndAssocStep(a % 2, a / 2, b % 2, b / 2, c % 2, c / 2);
    }
  }

  lemma AndAssocStep(x: int, a: int, y: int, b: int, z: int, c: int)
    requires 0 <= x <= 1 && 0 <= y <= 1 && 0 <= z <= 1
    requires And(And(a, b), c) == And(a, And(b, c))
    ensures And(And(x + 2 * a, y + 2 * b), z + 2 * c)
         == And(x + 2 * a, And(y + 2 * b, z + 2 * c))
  {
    hide Bitwise;
    Build(AndOp, x, a, y, b);
    Build(AndOp, y, b, z, c);
    Build(AndOp, Bit1(AndOp, x, y), And(a, b), z, c);
    Build(AndOp, x, a, Bit1(AndOp, y, z), And(b, c));
  }

  lemma {:induction false} AndOverOr(a: int, b: int, c: int)
    ensures And(a, Or(b, c)) == Or(And(a, b), And(a, c))
    decreases Magnitude(a) + Magnitude(b) + Magnitude(c)
  {
    if Magnitude(a) + Magnitude(b) + Magnitude(c) > 0 {
      AndOverOr(a / 2, b / 2, c / 2);
      AndOverOrStep(a % 2, a / 2, b % 2, b / 2, c % 2, c / 2);
    }
  }

  lemma AndOverOrStep(x: int, a: int, y: int, b: int, z: int, c: int)
    requires 0 <= x <= 1 && 0 <= y <= 1 && 0 <= z <= 1
    requires And(a, Or(b, c)) == Or(And(a, b), And(a, c))
    ensures And(x + 2 * a, Or(y + 2 * b, z + 2 * c))
         == Or(And(x + 2 * a, y + 2 * b), And(x + 2 * a, z + 2 * c))
  {
    hide Bitwise;
    Build(OrOp, y, b, z, c);
    Build(AndOp, x, a, Bit1(OrOp, y, z), Or(b, c));
    Build(AndOp, x, a, y, b);
    Build(AndOp, x, a, z, c);
    Build(OrOp, Bit1(AndOp, x, y), And(a, b), Bit1(AndOp, x, z), And(a, c));
  }

  /** `e & ~m == 0` says that every bit of e is a bit of m. */
  lemma {:induction false} Subset(e: int, m: int)
    requires And(e, Not(m)) == 0
    ensures And(m, e) == e
    decreases Magnitude(e) + Magnitude(m)
  {
    if Magnitude(e) + Magnitude(m) > 0 {
      Unfold(AndOp, e, Not(m));
      Unfold(AndOp, m, e);
      assert Not(m) / 2 == Not(m / 2);
      Subset(e / 2, m / 2);
    }
  }

  // ------------------------------------------------------------- sign bits

  /** Bit n of a number of n+1 bits, or of the complement of one. */
  ghost predicate TopSet(a: int, n: nat)
  {
    a >= Pow2(n) || -Pow2(n) <= a < 0
  }

  /** The part of such a number from bit n up. */
  ghost function TopPart(a: int, n: nat): int
  {
    if a >= Pow2(n) then 1 else if a >= 0 then 0 else if a >= -Pow2(n) then -1 else -2
  }

  lemma SplitTop(op: BitOp, a: int, b: int, n: nat) returns (lo: int)
    requires -(2 * Pow2(n)) <= a < 2 * Pow2(n) && 0 <= b < 2 * Pow2(n)
    ensures 0 <= lo < Pow2(n)
    ensures Bitwise(op, a, b) == Bitwise(op, TopPart(a, n), TopPart(b, n)) * Pow2(n) + lo
  {
    var p := Pow2(n);
    var r, t := a - TopPart(a, n) * p, b - TopPart(b, n) * p;
    Split(op, TopPart(a, n), r, TopPart(b, n), t, n);
    Bounded(op, r, t, n);
    lo := Bitwise(op, r, t);
  }

  lemma TopTable()
    ensures And(1, 1) == 1 && And(0, 1) == 0 && And(-1, 1) == 1 && And(-2, 1) == 0
    ensures And(0, 0) == 0 && And(1, 0) == 0 && And(-1, 0) == 0 && And(-2, 0) == 0
    ensures Xor(0, 0) == 0 && Xor(1, 1) == 0 && Xor(0, 1) == 1 && Xor(1, 0) == 1
  {
  }

  /** The top bit of an XOR is set exactly when the top bits differ. */
  lemma XorTop(a: int, b: int, n: nat)
    requires 0 <= a < 2 * Pow2(n) && 0 <= b < 2 * Pow2(n)
    ensures 0 <= Xor(a, b) < 2 * Pow2(n)
    ensures Xor(a, b) >= Pow2(n) <==> (a >= Pow2(n)) != (b >= Pow2(n))
  {
    hide Bitwise;
    var lo := SplitTop(XorOp, a, b, n);
    TopTable();
  }

  /** AND keeps the top bit exactly when both have it; the left one may be
      negative, as a complement is. */
  lemma AndTop(a: int, b: int, n: nat)
    requires -(2 * Pow2(n)) <= a < 2 * Pow2(n) && 0 <= b < 2 * Pow2(n)
    ensures 0 <= And(a, b) < 2 * Pow2(n)
    ensures And(a, b) >= Pow2(n) <==> TopSet(a, n) && b >= Pow2(n)
  {
    hide Bitwise;
    var lo := SplitTop(AndOp, a, b, n);
    TopTable();
  }

  /** Testing the top bit of a number with a one-bit mask. */
  lemma TopBit(a: int, n: nat)
    requires 0 <= a < 2 * Pow2(n)
    ensures And(a, Pow2(n)) != 0 <==> a >= Pow2(n)
  {
    TopTable();
    hide Bitwise;
    if a >= Pow2(n) {
      Split(AndOp, 1, a - Pow2(n), 1, 0, n);
      AndZero(a - Pow2(n));
    } else {
      Split(AndOp, 0, a, 1, 0, n);
      AndZero(a);
    }
  }

  // ---------------------------------------------------------- bit positions

  /** Bit k of an integer, counted from the low end. */
  predicate BitOf(x: int, k: nat) { (x / Pow2(k)) % 2 == 1 }

  lemma {:induction false} BitwiseAt(op: BitOp, a: int, b: int, k: nat)
    ensures op.AndOp? ==> (BitOf(Bitwise(op, a, b), k) <==> BitOf(a, k) && BitOf(b, k))
    ensures op.OrOp? ==> (BitOf(Bitwise(op, a, b), k) <==> BitOf(a, k) || BitOf(b, k))
    ensures op.XorOp? ==> (BitOf(Bitwise(op, a, b), k) <==> BitOf(a, k) != BitOf(b, k))
    decreases k
  {
    hide BitOf, Bitwise, Pow2;
    if k > 0 {
      BitwiseAt(op, a / 2, b / 2, k - 1);
      HalfBit(a, k);
      HalfBit(b, k);
      HalfResult(op, a, b, k);
    } else {
      LowResult(op, a, b);
    }
  }

  lemma HalfResult(op: BitOp, a: int, b: int, k: nat)
    requires k > 0
    ensures BitOf(Bitwise(op, a, b), k) <==> BitOf(Bitwise(op, a / 2, b / 2), k - 1)
  {
    hide BitOf, Bitwise, Pow2;
    Unfold(op, a, b);
    HalfBit(Bitwise(op, a, b), k);
  }

  lemma LowResult(op: BitOp, a: int, b: int)
    ensures op.AndOp? ==> (BitOf(Bitwise(op, a, b), 0) <==> BitOf(a, 0) && BitOf(b, 0))
    ensures op.OrOp? ==> (BitOf(Bitwise(op, a, b), 0) <==> BitOf(a, 0) || BitOf(b, 0))
    ensures op.XorOp? ==> (BitOf(Bitwise(op, a, b), 0) <==> BitOf(a, 0) != BitOf(b, 0))
  {
    hide Bitwise, BitOf;
    LowBit(a);
    LowBit(b);
    LowBit(Bitwise(op, a, b));
    Unfold(op, a, b);
    EvenPart(Bit1(op, a % 2, b % 2), Bitwise(op, a / 2, b / 2));
  }

  lemma LowBit(x: int)
    ensures BitOf(x, 0) <==> x % 2 == 1
  {
  }

  lemma EvenPart(bit: int, rest: int)
    requires 0 <= bit <= 1
    ensures (bit + 2 * rest) % 2 == bit
  {
  }

  lemma HalfBit(x: int, k: nat)
    requires k > 0
    ensures BitOf(x, k) <==> BitOf(x / 2, k - 1)
  {
    DivideTwice(x, Pow2(k - 1));
  }

  lemma DivideTwice(x: int, d: int)
    requires d > 0
    ensures x / (2 * d) == x / 2 / d
  {
    var q, r := x / 2 / d, x / 2 % d;
    assert x == 2 * (d * q + r) + x % 2;
    assert x == (2 * d) * q + (2 * r + x % 2);
    DivUnique(x, 2 * d, q, 2 * r + x % 2);
  }

  /** A number of n bits has none above. */
  lemma AboveBits(x: int, n: nat, k: nat)
    requires 0 <= x < Pow2(n) && k >= n
    ensures !BitOf(x, k)
  {
    hide Pow2;
    Pow2Add(n, k - n);
    MultipleIsFar(Pow2(n), Pow2(k - n));
    SmallQuotient(x, Pow2(k));
  }

  lemma SmallQuotient(x: int, d: int)
    requires 0 <= x < d
    ensures x / d == 0
  {
  }

  /** A number is determined by its bits. */
  lemma {:induction false} SameBits(a: int, b: int)
    requires forall k: nat :: BitOf(a, k) <==> BitOf(b, k)
    ensures a == b
    decreases Magnitude(a) + Magnitude(b)
  {
    assert BitOf(a, 0) <==> BitOf(b, 0);
    if Magnitude(a) + Magnitude(b) > 0 {
      forall k: nat
        ensures BitOf(a / 2, k) <==> BitOf(b / 2, k)
      {
        HalfBit(a, k + 1);
        HalfBit(b, k + 1);
        assert BitOf(a, k + 1) <==> BitOf(b, k + 1);
      }
      SameBits(a / 2, b / 2);
    }
  }

  lemma ComplementAt(x: int, k: nat)
    ensures BitOf(-x - 1, k) <==> !BitOf(x, k)
  {
    var d := Pow2(k);
    var q, r := x / d, x % d;
    assert -x - 1 == d * (-q - 1) + (d - 1 - r);
    DivUnique(-x - 1, d, -q - 1, d - 1 - r);
  }
}
