/** rtl/alu.sv: the combinational integer ALU. */
module Alu {
  import opened Powers
  import opened Rv32i

  /** A << s on 32 bits: the top s bits fall out. */
  function ShiftLeft(a: Word, s: nat): Word
    requires s < 32
  {
    ShiftLeftInRange(a, s);
    (a % Pow2(32 - s)) * Pow2(s)
  }

  lemma ShiftLeftInRange(a: Word, s: nat)
    requires s < 32
    ensures 0 <= (a % Pow2(32 - s)) * Pow2(s) < 0x1_0000_0000
  {
    hide Pow2;
    WordSplit(s);
    MulOrder(a % Pow2(32 - s), Pow2(32 - s), Pow2(s));
    MulOrder(0, a % Pow2(32 - s), Pow2(s));
  }

  lemma WordSplit(s: nat)
    requires s <= 32
    ensures Pow2(32 - s) * Pow2(s) == 0x1_0000_0000
  {
    hide Pow2;
    Pow2Add(32 - s, s);
    Pow2Values();
  }

  /** $signed(A) >>> s: the vacated top s bits are copies of the sign bit. */
  function ShiftRightArithmetic(a: Word, s: nat): Word
    requires s < 32
  {
    ShiftRightInRange(a, s);
    a / Pow2(s) + (if a >= 0x8000_0000 then 0x1_0000_0000 - Pow2(32 - s) else 0)
  }

  lemma ShiftRightInRange(a: Word, s: nat)
    requires s < 32
    ensures 0 <= a / Pow2(s) < Pow2(32 - s) <= 0x1_0000_0000
  {
    hide Pow2;
    WordSplit(s);
    QuotientRange(a, Pow2(s), Pow2(32 - s));
    Pow2Monotone(32 - s, 32);
    Pow2Values();
  }

  lemma QuotientRange(a: nat, p: int, k: int)
    requires p > 0 && a < k * p
    ensures 0 <= a / p < k
  {
    var q := a / p;
    assert q * p <= a < (q + 1) * p;
    if q >= k {
      MulOrder(k, q, p);
    }
    if q < 0 {
      MulOrder(q + 1, 0, p);
    }
  }

  function Result(a: Word, b: Word, op: nat): Word {
    match op
    case 2 => Wrap(a + b)
    case 6 => Wrap(a - b)
    case 0 => BitwiseWord(AND, a, b)
    case 1 => BitwiseWord(OR, a, b)
    case 7 => if Signed(a) < Signed(b) then 1 else 0
    case 3 => BitwiseWord(XOR, a, b)
    case 4 => ShiftLeft(a, b % 32)
    case 5 => ShiftRightArithmetic(a, b % 32)
    case _ => 0
  }

  predicate SignBit(w: Word) {
    w / 0x8000_0000 == 1
  }

  /** The overflow output, computed from the three sign bits. */
  predicate Overflow(a: Word, b: Word, op: nat) {
    match op
    case 2 => SignBit(a) == SignBit(b) && SignBit(Result(a, b, op)) != SignBit(a)
    case 6 => SignBit(a) != SignBit(b) && SignBit(Result(a, b, op)) != SignBit(a)
    case _ => false
  }

  /** For the two adders, overflow is raised exactly when the signed result does not fit. */
  lemma OverflowIffOutOfRange(a: Word, b: Word, op: nat)
    requires op == 2 || op == 6
    ensures var exact := if op == 2 then Signed(a) + Signed(b) else Signed(a) - Signed(b);
      && (Overflow(a, b, op) <==> !(-0x8000_0000 <= exact < 0x8000_0000))
      && (!Overflow(a, b, op) ==> Signed(Result(a, b, op)) == exact)
  {
    hide SignBit, Wrap, BitwiseWord, ShiftLeft, ShiftRightArithmetic;
    var r := Result(a, b, op);
    TopSign(a);
    TopSign(b);
    TopSign(r);
    if op == 2 {
      WrapOnce(a + b);
    } else {
      WrapOnce(a - b);
    }
  }

  lemma TopSign(w: Word)
    ensures SignBit(w) <==> w >= 0x8000_0000
  {
  }

  lemma WrapOnce(v: int)
    requires -0x1_0000_0000 <= v < 0x2_0000_0000
    ensures Wrap(v) == if v < 0 then v + 0x1_0000_0000 else if v < 0x1_0000_0000 then v else v - 0x1_0000_0000
  {
  }

  /** A left shift multiplies and truncates. */
  lemma ShiftLeftMultiplies(a: Word, s: nat)
    requires s < 32
    ensures ShiftLeft(a, s) == Wrap(a * Pow2(s))
  {
    hide Pow2;
    WordSplit(s);
    ShiftLeftInRange(a, s);
    var p, rest := Pow2(32 - s), Pow2(s);
    assert a == (a / p) * p + a % p;
    Assoc(a / p, p, rest);
    assert a * rest == (a / p) * p * rest + (a % p) * rest;
    DivUnique(a * rest, 0x1_0000_0000, a / p);
  }

  /** An arithmetic right shift divides the signed value, rounding toward minus infinity. */
  lemma ShiftRightDivides(a: Word, s: nat)
    requires s < 32
    ensures Signed(ShiftRightArithmetic(a, s)) == Signed(a) / Pow2(s)
    ensures ShiftRightArithmetic(a, s) == Wrap(Signed(a) / Pow2(s))
  {
    hide Pow2;
    WordSplit(s);
    ShiftRightInRange(a, s);
    if a >= 0x8000_0000 {
      DivideShifted(a, Pow2(s), Pow2(32 - s));
      HalfQuotient(a, s);
    } else {
      SmallQuotient(a, Pow2(s));
    }
  }

  /** Taking a multiple of the divisor off the dividend takes it off the quotient. */
  lemma DivideShifted(a: int, p: int, k: int)
    requires p > 0 && k * p == 0x1_0000_0000
    ensures (a - 0x1_0000_0000) / p == a / p - k
  {
    var q := a / p;
    assert a == q * p + a % p;
    Distribute(q, k, p);
    DivUnique(a - 0x1_0000_0000, p, q - k);
  }

  /** The quotient of a word with its sign bit set is in the upper half of the shifted range. */
  lemma HalfQuotient(a: Word, s: nat)
    requires s < 32 && a >= 0x8000_0000
    ensures a / Pow2(s) >= Pow2(32 - s) - 0x8000_0000
  {
    hide Pow2;
    Pow2Monotone(31 - s, 31);
    HalfWord(s);
    var q := a / Pow2(s);
    assert a < (q + 1) * Pow2(s);
    MulOrder(Pow2(31 - s), q + 1, Pow2(s));
  }

  lemma HalfWord(s: nat)
    requires s < 32
    ensures Pow2(31 - s) * Pow2(s) == 0x8000_0000 && Pow2(32 - s) == 2 * Pow2(31 - s) && Pow2(31) == 0x8000_0000
  {
    hide Pow2;
    Pow2Add(31 - s, s);
    Pow2Step(32 - s);
    Pow2Values();
    Pow2Step(32);
  }

  lemma SmallQuotient(a: nat, p: nat)
    requires p > 0
    ensures 0 <= a / p <= a
  {
    var q := a / p;
    if q > 0 {
      assert p * q <= a;
      MulOrder(1, p, q);
    }
  }
}
