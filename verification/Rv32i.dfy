/** Instruction words and 32-bit arithmetic of the RV32I subset (RISC-V ISA Manual, Vol. I,
    version 20191213, sections 2.2 to 2.6), in the terms the hardware and the emulator share. */
module Rv32i {
  import opened Powers

  const OP_IMM: nat := 0x13
  const OP: nat := 0x33
  const BRANCH: nat := 0x63
  const LOAD: nat := 0x03
  const STORE: nat := 0x23

  type RegIndex = r: int | 0 <= r < 32

  type Registers = rs: seq<Word> | |rs| == 32 witness seq(32, _ => 0)

  /** The slice w[lo + width - 1 : lo], which is also (w >> lo) & (2^width - 1). */
  function Field(w: Word, lo: nat, width: nat): (f: nat)
    ensures f < Pow2(width)
  {
    (w / Pow2(lo)) % Pow2(width)
  }

  function Opcode(w: Word): nat {
    Field(w, 0, 7)
  }

  function Rd(w: Word): RegIndex {
    Field(w, 7, 5)
  }

  function Funct3(w: Word): nat {
    Field(w, 12, 3)
  }

  function Rs1(w: Word): RegIndex {
    Field(w, 15, 5)
  }

  function Rs2(w: Word): RegIndex {
    Field(w, 20, 5)
  }

  function Funct7(w: Word): nat {
    Field(w, 25, 7)
  }

  /** Truncation to 32 bits, of a negative number too. */
  function Wrap(v: int): Word {
    v % 0x1_0000_0000
  }

  /** The two's complement reading of a word. */
  function Signed(w: Word): int {
    if w >= 0x8000_0000 then w - 0x1_0000_0000 else w
  }

  datatype Logic = AND | OR | XOR

  predicate Gate(op: Logic, x: bool, y: bool) {
    match op
    case AND => x && y
    case OR => x || y
    case XOR => x != y
  }

  /** The bitwise operators on natural numbers. */
  function Bitwise(op: Logic, a: nat, b: nat): nat
    decreases a + b
  {
    if a == 0 && b == 0 then 0
    else 2 * Bitwise(op, a / 2, b / 2) + (if Gate(op, a % 2 == 1, b % 2 == 1) then 1 else 0)
  }

  /** Bit i of the result is the gate of the two bits i. */
  lemma {:induction false} BitwiseAt(op: Logic, a: nat, b: nat, i: nat)
    ensures Bit(Bitwise(op, a, b), i) == Gate(op, Bit(a, i), Bit(b, i))
    decreases i
  {
    hide Bit, Bitwise;
    BitwiseHalf(op, a, b);
    if i == 0 {
      LowBit(Bitwise(op, a, b));
      LowBit(a);
      LowBit(b);
    } else {
      BitwiseAt(op, a / 2, b / 2, i - 1);
      HalfBit(Bitwise(op, a, b), i);
      HalfBit(a, i);
      HalfBit(b, i);
    }
  }

  lemma BitwiseHalf(op: Logic, a: nat, b: nat)
    ensures Bitwise(op, a, b) / 2 == Bitwise(op, a / 2, b / 2)
    ensures Bitwise(op, a, b) % 2 == 1 <==> Gate(op, a % 2 == 1, b % 2 == 1)
  {
  }

  lemma LowBit(x: nat)
    ensures Bit(x, 0) <==> x % 2 == 1
  {
    assert Pow2(0) == 1;
  }

  lemma HalfBit(x: nat, i: nat)
    requires i > 0
    ensures Bit(x, i) == Bit(x / 2, i - 1)
  {
    hide Pow2;
    Pow2Step(i);
    NestedDivision(x, 2, Pow2(i - 1));
  }

  lemma NestedDivision(x: nat, a: nat, b: nat)
    requires a > 0 && b > 0
    ensures a * b > 0 && x / (a * b) == x / a / b
  {
    MulPositive(a, b);
    var q := x / a;
    var r := q / b;
    assert q * a <= x < q * a + a;
    assert r * b <= q < r * b + b;
    MulOrder(r * b, q, a);
    MulOrder(q + 1, r * b + b, a);
    BlockProducts(q, r, a, b);
    DivUnique(x, a * b, r);
  }

  lemma BlockProducts(q: int, r: int, a: int, b: int)
    ensures (q + 1) * a == q * a + a
    ensures r * b * a == r * (a * b) && (r * b + b) * a == r * (a * b) + a * b
  {
    Assoc(r, b, a);
  }

  lemma {:induction false} BitwiseInRange(op: Logic, a: nat, b: nat, k: nat)
    requires a < Pow2(k) && b < Pow2(k)
    ensures Bitwise(op, a, b) < Pow2(k)
    decreases k
  {
    if k > 0 && (a > 0 || b > 0) {
      BitwiseInRange(op, a / 2, b / 2, k - 1);
    }
  }

  /** OR of disjoint fields is their concatenation. */
  lemma {:induction false} OrConcatenates(high: nat, low: nat, k: nat)
    requires low < Pow2(k)
    ensures Bitwise(OR, high * Pow2(k), low) == high * Pow2(k) + low
    decreases k
  {
    hide Bitwise;
    if k == 0 {
      OrWithZero(high);
    } else {
      OrConcatenates(high, low / 2, k - 1);
      OrDoubled(high * Pow2(k - 1), low);
      MulPositive(high, Pow2(k - 1));
      assert high * Pow2(k) == 2 * (high * Pow2(k - 1));
    }
  }

  lemma OrDoubled(half: nat, low: nat)
    ensures Bitwise(OR, 2 * half, low) == 2 * Bitwise(OR, half, low / 2) + low % 2
  {
  }

  lemma {:induction false} OrWithZero(a: nat)
    ensures Bitwise(OR, a, 0) == a
  {
    if a > 0 {
      OrWithZero(a / 2);
    }
  }

  lemma BitwiseIsWord(op: Logic, a: Word, b: Word)
    ensures Bitwise(op, a, b) < 0x1_0000_0000
  {
    hide Pow2, Bitwise;
    Pow2Values();
    BitwiseInRange(op, a, b, 32);
  }

  function BitwiseWord(op: Logic, a: Word, b: Word): Word {
    BitwiseIsWord(op, a, b);
    Bitwise(op, a, b)
  }
}
