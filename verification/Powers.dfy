/** Powers of two and the few facts about products and quotients that the
    datapath proofs share. A bit slice of a register is a quotient or a
    remainder by a power of two. */
module Powers {

  /** A 32-bit register or bus. */
  type Word = w: int | 0 <= w < 0x1_0000_0000

  function Pow2(k: nat): (p: nat)
    ensures p > 0
  {
    if k == 0 then 1 else 2 * Pow2(k - 1)
  }

  /** Bit i of the register value x. */
  predicate Bit(x: nat, i: nat) {
    (x / Pow2(i)) % 2 == 1
  }

  function Abs(x: int): nat {
    if x < 0 then -x else x
  }

  function Min(x: int, y: int): int {
    if x < y then x else y
  }

  lemma {:induction false} Pow2Add(a: nat, b: nat)
    ensures Pow2(a + b) == Pow2(a) * Pow2(b)
  {
    if a == 0 {
    } else {
      Pow2Add(a - 1, b);
      assert Pow2(a + b) == 2 * Pow2(a - 1 + b);
      Assoc(2, Pow2(a - 1), Pow2(b));
    }
  }

  lemma Pow2Step(k: nat)
    requires k > 0
    ensures Pow2(k) == 2 * Pow2(k - 1)
  {
  }

  lemma Pow2Monotone(a: nat, b: nat)
    requires a <= b
    ensures Pow2(a) <= Pow2(b)
    ensures a < b ==> 2 * Pow2(a) <= Pow2(b)
    decreases b - a
  {
    if a < b {
      Pow2Monotone(a, b - 1);
    }
  }

  lemma Pow2Values()
    ensures Pow2(2) == 4 && Pow2(3) == 8 && Pow2(7) == 0x80 && Pow2(8) == 0x100 && Pow2(9) == 0x200
    ensures Pow2(22) == 0x40_0000 && Pow2(23) == 0x80_0000 && Pow2(24) == 0x100_0000
    ensures Pow2(26) == 0x400_0000 && Pow2(27) == 0x800_0000
    ensures Pow2(32) == 0x1_0000_0000 && Pow2(33) == 0x2_0000_0000
    ensures Pow2(47) == 0x8000_0000_0000 && Pow2(48) == 0x1_0000_0000_0000
  {
    assert Pow2(8) == 0x100;
    assert Pow2(16) == 0x1_0000;
    assert Pow2(24) == 0x100_0000;
    assert Pow2(32) == 0x1_0000_0000;
    assert Pow2(40) == 0x100_0000_0000;
  }

  lemma Assoc(a: int, b: int, c: int)
    ensures a * b * c == a * (b * c)
  {
  }

  lemma Distribute(a: int, b: int, k: int)
    ensures (a - b) * k == a * k - b * k
  {
  }

  /** Multiplication by a positive number preserves and reflects order. */
  lemma MulOrder(a: int, b: int, k: int)
    requires k > 0
    ensures a <= b <==> a * k <= b * k
    ensures a < b <==> a * k < b * k
    ensures a == b <==> a * k == b * k
  {
    if a < b {
      assert (b - a) * k > 0;
    } else if a > b {
      assert (a - b) * k > 0;
    }
  }

  lemma MulPositive(a: int, b: int)
    requires a >= 0 && b > 0
    ensures a * b >= 0
    ensures a * b > 0 <==> a > 0
  {
  }

  lemma DivUnique(n: int, d: int, q: int)
    requires d > 0 && q * d <= n < q * d + d
    ensures n / d == q && n % d == n - q * d
  {
    var q' := n / d;
    assert q' * d <= n < q' * d + d;
    if q' < q {
      MulOrder(q' + 1, q, d);
    } else if q < q' {
      MulOrder(q + 1, q', d);
    }
  }

  /** The most significant bit of a register tells which half of the range it is in. */
  lemma TopBit(x: nat, i: nat)
    requires x < 2 * Pow2(i)
    ensures Bit(x, i) <==> x >= Pow2(i)
  {
    if x >= Pow2(i) {
      DivUnique(x, Pow2(i), 1);
    } else {
      DivUnique(x, Pow2(i), 0);
    }
  }

  /** Taking one more low bit of x: x mod 2^(i+1) is bit i on top of x mod 2^i. */
  lemma LowBits(x: nat, i: nat)
    ensures x % Pow2(i + 1) == x % Pow2(i) + (if Bit(x, i) then Pow2(i) else 0)
  {
    hide Bit;
    SplitBit(x, i);
  }

  /** Some bit of x below position i is set: the OR of a register slice. */
  predicate AnyBelow(x: nat, i: nat) {
    x % Pow2(i) != 0
  }

  lemma AnyBelowStep(x: nat, i: nat)
    ensures !AnyBelow(x, 0)
    ensures AnyBelow(x, i + 1) <==> AnyBelow(x, i) || Bit(x, i)
  {
    hide Bit;
    LowBits(x, i);
  }

  lemma NextBit(x: nat, i: nat)
    ensures x / Pow2(i) == 2 * (x / Pow2(i + 1)) + (if Bit(x, i) then 1 else 0)
  {
    hide Bit;
    SplitBit(x, i);
  }

  lemma SplitBit(x: nat, i: nat)
    ensures x % Pow2(i + 1) == x % Pow2(i) + (if Bit(x, i) then Pow2(i) else 0)
    ensures x / Pow2(i) == 2 * (x / Pow2(i + 1)) + (if Bit(x, i) then 1 else 0)
  {
    var p, q := Pow2(i), x / Pow2(i);
    assert x == q * p + x % p;
    assert q == 2 * (q / 2) + q % 2;
    assert q * p == (q / 2) * (2 * p) + (q % 2) * p by {
      assert q * p == (2 * (q / 2)) * p + (q % 2) * p;
      Assoc(q / 2, 2, p);
    }
    assert (q % 2) * p == (if q % 2 == 1 then p else 0);
    DivUnique(x, 2 * p, q / 2);
  }
}
