/** What fp_mul and fp_div share: decoding an operand to a normalised significand, and
    packing a result with an unbiased exponent. */
module FpuOperand {
  import opened Powers
  import opened Rounding
  import opened Binary32
  import opened Magnitudes
  import opened FpuReferenceModel

  const CANONICAL_NAN: Word := 0x7FC0_0000

  /** The quiet NaN: sign 0, all exponent bits and the first fraction bit. */
  lemma CanonicalNaN()
    ensures IsNaN(CANONICAL_NAN) && Decode(CANONICAL_NAN) == Fields(0, 0xFF, 0x40_0000)
  {
  }

  function Xor(s: int, t: int): int
    requires 0 <= s <= 1 && 0 <= t <= 1
  {
    if s == t then 0 else 1
  }

  /** sig * 2^(e - 23) is the magnitude of the operand, with the hidden bit set. */
  ghost predicate IsNormalised(bits: Word, sig: int, e: int) {
    && HIDDEN_BIT <= sig < 2 * HIDDEN_BIT
    && -149 <= e <= 127
    && Units(bits) * Pow2(23) == sig * Pow2(e + 149)
  }

  /** Decode operand: a subnormal significand is shifted up while the exponent comes down. */
  method NormaliseOperand(bits: Word) returns (sig: nat, expUnbiased: int)
    requires IsFinite(bits) && !IsZero(bits)
    ensures IsNormalised(bits, sig, expUnbiased)
  {
    hide Pow2, Bit, Units, Decode, IsNormalised;
    var f := Decode(bits);
    Pow2Zero();
    Pow2Values();
    if f.exponent == 0 {
      sig, expUnbiased := f.fraction, -126;
      for shiftCount := 0 to 23
        invariant -149 <= expUnbiased <= -126 && sig == f.fraction * Pow2(-126 - expUnbiased) < 2 * HIDDEN_BIT
        invariant sig < HIDDEN_BIT ==> -126 - expUnbiased == shiftCount
        invariant -126 - expUnbiased <= shiftCount
      {
        TopBit(sig, 23);
        if !Bit(sig, 23) {
          DoublePower(f.fraction, -126 - expUnbiased + 1);
          sig := (sig * 2) % 0x100_0000;
          expUnbiased := expUnbiased - 1;
        }
      }
      if sig < HIDDEN_BIT {
        MulOrder(1, f.fraction, Pow2(23));
        assert false;
      }
      SubnormalIsNormalised(bits, sig, expUnbiased);
    } else {
      sig, expUnbiased := HIDDEN_BIT + f.fraction, f.exponent - 127;
      NormalIsNormalised(bits);
    }
  }

  lemma SubnormalIsNormalised(bits: Word, sig: int, e: int)
    requires Decode(bits).exponent == 0 && -149 <= e <= -126
    requires sig == Decode(bits).fraction * Pow2(-126 - e) && HIDDEN_BIT <= sig < 2 * HIDDEN_BIT
    ensures IsNormalised(bits, sig, e)
  {
    hide Pow2, Decode;
    Pow2Zero();
    Pow2Add(-126 - e, e + 149);
    Assoc(Decode(bits).fraction, Pow2(-126 - e), Pow2(e + 149));
  }

  lemma NormalIsNormalised(bits: Word)
    requires 0 < Decode(bits).exponent < 0xFF
    ensures IsNormalised(bits, HIDDEN_BIT + Decode(bits).fraction, Decode(bits).exponent - 127)
  {
    hide Pow2, Decode;
    Pow2Add(Decode(bits).exponent - 1, 23);
    Assoc(Significand(bits), Pow2(Decode(bits).exponent - 1), Pow2(23));
  }

  /** The operand as a fraction, in terms of its normalised significand. */
  lemma NormalisedFraction(bits: Word, sig: int, e: int)
    requires IsFinite(bits) && IsNormalised(bits, sig, e)
    ensures var v := FiniteFraction(bits);
      v.num != 0 && Abs(v.num) * Pow2(172) == (sig * Pow2(e + 149)) * v.den
      && (v.num < 0 <==> Decode(bits).sign == 1)
  {
    hide Pow2, Units, FiniteFraction, Decode;
    var v, u := FiniteFraction(bits), SignedUnits(bits);
    UnitsOfFraction(bits);
    SignsAgree(v.num, Pow2(149), u, v.den);
    Pow2Add(149, 23);
    Assoc(Abs(v.num), Pow2(149), Pow2(23));
    MulPositive(sig, Pow2(e + 149));
    assert (Units(bits) * v.den) * Pow2(23) == (Units(bits) * Pow2(23)) * v.den;
  }

  /** Only the difference of the two exponents matters. */
  lemma Rescale(n: int, m: int, den: int, i: nat, j: nat, i': nat, j': nat)
    requires n * Pow2(i) == (m * Pow2(j)) * den && i - j == i' - j'
    ensures n * Pow2(i') == (m * Pow2(j')) * den
  {
    hide Pow2;
    Pow2Add(i, j');
    Pow2Add(i', j);
    RescaleBy(n, m, den, Pow2(i), Pow2(j), Pow2(i'), Pow2(j'));
  }

  lemma RescaleBy(n: int, m: int, den: int, a: int, b: int, a': int, b': int)
    requires b > 0 && a * b' == a' * b && n * a == (m * b) * den
    ensures n * a' == (m * b') * den
  {
    Assoc(n, a', b);
    Assoc(n, a, b');
    SwapFactors(m, b, den, b');
    MulOrder(n * a', (m * b') * den, b);
  }

  lemma SwapFactors(m: int, b: int, den: int, b': int)
    ensures ((m * b) * den) * b' == ((m * b') * den) * b
  {
    assert (m * b) * den == (m * den) * b && (m * b') * den == (m * den) * b';
  }

  /** The normal-result tail of both datapaths: a rounded significand at unbiased exponent
      e, with the carry renormalised and exponents above 127 turned into infinity. */
  method PackNormal(sign: int, e: int, sigRounded: nat) returns (result: Word)
    requires 0 <= sign <= 1 && -126 <= e <= 1000 && HIDDEN_BIT <= sigRounded <= 2 * HIDDEN_BIT
    ensures result == sign * SIGN_BIT + Packed(e + 127, sigRounded)
  {
    hide Bit, Pow2;
    var sig, exp := sigRounded, e;
    Pow2Values();
    TopBit(sig, 24);
    if Bit(sig, 24) {
      sig := sig / 2;
      exp := exp + 1;
    }
    BiasedExponent(exp);
    if exp > 127 {
      result := Encode(sign, 0xFF, 0);
    } else {
      result := Encode(sign, (exp % 0x100 + 127) % 0x100, sig % HIDDEN_BIT);
    }
  }

  /** The low byte of a two's complement exponent plus the bias, in 8 bits, is the biased exponent. */
  lemma BiasedExponent(exp: int)
    ensures -126 <= exp <= 127 ==> (exp % 0x100 + 127) % 0x100 == exp + 127
  {
    if 0 <= exp <= 127 {
      assert exp % 0x100 == exp;
    } else if -126 <= exp < 0 {
      assert exp % 0x100 == exp + 0x100;
    }
  }

  /** The subnormal-result tail: a significand that reached the hidden bit is the smallest normal. */
  method PackSubnormal(sign: int, sigRounded: nat) returns (result: Word)
    requires 0 <= sign <= 1 && sigRounded <= HIDDEN_BIT
    ensures result == sign * SIGN_BIT + Packed(1, sigRounded)
  {
    if sigRounded >= HIDDEN_BIT {
      result := Encode(sign, 1, 0);
    } else {
      result := Encode(sign, 0, sigRounded);
    }
  }

  /** A normal result: m/(d * 2^s) has 24 bits before the point, and e is its exponent. */
  lemma EncodesNormal(v: Fraction, m: nat, d: nat, s: nat, e: int, r: nat)
    requires v.num != 0 && d > 0 && e >= -126
    requires (Abs(v.num) * d) * Pow2(149 + s) == (m * Pow2(e + 126)) * v.den
    requires HIDDEN_BIT * (d * Pow2(s)) <= m < 2 * HIDDEN_BIT * (d * Pow2(s)) && IsRne(m, d * Pow2(s), r)
    ensures Binary32FromFraction(v) == SignOf(v) + Packed(e + 127, r)
  {
    hide Pow2, IsRne, Binary32FromFraction;
    var y, p := d * Pow2(s), Pow2(e + 126);
    MulPositive(d, Pow2(s));
    Pow2Add(149, s);
    Regroup(Abs(v.num), d, Pow2(149), Pow2(s));
    RneScale(m, y, p, r);
    MulOrder(HIDDEN_BIT * y, m, p);
    MulOrder(m, 2 * HIDDEN_BIT * y, p);
    Assoc(HIDDEN_BIT, y, p);
    Assoc(2 * HIDDEN_BIT, y, p);
    Encodes(v, m * p, y, e + 127, r);
  }

  /** A subnormal result: m/(d * 2^s) is the value in units of 2^-149. */
  lemma EncodesSubnormal(v: Fraction, m: nat, d: nat, s: nat, r: nat)
    requires v.num != 0 && d > 0
    requires (Abs(v.num) * d) * Pow2(149 + s) == (m * Pow2(0)) * v.den
    requires m < HIDDEN_BIT * (d * Pow2(s)) && IsRne(m, d * Pow2(s), r)
    ensures Binary32FromFraction(v) == SignOf(v) + Packed(1, r)
  {
    hide Pow2, IsRne, Binary32FromFraction;
    MulPositive(d, Pow2(s));
    Pow2Zero();
    Pow2Add(149, s);
    Regroup(Abs(v.num), d, Pow2(149), Pow2(s));
    Encodes(v, m, d * Pow2(s), 1, r);
  }

  lemma Regroup(n: int, d: int, p: int, q: int)
    ensures (n * p) * (d * q) == (n * d) * (p * q)
  {
  }
}
