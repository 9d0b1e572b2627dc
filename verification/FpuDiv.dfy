/** rtl/fpu_div.sv: the binary32 divider against the exact quotient. */
module FpuDiv {
  import opened Powers
  import opened Rounding
  import opened Binary32
  import opened FpuReferenceModel
  import opened Magnitudes
  import opened FpuOperand

  const EXTRA := 32
  const QWIDTH := 24 + EXTRA

  /** The quotient of the operands, in terms of their significands. */
  lemma ExactQuotient(a: Word, b: Word, sigA: nat, sigB: nat, eA: int, eB: int)
    requires IsFinite(a) && IsFinite(b) && IsNormalised(a, sigA, eA) && IsNormalised(b, sigB, eB)
    requires FiniteFraction(b).num != 0
    ensures var v := Divide(FiniteFraction(a), FiniteFraction(b));
      v.num != 0 && SignOf(v) == Xor(Decode(a).sign, Decode(b).sign) * SIGN_BIT
      && (Abs(v.num) * sigB) * Pow2(eB + 149) == (sigA * Pow2(eA + 149)) * v.den
  {
    hide Pow2, FiniteFraction, Decode, Units, Abs;
    var v, w := FiniteFraction(a), FiniteFraction(b);
    NormalisedFraction(a, sigA, eA);
    NormalisedFraction(b, sigB, eB);
    QuotientSign(v.num, w.num, w.den);
    QuotientOf(Abs(v.num), Abs(w.num), Pow2(172), sigA, sigB, Pow2(eA + 149), Pow2(eB + 149), v.den, w.den);
  }

  lemma QuotientSign(n: int, n': int, d': int)
    requires n != 0 && n' != 0 && d' > 0
    ensures var m := (if n' < 0 then -n else n) * d';
      m != 0 && (m < 0 <==> (n < 0) != (n' < 0)) && Abs(m) == Abs(n) * d'
  {
    MulPositive(Abs(n), d');
    assert (-n) * d' == -(n * d');
  }

  lemma QuotientOf(n: int, n': int, k: int, s: int, s': int, p: int, p': int, d: int, d': int)
    requires k > 0 && n * k == (s * p) * d && n' * k == (s' * p') * d'
    ensures ((n * d') * s') * p' == (s * p) * (d * n')
  {
    assert (((n * d') * s') * p') * k == (n * k) * ((s' * p') * d');
    assert ((s * p) * (d * n')) * k == ((s * p) * d) * (n' * k);
    MulOrder(((n * d') * s') * p', (s * p) * (d * n'), k);
  }

  /** quotient and remainder are those of sigA * 2^32, or of twice that when sigA < sigB, so
      that the quotient has exactly 33 bits. */
  ghost predicate IsQuotient(sigA: nat, sigB: nat, doubled: bool, quotient: nat, remainder: nat) {
    && quotient * sigB + remainder == (if doubled then 2 * sigA else sigA) * 0x1_0000_0000
    && remainder < sigB
    && 0x1_0000_0000 <= quotient < 0x2_0000_0000
    && doubled == (sigA < sigB)
  }

  lemma RawQuotientRange(sigA: nat, sigB: nat)
    requires HIDDEN_BIT <= sigA < 2 * HIDDEN_BIT && HIDDEN_BIT <= sigB < 2 * HIDDEN_BIT
    ensures var q := sigA * 0x1_0000_0000 / sigB;
      0x8000_0000 <= q < 0x2_0000_0000 && (q < 0x1_0000_0000 <==> sigA < sigB)
  {
    var n := sigA * 0x1_0000_0000;
    var q := n / sigB;
    assert q * sigB <= n < (q + 1) * sigB;
    if q < 0x8000_0000 {
      MulOrder(q + 1, 0x8000_0000, sigB);
    }
    if q >= 0x2_0000_0000 {
      MulOrder(0x2_0000_0000, q, sigB);
    }
    if q < 0x1_0000_0000 {
      MulOrder(q + 1, 0x1_0000_0000, sigB);
    } else {
      MulOrder(0x1_0000_0000, q, sigB);
    }
  }

  /** Sections Integer division and Normalisation. */
  method DivideSignificands(sigA: nat, sigB: nat, expA: int, expB: int)
      returns (quotient: nat, remainder: nat, expUnbiased: int)
    requires HIDDEN_BIT <= sigA < 2 * HIDDEN_BIT && HIDDEN_BIT <= sigB < 2 * HIDDEN_BIT
    ensures IsQuotient(sigA, sigB, sigA < sigB, quotient, remainder)
    ensures expUnbiased == expA - expB - (if sigA < sigB then 1 else 0)
  {
    hide Pow2, Bit;
    var dividend := sigA * 0x1_0000_0000;
    quotient := dividend / sigB;
    remainder := dividend % sigB;
    RawQuotientRange(sigA, sigB);
    ghost var q, rem := quotient, remainder;
    assert q * sigB + rem == dividend;
    Pow2Values();
    TopBit(quotient, 32);
    if Bit(quotient, 32) {
      expUnbiased := expA - expB;
    } else {
      quotient := quotient * 2;
      remainder := remainder * 2;
      Assoc(2, q, sigB);
      if remainder >= sigB {
        assert (quotient + 1) * sigB == quotient * sigB + sigB;
        quotient := quotient + 1;
        remainder := remainder - sigB;
      }
      expUnbiased := expA - expB - 1;
    }
  }

  /** The exact quotient is (quotient + remainder/sigB) * 2^(e - 32). */
  lemma QuotientValue(v: Fraction, sigA: nat, sigB: nat, eA: int, eB: int, quotient: nat, remainder: nat, e: int)
    requires eA >= -149 && eB >= -149
    requires (Abs(v.num) * sigB) * Pow2(eB + 149) == (sigA * Pow2(eA + 149)) * v.den
    requires IsQuotient(sigA, sigB, sigA < sigB, quotient, remainder)
    requires e == eA - eB - (if sigA < sigB then 1 else 0)
    ensures (Abs(v.num) * sigB) * Pow2(eB + 182) == ((quotient * sigB + remainder) * Pow2(e + eB + 150)) * v.den
  {
    hide Pow2, Abs;
    Rescale(Abs(v.num) * sigB, sigA, v.den, eB + 149, eA + 149, eB + 182, eA + 182);
    var m := quotient * sigB + remainder;
    assert sigA * Pow2(eA + 182) == m * Pow2(e + eB + 150) by {
      Pow2Values();
      if sigA < sigB {
        Pow2Add(33, eA + 149);
        Assoc(sigA, Pow2(33), Pow2(eA + 149));
      } else {
        Pow2Add(32, eA + 150);
        Assoc(sigA, Pow2(32), Pow2(eA + 150));
      }
    }
  }

  /** An odd factor cannot supply powers of two. */
  lemma {:induction false} OddFactor(odd: int, s: int, t: int, k: nat) returns (u: int)
    requires odd % 2 == 1 && odd * s == t * Pow2(k)
    ensures s == u * Pow2(k)
    decreases k
  {
    hide Pow2;
    if k == 0 {
      Pow2Zero();
      u := s;
    } else {
      DoublePower(t, k);
      HalveOddMultiple(odd, s, t * Pow2(k - 1));
      u := OddFactor(odd, s / 2, t, k - 1);
      DoublePower(u, k);
    }
  }

  lemma HalveOddMultiple(odd: int, s: int, h: int)
    requires odd % 2 == 1 && odd * s == 2 * h
    ensures s % 2 == 0 && odd * (s / 2) == h
  {
    var m, q := odd / 2, s / 2;
    assert odd == 2 * m + 1 && s == 2 * q + s % 2;
    assert odd * s == 2 * (m * s) + s by {
      assert (2 * m + 1) * s == 2 * (m * s) + s;
    }
    assert odd * s == 2 * (odd * q) + odd * (s % 2) by {
      assert odd * (2 * q + s % 2) == 2 * (odd * q) + odd * (s % 2);
    }
  }

  /** Division never meets a tie in the normal range: a set guard bit is always followed by a
      one, so the even-LSB term of the rounding decision never decides. */
  lemma DivisionNeverTies(sigA: nat, sigB: nat, quotient: nat, remainder: nat)
    requires HIDDEN_BIT <= sigA < 2 * HIDDEN_BIT && HIDDEN_BIT <= sigB < 2 * HIDDEN_BIT
    requires IsQuotient(sigA, sigB, sigA < sigB, quotient, remainder)
    requires Bit(quotient, 8)
    ensures Bit(quotient, 7) || AnyBelow(quotient, 7) || remainder != 0
  {
    hide Pow2, Bit, AnyBelow;
    if !Bit(quotient, 7) && !AnyBelow(quotient, 7) && remainder == 0 {
      AnyBelowStep(quotient, 7);
      OddQuotient(quotient);
      var odd := quotient / 0x100;
      var s := if sigA < sigB then 2 * sigA else sigA;
      Pow2Values();
      Assoc(0x100, odd, sigB);
      var u := OddFactor(odd, sigB, s, 24);
      assert false;
    }
  }

  lemma OddQuotient(quotient: nat)
    requires Bit(quotient, 8) && !AnyBelow(quotient, 8)
    ensures quotient == 0x100 * (quotient / 0x100) && (quotient / 0x100) % 2 == 1
  {
    Pow2Values();
  }

  /** A normal quotient rounded on bits 8, 7 and 6..0 and the remainder. */
  function RoundedQuotient(quotient: nat, remainder: nat): nat {
    var sigRaw := quotient / Pow2(9);
    sigRaw + RoundUp(sigRaw, Bit(quotient, 8), Bit(quotient, 7), AnyBelow(quotient, 7) || remainder != 0)
  }

  /** Rounding a normal quotient never carries out of its 24 bits, in either quotient case. */
  lemma DivisionNeverCarries(sigA: nat, sigB: nat, quotient: nat, remainder: nat)
    requires HIDDEN_BIT <= sigA < 2 * HIDDEN_BIT && HIDDEN_BIT <= sigB < 2 * HIDDEN_BIT
    requires IsQuotient(sigA, sigB, sigA < sigB, quotient, remainder)
    ensures RoundedQuotient(quotient, remainder) < 2 * HIDDEN_BIT
  {
    hide Pow2, Bit, AnyBelow, IsRne, RoundUp;
    RoundsQuotient(quotient, 9, sigB, remainder);
    Pow2Values();
    RneBounds(quotient * sigB + remainder, sigB * 0x200, RoundedQuotient(quotient, remainder), 2 * HIDDEN_BIT);
  }

  /** Section Normal result: keep bits 32..9, round on bits 8, 7 and 6..0 and the remainder. */
  method DivNormal(sign: int, quotient: nat, remainder: nat, sigB: nat, exp: int, ghost eB: int, ghost v: Fraction)
      returns (result: Word)
    requires 0 <= sign <= 1 && remainder < sigB && 0x1_0000_0000 <= quotient < 0x2_0000_0000
    requires -126 <= exp <= 1000 && eB >= -149 && exp + eB >= -150
    requires v.num != 0 && SignOf(v) == sign * SIGN_BIT
    requires (Abs(v.num) * sigB) * Pow2(eB + 182) == ((quotient * sigB + remainder) * Pow2(exp + eB + 150)) * v.den
    ensures result == Binary32FromFraction(v)
  {
    hide Pow2, Bit, AnyBelow, IsRne, Abs, Binary32FromFraction, SignOf, Packed, RoundUp;
    var sigRaw := quotient / Pow2(9);
    var guard, roundBit := Bit(quotient, 8), Bit(quotient, 7);
    var sticky := AnyBelow(quotient, 7) || remainder != 0;
    var sigRounded := sigRaw + RoundUp(sigRaw, guard, roundBit, sticky);
    ghost var m := quotient * sigB + remainder;
    RoundsQuotient(quotient, 9, sigB, remainder);
    NormalRange(quotient, remainder, sigB, sigRounded);
    Rescale(Abs(v.num) * sigB, m, v.den, eB + 182, exp + eB + 150, 158, exp + 126);
    EncodesNormal(v, m, sigB, 9, exp, sigRounded);
    result := PackNormal(sign, exp, sigRounded);
  }

  lemma NormalRange(quotient: nat, remainder: nat, sigB: nat, r: nat)
    requires remainder < sigB && 0x1_0000_0000 <= quotient < 0x2_0000_0000
    requires IsRne(quotient * sigB + remainder, sigB * Pow2(9), r)
    ensures HIDDEN_BIT * (sigB * Pow2(9)) <= quotient * sigB + remainder < 2 * HIDDEN_BIT * (sigB * Pow2(9))
    ensures HIDDEN_BIT <= r <= 2 * HIDDEN_BIT
  {
    hide Pow2, IsRne;
    Pow2Values();
    MulOrder(0x1_0000_0000, quotient, sigB);
    MulOrder(quotient + 1, 0x2_0000_0000, sigB);
    assert (quotient + 1) * sigB == quotient * sigB + sigB;
    RneBounds(quotient * sigB + remainder, sigB * 0x200, r, HIDDEN_BIT);
    RneBounds(quotient * sigB + remainder, sigB * 0x200, r, 2 * HIDDEN_BIT);
  }

  /** Extraction at a shift of two or more: the sticky bit is gathered bit by bit. */
  method RoundShifted(quotient: nat, remainder: nat, shiftCnt: nat) returns (sigRounded: nat)
    requires shiftCnt >= 2
    ensures sigRounded == quotient / Pow2(shiftCnt) + RoundUp(quotient / Pow2(shiftCnt), Bit(quotient, shiftCnt - 1),
                                                              Bit(quotient, shiftCnt - 2),
                                                              AnyBelow(quotient, shiftCnt - 2) || remainder != 0)
  {
    hide Pow2, Bit, AnyBelow, RoundUp;
    var sigRaw := quotient / Pow2(shiftCnt);
    var guard, roundBit := Bit(quotient, shiftCnt - 1), Bit(quotient, shiftCnt - 2);
    var sticky := remainder != 0;
    AnyBelowStep(quotient, 0);
    for i := 0 to shiftCnt - 2
      invariant sticky == (AnyBelow(quotient, i) || remainder != 0)
    {
      AnyBelowStep(quotient, i);
      sticky := sticky || Bit(quotient, i);
    }
    sigRounded := sigRaw + RoundUp(sigRaw, guard, roundBit, sticky);
  }

  /** Section Subnormal result. */
  method DivSubnormal(sign: int, quotient: nat, remainder: nat, sigB: nat, exp: int, ghost eB: int, ghost v: Fraction)
      returns (result: Word)
    requires 0 <= sign <= 1 && remainder < sigB && 0x1_0000_0000 <= quotient < 0x2_0000_0000
    requires exp < -126 && eB >= -149 && exp + eB >= -150
    requires v.num != 0 && SignOf(v) == sign * SIGN_BIT
    requires (Abs(v.num) * sigB) * Pow2(eB + 182) == ((quotient * sigB + remainder) * Pow2(exp + eB + 150)) * v.den
    ensures result == Binary32FromFraction(v)
  {
    hide Pow2, Bit, AnyBelow, IsRne, Abs, Binary32FromFraction, SignOf, Packed, RoundUp;
    var shiftCnt := 32 - 149 - exp;
    // The defensive branches for shifts of 1 and below are never taken.
    assert shiftCnt >= 10;
    ghost var m := quotient * sigB + remainder;
    MulPositive(quotient, sigB);
    Rescale(Abs(v.num) * sigB, m, v.den, eB + 182, exp + eB + 150, 149 + shiftCnt, 0);
    var sigRounded;
    if shiftCnt >= QWIDTH {
      // No kept bits and no guard bit, whatever the sticky bit says.
      sigRounded := 0;
      VanishingQuotient(quotient, remainder, sigB, shiftCnt);
    } else {
      sigRounded := RoundShifted(quotient, remainder, shiftCnt);
      RoundsQuotient(quotient, shiftCnt, sigB, remainder);
    }
    SubnormalQuotient(quotient, remainder, sigB, shiftCnt, sigRounded);
    EncodesSubnormal(v, m, sigB, shiftCnt, sigRounded);
    result := PackSubnormal(sign, sigRounded);
  }

  lemma QuotientBelow(quotient: nat, remainder: nat, sigB: nat, shift: nat)
    requires remainder < sigB && quotient < 0x2_0000_0000 && shift >= 10
    ensures quotient * sigB + remainder < HIDDEN_BIT * (sigB * Pow2(shift))
    ensures shift >= QWIDTH ==> 2 * (quotient * sigB + remainder) < sigB * Pow2(shift)
  {
    hide Pow2;
    MulOrder(quotient + 1, 0x2_0000_0000, sigB);
    assert (quotient + 1) * sigB == quotient * sigB + sigB;
    Pow2Monotone(10, shift);
    assert Pow2(10) == 0x400 by {
      Pow2Values();
      Pow2Step(10);
    }
    MulOrder(0x400, Pow2(shift), sigB);
    if shift >= QWIDTH {
      Pow2Monotone(48, shift);
      Pow2Values();
      MulOrder(0x1_0000_0000_0000, Pow2(shift), sigB);
    }
  }

  lemma VanishingQuotient(quotient: nat, remainder: nat, sigB: nat, shift: nat)
    requires remainder < sigB && quotient < 0x2_0000_0000 && shift >= QWIDTH
    ensures IsRne(quotient * sigB + remainder, sigB * Pow2(shift), 0)
  {
    hide Pow2;
    QuotientBelow(quotient, remainder, sigB, shift);
    MulPositive(quotient, sigB);
  }

  lemma SubnormalQuotient(quotient: nat, remainder: nat, sigB: nat, shift: nat, r: nat)
    requires remainder < sigB && quotient < 0x2_0000_0000 && shift >= 10
    requires IsRne(quotient * sigB + remainder, sigB * Pow2(shift), r)
    ensures quotient * sigB + remainder < HIDDEN_BIT * (sigB * Pow2(shift)) && r <= HIDDEN_BIT
  {
    hide Pow2, IsRne;
    QuotientBelow(quotient, remainder, sigB, shift);
    MulPositive(sigB, Pow2(shift));
    RneBounds(quotient * sigB + remainder, sigB * Pow2(shift), r, HIDDEN_BIT);
  }

  /** Decoding, division and normalisation of finite non-zero operands. */
  method DivFinite(a: Word, b: Word) returns (result: Word)
    requires IsFinite(a) && IsFinite(b) && !IsZero(a) && !IsZero(b)
    ensures FiniteFraction(b).num != 0
    ensures result == Binary32FromFraction(Divide(FiniteFraction(a), FiniteFraction(b)))
  {
    hide Pow2, Bit, Units, FiniteFraction, Binary32FromFraction, Divide, SignOf, Abs, Decode;
    var sign := Xor(Decode(a).sign, Decode(b).sign);
    var sigA, expA := NormaliseOperand(a);
    var sigB, expB := NormaliseOperand(b);
    UnitsOfFraction(b);
    ghost var v := Divide(FiniteFraction(a), FiniteFraction(b));
    ExactQuotient(a, b, sigA, sigB, expA, expB);
    var quotient, remainder, expUnbiased := DivideSignificands(sigA, sigB, expA, expB);
    QuotientValue(v, sigA, sigB, expA, expB, quotient, remainder, expUnbiased);
    if expUnbiased >= -126 {
      result := DivNormal(sign, quotient, remainder, sigB, expUnbiased, expB, v);
    } else {
      result := DivSubnormal(sign, quotient, remainder, sigB, expUnbiased, expB, v);
    }
  }

  /** fp_div. For finite operands other than 0/0, what the reference computes: the exact
      quotient rounded once, a signed infinity for a zero divisor, +0 for a zero dividend. */
  method FpDiv(a: Word, b: Word) returns (result: Word)
    ensures result == CANONICAL_NAN ==> IsNaN(result) && Decode(result) == Fields(0, 0xFF, 0x40_0000)
    ensures IsFinite(a) && IsFinite(b) && !(IsZero(a) && IsZero(b)) ==>
      ReferenceModel(a, b, DIV).Supported? && result == ReferenceModel(a, b, DIV).result
    ensures IsZero(a) && IsZero(b) ==>
      ReferenceModel(a, b, DIV) == Unsupported(ZeroOverZero) && result == CANONICAL_NAN
    ensures IsNaN(a) || IsNaN(b) || (IsInfinity(a) && IsInfinity(b)) ==> result == CANONICAL_NAN
    ensures IsInfinity(a) && IsFinite(b) ==> result == Encode(Xor(Decode(a).sign, Decode(b).sign), 0xFF, 0)
    ensures IsInfinity(b) && IsFinite(a) ==> result == Encode(Xor(Decode(a).sign, Decode(b).sign), 0, 0)
  {
    hide Pow2, Binary32FromFraction, FiniteFraction, Add, Negate, Multiply, Divide, Decode;
    CanonicalNaN();
    var sign := Xor(Decode(a).sign, Decode(b).sign);
    Recompose(a);
    Recompose(b);
    if IsNaN(a) || IsNaN(b) {
      result := CANONICAL_NAN;
    } else if (IsInfinity(a) && IsInfinity(b)) || (IsZero(a) && IsZero(b)) {
      result := CANONICAL_NAN;
    } else if IsZero(b) {
      result := Encode(sign, 0xFF, 0);
    } else if IsInfinity(a) {
      result := Encode(sign, 0xFF, 0);
    } else if IsInfinity(b) {
      result := Encode(sign, 0, 0);
    } else if IsZero(a) {
      ZeroDividend(a, b);
      result := 0;
    } else {
      result := DivFinite(a, b);
    }
  }

  lemma ZeroDividend(a: Word, b: Word)
    requires IsFinite(a) && IsFinite(b) && IsZero(a) && !IsZero(b)
    ensures FiniteFraction(b).num != 0
    ensures Binary32FromFraction(Divide(FiniteFraction(a), FiniteFraction(b))) == 0
  {
    hide Pow2, FiniteFraction, Decode, Units;
    UnitsOfFraction(a);
    UnitsOfFraction(b);
  }
}
