/** rtl/fpu_mul.sv: the binary32 multiplier against the exact product. */
module FpuMul {
  import opened Powers
  import opened Rounding
  import opened Binary32
  import opened FpuReferenceModel
  import opened Magnitudes
  import opened FpuOperand

  /** The product of the operands, in terms of their significands. */
  lemma ExactProduct(a: Word, b: Word, sigA: nat, sigB: nat, eA: int, eB: int)
    requires IsFinite(a) && IsFinite(b) && IsNormalised(a, sigA, eA) && IsNormalised(b, sigB, eB)
    ensures var v := Multiply(FiniteFraction(a), FiniteFraction(b));
      v.num != 0 && SignOf(v) == Xor(Decode(a).sign, Decode(b).sign) * SIGN_BIT
      && Abs(v.num) * Pow2(344) == ((sigA * sigB) * Pow2(eA + eB + 298)) * v.den
  {
    hide Pow2, FiniteFraction, Decode, Units, Abs;
    var v, w := FiniteFraction(a), FiniteFraction(b);
    NormalisedFraction(a, sigA, eA);
    NormalisedFraction(b, sigB, eB);
    ProductSign(v.num, w.num);
    Pow2Add(172, 172);
    Pow2Add(eA + 149, eB + 149);
    ProductOf(Abs(v.num), Abs(w.num), Pow2(172), sigA, sigB, Pow2(eA + 149), Pow2(eB + 149), v.den, w.den);
  }

  lemma ProductSign(n: int, n': int)
    requires n != 0 && n' != 0
    ensures n * n' != 0 && (n * n' < 0 <==> (n < 0) != (n' < 0))
    ensures Abs(n * n') == Abs(n) * Abs(n')
  {
    MulOrder(n, 0, Abs(n'));
    assert n * n' == if n' < 0 then -(n * Abs(n')) else n * Abs(n');
    assert Abs(n) * Abs(n') == if n < 0 then -(n * Abs(n')) else n * Abs(n');
  }

  lemma ProductOf(n: int, n': int, k: int, s: int, s': int, p: int, p': int, d: int, d': int)
    requires n * k == (s * p) * d && n' * k == (s' * p') * d'
    ensures (n * n') * (k * k) == ((s * s') * (p * p')) * (d * d')
  {
    assert (n * n') * (k * k) == (n * k) * (n' * k);
    assert ((s * p) * d) * ((s' * p') * d') == ((s * p) * (s' * p')) * (d * d');
    assert (s * p) * (s' * p') == (s * s') * (p * p');
  }

  /** The normalised product: bit 47 set, and the exponent that goes with it. */
  lemma NormalisedProduct(v: Fraction, product: nat, e: int, norm: nat, eNorm: int)
    requires -298 <= e && Abs(v.num) * Pow2(344) == (product * Pow2(e + 298)) * v.den
    requires (norm == product && eNorm == e + 1) || (norm == 2 * product && eNorm == e)
    ensures Abs(v.num) * Pow2(345) == (norm * Pow2(eNorm + 298)) * v.den
  {
    hide Pow2, Abs;
    DoublePower(Abs(v.num), 345);
    if norm == product {
      DoublePower(product, e + 299);
    }
    Assoc(2, product * Pow2(e + 298), v.den);
    Assoc(2, product, Pow2(e + 298));
  }

  lemma ProductRange(sigA: nat, sigB: nat)
    requires HIDDEN_BIT <= sigA < 2 * HIDDEN_BIT && HIDDEN_BIT <= sigB < 2 * HIDDEN_BIT
    ensures 0x4000_0000_0000 <= sigA * sigB < 0x1_0000_0000_0000
  {
    MulOrder(HIDDEN_BIT, sigA, sigB);
    MulOrder(sigA, 2 * HIDDEN_BIT, sigB);
  }

  /** The left shift of a product without bit 47 loses nothing. */
  lemma ShiftedProduct(product: nat)
    requires product < 0x8000_0000_0000
    ensures (product * 2) % 0x1_0000_0000_0000 == 2 * product
  {
  }

  /** Section Normal result: keep bits 47..24, round on bits 23, 22 and 21..0. */
  method MulNormal(sign: int, norm: nat, exp: int, ghost v: Fraction) returns (result: Word)
    requires 0 <= sign <= 1 && 0x8000_0000_0000 <= norm < 0x1_0000_0000_0000 && -126 <= exp <= 255
    requires v.num != 0 && SignOf(v) == sign * SIGN_BIT
    requires Abs(v.num) * Pow2(345) == (norm * Pow2(exp + 298)) * v.den
    ensures result == Binary32FromFraction(v)
  {
    hide Pow2, Bit, AnyBelow, IsRne, Abs, Binary32FromFraction, SignOf, Packed;
    var roundedSig := norm / Pow2(24);
    var increment := RoundUp(roundedSig, Bit(norm, 23), Bit(norm, 22), AnyBelow(norm, 22));
    RoundsQuotient(norm, 24, 1, 0);
    ghost var r := roundedSig + increment;
    Pow2Values();
    RneBounds(norm, 0x100_0000, r, HIDDEN_BIT);
    RneBounds(norm, 0x100_0000, r, 2 * HIDDEN_BIT);
    Rescale(Abs(v.num), norm, v.den, 345, exp + 298, 173, exp + 126);
    EncodesNormal(v, norm, 1, 24, exp, r);
    result := PackNormal(sign, exp, roundedSig + increment);
  }

  /** Section Subnormal / underflow result: shift the product down to units of 2^-149. */
  method MulSubnormal(sign: int, norm: nat, exp: int, ghost v: Fraction) returns (result: Word)
    requires 0 <= sign <= 1 && 0x8000_0000_0000 <= norm < 0x1_0000_0000_0000 && -298 <= exp < -126
    requires v.num != 0 && SignOf(v) == sign * SIGN_BIT
    requires Abs(v.num) * Pow2(345) == (norm * Pow2(exp + 298)) * v.den
    ensures result == Binary32FromFraction(v)
  {
    hide Pow2, Bit, AnyBelow, IsRne, Abs, Binary32FromFraction, SignOf, Packed, RoundUp;
    var subnormalShift := -exp - 102;
    // The tests for shifts below 3 in this branch never fail.
    assert subnormalShift >= 25;
    Rescale(Abs(v.num), norm, v.den, 345, exp + 298, 149 + subnormalShift, 0);
    var roundedSig;
    if subnormalShift < 48 {
      roundedSig := norm / Pow2(subnormalShift);
      var guardBit := Bit(norm, subnormalShift - 1);
      var roundBit := Bit(norm, subnormalShift - 2);
      var stickyBit := false;
      AnyBelowStep(norm, 0);
      for shiftCount := 0 to 48
        invariant stickyBit == AnyBelow(norm, Min(shiftCount, subnormalShift - 2))
      {
        if shiftCount <= subnormalShift - 3 {
          AnyBelowStep(norm, shiftCount);
          stickyBit := stickyBit || Bit(norm, shiftCount);
        }
      }
      RoundsQuotient(norm, subnormalShift, 1, 0);
      roundedSig := roundedSig + RoundUp(roundedSig, guardBit, roundBit, stickyBit);
    } else {
      roundedSig := 0;
      if subnormalShift == 48 {
        // Bit 47 is the halfway bit, and it is set: only a tie stays at the even zero.
        if Bit(norm, 47) && AnyBelow(norm, 47) {
          roundedSig := 1;
        }
        HalfwayShift(norm);
      } else {
        VanishingShift(norm, subnormalShift);
      }
    }
    SubnormalRange(norm, subnormalShift, roundedSig);
    EncodesSubnormal(v, norm, 1, subnormalShift, roundedSig);
    result := PackSubnormal(sign, roundedSig);
  }

  lemma HalfwayShift(norm: nat)
    requires 0x8000_0000_0000 <= norm < 0x1_0000_0000_0000
    ensures IsRne(norm, Pow2(48), if Bit(norm, 47) && AnyBelow(norm, 47) then 1 else 0)
  {
    hide Pow2, Bit;
    Pow2Values();
    TopBit(norm, 47);
  }

  lemma VanishingShift(norm: nat, shift: nat)
    requires norm < 0x1_0000_0000_0000 && shift > 48
    ensures IsRne(norm, Pow2(shift), 0)
  {
    hide Pow2;
    Pow2Monotone(48, shift);
    Pow2Values();
  }

  lemma SubnormalRange(norm: nat, shift: nat, r: nat)
    requires norm < 0x1_0000_0000_0000 && shift >= 25 && IsRne(norm, Pow2(shift), r)
    ensures norm < HIDDEN_BIT * Pow2(shift) && r <= HIDDEN_BIT
  {
    hide Pow2, IsRne;
    Pow2Monotone(24, shift);
    Pow2Values();
    RneBounds(norm, Pow2(shift), r, HIDDEN_BIT);
  }

  /** Decoding, multiplication and normalisation of finite non-zero operands. */
  method MulFinite(a: Word, b: Word) returns (result: Word)
    requires IsFinite(a) && IsFinite(b) && !IsZero(a) && !IsZero(b)
    ensures result == Binary32FromFraction(Multiply(FiniteFraction(a), FiniteFraction(b)))
  {
    hide Pow2, Bit, Units, FiniteFraction, Binary32FromFraction, Multiply, SignOf, Abs, Decode;
    var sign := Xor(Decode(a).sign, Decode(b).sign);
    var sigA, expA := NormaliseOperand(a);
    var sigB, expB := NormaliseOperand(b);
    ghost var v := Multiply(FiniteFraction(a), FiniteFraction(b));
    ExactProduct(a, b, sigA, sigB, expA, expB);
    ProductRange(sigA, sigB);
    var product := sigA * sigB;
    var normProduct, expProduct;
    Pow2Values();
    TopBit(product, 47);
    if Bit(product, 47) {
      normProduct, expProduct := product, expA + expB + 1;
    } else {
      ShiftedProduct(product);
      normProduct, expProduct := (product * 2) % 0x1_0000_0000_0000, expA + expB;
    }
    NormalisedProduct(v, product, expA + expB, normProduct, expProduct);
    if expProduct >= -126 {
      result := MulNormal(sign, normProduct, expProduct, v);
    } else {
      result := MulSubnormal(sign, normProduct, expProduct, v);
    }
  }

  /** fp_mul. For finite operands, the exact product rounded once; a zero product is +0. */
  method FpMul(a: Word, b: Word) returns (result: Word)
    ensures result == CANONICAL_NAN ==> IsNaN(result) && Decode(result) == Fields(0, 0xFF, 0x40_0000)
    ensures IsFinite(a) && IsFinite(b) ==>
      ReferenceModel(a, b, MUL).Supported? && result == ReferenceModel(a, b, MUL).result
    ensures IsNaN(a) || IsNaN(b) ==> result == CANONICAL_NAN
    ensures (IsInfinity(a) && IsZero(b)) || (IsInfinity(b) && IsZero(a)) ==> result == CANONICAL_NAN
    ensures (IsInfinity(a) && !IsNaN(b) && !IsZero(b)) || (IsInfinity(b) && !IsNaN(a) && !IsZero(a)) ==>
      result == Encode(Xor(Decode(a).sign, Decode(b).sign), 0xFF, 0)
  {
    hide Pow2, Binary32FromFraction, FiniteFraction, Add, Negate, Divide, Decode;
    CanonicalNaN();
    var signResult := Xor(Decode(a).sign, Decode(b).sign);
    if IsNaN(a) || IsNaN(b) {
      result := CANONICAL_NAN;
    } else if (IsInfinity(a) && IsZero(b)) || (IsInfinity(b) && IsZero(a)) {
      result := CANONICAL_NAN;
    } else if IsInfinity(a) || IsInfinity(b) {
      result := Encode(signResult, 0xFF, 0);
    } else if IsZero(a) || IsZero(b) {
      ZeroProduct(a, b);
      result := 0;
    } else {
      result := MulFinite(a, b);
    }
  }

  lemma ZeroProduct(a: Word, b: Word)
    requires IsFinite(a) && IsFinite(b) && (IsZero(a) || IsZero(b))
    ensures Binary32FromFraction(Multiply(FiniteFraction(a), FiniteFraction(b))) == 0
  {
    hide Pow2, FiniteFraction, Decode, Units;
    UnitsOfFraction(a);
    UnitsOfFraction(b);
  }
}
