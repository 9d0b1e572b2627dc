/** The sign of products and quotients. IEEE 754-2019, section 6.3, makes it the exclusive OR of
    the operands' signs, for results that are zero too. The project's contract makes a zero
    product and the quotient of a zero dividend +0, and this is the only exception. */
module FpuSigns {
  import opened Powers
  import opened Rounding
  import opened Binary32
  import opened Magnitudes
  import opened FpuReferenceModel
  import opened FpuOperand
  import opened FpuMul
  import opened FpuDiv
  import opened Binary32Properties

  /** The encoding of a nonzero fraction has its sign, also when it underflows to zero or overflows. */
  lemma EncodedSign(v: Fraction)
    requires v.num != 0
    ensures Decode(Binary32FromFraction(v)).sign == if v.num < 0 then 1 else 0
  {
    hide Pow2, Binary32FromFraction, IsRne, InBinade;
    var e, r := EncodingOf(v);
    var magnitude := Packed(e, r);
    TopOfPacked(Binary32FromFraction(v), if v.num < 0 then 1 else 0, magnitude);
  }

  lemma TopOfPacked(bits: Word, sign: int, magnitude: int)
    requires bits == sign * SIGN_BIT + magnitude && 0 <= sign <= 1 && 0 <= magnitude <= POS_INFINITY
    ensures Decode(bits).sign == sign
  {
  }

  /** The sign of a nonzero operand is the sign of its value. */
  lemma OperandSign(a: Word)
    requires IsFinite(a) && !IsZero(a)
    ensures FiniteFraction(a).num != 0 && (FiniteFraction(a).num < 0 <==> Decode(a).sign == 1)
  {
    hide Pow2, FiniteFraction, Units, Decode;
    UnitsOfFraction(a);
  }

  /** Products of finite operands: the sign rule holds if and only if not both an operand is zero
      and the signs differ. */
  lemma ProductSignIff(a: Word, b: Word)
    requires IsFinite(a) && IsFinite(b)
    ensures ReferenceModel(a, b, MUL).Supported?
    ensures Decode(ReferenceModel(a, b, MUL).result).sign == Xor(Decode(a).sign, Decode(b).sign) <==>
            !((IsZero(a) || IsZero(b)) && Decode(a).sign != Decode(b).sign)
  {
    hide Pow2, FiniteFraction, Binary32FromFraction;
    if IsZero(a) || IsZero(b) {
      ZeroProduct(a, b);
    } else {
      OperandSign(a);
      OperandSign(b);
      ProductSign(FiniteFraction(a).num, FiniteFraction(b).num);
      EncodedSign(Multiply(FiniteFraction(a), FiniteFraction(b)));
    }
  }

  /** Quotients of finite operands other than 0/0: the sign rule holds, infinity for a zero divisor
      included, if and only if not both the dividend is zero and the signs differ. */
  lemma QuotientSignIff(a: Word, b: Word)
    requires IsFinite(a) && IsFinite(b) && !(IsZero(a) && IsZero(b))
    ensures ReferenceModel(a, b, DIV).Supported?
    ensures Decode(ReferenceModel(a, b, DIV).result).sign == Xor(Decode(a).sign, Decode(b).sign) <==>
            !(IsZero(a) && Decode(a).sign != Decode(b).sign)
  {
    hide Pow2, FiniteFraction, Binary32FromFraction;
    Recompose(a);
    Recompose(b);
    if IsZero(b) {
      var sign := Xor(Decode(a).sign, Decode(b).sign);
      TopOfPacked(sign * SIGN_BIT + POS_INFINITY, sign, POS_INFINITY);
    } else if IsZero(a) {
      ZeroDividend(a, b);
    } else {
      OperandSign(a);
      OperandSign(b);
      QuotientSign(FiniteFraction(a).num, FiniteFraction(b).num, FiniteFraction(b).den);
      EncodedSign(Divide(FiniteFraction(a), FiniteFraction(b)));
    }
  }

  const ONE: Word := 0x3F80_0000

  /** Inputs on which the rule fails: -0 times 1 and -0 divided by 1 are +0. */
  lemma SignRuleFails()
    ensures ReferenceModel(NEG_ZERO, ONE, MUL) == Answer(0)
    ensures ReferenceModel(NEG_ZERO, ONE, DIV) == Answer(0)
    ensures Xor(Decode(NEG_ZERO).sign, Decode(ONE).sign) == 1
  {
    hide Pow2, FiniteFraction, Binary32FromFraction, Multiply, Divide;
    ZeroProduct(NEG_ZERO, ONE);
    ZeroDividend(NEG_ZERO, ONE);
  }
}
