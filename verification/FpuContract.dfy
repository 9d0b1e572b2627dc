/** What the classes, the operation codes and the rejected operands of the reference stand for, in
    terms of values: reference/binary32.py and reference/fpu_reference_model.py. */
module FpuContract {
  import opened Powers
  import opened Binary32
  import opened Magnitudes
  import opened FpuReferenceModel
  import opened FpuOperand
  import opened FpuAdd
  import opened Binary32Properties

  /** The five classes by value: zero, below and from the smallest normal 2^23 * 2^-149 on, the two
      infinities, and the rest. */
  lemma ClassByValue(bits: Word)
    ensures var kind := Decode(bits).Classify();
      && (kind == Zero <==> IsFinite(bits) && Units(bits) == 0)
      && (kind == Subnormal <==> IsFinite(bits) && 0 < Units(bits) < 0x80_0000)
      && (kind == Normal <==> IsFinite(bits) && Units(bits) >= 0x80_0000)
      && (kind == Infinity <==> bits == 0x7F80_0000 || bits == 0xFF80_0000)
      && (kind == NaN <==> !IsFinite(bits) && bits != 0x7F80_0000 && bits != 0xFF80_0000)
  {
    hide Pow2;
    Recompose(bits);
    Pow2Zero();
    var e := EffectiveExponent(bits);
    if Decode(bits).exponent > 0 {
      Pow2Monotone(0, e - 1);
      MulOrder(1, Pow2(e - 1), Significand(bits));
    }
  }

  /** The sign of a classification is that of the sign bit, except that a NaN has none. */
  lemma ClassSign(bits: Word)
    ensures Classify(bits).kind == Decode(bits).Classify()
    ensures Classify(bits).negative <==> bits >= 0x8000_0000 && (IsFinite(bits) || bits == 0xFF80_0000)
  {
    Recompose(bits);
  }

  /** The reference answers exactly for the codes 0 to 3 of ADD, SUB, MUL and DIV and finite operands,
      0/0 excepted, and reports the class of its answer. */
  lemma SupportedIff(a: Word, b: Word, op: int)
    ensures ReferenceModel(a, b, op).Supported? <==>
            0 <= op <= 3 && IsFinite(a) && IsFinite(b) && !(op == 3 && IsZero(a) && IsZero(b))
    ensures ReferenceModel(a, b, op).Supported? ==>
              ReferenceModel(a, b, op).classification == Classify(ReferenceModel(a, b, op).result)
  {
    hide Binary32FromFraction, FiniteFraction, Add, Negate, Multiply, Divide, Units, Pow2;
    Recompose(a);
    Recompose(b);
    if IsFinite(b) {
      UnitsOfFraction(b);
    }
  }

  /** Why it does not answer: the code is looked at first, then NaN, then infinity, then 0/0. */
  lemma RejectedFor(a: Word, b: Word, op: int)
    ensures !(0 <= op <= 3) ==> ReferenceModel(a, b, op) == Unsupported(UnknownOperation)
    ensures 0 <= op <= 3 && (IsNaN(a) || IsNaN(b)) ==> ReferenceModel(a, b, op) == Unsupported(NaNOperand)
    ensures 0 <= op <= 3 && !IsNaN(a) && !IsNaN(b) && (IsInfinity(a) || IsInfinity(b)) ==>
              ReferenceModel(a, b, op) == Unsupported(InfinityOperand)
    ensures IsZero(a) && IsZero(b) ==> ReferenceModel(a, b, 3) == Unsupported(ZeroOverZero)
  {
    hide Binary32FromFraction, FiniteFraction, Add, Negate, Multiply, Divide;
    Recompose(a);
    Recompose(b);
  }

  /** A finite number that is not zero, divided by zero, is infinity with the XOR of the signs. */
  lemma DividesByZero(a: Word, b: Word)
    requires IsFinite(a) && !IsZero(a) && IsZero(b)
    ensures ReferenceModel(a, b, 3).Supported?
    ensures ReferenceModel(a, b, 3).result ==
            if (a >= 0x8000_0000) == (b >= 0x8000_0000) then 0x7F80_0000 else 0xFF80_0000
  {
    hide Binary32FromFraction, FiniteFraction, Add, Negate, Multiply, Divide;
    Recompose(a);
    Recompose(b);
  }

  // ----------------------------------------------------------------------
  // The order of encodings
  // ----------------------------------------------------------------------

  /** Among encodings of one sign the order of the bits is the order of the magnitudes. */
  lemma MagnitudeOrder(a: Word, b: Word)
    requires IsFinite(a) && IsFinite(b) && a % 0x8000_0000 < b % 0x8000_0000
    ensures Units(a) < Units(b)
  {
    hide Pow2, Units;
    Recompose(a);
    Recompose(b);
    SameExponent(a, b);
    if EffectiveExponent(a) < EffectiveExponent(b) {
      LargerExponent(b, a);
    }
  }

  lemma SameExponent(a: Word, b: Word)
    requires IsFinite(a) && IsFinite(b) && a % 0x8000_0000 < b % 0x8000_0000
    ensures EffectiveExponent(a) <= EffectiveExponent(b)
    ensures EffectiveExponent(a) == EffectiveExponent(b) ==> Units(a) < Units(b)
  {
    hide Pow2;
    MagnitudeBits(a);
    MagnitudeBits(b);
    MulOrder(Significand(a), Significand(b), Pow2(EffectiveExponent(a) - 1));
  }

  lemma MagnitudeBits(a: Word)
    ensures a % 0x8000_0000 == Decode(a).exponent * 0x80_0000 + Decode(a).fraction
  {
    Recompose(a);
    DivUnique(a, 0x8000_0000, Decode(a).sign);
  }

  /** The key by which the encoder is monotone orders the finite encodings by value, and puts the
      infinities at the two ends. */
  lemma KeyIsValueOrder(a: Word, b: Word)
    requires IsFinite(a)
    ensures IsFinite(b) ==> (OrderKey(a) <= OrderKey(b) <==> SignedUnits(a) <= SignedUnits(b))
    ensures OrderKey(0xFF80_0000) < OrderKey(a) < OrderKey(0x7F80_0000)
  {
    hide Pow2, Units;
    MagnitudeBits(a);
    Recompose(a);
    if IsFinite(b) {
      MagnitudeBits(b);
      Recompose(b);
      SignsTell(a);
      SignsTell(b);
      if a % 0x8000_0000 < b % 0x8000_0000 {
        MagnitudeOrder(a, b);
      } else if b % 0x8000_0000 < a % 0x8000_0000 {
        MagnitudeOrder(b, a);
      } else {
        SameMagnitude(a, b);
      }
    }
  }

  lemma SignsTell(a: Word)
    requires IsFinite(a)
    ensures Units(a) == 0 <==> a % 0x8000_0000 == 0
    ensures Decode(a).sign == 1 <==> a >= 0x8000_0000
  {
    hide Pow2, Units;
    MagnitudeBits(a);
    Recompose(a);
    UnitsOfFraction(a);
  }

  lemma SameMagnitude(a: Word, b: Word)
    requires a % 0x8000_0000 == b % 0x8000_0000
    ensures Units(a) == Units(b)
  {
    hide Pow2;
    MagnitudeBits(a);
    MagnitudeBits(b);
  }
}
