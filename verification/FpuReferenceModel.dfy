/** reference/fpu_reference_model.py: exact arithmetic on fractions, one rounding at
    the architectural boundary, and the contract for the operands it rejects. */
module FpuReferenceModel {
  import opened Powers
  import opened Binary32

  const ADD := 0
  const SUB := 1
  const MUL := 2
  const DIV := 3

  const NEG_ZERO: Word := 0x8000_0000

  datatype Reason = UnknownOperation | NaNOperand | InfinityOperand | ZeroOverZero | DivisionByZero

  datatype Classification = Classification(kind: Class, negative: bool)

  datatype ReferenceResult =
    | Supported(result: Word, classification: Classification)
    | Unsupported(reason: Reason)

  function Classify(bits: Word): Classification {
    var f := Decode(bits);
    Classification(f.Classify(), f.sign == 1 && f.Classify() != NaN)
  }

  predicate IsNaN(bits: Word) {
    Decode(bits).Classify() == NaN
  }

  predicate IsInfinity(bits: Word) {
    Decode(bits).Classify() == Infinity
  }

  function Add(v: Fraction, w: Fraction): Fraction {
    MulPositive(v.den, w.den);
    Ratio(v.num * w.den + w.num * v.den, v.den * w.den)
  }

  function Negate(v: Fraction): Fraction {
    Ratio(-v.num, v.den)
  }

  function Multiply(v: Fraction, w: Fraction): Fraction {
    MulPositive(v.den, w.den);
    Ratio(v.num * w.num, v.den * w.den)
  }

  /** v/w, with the sign moved to the numerator. */
  function Divide(v: Fraction, w: Fraction): Fraction
    requires w.num != 0
  {
    MulPositive(v.den, Abs(w.num));
    Ratio((if w.num < 0 then -v.num else v.num) * w.den, v.den * Abs(w.num))
  }

  function Answer(bits: Word): ReferenceResult {
    Supported(bits, Classify(bits))
  }

  /** reference_model. */
  function ReferenceModel(a: Word, b: Word, op: int): ReferenceResult {
    if op !in {ADD, SUB, MUL, DIV} then Unsupported(UnknownOperation)
    else if IsNaN(a) || IsNaN(b) then Unsupported(NaNOperand)
    else if IsInfinity(a) || IsInfinity(b) then Unsupported(InfinityOperand)
    else if op == DIV && (b == 0 || b == NEG_ZERO) then
      if a == 0 || a == NEG_ZERO then Unsupported(ZeroOverZero)
      else Answer((if Decode(a).sign != Decode(b).sign then SIGN_BIT else 0) + POS_INFINITY)
    else
      var v, w := FiniteFraction(a), FiniteFraction(b);
      if op == ADD then Answer(Binary32FromFraction(Add(v, w)))
      else if op == SUB then Answer(Binary32FromFraction(Add(v, Negate(w))))
      else if op == MUL then Answer(Binary32FromFraction(Multiply(v, w)))
      else if w.num == 0 then Unsupported(DivisionByZero)
      else Answer(Binary32FromFraction(Divide(v, w)))
  }
}
