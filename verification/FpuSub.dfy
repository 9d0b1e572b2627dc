/** rtl/fpu_sub.sv: subtraction is addition of the operand with its sign flipped. */
module FpuSub {
  import opened Powers
  import opened Binary32
  import opened FpuReferenceModel
  import opened FpuOperand
  import opened FpuAdd

  /** {~b[31], b[30:0]}. */
  function FlipSign(b: Word): (r: Word)
    ensures Decode(r) == Fields(1 - Decode(b).sign, Decode(b).exponent, Decode(b).fraction)
  {
    if b >= SIGN_BIT then b - SIGN_BIT else b + SIGN_BIT
  }

  lemma FlipSignNegates(b: Word)
    requires IsFinite(b)
    ensures FiniteFraction(FlipSign(b)) == Negate(FiniteFraction(b))
  {
    hide Pow2, Decode, FlipSign;
  }

  /** fp_sub. The only finite pair on which it and the reference differ is -0 - +0. */
  method FpSub(a: Word, b: Word) returns (result: Word)
    ensures result == CANONICAL_NAN ==> IsNaN(result) && Decode(result) == Fields(0, 0xFF, 0x40_0000)
    ensures IsFinite(a) && IsFinite(b) ==> ReferenceModel(a, b, SUB).Supported?
    ensures IsFinite(a) && IsFinite(b) ==>
      (result == ReferenceModel(a, b, SUB).result <==> !(a == NEG_ZERO && b == 0))
    ensures a == NEG_ZERO && b == 0 ==> result == NEG_ZERO
    ensures IsNaN(a) || IsNaN(b) ==> result == CANONICAL_NAN
    ensures IsInfinity(a) && IsInfinity(b) ==> result == if a != b then a else CANONICAL_NAN
    ensures IsInfinity(a) && IsFinite(b) ==> result == a
    ensures IsInfinity(b) && IsFinite(a) ==> result == FlipSign(b)
  {
    hide FiniteFraction, Binary32FromFraction, Add, Negate, Decode;
    Recompose(a);
    Recompose(b);
    var negB := FlipSign(b);
    Recompose(negB);
    result := FpAdd(a, negB);
    if IsFinite(a) && IsFinite(b) {
      FlipSignNegates(b);
    }
  }
}
