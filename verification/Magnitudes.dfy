/** The value of a finite encoding as a whole number of units of 2^-149, the
    smallest subnormal. Every finite binary32 value is such a number. */
module Magnitudes {
  import opened Powers
  import opened Rounding
  import opened Binary32

  /** Significand of an encoding, with the hidden bit of a normal number. */
  function Significand(bits: Word): (m: nat)
    ensures m < 2 * HIDDEN_BIT
  {
    var f := Decode(bits);
    if f.exponent == 0 then f.fraction else HIDDEN_BIT + f.fraction
  }

  /** Exponent used for alignment: a subnormal shares the exponent of the smallest normal. */
  function EffectiveExponent(bits: Word): (e: nat)
    ensures 1 <= e <= 255
  {
    var f := Decode(bits);
    if f.exponent == 0 then 1 else f.exponent
  }

  /** |value| of the encoding in units of 2^-149. */
  function Units(bits: Word): (u: nat) {
    MulPositive(Significand(bits), Pow2(EffectiveExponent(bits) - 1));
    Significand(bits) * Pow2(EffectiveExponent(bits) - 1)
  }

  function SignedUnits(bits: Word): int {
    var u: int := Units(bits);
    if Decode(bits).sign == 1 then -u else u
  }

  lemma UnitsOfFraction(bits: Word)
    requires IsFinite(bits)
    ensures FiniteFraction(bits).num * Pow2(149) == SignedUnits(bits) * FiniteFraction(bits).den
    ensures FiniteFraction(bits).num == 0 <==> IsZero(bits)
    ensures Units(bits) == 0 <==> IsZero(bits)
    ensures FiniteFraction(bits).num < 0 <==> SignedUnits(bits) < 0
    ensures !IsZero(bits) ==> (SignedUnits(bits) < 0 <==> Decode(bits).sign == 1)
  {
    hide Pow2;
    var e, m := EffectiveExponent(bits), Significand(bits);
    MulPositive(m, Pow2(e - 1));
    if e >= 150 {
      Pow2Add(e - 150, 149);
      Assoc(m, Pow2(e - 150), Pow2(149));
      MulPositive(m, Pow2(e - 150));
    } else {
      Pow2Add(e - 1, 150 - e);
      Assoc(m, Pow2(e - 1), Pow2(150 - e));
    }
  }

  /** Magnitude bits alone, packed: units determine exponent and fraction fields. */
  lemma PackedSelf(bits: Word)
    requires IsFinite(bits)
    ensures bits == Decode(bits).sign * SIGN_BIT + Packed(EffectiveExponent(bits), Significand(bits))
  {
  }

  lemma SignsAgree(n: int, k: int, s: int, d: int)
    requires n * k == s * d && k > 0 && d > 0
    ensures (n < 0 <==> s < 0) && (n == 0 <==> s == 0) && Abs(n) * k == Abs(s) * d
  {
    MulOrder(n, 0, k);
    MulOrder(s, 0, d);
    assert (-n) * k == -(n * k) && (-s) * d == -(s * d);
  }

  /** The reference encodes s units by rounding in the binade of |s|. */
  lemma EncodesSigned(v: Fraction, s: int, e: nat)
    requires v.num * Pow2(149) == s * v.den && s != 0 && e >= 1 && InBinade(Abs(s), 1, e)
    ensures Binary32FromFraction(v) == (if s < 0 then SIGN_BIT else 0)
            + Packed(e, RoundToNearestEven(Abs(s), Pow2(e - 1)))
  {
    hide Pow2, IsRne, RoundToNearestEven, Binary32FromFraction, InBinade;
    SignsAgree(v.num, Pow2(149), s, v.den);
    RneHolds(Abs(s), Pow2(e - 1));
    Encodes(v, Abs(s), 1, e, RoundToNearestEven(Abs(s), Pow2(e - 1)));
  }

  /** A finite encoding is its own binade and its own rounding. */
  lemma ExactRounding(bits: Word)
    requires IsFinite(bits) && !IsZero(bits)
    ensures InBinade(Units(bits), 1, EffectiveExponent(bits))
    ensures RoundToNearestEven(Units(bits), Pow2(EffectiveExponent(bits) - 1)) == Significand(bits)
  {
    hide Pow2, RoundToNearestEven;
    var m, p := Significand(bits), Pow2(EffectiveExponent(bits) - 1);
    RneOfMultiple(m, p);
    MulOrder(HIDDEN_BIT, m, p);
    MulOrder(m, 2 * HIDDEN_BIT, p);
  }

  lemma RneOfMultiple(m: nat, p: nat)
    requires p > 0
    ensures m * p >= 0 && RoundToNearestEven(m * p, p) == m
  {
    MulPositive(m, p);
    DivUnique(m * p, p, m);
  }

  /** Whatever fraction has the value of a nonzero finite encoding is encoded back to it. */
  lemma RoundTripValue(bits: Word, v: Fraction)
    requires IsFinite(bits) && !IsZero(bits)
    requires v.num * Pow2(149) == SignedUnits(bits) * v.den
    ensures Binary32FromFraction(v) == bits
  {
    hide Pow2, RoundToNearestEven, Binary32FromFraction, InBinade, FiniteFraction, Decode;
    UnitsOfFraction(bits);
    PackedSelf(bits);
    ExactRounding(bits);
    EncodesSigned(v, SignedUnits(bits), EffectiveExponent(bits));
  }
}
