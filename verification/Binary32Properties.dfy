/** What the reference encoder promises, proved of every fraction: it is correctly
    rounded, overflows at exactly one threshold, is monotone and odd, and inverts
    exact_fraction. */
module Binary32Properties {
  import opened Powers
  import opened Rounding
  import opened Binary32
  import opened Magnitudes
  import opened FpuReferenceModel

  /** |v - value of bits|, in units of 2^-149 divided by the denominator of v. */
  ghost function Distance(v: Fraction, bits: Word): nat {
    Abs(v.num * Pow2(149) - SignedUnits(bits) * v.den)
  }

  /** Position of an encoding on the number line; both zeros are at 0. */
  function OrderKey(bits: Word): int {
    if bits >= SIGN_BIT then SIGN_BIT - bits else bits
  }

  predicate SameValue(v: Fraction, w: Fraction) {
    v.num * w.den == w.num * v.den
  }

  /** The binade and the rounding that the encoder works with. */
  lemma EncodingOf(v: Fraction) returns (e: nat, r: nat)
    requires v.num != 0
    ensures e >= 1 && InBinade(Abs(v.num) * Pow2(149), v.den, e)
    ensures IsRne(Abs(v.num) * Pow2(149), v.den * Pow2(e - 1), r)
    ensures r <= 2 * HIDDEN_BIT && (e > 1 ==> r >= HIDDEN_BIT)
    ensures 0 <= Packed(e, r) <= POS_INFINITY && Binary32FromFraction(v) == SignOf(v) + Packed(e, r)
  {
    hide Pow2, IsRne, RoundToNearestEven, Binary32FromFraction, FloorLog2;
    var n, d := Abs(v.num), v.den;
    var exponent := FloorLog2(n, d);
    FloorLog2Units(n, d);
    MulPositive(n, Pow2(149));
    if exponent >= MIN_NORMAL_E {
      HiddenBitUnits(d, exponent);
      e := exponent + 127;
    } else {
      BelowNormal(n, d, exponent);
      Pow2Zero();
      e := 1;
    }
    MulPositive(d, Pow2(e - 1));
    r := RoundToNearestEven(n * Pow2(149), d * Pow2(e - 1));
    RneHolds(n * Pow2(149), d * Pow2(e - 1));
    RneBounds(n * Pow2(149), d * Pow2(e - 1), r, HIDDEN_BIT);
    RneBounds(n * Pow2(149), d * Pow2(e - 1), r, 2 * HIDDEN_BIT);
    EncodesUnits(v, e, r);
  }

  /** A finite packed encoding has value r * 2^(e-1) units, also when r carried into the exponent. */
  lemma PackedUnits(bits: Word, e: nat, r: nat, sign: int)
    requires e >= 1 && r <= 2 * HIDDEN_BIT && (e > 1 ==> r >= HIDDEN_BIT) && 0 <= sign <= 1
    requires (e - 1) * HIDDEN_BIT + r < POS_INFINITY && bits == sign * SIGN_BIT + ((e - 1) * HIDDEN_BIT + r)
    ensures IsFinite(bits) && Decode(bits).sign == sign && Units(bits) == r * Pow2(e - 1)
  {
    hide Pow2;
    Pow2Step(e);
    if r == 2 * HIDDEN_BIT {
      assert Decode(bits) == Fields(sign, e + 1, 0);
      Assoc(HIDDEN_BIT, 2, Pow2(e - 1));
    } else if r >= HIDDEN_BIT {
      assert Decode(bits) == Fields(sign, e, r - HIDDEN_BIT);
    } else {
      assert Decode(bits) == Fields(sign, 0, r);
    }
  }

  /** No integer is closer to n/d than its rounding; one as close makes the rounding even. */
  lemma RneNearest(n: int, d: int, r: int, k: int)
    requires d > 0 && IsRne(n, d, r)
    ensures Abs(n - k * d) >= Abs(n - r * d)
    ensures Abs(n - k * d) == Abs(n - r * d) && k != r ==> r % 2 == 0
  {
    assert (2 * r - 1) * d == 2 * (r * d) - d && (2 * r + 1) * d == 2 * (r * d) + d;
    if k < r {
      MulOrder(k + 1, r, d);
      assert (k + 1) * d == k * d + d;
    } else if k > r {
      MulOrder(r + 1, k, d);
      assert (r + 1) * d == r * d + d;
    }
  }

  /** Either x is a multiple of the unit of binade e, or it lies below the binade. */
  lemma UnitGrid(x: Word, e: nat) returns (k: nat)
    requires IsFinite(x) && e >= 1
    ensures Units(x) == k * Pow2(e - 1) || (e > 1 && Units(x) < HIDDEN_BIT * Pow2(e - 1))
  {
    hide Pow2;
    var ex := EffectiveExponent(x);
    if ex >= e {
      MulPositive(Significand(x), Pow2(ex - e));
      k := Significand(x) * Pow2(ex - e);
      Pow2Add(ex - e, e - 1);
      Assoc(Significand(x), Pow2(ex - e), Pow2(e - 1));
    } else {
      k := 0;
      Pow2Monotone(ex - 1, e - 1);
      MulOrder(Significand(x), 2 * HIDDEN_BIT, Pow2(ex - 1));
      MulOrder(2 * Pow2(ex - 1), Pow2(e - 1), HIDDEN_BIT);
    }
  }

  /** u is no farther from n/d than u', and if it is as near and another number, then even holds. */
  ghost predicate NoFarther(n: nat, d: nat, u: nat, u': nat, even: bool) {
    && Abs(n - u' * d) >= Abs(n - u * d)
    && (Abs(n - u' * d) == Abs(n - u * d) && u' != u ==> even)
  }

  /** Among encodings of the same sign, the rounding is nearest. */
  lemma NearestMagnitude(n: nat, d: nat, e: nat, r: nat, u: nat, x: Word)
    requires d > 0 && InBinade(n, d, e) && IsRne(n, d * Pow2(e - 1), r) && IsFinite(x) && u == r * Pow2(e - 1)
    ensures NoFarther(n, d, u, Units(x), r % 2 == 0)
  {
    hide Pow2, IsRne, Units, NoFarther;
    var g := Pow2(e - 1);
    MulPositive(d, g);
    var k := UnitGrid(x, e);
    if Units(x) == k * g {
      OnGrid(n, d, g, r, k);
    } else {
      BelowGrid(n, d, g, r, Units(x));
    }
  }

  lemma OnGrid(n: nat, d: nat, g: nat, r: nat, k: nat)
    requires d * g > 0 && IsRne(n, d * g, r)
    ensures r * g >= 0 && k * g >= 0 && NoFarther(n, d, r * g, k * g, r % 2 == 0)
  {
    hide IsRne;
    MulPositive(r, g);
    MulPositive(k, g);
    ThreeFactors(r, g, d);
    ThreeFactors(k, g, d);
    RneNearest(n, d * g, r, k);
  }

  /** Below the binade of n/d, no number is as near as its lowest one. */
  lemma BelowGrid(n: nat, d: nat, g: nat, r: nat, u: nat)
    requires g > 0 && d * g > 0 && IsRne(n, d * g, r) && u < HIDDEN_BIT * g && HIDDEN_BIT * (d * g) <= n && d > 0
    ensures r * g >= 0 && NoFarther(n, d, r * g, u, r % 2 == 0)
  {
    hide IsRne;
    MulPositive(r, g);
    ThreeFactors(r, g, d);
    ThreeFactors(HIDDEN_BIT, g, d);
    MulOrder(u, HIDDEN_BIT * g, d);
    RneNearest(n, d * g, r, HIDDEN_BIT);
  }

  lemma ThreeFactors(k: int, g: int, d: int)
    ensures (k * g) * d == k * (d * g)
  {
  }

  /** binary32_from_fraction is correctly rounded: no finite encoding is closer to v than a
      finite result, and a result with an equally close rival has an even significand. */
  lemma CorrectlyRounded(v: Fraction, x: Word)
    requires IsFinite(Binary32FromFraction(v)) && IsFinite(x)
    ensures Distance(v, x) >= Distance(v, Binary32FromFraction(v))
    ensures (Distance(v, x) == Distance(v, Binary32FromFraction(v))
             && SignedUnits(x) != SignedUnits(Binary32FromFraction(v))) ==> Binary32FromFraction(v) % 2 == 0
  {
    hide Pow2, IsRne, Binary32FromFraction, Units, Decode, Distance, InBinade, Abs, Packed, NoFarther, SignedUnits;
    var result := Binary32FromFraction(v);
    if v.num == 0 {
      ZeroIsExact(v);
    } else {
      var e, r := EncodingOf(v);
      var sign := if v.num < 0 then 1 else 0;
      FiniteIsBelowInfinity(result, sign, e, r);
      PackedUnits(result, e, r, sign);
      PackedParity(result, e, r, sign);
      MulPositive(Abs(v.num), Pow2(149));
      UnitsOfZero();
      NearestMagnitude(Abs(v.num) * Pow2(149), v.den, e, r, Units(result), x);
      NearestMagnitude(Abs(v.num) * Pow2(149), v.den, e, r, Units(result), 0);
      NearestSigned(v, x, result, Abs(v.num) * Pow2(149), r % 2 == 0);
    }
  }

  lemma PackedParity(bits: Word, e: nat, r: nat, sign: int)
    requires e >= 1 && bits == sign * SIGN_BIT + ((e - 1) * HIDDEN_BIT + r)
    ensures bits % 2 == r % 2
  {
  }

  /** Nearest among magnitudes, zero included, is nearest among signed values. */
  lemma NearestSigned(v: Fraction, x: Word, result: Word, n: nat, even: bool)
    requires v.num != 0 && (Decode(result).sign == 1 <==> v.num < 0) && n == Abs(v.num) * Pow2(149)
    requires NoFarther(n, v.den, Units(result), 0, even) && NoFarther(n, v.den, Units(result), Units(x), even)
    ensures Distance(v, x) >= Distance(v, result)
    ensures Distance(v, x) == Distance(v, result) && SignedUnits(x) != SignedUnits(result) ==> even
  {
    hide Pow2, Units, Decode, Distance, Abs;
    FoldSigns(v, x, result);
  }

  lemma UnitsOfZero()
    ensures Units(0) == 0 && SignedUnits(0) == 0 && IsFinite(0)
  {
  }

  lemma ZeroIsExact(v: Fraction)
    requires v.num == 0
    ensures Binary32FromFraction(v) == 0 && Distance(v, 0) == 0
  {
    UnitsOfZero();
  }

  lemma FiniteIsBelowInfinity(bits: Word, sign: int, e: nat, r: nat)
    requires IsFinite(bits) && bits == sign * SIGN_BIT + Packed(e, r) && 0 <= sign <= 1
    requires 0 <= Packed(e, r) <= POS_INFINITY
    ensures (e - 1) * HIDDEN_BIT + r < POS_INFINITY && Packed(e, r) == (e - 1) * HIDDEN_BIT + r
  {
  }

  /** An encoding of the other sign is at least as far from v as zero is. */
  lemma FoldSigns(v: Fraction, x: Word, result: Word)
    requires v.num != 0 && (Decode(result).sign == 1 <==> v.num < 0)
    requires Abs(Abs(v.num) * Pow2(149) - 0 * v.den) >= Abs(Abs(v.num) * Pow2(149) - Units(result) * v.den)
    ensures Distance(v, result) == Abs(Abs(v.num) * Pow2(149) - Units(result) * v.den)
    ensures Decode(x).sign == Decode(result).sign || Units(x) == 0 ==>
      Distance(v, x) == Abs(Abs(v.num) * Pow2(149) - Units(x) * v.den)
    ensures Decode(x).sign != Decode(result).sign && Units(x) != 0 ==> Distance(v, x) > Distance(v, result)
  {
    hide Pow2, Units, Decode;
    SignedProduct(Abs(v.num), v.num < 0, Pow2(149));
    SignedProduct(Units(x), Decode(x).sign == 1, v.den);
    SignedProduct(Units(result), Decode(result).sign == 1, v.den);
    SignedDistances(Abs(v.num) * Pow2(149), v.num < 0, Units(x) * v.den, Decode(x).sign == 1, Units(result) * v.den);
    MulPositive(Units(x), v.den);
    MulPositive(Units(result), v.den);
    MulPositive(Abs(v.num), Pow2(149));
  }

  function Signed(u: int, negative: bool): int {
    if negative then -u else u
  }

  lemma SignedProduct(u: int, negative: bool, d: int)
    ensures Signed(u, negative) * d == Signed(u * d, negative)
  {
  }

  lemma SignedDistances(a: int, negative: bool, x: int, negativeX: bool, r: int)
    ensures Abs(Signed(a, negative) - Signed(r, negative)) == Abs(a - r)
    ensures negativeX == negative || x == 0 ==> Abs(Signed(a, negative) - Signed(x, negativeX)) == Abs(a - x)
    ensures negativeX != negative && a > 0 && x > 0 ==> Abs(Signed(a, negative) - Signed(x, negativeX)) > a
  {
  }

  /** The result is infinite exactly when |v| >= 2^128 - 2^103, halfway past the largest finite value. */
  lemma OverflowThreshold(v: Fraction)
    ensures !IsFinite(Binary32FromFraction(v)) <==> Abs(v.num) >= (Pow2(128) - Pow2(103)) * v.den
    ensures !IsFinite(Binary32FromFraction(v)) ==> Binary32FromFraction(v) == SignOf(v) + POS_INFINITY
  {
    hide Pow2, IsRne, Binary32FromFraction, Units, Decode, InBinade;
    Pow2Monotone(103, 128);
    if v.num == 0 {
      ZeroIsExact(v);
      UnitsOfZero();
      MulPositive(Pow2(128) - Pow2(103), v.den);
    } else {
      var e, r := EncodingOf(v);
      PackedIsFinite(Binary32FromFraction(v), if v.num < 0 then 1 else 0, Packed(e, r));
      ThresholdInBinade(Abs(v.num) * Pow2(149), v.den, e, r);
      ThresholdUnits(Abs(v.num), v.den);
    }
  }

  lemma PackedIsFinite(bits: Word, sign: int, magnitude: int)
    requires bits == sign * SIGN_BIT + magnitude && 0 <= sign <= 1 && 0 <= magnitude <= POS_INFINITY
    ensures IsFinite(bits) <==> magnitude < POS_INFINITY
  {
  }

  /** The threshold in units: 2^277 - 2^252 is (2^25 - 1) * 2^252. */
  lemma ThresholdUnits(n: nat, d: nat)
    requires d > 0
    ensures n >= (Pow2(128) - Pow2(103)) * d <==> n * Pow2(149) >= (0x1FF_FFFF * Pow2(252)) * d
  {
    hide Pow2;
    var t := Pow2(128) - Pow2(103);
    Pow2Add(25, 103);
    Pow2Add(25, 252);
    Pow2Add(128, 149);
    Pow2Add(103, 149);
    Pow2Step(25);
    Pow2Values();
    Distribute(Pow2(128), Pow2(103), Pow2(149));
    assert t * Pow2(149) == 0x1FF_FFFF * Pow2(252);
    assert (t * d) * Pow2(149) == (t * Pow2(149)) * d;
    MulOrder(t * d, n, Pow2(149));
  }

  lemma ThresholdInBinade(x: nat, d: nat, e: nat, r: nat)
    requires d > 0 && InBinade(x, d, e) && IsRne(x, d * Pow2(e - 1), r)
    requires r <= 2 * HIDDEN_BIT && (e > 1 ==> r >= HIDDEN_BIT)
    ensures (e - 1) * HIDDEN_BIT + r >= POS_INFINITY <==> x >= (0x1FF_FFFF * Pow2(252)) * d
  {
    hide Pow2, IsRne;
    UnitOfBinade(d, e);
    MulPositive(d, Pow2(252));
    assert (0x1FF_FFFF * Pow2(252)) * d == 0x1FF_FFFF * (d * Pow2(252));
    if e == 254 {
      RneTopBinade(x, d * Pow2(252), r);
    }
  }

  lemma UnitOfBinade(d: nat, e: nat)
    requires d > 0 && e >= 1
    ensures var y := d * Pow2(252);
      if e > 254 then d * Pow2(e - 1) >= 4 * y else if e < 254 then d * Pow2(e - 1) <= y else d * Pow2(e - 1) == 2 * y
  {
    hide Pow2;
    DoublePower(d, 253);
    DoublePower(d, 254);
    if e > 254 {
      Pow2Monotone(254, e - 1);
      MulOrder(Pow2(254), Pow2(e - 1), d);
    } else if e < 254 {
      Pow2Monotone(e - 1, 252);
      MulOrder(Pow2(e - 1), Pow2(252), d);
    }
  }

  lemma RneTopBinade(x: nat, y: nat, r: nat)
    requires y > 0 && IsRne(x, 2 * y, r) && r <= 2 * HIDDEN_BIT
    ensures r == 2 * HIDDEN_BIT <==> x >= 0x1FF_FFFF * y
  {
    assert (2 * r - 1) * (2 * y) == 2 * ((2 * r - 1) * y) && (2 * r + 1) * (2 * y) == 2 * ((2 * r + 1) * y);
    if r < 2 * HIDDEN_BIT {
      MulOrder(2 * r + 1, 0x1FF_FFFF, y);
    }
  }

  /** The encoder depends on the value of the fraction only, not on how it is written. */
  lemma RepresentationIndependent(v: Fraction, w: Fraction)
    requires SameValue(v, w)
    ensures Binary32FromFraction(v) == Binary32FromFraction(w)
  {
    hide Pow2, IsRne, Binary32FromFraction, InBinade;
    SignsAgree(v.num, w.den, w.num, v.den);
    if v.num == 0 {
      ZeroIsExact(v);
      ZeroIsExact(w);
    } else {
      var e, r := EncodingOf(v);
      CrossUnits(Abs(v.num), v.den, Abs(w.num), w.den, Pow2(149));
      Encodes(w, Abs(v.num) * Pow2(149), v.den, e, r);
    }
  }

  lemma CrossUnits(n: int, d: int, n': int, d': int, k: int)
    requires n * d' == n' * d
    ensures (n' * k) * d == (n * k) * d'
  {
    assert (n' * k) * d == (n' * d) * k && (n * k) * d' == (n * d') * k;
  }

  /** Negating a nonzero fraction flips the sign bit of its encoding and nothing else. */
  lemma NegationFlipsSign(v: Fraction)
    requires v.num != 0
    ensures Binary32FromFraction(Negate(v)) ==
            (if v.num > 0 then Binary32FromFraction(v) + SIGN_BIT else Binary32FromFraction(v) - SIGN_BIT)
  {
    hide Pow2, IsRne, Binary32FromFraction, InBinade;
    var e, r := EncodingOf(v);
    EncodesUnits(Negate(v), e, r);
  }

  /** A larger magnitude is encoded no lower, within a binade or across binades. */
  lemma MonotoneMagnitude(v: Fraction, w: Fraction)
    requires 0 < v.num && 0 < w.num && v.num * w.den <= w.num * v.den
    ensures Binary32FromFraction(v) <= Binary32FromFraction(w) <= POS_INFINITY
  {
    hide Pow2, IsRne, Binary32FromFraction, InBinade;
    var e, r := EncodingOf(v);
    var e', r' := EncodingOf(w);
    var x, x' := v.num * Pow2(149), w.num * Pow2(149);
    CrossOrder(v.num, v.den, w.num, w.den, Pow2(149));
    MulPositive(v.num, Pow2(149));
    MulPositive(w.num, Pow2(149));
    BinadeOrder(x, v.den, e, x', w.den, e');
    if e == e' {
      CommonDenominator(x, v.den, x', w.den, Pow2(e - 1), r, r');
    }
  }

  lemma CrossOrder(n: int, d: int, n': int, d': int, k: int)
    requires n * d' <= n' * d && k > 0
    ensures (n * k) * d' <= (n' * k) * d
  {
    MulOrder(n * d', n' * d, k);
    assert (n * k) * d' == (n * d') * k && (n' * k) * d == (n' * d) * k;
  }

  lemma BinadeOrder(x: int, d: int, e: nat, x': int, d': int, e': nat)
    requires d > 0 && d' > 0 && x * d' <= x' * d && InBinade(x, d, e) && InBinade(x', d', e')
    ensures e <= e'
  {
    hide Pow2;
    if e' < e {
      var p, p' := Pow2(e - 1), Pow2(e' - 1);
      Pow2Monotone(e' - 1, e - 1);
      BinadesApart(d, p, d', p');
      MulOrder(HIDDEN_BIT * (d * p), x, d');
      MulOrder(x', 2 * HIDDEN_BIT * (d' * p'), d);
      assert false;
    }
  }

  lemma BinadesApart(d: int, p: int, d': int, p': int)
    requires d > 0 && d' > 0 && 2 * p' <= p
    ensures (2 * HIDDEN_BIT * (d' * p')) * d <= (HIDDEN_BIT * (d * p)) * d'
  {
    MulPositive(d, d');
    MulOrder(2 * p', p, d * d');
    assert (HIDDEN_BIT * (d * p)) * d' == HIDDEN_BIT * (p * (d * d'));
    assert (2 * HIDDEN_BIT * (d' * p')) * d == HIDDEN_BIT * ((2 * p') * (d * d'));
  }

  lemma CommonDenominator(x: int, d: int, x': int, d': int, p: int, r: int, r': int)
    requires d > 0 && d' > 0 && p > 0 && x * d' <= x' * d && IsRne(x, d * p, r) && IsRne(x', d' * p, r')
    ensures r <= r'
  {
    hide IsRne;
    RneScale(x, d * p, d', r);
    RneScale(x', d' * p, d, r');
    assert (d * p) * d' == (d' * p) * d;
    MulPositive(d * p, d') by {
      MulPositive(d, p);
    }
    RneOrder(x * d', x' * d, (d * p) * d', r, r');
  }

  /** binary32_from_fraction is monotone over zero, subnormals, normals, infinities and signs. */
  lemma Monotone(v: Fraction, w: Fraction)
    requires v.num * w.den <= w.num * v.den
    ensures OrderKey(Binary32FromFraction(v)) <= OrderKey(Binary32FromFraction(w))
  {
    hide Pow2, Binary32FromFraction;
    MulOrder(v.num, 0, w.den);
    MulOrder(0, v.num, w.den);
    MulOrder(w.num, 0, v.den);
    MulOrder(0, w.num, v.den);
    KeyOfSign(v);
    KeyOfSign(w);
    if v.num > 0 {
      MonotoneMagnitude(v, w);
    } else if w.num < 0 {
      assert (-w.num) * v.den <= (-v.num) * w.den;
      MonotoneMagnitude(Negate(w), Negate(v));
      NegationFlipsSign(v);
      NegationFlipsSign(w);
    }
  }

  lemma KeyOfSign(v: Fraction)
    ensures v.num >= 0 ==> OrderKey(Binary32FromFraction(v)) >= 0
    ensures v.num <= 0 ==> OrderKey(Binary32FromFraction(v)) <= 0
    ensures v.num < 0 ==> Binary32FromFraction(v) >= SIGN_BIT
  {
    hide Pow2, Binary32FromFraction, IsRne, InBinade;
    if v.num == 0 {
      ZeroIsExact(v);
    } else {
      var e, r := EncodingOf(v);
    }
  }

  /** Decoding and encoding: every finite encoding but -0 comes back, and exactly the infinities
      and NaNs have no value. */
  lemma RoundTrip(bits: Word)
    ensures match ExactFraction(bits)
      case Some(v) =>
        !IsInfinity(bits) && !IsNaN(bits) && Binary32FromFraction(v) == if bits == NEG_ZERO then 0 else bits
      case None => IsInfinity(bits) || IsNaN(bits)
  {
    hide Pow2, Binary32FromFraction, FiniteFraction, Units;
    if IsFinite(bits) {
      FiniteRoundTrip(bits);
    }
  }

  lemma FiniteRoundTrip(bits: Word)
    requires IsFinite(bits)
    ensures Binary32FromFraction(FiniteFraction(bits)) == if bits == NEG_ZERO then 0 else bits
  {
    hide Pow2, Binary32FromFraction, FiniteFraction, Units, Decode;
    Recompose(bits);
    UnitsOfFraction(bits);
    if IsZero(bits) {
      ZeroIsExact(FiniteFraction(bits));
    } else {
      RoundTripValue(bits, FiniteFraction(bits));
      NegativeZero();
    }
  }

  lemma NegativeZero()
    ensures IsZero(NEG_ZERO)
  {
  }

  /** is_exact_binary32. */
  predicate IsExactBinary32(v: Fraction) {
    if v.num == 0 then true
    else
      var encoded := Binary32FromFraction(v);
      if Decode(encoded).Classify() == Infinity || Decode(encoded).Classify() == Zero then false
      else ExactFraction(encoded).Some? && SameValue(ExactFraction(encoded).value, v)
  }

  /** is_exact_binary32 holds exactly for the values that some finite encoding has. */
  lemma ExactIffRepresentable(v: Fraction)
    ensures IsExactBinary32(v) <==> exists bits: Word :: IsFinite(bits) && SameValue(FiniteFraction(bits), v)
  {
    hide Pow2, Binary32FromFraction, FiniteFraction, Units, Decode;
    if v.num == 0 {
      UnitsOfZero();
      UnitsOfFraction(0);
      assert SameValue(FiniteFraction(0), v);
    }
    forall bits: Word | IsFinite(bits) && SameValue(FiniteFraction(bits), v)
      ensures IsExactBinary32(v)
    {
      RepresentableIsExact(v, bits);
    }
  }

  lemma RepresentableIsExact(v: Fraction, bits: Word)
    requires IsFinite(bits) && SameValue(FiniteFraction(bits), v)
    ensures IsExactBinary32(v)
  {
    hide Pow2, Binary32FromFraction, FiniteFraction, Units, Decode;
    var w := FiniteFraction(bits);
    SignsAgree(w.num, v.den, v.num, w.den);
    UnitsOfFraction(bits);
    if v.num != 0 {
      RoundTripValue(bits, w);
      RepresentationIndependent(w, v);
    }
  }
}
