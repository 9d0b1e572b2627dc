/** Exact binary32 values and the one correctly rounding encoder that the
    reference model calls: reference/binary32.py. A Fraction is a numerator over a
    positive denominator, not necessarily in lowest terms. */
module Binary32 {
  import opened Powers
  import opened Rounding

  const HIDDEN_BIT := 0x80_0000
  const SIGN_BIT := 0x8000_0000
  const POS_INFINITY := 0x7F80_0000
  const EXP_BIAS := 127
  const MIN_NORMAL_E := -126
  const MAX_NORMAL_E := 127

  datatype Option<T> = None | Some(value: T)

  datatype Ratio = Ratio(num: int, den: int)

  type Fraction = f: Ratio | f.den > 0 witness Ratio(0, 1)

  datatype Class = Zero | Subnormal | Normal | Infinity | NaN

  /** Decoded fields; classification follows from exponent and fraction alone. */
  datatype Fields = Fields(sign: int, exponent: int, fraction: int) {
    function Classify(): Class {
      if exponent == 0 then (if fraction == 0 then Zero else Subnormal)
      else if exponent == 0xFF then (if fraction == 0 then Infinity else NaN)
      else Normal
    }
  }

  function Decode(bits: Word): (f: Fields)
    ensures 0 <= f.sign <= 1 && 0 <= f.exponent <= 0xFF && 0 <= f.fraction < HIDDEN_BIT
  {
    Fields(bits / SIGN_BIT, (bits / HIDDEN_BIT) % 0x100, bits % HIDDEN_BIT)
  }

  function Encode(sign: int, exponent: int, fraction: int): (bits: Word)
    requires 0 <= sign <= 1 && 0 <= exponent <= 0xFF && 0 <= fraction < HIDDEN_BIT
    ensures Decode(bits) == Fields(sign, exponent, fraction)
  {
    sign * SIGN_BIT + exponent * HIDDEN_BIT + fraction
  }

  lemma Recompose(bits: Word)
    ensures bits == Decode(bits).sign * SIGN_BIT + Decode(bits).exponent * HIDDEN_BIT + Decode(bits).fraction
  {
  }

  predicate IsFinite(bits: Word) {
    Decode(bits).exponent != 0xFF
  }

  predicate IsZero(bits: Word) {
    Decode(bits).Classify() == Zero
  }

  /** The value of a finite encoding. */
  function FiniteFraction(bits: Word): Fraction
    requires IsFinite(bits)
  {
    var f := Decode(bits);
    var significand := if f.exponent == 0 then f.fraction else HIDDEN_BIT + f.fraction;
    var exponent := if f.exponent == 0 then -149 else f.exponent - EXP_BIAS - 23;
    var s := if f.sign == 1 then -1 else 1;
    if exponent >= 0 then Ratio(s * (significand * Pow2(exponent)), 1)
    else Ratio(s * significand, Pow2(-exponent))
  }

  /** exact_fraction: rejects NaN and infinity. */
  function ExactFraction(bits: Word): Option<Fraction> {
    if IsFinite(bits) then Some(FiniteFraction(bits)) else None
  }

  /** int.bit_length of a non-negative integer. */
  function BitLength(n: nat): nat {
    if n == 0 then 0 else 1 + BitLength(n / 2)
  }

  function FloorLog2(n: nat, d: nat): int
    requires n > 0 && d > 0
  {
    var e := BitLength(n) - BitLength(d);
    var below := if e >= 0 then n < d * Pow2(e) else n * Pow2(-e) < d;
    if below then e - 1 else e
  }

  /** The fraction n/d divided by 2^scale, rounded to an integer. */
  function RoundScaled(n: nat, d: nat, scale: int): nat
    requires d > 0
  {
    MulPositive(d, Pow2(if scale >= 0 then scale else 0));
    if scale >= 0 then RoundToNearestEven(n, d * Pow2(scale))
    else RoundToNearestEven(n * Pow2(-scale), d)
  }

  /** binary32_from_fraction. */
  function Binary32FromFraction(v: Fraction): Word {
    if v.num == 0 then 0
    else
      var sign := if v.num < 0 then 1 else 0;
      var magnitude := Abs(v.num);
      var exponent := FloorLog2(magnitude, v.den);
      if exponent >= MIN_NORMAL_E then
        var rounded := RoundScaled(magnitude, v.den, exponent - 23);
        var significand := if rounded == 2 * HIDDEN_BIT then HIDDEN_BIT else rounded;
        var exponent' := if rounded == 2 * HIDDEN_BIT then exponent + 1 else exponent;
        if exponent' > MAX_NORMAL_E then sign * SIGN_BIT + POS_INFINITY
        else Encode(sign, exponent' + EXP_BIAS, significand % HIDDEN_BIT)
      else
        var fraction := RoundScaled(magnitude, v.den, -149);
        if fraction >= HIDDEN_BIT then Encode(sign, 1, 0)
        else if fraction == 0 then sign * SIGN_BIT
        else sign * SIGN_BIT + fraction
  }

  // ----------------------------------------------------------------------
  // The reference in units of 2^-149
  // ----------------------------------------------------------------------

  /** x/y units lie in the binade of the encoded exponent e, or below it when e is 1. */
  ghost predicate InBinade(x: int, y: int, e: nat) {
    && e >= 1
    && (e > 1 ==> HIDDEN_BIT * (y * Pow2(e - 1)) <= x)
    && x < 2 * HIDDEN_BIT * (y * Pow2(e - 1))
  }

  /** Exponent field and significand packed side by side: a significand below the
      hidden bit is subnormal, a carry out of it moves into the exponent field, and
      everything from the infinity pattern on is infinity. */
  function Packed(e: nat, r: int): int {
    Min(POS_INFINITY, (e - 1) * HIDDEN_BIT + r)
  }

  function SignOf(v: Fraction): int {
    if v.num < 0 then SIGN_BIT else 0
  }

  lemma {:induction false} BitLengthBounds(n: nat)
    requires n > 0
    ensures BitLength(n) > 0 && Pow2(BitLength(n) - 1) <= n < Pow2(BitLength(n))
  {
    if n > 1 {
      BitLengthBounds(n / 2);
    } else {
      assert BitLength(1) == 1 + BitLength(0);
    }
  }

  lemma SpanBounds(a: int, n: int, b: int, d: int, p: int)
    requires a <= n < 2 * a && b <= d < 2 * b && a == b * p && p > 0
    ensures d * p < 2 * n && n < 2 * (d * p)
  {
    MulOrder(b, d, p);
    MulOrder(d, 2 * b, p);
    Assoc(2, b, p);
  }

  lemma BitLengthRatio(n: nat, d: nat)
    requires n > 0 && d > 0
    ensures var e := BitLength(n) - BitLength(d);
      if e >= 0 then d * Pow2(e) < 2 * n && n < 2 * (d * Pow2(e))
      else d < 2 * (n * Pow2(-e)) && n * Pow2(-e) < 2 * d
  {
    hide Pow2, BitLength;
    var ln, ld := BitLength(n), BitLength(d);
    BitLengthBounds(n);
    BitLengthBounds(d);
    Pow2Step(ln);
    Pow2Step(ld);
    if ln >= ld {
      Pow2Add(ld - 1, ln - ld);
      SpanBounds(Pow2(ln - 1), n, Pow2(ld - 1), d, Pow2(ln - ld));
    } else {
      Pow2Add(ln - 1, ld - ln);
      SpanBounds(Pow2(ld - 1), d, Pow2(ln - 1), n, Pow2(ld - ln));
    }
  }

  /** _floor_log2 is exact: 2^e <= n/d < 2^(e+1). */
  lemma FloorLog2Exact(n: nat, d: nat)
    requires n > 0 && d > 0
    ensures var e := FloorLog2(n, d);
      if e >= 0 then d * Pow2(e) <= n < 2 * (d * Pow2(e)) else d <= n * Pow2(-e) < 2 * d
  {
    hide Pow2, BitLength;
    BitLengthRatio(n, d);
    var e := BitLength(n) - BitLength(d);
    if e > 0 {
      DoublePower(d, e);
    } else {
      DoublePower(n, 1 - e);
      Pow2Zero();
    }
  }

  lemma Pow2Zero()
    ensures Pow2(0) == 1
  {
  }

  lemma DoublePower(x: int, k: nat)
    requires k > 0
    ensures x * Pow2(k) == 2 * (x * Pow2(k - 1))
  {
  }

  lemma ScaleBounds(a: int, x: int, k: int)
    requires a <= x < 2 * a && k > 0
    ensures a * k <= x * k < 2 * (a * k)
  {
    MulOrder(a, x, k);
    MulOrder(x, 2 * a, k);
    Assoc(2, a, k);
  }

  /** The same bounds in units of 2^-149. */
  lemma FloorLog2Units(n: nat, d: nat)
    requires n > 0 && d > 0
    ensures var e := FloorLog2(n, d);
      if e >= -149 then d * Pow2(e + 149) <= n * Pow2(149) < 2 * (d * Pow2(e + 149))
      else n * Pow2(149) < d
  {
    hide Pow2, FloorLog2, BitLength;
    var e := FloorLog2(n, d);
    FloorLog2Exact(n, d);
    if e >= 0 {
      Pow2Add(e, 149);
      Assoc(d, Pow2(e), Pow2(149));
      ScaleBounds(d * Pow2(e), n, Pow2(149));
    } else if e >= -149 {
      Pow2Add(-e, e + 149);
      Assoc(n, Pow2(-e), Pow2(e + 149));
      ScaleBounds(d, n * Pow2(-e), Pow2(e + 149));
    } else {
      Pow2Monotone(150, -e);
      DoublePower(n, 150);
      MulOrder(Pow2(150), Pow2(-e), n);
    }
  }

  lemma BinadeUnique(x: int, y: int, e: nat, e': nat)
    requires y > 0 && InBinade(x, y, e) && InBinade(x, y, e')
    ensures e == e'
  {
    hide Pow2;
    if e < e' {
      Pow2Monotone(e - 1, e' - 1);
      MulOrder(2 * Pow2(e - 1), Pow2(e' - 1), y);
      assert false;
    } else if e' < e {
      Pow2Monotone(e' - 1, e - 1);
      MulOrder(2 * Pow2(e' - 1), Pow2(e - 1), y);
      assert false;
    }
  }

  lemma RneScale(n: int, d: int, k: int, r: int)
    requires k > 0
    ensures IsRne(n, d, r) <==> IsRne(n * k, d * k, r)
  {
    ScaleSide(n, d, k, 2 * r - 1);
    ScaleSide(n, d, k, 2 * r + 1);
  }

  lemma ScaleSide(n: int, d: int, k: int, c: int)
    requires k > 0
    ensures c * d <= 2 * n <==> c * (d * k) <= 2 * (n * k)
    ensures c * d >= 2 * n <==> c * (d * k) >= 2 * (n * k)
  {
    Assoc(c, d, k);
    Assoc(2, n, k);
    MulOrder(c * d, 2 * n, k);
    MulOrder(2 * n, c * d, k);
  }

  /** A rounded value lies between integers that bound the exact value. */
  lemma RneBounds(n: int, d: int, r: int, c: int)
    requires d > 0 && IsRne(n, d, r)
    ensures c * d <= n ==> c <= r
    ensures n <= c * d ==> r <= c
    ensures n < c * d ==> 2 * n < (2 * c - 1) * d ==> r < c
  {
    assert (2 * c - 1) * d == 2 * (c * d) - d;
    assert (2 * c + 1) * d == 2 * (c * d) + d;
    assert IsRne(c * d, d, c);
    if c * d <= n {
      RneOrder(c * d, n, d, c, r);
    }
    if n <= c * d {
      RneOrder(n, c * d, d, r, c);
    }
    if n < c * d && 2 * n < (2 * c - 1) * d && r >= c {
      MulOrder(2 * c - 1, 2 * r - 1, d);
      assert false;
    }
  }

  /** The normal branch rounds to 24 bits: the unit is 2^(e-1) for encoded exponent e. */
  lemma RoundScaledIs(n: nat, d: nat, scale: int, r: int)
    requires d > 0 && scale >= -149
    requires IsRne(n * Pow2(149), d * Pow2(scale + 149), r)
    ensures RoundScaled(n, d, scale) == r
  {
    hide Pow2, IsRne, RoundToNearestEven;
    if scale >= 0 {
      Pow2Add(scale, 149);
      Assoc(d, Pow2(scale), Pow2(149));
      RneScale(n, d * Pow2(scale), Pow2(149), r);
      MulPositive(d, Pow2(scale));
      RneIs(n, d * Pow2(scale), r);
    } else {
      Pow2Add(-scale, scale + 149);
      Assoc(n, Pow2(-scale), Pow2(scale + 149));
      RneScale(n * Pow2(-scale), d, Pow2(scale + 149), r);
      RneIs(n * Pow2(-scale), d, r);
    }
  }

  lemma NormalResult(v: Fraction, exponent: int, r: int)
    requires v.num != 0 && exponent == FloorLog2(Abs(v.num), v.den) >= MIN_NORMAL_E
    requires RoundScaled(Abs(v.num), v.den, exponent - 23) == r && HIDDEN_BIT <= r <= 2 * HIDDEN_BIT
    ensures Binary32FromFraction(v) == SignOf(v) + Packed(exponent + 127, r)
  {
    hide Pow2, FloorLog2, RoundScaled;
  }

  lemma SubnormalResult(v: Fraction, r: int)
    requires v.num != 0 && FloorLog2(Abs(v.num), v.den) < MIN_NORMAL_E
    requires RoundScaled(Abs(v.num), v.den, -149) == r && 0 <= r <= HIDDEN_BIT
    ensures Binary32FromFraction(v) == SignOf(v) + Packed(1, r)
  {
    hide Pow2, FloorLog2, RoundScaled;
  }

  /** The encoder in one formula: find the binade, round once in its unit, pack. */
  lemma EncodesUnits(v: Fraction, e: nat, r: int)
    requires v.num != 0
    requires InBinade(Abs(v.num) * Pow2(149), v.den, e)
    requires IsRne(Abs(v.num) * Pow2(149), v.den * Pow2(e - 1), r)
    ensures Binary32FromFraction(v) == SignOf(v) + Packed(e, r)
  {
    hide Pow2, IsRne, FloorLog2, RoundScaled, Binary32FromFraction;
    var n, d := Abs(v.num), v.den;
    var x := n * Pow2(149);
    var exponent := FloorLog2(n, d);
    FloorLog2Units(n, d);
    MulPositive(d, Pow2(e - 1));
    RneBounds(x, d * Pow2(e - 1), r, 2 * HIDDEN_BIT);
    RneBounds(x, d * Pow2(e - 1), r, HIDDEN_BIT);
    RneBounds(x, d * Pow2(e - 1), r, 0);
    if exponent >= MIN_NORMAL_E {
      HiddenBitUnits(d, exponent);
      assert InBinade(x, d, exponent + 127);
      BinadeUnique(x, d, e, exponent + 127);
      RoundScaledIs(n, d, exponent - 23, r);
      NormalResult(v, exponent, r);
    } else {
      BelowNormal(n, d, exponent);
      Pow2Zero();
      assert InBinade(x, d, 1);
      BinadeUnique(x, d, e, 1);
      RoundScaledIs(n, d, -149, r);
      SubnormalResult(v, r);
    }
  }

  lemma HiddenBitUnits(d: int, exponent: int)
    requires exponent >= MIN_NORMAL_E
    ensures d * Pow2(exponent + 149) == HIDDEN_BIT * (d * Pow2(exponent + 126))
  {
    hide Pow2;
    Pow2Add(23, exponent + 126);
    Pow2Values();
  }

  lemma BelowNormal(n: nat, d: nat, exponent: int)
    requires d > 0 && exponent < MIN_NORMAL_E
    requires if exponent >= -149 then n * Pow2(149) < 2 * (d * Pow2(exponent + 149)) else n * Pow2(149) < d
    ensures n * Pow2(149) < HIDDEN_BIT * d
  {
    hide Pow2;
    if exponent >= -149 {
      Pow2Monotone(exponent + 149, 22);
      Pow2Values();
      MulOrder(Pow2(exponent + 149), 0x40_0000, d);
    }
  }

  /** The gateway of every datapath proof: x/y is any way of writing |v| in units of
      2^-149, e its binade and r its rounding there. */
  lemma Encodes(v: Fraction, x: int, y: int, e: nat, r: int)
    requires v.num != 0 && y > 0
    requires (Abs(v.num) * Pow2(149)) * y == x * v.den
    requires InBinade(x, y, e) && IsRne(x, y * Pow2(e - 1), r)
    ensures Binary32FromFraction(v) == SignOf(v) + Packed(e, r)
  {
    hide Pow2, IsRne, Binary32FromFraction;
    var n, d, p := Abs(v.num) * Pow2(149), v.den, Pow2(e - 1);
    RneSameRatio(n, d, x, y, p, r);
    ScaledCompare(n, d, x, y, HIDDEN_BIT, p);
    ScaledCompare(n, d, x, y, 2 * HIDDEN_BIT, p);
    EncodesUnits(v, e, r);
  }

  lemma ScaledCompare(n: int, d: int, x: int, y: int, c: int, p: int)
    requires d > 0 && y > 0 && n * y == x * d
    ensures c * (y * p) <= x <==> c * (d * p) <= n
  {
    RatioCompare(n, d, x, y, c * p);
    Regroup3(c, p, y);
    Regroup3(c, p, d);
  }

  lemma Regroup3(c: int, p: int, y: int)
    ensures (c * p) * y == c * (y * p)
  {
  }

  lemma RatioCompare(n: int, d: int, x: int, y: int, c: int)
    requires d > 0 && y > 0 && n * y == x * d
    ensures c * y <= x <==> c * d <= n
  {
    assert (c * y) * d == (c * d) * y;
    MulOrder(c * y, x, d);
    MulOrder(c * d, n, y);
  }
}
