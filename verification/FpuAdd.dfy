/** rtl/fpu_add.sv: the binary32 adder, section by section, against the exact sum. */
module FpuAdd {
  import opened Powers
  import opened Rounding
  import opened Binary32
  import opened FpuReferenceModel
  import opened Magnitudes
  import opened FpuOperand

  function Max(x: int, y: int): int {
    if x >= y then x else y
  }

  /** The 27-bit register work at encoded exponent e stands for the exact sum of n
      units: jammed in place, or jammed one position lower and then shifted left. */
  ghost predicate StandsFor(work: nat, e: nat, n: nat) {
    && 1 <= e <= 255
    && work < 0x800_0000
    && (e > 1 ==> work >= 0x400_0000)
    && (IsJam(8 * n, Pow2(e - 1), work) || (work % 2 == 0 && IsJam(8 * n, Pow2(e), work / 2)))
  }

  lemma JamOfShift(value: nat, amount: nat)
    ensures var q := value / Pow2(amount);
      IsJam(value, Pow2(amount), if AnyBelow(value, amount) && q % 2 == 0 then q + 1 else q)
  {
    hide Pow2;
    var p := Pow2(amount);
    var q := value / p;
    assert value == q * p + value % p;
    assert (q + 1) * p == q * p + p && (q - 1) * p == q * p - p && (q + 2) * p == q * p + 2 * p;
  }

  lemma AllShiftedOut(value: nat, amount: nat)
    requires value < 0x800_0000 && amount >= 27
    ensures (AnyBelow(value, 27) <==> value != 0) && IsJam(value, Pow2(amount), if value == 0 then 0 else 1)
  {
    hide Pow2;
    Pow2Values();
    Pow2Monotone(27, amount);
  }

  /** shift_right_sticky: all discarded bits are ORed into bit 0. */
  method ShiftRightSticky(value: nat, amount: nat) returns (shifted: nat)
    requires value < 0x800_0000
    ensures IsJam(value, Pow2(amount), shifted)
  {
    hide Pow2, Bit, IsJam, AnyBelow;
    var sticky := false;
    AnyBelowStep(value, 0);
    if amount >= 27 {
      for i := 0 to 27
        invariant sticky == AnyBelow(value, i)
      {
        AnyBelowStep(value, i);
        if Bit(value, i) {
          sticky := true;
        }
      }
      AllShiftedOut(value, amount);
      shifted := 0;
      if sticky {
        shifted := 1;
      }
    } else {
      for i := 0 to 27
        invariant sticky == AnyBelow(value, if i < amount then i else amount)
      {
        if i < amount {
          AnyBelowStep(value, i);
          if Bit(value, i) {
            sticky := true;
          }
        }
      }
      shifted := value / Pow2(amount);
      JamOfShift(value, amount);
      if sticky && shifted % 2 == 0 {
        shifted := shifted + 1;
      }
    }
  }

  lemma JamScale(n: int, d: int, k: int, j: int)
    requires d > 0 && k > 0 && IsJam(n, d, j)
    ensures IsJam(n * k, d * k, j)
  {
    Assoc(j, d, k);
    if n != j * d {
      Assoc(j - 1, d, k);
      Assoc(j + 1, d, k);
      MulOrder((j - 1) * d, n, k);
      MulOrder(n, (j + 1) * d, k);
    }
  }

  /** The smaller operand, shifted to the exponent of the larger one. */
  lemma ShiftedOperand(x: Word, y: Word, shifted: nat)
    requires EffectiveExponent(x) >= EffectiveExponent(y)
    requires IsJam(8 * Significand(y), Pow2(EffectiveExponent(x) - EffectiveExponent(y)), shifted)
    ensures IsJam(8 * Units(y), Pow2(EffectiveExponent(x) - 1), shifted)
  {
    hide Pow2, IsJam;
    var ex, ey := EffectiveExponent(x), EffectiveExponent(y);
    Pow2Add(ex - ey, ey - 1);
    JamScale(8 * Significand(y), Pow2(ex - ey), Pow2(ey - 1), shifted);
    Assoc(8, Significand(y), Pow2(ey - 1));
  }

  /** A larger effective exponent belongs to a normal number, whose value is the larger one. */
  lemma LargerExponent(x: Word, y: Word)
    requires EffectiveExponent(x) > EffectiveExponent(y)
    ensures Units(x) > Units(y) && Significand(x) >= HIDDEN_BIT
  {
    hide Pow2;
    var ex, ey := EffectiveExponent(x), EffectiveExponent(y);
    Pow2Monotone(ey - 1, ex - 1);
    MulOrder(Significand(y), 2 * HIDDEN_BIT, Pow2(ey - 1));
    MulOrder(2 * Pow2(ey - 1), Pow2(ex - 1), HIDDEN_BIT);
    MulOrder(HIDDEN_BIT, Significand(x), Pow2(ex - 1));
  }

  /** The shifted significand is far below the larger one unless the shift was exact. */
  lemma ShiftedIsSmall(x: Word, y: Word, shifted: nat)
    requires EffectiveExponent(x) > EffectiveExponent(y)
    requires IsJam(8 * Significand(y), Pow2(EffectiveExponent(x) - EffectiveExponent(y)), shifted)
    ensures shifted <= 8 * HIDDEN_BIT
    ensures shifted < 0x200_0000 || 8 * Units(y) == shifted * Pow2(EffectiveExponent(x) - 1)
  {
    hide Pow2, IsJam;
    var ex, ey := EffectiveExponent(x), EffectiveExponent(y);
    if ex - ey == 1 {
      Pow2Step(1);
      Pow2Zero();
      JamByTwo(Significand(y), shifted);
      Pow2Step(ex - 1);
      EightTimes(Significand(y), Pow2(ey - 1));
    } else {
      Pow2Monotone(2, ex - ey);
      Pow2Values();
      JamSmall(Significand(y), Pow2(ex - ey), shifted);
    }
  }

  lemma EightTimes(m: int, q: int)
    ensures 8 * (m * q) == (4 * m) * (2 * q)
  {
  }

  lemma JamByTwo(m: nat, shifted: nat)
    requires IsJam(8 * m, 2, shifted)
    ensures shifted == 4 * m
  {
  }

  lemma JamSmall(m: nat, p: int, shifted: nat)
    requires m < 2 * HIDDEN_BIT && p >= 4 && IsJam(8 * m, p, shifted)
    ensures shifted < 0x200_0000
  {
    JamEven(8 * m, p, shifted, 0x100_0000);
    MulOrder(4, p, 0x200_0000);
    assert 8 * m < 0x200_0000 * p;
  }

  /** Section ALIGNMENT. */
  method Align(a: Word, b: Word) returns (expLarge: nat, signLarge: int, largeExt: nat, smallExt: nat)
    requires IsFinite(a) && IsFinite(b) && !IsZero(a) && !IsZero(b)
    ensures 1 <= expLarge <= 254 && 0 <= signLarge <= 1
    ensures 8 * Max(Units(a), Units(b)) == largeExt * Pow2(expLarge - 1)
    ensures IsJam(8 * Min(Units(a), Units(b)), Pow2(expLarge - 1), smallExt)
    ensures signLarge == if Units(a) >= Units(b) then Decode(a).sign else Decode(b).sign
    ensures largeExt % 8 == 0 && largeExt < 0x800_0000 && smallExt <= largeExt
    ensures expLarge > 1 ==> largeExt >= 0x400_0000
    ensures smallExt < 0x200_0000 || 8 * Min(Units(a), Units(b)) == smallExt * Pow2(expLarge - 1)
  {
    hide Pow2, IsJam, Units, Decode;
    var fa, fb := Decode(a), Decode(b);
    var mantA := if fa.exponent == 0 then fa.fraction else HIDDEN_BIT + fa.fraction;
    var mantB := if fb.exponent == 0 then fb.fraction else HIDDEN_BIT + fb.fraction;
    var expA := if fa.exponent == 0 then 1 else fa.exponent;
    var expB := if fb.exponent == 0 then 1 else fb.exponent;
    UnitsAre(a);
    UnitsAre(b);
    if expA > expB {
      expLarge, signLarge, largeExt := expA, fa.sign, mantA * 8;
      smallExt := ShiftRightSticky(mantB * 8, expA - expB);
      ShiftedOperand(a, b, smallExt);
      LargerExponent(a, b);
      ShiftedIsSmall(a, b, smallExt);
    } else if expB > expA {
      expLarge, signLarge, largeExt := expB, fb.sign, mantB * 8;
      smallExt := ShiftRightSticky(mantA * 8, expB - expA);
      ShiftedOperand(b, a, smallExt);
      LargerExponent(b, a);
      ShiftedIsSmall(b, a, smallExt);
    } else {
      MulOrder(mantA, mantB, Pow2(expA - 1));
      MulOrder(mantB, mantA, Pow2(expA - 1));
      if mantA >= mantB {
        expLarge, signLarge, largeExt, smallExt := expA, fa.sign, mantA * 8, mantB * 8;
        JamExact(8 * Units(b), Pow2(expA - 1), smallExt);
      } else {
        expLarge, signLarge, largeExt, smallExt := expB, fb.sign, mantB * 8, mantA * 8;
        JamExact(8 * Units(a), Pow2(expA - 1), smallExt);
      }
    }
  }

  lemma UnitsAre(bits: Word)
    ensures Units(bits) == Significand(bits) * Pow2(EffectiveExponent(bits) - 1)
    ensures 8 * Units(bits) == (Significand(bits) * 8) * Pow2(EffectiveExponent(bits) - 1)
  {
    Assoc(8, Significand(bits), Pow2(EffectiveExponent(bits) - 1));
  }

  lemma JamExact(n: int, d: int, j: int)
    requires n == j * d
    ensures IsJam(n, d, j)
  {
  }

  /** A carry shifts the sum right by one; the register then ends in at most a sticky bit
      below the largest significand, so rounding cannot carry again. */
  lemma CarryStandsFor(expLarge: nat, sum: nat, n: nat, work: nat)
    requires 1 <= expLarge <= 254 && IsJam(8 * n, Pow2(expLarge - 1), sum) && 0x800_0000 <= sum <= 0xFFF_FFF0
    requires work == if sum % 2 == 1 && (sum / 2) % 2 == 0 then sum / 2 + 1 else sum / 2
    ensures StandsFor(work, expLarge + 1, n) && work <= 0x7FF_FFF8
  {
    hide Pow2, IsJam;
    JamAgain(8 * n, Pow2(expLarge - 1), sum);
    Pow2Step(expLarge);
  }

  lemma EvenOfEight(n: int)
    requires n % 8 == 0
    ensures n % 2 == 0
  {
    DivUnique(n, 2, 4 * (n / 8));
  }

  lemma SumStandsFor(expLarge: nat, largeExt: nat, smallExt: nat, ul: nat, us: nat)
    requires 1 <= expLarge <= 254 && 8 * ul == largeExt * Pow2(expLarge - 1) && largeExt % 8 == 0
    requires IsJam(8 * us, Pow2(expLarge - 1), smallExt) && (expLarge > 1 ==> largeExt >= 0x400_0000)
    ensures IsJam(8 * (ul + us), Pow2(expLarge - 1), largeExt + smallExt)
    ensures largeExt + smallExt < 0x800_0000 ==> StandsFor(largeExt + smallExt, expLarge, ul + us)
  {
    hide Pow2, IsJam;
    EvenOfEight(largeExt);
    JamSum(8 * us, Pow2(expLarge - 1), smallExt, largeExt);
  }

  /** Section SAME SIGN: add, and on a carry shift right by one keeping the lost bit sticky.
      A carry into exponent 255 leaves no room for a second one by rounding. */
  method AddSignificands(expLarge: nat, largeExt: nat, smallExt: nat, ghost ul: nat, ghost us: nat)
      returns (expResult: nat, mantWork: nat)
    requires 1 <= expLarge <= 254 && 8 * ul == largeExt * Pow2(expLarge - 1)
    requires IsJam(8 * us, Pow2(expLarge - 1), smallExt)
    requires largeExt % 8 == 0 && largeExt < 0x800_0000 && smallExt <= largeExt
    requires expLarge > 1 ==> largeExt >= 0x400_0000
    ensures StandsFor(mantWork, expResult, ul + us)
    ensures expResult == 255 ==> mantWork <= 0x7FF_FFF8
  {
    hide Pow2, IsJam, Bit, StandsFor;
    var mantSum := largeExt + smallExt;
    SumStandsFor(expLarge, largeExt, smallExt, ul, us);
    expResult := expLarge;
    assert Pow2(27) == 0x800_0000 by {
      Pow2Values();
    }
    TopBit(mantSum, 27);
    if Bit(mantSum, 27) {
      mantWork := mantSum / 2;
      if mantSum % 2 == 1 && mantWork % 2 == 0 {
        mantWork := mantWork + 1;
      }
      CarryStandsFor(expLarge, mantSum, ul + us, mantWork);
      expResult := (expLarge + 1) % 0x100;
    } else {
      mantWork := mantSum;
    }
  }

  lemma NormalizedStandsFor(expLarge: nat, w: nat, exact: bool, n: nat, k: nat, work: nat)
    requires 1 <= expLarge <= 254 && k < expLarge && w > 0
    requires IsJam(8 * n, Pow2(expLarge - 1), w) && (exact ==> 8 * n == w * Pow2(expLarge - 1))
    requires !exact && expLarge > 1 ==> w > 0x200_0000
    requires work == w * Pow2(k) && work < 0x800_0000 && (expLarge - k > 1 ==> work >= 0x400_0000)
    ensures StandsFor(work, expLarge - k, n)
  {
    hide Pow2, IsJam;
    Pow2Zero();
    if k == 1 {
      Pow2Step(1);
    } else if k > 1 {
      if !exact {
        Pow2Monotone(2, k);
        Pow2Values();
        MulOrder(4, Pow2(k), w);
        assert false;
      }
      Pow2Add(k, expLarge - k - 1);
      Assoc(w, Pow2(k), Pow2(expLarge - k - 1));
      JamExact(8 * n, Pow2(expLarge - k - 1), work);
    }
  }

  /** Section NORMALIZATION: shift left until the hidden bit is set or the exponent is 1. */
  method Normalize(expLarge: nat, mantDiff: nat) returns (expResult: nat, mantWork: nat)
    requires 1 <= expLarge <= 254 && 0 < mantDiff < 0x800_0000
    ensures 1 <= expResult <= expLarge && mantWork == mantDiff * Pow2(expLarge - expResult)
    ensures mantWork < 0x800_0000 && (expResult > 1 ==> mantWork >= 0x400_0000)
  {
    hide Pow2, Bit, Abs;
    mantWork, expResult := mantDiff, expLarge;
    Pow2Zero();
    Pow2Values();
    for shiftCount := 0 to 26
      invariant 1 <= expResult <= expLarge && mantWork == mantDiff * Pow2(expLarge - expResult)
      invariant mantWork < 0x800_0000
      invariant mantWork < 0x400_0000 && expResult > 1 ==> expLarge - expResult == shiftCount
    {
      TopBit(mantWork, 26);
      if !Bit(mantWork, 26) && expResult > 1 {
        DoublePower(mantDiff, expLarge - expResult + 1);
        assert (mantWork * 2) % 0x800_0000 == mantWork * 2;
        mantWork := (mantWork * 2) % 0x800_0000;
        expResult := expResult - 1;
      }
    }
    if mantWork < 0x400_0000 && expResult > 1 {
      MulOrder(1, mantDiff, Pow2(26));
      assert false;
    }
  }

  lemma DifferenceJam(largeExt: int, smallExt: int, ul: int, us: int, p: int)
    requires p > 0 && 8 * ul == largeExt * p && largeExt % 2 == 0 && IsJam(8 * us, p, smallExt)
    ensures IsJam(8 * (ul - us), p, largeExt - smallExt)
  {
    hide IsJam;
    JamSum(8 * us, p, smallExt, largeExt);
    assert largeExt * p - 8 * us == 8 * (ul - us);
  }

  lemma DifferenceExact(largeExt: int, smallExt: int, ul: int, us: int, p: int)
    requires 8 * ul == largeExt * p && 8 * us == smallExt * p
    ensures 8 * (ul - us) == (largeExt - smallExt) * p
  {
    Distribute(largeExt, smallExt, p);
  }

  /** Section DIFFERENT SIGNS, when the operands do not cancel. */
  method SubtractSignificands(expLarge: nat, largeExt: nat, smallExt: nat, ghost ul: nat, ghost us: nat)
      returns (expResult: nat, mantWork: nat)
    requires 1 <= expLarge <= 254 && 8 * ul == largeExt * Pow2(expLarge - 1) && us <= ul
    requires IsJam(8 * us, Pow2(expLarge - 1), smallExt)
    requires largeExt % 8 == 0 && largeExt < 0x800_0000 && smallExt < largeExt
    requires expLarge > 1 ==> largeExt >= 0x400_0000
    requires smallExt < 0x200_0000 || 8 * us == smallExt * Pow2(expLarge - 1)
    ensures StandsFor(mantWork, expResult, ul - us) && expResult <= 254
  {
    hide Pow2, IsJam, StandsFor;
    expResult, mantWork := Normalize(expLarge, largeExt - smallExt);
    DifferenceStandsFor(expLarge, largeExt, smallExt, ul, us, expLarge - expResult, mantWork);
  }

  lemma DifferenceStandsFor(expLarge: nat, largeExt: nat, smallExt: nat, ul: nat, us: nat, k: nat, work: nat)
    requires 1 <= expLarge <= 254 && 8 * ul == largeExt * Pow2(expLarge - 1) && us <= ul && k < expLarge
    requires IsJam(8 * us, Pow2(expLarge - 1), smallExt)
    requires largeExt % 8 == 0 && smallExt < largeExt && (expLarge > 1 ==> largeExt >= 0x400_0000)
    requires smallExt < 0x200_0000 || 8 * us == smallExt * Pow2(expLarge - 1)
    requires work == (largeExt - smallExt) * Pow2(k) && work < 0x800_0000 && (expLarge - k > 1 ==> work >= 0x400_0000)
    ensures StandsFor(work, expLarge - k, ul - us)
  {
    hide Pow2, IsJam, StandsFor;
    var exact := 8 * us == smallExt * Pow2(expLarge - 1);
    EvenOfEight(largeExt);
    DifferenceJam(largeExt, smallExt, ul, us, Pow2(expLarge - 1));
    if exact {
      DifferenceExact(largeExt, smallExt, ul, us, Pow2(expLarge - 1));
    }
    NormalizedStandsFor(expLarge, largeExt - smallExt, exact, ul - us, k, work);
  }

  /** Rounding the register is rounding the exact sum it stands for. */
  lemma RoundsExactSum(work: nat, e: nat, n: nat, r: nat)
    requires StandsFor(work, e, n) && IsRne(work, 8, r)
    ensures IsRne(n, Pow2(e - 1), r) && InBinade(n, 1, e)
  {
    hide Pow2, IsJam, IsRne;
    var p := Pow2(e - 1);
    if IsJam(8 * n, p, work) {
      RneOfJam(8 * n, p, work, 2, r);
      JamEven(8 * n, p, work, 0x200_0000);
      JamEven(8 * n, p, work, 0x400_0000);
    } else {
      Pow2Step(e);
      HalvedRegister(work, r);
      RneOfJam(8 * n, 2 * p, work / 2, 1, r);
      JamEven(8 * n, 2 * p, work / 2, 0x100_0000);
      JamEven(8 * n, 2 * p, work / 2, 0x200_0000);
    }
    RneScale(n, p, 8, r);
  }

  lemma HalvedRegister(work: nat, r: nat)
    requires work % 2 == 0 && IsRne(work, 8, r)
    ensures IsRne(work / 2, 4, r)
  {
    hide IsRne;
    RneHalve(work / 2, 4, r);
  }

  /** Sections ROUNDING to NORMAL RESULT. */
  method RoundAndPack(sign: int, expWork: nat, mantWork: nat, ghost n: nat) returns (result: Word)
    requires 0 <= sign <= 1 && StandsFor(mantWork, expWork, n)
    requires expWork == 255 ==> mantWork <= 0x7FF_FFF8
    ensures result == sign * SIGN_BIT + Packed(expWork, RoundToNearestEven(n, Pow2(expWork - 1)))
  {
    hide Pow2, Bit, IsJam, IsRne, RoundToNearestEven;
    var expResult := expWork;
    var mantRounded := mantWork / 8;
    LastBits(mantWork);
    if Bit(mantWork, 2) && (Bit(mantWork, 1) || Bit(mantWork, 0) || Bit(mantWork, 3)) {
      mantRounded := mantRounded + 1;
    }
    FourthBit(mantWork);
    RneOfGrs(mantWork);
    RoundsExactSum(mantWork, expWork, n, mantRounded);
    RneIs(n, Pow2(expWork - 1), mantRounded);
    RoundedRange(mantWork, expWork, n, mantRounded);
    result := PackRounded(sign, expResult, mantRounded);
  }

  lemma RoundedRange(work: nat, e: nat, n: nat, r: nat)
    requires StandsFor(work, e, n) && work / 8 <= r <= work / 8 + 1
    ensures r <= 2 * HIDDEN_BIT && (e > 1 ==> r >= HIDDEN_BIT)
  {
    hide IsJam, Pow2;
  }

  /** Sections ROUNDING CARRY, OVERFLOW, SUBNORMAL and NORMAL RESULT. */
  method PackRounded(sign: int, exp: nat, sigRounded: nat) returns (result: Word)
    requires 0 <= sign <= 1 && 1 <= exp <= 255 && sigRounded <= 2 * HIDDEN_BIT && (exp > 1 ==> sigRounded >= HIDDEN_BIT)
    requires exp == 255 ==> sigRounded < 2 * HIDDEN_BIT
    ensures result == sign * SIGN_BIT + Packed(exp, sigRounded)
  {
    hide Pow2, Bit;
    var expResult, mantRounded := exp, sigRounded;
    Pow2Values();
    TopBit(mantRounded, 24);
    if Bit(mantRounded, 24) {
      mantRounded := mantRounded / 2;
      expResult := (expResult + 1) % 0x100;
    }
    TopBit(mantRounded, 23);
    if expResult >= 0xFF {
      result := Encode(sign, 0xFF, 0);
    } else if expResult == 1 && !Bit(mantRounded, 23) {
      result := Encode(sign, 0, mantRounded % HIDDEN_BIT);
    } else {
      result := Encode(sign, expResult, mantRounded % HIDDEN_BIT);
    }
  }

  lemma FourthBit(x: nat)
    ensures Bit(x, 3) <==> (x / 8) % 2 == 1
  {
    Pow2Values();
  }

  /** Exact sums add units. */
  lemma SumUnits(a: Word, b: Word)
    requires IsFinite(a) && IsFinite(b)
    ensures var v := Add(FiniteFraction(a), FiniteFraction(b));
      v.num * Pow2(149) == (SignedUnits(a) + SignedUnits(b)) * v.den
  {
    hide Pow2, FiniteFraction, SignedUnits;
    var v, w := FiniteFraction(a), FiniteFraction(b);
    UnitsOfFraction(a);
    UnitsOfFraction(b);
    SumUnitsOf(v.num, v.den, w.num, w.den, Pow2(149), SignedUnits(a), SignedUnits(b));
  }

  lemma SumUnitsOf(n: int, d: int, n': int, d': int, k: int, u: int, u': int)
    requires n * k == u * d && n' * k == u' * d'
    ensures (n * d' + n' * d) * k == (u + u') * (d * d')
  {
    assert (n * d') * k == (n * k) * d' == u * (d * d');
    assert (n' * d) * k == (n' * k) * d == u' * (d * d');
  }

  /** Section FINITE NON-ZERO OPERANDS. */
  method AddFinite(a: Word, b: Word) returns (result: Word)
    requires IsFinite(a) && IsFinite(b) && !IsZero(a) && !IsZero(b)
    ensures result == Binary32FromFraction(Add(FiniteFraction(a), FiniteFraction(b)))
  {
    hide Pow2, Binary32FromFraction, FiniteFraction, Add, RoundToNearestEven, IsJam, Decode, Units, InBinade;
    var signA, signB := Decode(a).sign, Decode(b).sign;
    var expLarge, signLarge, largeExt, smallExt := Align(a, b);
    ghost var ul, us := Max(Units(a), Units(b)), Min(Units(a), Units(b));
    ghost var v := Add(FiniteFraction(a), FiniteFraction(b));
    var expResult, mantWork;
    SumUnits(a, b);
    UnitsOfFraction(a);
    UnitsOfFraction(b);
    if signA == signB {
      expResult, mantWork := AddSignificands(expLarge, largeExt, smallExt, ul, us);
      EncodesWork(v, SignedUnits(a) + SignedUnits(b), mantWork, expResult);
      result := RoundAndPack(signLarge, expResult, mantWork, ul + us);
    } else {
      CancelsExactly(ul, us, Pow2(expLarge - 1), largeExt, smallExt);
      if largeExt == smallExt {
        SignsAgree(v.num, Pow2(149), SignedUnits(a) + SignedUnits(b), v.den);
        EncodesZero(v);
        result := 0;
      } else {
        expResult, mantWork := SubtractSignificands(expLarge, largeExt, smallExt, ul, us);
        EncodesWork(v, SignedUnits(a) + SignedUnits(b), mantWork, expResult);
        result := RoundAndPack(signLarge, expResult, mantWork, ul - us);
      }
    }
  }

  /** The aligned registers are equal exactly when the operands cancel. */
  lemma CancelsExactly(ul: nat, us: nat, p: int, largeExt: nat, smallExt: nat)
    requires p > 0 && 8 * ul == largeExt * p && IsJam(8 * us, p, smallExt) && largeExt % 8 == 0
    ensures largeExt == smallExt <==> ul == us
  {
    hide IsJam;
    EvenOfEight(largeExt);
    JamEven(8 * us, p, smallExt, largeExt / 2);
    MulOrder(largeExt, smallExt, p);
  }

  lemma EncodesZero(v: Fraction)
    requires v.num == 0
    ensures Binary32FromFraction(v) == 0
  {
  }

  lemma EncodesWork(v: Fraction, s: int, work: nat, e: nat)
    requires v.num * Pow2(149) == s * v.den && s != 0 && StandsFor(work, e, Abs(s))
    ensures Binary32FromFraction(v) == (if s < 0 then SIGN_BIT else 0)
            + Packed(e, RoundToNearestEven(Abs(s), Pow2(e - 1)))
  {
    hide Pow2, Binary32FromFraction, IsRne, IsJam, RoundToNearestEven;
    RneHolds(work, 8);
    RoundsExactSum(work, e, Abs(s), RoundToNearestEven(work, 8));
    EncodesSigned(v, s, e);
  }

  /** The encodings without a significand of their own. */
  lemma SpecialEncodings(a: Word)
    ensures IsInfinity(a) ==> a == Encode(Decode(a).sign, 0xFF, 0)
    ensures IsZero(a) ==> a == if Decode(a).sign == 1 then NEG_ZERO else 0
    ensures IsZero(NEG_ZERO) && Encode(1, 0, 0) == NEG_ZERO && Encode(0, 0, 0) == 0
  {
    Recompose(a);
  }

  lemma FiniteSum(a: Word, b: Word)
    ensures IsFinite(a) && IsFinite(b) ==>
      ReferenceModel(a, b, ADD) == Answer(Binary32FromFraction(Add(FiniteFraction(a), FiniteFraction(b))))
  {
    hide Binary32FromFraction, FiniteFraction, Add, Decode;
  }

  /** fp_add. For finite operands the result is the exact sum rounded once, as the
      reference computes it; the only pair on which they differ is -0 + -0. */
  method FpAdd(a: Word, b: Word) returns (result: Word)
    ensures result == CANONICAL_NAN ==> IsNaN(result) && Decode(result) == Fields(0, 0xFF, 0x40_0000)
    ensures IsFinite(a) && IsFinite(b) ==> ReferenceModel(a, b, ADD).Supported?
    ensures IsFinite(a) && IsFinite(b) ==>
      (result == ReferenceModel(a, b, ADD).result <==> !(a == NEG_ZERO && b == NEG_ZERO))
    ensures a == NEG_ZERO && b == NEG_ZERO ==> result == NEG_ZERO
    ensures IsNaN(a) || IsNaN(b) ==> result == CANONICAL_NAN
    ensures IsInfinity(a) && IsInfinity(b) ==> result == if a == b then a else CANONICAL_NAN
    ensures IsInfinity(a) && IsFinite(b) ==> result == a
    ensures IsInfinity(b) && IsFinite(a) ==> result == b
  {
    hide Binary32FromFraction, FiniteFraction, Add, ReferenceModel, Decode, Encode;
    var fa, fb := Decode(a), Decode(b);
    CanonicalNaN();
    SpecialEncodings(a);
    SpecialEncodings(b);
    FiniteSum(a, b);
    if fa.exponent == 0xFF && fa.fraction != 0 {
      result := CANONICAL_NAN;
    } else if fb.exponent == 0xFF && fb.fraction != 0 {
      result := CANONICAL_NAN;
    } else if fa.exponent == 0xFF && fa.fraction == 0 && fb.exponent == 0xFF && fb.fraction == 0 {
      if fa.sign != fb.sign {
        result := CANONICAL_NAN;
      } else {
        result := Encode(fa.sign, 0xFF, 0);
      }
    } else if fa.exponent == 0xFF && fa.fraction == 0 {
      result := Encode(fa.sign, 0xFF, 0);
    } else if fb.exponent == 0xFF && fb.fraction == 0 {
      result := Encode(fb.sign, 0xFF, 0);
    } else if fa.exponent == 0 && fa.fraction == 0 && fb.exponent == 0 && fb.fraction == 0 {
      ZeroOperand(a, b);
      result := Encode(if fa.sign == 1 && fb.sign == 1 then 1 else 0, 0, 0);
    } else if fa.exponent == 0 && fa.fraction == 0 {
      ZeroOperand(a, b);
      result := b;
    } else if fb.exponent == 0 && fb.fraction == 0 {
      ZeroOperand(a, b);
      result := a;
    } else {
      result := AddFinite(a, b);
    }
  }

  /** Adding a zero: the exact sum is the other operand, and encodes back to it. */
  lemma ZeroOperand(a: Word, b: Word)
    requires IsFinite(a) && IsFinite(b) && (IsZero(a) || IsZero(b))
    ensures Binary32FromFraction(Add(FiniteFraction(a), FiniteFraction(b))) ==
            if !IsZero(a) then a else if !IsZero(b) then b else 0
  {
    hide Pow2, Binary32FromFraction, FiniteFraction, Add, Decode, Units;
    var v := Add(FiniteFraction(a), FiniteFraction(b));
    SumUnits(a, b);
    UnitsOfFraction(a);
    UnitsOfFraction(b);
    if !IsZero(a) {
      RoundTripValue(a, v);
    } else if !IsZero(b) {
      RoundTripValue(b, v);
    } else {
      SignsAgree(v.num, Pow2(149), 0, v.den);
      EncodesZero(v);
    }
  }
}
