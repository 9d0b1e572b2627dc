/** Round-to-nearest-even and the guard/round/sticky decision that replaces it
    in hardware. Both are stated on exact quotients n/d, through predicates that
    do not change when n and d are scaled together. */
module Rounding {
  import opened Powers

  /** _round_to_nearest_even on the non-negative fraction n/d. */
  function RoundToNearestEven(n: nat, d: nat): (r: nat)
    requires d > 0
  {
    var lower := n / d;
    var remainder := n % d;
    if 2 * remainder < d then lower
    else if 2 * remainder > d then lower + 1
    else if lower % 2 == 0 then lower
    else lower + 1
  }

  /** r is a nearest integer to n/d, and an even one when there are two. */
  ghost predicate IsRne(n: int, d: int, r: int) {
    && (2 * r - 1) * d <= 2 * n <= (2 * r + 1) * d
    && ((2 * n == (2 * r - 1) * d || 2 * n == (2 * r + 1) * d) ==> r % 2 == 0)
  }

  /** j is n/d exactly, or the odd integer next to a fractional n/d. Setting the
      last bit of a shifted register when a one was shifted out gives such a j. */
  ghost predicate IsJam(n: int, d: int, j: int) {
    n == j * d || (j % 2 == 1 && (j - 1) * d < n < (j + 1) * d)
  }

  /** The decision round_up of all three datapaths, on a register whose last
      three bits are guard, round and sticky. */
  function RoundUp(sig: nat, guard: bool, round: bool, sticky: bool): nat {
    if guard && (round || sticky || sig % 2 == 1) then 1 else 0
  }

  lemma RneHolds(n: nat, d: nat)
    requires d > 0
    ensures IsRne(n, d, RoundToNearestEven(n, d))
  {
    var q, rem := n / d, n % d;
    assert n == q * d + rem;
    assert (2 * q - 1) * d == 2 * (q * d) - d;
    assert (2 * q + 1) * d == 2 * (q * d) + d;
    assert (2 * (q + 1) - 1) * d == 2 * (q * d) + d;
    assert (2 * (q + 1) + 1) * d == 2 * (q * d) + 3 * d;
  }

  lemma RneMonotoneUnique(n: int, d: int, r: int, r': int)
    requires d > 0 && IsRne(n, d, r) && IsRne(n, d, r')
    ensures r == r'
  {
    if r < r' {
      RneOrder(n, n, d, r', r);
    } else if r' < r {
      RneOrder(n, n, d, r, r');
    }
  }

  /** Rounding is monotone in the numerator. */
  lemma RneOrder(n: int, n': int, d: int, r: int, r': int)
    requires d > 0 && n <= n' && IsRne(n, d, r) && IsRne(n', d, r')
    ensures r <= r'
  {
    if r' < r {
      MulOrder(2 * r' + 1, 2 * r - 1, d);
      assert false;
    }
  }

  /** The rounding of n/d determines what the function returns. */
  lemma RneIs(n: nat, d: nat, r: int)
    requires d > 0 && IsRne(n, d, r)
    ensures RoundToNearestEven(n, d) == r
  {
    RneHolds(n, d);
    RneMonotoneUnique(n, d, r, RoundToNearestEven(n, d));
  }

  /** Equal ratios n/d == x/y, divided by q, round to the same integer. */
  lemma RneSameRatio(n: int, d: int, x: int, y: int, q: int, r: int)
    requires d > 0 && y > 0 && q > 0 && n * y == x * d
    requires IsRne(x, y * q, r)
    ensures IsRne(n, d * q, r)
  {
    RatioSide(n, d, x, y, q, 2 * r - 1);
    RatioSide(n, d, x, y, q, 2 * r + 1);
  }

  /** Comparing 2n/d and 2x/y with c*q gives the same answer when n/d == x/y. */
  lemma RatioSide(n: int, d: int, x: int, y: int, q: int, c: int)
    requires d > 0 && y > 0 && n * y == x * d
    ensures c * (y * q) <= 2 * x <==> c * (d * q) <= 2 * n
    ensures c * (y * q) >= 2 * x <==> c * (d * q) >= 2 * n
  {
    assert (2 * n) * y == (2 * x) * d by {
      Assoc(2, n, y);
      Assoc(2, x, d);
    }
    assert (c * (y * q)) * d == (c * (d * q)) * y by {
      assert (y * q) * d == (d * q) * y;
      Assoc(c, y * q, d);
      Assoc(c, d * q, y);
    }
    MulOrder(c * (y * q), 2 * x, d);
    MulOrder(2 * x, c * (y * q), d);
    MulOrder(c * (d * q), 2 * n, y);
    MulOrder(2 * n, c * (d * q), y);
  }

  /** Rounding off at least two bits of a jammed value rounds the exact value. */
  lemma RneOfJam(n: int, d: int, j: int, k: int, r: int)
    requires d > 0 && k > 0 && IsJam(n, d, j) && IsRne(j, 4 * k, r)
    ensures IsRne(n, d * (4 * k), r)
  {
    JamSide(n, d, j, k, 2 * r - 1);
    JamSide(n, d, j, k, 2 * r + 1);
  }

  /** A jammed value and the exact value lie on the same side of every even number. */
  lemma JamSide(n: int, d: int, j: int, k: int, c: int)
    requires d > 0 && IsJam(n, d, j)
    ensures c * (4 * k) <= 2 * j <==> c * (d * (4 * k)) <= 2 * n
    ensures c * (4 * k) >= 2 * j <==> c * (d * (4 * k)) >= 2 * n
  {
    var h := c * k;
    assert c * (4 * k) == 4 * h;
    assert c * (d * (4 * k)) == 2 * ((2 * h) * d) by {
      assert d * (4 * k) == 4 * (k * d);
      assert c * (4 * (k * d)) == 4 * (c * (k * d));
      Assoc(c, k, d);
      Assoc(2, h, d);
    }
    JamEven(n, d, j, h);
  }

  lemma JamEven(n: int, d: int, j: int, h: int)
    requires d > 0 && IsJam(n, d, j)
    ensures 2 * h <= j <==> (2 * h) * d <= n
    ensures 2 * h >= j <==> (2 * h) * d >= n
  {
    if n == j * d {
      MulOrder(2 * h, j, d);
      MulOrder(j, 2 * h, d);
    } else if 2 * h < j {
      MulOrder(2 * h, j - 1, d);
    } else {
      MulOrder(j + 1, 2 * h, d);
    }
  }

  /** Shifting a jammed register right once more, ORing the lost bit into the last one. */
  lemma JamAgain(n: int, d: int, j: nat)
    requires d > 0 && IsJam(n, d, j)
    ensures IsJam(n, 2 * d, if j % 2 == 1 && (j / 2) % 2 == 0 then j / 2 + 1 else j / 2)
  {
    var m := j / 2;
    if j % 2 == 0 {
      DoubleDenominator(m, d);
    } else {
      MulOrder(j - 1, j, d);
      MulOrder(j, j + 1, d);
      assert (j - 1) * d < n < (j + 1) * d;
      MulOrder(j - 3, j - 1, d);
      MulOrder(j + 1, j + 3, d);
      DoubleDenominator(m - 1, d);
      DoubleDenominator(m, d);
      DoubleDenominator(m + 1, d);
      DoubleDenominator(m + 2, d);
    }
  }

  lemma DoubleDenominator(k: int, d: int)
    ensures k * (2 * d) == (2 * k) * d
  {
  }

  /** Adding an even number to a jammed one, or subtracting the jammed one from
      it, jams the exact sum or difference: the smaller operand may be shifted first. */
  lemma JamSum(n: int, d: int, j: int, even: int)
    requires d > 0 && even % 2 == 0 && IsJam(n, d, j)
    ensures IsJam(even * d + n, d, even + j)
    ensures IsJam(even * d - n, d, even - j)
  {
    assert (even + j) * d == even * d + j * d;
    assert (even - j) * d == even * d - j * d;
    assert (even + j - 1) * d == even * d + (j - 1) * d;
    assert (even + j + 1) * d == even * d + (j + 1) * d;
    assert (even - j - 1) * d == even * d - (j + 1) * d;
    assert (even - j + 1) * d == even * d - (j - 1) * d;
  }

  lemma LastBits(j: nat)
    ensures Bit(j, 0) == (j % 2 == 1) && Bit(j, 1) == ((j / 2) % 2 == 1) && Bit(j, 2) == ((j / 4) % 2 == 1)
  {
    assert Pow2(2) == 4 && Pow2(1) == 2 && Pow2(0) == 1;
  }

  /** With guard, round and sticky as the last three bits of j, adding RoundUp to
      the rest rounds j/8 to the nearest even integer. */
  lemma RneOfGrs(j: nat)
    ensures IsRne(j, 8, j / 8 + RoundUp(j / 8, Bit(j, 2), Bit(j, 1), Bit(j, 0)))
  {
    hide Bit, IsRne, RoundUp;
    ThreeBits(j);
    GrsCases(j, j / 8, Bit(j, 2), Bit(j, 1), Bit(j, 0));
  }

  lemma ThreeBits(j: nat)
    ensures j == 8 * (j / 8) + (if Bit(j, 2) then 4 else 0) + (if Bit(j, 1) then 2 else 0)
            + (if Bit(j, 0) then 1 else 0)
  {
    hide Bit;
    LastBits(j);
    var half, quarter := j / 2, j / 4;
    Quarter(j, half, half / 2);
    Eighth(j, half, quarter, quarter / 2);
  }

  lemma Eighth(j: nat, half: nat, quarter: nat, eighth: nat)
    requires 2 * half <= j <= 2 * half + 1 && 2 * quarter <= half <= 2 * quarter + 1
    requires 2 * eighth <= quarter <= 2 * eighth + 1
    ensures j / 8 == eighth && j % 2 == j - 2 * half && half % 2 == half - 2 * quarter
    ensures quarter % 2 == quarter - 2 * eighth
  {
    DivUnique(j, 2, half);
    DivUnique(half, 2, quarter);
    DivUnique(quarter, 2, eighth);
    DivUnique(j, 8, eighth);
  }

  lemma GrsCases(j: nat, sig: nat, guard: bool, round: bool, sticky: bool)
    requires j == 8 * sig + (if guard then 4 else 0) + (if round then 2 else 0) + (if sticky then 1 else 0)
    ensures IsRne(j, 8, sig + RoundUp(sig, guard, round, sticky))
  {
  }

  /** The guard/round/sticky decision is round-to-nearest-even of the exact
      quotient. t holds the kept bits followed by guard and round; rem/d, a
      fraction of the round bit, is what lies below it. */
  lemma GuardRoundSticky(t: nat, d: nat, rem: nat)
    requires rem < d
    ensures IsRne(t * d + rem, 4 * d, t / 4 + RoundUp(t / 4, Bit(t, 1), Bit(t, 0), rem != 0))
  {
    GrsBits(t, rem != 0);
    RneOfGrs(2 * t + (if rem != 0 then 1 else 0));
    RneOfSticky(t, d, rem, t / 4 + RoundUp(t / 4, Bit(t, 1), Bit(t, 0), rem != 0));
  }

  lemma RneOfSticky(t: nat, d: nat, rem: nat, r: nat)
    requires rem < d && IsRne(2 * t + (if rem != 0 then 1 else 0), 8, r)
    ensures IsRne(t * d + rem, 4 * d, r)
  {
    hide IsRne, IsJam;
    var j := 2 * t + (if rem != 0 then 1 else 0);
    JamOfSticky(t, d, rem, j);
    RneOfJam(2 * (t * d + rem), d, j, 2, r);
    assert d * (4 * 2) == 2 * (4 * d);
    RneHalve(t * d + rem, 4 * d, r);
  }

  lemma JamOfSticky(t: nat, d: nat, rem: nat, j: int)
    requires rem < d && j == 2 * t + (if rem != 0 then 1 else 0)
    ensures IsJam(2 * (t * d + rem), d, j)
  {
    Assoc(2, t, d);
    assert (2 * t + 2) * d == (2 * t) * d + 2 * d;
  }

  lemma RneHalve(n: int, d: int, r: int)
    requires IsRne(2 * n, 2 * d, r)
    ensures IsRne(n, d, r)
  {
    assert (2 * r - 1) * (2 * d) == 2 * ((2 * r - 1) * d);
    assert (2 * r + 1) * (2 * d) == 2 * ((2 * r + 1) * d);
  }

  lemma GrsBits(t: nat, sticky: bool)
    ensures var j := 2 * t + (if sticky then 1 else 0);
      j / 8 == t / 4 && Bit(j, 2) == Bit(t, 1) && Bit(j, 1) == Bit(t, 0) && Bit(j, 0) == sticky
  {
    hide Bit;
    var j := 2 * t + (if sticky then 1 else 0);
    LastBits(j);
    LastBits(t);
  }

  /** Rounding off the last s bits of the register x, when x is the integer part of a
      quotient with remainder rem/d: the decision every multiplier and divider branch takes. */
  lemma RoundsQuotient(x: nat, s: nat, d: nat, rem: nat)
    requires s >= 2 && rem < d
    ensures IsRne(x * d + rem, d * Pow2(s),
                  x / Pow2(s) + RoundUp(x / Pow2(s), Bit(x, s - 1), Bit(x, s - 2), AnyBelow(x, s - 2) || rem != 0))
  {
    hide Pow2, Bit, IsRne, RoundUp;
    var p := Pow2(s - 2);
    TwoBits(x, s);
    RemainderBelow(x % p, p, d, rem);
    GuardRoundSticky(x / p, p * d, (x % p) * d + rem);
    Pow2Step(s);
    Pow2Step(s - 1);
    RegroupQuotient(x, x / p, p, x % p, d, rem);
  }

  lemma TwoBits(x: nat, s: nat)
    requires s >= 2
    ensures var t := x / Pow2(s - 2);
      t / 4 == x / Pow2(s) && Bit(t, 1) == Bit(x, s - 1) && Bit(t, 0) == Bit(x, s - 2)
  {
    hide Pow2, Bit;
    NextBit(x, s - 2);
    NextBit(x, s - 1);
    Halves(x / Pow2(s - 2), x / Pow2(s - 1), x / Pow2(s), Bit(x, s - 2), Bit(x, s - 1));
  }

  lemma Halves(t: nat, q: nat, q': nat, low: bool, high: bool)
    requires t == 2 * q + (if low then 1 else 0) && q == 2 * q' + (if high then 1 else 0)
    ensures t / 4 == q' && Bit(t, 0) == low && Bit(t, 1) == high
  {
    hide Bit;
    Quarter(t, q, q');
    LastBits(t);
  }

  lemma Quarter(t: nat, q: nat, q': nat)
    requires 2 * q <= t <= 2 * q + 1 && 2 * q' <= q <= 2 * q' + 1
    ensures t / 2 == q && t / 4 == q' && t % 2 == t - 2 * q && q % 2 == q - 2 * q'
  {
    DivUnique(t, 2, q);
    DivUnique(q, 2, q');
    DivUnique(t, 4, q');
  }

  lemma RemainderBelow(low: nat, p: nat, d: nat, rem: nat)
    requires low < p && rem < d
    ensures 0 <= low * d + rem < p * d
    ensures low * d + rem != 0 <==> low != 0 || rem != 0
  {
    MulOrder(low + 1, p, d);
    MulPositive(low, d);
    assert (low + 1) * d == low * d + d;
  }

  lemma RegroupQuotient(x: nat, t: nat, p: nat, low: nat, d: nat, rem: nat)
    requires p > 0 && t == x / p && low == x % p
    ensures t * (p * d) + (low * d + rem) == x * d + rem
    ensures 4 * (p * d) == d * (2 * (2 * p))
  {
    assert x == t * p + low;
    assert (t * p + low) * d == t * p * d + low * d;
    Assoc(t, p, d);
  }
}
