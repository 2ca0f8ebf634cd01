/** Radix-independent exact arithmetic on values `mantissa * radix^exponent`
    with integer mantissa and exponent and a radix of at least 2 (2 for binary
    floats, 10 for decimals). Two values are compared by scaling both to their
    smaller exponent, where each is an integer count of `radix^exponent` units;
    no real numbers are needed. */
module RadixMath {

  import opened Wrappers
  import opened Powers

  /** `m * radix^e`. */
  datatype Num = Num(m: int, e: int)

  function Sign(x: int): int {
    if x < 0 then -1 else if x > 0 then 1 else 0
  }

  /** The three-way comparison of integers. */
  function Cmp(x: int, y: int): int {
    Sign(x - y)
  }

  function Abs(x: int): nat {
    if x < 0 then -x else x
  }

  function MinInt(x: int, y: int): int {
    if x <= y then x else y
  }

  function MaxInt(x: int, y: int): int {
    if x <= y then y else x
  }

  /** The value of `x` counted in units of `r^E`, for `E` at most its exponent. */
  function Scaled(r: int, x: Num, E: int): int
    requires r >= 2 && E <= x.e
  {
    x.m * Pow(r, x.e - E)
  }

  /** The numerical comparison of two values. */
  function ExactCompare(r: int, a: Num, b: Num): (c: int)
    requires r >= 2
    ensures -1 <= c <= 1
  {
    var E := MinInt(a.e, b.e);
    Cmp(Scaled(r, a, E), Scaled(r, b, E))
  }

  lemma MulComm3(x: int, y: int, z: int)
    ensures x * y * z == x * (y * z) && x * (y * z) == y * (x * z)
  {
  }

  lemma MulDistrib(a: int, b: int, c: int)
    ensures (a + b) * c == a * c + b * c
  {
  }

  lemma MulLe(a: int, b: int, c: int)
    requires a <= b && c >= 0
    ensures a * c <= b * c
  {
  }

  lemma MulLt(a: int, b: int, c: int)
    requires a < b && c >= 1
    ensures a * c < b * c
  {
  }

  /** Euclidean division is determined by its quotient and remainder. */
  lemma DivUnique(n: int, d: int, q: int, rem: int)
    requires d >= 1 && 0 <= rem < d && n == q * d + rem
    ensures n / d == q && n % d == rem
  {
    var q', rem' := n / d, n % d;
    assert n == q' * d + rem';
    if q' < q {
      MulLe(q' + 1, q, d);
    } else if q' > q {
      MulLe(q + 1, q', d);
    }
  }

  /** Counting in smaller units multiplies the count by the ratio of the units. */
  lemma ScaledShift(r: int, x: Num, E: int, E': int)
    requires r >= 2 && E' <= E <= x.e
    ensures Scaled(r, x, E') == Scaled(r, x, E) * Pow(r, E - E')
  {
    PowAdd(r, x.e - E, E - E');
    MulComm3(x.m, Pow(r, x.e - E), Pow(r, E - E'));
  }

  lemma CmpScaled(x: int, y: int, p: int)
    requires p >= 1
    ensures Cmp(x * p, y * p) == Cmp(x, y)
  {
    assert x * p - y * p == (x - y) * p;
    if x < y {
      assert (x - y) * p <= (x - y);
    } else if x > y {
      assert (x - y) * p >= (x - y);
    }
  }

  /** The comparison does not depend on the unit chosen, so it compares the
      values themselves. */
  lemma ExactCompareAtAnyExponent(r: int, a: Num, b: Num, E: int)
    requires r >= 2 && E <= a.e && E <= b.e
    ensures ExactCompare(r, a, b) == Cmp(Scaled(r, a, E), Scaled(r, b, E))
  {
    var E0 := MinInt(a.e, b.e);
    ScaledShift(r, a, E0, E);
    ScaledShift(r, b, E0, E);
    PowPositive(r, E0 - E);
    CmpScaled(Scaled(r, a, E0), Scaled(r, b, E0), Pow(r, E0 - E));
  }

  lemma ExactCompareAntisymmetric(r: int, a: Num, b: Num)
    requires r >= 2
    ensures ExactCompare(r, b, a) == -ExactCompare(r, a, b)
  {
  }

  lemma ExactCompareTransitive(r: int, a: Num, b: Num, c: Num)
    requires r >= 2
    requires ExactCompare(r, a, b) <= 0 && ExactCompare(r, b, c) <= 0
    ensures ExactCompare(r, a, c) <= 0
  {
    var E := MinInt(a.e, MinInt(b.e, c.e));
    ExactCompareAtAnyExponent(r, a, b, E);
    ExactCompareAtAnyExponent(r, b, c, E);
    ExactCompareAtAnyExponent(r, a, c, E);
  }

  /** The sign of a value is the sign of its mantissa. */
  lemma SignOfScaled(r: int, x: Num, E: int)
    requires r >= 2 && E <= x.e
    ensures Sign(Scaled(r, x, E)) == Sign(x.m)
  {
    PowPositive(r, x.e - E);
    if x.m > 0 {
      assert x.m * Pow(r, x.e - E) >= Pow(r, x.e - E);
    } else if x.m < 0 {
      assert x.m * Pow(r, x.e - E) <= -Pow(r, x.e - E);
    }
  }

  // ------------------------------------------------------------------- digits

  /** The number of radix digits of a natural number, as the shift
      accumulator counts them: zero has one digit. */
  function DigitLength(r: int, n: nat): (k: nat)
    requires r >= 2
    ensures k >= 1
    decreases n
  {
    if n < r then 1
    else
      DivShrinks(n, r);
      1 + DigitLength(r, n / r)
  }

  lemma {:induction false} DigitLengthBound(r: int, n: nat)
    requires r >= 2
    ensures n < Pow(r, DigitLength(r, n))
    decreases n
  {
    if n >= r {
      var q := n / r;
      DivShrinks(n, r);
      DigitLengthBound(r, q);
      var k := DigitLength(r, q);
      var p := Pow(r, k);
      assert DigitLength(r, n) == k + 1;
      assert Pow(r, k + 1) == r * p;
      DivBelowNext(n, r);
      MulLe(q + 1, p, r);
    }
  }

  lemma DivShrinks(n: nat, r: int)
    requires r >= 2 && n >= 1
    ensures n / r < n
  {
    assert n == (n / r) * r + n % r;
    if n / r >= n {
      MulLe(n, n / r, r);
    }
  }

  lemma DivBelowNext(n: nat, r: int)
    requires r >= 1
    ensures n < (n / r + 1) * r
  {
    assert n == (n / r) * r + n % r;
  }

  lemma {:induction false} DigitLengthOfPower(r: int, k: nat)
    requires r >= 2
    ensures DigitLength(r, Pow(r, k)) == k + 1
  {
    if k > 0 {
      var p := Pow(r, k - 1);
      PowPositive(r, k - 1);
      assert Pow(r, k) == p * r;
      DivUnique(p * r, r, p, 0);
      MulLe(1, p, r);
      DigitLengthOfPower(r, k - 1);
    }
  }

  // ---------------------------------------------------------------- comparison

  /** `RescaleByExponentDiff` of the number helper: the mantissa multiplied by
      the radix raised to the distance between two exponents. */
  function Rescale(r: int, mant: int, e1: int, e2: int): int
    requires r >= 2
  {
    mant * Pow(r, Abs(e1 - e2))
  }

  /** When a large exponent difference lets the comparison skip scaling a
      mantissa by the full difference: as written, once the difference plus 3
      exceeds the larger digit count of the two mantissas. */
  predicate ClampAsWritten(expdiff: int, maxPrecision: int) {
    expdiff >= 100 && expdiff + 3 > maxPrecision
  }

  /** The corrected guard: only once the difference reaches the larger digit
      count, so that the scaled mantissa outweighs the other one whatever the
      distance. */
  predicate ClampCorrected(expdiff: int, maxPrecision: int) {
    expdiff >= 100 && expdiff >= maxPrecision
  }

  /** `compareTo` with a choice of guard for its shortcut: a missing second
      operand compares as 1, different signs decide by sign, equal mantissas
      decide by exponent, and otherwise the mantissa with the larger exponent is
      scaled, by at most `maxPrecision + 8` digits when the guard admits it. */
  function CompareWith(r: int, a: Num, b: Option<Num>, asWritten: bool): (c: int)
    requires r >= 2
    ensures -1 <= c <= 1
  {
    if b.None? then 1
    else
      var b := b.value;
      var s, ds := Sign(a.m), Sign(b.m);
      if s != ds then (if s < ds then -1 else 1)
      else
        var expcmp := Cmp(a.e, b.e);
        var mantcmp := Cmp(a.m, b.m);
        if mantcmp == 0 then (if s == 0 then 0 else expcmp * s)
        else if ds == 0 then s
        else if s == 0 then -ds
        else if expcmp == 0 then mantcmp
        else
          var expdiff := Abs(a.e - b.e);
          var maxPrecision := MaxInt(DigitLength(r, Abs(a.m)), DigitLength(r, Abs(b.m)));
          var clamp := if asWritten then ClampAsWritten(expdiff, maxPrecision) else ClampCorrected(expdiff, maxPrecision);
          // the 8 extra digits are guard digits
          var e1 := if clamp && a.e < b.e then b.e - maxPrecision - 8 else a.e;
          var e2 := if clamp && a.e > b.e then a.e - maxPrecision - 8 else b.e;
          if e1 > e2 then Cmp(Rescale(r, a.m, e1, e2), b.m)
          else Cmp(a.m, Rescale(r, b.m, e1, e2))
  }

  /** `compareTo` exactly as written. */
  function CompareToAsWritten(r: int, a: Num, b: Option<Num>): (c: int)
    requires r >= 2
    ensures b.None? ==> c == 1
  {
    CompareWith(r, a, b, true)
  }

  /** `compareTo` with the corrected guard. */
  function CompareTo(r: int, a: Num, b: Option<Num>): (c: int)
    requires r >= 2
    ensures b.None? ==> c == 1
    ensures b.Some? && Sign(a.m) != Sign(b.value.m) ==> c == Cmp(Sign(a.m), Sign(b.value.m))
  {
    CompareWith(r, a, b, false)
  }

  /** A mantissa scaled by at least its partner's digit count outweighs it: the
      comparison is decided by the common sign. */
  lemma DominantScale(r: int, m1: int, m2: int, k: nat)
    requires r >= 2
    requires Sign(m1) == Sign(m2) != 0
    requires k >= DigitLength(r, Abs(m1))
    ensures Cmp(m1, m2 * Pow(r, k)) == -Sign(m1)
  {
    DigitLengthBound(r, Abs(m1));
    PowMonotone(r, DigitLength(r, Abs(m1)), k);
    var p := Pow(r, k);
    assert Abs(m1) < p;
    if m2 > 0 {
      MulLe(1, m2, p);
    } else {
      MulLe(m2, -1, p);
    }
  }

  lemma DominantScaleLeft(r: int, m1: int, m2: int, k: nat)
    requires r >= 2
    requires Sign(m1) == Sign(m2) != 0
    requires k >= DigitLength(r, Abs(m2))
    ensures Cmp(m1 * Pow(r, k), m2) == Sign(m1)
  {
    DominantScale(r, m2, m1, k);
  }

  /** Scaling a nonzero mantissa by a positive power of the radix moves it away
      from zero. */
  lemma ScaledAway(r: int, m: int, k: nat)
    requires r >= 2 && m != 0 && k >= 1
    ensures Cmp(m, m * Pow(r, k)) == -Sign(m)
  {
    PowStrictlyIncreasing(r, 0, k);
    if m > 0 {
      MulLt(1, Pow(r, k), m);
    } else {
      MulLt(1, Pow(r, k), -m);
    }
  }

  /** The operand with the smaller exponent keeps its mantissa when both are
      counted at that exponent. */
  lemma ScaledAtOwnExponent(r: int, x: Num)
    requires r >= 2
    ensures Scaled(r, x, x.e) == x.m
  {
  }

  /** `compareTo` on operands of one nonzero sign, different mantissas and a
      smaller first exponent. */
  lemma CompareToIsExactBelow(r: int, a: Num, b: Num)
    requires r >= 2
    requires Sign(a.m) == Sign(b.m) != 0 && a.m != b.m && a.e < b.e
    ensures CompareTo(r, a, Some(b)) == ExactCompare(r, a, b)
  {
    var expdiff := Abs(a.e - b.e);
    var maxPrecision := MaxInt(DigitLength(r, Abs(a.m)), DigitLength(r, Abs(b.m)));
    ScaledAtOwnExponent(r, a);
    assert ExactCompare(r, a, b) == Cmp(a.m, b.m * Pow(r, expdiff));
    if ClampCorrected(expdiff, maxPrecision) {
      DominantScale(r, a.m, b.m, maxPrecision + 8);
      DominantScale(r, a.m, b.m, expdiff);
      assert CompareTo(r, a, Some(b)) == Cmp(a.m, b.m * Pow(r, maxPrecision + 8));
    } else {
      assert CompareTo(r, a, Some(b)) == Cmp(a.m, b.m * Pow(r, expdiff));
    }
  }

  /** `compareTo` on operands of one nonzero sign, different mantissas and a
      larger first exponent. */
  lemma CompareToIsExactAbove(r: int, a: Num, b: Num)
    requires r >= 2
    requires Sign(a.m) == Sign(b.m) != 0 && a.m != b.m && a.e > b.e
    ensures CompareTo(r, a, Some(b)) == ExactCompare(r, a, b)
  {
    var expdiff := Abs(a.e - b.e);
    var maxPrecision := MaxInt(DigitLength(r, Abs(a.m)), DigitLength(r, Abs(b.m)));
    ScaledAtOwnExponent(r, b);
    assert ExactCompare(r, a, b) == Cmp(a.m * Pow(r, expdiff), b.m);
    if ClampCorrected(expdiff, maxPrecision) {
      DominantScaleLeft(r, a.m, b.m, maxPrecision + 8);
      DominantScaleLeft(r, a.m, b.m, expdiff);
      assert CompareTo(r, a, Some(b)) == Cmp(a.m * Pow(r, maxPrecision + 8), b.m);
    } else {
      assert CompareTo(r, a, Some(b)) == Cmp(a.m * Pow(r, expdiff), b.m);
    }
  }

  /** `compareTo` on equal nonzero mantissas: the larger exponent is further
      from zero. */
  lemma CompareToIsExactSameMantissa(r: int, a: Num, b: Num)
    requires r >= 2
    requires a.m == b.m != 0 && a.e != b.e
    ensures CompareTo(r, a, Some(b)) == ExactCompare(r, a, b)
  {
    if a.e < b.e {
      ScaledAtOwnExponent(r, a);
      ScaledAway(r, a.m, b.e - a.e);
    } else {
      ScaledAtOwnExponent(r, b);
      ScaledAway(r, a.m, a.e - b.e);
    }
  }

  /** With the corrected guard, `compareTo` is the numerical comparison. */
  lemma CompareToIsExact(r: int, a: Num, b: Num)
    requires r >= 2
    ensures CompareTo(r, a, Some(b)) == ExactCompare(r, a, b)
  {
    var E := MinInt(a.e, b.e);
    SignOfScaled(r, a, E);
    SignOfScaled(r, b, E);
    var s := Sign(a.m);
    if s == Sign(b.m) && s != 0 && a.e != b.e {
      if a.m == b.m {
        CompareToIsExactSameMantissa(r, a, b);
      } else if a.e < b.e {
        CompareToIsExactBelow(r, a, b);
      } else {
        CompareToIsExactAbove(r, a, b);
      }
    }
  }

  /** As written, the shortcut gets the order wrong whenever the exponents are at
      least 100 apart but the larger mantissa has two digits more than that
      difference: `r^(k+1)` at exponent 0 is greater than 1 at exponent `k`, yet
      `compareTo` finds it smaller. */
  lemma CompareToAsWrittenMisorders(r: int, k: nat)
    requires r >= 2 && k >= 100
    ensures CompareToAsWritten(r, Num(Pow(r, k + 1), 0), Some(Num(1, k))) == -1
    ensures ExactCompare(r, Num(Pow(r, k + 1), 0), Num(1, k)) == 1
  {
    var a, b := Num(Pow(r, k + 1), 0), Num(1, k);
    DigitLengthOfPower(r, k + 1);
    PowPositive(r, k + 1);
    assert DigitLength(r, 1) == 1;
    var maxPrecision := k + 2;
    assert ClampAsWritten(k, maxPrecision);
    PowStrictlyIncreasing(r, k + 1, k + 10);
    assert CompareToAsWritten(r, a, Some(b)) == Cmp(Pow(r, k + 1), 1 * Pow(r, k + 10));
    PowStrictlyIncreasing(r, k, k + 1);
    assert ExactCompare(r, a, b) == Cmp(Pow(r, k + 1) * 1, 1 * Pow(r, k));
  }

  /** The smallest instance: in radix 10, `10^101` against 1 at exponent 100. */
  lemma CompareToAsWrittenMisordersDecimal()
    ensures CompareToAsWritten(10, Num(Pow(10, 101), 0), Some(Num(1, 100))) != ExactCompare(10, Num(Pow(10, 101), 0), Num(1, 100))
  {
    CompareToAsWrittenMisorders(10, 100);
  }

  // ------------------------------------------------------------ min and max

  /** The operands on which the two guards disagree: the exponent difference
      reaches 100 and exceeds the larger digit count less 3, but stays below
      the count itself. */
  predicate InGuardGap(r: int, a: Num, b: Num)
    requires r >= 2
  {
    var expdiff := Abs(a.e - b.e);
    var maxPrecision := MaxInt(DigitLength(r, Abs(a.m)), DigitLength(r, Abs(b.m)));
    ClampAsWritten(expdiff, maxPrecision) && !ClampCorrected(expdiff, maxPrecision)
  }

  /** Outside that gap the comparison as written is exact. */
  lemma CompareToAsWrittenOutsideGap(r: int, a: Num, b: Num)
    requires r >= 2
    ensures !InGuardGap(r, a, b) ==> CompareToAsWritten(r, a, Some(b)) == ExactCompare(r, a, b)
  {
    CompareToIsExact(r, a, b);
  }

  /** The misordered operands lie in the gap. */
  lemma MisorderedOperandsInGap(r: int, k: nat)
    requires r >= 2 && k >= 100
    ensures InGuardGap(r, Num(Pow(r, k + 1), 0), Num(1, k))
  {
    DigitLengthOfPower(r, k + 1);
    assert DigitLength(r, 1) == 1;
  }

  /** The operand `Min` picks once the two are compared: on a tie, the smaller
      exponent when non-negative and the larger exponent when negative. */
  function MinOf(a: Num, b: Num, cmp: int): Num {
    if cmp != 0 then (if cmp > 0 then b else a)
    else if Sign(a.m) >= 0 then (if a.e > b.e then b else a)
    else (if a.e > b.e then a else b)
  }

  /** The operand `Max` picks once the two are compared: on a tie, the larger
      exponent when non-negative and the smaller exponent when negative. */
  function MaxOf(a: Num, b: Num, cmp: int): Num {
    if cmp != 0 then (if cmp > 0 then a else b)
    else if Sign(a.m) >= 0 then (if a.e > b.e then a else b)
    else (if a.e > b.e then b else a)
  }

  /** `Min` over the corrected comparison: the smaller value; of two numerically
      equal values, the one with the smaller exponent when non-negative and the
      larger exponent when negative. */
  function Min(r: int, a: Num, b: Num): (x: Num)
    requires r >= 2
    ensures x == a || x == b
    ensures ExactCompare(r, x, a) <= 0 && ExactCompare(r, x, b) <= 0
    ensures ExactCompare(r, a, b) == 0 ==>
      x.e == (if Sign(a.m) >= 0 then MinInt(a.e, b.e) else MaxInt(a.e, b.e))
  {
    CompareToIsExact(r, a, b);
    ExactCompareAntisymmetric(r, a, b);
    MinOf(a, b, CompareTo(r, a, Some(b)))
  }

  /** `Min` over the comparison as written: one of its arguments, and the same
      one as the corrected `Min` wherever the comparison is exact, in particular
      outside the gap. */
  function MinAsWritten(r: int, a: Num, b: Num): (x: Num)
    requires r >= 2
    ensures x == a || x == b
    ensures CompareToAsWritten(r, a, Some(b)) == ExactCompare(r, a, b) ==> x == Min(r, a, b)
    ensures !InGuardGap(r, a, b) ==> x == Min(r, a, b)
  {
    CompareToIsExact(r, a, b);
    CompareToAsWrittenOutsideGap(r, a, b);
    MinOf(a, b, CompareToAsWritten(r, a, Some(b)))
  }

  /** `Max` over the corrected comparison: the larger value; of two numerically
      equal values, the one with the larger exponent when non-negative and the
      smaller exponent when negative. */
  function Max(r: int, a: Num, b: Num): (x: Num)
    requires r >= 2
    ensures x == a || x == b
    ensures ExactCompare(r, x, a) >= 0 && ExactCompare(r, x, b) >= 0
    ensures ExactCompare(r, a, b) == 0 ==>
      x.e == (if Sign(a.m) >= 0 then MaxInt(a.e, b.e) else MinInt(a.e, b.e))
  {
    CompareToIsExact(r, a, b);
    ExactCompareAntisymmetric(r, a, b);
    MaxOf(a, b, CompareTo(r, a, Some(b)))
  }

  /** `Max` over the comparison as written: one of its arguments, and the same
      one as the corrected `Max` wherever the comparison is exact. */
  function MaxAsWritten(r: int, a: Num, b: Num): (x: Num)
    requires r >= 2
    ensures x == a || x == b
    ensures CompareToAsWritten(r, a, Some(b)) == ExactCompare(r, a, b) ==> x == Max(r, a, b)
    ensures !InGuardGap(r, a, b) ==> x == Max(r, a, b)
  {
    CompareToIsExact(r, a, b);
    CompareToAsWrittenOutsideGap(r, a, b);
    MaxOf(a, b, CompareToAsWritten(r, a, Some(b)))
  }

  /** The absolute value. */
  function AbsNum(x: Num): Num {
    Num(Abs(x.m), x.e)
  }

  /** `MinMagnitude` over the corrected comparison: the value of smaller absolute
      value, or `Min` on a tie. */
  function MinMagnitude(r: int, a: Num, b: Num): (x: Num)
    requires r >= 2
    ensures x == a || x == b
    ensures ExactCompare(r, AbsNum(x), AbsNum(a)) <= 0 && ExactCompare(r, AbsNum(x), AbsNum(b)) <= 0
    ensures ExactCompare(r, AbsNum(a), AbsNum(b)) == 0 ==> x == Min(r, a, b)
  {
    CompareToIsExact(r, AbsNum(a), AbsNum(b));
    ExactCompareAntisymmetric(r, AbsNum(a), AbsNum(b));
    var cmp := CompareTo(r, AbsNum(a), Some(AbsNum(b)));
    if cmp == 0 then Min(r, a, b) else if cmp < 0 then a else b
  }

  /** `MinMagnitude` over the comparison as written, tie broken by `Min` as
      written: the corrected result whenever neither pair of operands falls in
      the gap. */
  function MinMagnitudeAsWritten(r: int, a: Num, b: Num): (x: Num)
    requires r >= 2
    ensures x == a || x == b
    ensures !InGuardGap(r, AbsNum(a), AbsNum(b)) && !InGuardGap(r, a, b) ==> x == MinMagnitude(r, a, b)
  {
    CompareToIsExact(r, AbsNum(a), AbsNum(b));
    CompareToAsWrittenOutsideGap(r, AbsNum(a), AbsNum(b));
    var cmp := CompareToAsWritten(r, AbsNum(a), Some(AbsNum(b)));
    if cmp == 0 then MinAsWritten(r, a, b) else if cmp < 0 then a else b
  }

  /** `MaxMagnitude` over the corrected comparison: the value of larger absolute
      value, or `Max` on a tie. */
  function MaxMagnitude(r: int, a: Num, b: Num): (x: Num)
    requires r >= 2
    ensures x == a || x == b
    ensures ExactCompare(r, AbsNum(x), AbsNum(a)) >= 0 && ExactCompare(r, AbsNum(x), AbsNum(b)) >= 0
    ensures ExactCompare(r, AbsNum(a), AbsNum(b)) == 0 ==> x == Max(r, a, b)
  {
    CompareToIsExact(r, AbsNum(a), AbsNum(b));
    ExactCompareAntisymmetric(r, AbsNum(a), AbsNum(b));
    var cmp := CompareTo(r, AbsNum(a), Some(AbsNum(b)));
    if cmp == 0 then Max(r, a, b) else if cmp > 0 then a else b
  }

  /** `MaxMagnitude` over the comparison as written, tie broken by `Max` as
      written: the corrected result whenever neither pair of operands falls in
      the gap. */
  function MaxMagnitudeAsWritten(r: int, a: Num, b: Num): (x: Num)
    requires r >= 2
    ensures x == a || x == b
    ensures !InGuardGap(r, AbsNum(a), AbsNum(b)) && !InGuardGap(r, a, b) ==> x == MaxMagnitude(r, a, b)
  {
    CompareToIsExact(r, AbsNum(a), AbsNum(b));
    CompareToAsWrittenOutsideGap(r, AbsNum(a), AbsNum(b));
    var cmp := CompareToAsWritten(r, AbsNum(a), Some(AbsNum(b)));
    if cmp == 0 then MaxAsWritten(r, a, b) else if cmp > 0 then a else b
  }

  /** As written, `Min` and `MinMagnitude` pick `r^(k+1)` at exponent 0 over 1 at
      exponent `k`, though it is the larger, and `Max` and `MaxMagnitude` pick
      the smaller; the corrected versions pick the other operand. */
  lemma MinMaxAsWrittenMisorder(r: int, k: nat)
    requires r >= 2 && k >= 100
    ensures MinAsWritten(r, Num(Pow(r, k + 1), 0), Num(1, k)) == Num(Pow(r, k + 1), 0)
    ensures Min(r, Num(Pow(r, k + 1), 0), Num(1, k)) == Num(1, k)
    ensures MaxAsWritten(r, Num(Pow(r, k + 1), 0), Num(1, k)) == Num(1, k)
    ensures Max(r, Num(Pow(r, k + 1), 0), Num(1, k)) == Num(Pow(r, k + 1), 0)
    ensures MinMagnitudeAsWritten(r, Num(Pow(r, k + 1), 0), Num(1, k)) == Num(Pow(r, k + 1), 0)
    ensures MaxMagnitudeAsWritten(r, Num(Pow(r, k + 1), 0), Num(1, k)) == Num(1, k)
  {
    var a, b := Num(Pow(r, k + 1), 0), Num(1, k);
    CompareToAsWrittenMisorders(r, k);
    CompareToIsExact(r, a, b);
    PowPositive(r, k + 1);
    assert AbsNum(a) == a && AbsNum(b) == b;
  }

  // ------------------------------------------------------------- arithmetic

  /** Context-free `Add`: the mantissa with the larger exponent is scaled down to
      the smaller exponent and the mantissas are added. */
  function Add(r: int, a: Num, b: Num): (x: Num)
    requires r >= 2
    ensures x.e == MinInt(a.e, b.e)
  {
    var expcmp := Cmp(a.e, b.e);
    if expcmp == 0 then Num(a.m + b.m, a.e)
    else
      var resultExponent := if expcmp < 0 then a.e else b.e;
      if expcmp > 0 then Num(Rescale(r, a.m, a.e, b.e) + b.m, resultExponent)
      else Num(Rescale(r, b.m, a.e, b.e) + a.m, resultExponent)
  }

  /** The sum is exact in the unit of its own exponent. */
  lemma AddIsExactAtOwnExponent(r: int, a: Num, b: Num)
    requires r >= 2
    ensures Scaled(r, Add(r, a, b), Add(r, a, b).e)
         == Scaled(r, a, Add(r, a, b).e) + Scaled(r, b, Add(r, a, b).e)
  {
    ScaledAtOwnExponent(r, Add(r, a, b));
    if a.e <= b.e {
      ScaledAtOwnExponent(r, a);
    } else {
      ScaledAtOwnExponent(r, b);
    }
  }

  /** The sum is exact, in any unit. */
  lemma AddIsExact(r: int, a: Num, b: Num, E: int)
    requires r >= 2 && E <= a.e && E <= b.e
    ensures Scaled(r, Add(r, a, b), E) == Scaled(r, a, E) + Scaled(r, b, E)
  {
    var x := Add(r, a, b);
    var E0 := x.e;
    AddIsExactAtOwnExponent(r, a, b);
    ScaledShift(r, x, E0, E);
    ScaledShift(r, a, E0, E);
    ScaledShift(r, b, E0, E);
    MulDistrib(Scaled(r, a, E0), Scaled(r, b, E0), Pow(r, E0 - E));
  }

  /** Context-free `Multiply`: the product of the mantissas at the sum of the
      exponents. */
  function Multiply(r: int, a: Num, b: Num): (x: Num)
    requires r >= 2
    ensures x.e == a.e + b.e
  {
    Num(a.m * b.m, a.e + b.e)
  }

  /** The product is exact: counted in the product of two units it is the
      product of the counts. */
  lemma MultiplyIsExact(r: int, a: Num, b: Num, E1: int, E2: int)
    requires r >= 2 && E1 <= a.e && E2 <= b.e
    ensures Scaled(r, Multiply(r, a, b), E1 + E2) == Scaled(r, a, E1) * Scaled(r, b, E2)
  {
    var p, q := Pow(r, a.e - E1), Pow(r, b.e - E2);
    PowAdd(r, a.e - E1, b.e - E2);
    assert Scaled(r, Multiply(r, a, b), E1 + E2) == a.m * b.m * (p * q);
    calc {
      a.m * b.m * (p * q);
      { MulComm3(a.m * b.m, p, q); }
      a.m * b.m * p * q;
      { MulComm3(a.m, b.m, p); }
      (a.m * p) * b.m * q;
      { MulComm3(a.m * p, b.m, q); }
      (a.m * p) * (b.m * q);
    }
  }

  /** `EnsureSign`: a positive value is negated when a negative one is asked for
      and a negative value replaced by its absolute value when a non-negative one
      is; otherwise the value is returned as it is. */
  function EnsureSign(x: Num, negative: bool): (y: Num)
    ensures y.e == x.e && Abs(y.m) == Abs(x.m)
    ensures negative ==> y.m <= 0
    ensures !negative ==> y.m >= 0
  {
    var sign := Sign(x.m);
    if negative && sign > 0 then Num(-x.m, x.e)
    else if !negative && sign < 0 then AbsNum(x)
    else x
  }

  // ------------------------------------------------------------------ guards

  datatype IntegerMode = Regular | FixedScale | NaturalScale

  /** How a division starts, before any digit of the quotient is computed. */
  datatype DivisionStart =
    | DivisionByZero
    /** A zero dividend: zero at the exponent shown, before it is rounded to the
        precision of the context. */
    | ZeroQuotient(q: Num)
    | LongDivision

  /** The guards of `DivideInternal`: a zero divisor is an error, and a zero
      dividend yields zero, at the desired exponent in fixed-scale mode and at
      the difference of the exponents otherwise. */
  function DivideStart(a: Num, b: Num, mode: IntegerMode, desiredExponent: int): (d: DivisionStart)
    ensures d.DivisionByZero? <==> b.m == 0
    ensures d.ZeroQuotient? <==> b.m != 0 && a.m == 0
    ensures d.ZeroQuotient? ==> d.q.m == 0
    ensures d.ZeroQuotient? && mode == FixedScale ==> d.q.e == desiredExponent
    ensures d.ZeroQuotient? && mode != FixedScale ==> d.q.e == a.e - b.e
  {
    var signA, signB := Sign(a.m), Sign(b.m);
    if signB == 0 then DivisionByZero
    else if signA == 0 then
      if mode == FixedScale then ZeroQuotient(Num(0, desiredExponent))
      else ZeroQuotient(Num(0, a.e - b.e))
    else LongDivision
  }

  /** A zero quotient is exact: multiplied back by the divisor it gives the zero
      dividend. */
  lemma ZeroQuotientIsExact(r: int, a: Num, b: Num, mode: IntegerMode, desiredExponent: int)
    requires r >= 2
    requires DivideStart(a, b, mode, desiredExponent).ZeroQuotient?
    ensures ExactCompare(r, Multiply(r, b, DivideStart(a, b, mode, desiredExponent).q), a) == 0
  {
    var x := Multiply(r, b, DivideStart(a, b, mode, desiredExponent).q);
    var E := MinInt(x.e, a.e);
    assert Scaled(r, x, E) == 0 * Pow(r, x.e - E);
    assert Scaled(r, a, E) == 0 * Pow(r, a.e - E);
  }

  /** A right shift by `d` radix digits: the kept digits, the last discarded digit
      and the remaining discarded digits, as the shift accumulator reports them. */
  datatype Shifted = Shifted(kept: nat, last: nat, older: nat)

  function ShiftRight(r: int, n: nat, d: nat): (s: Shifted)
    requires r >= 2 && d >= 1
    ensures s.last < r && s.older < Pow(r, d - 1)
  {
    PowPositive(r, d);
    PowPositive(r, d - 1);
    Shifted(n / Pow(r, d), (n / Pow(r, d - 1)) % r, n % Pow(r, d - 1))
  }

  lemma DivDiv(n: nat, a: int, b: int)
    requires a >= 1 && b >= 1
    ensures n / (a * b) == (n / a) / b
  {
    var t := n / a;
    var q := t / b;
    var rest := (t % b) * a + n % a;
    assert n == t * a + n % a;
    assert t == q * b + t % b;
    assert t * a == q * (a * b) + (t % b) * a by {
      assert (q * b + t % b) * a == q * b * a + (t % b) * a;
      MulComm3(q, b, a);
    }
    MulLe(t % b, b - 1, a);
    assert (b - 1) * a == a * b - a;
    DivUnique(n, a * b, q, rest);
  }

  /** The three parts of a shift put the number back together. */
  lemma ShiftRightParts(r: int, n: nat, d: nat)
    requires r >= 2 && d >= 1
    ensures var s := ShiftRight(r, n, d);
      n == s.kept * Pow(r, d) + s.last * Pow(r, d - 1) + s.older
  {
    var R := Pow(r, d - 1);
    PowPositive(r, d - 1);
    var t := n / R;
    DivDiv(n, R, r);
    assert Pow(r, d) == R * r;
    MulDistrib((t / r) * r, t % r, R);
    MulComm3(t / r, r, R);
  }

  /** The unrounded result of `Quantize`: the value at the exponent of `other`
      with the last and older discarded digits, or an error when the mantissa
      would be scaled by more than the precision plus 10 digits. */
  function QuantizeCandidate(r: int, x: Num, other: Num, precision: nat): (c: Result<(Num, nat, nat)>)
    requires r >= 2
    ensures c.Ok? ==> c.value.0.e == other.e || (x.e == other.e && c.value.0 == x)
    ensures c.Err? <==> x.m != 0 && x.e > other.e && precision > 0 && x.e - other.e > precision + 10
    ensures c.Ok? && x.e >= other.e ==> c.value.1 == 0 && c.value.2 == 0
  {
    var mantThis := Abs(x.m);
    var expcmp := Cmp(x.e, other.e);
    var signThis := Sign(x.m);
    if expcmp == 0 then Ok((x, 0, 0))
    else if mantThis == 0 then Ok((Num(0, other.e), 0, 0))
    else if expcmp > 0 then
      var radixPower := x.e - other.e;
      if precision > 0 && radixPower > precision + 10 then Err("Radix power too high")
      else
        var m := mantThis * Pow(r, radixPower);
        Ok((Num(if signThis < 0 then -m else m, other.e), 0, 0))
    else
      var s := ShiftRight(r, mantThis, other.e - x.e);
      var kept: int := s.kept;
      Ok((Num(if signThis < 0 then -kept else kept, other.e), s.last, s.older))
  }

  /** `Quantize`: the value re-expressed at the exponent of `other`. Raising the
      exponent shifts digits out, lowering it scales the mantissa up, and the
      candidate is rounded by `round` (which is given the discarded digits and
      yields nothing on overflow). A scaling by more than the precision plus 10
      digits, an overflow, or a rounding that moves the exponent is an error; a
      negative value that rounds to a positive one has its sign restored. */
  function Quantize(r: int, x: Num, other: Num, precision: nat,
                    round: (Num, nat, nat) -> Option<Num>): (y: Result<Num>)
    requires r >= 2
    ensures y.Ok? ==> y.value.e == other.e
    ensures x.m != 0 && x.e > other.e && precision > 0 && x.e - other.e > precision + 10 ==> y.Err?
    ensures y.Ok? && x.m < 0 ==> y.value.m <= 0
  {
    var c :- QuantizeCandidate(r, x, other, precision);
    var ret := round(c.0, c.1, c.2);
    if ret.None? || ret.value.e != other.e then Err("Quantize failed")
    else if Sign(x.m) < 0 && Sign(ret.value.m) > 0 then Ok(Num(-ret.value.m, ret.value.e))
    else Ok(ret.value)
  }

  /** The rounding that changes nothing. */
  function Exact(c: Num, last: nat, older: nat): Option<Num> {
    Some(c)
  }

  /** Without rounding, lowering the exponent keeps the value exactly. */
  lemma QuantizeLoweringIsExact(r: int, x: Num, other: Num, precision: nat)
    requires r >= 2 && x.e >= other.e
    requires !(x.m != 0 && x.e > other.e && precision > 0 && x.e - other.e > precision + 10)
    ensures Quantize(r, x, other, precision, Exact).Ok?
    ensures ExactCompare(r, Quantize(r, x, other, precision, Exact).value, x) == 0
  {
    var y := Quantize(r, x, other, precision, Exact).value;
    ScaledAtOwnExponent(r, y);
    if x.e > other.e && x.m != 0 {
      assert Scaled(r, x, other.e) == x.m * Pow(r, x.e - other.e);
    }
  }

  /** Without rounding, raising the exponent truncates toward zero. */
  lemma QuantizeRaisingTruncates(r: int, x: Num, other: Num, precision: nat)
    requires r >= 2 && x.e < other.e
    ensures Quantize(r, x, other, precision, Exact).Ok?
    ensures Quantize(r, x, other, precision, Exact).value.m
         == Sign(x.m) * (Abs(x.m) / Pow(r, other.e - x.e))
  {
  }

  /** Without rounding, lowering the exponent keeps the value exactly, and
      raising it truncates toward zero. */
  lemma QuantizeWithoutRounding(r: int, x: Num, other: Num, precision: nat)
    requires r >= 2
    requires !(x.m != 0 && x.e > other.e && precision > 0 && x.e - other.e > precision + 10)
    ensures Quantize(r, x, other, precision, Exact).Ok?
    ensures x.e >= other.e ==>
      ExactCompare(r, Quantize(r, x, other, precision, Exact).value, x) == 0
    ensures x.e < other.e ==>
      Quantize(r, x, other, precision, Exact).value.m
        == Sign(x.m) * (Abs(x.m) / Pow(r, other.e - x.e))
  {
    if x.e >= other.e {
      QuantizeLoweringIsExact(r, x, other, precision);
    } else {
      QuantizeRaisingTruncates(r, x, other, precision);
    }
  }

  // ---------------------------------------------------------------- rounding

  datatype Rounding = Down | Up | HalfUp | HalfDown | HalfEven | Ceiling | Floor | ZeroFiveUp

  /** Java's `BigInteger.remainder`: the remainder of division truncated toward
      zero, which has the sign of the dividend. */
  function TruncRem(x: int, d: int): int
    requires d > 0
  {
    if x >= 0 then x % d else -((-x) % d)
  }

  /** The rounding decision: whether the kept digits `bigval` are incremented,
      given the last discarded digit and whether older discarded digits are
      nonzero. `(last | older) != 0` is written as a disjunction. */
  function Round(r: int, mode: Rounding, last: nat, older: nat, neg: bool, bigval: int): bool
    requires r >= 2
  {
    var h := r / 2;
    match mode
    case HalfUp => last >= h
    case HalfEven => last >= h && (last > h || older != 0 || bigval % 2 == 1)
    case Ceiling => !neg && (last != 0 || older != 0)
    case Floor => neg && (last != 0 || older != 0)
    case HalfDown => last > h || (last == h && older != 0)
    case Up => last != 0 || older != 0
    case ZeroFiveUp =>
      (last != 0 || older != 0) && (r == 2 || TruncRem(bigval, r) == 0 || TruncRem(bigval, r) == h)
    case Down => false
  }

  lemma HalfBounds(r: int, R: int, last: int, rem: int)
    requires r >= 2 && r % 2 == 0 && R >= 1
    requires 0 <= last < r && 0 <= rem < R
    ensures last >= r / 2 <==> 2 * (last * R + rem) >= r * R
    ensures (last > r / 2 || (last == r / 2 && rem != 0)) <==> 2 * (last * R + rem) > r * R
  {
    var h := r / 2;
    MulComm3(2, h, R);
    if last >= h + 1 {
      MulLe(h + 1, last, R);
    } else if last < h {
      MulLe(last, h - 1, R);
    }
  }

  /** For an even radix, and the discarded part `D = last * R + rem` of a
      quantity rounded to a multiple of `r * R` (with `rem` the older digits),
      each mode increments exactly as its definition says: half up when
      `2D >= rR`, half down when `2D > rR`, half even on a tie only for an odd
      kept part, and the directed modes whenever anything is discarded. */
  lemma RoundMeaning(r: int, R: int, last: nat, rem: nat, older: nat, neg: bool, bigval: int)
    requires r >= 2 && r % 2 == 0 && R >= 1
    requires last < r && rem < R
    requires older != 0 <==> rem != 0
    ensures var D, P := last * R + rem, r * R;
      && (Round(r, HalfUp, last, older, neg, bigval) <==> 2 * D >= P)
      && (Round(r, HalfDown, last, older, neg, bigval) <==> 2 * D > P)
      && (Round(r, HalfEven, last, older, neg, bigval) <==> 2 * D > P || (2 * D == P && bigval % 2 == 1))
      && (Round(r, Up, last, older, neg, bigval) <==> D > 0)
      && (Round(r, Ceiling, last, older, neg, bigval) <==> D > 0 && !neg)
      && (Round(r, Floor, last, older, neg, bigval) <==> D > 0 && neg)
      && !Round(r, Down, last, older, neg, bigval)
  {
    HalfBounds(r, R, last, rem);
    var D := last * R + rem;
    if last > 0 {
      assert last * R >= R;
    }
    assert D > 0 <==> last != 0 || rem != 0;
  }
}
