/** The six kinds of CBOR number and their exact arithmetic.

    Every arbitrary-precision payload is represented by its mathematical value:
    an extended real that is either NaN, a signed infinity or a finite real.
    The kind of a number records which representation the library would use;
    operations promote the kinds of their operands as the library does. */
module CborNumbers {

  import opened Wrappers

  const MinInt64: int := -0x8000_0000_0000_0000
  const MaxInt64: int := 0x7FFF_FFFF_FFFF_FFFF

  predicate InInt64(x: int) {
    MinInt64 <= x <= MaxInt64
  }

  /** A 64-bit signed integer, the payload of the `Integer` kind. */
  type Int64 = x: int | MinInt64 <= x <= MaxInt64

  /** An extended real: the value of a floating-point or arbitrary-precision payload. */
  datatype XReal = NaN | Inf(neg: bool) | Fin(v: real)

  /** The exact sum, with the IEEE conventions for NaN and infinities. */
  function XAdd(x: XReal, y: XReal): (s: XReal)
    ensures x.Fin? && y.Fin? ==> s == Fin(x.v + y.v)
    ensures (x.NaN? || y.NaN?) ==> s.NaN?
    ensures x.Inf? && y.Inf? ==> (s.NaN? <==> x.neg != y.neg)
  {
    match (x, y)
    case (NaN, _) => NaN
    case (_, NaN) => NaN
    case (Inf(p), Inf(q)) => if p == q then Inf(p) else NaN
    case (Inf(p), Fin(_)) => Inf(p)
    case (Fin(_), Inf(q)) => Inf(q)
    case (Fin(u), Fin(w)) => Fin(u + w)
  }

  function XNeg(x: XReal): (n: XReal)
    ensures x.Fin? ==> n == Fin(-x.v)
    ensures x.NaN? <==> n.NaN?
  {
    match x
    case NaN => NaN
    case Inf(p) => Inf(!p)
    case Fin(u) => Fin(-u)
  }

  /** The exact difference `x - y`. */
  function XSub(x: XReal, y: XReal): XReal {
    XAdd(x, XNeg(y))
  }

  /** The order on extended reals, with NaN above everything else (the library's
      convention for comparing numbers). */
  predicate XLess(x: XReal, y: XReal) {
    match (x, y)
    case (NaN, _) => false
    case (_, NaN) => true
    case (Inf(p), Inf(q)) => p && !q
    case (Inf(p), Fin(_)) => p
    case (Fin(_), Inf(q)) => !q
    case (Fin(u), Fin(w)) => u < w
  }

  lemma XLessIsStrictTotalOrder(x: XReal, y: XReal, z: XReal)
    ensures !XLess(x, x)
    ensures XLess(x, y) ==> !XLess(y, x)
    ensures XLess(x, y) && XLess(y, z) ==> XLess(x, z)
    ensures x == y || XLess(x, y) || XLess(y, x)
  {
  }

  /** Three-way comparison under `XLess`. */
  function XCompare(x: XReal, y: XReal): (c: int)
    ensures c == -1 || c == 0 || c == 1
    ensures c == 0 <==> x == y
    ensures c < 0 <==> XLess(x, y)
  {
    if XLess(x, y) then -1 else if XLess(y, x) then 1 else 0
  }

  /** The sign the library reports: -1, 0 or 1, and 2 for NaN. */
  function XSign(x: XReal): int {
    match x
    case NaN => 2
    case Inf(p) => if p then -1 else 1
    case Fin(u) => if u < 0.0 then -1 else if u > 0.0 then 1 else 0
  }

  /** The reported sign of a non-NaN value is its comparison with zero. */
  lemma XSignIsCompareWithZero(x: XReal)
    ensures x.NaN? <==> XSign(x) == 2
    ensures !x.NaN? ==> XSign(x) == XCompare(x, Fin(0.0))
  {
  }

  datatype Kind = Integer | IEEEBinary64 | EInteger | EDecimal | EFloat | ERational

  /** A CBOR number: its kind and the value of its payload. An `Integer` holds a
      64-bit integer, an `EInteger` any integer, and the other kinds an
      extended real. */
  datatype Number =
    | IntegerNum(i: Int64)
    | EIntegerNum(n: int)
    | Binary64Num(d: XReal)
    | DecimalNum(x: XReal)
    | FloatNum(x: XReal)
    | RationalNum(x: XReal)
  {
    function KindOf(): Kind {
      match this
      case IntegerNum(_) => Integer
      case EIntegerNum(_) => EInteger
      case Binary64Num(_) => IEEEBinary64
      case DecimalNum(_) => EDecimal
      case FloatNum(_) => EFloat
      case RationalNum(_) => ERational
    }

    /** The mathematical value of the number, whatever its kind. */
    function Value(): XReal {
      match this
      case IntegerNum(i) => Fin(i as real)
      case EIntegerNum(n) => Fin(n as real)
      case Binary64Num(d) => d
      case DecimalNum(x) => x
      case FloatNum(x) => x
      case RationalNum(x) => x
    }
  }

  /** An integer as the library stores it: the 64-bit kind when it fits, the
      arbitrary-precision kind otherwise. */
  function IntegerNumber(n: int): (r: Number)
    ensures r.Value() == Fin(n as real)
    ensures r.IntegerNum? <==> InInt64(n)
    ensures !r.IntegerNum? ==> r.EIntegerNum?
  {
    if InInt64(n) then IntegerNum(n) else EIntegerNum(n)
  }

  /** The kind the library converts both operands of a mixed operation to:
      the first of ERational, EDecimal, EFloat (binary floating point of either
      width) present, else EInteger. */
  function Promote(a: Kind, b: Kind): Kind {
    if a == ERational || b == ERational then ERational
    else if a == EDecimal || b == EDecimal then EDecimal
    else if a == EFloat || b == EFloat || a == IEEEBinary64 || b == IEEEBinary64 then EFloat
    else EInteger
  }

  /** The position of a kind in the chain of exactness: each kind can hold the
      values of every kind below it. */
  function Rank(k: Kind): nat {
    match k
    case Integer => 0
    case EInteger => 1
    case IEEEBinary64 => 2
    case EFloat => 2
    case EDecimal => 3
    case ERational => 4
  }

  /** Promotion picks the higher of the two ranks (a pair of 64-bit integers
      widens to EInteger), and never yields the 64-bit kinds: an independent
      characterisation of `Promote`. */
  lemma PromoteIsMaxRank(a: Kind, b: Kind)
    ensures !(a == Integer && b == Integer) ==>
      Rank(Promote(a, b)) == if Rank(a) >= Rank(b) then Rank(a) else Rank(b)
    ensures Rank(Promote(a, b)) >= 1
    ensures Promote(a, b) != Integer && Promote(a, b) != IEEEBinary64
    ensures Promote(a, b) == Promote(b, a)
  {
  }

  /** `a + b`. Two 64-bit integers stay a 64-bit integer unless the sum
      overflows, which is detected before adding; every other pair is converted
      to the promoted kind and added exactly. */
  function Add(a: Number, b: Number): (r: Number)
    ensures r.Value() == XAdd(a.Value(), b.Value())
    ensures a.IntegerNum? && b.IntegerNum? ==> (r.IntegerNum? <==> InInt64(a.i + b.i))
    ensures a.IntegerNum? && b.IntegerNum? && !r.IntegerNum? ==> r.EIntegerNum?
    ensures !(a.IntegerNum? && b.IntegerNum?) ==>
      Rank(r.KindOf()) == (if Rank(a.KindOf()) >= Rank(b.KindOf()) then Rank(a.KindOf()) else Rank(b.KindOf()))
    ensures !r.Binary64Num?
  {
    if a.IntegerNum? && b.IntegerNum? then
      var x, y := a.i, b.i;
      if (x < 0 && y < MinInt64 - x) || (x > 0 && y > MaxInt64 - x) then
        EIntegerNum(x + y)
      else
        IntegerNum(x + y)
    else
      PromoteIsMaxRank(a.KindOf(), b.KindOf());
      var k := Promote(a.KindOf(), b.KindOf());
      var s := XAdd(a.Value(), b.Value());
      match k
      case ERational => RationalNum(s)
      case EDecimal => DecimalNum(s)
      case EFloat => FloatNum(s)
      case _ => EIntegerNum(IntegralValue(a) + IntegralValue(b))
  }

  /** `a - b`, with the overflow pre-check written for subtraction. */
  function Subtract(a: Number, b: Number): (r: Number)
    ensures r.Value() == XSub(a.Value(), b.Value())
    ensures a.IntegerNum? && b.IntegerNum? ==> (r.IntegerNum? <==> InInt64(a.i - b.i))
    ensures a.IntegerNum? && b.IntegerNum? && !r.IntegerNum? ==> r.EIntegerNum?
    ensures !(a.IntegerNum? && b.IntegerNum?) ==>
      Rank(r.KindOf()) == (if Rank(a.KindOf()) >= Rank(b.KindOf()) then Rank(a.KindOf()) else Rank(b.KindOf()))
    ensures !r.Binary64Num?
  {
    if a.IntegerNum? && b.IntegerNum? then
      var x, y := a.i, b.i;
      if (y < 0 && MaxInt64 + y < x) || (y > 0 && MinInt64 + y > x) then
        EIntegerNum(x - y)
      else
        IntegerNum(x - y)
    else
      PromoteIsMaxRank(a.KindOf(), b.KindOf());
      var k := Promote(a.KindOf(), b.KindOf());
      var s := XSub(a.Value(), b.Value());
      match k
      case ERational => RationalNum(s)
      case EDecimal => DecimalNum(s)
      case EFloat => FloatNum(s)
      case _ => EIntegerNum(IntegralValue(a) - IntegralValue(b))
  }

  /** The integer held by a number of one of the two integer kinds. */
  function IntegralValue(a: Number): (n: int)
    ensures a.IntegerNum? || a.EIntegerNum? ==> a.Value() == Fin(n as real)
  {
    match a
    case IntegerNum(i) => i
    case EIntegerNum(n) => n
    case _ => 0
  }

  /** The bounds `MinInt64 - x` and `MaxInt64 - x` of the addition pre-check, and
      `MaxInt64 + y` and `MinInt64 + y` of the subtraction pre-check, are
      themselves 64-bit integers wherever they are computed, so the checks
      cannot wrap around; and each check is exactly the overflow condition. */
  lemma OverflowChecksAreExact(x: Int64, y: Int64)
    ensures x < 0 ==> InInt64(MinInt64 - x)
    ensures x > 0 ==> InInt64(MaxInt64 - x)
    ensures y < 0 ==> InInt64(MaxInt64 + y)
    ensures y > 0 ==> InInt64(MinInt64 + y)
    ensures ((x < 0 && y < MinInt64 - x) || (x > 0 && y > MaxInt64 - x)) <==> !InInt64(x + y)
    ensures ((y < 0 && MaxInt64 + y < x) || (y > 0 && MinInt64 + y > x)) <==> !InInt64(x - y)
  {
  }

  /** Addition is commutative in value and in kind. */
  lemma AddCommutes(a: Number, b: Number)
    ensures Add(a, b).Value() == Add(b, a).Value()
    ensures Add(a, b).KindOf() == Add(b, a).KindOf()
  {
    PromoteIsMaxRank(a.KindOf(), b.KindOf());
  }

  /** Subtracting is adding the negation, for values. */
  lemma SubtractIsAddNegated(a: Number, b: Number)
    ensures Subtract(a, b).Value() == XAdd(a.Value(), XNeg(b.Value()))
  {
  }

  /** Compares two numbers by mathematical value, NaN above everything; a missing
      operand (null) compares below any number. Numbers of different kinds
      with different determinate signs are ordered by sign alone, and NaN is
      settled before the values are converted. */
  function CompareTo(a: Number, other: Option<Number>): (c: int)
    ensures other.None? ==> c == 1
    ensures other.Some? ==> c == XCompare(a.Value(), other.value.Value())
  {
    match other
    case None => 1
    case Some(b) =>
      if a == b then 0
      else if a.KindOf() == b.KindOf() then XCompare(a.Value(), b.Value())
      else
        var s1, s2 := XSign(a.Value()), XSign(b.Value());
        if s1 != s2 && s1 != 2 && s2 != 2 then (if s1 < s2 then -1 else 1)
        else if s1 == 2 && s2 == 2 then 0
        else if s1 == 2 then 1
        else if s2 == 2 then -1
        else XCompare(a.Value(), b.Value())
  }

  /** Comparison is antisymmetric and reflexive, and NaN of any kind is above
      every non-NaN number of any kind. */
  lemma CompareToAntisymmetric(a: Number, b: Number)
    ensures CompareTo(a, Some(b)) == -CompareTo(b, Some(a))
    ensures CompareTo(a, Some(a)) == 0
    ensures a.Value().NaN? && !b.Value().NaN? ==> CompareTo(a, Some(b)) == 1
    ensures a.Value().NaN? && b.Value().NaN? ==> CompareTo(a, Some(b)) == 0
  {
    XLessIsStrictTotalOrder(a.Value(), b.Value(), a.Value());
  }
}
