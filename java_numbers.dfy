/**
  Java's three boxed number types that the Math helpers dispatch on
  (Integer, Long, Double), with the primitive conversions of sections
  5.1.2 and 5.1.3 of the Java Language Specification and the
  java.lang.Math.abs overloads.  A Double is modelled by a mathematical
  real: IEEE-754 rounding, NaN, infinities and signed zero are not modelled.
 */
module JavaNumbers {

  const IntMinValue: int := -0x8000_0000
  const IntMaxValue: int := 0x7fff_ffff
  const LongMinValue: int := -0x8000_0000_0000_0000
  const LongMaxValue: int := 0x7fff_ffff_ffff_ffff
  /** Double.MAX_VALUE, exactly: (2^53 - 1) * 2^971. */
  const DoubleMaxValue: real := 179769313486231570814527423731704356798070567525844996598917476803157260780028538760589558632766878171540458953514382464234321326889464182768467546703537516986049910576551282076245490090389328944075868508455133942304583236903222948165808559332123348274797826204144723168738177180919299881250404026184124858368.0

  type int32 = x: int | -0x8000_0000 <= x <= 0x7fff_ffff
  type int64 = x: int | -0x8000_0000_0000_0000 <= x <= 0x7fff_ffff_ffff_ffff
  /** The finite doubles, as reals: no NaN and no infinities. */
  type double = x: real | -DoubleMaxValue <= x <= DoubleMaxValue

  /** A java.lang.Number the core recognises: Integer, Long or Double. */
  datatype Num = I(ival: int32) | L(lval: int64) | D(dval: double)

  predicate SameTag(a: Num, b: Num) {
    (a.I? && b.I?) || (a.L? && b.L?) || (a.D? && b.D?)
  }

  /** `(int) x` for a long x: keep the low 32 bits, two's complement. */
  function Wrap32(x: int): (r: int32)
    ensures (r - x) % 0x1_0000_0000 == 0
    ensures IntMinValue <= x <= IntMaxValue ==> r == x
  {
    var w := x % 0x1_0000_0000;
    if w <= IntMaxValue then w else w - 0x1_0000_0000
  }

  /** Rounding toward zero, the first step of every floating-to-integral narrowing. */
  function TruncateTowardZero(x: real): (t: int)
    ensures 0.0 <= x ==> 0 <= t && t as real <= x < t as real + 1.0
    ensures x < 0.0 ==> t <= 0 && t as real - 1.0 < x <= t as real
  {
    if 0.0 <= x then x.Floor else -((-x).Floor)
  }

  /** Clamp an integer into [lo, hi]: the saturation of JLS 5.1.3. */
  function Saturate(x: int, lo: int, hi: int): (r: int)
    requires lo <= hi
    ensures lo <= r <= hi
    ensures lo <= x <= hi ==> r == x
    ensures x < lo ==> r == lo
    ensures hi < x ==> r == hi
  {
    if x < lo then lo else if hi < x then hi else x
  }

  /** `(long) x` for a double x (Double.longValue). */
  function DoubleToLong(x: real): (r: int64)
    ensures LongMinValue as real <= x < LongMaxValue as real + 1.0 ==> r == TruncateTowardZero(x)
    ensures x < LongMinValue as real ==> r == LongMinValue
    ensures LongMaxValue as real + 1.0 <= x ==> r == LongMaxValue
  {
    Saturate(TruncateTowardZero(x), LongMinValue, LongMaxValue)
  }

  /** `(int) x` for a double x (Double.intValue): saturates at the int bounds directly. */
  function DoubleToInt(x: real): (r: int32)
    ensures IntMinValue as real <= x < IntMaxValue as real + 1.0 ==> r == TruncateTowardZero(x)
    ensures x < IntMinValue as real ==> r == IntMinValue
    ensures IntMaxValue as real + 1.0 <= x ==> r == IntMaxValue
  {
    Saturate(TruncateTowardZero(x), IntMinValue, IntMaxValue)
  }

  /** Number.intValue() on each of the three boxed types. */
  function IntValue(n: Num): (r: int32)
    ensures n.I? ==> r == n.ival
    ensures n.L? ==> (r - n.lval) % 0x1_0000_0000 == 0
    ensures n.D? ==> r == DoubleToInt(n.dval)
  {
    match n
    case I(x) => x
    case L(x) => Wrap32(x)
    case D(x) => DoubleToInt(x)
  }

  /** Number.longValue(): sign extension, identity, or saturating truncation. */
  function LongValue(n: Num): (r: int64)
    ensures n.I? ==> r == n.ival
    ensures n.L? ==> r == n.lval
    ensures n.D? ==> r == DoubleToLong(n.dval)
  {
    match n
    case I(x) => x
    case L(x) => x
    case D(x) => DoubleToLong(x)
  }

  /** Number.doubleValue(); exact over the reals: an Integer or a Long
      becomes a whole number with the same value. */
  function DoubleValue(n: Num): (r: double)
    ensures n.I? ==> r.Floor == n.ival && r == r.Floor as real
    ensures n.L? ==> r.Floor == n.lval && r == r.Floor as real
    ensures n.D? ==> r == n.dval
  {
    match n
    case I(x) => x as real
    case L(x) => x as real
    case D(x) => x
  }

  /** java.lang.Math.abs on int and long: `x < 0 ? -x : x`, where the
      negation wraps around in the type's width. */
  function AbsInt(x: int32): (r: int32)
    ensures x == IntMinValue ==> r == IntMinValue
    ensures x != IntMinValue ==> r >= 0 && (r == x || r == -x)
  {
    if x < 0 then Wrap32(-(x as int)) else x
  }

  /** `-x` in long arithmetic: keep the low 64 bits, two's complement. */
  function Wrap64(x: int): (r: int64)
    ensures (r - x) % 0x1_0000_0000_0000_0000 == 0
    ensures LongMinValue <= x <= LongMaxValue ==> r == x
  {
    var w := x % 0x1_0000_0000_0000_0000;
    if w <= LongMaxValue then w else w - 0x1_0000_0000_0000_0000
  }

  function AbsLong(x: int64): (r: int64)
    ensures x == LongMinValue ==> r == LongMinValue
    ensures x != LongMinValue ==> r >= 0 && (r == x || r == -x)
  {
    if x < 0 then Wrap64(-(x as int)) else x
  }

  /** Math.abs on the boxed value, keeping the box's type. */
  function AbsNum(n: Num): (r: Num)
    ensures SameTag(r, n)
    ensures r.D? ==> r.dval >= 0.0 && (r.dval == n.dval || r.dval == -n.dval)
    ensures r.I? ==> r.ival == AbsInt(n.ival)
    ensures r.L? ==> r.lval == AbsLong(n.lval)
  {
    match n
    case I(x) => I(AbsInt(x))
    case L(x) => L(AbsLong(x))
    case D(x) => D(if x < 0.0 then -x else x)
  }

  /** Abs is idempotent on every tag, the wrapped minimum values included. */
  lemma AbsNumIdempotent(n: Num)
    ensures AbsNum(AbsNum(n)) == AbsNum(n)
  {
  }

  /** The narrowing conversions are idempotent: converting a converted value changes nothing. */
  lemma ConversionsIdempotent(n: Num)
    ensures IntValue(I(IntValue(n))) == IntValue(n)
    ensures LongValue(L(LongValue(n))) == LongValue(n)
    ensures DoubleValue(D(DoubleValue(n))) == DoubleValue(n)
  {
  }

  /** Double.longValue is monotone: it never reverses the order of two doubles. */
  lemma DoubleToLongMonotone(x: real, y: real)
    requires x <= y
    ensures DoubleToLong(x) <= DoubleToLong(y)
  {
  }

  /** Double.longValue maps the two seeds of the double accumulators,
      -Double.MAX_VALUE and Double.MAX_VALUE, to Long.MIN_VALUE and Long.MAX_VALUE. */
  lemma SeedsSaturate()
    ensures DoubleToLong(-DoubleMaxValue) == LongMinValue
    ensures DoubleToLong(DoubleMaxValue) == LongMaxValue
  {
  }
}
