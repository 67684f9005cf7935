/**
  The single-value helpers of Jolt's Math functions: toNumber (the
  parse fallback chain), the typed conversions toInteger, toLong and
  toDouble, and abs.  An argument is whatever the transform hands over:
  a recognised number, a string, or anything else (null included).
 */
module JoltMath {
  import opened Wrappers
  import opened JavaNumbers
  import opened NumberText

  /** A value of unknown type as the helpers receive it. */
  datatype Arg = N(num: Num) | S(text: string) | Other

  /** toNumber: a number as it is; text through parseInt, then parseLong,
      then parseDouble, the first success winning; anything else empty. */
  function ToNumber(a: Arg): (r: Option<Num>)
    ensures a.N? ==> r == Some(a.num)
    ensures a.Other? ==> r == None
    ensures a.S? ==> (r.Some? && r.value.I? <==> ParseInt(a.text).Some?)
    ensures a.S? ==> (r.Some? && r.value.L? <==> ParseInt(a.text).None? && ParseLong(a.text).Some?)
    ensures a.S? ==> (r.Some? && r.value.D? <==>
                        ParseInt(a.text).None? && ParseLong(a.text).None? && ParseDouble(a.text).Some?)
    ensures a.S? && r.Some? && r.value.I? ==> r.value.ival == ParseInt(a.text).value
    ensures a.S? && r.Some? && r.value.L? ==> r.value.lval == ParseLong(a.text).value
    ensures a.S? && r.Some? && r.value.D? ==> r.value.dval == ParseDouble(a.text).value
  {
    match a
    case N(n) => Some(n)
    case S(s) =>
      if ParseInt(s).Some? then Some(I(ParseInt(s).value))
      else if ParseLong(s).Some? then Some(L(ParseLong(s).value))
      else if ParseDouble(s).Some? then Some(D(ParseDouble(s).value))
      else None
    case Other => None
  }

  /** toInteger: Number.intValue() of the argument or of the number its text denotes. */
  function ToInteger(a: Arg): (r: Option<int32>)
    ensures r.None? <==> ToNumber(a).None?
    ensures r.Some? ==> r.value == IntValue(ToNumber(a).value)
  {
    match a
    case N(n) => Some(IntValue(n))
    case S(_) =>
      (match ToNumber(a)
       case Some(n) => Some(IntValue(n))
       case None => None)
    case Other => None
  }

  /** toLong: Number.longValue() of the argument or of the number its text denotes. */
  function ToLong(a: Arg): (r: Option<int64>)
    ensures r.None? <==> ToNumber(a).None?
    ensures r.Some? ==> r.value == LongValue(ToNumber(a).value)
  {
    match a
    case N(n) => Some(LongValue(n))
    case S(_) =>
      (match ToNumber(a)
       case Some(n) => Some(LongValue(n))
       case None => None)
    case Other => None
  }

  /** toDouble: Number.doubleValue() of the argument or of the number its text denotes. */
  function ToDouble(a: Arg): (r: Option<double>)
    ensures r.None? <==> ToNumber(a).None?
    ensures r.Some? ==> r.value == DoubleValue(ToNumber(a).value)
  {
    match a
    case N(n) => Some(DoubleValue(n))
    case S(_) =>
      (match ToNumber(a)
       case Some(n) => Some(DoubleValue(n))
       case None => None)
    case Other => None
  }

  /** abs: Math.abs in the argument's own type; text is read with toNumber
      first, and text that does not parse gives empty. */
  function Abs(a: Arg): (r: Option<Num>)
    ensures r.None? <==> ToNumber(a).None?
    ensures r.Some? ==> SameTag(r.value, ToNumber(a).value)
    ensures r.Some? && r.value.I? ==> r.value.ival >= 0 || r.value == ToNumber(a).value == I(IntMinValue)
    ensures r.Some? && r.value.L? ==> r.value.lval >= 0 || r.value == ToNumber(a).value == L(LongMinValue)
    ensures r.Some? && r.value.D? ==> r.value.dval >= 0.0
    ensures r.Some? ==> (DoubleValue(r.value) == DoubleValue(ToNumber(a).value)
                         || DoubleValue(r.value) == -DoubleValue(ToNumber(a).value))
    decreases a.S?
  {
    match a
    case N(n) => Some(AbsNum(n))
    case S(_) =>
      (match ToNumber(a)
       case Some(n) => Abs(N(n))
       case None => None)
    case Other => None
  }

  /** The typed conversions and abs are idempotent: converting an already
      converted value again gives the same value. */
  lemma ConvertTwice(a: Arg)
    ensures ToInteger(a).Some? ==> ToInteger(N(I(ToInteger(a).value))) == ToInteger(a)
    ensures ToLong(a).Some? ==> ToLong(N(L(ToLong(a).value))) == ToLong(a)
    ensures ToDouble(a).Some? ==> ToDouble(N(D(ToDouble(a).value))) == ToDouble(a)
    ensures Abs(a).Some? ==> Abs(N(Abs(a).value)) == Abs(a)
  {
    if ToNumber(a).Some? {
      AbsNumIdempotent(ToNumber(a).value);
    }
  }

  /** The text of an int becomes an Integer: the int grammar is tried first,
      although the same text is also a long and a double literal. */
  lemma IntTextIsInteger(x: int32)
    ensures ToNumber(S(Show(x))) == Some(I(x))
  {
    ParseShowRoundTrip(x);
  }

  /** The text of a long outside int range becomes a Long. */
  lemma {:induction false} LongTextIsLong(x: int64)
    requires x < IntMinValue || IntMaxValue < x
    ensures ToNumber(S(Show(x))) == Some(L(x))
  {
    ParseShowRoundTrip(x);
  }

  /** A string becomes a Long only when its value lies outside int range. */
  lemma LongOnlyBeyondInt(s: string)
    requires ToNumber(S(s)).Some? && ToNumber(S(s)).value.L?
    ensures ToNumber(S(s)).value.lval < IntMinValue || IntMaxValue < ToNumber(S(s)).value.lval
  {
  }

  /** Whatever type the chain picks, the number is the one the double
      grammar reads from the same text: the chain only chooses the
      narrowest representation. */
  lemma ChainAgreesWithDouble(s: string)
    requires ToNumber(S(s)).Some?
    ensures ParseDouble(s) == Some(DoubleValue(ToNumber(S(s)).value))
  {
    if ParseLong(s).Some? {
      IntegerTextIsDoubleText(s);
    }
  }

  /** The examples the source documents for toNumber. */
  lemma ToNumberExamples()
    ensures ToNumber(S("123")) == Some(I(123))
    ensures ToNumber(S("-123")) == Some(I(-123))
    ensures ToNumber(S("12.3")) == Some(D(12.3))
    ensures ToNumber(S("abc")) == None
    ensures ToNumber(Other) == None
  {
    IntegerExample();
    NegativeExample();
    DecimalExample();
    NonNumberExample();
  }

  /** The examples the source documents for abs. */
  lemma AbsExamples()
    ensures Abs(S("-123")) == Some(I(123))
    ensures Abs(S("123")) == Some(I(123))
    ensures Abs(S("12.3")) == Some(D(12.3))
    ensures Abs(S("abc")) == None
    ensures Abs(Other) == None
  {
    IntegerExample();
    NegativeExample();
    DecimalExample();
    NonNumberExample();
  }

  lemma IntegerExample()
    ensures ToNumber(S("123")) == Some(I(123))
  {
    assert Show(123) == "123";
    IntTextIsInteger(123);
  }

  lemma NegativeExample()
    ensures ToNumber(S("-123")) == Some(I(-123))
  {
    assert Show(-123) == "-123";
    IntTextIsInteger(-123);
  }

  lemma DecimalExample()
    ensures ToNumber(S("12.3")) == Some(D(12.3))
  {
    assert !IsDigit("12.3"[2]);
    assert ParseSigned("12.3") == None;
    DecimalLiteralExample();
  }

  lemma NonNumberExample()
    ensures ToNumber(S("abc")) == None
  {
    assert ParseSigned("abc") == None;
    TrimNoBlank("abc");
    assert IndexOfPoint("abc") == 3;
  }

  /** Text without a single decimal digit is not a number. */
  lemma TextWithoutDigitIsNoNumber(s: string)
    requires forall i | 0 <= i < |s| :: !IsDigit(s[i])
    ensures ToNumber(S(s)) == None
  {
    SignedNeedsDigit(s);
    DecimalNeedsDigit(s);
  }

  lemma ThreePointZeroExample()
    ensures ToNumber(S("3.0")) == Some(D(3.0))
  {
    assert !IsDigit("3.0"[1]);
    assert ParseSigned("3.0") == None;
    DecimalLiteralExample2();
  }

  lemma OnePointZeroExample()
    ensures ToNumber(S("1.0")) == Some(D(1.0))
  {
    assert !IsDigit("1.0"[1]);
    assert ParseSigned("1.0") == None;
    DecimalLiteralExample3();
  }
}
