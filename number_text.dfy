/**
  The three text grammars toNumber tries in turn: Integer.parseInt,
  Long.parseLong and Double.parseDouble.

  The integer grammar is an optional ASCII '+' or '-' followed by one or
  more ASCII digits, with a range check for the target width.  The
  floating grammar is a simplified Java floating literal: surrounding
  characters up to ' ' are trimmed, then an optional sign, digits with at
  most one decimal point (at least one digit in all) and an optional type
  suffix d, D, f or F.  Its value is the exact decimal as a real.
 */
module NumberText {
  import opened Wrappers
  import opened JavaNumbers

  predicate IsDigit(c: char) {
    '0' <= c <= '9'
  }

  predicate AllDigits(s: string) {
    forall i | 0 <= i < |s| :: IsDigit(s[i])
  }

  /** The value of a run of decimal digits, most significant digit first. */
  function DigitsValue(s: string): nat
    requires AllDigits(s)
    decreases |s|
  {
    if s == [] then 0 else DigitsValue(s[..|s| - 1]) * 10 + (s[|s| - 1] as int - '0' as int)
  }

  /** The grammar Integer.parseInt and Long.parseLong share, before their range checks. */
  function ParseSigned(s: string): Option<int> {
    if |s| > 0 && (s[0] == '-' || s[0] == '+') then
      var ds := s[1..];
      if |ds| > 0 && AllDigits(ds) then
        Some(if s[0] == '-' then -(DigitsValue(ds) as int) else DigitsValue(ds))
      else None
    else if |s| > 0 && AllDigits(s) then Some(DigitsValue(s))
    else None
  }

  /** Integer.parseInt: empty when the text is not an int literal or is out of int range. */
  function ParseInt(s: string): (r: Option<int32>)
    ensures r.Some? <==> ParseSigned(s).Some? && IntMinValue <= ParseSigned(s).value <= IntMaxValue
    ensures r.Some? ==> r.value == ParseSigned(s).value
  {
    match ParseSigned(s)
    case Some(v) => if IntMinValue <= v <= IntMaxValue then Some(v) else None
    case None => None
  }

  /** Long.parseLong: empty when the text is not a long literal or is out of long range. */
  function ParseLong(s: string): (r: Option<int64>)
    ensures r.Some? <==> ParseSigned(s).Some? && LongMinValue <= ParseSigned(s).value <= LongMaxValue
    ensures r.Some? ==> r.value == ParseSigned(s).value
  {
    match ParseSigned(s)
    case Some(v) => if LongMinValue <= v <= LongMaxValue then Some(v) else None
    case None => None
  }

  /** Index of the first character above ' ' at or after i (|s| if none). */
  function FirstKept(s: string, i: nat): (k: nat)
    requires i <= |s|
    ensures i <= k <= |s|
    ensures forall j | i <= j < k :: s[j] <= ' '
    ensures k < |s| ==> s[k] > ' '
    decreases |s| - i
  {
    if i == |s| || s[i] > ' ' then i else FirstKept(s, i + 1)
  }

  /** One past the last character above ' ' at or before e - 1, but not below lo. */
  function LastKept(s: string, lo: nat, e: nat): (k: nat)
    requires lo <= e <= |s|
    ensures lo <= k <= e
    ensures forall j | k <= j < e :: s[j] <= ' '
    ensures lo < k ==> s[k - 1] > ' '
    decreases e
  {
    if e == lo || s[e - 1] > ' ' then e else LastKept(s, lo, e - 1)
  }

  /** String.trim: drop the leading and trailing characters up to ' '. */
  function Trim(s: string): (t: string)
    ensures |t| <= |s|
    ensures t != [] ==> t[0] > ' ' && t[|t| - 1] > ' '
    ensures exists b, e | 0 <= b <= e <= |s| ::
              t == s[b..e] && (forall j | 0 <= j < b :: s[j] <= ' ') && (forall j | e <= j < |s| :: s[j] <= ' ')
  {
    var b := FirstKept(s, 0);
    var e := LastKept(s, b, |s|);
    s[b..e]
  }

  /** 10^n */
  function Pow10(n: nat): (p: nat)
    ensures p >= 1
  {
    if n == 0 then 1 else 10 * Pow10(n - 1)
  }

  /** Index of the first '.' in s, or |s| when there is none. */
  function IndexOfPoint(s: string): (k: nat)
    ensures k <= |s|
    ensures k < |s| ==> s[k] == '.'
    ensures forall j | 0 <= j < k :: s[j] != '.'
  {
    if s == [] then 0 else if s[0] == '.' then 0 else 1 + IndexOfPoint(s[1..])
  }

  /** Digits with at most one decimal point, at least one digit in all. */
  function ParseUnsignedDecimal(m: string): Option<real> {
    var k := IndexOfPoint(m);
    if k == |m| then
      if |m| > 0 && AllDigits(m) then Some(DigitsValue(m) as real) else None
    else
      var whole, frac := m[..k], m[k + 1..];
      if AllDigits(whole) && AllDigits(frac) && |whole| + |frac| > 0 then
        Some(DigitsValue(whole) as real + DigitsValue(frac) as real / Pow10(|frac|) as real)
      else None
  }

  /** The simplified floating grammar, read exactly. */
  function ParseDecimal(s: string): Option<real> {
    var t := Trim(s);
    var body := if |t| > 0 && t[|t| - 1] in "dDfF" then t[..|t| - 1] else t;
    if |body| > 0 && (body[0] == '-' || body[0] == '+') then
      match ParseUnsignedDecimal(body[1..])
      case Some(v) => Some(if body[0] == '-' then -v else v)
      case None => None
    else ParseUnsignedDecimal(body)
  }

  /** Double.parseDouble: the exact value of a floating literal within the
      finite double range; literals beyond it (Java's infinities) are not modelled and give empty. */
  function ParseDouble(s: string): (r: Option<double>)
    ensures r.Some? <==> ParseDecimal(s).Some? && -DoubleMaxValue <= ParseDecimal(s).value <= DoubleMaxValue
    ensures r.Some? ==> r.value == ParseDecimal(s).value
  {
    match ParseDecimal(s)
    case Some(v) => if -DoubleMaxValue <= v <= DoubleMaxValue then Some(v) else None
    case None => None
  }

  function DigitChar(d: nat): (c: char)
    requires d < 10
    ensures IsDigit(c) && c as int - '0' as int == d
  {
    ('0' as int + d) as char
  }

  /** The decimal spelling of a natural number, without leading zeros. */
  function ShowNat(n: nat): (s: string)
    ensures |s| > 0 && AllDigits(s)
  {
    if n < 10 then [DigitChar(n)] else ShowNat(n / 10) + [DigitChar(n % 10)]
  }

  /** Integer.toString and Long.toString. */
  function Show(x: int): string {
    if x < 0 then "-" + ShowNat(-x) else ShowNat(x)
  }

  lemma {:induction false} DigitsValueShowNat(n: nat)
    ensures DigitsValue(ShowNat(n)) == n
  {
    if n >= 10 {
      var s := ShowNat(n);
      assert s[..|s| - 1] == ShowNat(n / 10);
      DigitsValueShowNat(n / 10);
    }
  }

  /** The integer grammar reads back what toString writes. */
  lemma ParseSignedShow(x: int)
    ensures ParseSigned(Show(x)) == Some(x)
  {
    if x < 0 {
      var ds := ShowNat(-x);
      DigitsValueShowNat(-x);
      assert Show(x) == "-" + ds;
      assert ("-" + ds)[0] == '-' && ("-" + ds)[1..] == ds;
    } else {
      DigitsValueShowNat(x);
    }
  }

  /** Integer.parseInt accepts the spelling of every int, and Long.parseLong that of every long. */
  lemma ParseShowRoundTrip(x: int)
    ensures IntMinValue <= x <= IntMaxValue ==> ParseInt(Show(x)) == Some(x)
    ensures LongMinValue <= x <= LongMaxValue ==> ParseLong(Show(x)) == Some(x)
  {
    ParseSignedShow(x);
  }

  /** Text without blanks or control characters is left alone by trim. */
  lemma TrimNoBlank(s: string)
    requires forall i | 0 <= i < |s| :: s[i] > ' '
    ensures Trim(s) == s
  {
  }

  lemma DigitsAreDecimal(m: string)
    requires |m| > 0 && AllDigits(m)
    ensures ParseUnsignedDecimal(m) == Some(DigitsValue(m) as real)
  {
  }

  /** Every int or long literal is also a double literal, and denotes the same number. */
  lemma IntegerTextIsDoubleText(s: string)
    requires ParseLong(s).Some?
    ensures ParseDouble(s) == Some(ParseLong(s).value as real)
  {
    assert forall i | 0 <= i < |s| :: IsDigit(s[i]) || s[i] == '-' || s[i] == '+';
    TrimNoBlank(s);
    assert IsDigit(s[|s| - 1]);
    if s[0] == '-' || s[0] == '+' {
      DigitsAreDecimal(s[1..]);
    } else {
      DigitsAreDecimal(s);
    }
  }

  /** Double.parseDouble("12.3") is 12.3. */
  lemma DecimalLiteralExample()
    ensures ParseDouble("12.3") == Some(12.3)
  {
    var t := "12.3";
    TrimNoBlank(t);
    assert t[|t| - 1] !in "dDfF";
    assert t[0] != '-' && t[0] != '+';
    assert IndexOfPoint(t) == 2 by {
      assert IndexOfPoint(t[1..]) == 1 by {
        assert t[1..][1..] == ".3";
      }
    }
    assert t[..2] == "12" && t[3..] == "3";
    assert DigitsValue("12") == 12 by {
      assert "12"[..1] == "1";
    }
    assert ParseUnsignedDecimal(t) == Some(12.3);
  }

  /** Double.parseDouble("3.0") is 3.0. */
  lemma DecimalLiteralExample2()
    ensures ParseDouble("3.0") == Some(3.0)
  {
    var t := "3.0";
    TrimNoBlank(t);
    assert t[|t| - 1] !in "dDfF";
    assert IndexOfPoint(t) == 1 by {
      assert t[1..] == ".0";
    }
    assert t[..1] == "3" && t[2..] == "0";
    assert ParseUnsignedDecimal(t) == Some(3.0);
  }

  /** Double.parseDouble("1.0") is 1.0. */
  lemma DecimalLiteralExample3()
    ensures ParseDouble("1.0") == Some(1.0)
  {
    var t := "1.0";
    TrimNoBlank(t);
    assert t[|t| - 1] !in "dDfF";
    assert IndexOfPoint(t) == 1 by {
      assert t[1..] == ".0";
    }
    assert t[..1] == "1" && t[2..] == "0";
    assert ParseUnsignedDecimal(t) == Some(1.0);
  }

  lemma SignedNeedsDigit(s: string)
    requires forall i | 0 <= i < |s| :: !IsDigit(s[i])
    ensures ParseSigned(s) == None
  {
    if |s| > 1 {
      assert !IsDigit(s[1..][0]);
    }
  }

  lemma UnsignedDecimalNeedsDigit(m: string)
    requires forall i | 0 <= i < |m| :: !IsDigit(m[i])
    ensures ParseUnsignedDecimal(m) == None
  {
    var k := IndexOfPoint(m);
    if k < |m| {
      var whole, frac := m[..k], m[k + 1..];
      if |whole| > 0 {
        assert !IsDigit(whole[0]);
      } else if |frac| > 0 {
        assert !IsDigit(frac[0]);
      }
    }
  }

  /** The floating grammar needs at least one digit too. */
  lemma DecimalNeedsDigit(s: string)
    requires forall i | 0 <= i < |s| :: !IsDigit(s[i])
    ensures ParseDouble(s) == None
  {
    var b := FirstKept(s, 0);
    var t := Trim(s);
    assert t == s[b..LastKept(s, b, |s|)];
    assert forall i | 0 <= i < |t| :: !IsDigit(t[i]);
    var body := if |t| > 0 && t[|t| - 1] in "dDfF" then t[..|t| - 1] else t;
    assert forall i | 0 <= i < |body| :: !IsDigit(body[i]);
    if |body| > 0 && (body[0] == '-' || body[0] == '+') {
      UnsignedDecimalNeedsDigit(body[1..]);
    } else {
      UnsignedDecimalNeedsDigit(body);
    }
  }
}
