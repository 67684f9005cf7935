/**
  The element-wise functions of Jolt's Math (abs, toInteger, toLong,
  toDouble) share genericConverter: applied to a list it converts each
  element and keeps the elements that do not convert; applied to
  varargs it returns empty for none, the bare result for one, and the
  list form otherwise.
 */
module Converters {
  import opened Wrappers
  import opened JavaNumbers
  import opened JoltMath

  /** The genericConverter subclass, that is, which helper `convert` calls. */
  datatype Converter = AbsConverter | IntegerConverter | LongConverter | DoubleConverter

  /** convert(o) of each subclass. */
  function Convert(c: Converter, a: Arg): (r: Option<Num>)
    ensures r.None? <==> ToNumber(a).None?
    ensures c.AbsConverter? ==> r == Abs(a)
    ensures c.AbsConverter? && r.Some? ==> SameTag(r.value, ToNumber(a).value)
    ensures c.IntegerConverter? && r.Some? ==> r.value == I(IntValue(ToNumber(a).value))
    ensures c.LongConverter? && r.Some? ==> r.value == L(LongValue(ToNumber(a).value))
    ensures c.DoubleConverter? && r.Some? ==> r.value == D(DoubleValue(ToNumber(a).value))
  {
    match c
    case AbsConverter => Abs(a)
    case IntegerConverter => (if ToInteger(a).Some? then Some(I(ToInteger(a).value)) else None)
    case LongConverter => (if ToLong(a).Some? then Some(L(ToLong(a).value)) else None)
    case DoubleConverter => (if ToDouble(a).Some? then Some(D(ToDouble(a).value)) else None)
  }

  /** What apply(List) puts at one position: the converted number, or the element itself. */
  function Converted(c: Converter, a: Arg): (b: Arg)
    ensures ToNumber(a).None? ==> b == a
    ensures ToNumber(a).Some? ==> b.N? && b.num == Convert(c, a).value
  {
    match Convert(c, a)
    case Some(n) => N(n)
    case None => a
  }

  /** genericConverter.apply(List): a new list of the same length, element by element. */
  method ApplyList(c: Converter, input: seq<Arg>) returns (ret: seq<Arg>)
    ensures |ret| == |input|
    ensures forall i | 0 <= i < |input| :: ret[i] == Converted(c, input[i])
  {
    ret := [];
    for k := 0 to |input|
      invariant |ret| == k
      invariant forall i | 0 <= i < k :: ret[i] == Converted(c, input[i])
    {
      var o := input[k];
      var optional := Convert(c, o);
      ret := ret + [if optional.Some? then N(optional.value) else o];
    }
  }

  /** What the varargs form returns: one bare number, or a list. */
  datatype Output = One(num: Num) | Many(items: seq<Arg>)

  /** genericConverter.apply(Object...). */
  method Apply(c: Converter, args: seq<Arg>) returns (r: Option<Output>)
    ensures |args| == 0 ==> r == None
    ensures |args| == 1 ==> (r.Some? <==> ToNumber(args[0]).Some?)
    ensures |args| == 1 && r.Some? ==> r.value == One(Convert(c, args[0]).value)
    ensures |args| > 1 ==> r.Some? && r.value.Many? && |r.value.items| == |args|
    ensures |args| > 1 ==> forall i | 0 <= i < |args| :: r.value.items[i] == Converted(c, args[i])
  {
    if |args| == 0 {
      return None;
    } else if |args| == 1 {
      var optional := Convert(c, args[0]);
      return if optional.Some? then Some(One(optional.value)) else None;
    }
    var ret := ApplyList(c, args);
    return Some(Many(ret));
  }

  /** Converting an element that has already been converted changes nothing, for every converter. */
  lemma ConvertedIdempotent(c: Converter, a: Arg)
    ensures Converted(c, Converted(c, a)) == Converted(c, a)
  {
    ConvertTwice(a);
  }
}
