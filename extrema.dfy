/**
  Math.max and Math.min over a list of arguments of mixed types.

  One pass keeps three accumulators, one per number type, each seeded
  with its type's extreme bound, and a flag that a number was seen.
  Arguments that are neither a number nor text that toNumber reads are
  skipped.  The winner is then chosen by comparing the int and long
  accumulators with the double accumulator truncated to a long: the int
  accumulator first, then the long one, then the double one.
 */
module Extrema {
  import opened Wrappers
  import opened JavaNumbers
  import opened JoltMath

  /** Which reduction: max keeps the greater value, min the lesser. */
  datatype Direction = Greatest | Least

  /** x is at least as extreme as y: `x >= y` for max, `x <= y` for min. */
  predicate Beats(dir: Direction, x: int, y: int) {
    if dir.Greatest? then x >= y else x <= y
  }

  predicate BeatsReal(dir: Direction, x: real, y: real) {
    if dir.Greatest? then x >= y else x <= y
  }

  /** java.lang.Math.max / min on two ints or longs: `a >= b ? a : b`, `a <= b ? a : b`. */
  function Pick(dir: Direction, acc: int, v: int): (r: int)
    ensures r == acc || r == v
    ensures Beats(dir, r, acc) && Beats(dir, r, v)
  {
    if Beats(dir, acc, v) then acc else v
  }

  /** java.lang.Math.max / min on two doubles (without NaN and signed zero). */
  function PickReal(dir: Direction, acc: real, v: real): (r: real)
    ensures r == acc || r == v
    ensures BeatsReal(dir, r, acc) && BeatsReal(dir, r, v)
  {
    if BeatsReal(dir, acc, v) then acc else v
  }

  /** Seeds: Integer.MIN_VALUE, Long.MIN_VALUE, -Double.MAX_VALUE for max;
      Integer.MAX_VALUE, Long.MAX_VALUE, Double.MAX_VALUE for min. */
  function IntSeed(dir: Direction): int32 {
    if dir.Greatest? then IntMinValue else IntMaxValue
  }

  function LongSeed(dir: Direction): int64 {
    if dir.Greatest? then LongMinValue else LongMaxValue
  }

  function DoubleSeed(dir: Direction): double {
    if dir.Greatest? then -DoubleMaxValue else DoubleMaxValue
  }

  /** The Integer an argument contributes, given directly or as text. */
  function IntOf(a: Arg): Option<int32> {
    var n := ToNumber(a);
    if n.Some? && n.value.I? then Some(n.value.ival) else None
  }

  function LongOf(a: Arg): Option<int64> {
    var n := ToNumber(a);
    if n.Some? && n.value.L? then Some(n.value.lval) else None
  }

  function DoubleOf(a: Arg): Option<double> {
    var n := ToNumber(a);
    if n.Some? && n.value.D? then Some(n.value.dval) else None
  }

  /** The int accumulator after the loop has visited args, in order. */
  function IntAcc(dir: Direction, args: seq<Arg>): int32
    decreases |args|
  {
    if args == [] then IntSeed(dir)
    else
      var acc := IntAcc(dir, args[..|args| - 1]);
      var v := IntOf(args[|args| - 1]);
      if v.Some? then Pick(dir, acc, v.value) else acc
  }

  function LongAcc(dir: Direction, args: seq<Arg>): int64
    decreases |args|
  {
    if args == [] then LongSeed(dir)
    else
      var acc := LongAcc(dir, args[..|args| - 1]);
      var v := LongOf(args[|args| - 1]);
      if v.Some? then Pick(dir, acc, v.value) else acc
  }

  function DoubleAcc(dir: Direction, args: seq<Arg>): double
    decreases |args|
  {
    if args == [] then DoubleSeed(dir)
    else
      var acc := DoubleAcc(dir, args[..|args| - 1]);
      var v := DoubleOf(args[|args| - 1]);
      if v.Some? then PickReal(dir, acc, v.value) else acc
  }

  /** The `found` flag: some argument is a number or text that reads as one. */
  predicate Found(args: seq<Arg>) {
    exists a | a in args :: ToNumber(a).Some?
  }

  /** The value a number is compared by in the winner rule: Double.longValue for a double. */
  function Key(n: Num): int {
    match n
    case I(x) => x
    case L(x) => x
    case D(x) => DoubleToLong(x)
  }

  /** The winner rule: the first of the int, long and double accumulators,
      in that order, whose comparison value is the most extreme of the three. */
  function Winner(dir: Direction, i: int32, l: int64, d: double): (r: Num)
    ensures r == I(i) || r == L(l) || r == D(d)
    ensures Beats(dir, Key(r), i) && Beats(dir, Key(r), l) && Beats(dir, Key(r), DoubleToLong(d))
    ensures !r.I? ==> !Beats(dir, i, Key(r))
    ensures r.D? ==> !Beats(dir, l, Key(r))
  {
    var t := DoubleToLong(d);
    if Beats(dir, i, t) && Beats(dir, i, l) then I(i)
    else if Beats(dir, l, t) then L(l)
    else D(d)
  }

  /** What max (Greatest) and min (Least) return for a list of arguments. */
  function Reduction(dir: Direction, args: seq<Arg>): (r: Option<Num>)
    ensures r.None? <==> forall a | a in args :: ToNumber(a).None?
    ensures r.Some? ==> r.value == I(IntAcc(dir, args)) || r.value == L(LongAcc(dir, args)) || r.value == D(DoubleAcc(dir, args))
  {
    if !Found(args) then None
    else Some(Winner(dir, IntAcc(dir, args), LongAcc(dir, args), DoubleAcc(dir, args)))
  }

  /** Math.max(List): one pass over args with three accumulators and a found flag. */
  method Max(args: seq<Arg>) returns (r: Option<Num>)
    ensures r == Reduction(Greatest, args)
    ensures r.None? <==> forall a | a in args :: ToNumber(a).None?
  {
    if |args| == 0 {
      return None;
    }
    var maxInt: int32 := IntMinValue;
    var maxDouble: double := -DoubleMaxValue;
    var maxLong: int64 := LongMinValue;
    var found := false;
    for k := 0 to |args|
      invariant maxInt == IntAcc(Greatest, args[..k])
      invariant maxDouble == DoubleAcc(Greatest, args[..k])
      invariant maxLong == LongAcc(Greatest, args[..k])
      invariant found <==> Found(args[..k])
    {
      var arg := args[k];
      var number := if arg.N? then Some(arg.num) else if arg.S? then ToNumber(arg) else None;
      if number.Some? {
        match number.value {
          case I(x) => maxInt := Pick(Greatest, maxInt, x); found := true;
          case D(x) => maxDouble := PickReal(Greatest, maxDouble, x); found := true;
          case L(x) => maxLong := Pick(Greatest, maxLong, x); found := true;
        }
      }
      StepPrefix(args, k);
    }
    assert args[..|args|] == args;
    if !found {
      return None;
    }
    // The winner rule of Winner, written out as the source writes it.
    if maxInt >= DoubleToLong(maxDouble) && maxInt >= maxLong {
      r := Some(I(maxInt));
    } else if maxLong >= DoubleToLong(maxDouble) {
      r := Some(L(maxLong));
    } else {
      r := Some(D(maxDouble));
    }
  }

  /** Math.min(List): as Max, with the opposite seeds and comparisons. */
  method Min(args: seq<Arg>) returns (r: Option<Num>)
    ensures r == Reduction(Least, args)
    ensures r.None? <==> forall a | a in args :: ToNumber(a).None?
  {
    if |args| == 0 {
      return None;
    }
    var minInt: int32 := IntMaxValue;
    var minDouble: double := DoubleMaxValue;
    var minLong: int64 := LongMaxValue;
    var found := false;
    for k := 0 to |args|
      invariant minInt == IntAcc(Least, args[..k])
      invariant minDouble == DoubleAcc(Least, args[..k])
      invariant minLong == LongAcc(Least, args[..k])
      invariant found <==> Found(args[..k])
    {
      var arg := args[k];
      var number := if arg.N? then Some(arg.num) else if arg.S? then ToNumber(arg) else None;
      if number.Some? {
        match number.value {
          case I(x) => minInt := Pick(Least, minInt, x); found := true;
          case D(x) => minDouble := PickReal(Least, minDouble, x); found := true;
          case L(x) => minLong := Pick(Least, minLong, x); found := true;
        }
      }
      StepPrefix(args, k);
    }
    assert args[..|args|] == args;
    if !found {
      return None;
    }
    // The winner rule of Winner, written out as the source writes it.
    if minInt <= DoubleToLong(minDouble) && minInt <= minLong {
      r := Some(I(minInt));
    } else if minLong <= DoubleToLong(minDouble) {
      r := Some(L(minLong));
    } else {
      r := Some(D(minDouble));
    }
  }

  /** How one more argument extends the prefix the loop has visited. */
  lemma StepPrefix(args: seq<Arg>, k: nat)
    requires k < |args|
    ensures args[..k + 1][..k] == args[..k] && args[..k + 1][k] == args[k]
    ensures Found(args[..k + 1]) <==> Found(args[..k]) || ToNumber(args[k]).Some?
  {
    assert args[..k + 1] == args[..k] + [args[k]];
  }

  /** The values of each type the arguments contribute. */
  ghost function IntsIn(args: seq<Arg>): set<int> {
    set a | a in args && IntOf(a).Some? :: IntOf(a).value as int
  }

  ghost function LongsIn(args: seq<Arg>): set<int> {
    set a | a in args && LongOf(a).Some? :: LongOf(a).value as int
  }

  ghost function DoublesIn(args: seq<Arg>): set<real> {
    set a | a in args && DoubleOf(a).Some? :: DoubleOf(a).value as real
  }

  /** After the loop the int accumulator is the maximum (minimum) of its seed
      and every Integer given directly or as text. */
  lemma {:induction false} IntAccExtreme(dir: Direction, args: seq<Arg>)
    ensures Beats(dir, IntAcc(dir, args), IntSeed(dir))
    ensures forall v | v in IntsIn(args) :: Beats(dir, IntAcc(dir, args), v)
    ensures IntAcc(dir, args) == IntSeed(dir) || IntAcc(dir, args) in IntsIn(args)
  {
    if args != [] {
      var init, last := args[..|args| - 1], args[|args| - 1];
      assert args == init + [last];
      IntAccExtreme(dir, init);
      assert IntsIn(args) == IntsIn(init) + (if IntOf(last).Some? then {IntOf(last).value as int} else {});
    }
  }

  lemma {:induction false} LongAccExtreme(dir: Direction, args: seq<Arg>)
    ensures Beats(dir, LongAcc(dir, args), LongSeed(dir))
    ensures forall v | v in LongsIn(args) :: Beats(dir, LongAcc(dir, args), v)
    ensures LongAcc(dir, args) == LongSeed(dir) || LongAcc(dir, args) in LongsIn(args)
  {
    if args != [] {
      var init, last := args[..|args| - 1], args[|args| - 1];
      assert args == init + [last];
      LongAccExtreme(dir, init);
      assert LongsIn(args) == LongsIn(init) + (if LongOf(last).Some? then {LongOf(last).value as int} else {});
    }
  }

  lemma {:induction false} DoubleAccExtreme(dir: Direction, args: seq<Arg>)
    ensures BeatsReal(dir, DoubleAcc(dir, args), DoubleSeed(dir))
    ensures forall v | v in DoublesIn(args) :: BeatsReal(dir, DoubleAcc(dir, args), v)
    ensures DoubleAcc(dir, args) == DoubleSeed(dir) || DoubleAcc(dir, args) in DoublesIn(args)
  {
    if args != [] {
      var init, last := args[..|args| - 1], args[|args| - 1];
      assert args == init + [last];
      DoubleAccExtreme(dir, init);
      assert DoublesIn(args) == DoublesIn(init) + (if DoubleOf(last).Some? then {DoubleOf(last).value as real} else {});
    }
  }

  lemma FoundIffValues(args: seq<Arg>)
    ensures Found(args) <==> IntsIn(args) != {} || LongsIn(args) != {} || DoublesIn(args) != {}
  {
    if Found(args) {
      var a :| a in args && ToNumber(a).Some?;
      match ToNumber(a).value {
        case I(x) => assert x as int in IntsIn(args);
        case L(x) => assert x as int in LongsIn(args);
        case D(x) => assert x as real in DoublesIn(args);
      }
    }
  }

  /** The result depends only on which values of each type occur, not on
      their order, their repetitions, their spelling or the skipped arguments. */
  lemma ReductionDependsOnlyOnValues(dir: Direction, args1: seq<Arg>, args2: seq<Arg>)
    requires IntsIn(args1) == IntsIn(args2)
    requires LongsIn(args1) == LongsIn(args2)
    requires DoublesIn(args1) == DoublesIn(args2)
    ensures Reduction(dir, args1) == Reduction(dir, args2)
  {
    FoundIffValues(args1);
    FoundIffValues(args2);
    IntAccExtreme(dir, args1);
    IntAccExtreme(dir, args2);
    LongAccExtreme(dir, args1);
    LongAccExtreme(dir, args2);
    DoubleAccExtreme(dir, args1);
    DoubleAccExtreme(dir, args2);
  }

  /** max and min give the same result for every ordering of the same arguments. */
  lemma ReductionIgnoresOrder(dir: Direction, args1: seq<Arg>, args2: seq<Arg>)
    requires multiset(args1) == multiset(args2)
    ensures Reduction(dir, args1) == Reduction(dir, args2)
  {
    assert forall a :: a in args1 <==> a in args2 by {
      forall a ensures a in args1 <==> a in args2 {
        assert a in args1 <==> a in multiset(args1);
        assert a in args2 <==> a in multiset(args2);
      }
    }
    ReductionDependsOnlyOnValues(dir, args1, args2);
  }

  /** An argument that is neither a number nor text toNumber reads changes nothing. */
  lemma ReductionSkipsNonNumbers(dir: Direction, p: seq<Arg>, a: Arg, q: seq<Arg>)
    requires ToNumber(a).None?
    ensures Reduction(dir, p + [a] + q) == Reduction(dir, p + q)
  {
    assert forall b :: b in p + [a] + q <==> b in p + q || b == a;
    ReductionDependsOnlyOnValues(dir, p + [a] + q, p + q);
  }

  /** Text counts exactly as the number toNumber reads from it. */
  lemma ReductionReadsText(dir: Direction, p: seq<Arg>, s: string, q: seq<Arg>)
    requires ToNumber(S(s)).Some?
    ensures Reduction(dir, p + [S(s)] + q) == Reduction(dir, p + [N(ToNumber(S(s)).value)] + q)
  {
    var n := N(ToNumber(S(s)).value);
    var withText, withNumber := p + [S(s)] + q, p + [n] + q;
    assert IntOf(n) == IntOf(S(s)) && LongOf(n) == LongOf(S(s)) && DoubleOf(n) == DoubleOf(S(s));
    assert IntsIn([n]) == IntsIn([S(s)]);
    assert LongsIn([n]) == LongsIn([S(s)]);
    assert DoublesIn([n]) == DoublesIn([S(s)]);
    assert forall b :: b in withText <==> b in p + q || b == S(s);
    assert forall b :: b in withNumber <==> b in p + q || b == n;
    assert IntsIn(withText) == IntsIn(p + q) + IntsIn([S(s)]);
    assert IntsIn(withNumber) == IntsIn(p + q) + IntsIn([n]);
    assert LongsIn(withText) == LongsIn(p + q) + LongsIn([S(s)]);
    assert LongsIn(withNumber) == LongsIn(p + q) + LongsIn([n]);
    assert DoublesIn(withText) == DoublesIn(p + q) + DoublesIn([S(s)]);
    assert DoublesIn(withNumber) == DoublesIn(p + q) + DoublesIn([n]);
    ReductionDependsOnlyOnValues(dir, withText, withNumber);
  }

  /** Each accumulator is at least as extreme, in the comparison values of
      the winner rule, as every number of its type among the arguments. */
  lemma AccumulatorsDominate(dir: Direction, args: seq<Arg>)
    ensures forall a | a in args && IntOf(a).Some? :: Beats(dir, IntAcc(dir, args), IntOf(a).value)
    ensures forall a | a in args && LongOf(a).Some? :: Beats(dir, LongAcc(dir, args), LongOf(a).value)
    ensures forall a | a in args && DoubleOf(a).Some? ::
              Beats(dir, DoubleToLong(DoubleAcc(dir, args)), DoubleToLong(DoubleOf(a).value))
  {
    IntAccExtreme(dir, args);
    LongAccExtreme(dir, args);
    DoubleAccExtreme(dir, args);
    forall a | a in args && IntOf(a).Some?
      ensures Beats(dir, IntAcc(dir, args), IntOf(a).value)
    {
      assert IntOf(a).value as int in IntsIn(args);
    }
    forall a | a in args && LongOf(a).Some?
      ensures Beats(dir, LongAcc(dir, args), LongOf(a).value)
    {
      assert LongOf(a).value as int in LongsIn(args);
    }
    forall a | a in args && DoubleOf(a).Some?
      ensures Beats(dir, DoubleToLong(DoubleAcc(dir, args)), DoubleToLong(DoubleOf(a).value))
    {
      var x := DoubleOf(a).value;
      assert x as real in DoublesIn(args);
      if dir.Greatest? {
        DoubleToLongMonotone(x, DoubleAcc(dir, args));
      } else {
        DoubleToLongMonotone(DoubleAcc(dir, args), x);
      }
    }
  }

  /** The result is at least as extreme, in the comparison values of the
      winner rule, as every number among the arguments. */
  lemma ReductionDominates(dir: Direction, args: seq<Arg>, a: Arg)
    requires a in args && ToNumber(a).Some?
    ensures Reduction(dir, args).Some?
    ensures Beats(dir, Key(Reduction(dir, args).value), Key(ToNumber(a).value))
  {
    AccumulatorsDominate(dir, args);
    assert IntOf(a).Some? || LongOf(a).Some? || DoubleOf(a).Some?;
  }

  /** One more argument at the end of the list: the loop's step, stated on the accumulators. */
  lemma Snoc(dir: Direction, p: seq<Arg>, a: Arg)
    ensures IntAcc(dir, p + [a]) == if IntOf(a).Some? then Pick(dir, IntAcc(dir, p), IntOf(a).value) else IntAcc(dir, p)
    ensures LongAcc(dir, p + [a]) == if LongOf(a).Some? then Pick(dir, LongAcc(dir, p), LongOf(a).value) else LongAcc(dir, p)
    ensures DoubleAcc(dir, p + [a]) == if DoubleOf(a).Some? then PickReal(dir, DoubleAcc(dir, p), DoubleOf(a).value) else DoubleAcc(dir, p)
    ensures Found(p + [a]) <==> Found(p) || ToNumber(a).Some?
  {
    assert (p + [a])[..|p|] == p;
    assert forall b :: b in p + [a] <==> b in p || b == a;
  }

  /** The examples the source documents for max. */
  lemma MaxExamples()
    ensures Reduction(Greatest, [N(I(1)), N(L(2)), N(D(3.0))]) == Some(D(3.0))
    ensures Reduction(Greatest, [N(I(1)), N(L(2)), S("3.0")]) == Some(D(3.0))
    ensures Reduction(Greatest, [S("a"), S("b"), S("c")]) == None
    ensures Reduction(Greatest, []) == None
  {
    MaxOfNumbers();
    MaxOfText();
    LettersExample();
  }

  lemma MaxOfText()
    ensures Reduction(Greatest, [N(I(1)), N(L(2)), S("3.0")]) == Some(D(3.0))
  {
    var init := [N(I(1)), N(L(2))];
    var withText, withNumber := init + [S("3.0")], init + [N(D(3.0))];
    assert withText == init + [S("3.0")] + [];
    assert withNumber == init + [N(D(3.0))] + [];
    ThreePointZeroExample();
    ReductionReadsText(Greatest, init, "3.0", []);
    assert Reduction(Greatest, withText) == Reduction(Greatest, withNumber);
    MaxOfNumbers();
    assert withNumber == [N(I(1)), N(L(2)), N(D(3.0))];
    assert withText == [N(I(1)), N(L(2)), S("3.0")];
  }

  lemma MaxOfNumbers()
    ensures Reduction(Greatest, [N(I(1)), N(L(2)), N(D(3.0))]) == Some(D(3.0))
  {
    var x, y, z := N(I(1)), N(L(2)), N(D(3.0));
    assert IntOf(x) == Some(1) && LongOf(x).None? && DoubleOf(x).None?;
    assert IntOf(y).None? && LongOf(y) == Some(2) && DoubleOf(y).None?;
    assert IntOf(z).None? && LongOf(z).None? && DoubleOf(z) == Some(3.0);
    Snoc(Greatest, [], x);
    assert [] + [x] == [x];
    Snoc(Greatest, [x], y);
    assert [x] + [y] == [x, y];
    Snoc(Greatest, [x, y], z);
    assert [x, y] + [z] == [x, y, z];
    assert IntAcc(Greatest, [x, y, z]) == 1;
    assert LongAcc(Greatest, [x, y, z]) == 2;
    assert DoubleAcc(Greatest, [x, y, z]) == 3.0;
    assert Found([x, y, z]);
    assert DoubleToLong(3.0) == 3;
  }

  /** The examples the source documents for min. */
  lemma MinExamples()
    ensures Reduction(Least, [N(D(1.0)), N(L(2)), N(I(3))]) == Some(D(1.0))
    ensures Reduction(Least, [S("1.0"), N(L(2)), N(I(3))]) == Some(D(1.0))
    ensures Reduction(Least, [S("a"), S("b"), S("c")]) == None
    ensures Reduction(Least, []) == None
  {
    MinOfNumbers();
    MinOfText();
    LettersExample();
  }

  lemma MinOfText()
    ensures Reduction(Least, [S("1.0"), N(L(2)), N(I(3))]) == Some(D(1.0))
  {
    var rest := [N(L(2)), N(I(3))];
    var withText, withNumber := [S("1.0")] + rest, [N(D(1.0))] + rest;
    assert withText == [] + [S("1.0")] + rest;
    assert withNumber == [] + [N(D(1.0))] + rest;
    OnePointZeroExample();
    ReductionReadsText(Least, [], "1.0", rest);
    assert Reduction(Least, withText) == Reduction(Least, withNumber);
    MinOfNumbers();
    assert withNumber == [N(D(1.0)), N(L(2)), N(I(3))];
    assert withText == [S("1.0"), N(L(2)), N(I(3))];
  }

  lemma MinOfNumbers()
    ensures Reduction(Least, [N(D(1.0)), N(L(2)), N(I(3))]) == Some(D(1.0))
  {
    var x, y, z := N(D(1.0)), N(L(2)), N(I(3));
    assert IntOf(x).None? && LongOf(x).None? && DoubleOf(x) == Some(1.0);
    assert IntOf(y).None? && LongOf(y) == Some(2) && DoubleOf(y).None?;
    assert IntOf(z) == Some(3) && LongOf(z).None? && DoubleOf(z).None?;
    Snoc(Least, [], x);
    assert [] + [x] == [x];
    Snoc(Least, [x], y);
    assert [x] + [y] == [x, y];
    Snoc(Least, [x, y], z);
    assert [x, y] + [z] == [x, y, z];
    assert IntAcc(Least, [x, y, z]) == 3;
    assert LongAcc(Least, [x, y, z]) == 2;
    assert DoubleAcc(Least, [x, y, z]) == 1.0;
    assert Found([x, y, z]);
    assert DoubleToLong(1.0) == 1;
  }

  lemma LettersExample()
    ensures forall dir: Direction :: Reduction(dir, [S("a"), S("b"), S("c")]) == None
  {
    TextWithoutDigitIsNoNumber("a");
    TextWithoutDigitIsNoNumber("b");
    TextWithoutDigitIsNoNumber("c");
    assert !Found([S("a"), S("b"), S("c")]);
  }

  /** The truncation quirk: 3 beats 3.9 for max, and -3 beats -3.5 for min,
      because the double is compared by its truncation to a long. */
  lemma TruncationQuirk()
    ensures Reduction(Greatest, [N(I(3)), N(D(3.9))]) == Some(I(3))
    ensures Reduction(Least, [N(I(-3)), N(D(-3.5))]) == Some(I(-3))
  {
    Snoc(Greatest, [], N(I(3)));
    assert [] + [N(I(3))] == [N(I(3))];
    Snoc(Greatest, [N(I(3))], N(D(3.9)));
    assert [N(I(3))] + [N(D(3.9))] == [N(I(3)), N(D(3.9))];
    Snoc(Least, [], N(I(-3)));
    assert [] + [N(I(-3))] == [N(I(-3))];
    Snoc(Least, [N(I(-3))], N(D(-3.5)));
    assert [N(I(-3))] + [N(D(-3.5))] == [N(I(-3)), N(D(-3.5))];
  }

  /** As written, an untouched seed can win: the only number is a long below
      Integer.MIN_VALUE, yet max returns Integer.MIN_VALUE, which no argument holds. */
  lemma SeedWinsMax()
    ensures Reduction(Greatest, [N(L(-3000000000))]) == Some(I(IntMinValue))
    ensures forall a | a in [N(L(-3000000000))] :: ToNumber(a) != Some(I(IntMinValue))
  {
    Snoc(Greatest, [], N(L(-3000000000)));
    assert [] + [N(L(-3000000000))] == [N(L(-3000000000))];
  }

  /** The same for min: a long above Integer.MAX_VALUE gives Integer.MAX_VALUE. */
  lemma SeedWinsMin()
    ensures Reduction(Least, [N(L(3000000000))]) == Some(I(IntMaxValue))
    ensures forall a | a in [N(L(3000000000))] :: ToNumber(a) != Some(I(IntMaxValue))
  {
    Snoc(Least, [], N(L(3000000000)));
    assert [] + [N(L(3000000000))] == [N(L(3000000000))];
  }

  predicate HasInt(args: seq<Arg>) {
    exists a | a in args :: IntOf(a).Some?
  }

  predicate HasLong(args: seq<Arg>) {
    exists a | a in args :: LongOf(a).Some?
  }

  predicate HasDouble(args: seq<Arg>) {
    exists a | a in args :: DoubleOf(a).Some?
  }

  /** An accumulator that some argument reached holds the number of one of the arguments. */
  lemma TouchedAccumulatorsAreArguments(dir: Direction, args: seq<Arg>)
    ensures HasInt(args) ==> exists a | a in args :: ToNumber(a) == Some(I(IntAcc(dir, args)))
    ensures HasLong(args) ==> exists a | a in args :: ToNumber(a) == Some(L(LongAcc(dir, args)))
    ensures HasDouble(args) ==> exists a | a in args :: ToNumber(a) == Some(D(DoubleAcc(dir, args)))
  {
    if HasInt(args) {
      TouchedIntIsArgument(dir, args);
    }
    if HasLong(args) {
      TouchedLongIsArgument(dir, args);
    }
    if HasDouble(args) {
      TouchedDoubleIsArgument(dir, args);
    }
  }

  lemma TouchedIntIsArgument(dir: Direction, args: seq<Arg>)
    requires HasInt(args)
    ensures exists a | a in args :: ToNumber(a) == Some(I(IntAcc(dir, args)))
  {
    IntAccExtreme(dir, args);
    var a :| a in args && IntOf(a).Some?;
    assert IntOf(a).value as int in IntsIn(args);
    var acc := IntAcc(dir, args);
    assert acc as int in IntsIn(args);
    var b :| b in args && IntOf(b).Some? && IntOf(b).value as int == acc;
    assert ToNumber(b) == Some(I(acc));
  }

  lemma TouchedLongIsArgument(dir: Direction, args: seq<Arg>)
    requires HasLong(args)
    ensures exists a | a in args :: ToNumber(a) == Some(L(LongAcc(dir, args)))
  {
    LongAccExtreme(dir, args);
    var a :| a in args && LongOf(a).Some?;
    assert LongOf(a).value as int in LongsIn(args);
    var acc := LongAcc(dir, args);
    assert acc as int in LongsIn(args);
    var b :| b in args && LongOf(b).Some? && LongOf(b).value as int == acc;
    assert ToNumber(b) == Some(L(acc));
  }

  lemma TouchedDoubleIsArgument(dir: Direction, args: seq<Arg>)
    requires HasDouble(args)
    ensures exists a | a in args :: ToNumber(a) == Some(D(DoubleAcc(dir, args)))
  {
    DoubleAccExtreme(dir, args);
    var a :| a in args && DoubleOf(a).Some?;
    assert DoubleOf(a).value as real in DoublesIn(args);
    var acc := DoubleAcc(dir, args);
    assert acc as real in DoublesIn(args);
    var b :| b in args && DoubleOf(b).Some? && DoubleOf(b).value as real == acc;
    assert ToNumber(b) == Some(D(acc));
  }

  /** The evident intent of the winner rule: the same truncate-then-compare
      order and the same int, long, double precedence, but only among the
      accumulators that some argument reached.  The result is then always
      the number of one of the arguments. */
  function IntendedReduction(dir: Direction, args: seq<Arg>): (r: Option<Num>)
    ensures r.None? <==> !Found(args)
    ensures r.Some? ==> exists a | a in args :: ToNumber(a) == r
    ensures forall a | a in args && ToNumber(a).Some? ::
              r.Some? && Beats(dir, Key(r.value), Key(ToNumber(a).value))
  {
    TouchedAccumulatorsAreArguments(dir, args);
    AccumulatorsDominate(dir, args);
    assert Found(args) <==> HasInt(args) || HasLong(args) || HasDouble(args) by {
      if Found(args) {
        var a :| a in args && ToNumber(a).Some?;
        assert IntOf(a).Some? || LongOf(a).Some? || DoubleOf(a).Some?;
      }
    }
    if !Found(args) then None
    else
      var i, l, d := IntAcc(dir, args), LongAcc(dir, args), DoubleAcc(dir, args);
      var hasI, hasL, hasD := HasInt(args), HasLong(args), HasDouble(args);
      var t := DoubleToLong(d);
      if hasI && (!hasD || Beats(dir, i, t)) && (!hasL || Beats(dir, i, l)) then Some(I(i))
      else if hasL && (!hasD || Beats(dir, l, t)) then Some(L(l))
      else Some(D(d))
  }

  /** On the inputs of the finding, the intended rule returns the long itself. */
  lemma IntendedReductionOnSeedExamples()
    ensures IntendedReduction(Greatest, [N(L(-3000000000))]) == Some(L(-3000000000))
    ensures IntendedReduction(Least, [N(L(3000000000))]) == Some(L(3000000000))
  {
    var low, high := N(L(-3000000000)), N(L(3000000000));
    assert low in [low] && ToNumber(low).Some?;
    assert high in [high] && ToNumber(high).Some?;
  }
}
