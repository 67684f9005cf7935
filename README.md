# Jolt `Math` functions: numeric coercion and mixed-type min/max

This project models the numeric helpers of Jolt's transform language, the
class `com.bazaarvoice.jolt.modifier.function.Math`:

- `toNumber` turns a value of unknown type into a number. A number passes
  through unchanged. Text is tried with `Integer.parseInt`, then
  `Long.parseLong`, then `Double.parseDouble`, and the first success wins.
  Anything else gives empty.
- `toInteger`, `toLong` and `toDouble` apply Java's primitive conversions
  (sections 5.1.2 and 5.1.3 of the Java Language Specification) to the
  number `toNumber` finds.
- `abs` applies `java.lang.Math.abs` and keeps the argument's type. The
  most negative int and long map to themselves.
- `max` and `min` make one pass over a list of mixed arguments. They keep
  an int, a long and a double accumulator, each seeded with its type's
  extreme bound, plus a `found` flag. The winner is chosen by comparing the
  int and long accumulators with the double accumulator truncated to a
  long: the int accumulator is checked first, then the long one, and the
  double one wins otherwise.
- `genericConverter` maps one of the element-wise helpers over a list. An
  element that does not convert is kept unchanged.

Files, one module each:

- `wrappers.dfy` (`Wrappers`): the `Option` type that stands for Jolt's `Optional`.
- `java_numbers.dfy` (`JavaNumbers`): `int32`, `int64` and the finite
  `double` range; `Num = I | L | D`; `intValue`, `longValue` and
  `doubleValue`; `Math.abs`.
- `number_text.dfy` (`NumberText`): the three parse grammars, and
  `Integer.toString` for round trips.
- `jolt_math.dfy` (`JoltMath`): the argument type `Arg = N | S | Other`
  (`Other` covers null), plus `toNumber`, `toInteger`, `toLong`,
  `toDouble` and `abs`.
- `extrema.dfy` (`Extrema`): `max` and `min` as methods with loops. Each
  is proved equal to the function `Reduction`. The lemmas about
  `Reduction` state what the source promises.
- `converters.dfy` (`Converters`): `genericConverter`. Its four
  subclasses are the constructors of the datatype `Converter`.

Modelling decisions:

- A `Double` is a mathematical real in the finite range
  ±`Double.MAX_VALUE`. `Double.MAX_VALUE` is written out exactly. The
  truncation `Double.longValue` rounds toward zero and saturates at the
  long bounds. So the seeds ±`Double.MAX_VALUE` truncate to
  `Long.MAX_VALUE` and `Long.MIN_VALUE` (`JavaNumbers.SeedsSaturate`).
- `(int)` of a long keeps the low 32 bits (`Wrap32`). `(int)` of a double
  saturates at the int bounds. `Math.abs` negates with wrap-around.
- `Integer.parseInt` and `Long.parseLong` accept an optional ASCII `+` or
  `-`, then one or more ASCII digits, with a range check.
  `Double.parseDouble` first trims characters up to `' '`. It then accepts
  an optional sign, digits with at most one decimal point (at least one
  digit in all) and an optional `d`/`D`/`f`/`F` suffix. The value is the
  exact decimal.
- The `max`/`min` loops dispatch on the argument's type as the source does.
  A number is used directly. Text goes through `toNumber`. Anything else is
  skipped.

## Model

| member | source | states |
|---|---|---|
| `JavaNumbers.Wrap32` | jolt-core/src/main/java/com/bazaarvoice/jolt/modifier/function/Math.java:234 | `(int)` of a long: an int congruent to it modulo 2^32, and the value itself when it is in int range |
| `JavaNumbers.TruncateTowardZero` | jolt-core/src/main/java/com/bazaarvoice/jolt/modifier/function/Math.java:86 | the integer closest to x on x's side of zero: it is less than 1 away from x, and its absolute value is not larger |
| `JavaNumbers.DoubleToLong` | jolt-core/src/main/java/com/bazaarvoice/jolt/modifier/function/Math.java:86-89 | `Double.longValue`: the truncation toward zero when it fits in a long; `Long.MIN_VALUE` for every x below the long range and `Long.MAX_VALUE` for every x at or above 2^63 |
| `JavaNumbers.DoubleToInt` | jolt-core/src/main/java/com/bazaarvoice/jolt/modifier/function/Math.java:234 | `Double.intValue`: the truncation when it fits in an int, else the int bound on that side |
| `JavaNumbers.IntValue` | jolt-core/src/main/java/com/bazaarvoice/jolt/modifier/function/Math.java:234 | `Number.intValue`: identity on Integer, congruent modulo 2^32 on Long, saturating truncation on Double |
| `JavaNumbers.DoubleValue` | jolt-core/src/main/java/com/bazaarvoice/jolt/modifier/function/Math.java:278 | `Number.doubleValue`: an Integer or a Long becomes the whole number with the same value, a Double stays as it is |
| `JavaNumbers.LongValue` | jolt-core/src/main/java/com/bazaarvoice/jolt/modifier/function/Math.java:256 | `Number.longValue`: identity on Integer and Long, saturating truncation on Double |
| `JavaNumbers.AbsInt` | jolt-core/src/main/java/com/bazaarvoice/jolt/modifier/function/Math.java:176 | `Math.abs(int)`: non-negative and equal to ±x, except `Integer.MIN_VALUE`, which maps to itself |
| `JavaNumbers.AbsLong` | jolt-core/src/main/java/com/bazaarvoice/jolt/modifier/function/Math.java:182 | `Math.abs(long)`: non-negative and equal to ±x, except `Long.MIN_VALUE`, which maps to itself |
| `JavaNumbers.Wrap64` | jolt-core/src/main/java/com/bazaarvoice/jolt/modifier/function/Math.java:182 | the negation inside `Math.abs(long)`: a long congruent to its argument modulo 2^64, and the argument itself when it is in long range |
| `JavaNumbers.AbsNum` | jolt-core/src/main/java/com/bazaarvoice/jolt/modifier/function/Math.java:175-183 | abs keeps the tag; a double result is non-negative and equal to ±x |
| `JavaNumbers.AbsNumIdempotent` | jolt-core/src/main/java/com/bazaarvoice/jolt/modifier/function/Math.java:175-183 | abs applied twice equals abs applied once, on every tag, the minimum values included |
| `JavaNumbers.ConversionsIdempotent` | jolt-core/src/main/java/com/bazaarvoice/jolt/modifier/function/Math.java:234-278 | intValue, longValue and doubleValue of an already converted value change nothing |
| `JavaNumbers.DoubleToLongMonotone` | jolt-core/src/main/java/com/bazaarvoice/jolt/modifier/function/Math.java:86-94 | the truncation used by the winner rule never reverses the order of two doubles |
| `JavaNumbers.SeedsSaturate` | jolt-core/src/main/java/com/bazaarvoice/jolt/modifier/function/Math.java:43-44 | the double seeds -`Double.MAX_VALUE` and `Double.MAX_VALUE` truncate to `Long.MIN_VALUE` and `Long.MAX_VALUE` |
| `NumberText.DigitsValueShowNat` | jolt-core/src/main/java/com/bazaarvoice/jolt/modifier/function/Math.java:210 | reading the decimal digits of n gives back n |
| `NumberText.ParseSignedShow` | jolt-core/src/main/java/com/bazaarvoice/jolt/modifier/function/Math.java:210-214 | the integer grammar reads back the `toString` spelling of every integer |
| `NumberText.ParseShowRoundTrip` | jolt-core/src/main/java/com/bazaarvoice/jolt/modifier/function/Math.java:210-214 | `Integer.parseInt` accepts the spelling of every int and `Long.parseLong` that of every long, each giving back the value |
| `NumberText.ParseInt` | jolt-core/src/main/java/com/bazaarvoice/jolt/modifier/function/Math.java:210 | `Integer.parseInt`: succeeds exactly when the text is a signed digit string whose value is in int range, and returns that value |
| `NumberText.ParseLong` | jolt-core/src/main/java/com/bazaarvoice/jolt/modifier/function/Math.java:214 | `Long.parseLong`: succeeds exactly when the text is a signed digit string whose value is in long range, and returns that value |
| `NumberText.ParseDouble` | jolt-core/src/main/java/com/bazaarvoice/jolt/modifier/function/Math.java:218 | `Double.parseDouble`: succeeds exactly when the trimmed text is a decimal literal whose value is within ±`Double.MAX_VALUE`, and returns that exact value |
| `NumberText.Trim` | jolt-core/src/main/java/com/bazaarvoice/jolt/modifier/function/Math.java:218 | `String.trim`, applied first by `parseDouble`: the result is a slice of the text with only characters up to `' '` cut on either side, and it neither begins nor ends with one |
| `NumberText.TrimNoBlank` | jolt-core/src/main/java/com/bazaarvoice/jolt/modifier/function/Math.java:218 | trimming leaves text without characters up to `' '` unchanged |
| `NumberText.IntegerTextIsDoubleText` | jolt-core/src/main/java/com/bazaarvoice/jolt/modifier/function/Math.java:213-218 | every long literal is also a double literal, with the same value |
| `NumberText.DecimalNeedsDigit` | jolt-core/src/main/java/com/bazaarvoice/jolt/modifier/function/Math.java:217-220 | `Double.parseDouble` rejects text without a decimal digit |
| `NumberText.SignedNeedsDigit` | jolt-core/src/main/java/com/bazaarvoice/jolt/modifier/function/Math.java:209-216 | the integer grammar rejects text without a decimal digit |
| `NumberText.DecimalLiteralExample` | jolt-core/src/main/java/com/bazaarvoice/jolt/modifier/function/Math.java:196 | `Double.parseDouble("12.3")` is 12.3 |
| `JoltMath.ToNumber` | jolt-core/src/main/java/com/bazaarvoice/jolt/modifier/function/Math.java:204-226 | a number is returned unchanged. Text is an Integer exactly when parseInt succeeds, a Long exactly when parseInt fails and parseLong succeeds, and a Double exactly when both fail and parseDouble succeeds, each with the parsed value. Anything else is empty |
| `JoltMath.ToInteger` | jolt-core/src/main/java/com/bazaarvoice/jolt/modifier/function/Math.java:232-248 | empty exactly when toNumber is empty, otherwise intValue of toNumber's number |
| `JoltMath.ToLong` | jolt-core/src/main/java/com/bazaarvoice/jolt/modifier/function/Math.java:254-270 | empty exactly when toNumber is empty, otherwise longValue of toNumber's number |
| `JoltMath.ToDouble` | jolt-core/src/main/java/com/bazaarvoice/jolt/modifier/function/Math.java:276-292 | empty exactly when toNumber is empty, otherwise doubleValue of toNumber's number |
| `JoltMath.Abs` | jolt-core/src/main/java/com/bazaarvoice/jolt/modifier/function/Math.java:174-188 | empty exactly when toNumber is empty. Otherwise the result keeps the tag of toNumber's number, is ± that number, and is non-negative unless it is `Integer.MIN_VALUE` or `Long.MIN_VALUE` given as input |
| `JoltMath.ConvertTwice` | jolt-core/src/main/java/com/bazaarvoice/jolt/modifier/function/Math.java:174-292 | toInteger, toLong, toDouble and abs applied to their own result give that result again |
| `JoltMath.IntTextIsInteger` | jolt-core/src/main/java/com/bazaarvoice/jolt/modifier/function/Math.java:208-210 | the text of any int becomes that Integer, not a Long or a Double |
| `JoltMath.LongTextIsLong` | jolt-core/src/main/java/com/bazaarvoice/jolt/modifier/function/Math.java:209-214 | the text of a long outside int range becomes that Long |
| `JoltMath.LongOnlyBeyondInt` | jolt-core/src/main/java/com/bazaarvoice/jolt/modifier/function/Math.java:209-216 | text becomes a Long only when its value lies outside int range |
| `JoltMath.ChainAgreesWithDouble` | jolt-core/src/main/java/com/bazaarvoice/jolt/modifier/function/Math.java:208-221 | whatever type the chain picks, its value is the one parseDouble reads from the same text |
| `JoltMath.TextWithoutDigitIsNoNumber` | jolt-core/src/main/java/com/bazaarvoice/jolt/modifier/function/Math.java:208-221 | text without a decimal digit gives empty |
| `JoltMath.ToNumberExamples` | jolt-core/src/main/java/com/bazaarvoice/jolt/modifier/function/Math.java:194-199 | the documented examples: "123", "-123", "12.3", "abc", null |
| `JoltMath.AbsExamples` | jolt-core/src/main/java/com/bazaarvoice/jolt/modifier/function/Math.java:166-171 | the documented examples: abs("-123") = 123, abs("123") = 123, abs("12.3") = 12.3, abs("abc") and abs(null) empty |
| `Extrema.Pick` | jolt-core/src/main/java/com/bazaarvoice/jolt/modifier/function/Math.java:49 | `Math.max` / `Math.min` on two integers: one of them, at least as extreme as both |
| `Extrema.PickReal` | jolt-core/src/main/java/com/bazaarvoice/jolt/modifier/function/Math.java:53 | `Math.max` / `Math.min` on two doubles: one of them, at least as extreme as both |
| `Extrema.Winner` | jolt-core/src/main/java/com/bazaarvoice/jolt/modifier/function/Math.java:86-94 | the result is exactly one of the three accumulators. Its value (a double's truncated to a long) is at least as extreme as all three. The int accumulator loses only when it is strictly less extreme, and the double wins only when the long is strictly less extreme too |
| `Extrema.Reduction` | jolt-core/src/main/java/com/bazaarvoice/jolt/modifier/function/Math.java:79-94 | what max and min return: empty exactly when no argument is a number or readable text, otherwise one of the three accumulators, chosen by `Winner` |
| `Extrema.Max` | jolt-core/src/main/java/com/bazaarvoice/jolt/modifier/function/Math.java:37-95 | the loop computes `Reduction(Greatest, args)`. The result is empty exactly when no argument is a number or readable text, the empty list included |
| `Extrema.Min` | jolt-core/src/main/java/com/bazaarvoice/jolt/modifier/function/Math.java:106-160 | the loop computes `Reduction(Least, args)`. The result is empty exactly when no argument is a number or readable text, the empty list included |
| `Extrema.StepPrefix` | jolt-core/src/main/java/com/bazaarvoice/jolt/modifier/function/Math.java:47-78 | the found flag over one more argument is the old flag or that argument being a number |
| `Extrema.Snoc` | jolt-core/src/main/java/com/bazaarvoice/jolt/modifier/function/Math.java:47-78 | one more argument updates only the accumulator of its own type, with Math.max / Math.min |
| `Extrema.IntAccExtreme` | jolt-core/src/main/java/com/bazaarvoice/jolt/modifier/function/Math.java:42-78 | the int accumulator is at least as extreme as its seed and as every Integer given directly or as text, and it is the seed or one of those Integers |
| `Extrema.LongAccExtreme` | jolt-core/src/main/java/com/bazaarvoice/jolt/modifier/function/Math.java:44-78 | the same for the long accumulator and the Longs |
| `Extrema.DoubleAccExtreme` | jolt-core/src/main/java/com/bazaarvoice/jolt/modifier/function/Math.java:43-78 | the same for the double accumulator and the Doubles |
| `Extrema.FoundIffValues` | jolt-core/src/main/java/com/bazaarvoice/jolt/modifier/function/Math.java:45-81 | found holds exactly when some value of some type was seen |
| `Extrema.ReductionDependsOnlyOnValues` | jolt-core/src/main/java/com/bazaarvoice/jolt/modifier/function/Math.java:47-94 | two argument lists with the same Integers, Longs and Doubles give the same result |
| `Extrema.ReductionIgnoresOrder` | jolt-core/src/main/java/com/bazaarvoice/jolt/modifier/function/Math.java:47-94 | any reordering of the arguments gives the same result |
| `Extrema.ReductionSkipsNonNumbers` | jolt-core/src/main/java/com/bazaarvoice/jolt/modifier/function/Math.java:60-77 | an argument that is neither a number nor readable text changes nothing, wherever it stands |
| `Extrema.ReductionReadsText` | jolt-core/src/main/java/com/bazaarvoice/jolt/modifier/function/Math.java:60-76 | readable text counts exactly as the number toNumber reads from it |
| `Extrema.AccumulatorsDominate` | jolt-core/src/main/java/com/bazaarvoice/jolt/modifier/function/Math.java:47-89 | each accumulator, compared as the winner rule compares it, is at least as extreme as every number of its type |
| `Extrema.ReductionDominates` | jolt-core/src/main/java/com/bazaarvoice/jolt/modifier/function/Math.java:86-94 | the result is present, and at least as extreme as every number among the arguments under the winner rule's comparison |
| `Extrema.MaxExamples` | jolt-core/src/main/java/com/bazaarvoice/jolt/modifier/function/Math.java:32-35 | the documented examples: max(1, 2L, 3d) = 3d, max(1, 2L, "3.0") = 3.0, max("a", "b", "c") and max([]) empty |
| `Extrema.MaxOfNumbers` | jolt-core/src/main/java/com/bazaarvoice/jolt/modifier/function/Math.java:32 | max(1, 2L, 3d) = 3d |
| `Extrema.MaxOfText` | jolt-core/src/main/java/com/bazaarvoice/jolt/modifier/function/Math.java:33 | max(1, 2L, "3.0") = 3.0 |
| `Extrema.MinExamples` | jolt-core/src/main/java/com/bazaarvoice/jolt/modifier/function/Math.java:101-104 | the documented examples: min(1d, 2L, 3) = 1d, min("1.0", 2L, 3) = 1.0 (the comment's third argument `d` read as the Integer 3), min("a", "b", "c") and min([]) empty |
| `Extrema.MinOfNumbers` | jolt-core/src/main/java/com/bazaarvoice/jolt/modifier/function/Math.java:101 | min(1d, 2L, 3) = 1d |
| `Extrema.MinOfText` | jolt-core/src/main/java/com/bazaarvoice/jolt/modifier/function/Math.java:102 | min("1.0", 2L, 3) = 1.0 |
| `Extrema.LettersExample` | jolt-core/src/main/java/com/bazaarvoice/jolt/modifier/function/Math.java:34 | max and min of "a", "b", "c" are empty |
| `Extrema.TruncationQuirk` | jolt-core/src/main/java/com/bazaarvoice/jolt/modifier/function/Math.java:86-88 | the truncate-then-compare rule: max(3, 3.9) = 3 and min(-3, -3.5) = -3 |
| `Extrema.SeedWinsMax` | jolt-core/src/main/java/com/bazaarvoice/jolt/modifier/function/Math.java:86-88 | max of the single long -3000000000 returns `Integer.MIN_VALUE`, which no argument holds |
| `Extrema.SeedWinsMin` | jolt-core/src/main/java/com/bazaarvoice/jolt/modifier/function/Math.java:151-153 | min of the single long 3000000000 returns `Integer.MAX_VALUE`, which no argument holds |
| `Extrema.TouchedAccumulatorsAreArguments` | jolt-core/src/main/java/com/bazaarvoice/jolt/modifier/function/Math.java:42-78 | an accumulator that at least one argument of its type reached holds the number of one of the arguments |
| `Extrema.TouchedIntIsArgument` | jolt-core/src/main/java/com/bazaarvoice/jolt/modifier/function/Math.java:42-78 | the same for the int accumulator |
| `Extrema.TouchedLongIsArgument` | jolt-core/src/main/java/com/bazaarvoice/jolt/modifier/function/Math.java:44-78 | the same for the long accumulator |
| `Extrema.TouchedDoubleIsArgument` | jolt-core/src/main/java/com/bazaarvoice/jolt/modifier/function/Math.java:43-78 | the same for the double accumulator |
| `Extrema.IntendedReduction` | jolt-core/src/main/java/com/bazaarvoice/jolt/modifier/function/Math.java:86-94 | corrected winner rule: empty exactly when no number is found. Otherwise the result is the number of one of the arguments and at least as extreme as every number among them |
| `Extrema.IntendedReductionOnSeedExamples` | jolt-core/src/main/java/com/bazaarvoice/jolt/modifier/function/Math.java:86-94 | on the inputs of the findings, the corrected rule returns the long that was given |
| `Converters.Convert` | jolt-core/src/main/java/com/bazaarvoice/jolt/modifier/function/Math.java:321-352 | each subclass's `convert`: empty exactly when toNumber is empty. abs gives `JoltMath.Abs` of the argument, which keeps the tag; toInteger, toLong and toDouble give intValue, longValue and doubleValue of toNumber's number |
| `Converters.Converted` | jolt-core/src/main/java/com/bazaarvoice/jolt/modifier/function/Math.java:370-371 | an element that does not convert stays as it is; one that converts becomes its converted number |
| `Converters.ApplyList` | jolt-core/src/main/java/com/bazaarvoice/jolt/modifier/function/Math.java:367-374 | the result has the input's length, and position i holds element i converted or, failing that, unchanged |
| `Converters.Apply` | jolt-core/src/main/java/com/bazaarvoice/jolt/modifier/function/Math.java:357-365 | no arguments give empty. One argument gives its bare converted number, or empty when that fails. Several give the list form |
| `Converters.ConvertedIdempotent` | jolt-core/src/main/java/com/bazaarvoice/jolt/modifier/function/Math.java:367-374 | converting an already converted element again changes nothing, for all four converters |

## Left out

- Floating point: `D` holds an exact real between ±`Double.MAX_VALUE`. NaN, infinities, signed zero and rounding are not modelled. So `Math.max`/`Math.min` on doubles with NaN and the rounding of `parseDouble` are absent too.
- `JavaNumbers.DoubleValue`: the conversion of a long to double is exact here. Java rounds a long of magnitude above 2^53 to the nearest double.
- `NumberText.ParseDouble`: exponents, hexadecimal literals, `NaN` and `Infinity` are not accepted. A literal whose exact value lies beyond ±`Double.MAX_VALUE` gives empty. Java rounds such a literal to ±`Double.MAX_VALUE` when it is within half an ulp of it, and to an infinity beyond that. A `d`/`D`/`f`/`F` suffix is accepted and ignored, as in Java.
- `NumberText.ParseInt` and `NumberText.ParseLong` accept ASCII digits only. Java's `Character.digit` also accepts other Unicode decimal digits.
- Number subclasses other than Integer, Long and Double (Float, Short, BigDecimal, …) are not in `Num`. `toNumber` would pass them through, and `max`/`min` would skip them.
- The `max` and `min` `Function` classes (Math.java:295-319) only forward to `max`/`min`, with `Arrays.asList` for varargs. No separate members model them: `Extrema.Max` and `Extrema.Min` are what they call.
- `JoltMath.Abs` on text that does not parse calls `get()` on an empty `Optional`. The `Optional` class is not part of this model, so the model follows the documented `abs("abc") == empty`.
- Java generics, unchecked casts and the `Function` interface wiring are not modelled. The four `genericConverter` subclasses are the constructors of `Converters.Converter`.
- `Extrema.Max` and `Extrema.Min` keep the winner rule as written, including the findings below, because callers see that behaviour. `Extrema.IntendedReduction` states the corrected rule beside it and is not wired into them.

## Findings

| source | as written | input that shows it | evidently intended | confidence | as-written member | corrected member |
|---|---|---|---|---|---|---|
| jolt-core/src/main/java/com/bazaarvoice/jolt/modifier/function/Math.java:86-88 | the int accumulator wins when it is at least the truncated double and the long accumulator, even if no Integer was given, so its seed `Integer.MIN_VALUE` is returned | `max([-3000000000L])` gives `Integer.MIN_VALUE` | the maximum of the given numbers, here `-3000000000L` | not executed; high (the model proves it) | `Extrema.SeedWinsMax` | `Extrema.IntendedReduction` |
| jolt-core/src/main/java/com/bazaarvoice/jolt/modifier/function/Math.java:151-153 | the same for min with the seed `Integer.MAX_VALUE` | `min([3000000000L])` gives `Integer.MAX_VALUE` | the minimum of the given numbers, here `3000000000L` | not executed; high (the model proves it) | `Extrema.SeedWinsMin` | `Extrema.IntendedReduction` |
