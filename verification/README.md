# Radix conversion, per-core transpose and arg-min, in Dafny

This project models the verifiable logic of a set of numerical-methods
exercises:

- the arbitrary-radix converter of `Machine_Assignment_2/convert.py`:
  `integer_to_base`, `fraction_to_base`, `decimal_to_base`, `convert` and
  `MAX_DIGITS = 8`;
- its base-2 predecessor in `Machine_Assignment_1/convert.py`:
  `decimal_to_binary_fraction`, `convert` and `MAX_DIGITS = 8`;
- `preprocess` and `CoreData` in `Semester_Project/src/preprocess.rs`, which
  turn temperature lines into one (times, temps) series per CPU core;
- `find_minimum_error` in `Machine_Assignment_4/plot_error.py`.

The converters take a Python float. Here the number is the exact ratio
`num / den` of an integer and a positive natural; every finite double is such
a ratio. The fraction loop keeps `c = r / q` as its remainder numerator `r`.
One pass `c = c * base; digit = int(c); c = c - digit` then becomes
`d = (r * b) / q` and `r' = (r * b) % q`. For `num >= 0`, Python's `int(x)` is
`num / den`. `decimal_to_base` handles the sign before it calls `int`, so
truncation toward zero and Dafny's Euclidean division agree wherever they
are used.

A digit value is written as a decimal numeral, so base 16 prints 255 as
`15;15`. A part's digits are joined with `;`. Because of this, the text is
proved unambiguous: a parser (`ReadBack`) reads the output of `convert` back
into a sign, integer digits, fractional digits and a truncation flag. That
reading is proved to describe the input. The integer digits evaluate to
`|x|`'s integer part, with no leading zero. The fractional digits are
`floor(frac * b^k)`, and the flag is set exactly when that truncation loses
something.

Modules:

| module | file | models |
|---|---|---|
| `Wrappers` | wrappers.dfy | `Option` |
| `Numerals` | numerals.dfy | `str(n)` for a natural number, and reading it back |
| `Tokens` | tokens.dfy | `sep.join`, `str.split`, `str.replace(ch, "")` |
| `Positional` | positional.dfy | powers, the value of a digit sequence, one-law arithmetic lemmas |
| `BaseConvert` | base_convert.dfy | Machine_Assignment_2/convert.py |
| `ReadBack` | read_back.dfy | the meaning of the text `convert` prints |
| `BinaryConvert` | binary_convert.dfy | Machine_Assignment_1/convert.py |
| `Preprocess` | preprocess.dfy | Semester_Project/src/preprocess.rs |
| `MinimumError` | min_error.dfy | `find_minimum_error` |

## Model

| member | source | states |
|---|---|---|
| `Numerals.NumeralValueOfDecimal` | Machine_Assignment_2/convert.py:19 | the numeral `str(d)` of a digit reads back as `d`, so a digit's text is never ambiguous |
| `Numerals.DecimalInjective` | Machine_Assignment_2/convert.py:19 | distinct digit values print as distinct numerals |
| `Tokens.SplitJoin` | Machine_Assignment_2/convert.py:25 | joining parts that hold no separator can be undone by splitting at the separator |
| `Tokens.JoinSplit` | Machine_Assignment_2/test_convert.py:149-150 | splitting at `;` loses nothing: joining the pieces again restores the text |
| `Tokens.RemoveJoin` | Machine_Assignment_1/convert.py:23 | deleting the separator from a `;`-join leaves the plain `"".join` of the same parts |
| `Positional.EvalBound` | Machine_Assignment_2/convert.py:17-25 | legal digits in `k` places are worth less than `b^k` |
| `Positional.EvalInjective` | Machine_Assignment_2/convert.py:17-25 | two legal digit sequences of the same length with the same value are equal |
| `Positional.AppendValue` | Machine_Assignment_2/convert.py:38-41 | one multiply-and-floor pass keeps the exact-value invariant `p * b^j == value(digits) * q + r` one place further |
| `BaseConvert.Reversed` | Machine_Assignment_2/convert.py:23 | `digits.reverse()` keeps the length and puts position `i` of the result at position `len - 1 - i` of the input |
| `BaseConvert.IntegerDigitsPlaces` | Machine_Assignment_2/convert.py:17-23 | a positive `n` gets exactly as many digits as places: `b^(len - 1) <= n < b^len` |
| `BaseConvert.IntegerDigits` | Machine_Assignment_2/convert.py:17-23 | the digits of `n`, most significant first: each below the base, the first nonzero, evaluating back to `n`, and none exactly for 0 |
| `BaseConvert.CanonicalDigits` | Machine_Assignment_2/convert.py:12-23 | the digits printed for `n`: at least one, legal, value `n`, and a leading 0 only for 0, which prints as the single digit 0 |
| `BaseConvert.IntegerToBase` | Machine_Assignment_2/convert.py:7-25 | `integer_to_base` is never empty, starts and ends with a decimal digit, holds only digits and `;`, and is `"0"` exactly for 0 |
| `BaseConvert.IntegerToBaseText` | Machine_Assignment_2/convert.py:23-25 | `integer_to_base` prints exactly the canonical digits as numerals joined by `;` |
| `BaseConvert.IntegerToBaseReadsBack` | Machine_Assignment_2/convert.py:12-25 | reading the text of `integer_to_base(n, b)` gives legal digits without a leading zero that evaluate to `n` |
| `BaseConvert.CanonicalDigitsUnique` | Machine_Assignment_2/convert.py:17-25 | any legal digit sequence without a leading zero is the canonical one for its value, so the representation is unique |
| `BaseConvert.IntegerToBaseLoop` | Machine_Assignment_2/convert.py:12-25 | the remainder loop, reversal and join as written print the canonical digit text of `n` |
| `BaseConvert.DigitsTextShape` | Machine_Assignment_2/convert.py:19-25 | a non-empty digit text starts and ends with a decimal digit and holds only digits and `;` |
| `BaseConvert.ReadDigitsText` | Machine_Assignment_2/convert.py:25 | reading a digit text gives back exactly its digits, even in radices whose digits take several characters |
| `BaseConvert.Step` | Machine_Assignment_2/convert.py:38-41 | one pass yields a digit below the base and a remainder below `q`, with `r * b == digit * q + r'` |
| `BaseConvert.Expand` | Machine_Assignment_2/convert.py:37-44 | after `k` passes: legal digits, at most `k` and at least one of them, a remainder below `q`, and all `k` digits whenever the remainder is nonzero |
| `BaseConvert.StreamValue` | Machine_Assignment_2/convert.py:37-41 | the exact-value invariant of the unbounded loop: `p * b^j == value(first j digits) * q + remainder` |
| `BaseConvert.StreamIsFloor` | Machine_Assignment_2/convert.py:38-41 | the first `j` digits read as an integer are `floor(p / q * b^j)`, and the remainder is what that floor leaves |
| `BaseConvert.ZeroRemainderStays` | Machine_Assignment_2/convert.py:43-44 | once a pass leaves remainder 0, every later pass does too, so stopping there loses no digit |
| `BaseConvert.ExpandFollowsStream` | Machine_Assignment_2/convert.py:37-44 | the bounded loop emits the leading digits of the unbounded one and stops at the first zero remainder or at the budget |
| `BaseConvert.ExpandStopped` | Machine_Assignment_2/convert.py:43-44 | after the early exit, further passes would leave the loop state unchanged |
| `BaseConvert.FractionDigits` | Machine_Assignment_2/convert.py:34-44 | the `for` loop with its `break`, as written, ends in the state of `Expand` after `MAX_DIGITS` passes |
| `BaseConvert.FractionToBase` | Machine_Assignment_2/convert.py:28-51 | `fraction_to_base` is never empty and starts with a decimal digit |
| `BaseConvert.FractionToBaseMarker` | Machine_Assignment_2/convert.py:46-49 | the text ends in `...` exactly when the loop left a nonzero remainder, and what precedes the marker is the digit text |
| `BaseConvert.FractionToBaseSpec` | Machine_Assignment_2/convert.py:37-49 | between 1 and `MAX_DIGITS` digits; `...` exactly when `p / q * b^MAX_DIGITS` is not whole, and then `MAX_DIGITS` digits precede it; otherwise the digits reproduce `p / q` exactly and stop at the first zero remainder |
| `BaseConvert.FractionDigitsApproximate` | Machine_Assignment_2/convert.py:37-44 | the digits are `floor(p / q * b^k)` and undershoot `p / q` by less than one unit in the last place; the remainder is 0 exactly when they are exact |
| `BaseConvert.FractionToBaseTokens` | Machine_Assignment_2/convert.py:46-49 | with the marker removed the text reads back as the loop's digits, and a cut-off text splits into `MAX_DIGITS` tokens |
| `BaseConvert.FractionToBaseChars` | Machine_Assignment_2/convert.py:46-49 | the fraction text holds only digits, `;` and the dots of the marker |
| `BaseConvert.UnsignedToBase` | Machine_Assignment_2/convert.py:64-77 | the non-negative branch is never empty, starts with a decimal digit, holds only digits, `;`, `.` and the marker, and has a `.` exactly when `x` is not whole |
| `BaseConvert.DecimalToBase` | Machine_Assignment_2/convert.py:54-77 | `decimal_to_base` is never empty, starts with `-` exactly for a negative number, and holds no other `-` |
| `BaseConvert.Convert` | Machine_Assignment_2/convert.py:80-84 | `convert` is `decimal_to_base`: never empty, a leading `-` exactly for negative input, and no other `-` |
| `BaseConvert.NegationPrefixesMinus` | Machine_Assignment_2/convert.py:61-62 | `convert(-x) == "-" + convert(x)` for positive `x`, with exactly one leading `-` |
| `BaseConvert.DecimalToBaseParts` | Machine_Assignment_2/convert.py:65-77 | a whole number prints as its integer text with no `.`; otherwise the integer text, one `.` and the fraction text |
| `ReadBack.IntegerTextReads` | Machine_Assignment_2/convert.py:69 | the integer part of the text reads back as the canonical digits of `int(x)` |
| `ReadBack.FractionTextReads` | Machine_Assignment_2/convert.py:46-49 | the fraction text parses to the loop's digits, with the marker flag set exactly when the loop left a nonzero remainder |
| `ReadBack.UnsignedReadsBack` | Machine_Assignment_2/convert.py:65-77 | the text of a non-negative ratio parses to its integer digits, its fraction digits and the marker flag |
| `ReadBack.WithFractionReadsBack` | Machine_Assignment_2/convert.py:75-77 | the first `.` of `int_str + "." + frac_str` separates the parts, and the fraction parses to the loop's digits and flag |
| `ReadBack.ConvertReadsBack` | Machine_Assignment_2/convert.py:54-84 | parsing `convert(x)` recovers the sign and the expected reading of `|x|` |
| `ReadBack.FractionMeaning` | Machine_Assignment_2/convert.py:28-51 | the expansion of a nonzero fraction describes it: its digits are its truncation to `k <= MAX_DIGITS` places, and the flag is set exactly when that truncation loses something. A cut-off expansion has all `MAX_DIGITS` places; a complete one has the fewest places that make `x * b^k` whole |
| `ReadBack.WholeMeaning` | Machine_Assignment_2/convert.py:12-25 | the canonical digits describe their number: legal, worth `n`, no leading zero, and the single digit 0 for 0 |
| `ReadBack.ZeroFractionMeaning` | Machine_Assignment_2/convert.py:72-73 | a whole number has no fractional digits and no marker |
| `ReadBack.ExpectedMeaning` | Machine_Assignment_2/convert.py:65-77 | the expected reading of `a / den` describes its integer part and its fractional part |
| `ReadBack.ConvertMeaning` | Machine_Assignment_2/convert.py:54-84 | parsing `convert(x)` always succeeds. It gives the sign of `x`, digits worth `int(abs(x))` with no leading zero, and `abs(x)`'s fractional part truncated to its printed places, exact unless `...` is printed; the number of places is the fewest that make it exact, or `MAX_DIGITS` when it is cut off |
| `ReadBack.DescribesWholeUnique` | Machine_Assignment_2/convert.py:12-25 | only one digit sequence describes a given integer part |
| `ReadBack.DescribesFractionUnique` | Machine_Assignment_2/convert.py:37-49 | only one digit sequence and marker flag describe a given fractional part |
| `ReadBack.DescriptionIsConvert` | Machine_Assignment_2/convert.py:54-84 | the converse of `ConvertMeaning`: any sign, integer digits, fraction digits and flag that describe `x` are exactly what parsing `convert(x)` gives, and `convert(x)` is exactly their rendering |
| `ReadBack.SameDescriptionSameText` | Machine_Assignment_2/convert.py:54-84 | two numbers with the same description print the same text |
| `ReadBack.RenderWithFraction` | Machine_Assignment_2/convert.py:69-77 | `int_str + "." + frac_str` is the rendering of the integer digits and the fraction loop's digits and marker |
| `ReadBack.UnsignedRenders` | Machine_Assignment_2/convert.py:64-77 | the non-negative branch prints exactly the rendering of its expected reading |
| `ReadBack.ConvertRenders` | Machine_Assignment_2/convert.py:54-84 | `convert(x)` is exactly the rendering of the reading parsed from it |
| `BinaryConvert.Double` | Machine_Assignment_1/convert.py:15-18 | doubling yields a bit and a remainder below `q` with `2r == bit * q + r'` |
| `BinaryConvert.DoubleIsStep` | Machine_Assignment_1/convert.py:15-18 | the doubling pass is the radix-2 pass of the general converter |
| `BinaryConvert.BinaryExpand` | Machine_Assignment_1/convert.py:14-21 | the loop state after `k` passes keeps its remainder below `q` |
| `BinaryConvert.BinaryExpandIsExpand` | Machine_Assignment_1/convert.py:14-21 | the two converters' fraction loops are step-for-step the same in radix 2 |
| `BinaryConvert.DecimalToBinaryFraction` | Machine_Assignment_1/convert.py:6-28 | the result starts with `0.` |
| `BinaryConvert.Convert` | Machine_Assignment_1/convert.py:31-40 | `"0"` exactly for 0, `"1"` exactly for 1, and the binary fraction for everything in between |
| `BinaryConvert.BitsTextChars` | Machine_Assignment_1/convert.py:23 | the bits print one character each, `0` or `1`, with no separator |
| `BinaryConvert.ReadBitsText` | Machine_Assignment_1/convert.py:17-23 | the bit text reads back as the bits |
| `BinaryConvert.ReadMarked` | Machine_Assignment_1/convert.py:23-26 | `0.`, the bits and the optional marker read back as the bits and the marker flag |
| `BinaryConvert.BinaryFractionReadsBack` | Machine_Assignment_1/convert.py:14-28 | the result reads back as the loop's bits. The marker is there exactly when the remainder is nonzero, and then there are `MAX_DIGITS` bits and the length is `2 + MAX_DIGITS + 3` |
| `BinaryConvert.BinaryFractionMeaning` | Machine_Assignment_1/convert.py:14-28 | the bits are `floor(x * 2^k)`, exact unless the marker is printed, which happens exactly when `x * 2^MAX_DIGITS` is not whole |
| `BinaryConvert.RemoveSeparators` | Machine_Assignment_1/convert.py:23 | the `;`-joined digit text with its separators deleted is the bit text |
| `BinaryConvert.RemoveMarked` | Machine_Assignment_1/convert.py:23-26 | deleting `;` leaves the marker in place |
| `BinaryConvert.MatchesBaseConverter` | Machine_Assignment_1/convert.py:14-28 | `decimal_to_binary_fraction(x)` is `"0."` followed by `fraction_to_base(x, 2)` with its `;` deleted |
| `Preprocess.Preprocess` | Semester_Project/src/preprocess.rs:16-38 | one series per core of the first line (none for no lines), and core `c`'s series is the column of `c`-th readings with their time steps, in line order |
| `Preprocess.ColumnLengthsAgree` | Semester_Project/src/preprocess.rs:31-34 | every core's times and temperatures have the same length |
| `Preprocess.ColumnOfFullLines` | Semester_Project/src/preprocess.rs:30-34 | when every line has all readings, core `c` gets one entry per line, in order, with that line's time step and `c`-th reading |
| `Preprocess.Covering` | Semester_Project/src/preprocess.rs:30-31 | the positions of the lines that have a `c`-th reading are in range, belong to such lines and increase strictly |
| `Preprocess.CoveringComplete` | Semester_Project/src/preprocess.rs:30-31 | every line with a `c`-th reading is among those positions |
| `Preprocess.ColumnOfLines` | Semester_Project/src/preprocess.rs:30-34 | for lines of any widths, core `c` gets one entry per line that has a `c`-th reading, in line order, and entry `t` is that line's time step and `c`-th reading |
| `Preprocess.PreprocessFullLines` | Semester_Project/src/preprocess.rs:30-34 | for lines of equal width the output has `len(lines)` entries per core, with `times[i]` the time step of line `i` and `temps[i]` its `c`-th reading |
| `MinimumError.MinOf` | Machine_Assignment_4/plot_error.py:63 | `min(errors)` is an element of `errors` and no element is below it |
| `MinimumError.IndexOf` | Machine_Assignment_4/plot_error.py:63 | `errors.index(v)` is the first position holding `v` |
| `MinimumError.MinIndex` | Machine_Assignment_4/plot_error.py:63 | the looked-up position holds the minimum, and every earlier error is strictly larger |
| `MinimumError.FindMinimumError` | Machine_Assignment_4/plot_error.py:61-64 | the returned error is in `errors` and no element is below it. The pair is `(h_values[i], errors[i])` for an `i` before which every error is strictly larger |
| `MinimumError.ScanMinIndex` | Machine_Assignment_4/plot_error.py:63 | a single left-to-right scan that only moves on a strictly smaller error finds the same position as `errors.index(min(errors))` |

## Left out

- Floating point: a number is the exact ratio `num / den`. For inputs whose
  multiples by the base are not exact doubles, the source's `c == 0` test
  and `int(c)` can differ from exact arithmetic. The model states the
  mathematical expansion. A concrete consequence: the expectations
  `convert(0.1, 10) == "0.1"` (Machine_Assignment_2/test_convert.py:61) and
  `convert(1/6, 60) == "0.10"` (test_convert.py:75) rely on the rounding of
  `c = c * base` at convert.py:38. The model gives `"0.1"` and `"0.10"` for
  the ratios 1/10 and 1/6. For the doubles Python actually passes,
  3602879701896397/2^55 and 6004799503160661/2^55, the exact expansions are
  `"0.1;0;0;0;0;0;0;0..."` and `"0.9;59;59;59;59;59;59;59..."`.
- NaN and infinite inputs: they are not ratios.
- `main` of both converters is left out: argv, `float()` parsing, printing
  and the Markdown column padding are I/O. So is `Semester_Project/src/main.rs`.
- The `input` module that defines `TemperatureLine` is not part of this
  model. The line is modelled as a record of a time step and its readings.
- `Preprocess.Preprocess`: the conversion `time_step as f64` is modelled as
  an exact `as real`, without rounding for time steps beyond 2^53.
  Temperatures are `real` because they are only copied.
- `Preprocess.Preprocess`: requires that no line has more readings than the
  first. The source panics on an out-of-range index there, and a panic is
  not modelled.
- `MinimumError.FindMinimumError`: requires a non-empty `errors`, and
  `h_values` long enough to hold the minimum's position. The source raises
  on both (`min` of an empty list, an out-of-range index), and raising is
  not modelled.
- Radix: every conversion requires `base >= 2`. With base 1 the source's
  integer loop never ends, and with base 0 it divides by zero, whenever the
  integer part is nonzero. For `|x| < 1` the source returns normally with
  degenerate digits: `decimal_to_base(0.5, 1)` gives `"0.0;0;0;0;0;0;0;0..."`
  and `decimal_to_base(0.5, 0)` gives `"0.0"`. Those outputs are not modelled.
- `BinaryConvert.Convert`: inputs outside `[0, 1]` are excluded, as its
  docstring requires. `decimal_to_binary_fraction` itself requires
  `0 < x < 1`.
- `BaseConvert.DecimalToBase`: the source recurses on `-x`, and that call
  always takes the non-negative branch. The model writes that branch out
  directly. `NegationPrefixesMinus` states the recursion's result.
- The finite-difference exercises (Machine_Assignment_3 and the one in
  Machine_Assignment_4), `machine_epsilon.py`, and the plotting and data
  collection in `plot_error.py` are left out. They are floating-point
  numerics and library calls, not conversion logic.
