# enforce-range in Dafny

`enforceRange(min, max, value)` clamps a number into the inclusive range
`[min, max]`. A `null` bound means "no limit on this side" (`-Infinity` for
`min`, `+Infinity` for `max`), and `±Infinity` bounds are accepted too. Numeric
strings such as `'5'` are read as numbers. The arguments are checked in order:
`min` first, then `max`, then `min <= max`, then `value`. A bound that is
neither `null` nor a number, nor a numeric string, gives a `TypeError`. So
does a NaN bound, or a value that is not a number (`null` and NaN included). A minimum above the
maximum gives a `RangeError`. Called as `enforceRange(min, max)` with no
value, it checks the bounds and returns a unary function that takes the value
later.

The project has three modules:

- `NumericString` (`numeric_string.dfy`) turns a string into a number or
  rejects it. A string is accepted when it is a plain decimal literal: an
  optional sign, integer digits, and an optional `.` with fraction digits, with
  at least one digit in all. A `Literal` datatype holds the parts, `Text`
  writes one out and `Value` gives the number it denotes. The parser is proved
  to be the exact inverse of `Text` on well-formed literals.
- `EnforceRange` (`enforce_range.dfy`) holds the model itself. `Arg` is an
  argument as the function tells arguments apart: `undefined`, `null`, NaN, a
  finite number, `±Infinity` or a string. `ExtReal` is a bound or a result.
  `CoerceBound` and `CoerceValue` validate single arguments. `MakeRange`
  validates the two bounds into a `ValidRange`, whose minimum is not above its
  maximum. `Clamp` clamps a number into such a range. `Enforce` is the
  three-argument call and `Curried` the two-argument one. Errors are returned
  as `Err(TypeError)` or `Err(RangeError)` values, not thrown.
- `EnforceRangeCases` (`enforce_range_cases.dfy`) states each call in the
  repository's test suite as a lemma about the model.

The result is an `ExtReal`, not a finite number. The range `[Infinity,
Infinity]` passes validation (`min <= max`), and every value clamps to
`Infinity` in it.

## Model

| member | source | states |
|---|---|---|
| NumericString.Text | test.js:23-25 | the printer of a decimal literal: sign, integer digits, then '.' and fraction digits when present; its inverse is `ParseLiteral` (`ParseText`, `ParseSound`) |
| NumericString.Value | test.js:23-25 | the decimal meaning of a literal: integer digits plus fraction digits, negated under '-'; it is the number each accepted string coerces to (`StringToNumberOfText`, `StringToNumberSound`), and its integer digits are the whole part of its magnitude (`ValueWholePart`) |
| NumericString.ValueWholePart | test.js:23-25 | the integer digits of a literal are the whole part of its value's magnitude: the value lies within one of them, on the side its sign says |
| NumericString.ParseLiteral | test.js:23-25 | accepts exactly the texts of well-formed literals and gives back the literal written (`ParseSound` one way, `ParseText` the other) |
| NumericString.StringToNumber | test.js:23-25 | accepts exactly the texts of well-formed literals and gives their `Value`; every other string is rejected (`StringToNumberOfText`, `StringToNumberSound`) |
| NumericString.FractionFrom | test.js:23-25 | the digits after a '.' denote a number in [0, 1), however many there are |
| NumericString.DigitRun | test.js:23-25 | the scanner stops at the first non-digit: everything it skips is a digit, and the character it stops at is not |
| NumericString.SplitSign | test.js:23-25 | splitting off a leading sign loses nothing: sign text followed by the rest is the input; that a leading sign is in fact split off is `SplitSignOfText` |
| NumericString.SplitSignOfText | test.js:23-25 | a sign written in front of a body that does not itself start with a sign is split off again, and the body is left |
| NumericString.ParseSound | test.js:23-25 | every string the parser accepts is a well-formed literal (digits only, at least one digit), and that literal's text is the string |
| NumericString.ParseText | test.js:23-25 | parsing the text of any well-formed literal gives that literal back (the round trip) |
| NumericString.StringToNumberOfText | test.js:23-25 | every well-formed decimal string coerces to the number its literal denotes |
| NumericString.StringToNumberSound | test.js:23-25 | every string that coerces to a number is the text of a well-formed literal denoting that number |
| EnforceRange.CoerceBound | test.js:35-70 | a bound that fails validation fails with a TypeError and nothing else; which bounds are accepted, and as what, is `AcceptedArguments` |
| EnforceRange.CoerceValue | test.js:72-78 | a value that fails validation fails with a TypeError and nothing else; which values are accepted, and as what, is `AcceptedArguments` |
| EnforceRange.MakeRange | test.js:56-87 | a range is built exactly when both bounds are valid and min <= max, from the coerced bounds; RangeError exactly when both bounds are valid and min > max; TypeError exactly when a bound is invalid |
| EnforceRange.Clamp | test.js:7-21 | the result lies in the range; it is the number itself when in range, min when below, max when above, and infinite only when both bounds are that same infinity |
| EnforceRange.Apply | test.js:27-29 | the curried function fails exactly when the value is invalid, and otherwise returns a result inside the range; the exact clamped result is `Clamp`'s contract, carried to the call by `CurriedAgrees` and the `Enforce` lemmas (`BelowMinGivesMin`, `AboveMaxGivesMax`, `WithinRangeUnchanged`) |
| EnforceRange.Enforce | test.js:7-87 | a successful call had valid bounds and returns a result inside them |
| EnforceRange.Curried | test.js:27-29 | the two-argument call fails exactly when the bounds are invalid |
| EnforceRange.BelowMinGivesMin | test.js:7-9 | a valid value below a finite min gives exactly min |
| EnforceRange.AboveMaxGivesMax | test.js:11-21 | a valid value above a finite max gives exactly max |
| EnforceRange.WithinRangeUnchanged | test.js:15-17 | a valid value within [min, max] is returned unchanged |
| EnforceRange.EqualBoundsCollapse | test.js:31-33 | equal bounds are accepted, and every valid value gives that bound |
| EnforceRange.CurriedAgrees | test.js:27-29 | enforceRange(min, max)(value) equals enforceRange(min, max, value) for all arguments, and a curried call that fails has the error the three-argument call has |
| EnforceRange.NullBoundIsInfinity | test.js:35-49 | a null min behaves as -Infinity and a null max as +Infinity, for all other arguments |
| EnforceRange.UnboundedIsIdentity | test.js:51-54 | with null/null or -Infinity/Infinity bounds every valid value is returned unchanged |
| EnforceRange.EnforceIdempotent | test.js:7-21 | enforcing the same range on a finite result gives that result again |
| EnforceRange.ClampMonotone | test.js:7-21 | clamping keeps order: x <= y implies clamp(x) <= clamp(y) |
| EnforceRange.StringBound | test.js:23-25 | a numeric string bound is validated exactly as the number it denotes, on either side |
| EnforceRange.NumericStringsCoerced | test.js:23-25 | a numeric string in the min, max or value position gives the same outcome as the number it denotes |
| EnforceRange.AllStringsCoerced | test.js:23-25 | numeric strings in all three positions give the same outcome as the three numbers |
| EnforceRange.TypeErrorIff | test.js:56-82 | the call gives a TypeError exactly when min is invalid, or max is invalid, or the bounds form a range and the value is invalid |
| EnforceRange.RangeErrorIff | test.js:84-87 | the call gives a RangeError exactly when both bounds are valid and min > max, whatever the value |
| EnforceRange.AcceptedArguments | test.js:7-78 | a bound is accepted exactly when it is not undefined, not NaN and not a non-numeric string; a value exactly when it is a finite number or a numeric string; finite numbers are taken as themselves and ±Infinity bounds as the infinities; every string that does not coerce gives a TypeError in every position |
| EnforceRange.RejectedArguments | test.js:56-78 | null, NaN and undefined are never valid values; NaN and undefined are never valid bounds; null always is |
| EnforceRangeCases.ClampsToMin | test.js:7-9 | enforceRange(-10, 10, -11) is -10 |
| EnforceRangeCases.ClampsToMax | test.js:11-21 | enforceRange(-10, 10, 11) is 10 and enforceRange(-1.1, 1.1, 1.2) is 1.1 |
| EnforceRangeCases.KeepsValueInRange | test.js:15-17 | enforceRange(-10, 10, 5) is 5 |
| EnforceRangeCases.OneDigit | test.js:23-25 | a one-digit string coerces to that digit's value |
| EnforceRangeCases.CoercesStringNumbers | test.js:23-25 | enforceRange('5', '6', '7') is 6 |
| EnforceRangeCases.CurriedClamps | test.js:27-29 | enforceRange(-10, 10) succeeds and its result applied to 11 is 10 |
| EnforceRangeCases.EqualMinAndMax | test.js:31-33 | enforceRange(99, 99, 50) is 99 |
| EnforceRangeCases.UnboundedSides | test.js:35-54 | the six calls with null or infinite bounds return their value |
| EnforceRangeCases.TypeErrors | test.js:56-78 | the six calls with a non-numeric string or NaN bound, or a null or NaN value, give a TypeError |
| EnforceRangeCases.NoArguments | test.js:80-82 | enforceRange() gives a TypeError, whether it is read as the three- or the two-argument form |
| EnforceRangeCases.RangeErrors | test.js:84-87 | enforceRange(10, -10, 0) and enforceRange(Infinity, 0, 0) give a RangeError |

## Left out

- The module test.js:4 loads with `require('.')` is not part of this model. The
  behaviour modelled is the contract its test suite pins down.
- The test harness (mocha, `assert`, `require`) is not modelled.
- Numbers are exact reals, not IEEE-754 doubles: no rounding, no `-0`, no
  overflow to Infinity when a long digit string is read.
- Only plain decimal literals are read as numbers. The rest of ECMAScript's
  string-to-number grammar is rejected with a TypeError: surrounding
  whitespace, hexadecimal, octal and binary prefixes, exponents, the string
  `"Infinity"`, and the empty or blank string (which JavaScript reads as 0).
- NumericString.StringToNumberOfText: is stated for this decimal subset only,
  not for every string JavaScript's `Number()` accepts.
- An infinite value (`Infinity`, `-Infinity`) gives a TypeError, because a
  value must be a finite number. The test suite does not pin this case down.
- An explicit `undefined` value in the three-argument form gives a TypeError.
  The two-argument form, where the value is left out, is `Curried`.
- Arguments of other JavaScript types (booleans, objects, arrays, BigInt) are
  not among the `Arg` cases.
- Error messages and the identity of error objects are not modelled. Only the
  kind of error, TypeError or RangeError, is.
- EnforceRange.Curried: validates the bounds when the two-argument call is
  made, so its errors appear there, and a later value only ever meets a valid
  range.
