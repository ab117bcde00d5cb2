/**
 * enforceRange(min, max, value?): validate the bounds, then the value, and clamp
 * the value into the inclusive range [min, max]. A `null` bound means "no limit
 * on this side"; numeric strings are coerced; invalid arguments give a
 * TypeError and a minimum above the maximum a RangeError. Called with two
 * arguments, enforceRange validates the bounds and returns a unary function.
 */
module EnforceRange {
  import opened NumericString

  /** An argument as enforceRange tells arguments apart; `Undefined` is also a missing argument. */
  datatype Arg =
    | Undefined
    | Null
    | NaN
    | Num(x: real)          // a finite number
    | Infinity
    | NegativeInfinity
    | Str(s: string)

  /** The extended reals: what a bound, and so a clamped result, can be. */
  datatype ExtReal = NegInf | Fin(x: real) | PosInf

  predicate Le(a: ExtReal, b: ExtReal) {
    match (a, b)
    case (NegInf, _) => true
    case (_, PosInf) => true
    case (Fin(x), Fin(y)) => x <= y
    case _ => false
  }

  function Min(a: ExtReal, b: ExtReal): ExtReal {
    if Le(a, b) then a else b
  }

  function Max(a: ExtReal, b: ExtReal): ExtReal {
    if Le(a, b) then b else a
  }

  datatype Error = TypeError | RangeError

  datatype Result<+T> = Ok(value: T) | Err(error: Error)

  /** Which bound an argument is: a `null` minimum is -Infinity, a `null` maximum +Infinity. */
  datatype Side = Lower | Upper

  function Unbounded(side: Side): ExtReal {
    match side
    case Lower => NegInf
    case Upper => PosInf
  }

  /** Validates and coerces a `min` or `max` argument. */
  function CoerceBound(a: Arg, side: Side): (r: Result<ExtReal>)
    ensures r.Err? ==> r.error == TypeError
  {
    match a
    case Null => Ok(Unbounded(side))
    case Num(x) => Ok(Fin(x))
    case Infinity => Ok(PosInf)
    case NegativeInfinity => Ok(NegInf)
    case Str(s) =>
      (match StringToNumber(s)
       case Some(x) => Ok(Fin(x))
       case None => Err(TypeError))
    case _ => Err(TypeError)
  }

  /** Validates and coerces the `value` argument; unlike a bound, `null` is not accepted. */
  function CoerceValue(a: Arg): (r: Result<real>)
    ensures r.Err? ==> r.error == TypeError
  {
    match a
    case Num(x) => Ok(x)
    case Str(s) =>
      (match StringToNumber(s)
       case Some(x) => Ok(x)
       case None => Err(TypeError))
    case _ => Err(TypeError)
  }

  datatype Range = Range(min: ExtReal, max: ExtReal)

  /** A range whose bounds passed validation: the minimum is not above the maximum. */
  type ValidRange = rg: Range | Le(rg.min, rg.max) witness Range(NegInf, PosInf)

  predicate InRange(rg: Range, v: ExtReal) {
    Le(rg.min, v) && Le(v, rg.max)
  }

  /**
   * Validates `min`, then `max`, then that `min` is not above `max`. The first
   * failing step decides the error.
   */
  function MakeRange(min: Arg, max: Arg): (r: Result<ValidRange>)
    ensures r.Ok? ==> CoerceBound(min, Lower) == Ok(r.value.min) && CoerceBound(max, Upper) == Ok(r.value.max)
    ensures r == Err(RangeError) <==>
              CoerceBound(min, Lower).Ok? && CoerceBound(max, Upper).Ok? &&
              !Le(CoerceBound(min, Lower).value, CoerceBound(max, Upper).value)
    ensures r == Err(TypeError) <==> CoerceBound(min, Lower).Err? || CoerceBound(max, Upper).Err?
  {
    match CoerceBound(min, Lower)
    case Err(e) => Err(e)
    case Ok(lo) =>
      match CoerceBound(max, Upper)
      case Err(e) => Err(e)
      case Ok(hi) =>
        if Le(lo, hi) then Ok(Range(lo, hi)) else Err(RangeError)
  }

  /**
   * Clamps a number into a valid range, as min(max(x, lo), hi). The result lies
   * in the range; it is the minimum for a number below it, the maximum for a
   * number above it, the number itself otherwise, and it is infinite only for a
   * range whose two bounds are the same infinity.
   */
  function Clamp(rg: ValidRange, x: real): (r: ExtReal)
    ensures InRange(rg, r)
    ensures InRange(rg, Fin(x)) ==> r == Fin(x)
    ensures !Le(rg.min, Fin(x)) ==> r == rg.min
    ensures !Le(Fin(x), rg.max) ==> r == rg.max
    ensures !r.Fin? ==> r == rg.min == rg.max
  {
    Min(Max(Fin(x), rg.min), rg.max)
  }

  /** The function that the two-argument call returns: validate the value, then clamp it. */
  function Apply(rg: ValidRange, value: Arg): (r: Result<ExtReal>)
    ensures r.Err? <==> CoerceValue(value).Err?
    ensures r.Ok? ==> InRange(rg, r.value)
  {
    match CoerceValue(value)
    case Err(e) => Err(e)
    case Ok(x) => Ok(Clamp(rg, x))
  }

  /** enforceRange(min, max, value). */
  function Enforce(min: Arg, max: Arg, value: Arg): (r: Result<ExtReal>)
    ensures r.Ok? ==> MakeRange(min, max).Ok? && InRange(MakeRange(min, max).value, r.value)
  {
    match MakeRange(min, max)
    case Err(e) => Err(e)
    case Ok(rg) => Apply(rg, value)
  }

  /** enforceRange(min, max): the bounds are validated now, the value later. */
  function Curried(min: Arg, max: Arg): (r: Result<Arg -> Result<ExtReal>>)
    ensures r.Err? <==> MakeRange(min, max).Err?
  {
    match MakeRange(min, max)
    case Err(e) => Err(e)
    case Ok(rg) => Ok((v: Arg) => Apply(rg, v))
  }

  /** A value below the minimum gives exactly the minimum. */
  lemma BelowMinGivesMin(min: Arg, max: Arg, value: Arg, lo: real, x: real)
    requires MakeRange(min, max).Ok? && CoerceBound(min, Lower) == Ok(Fin(lo))
    requires CoerceValue(value) == Ok(x) && x < lo
    ensures Enforce(min, max, value) == Ok(Fin(lo))
  {
  }

  /** A value above the maximum gives exactly the maximum. */
  lemma AboveMaxGivesMax(min: Arg, max: Arg, value: Arg, hi: real, x: real)
    requires MakeRange(min, max).Ok? && CoerceBound(max, Upper) == Ok(Fin(hi))
    requires CoerceValue(value) == Ok(x) && hi < x
    ensures Enforce(min, max, value) == Ok(Fin(hi))
  {
  }

  /** A value within [min, max] comes back unchanged. */
  lemma WithinRangeUnchanged(min: Arg, max: Arg, value: Arg, x: real)
    requires MakeRange(min, max).Ok? && CoerceValue(value) == Ok(x)
    requires InRange(MakeRange(min, max).value, Fin(x))
    ensures Enforce(min, max, value) == Ok(Fin(x))
  {
  }

  /** Equal bounds are accepted and every valid value collapses to that bound. */
  lemma EqualBoundsCollapse(min: Arg, max: Arg, value: Arg, b: real)
    requires CoerceBound(min, Lower) == Ok(Fin(b)) && CoerceBound(max, Upper) == Ok(Fin(b))
    requires CoerceValue(value).Ok?
    ensures Enforce(min, max, value) == Ok(Fin(b))
  {
  }

  /** The curried form agrees with the three-argument form, errors included. */
  lemma CurriedAgrees(min: Arg, max: Arg, value: Arg)
    ensures Curried(min, max).Ok? ==> Curried(min, max).value(value) == Enforce(min, max, value)
    ensures Curried(min, max).Err? ==> Enforce(min, max, value) == Err(Curried(min, max).error)
  {
  }

  /** A `null` bound behaves exactly as the corresponding infinity. */
  lemma NullBoundIsInfinity(min: Arg, max: Arg, value: Arg)
    ensures Enforce(Null, max, value) == Enforce(NegativeInfinity, max, value)
    ensures Enforce(min, Null, value) == Enforce(min, Infinity, value)
  {
  }

  /** With no bound on either side every valid value is returned unchanged. */
  lemma UnboundedIsIdentity(value: Arg, x: real)
    requires CoerceValue(value) == Ok(x)
    ensures Enforce(Null, Null, value) == Ok(Fin(x))
    ensures Enforce(NegativeInfinity, Infinity, value) == Ok(Fin(x))
  {
  }

  /** A finite result is left alone when it is enforced again: clamping is idempotent. */
  lemma EnforceIdempotent(min: Arg, max: Arg, value: Arg, y: real)
    requires Enforce(min, max, value) == Ok(Fin(y))
    ensures Enforce(min, max, Num(y)) == Ok(Fin(y))
  {
  }

  /** Clamping keeps order: a smaller number never gives a larger result. */
  lemma ClampMonotone(rg: ValidRange, x: real, y: real)
    requires x <= y
    ensures Le(Clamp(rg, x), Clamp(rg, y))
  {
  }

  /** A numeric string argument behaves as the number it denotes, in each of the three positions. */
  lemma NumericStringsCoerced(t: string, v: real, min: Arg, max: Arg, value: Arg)
    requires StringToNumber(t) == Some(v)
    ensures Enforce(Str(t), max, value) == Enforce(Num(v), max, value)
    ensures Enforce(min, Str(t), value) == Enforce(min, Num(v), value)
    ensures Enforce(min, max, Str(t)) == Enforce(min, max, Num(v))
  {
  }

  /** Numeric strings in all three positions: the call is the same as with the numbers. */
  lemma AllStringsCoerced(t1: string, t2: string, t3: string, v1: real, v2: real, v3: real)
    requires StringToNumber(t1) == Some(v1) && StringToNumber(t2) == Some(v2) && StringToNumber(t3) == Some(v3)
    ensures Enforce(Str(t1), Str(t2), Str(t3)) == Enforce(Num(v1), Num(v2), Num(v3))
  {
  }

  lemma StringBound(t: string, v: real, side: Side)
    requires StringToNumber(t) == Some(v)
    ensures CoerceBound(Str(t), side) == CoerceBound(Num(v), side)
  {
  }

  /**
   * The TypeError cases: a bound that is neither null nor a number (nor a
   * numeric string), or, once the range is valid, a value that is not a number.
   */
  lemma TypeErrorIff(min: Arg, max: Arg, value: Arg)
    ensures Enforce(min, max, value) == Err(TypeError) <==>
              || CoerceBound(min, Lower).Err?
              || CoerceBound(max, Upper).Err?
              || (MakeRange(min, max).Ok? && CoerceValue(value).Err?)
  {
  }

  /** The RangeError case: both bounds are valid and min is above max, whatever the value. */
  lemma RangeErrorIff(min: Arg, max: Arg, value: Arg)
    ensures Enforce(min, max, value) == Err(RangeError) <==>
              && CoerceBound(min, Lower).Ok?
              && CoerceBound(max, Upper).Ok?
              && !Le(CoerceBound(min, Lower).value, CoerceBound(max, Upper).value)
  {
  }

  /**
   * Which arguments validation accepts, and as what. A bound is accepted unless
   * it is `undefined`, NaN or a string that is not numeric; a value only when it
   * is a finite number or a numeric string. Numbers and infinities are taken as
   * themselves, and a string that is not numeric fails in every position.
   */
  lemma AcceptedArguments(a: Arg, side: Side)
    ensures CoerceBound(a, side).Ok? <==> !a.Undefined? && !a.NaN? && (a.Str? ==> StringToNumber(a.s).Some?)
    ensures CoerceValue(a).Ok? <==> a.Num? || (a.Str? && StringToNumber(a.s).Some?)
    ensures a.Num? ==> CoerceBound(a, side) == Ok(Fin(a.x)) && CoerceValue(a) == Ok(a.x)
    ensures a == Infinity ==> CoerceBound(a, side) == Ok(PosInf)
    ensures a == NegativeInfinity ==> CoerceBound(a, side) == Ok(NegInf)
    ensures a.Str? && StringToNumber(a.s).None? ==> CoerceBound(a, side) == Err(TypeError) && CoerceValue(a) == Err(TypeError)
  {
  }

  /** `null`, NaN and `undefined` are never valid values, and NaN and `undefined` never valid bounds. */
  lemma RejectedArguments(side: Side)
    ensures CoerceValue(Null) == CoerceValue(NaN) == CoerceValue(Undefined) == Err(TypeError)
    ensures CoerceBound(NaN, side) == CoerceBound(Undefined, side) == Err(TypeError)
    ensures CoerceBound(Null, side).Ok?
  {
  }
}
