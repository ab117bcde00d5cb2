/** The behaviour enforceRange's test suite pins down, call by call. */
module EnforceRangeCases {
  import opened NumericString
  import opened EnforceRange

  lemma ClampsToMin()
    ensures Enforce(Num(-10.0), Num(10.0), Num(-11.0)) == Ok(Fin(-10.0))
  {
  }

  lemma ClampsToMax()
    ensures Enforce(Num(-10.0), Num(10.0), Num(11.0)) == Ok(Fin(10.0))
    ensures Enforce(Num(-1.1), Num(1.1), Num(1.2)) == Ok(Fin(1.1))
  {
  }

  lemma KeepsValueInRange()
    ensures Enforce(Num(-10.0), Num(10.0), Num(5.0)) == Ok(Fin(5.0))
  {
  }

  /** '5', '6', '7' are read as 5, 6, 7, and the result is the number 6. */
  lemma CoercesStringNumbers()
    ensures Enforce(Str("5"), Str("6"), Str("7")) == Ok(Fin(6.0))
  {
    OneDigit('5');
    OneDigit('6');
    OneDigit('7');
    AllStringsCoerced("5", "6", "7", 5.0, 6.0, 7.0);
  }

  lemma OneDigit(c: char)
    requires IsDigit(c)
    ensures StringToNumber([c]) == Some(DigitValue(c) as real)
  {
    var lit := Literal(Unsigned, [c], None);
    assert Text(lit) == [c];
    assert DigitsValue([c]) == PrefixValue([c], 0) * 10 + DigitValue(c);
    assert FractionDigits(lit) == "";
    assert Value(lit) == DigitValue(c) as real;
    StringToNumberOfText(lit);
    assert StringToNumber(Text(lit)) == Some(DigitValue(c) as real);
  }

  lemma CurriedClamps()
    ensures Curried(Num(-10.0), Num(10.0)).Ok?
    ensures Curried(Num(-10.0), Num(10.0)).value(Num(11.0)) == Ok(Fin(10.0))
  {
  }

  lemma EqualMinAndMax()
    ensures Enforce(Num(99.0), Num(99.0), Num(50.0)) == Ok(Fin(99.0))
  {
  }

  lemma UnboundedSides()
    ensures Enforce(Num(0.0), Null, Num(100.0)) == Ok(Fin(100.0))
    ensures Enforce(Num(0.0), Infinity, Num(100.0)) == Ok(Fin(100.0))
    ensures Enforce(Null, Num(0.0), Num(-100.0)) == Ok(Fin(-100.0))
    ensures Enforce(NegativeInfinity, Num(0.0), Num(-100.0)) == Ok(Fin(-100.0))
    ensures Enforce(Null, Null, Num(123.0)) == Ok(Fin(123.0))
    ensures Enforce(NegativeInfinity, Infinity, Num(123.0)) == Ok(Fin(123.0))
  {
  }

  lemma TypeErrors()
    ensures Enforce(Str("not a number"), Num(10.0), Num(0.0)) == Err(TypeError)
    ensures Enforce(NaN, Num(10.0), Num(0.0)) == Err(TypeError)
    ensures Enforce(Num(-10.0), Str("not a number"), Num(0.0)) == Err(TypeError)
    ensures Enforce(Num(-10.0), NaN, Num(0.0)) == Err(TypeError)
    ensures Enforce(Num(-10.0), Num(10.0), Null) == Err(TypeError)
    ensures Enforce(Num(-10.0), Num(10.0), NaN) == Err(TypeError)
  {
  }

  /** With no arguments at all, `min` is undefined: a TypeError, whichever call form that is read as. */
  lemma NoArguments()
    ensures Enforce(Undefined, Undefined, Undefined) == Err(TypeError)
    ensures Curried(Undefined, Undefined) == Err(TypeError)
  {
  }

  lemma RangeErrors()
    ensures Enforce(Num(10.0), Num(-10.0), Num(0.0)) == Err(RangeError)
    ensures Enforce(Infinity, Num(0.0), Num(0.0)) == Err(RangeError)
  {
  }
}
