/**
 * Coercion of a numeric string to a number, as enforceRange applies it to its
 * `min`, `max` and `value` arguments: a plain decimal literal (an optional sign,
 * integer digits, an optional '.' and fraction digits, at least one digit in
 * all) is read as the number it denotes, and every other string is rejected.
 */
module NumericString {

  datatype Option<+T> = None | Some(value: T)

  datatype Sign = Unsigned | Plus | Minus

  /** The parts of a decimal literal; `fraction` is present exactly when the text has a '.'. */
  datatype Literal = Literal(sign: Sign, whole: string, fraction: Option<string>)

  predicate IsDigit(c: char) {
    '0' <= c <= '9'
  }

  predicate AllDigits(s: string) {
    forall i :: 0 <= i < |s| ==> IsDigit(s[i])
  }

  function FractionDigits(lit: Literal): string {
    match lit.fraction
    case None => ""
    case Some(f) => f
  }

  /** Only digits in both parts, and at least one digit overall ("." and "-" are not numbers). */
  predicate WellFormed(lit: Literal) {
    && AllDigits(lit.whole)
    && AllDigits(FractionDigits(lit))
    && |lit.whole| + |FractionDigits(lit)| > 0
  }

  function SignText(sign: Sign): string {
    match sign
    case Unsigned => ""
    case Plus => "+"
    case Minus => "-"
  }

  function FractionText(fraction: Option<string>): string {
    match fraction
    case None => ""
    case Some(f) => "." + f
  }

  /** The text a literal is written as. */
  function Text(lit: Literal): string {
    SignText(lit.sign) + (lit.whole + FractionText(lit.fraction))
  }

  function DigitValue(c: char): (d: nat)
    requires IsDigit(c)
    ensures d <= 9
  {
    c as int - '0' as int
  }

  /** The natural number the first `n` digits of `s` denote, most significant digit first. */
  function PrefixValue(s: string, n: nat): nat
    requires n <= |s| && AllDigits(s)
  {
    if n == 0 then 0 else PrefixValue(s, n - 1) * 10 + DigitValue(s[n - 1])
  }

  function DigitsValue(s: string): nat
    requires AllDigits(s)
  {
    PrefixValue(s, |s|)
  }

  /**
   * The number that the digits of `s` from position `i` on denote when they are
   * written after a '.': 0.d1d2d3... is (d1 + 0.d2d3...) / 10. However many
   * digits there are, it is below one.
   */
  function FractionFrom(s: string, i: nat): (f: real)
    requires i <= |s| && AllDigits(s)
    ensures 0.0 <= f < 1.0
    decreases |s| - i
  {
    if i == |s| then 0.0 else (DigitValue(s[i]) as real + FractionFrom(s, i + 1)) / 10.0
  }

  /** The number a literal denotes: integer digits plus fraction digits, negated under '-'. */
  function Value(lit: Literal): real
    requires WellFormed(lit)
  {
    var magnitude := DigitsValue(lit.whole) as real + FractionFrom(FractionDigits(lit), 0);
    if lit.sign == Minus then -magnitude else magnitude
  }

  /** The integer digits of a literal are the whole part of the magnitude of its value. */
  lemma ValueWholePart(lit: Literal)
    requires WellFormed(lit)
    ensures lit.sign != Minus ==> DigitsValue(lit.whole) as real <= Value(lit) < DigitsValue(lit.whole) as real + 1.0
    ensures lit.sign == Minus ==> -(DigitsValue(lit.whole) as real + 1.0) < Value(lit) <= -(DigitsValue(lit.whole) as real)
  {
  }

  /** The end of the run of digits in `s` that starts at position `i`. */
  function DigitRun(s: string, i: nat): (k: nat)
    requires i <= |s|
    ensures i <= k <= |s|
    ensures forall j :: i <= j < k ==> IsDigit(s[j])
    ensures k < |s| ==> !IsDigit(s[k])
    decreases |s| - i
  {
    if i == |s| || !IsDigit(s[i]) then i else DigitRun(s, i + 1)
  }

  function SplitSign(s: string): (r: (Sign, string))
    ensures s == SignText(r.0) + r.1
  {
    if |s| > 0 && s[0] == '+' then (Plus, s[1..])
    else if |s| > 0 && s[0] == '-' then (Minus, s[1..])
    else (Unsigned, s)
  }

  /**
   * Reads `s` as a decimal literal: an optional sign, the run of integer digits,
   * then either the end or a '.' followed by nothing but digits, with at least
   * one digit in all. Anything else is rejected.
   */
  function ParseLiteral(s: string): Option<Literal> {
    var (sign, body) := SplitSign(s);
    var k := DigitRun(body, 0);
    if k == |body| then
      if k > 0 then Some(Literal(sign, body, None)) else None
    else if body[k] == '.' && AllDigits(body[k + 1..]) && |body| > 1 then
      Some(Literal(sign, body[..k], Some(body[k + 1..])))
    else
      None
  }

  /** String-to-number coercion of a numeric string; None stands for the NaN that every other string gives. */
  function StringToNumber(s: string): Option<real> {
    match ParseLiteral(s)
    case None => None
    case Some(lit) => Some(Value(lit))
  }

  /** What the parser accepts is the text of a well-formed literal, and it gives that literal. */
  lemma ParseSound(s: string)
    requires ParseLiteral(s).Some?
    ensures WellFormed(ParseLiteral(s).value) && Text(ParseLiteral(s).value) == s
  {
    var (sign, body) := SplitSign(s);
    var k := DigitRun(body, 0);
    var lit := ParseLiteral(s).value;
    if k == |body| {
      assert lit == Literal(sign, body, None);
      assert Text(lit) == SignText(sign) + body;
    } else {
      var whole, fraction := body[..k], body[k + 1..];
      assert lit == Literal(sign, whole, Some(fraction));
      assert AllDigits(whole) by {
        forall i | 0 <= i < |whole| ensures IsDigit(whole[i]) {
          assert whole[i] == body[i];
        }
      }
      assert body == whole + ("." + fraction);
    }
  }

  /** The digit run of digits followed by a non-digit (or nothing) is exactly the digits. */
  lemma DigitRunOfDigits(digits: string, tail: string)
    requires AllDigits(digits)
    requires tail == [] || !IsDigit(tail[0])
    ensures DigitRun(digits + tail, 0) == |digits|
  {
    var s := digits + tail;
    assert forall i :: 0 <= i < |digits| ==> s[i] == digits[i];
    assert |digits| < |s| ==> s[|digits|] == tail[0];
  }

  /** A sign written in front of a body that does not itself start with a sign is split off again. */
  lemma SplitSignOfText(sign: Sign, body: string)
    requires |body| > 0 && body[0] != '+' && body[0] != '-'
    ensures SplitSign(SignText(sign) + body) == (sign, body)
  {
    var t := SignText(sign) + body;
    if sign == Unsigned {
      assert t == body;
    } else {
      assert t[1..] == body;
    }
  }

  /** Parsing the text of a well-formed literal gives that literal back. */
  lemma {:induction false} ParseText(lit: Literal)
    requires WellFormed(lit)
    ensures ParseLiteral(Text(lit)) == Some(lit)
  {
    var whole, tail := lit.whole, FractionText(lit.fraction);
    var body := whole + tail;
    assert Text(lit) == SignText(lit.sign) + body;
    assert tail == [] || tail[0] == '.';
    assert |body| > 0 && body[0] != '+' && body[0] != '-' by {
      if |whole| > 0 {
        assert body[0] == whole[0];
      } else {
        assert body == tail;
      }
    }
    SplitSignOfText(lit.sign, body);
    DigitRunOfDigits(whole, tail);
    match lit.fraction
    case None =>
      assert body == whole;
    case Some(f) =>
      assert body[|whole|] == '.';
      assert body[..|whole|] == whole && body[|whole| + 1..] == f;
  }

  /** The text of every well-formed literal coerces to that literal's value. */
  lemma StringToNumberOfText(lit: Literal)
    requires WellFormed(lit)
    ensures StringToNumber(Text(lit)) == Some(Value(lit))
  {
    ParseText(lit);
  }

  /** Every string that coerces to a number is the text of a well-formed literal with that value. */
  lemma StringToNumberSound(s: string, v: real)
    requires StringToNumber(s) == Some(v)
    ensures exists lit :: WellFormed(lit) && Text(lit) == s && Value(lit) == v
  {
    ParseSound(s);
    var lit := ParseLiteral(s).value;
    assert WellFormed(lit) && Text(lit) == s && Value(lit) == v;
  }
}
