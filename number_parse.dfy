/**
 * JavaScript's `parseFloat` over decimal text: skip leading white space, read
 * the longest prefix that is a decimal literal (optional sign, digits with an
 * optional fraction, optional exponent) or `Infinity`, ignore the rest.
 * Values are exact reals: the rounding to binary floating point is not part
 * of this model.
 */
module NumberParse {

  import opened Decimal
  import opened Strings
  import opened Optional

  /** The outcome of `parseFloat`: NaN when no numeric prefix exists. */
  datatype JsNumber = NaN | Finite(value: real) | Infinity(negative: bool)

  /** The number of decimal digits `s` starts with. */
  function LeadingDigits(s: string): (n: nat)
    ensures n <= |s|
    ensures forall k | 0 <= k < n :: IsDigit(s[k])
    ensures n < |s| ==> !IsDigit(s[n])
  {
    if s != [] && IsDigit(s[0]) then 1 + LeadingDigits(s[1..]) else 0
  }

  predicate StartsWithSign(s: string) {
    |s| > 0 && (s[0] == '+' || s[0] == '-')
  }

  predicate StartsWithInfinity(s: string) {
    |s| >= 8 && s[..8] == "Infinity"
  }

  /** `m` times ten to the power `e`. */
  function Scale(m: real, e: int): real
    decreases if e >= 0 then e else -e
  {
    if e == 0 then m
    else if e > 0 then 10.0 * Scale(m, e - 1)
    else Scale(m, e + 1) / 10.0
  }

  /**
   * The exponent `s` starts with (`e` or `E`, an optional sign, at least one
   * digit), or 0 when it does not start with one.
   */
  function ExponentPart(s: string): int {
    if |s| > 0 && (s[0] == 'e' || s[0] == 'E') then
      var t := s[1..];
      var body := if StartsWithSign(t) then t[1..] else t;
      var n := LeadingDigits(body);
      assert AllDigits(body[..n]);
      var magnitude: int := DigitsValue(body[..n]);
      if n == 0 then 0 else if |t| > 0 && t[0] == '-' then -magnitude else magnitude
    else 0
  }

  /** Whether the integer digits of `body` are followed by a decimal point. */
  predicate HasPoint(body: string) {
    var whole := LeadingDigits(body);
    whole < |body| && body[whole] == '.'
  }

  /** The number of fraction digits after the point, 0 when there is no point. */
  function FractionLength(body: string): (n: nat)
    ensures HasPoint(body) ==> LeadingDigits(body) + 1 + n <= |body|
  {
    if HasPoint(body) then LeadingDigits(body[LeadingDigits(body) + 1..]) else 0
  }

  /** Where the mantissa (digits, point, fraction digits) of `body` ends. */
  function MantissaEnd(body: string): (n: nat)
    ensures n <= |body|
  {
    LeadingDigits(body) + (if HasPoint(body) then 1 + FractionLength(body) else 0)
  }

  /** The integer and fraction digits of the mantissa, without the point. */
  function MantissaDigits(body: string): (d: string)
    ensures AllDigits(d)
    ensures |d| == LeadingDigits(body) + FractionLength(body)
  {
    var whole := LeadingDigits(body);
    if HasPoint(body) then
      var fraction := body[whole + 1..whole + 1 + FractionLength(body)];
      assert fraction == body[whole + 1..][..FractionLength(body)];
      body[..whole] + fraction
    else body[..whole]
  }

  /**
   * The magnitude of the unsigned decimal literal `body` starts with (digits,
   * an optional point and fraction digits, at least one digit in all, and an
   * optional exponent), or None when it starts with none.
   */
  function ParseUnsigned(body: string): (m: Option<real>)
    ensures m.None? <==> !(|body| > 0 && IsDigit(body[0])) && !(|body| > 1 && body[0] == '.' && IsDigit(body[1]))
  {
    var digits := MantissaDigits(body);
    if digits == [] then None
    else
      var exponent := ExponentPart(body[MantissaEnd(body)..]);
      Some(Scale(DigitsValue(digits) as real, exponent - FractionLength(body)))
  }

  /** The value of the longest prefix of `t` that is a signed decimal literal or `Infinity`. */
  function ParseDecimalPrefix(t: string): (x: JsNumber)
    ensures x.NaN? <==>
      var u := if StartsWithSign(t) then t[1..] else t;
      !StartsWithInfinity(u) && ParseUnsigned(u).None?
  {
    var negative := |t| > 0 && t[0] == '-';
    var body := if StartsWithSign(t) then t[1..] else t;
    if StartsWithInfinity(body) then Infinity(negative)
    else
      match ParseUnsigned(body)
      case None => NaN
      case Some(m) => Finite(if negative then -m else m)
  }

  /**
   * JavaScript's `parseFloat(s)`. It is NaN exactly when, after the leading
   * white space and one optional sign, `s` starts neither with a digit, nor
   * with a point followed by a digit, nor with `Infinity`.
   */
  function ParseFloat(s: string): (x: JsNumber)
    ensures x.NaN? <==> !HasNumericPrefix(s)
  {
    ParseDecimalPrefix(TrimStart(s))
  }

  /** `s` starts, after white space and a sign, with something `parseFloat` can read. */
  predicate HasNumericPrefix(s: string) {
    var t := TrimStart(s);
    var u := if StartsWithSign(t) then t[1..] else t;
    || (|u| > 0 && IsDigit(u[0]))
    || (|u| > 1 && u[0] == '.' && IsDigit(u[1]))
    || StartsWithInfinity(u)
  }

  /**
   * `parseFloat` reads back the decimal text of an integer, also when other
   * text follows that cannot continue the literal (as in "42abc").
   */
  lemma ParseIntText(n: int, rest: string)
    requires rest == [] || (!IsDigit(rest[0]) && rest[0] != '.' && rest[0] != 'e' && rest[0] != 'E')
    ensures ParseFloat(IntToString(n) + rest) == Finite(n as real)
  {
    if n < 0 {
      ParseNegativeText(n, rest);
    } else {
      ParseNonNegativeText(n, rest);
    }
  }

  lemma ParseNegativeText(n: int, rest: string)
    requires n < 0
    requires rest == [] || (!IsDigit(rest[0]) && rest[0] != '.' && rest[0] != 'e' && rest[0] != 'E')
    ensures ParseFloat(IntToString(n) + rest) == Finite(n as real)
  {
    var digits := NatToString(-n);
    var s := IntToString(n) + rest;
    assert s[1..] == digits + rest;
    ParseNegatedDigits(s, digits, rest);
  }

  lemma ParseNonNegativeText(n: int, rest: string)
    requires n >= 0
    requires rest == [] || (!IsDigit(rest[0]) && rest[0] != '.' && rest[0] != 'e' && rest[0] != 'E')
    ensures ParseFloat(IntToString(n) + rest) == Finite(n as real)
  {
    ParsePlainDigits(NatToString(n), rest);
  }

  lemma ParseNegatedDigits(s: string, digits: string, rest: string)
    requires |digits| > 0 && AllDigits(digits)
    requires rest == [] || (!IsDigit(rest[0]) && rest[0] != '.' && rest[0] != 'e' && rest[0] != 'E')
    requires |s| > 0 && s[0] == '-' && s[1..] == digits + rest
    ensures ParseFloat(s) == Finite(-(DigitsValue(digits) as real))
  {
    NoLeadingSpace(s);
    ParseDigits(digits, rest);
    DigitsNotInfinity(digits, rest);
    NegatedPrefix(s, DigitsValue(digits) as real);
  }

  lemma ParsePlainDigits(digits: string, rest: string)
    requires |digits| > 0 && AllDigits(digits)
    requires rest == [] || (!IsDigit(rest[0]) && rest[0] != '.' && rest[0] != 'e' && rest[0] != 'E')
    ensures ParseFloat(digits + rest) == Finite(DigitsValue(digits) as real)
  {
    var s := digits + rest;
    assert IsDigit(s[0]);
    NoLeadingSpace(s);
    ParseDigits(digits, rest);
    DigitsNotInfinity(digits, rest);
    UnsignedPrefix(s, DigitsValue(digits) as real);
  }

  lemma NoLeadingSpace(s: string)
    requires s != [] && !IsWhitespace(s[0])
    ensures TrimStart(s) == s
  {
    assert s[0..] == s;
  }

  lemma UnsignedPrefix(t: string, m: real)
    requires !StartsWithSign(t) && !StartsWithInfinity(t) && ParseUnsigned(t) == Some(m)
    ensures ParseDecimalPrefix(t) == Finite(m)
  {
  }

  lemma NegatedPrefix(t: string, m: real)
    requires |t| > 0 && t[0] == '-' && !StartsWithInfinity(t[1..]) && ParseUnsigned(t[1..]) == Some(m)
    ensures ParseDecimalPrefix(t) == Finite(-m)
  {
  }

  /** A digit string followed by text that cannot continue a literal reads as its value. */
  lemma ParseDigits(digits: string, rest: string)
    requires |digits| > 0 && AllDigits(digits)
    requires rest == [] || (!IsDigit(rest[0]) && rest[0] != '.' && rest[0] != 'e' && rest[0] != 'E')
    ensures ParseUnsigned(digits + rest) == Some(DigitsValue(digits) as real)
  {
    DigitsMantissa(digits, rest);
    NoExponent(rest);
    WholeMantissaValue(digits + rest, digits);
  }

  lemma DigitsNotInfinity(digits: string, rest: string)
    requires |digits| > 0 && AllDigits(digits)
    ensures !StartsWithInfinity(digits + rest)
  {
    assert IsDigit((digits + rest)[0]);
  }

  lemma DigitsMantissa(digits: string, rest: string)
    requires AllDigits(digits)
    requires rest == [] || (!IsDigit(rest[0]) && rest[0] != '.')
    ensures MantissaDigits(digits + rest) == digits
    ensures FractionLength(digits + rest) == 0
    ensures (digits + rest)[MantissaEnd(digits + rest)..] == rest
  {
    var body := digits + rest;
    DigitsThenRest(digits, rest);
    assert body[..|digits|] == digits && body[|digits|..] == rest;
  }

  /** A mantissa without fraction digits or exponent reads as its digits' value. */
  lemma WholeMantissaValue(body: string, digits: string)
    requires |digits| > 0 && MantissaDigits(body) == digits
    requires FractionLength(body) == 0
    requires ExponentPart(body[MantissaEnd(body)..]) == 0
    ensures ParseUnsigned(body) == Some(DigitsValue(digits) as real)
  {
    assert Pow10(0) == 1;
  }

  lemma DigitsThenRest(digits: string, rest: string)
    requires AllDigits(digits)
    requires rest == [] || (!IsDigit(rest[0]) && rest[0] != '.')
    ensures LeadingDigits(digits + rest) == |digits|
    ensures !HasPoint(digits + rest)
  {
    var body := digits + rest;
    assert forall k | 0 <= k < |digits| :: body[k] == digits[k];
    assert rest != [] ==> body[|digits|] == rest[0];
  }

  lemma NoExponent(rest: string)
    requires rest == [] || (rest[0] != 'e' && rest[0] != 'E')
    ensures ExponentPart(rest) == 0
  {
  }

  /** Scaling up by `k` multiplies by ten to the `k`. */
  lemma {:induction false} ScaleUp(m: real, k: nat)
    ensures Scale(m, k) == m * (Pow10(k) as real)
  {
    if k > 0 {
      ScaleUp(m, k - 1);
      assert Pow10(k) as real == 10.0 * (Pow10(k - 1) as real);
    }
  }

  /** Scaling down by `k` divides by ten to the `k`. */
  lemma {:induction false} ScaleDown(m: real, k: nat)
    ensures Scale(m, -(k as int)) == m / (Pow10(k) as real)
  {
    if k > 0 {
      ScaleDown(m, k - 1);
      assert Scale(m, -(k as int)) == Scale(m, -(k as int) + 1) / 10.0;
      assert Pow10(k) as real == 10.0 * (Pow10(k - 1) as real);
    }
  }

  /** A digit string stops `LeadingDigits` exactly at its end when no digit follows it. */
  lemma LeadingDigitsOf(digits: string, rest: string)
    requires AllDigits(digits)
    requires rest == [] || !IsDigit(rest[0])
    ensures LeadingDigits(digits + rest) == |digits|
  {
    var s := digits + rest;
    assert forall k | 0 <= k < |digits| :: s[k] == digits[k];
    assert rest != [] ==> s[|digits|] == rest[0];
  }

  /**
   * The mantissa of `whole + dot + frac + tail` (`dot` the point, or empty
   * with no fraction) consists of the digits of `whole` and `frac`, and the
   * text after it is `tail`.
   */
  lemma MantissaOf(whole: string, dot: string, frac: string, tail: string)
    requires AllDigits(whole) && AllDigits(frac)
    requires dot == "." || (dot == "" && frac == "" && (tail == [] || tail[0] != '.'))
    requires tail == [] || !IsDigit(tail[0])
    ensures var body := whole + dot + frac + tail;
      && MantissaDigits(body) == whole + frac
      && FractionLength(body) == |frac|
      && body[MantissaEnd(body)..] == tail
  {
    var body := whole + dot + frac + tail;
    if dot == "" {
      assert body == whole + tail;
      DigitsMantissa(whole, tail);
    } else {
      var w := |whole|;
      assert body == whole + ("." + frac + tail);
      LeadingDigitsOf(whole, "." + frac + tail);
      assert body[w] == '.';
      assert body[w + 1..] == frac + tail;
      LeadingDigitsOf(frac, tail);
      assert body[..w] == whole;
      assert body[w + 1..w + 1 + |frac|] == frac;
      assert body[w + 1 + |frac|..] == tail;
    }
  }

  /** The exponent `e` or `E`, an optional sign and digits, read before text that is no digit. */
  lemma ExponentOf(mark: char, sign: string, exp: string, rest: string)
    requires mark == 'e' || mark == 'E'
    requires sign == "" || sign == "+" || sign == "-"
    requires |exp| > 0 && AllDigits(exp)
    requires rest == [] || !IsDigit(rest[0])
    ensures ExponentPart([mark] + (sign + (exp + rest))) == if sign == "-" then -(DigitsValue(exp) as int) else DigitsValue(exp) as int
  {
    var body := exp + rest;
    var t := sign + body;
    var s := [mark] + t;
    assert s[1..] == t;
    if sign == "" {
      assert t == body;
      assert t[0] == exp[0];
    } else {
      assert forall k | 0 <= k < |body| :: t[1..][k] == body[k];
      assert t[1..] == body;
    }
    assert s[1] == '-' <==> sign == "-";
    LeadingDigitsOf(exp, rest);
    assert body[..|exp|] == exp;
    ExponentFromParts(s, body, |exp|);
  }

  /** The exponent of `s`, given the digits after its `e` or `E` and optional sign. */
  lemma ExponentFromParts(s: string, body: string, n: nat)
    requires |s| > 1 && (s[0] == 'e' || s[0] == 'E')
    requires (if StartsWithSign(s[1..]) then s[2..] else s[1..]) == body
    requires 0 < n <= |body| && LeadingDigits(body) == n
    ensures AllDigits(body[..n])
    ensures ExponentPart(s) == if s[1] == '-' then -(DigitsValue(body[..n]) as int) else DigitsValue(body[..n]) as int
  {
    assert s[1..][1..] == s[2..];
  }

  /** An unsigned literal's value from its mantissa digits, fraction length and exponent. */
  lemma UnsignedOfParts(body: string, digits: string, tail: string)
    requires |digits| > 0 && MantissaDigits(body) == digits
    requires body[MantissaEnd(body)..] == tail
    ensures ParseUnsigned(body) == Some(Scale(DigitsValue(digits) as real, ExponentPart(tail) - FractionLength(body)))
  {
    UnsignedDefinition(body);
  }

  lemma UnsignedDefinition(body: string)
    requires MantissaDigits(body) != []
    ensures ParseUnsigned(body) ==
            Some(Scale(DigitsValue(MantissaDigits(body)) as real, ExponentPart(body[MantissaEnd(body)..]) - FractionLength(body)))
  {
  }

  /** A text starting with a digit or a point reads as what its unsigned literal gives. */
  lemma UnsignedLiteral(s: string, m: real)
    requires |s| > 0 && (IsDigit(s[0]) || s[0] == '.')
    requires ParseUnsigned(s) == Some(m)
    ensures ParseFloat(s) == Finite(m)
  {
    ReadsUnsigned(s);
  }

  /**
   * `parseFloat` of a decimal fraction `whole.frac` (either part may be
   * empty, not both) followed by text that cannot continue the literal is
   * the digits' value divided by ten to the number of fraction digits.
   */
  lemma ParseFractionText(whole: string, frac: string, rest: string)
    requires AllDigits(whole) && AllDigits(frac) && |whole| + |frac| > 0
    requires rest == [] || (!IsDigit(rest[0]) && rest[0] != 'e' && rest[0] != 'E')
    ensures ParseFloat(whole + "." + frac + rest) == Finite(DigitsValue(whole + frac) as real / (Pow10(|frac|) as real))
  {
    var body := whole + "." + frac + rest;
    MantissaOf(whole, ".", frac, rest);
    NoExponent(rest);
    var m := DigitsValue(whole + frac) as real;
    ScaleDown(m, |frac|);
    UnsignedOfParts(body, whole + frac, rest);
    assert whole != [] ==> body[0] == whole[0];
    assert whole == [] ==> body[0] == '.';
    UnsignedLiteral(body, m / (Pow10(|frac|) as real));
  }

  /**
   * `parseFloat` of a literal with an exponent, `whole[.frac]e[sign]exp`
   * (or with `E`),
   * followed by text that is no digit: the mantissa digits' value times ten
   * to the exponent, divided by ten for each fraction digit (`ScaleUp` and
   * `ScaleDown` give the scaling as a multiplication or a division).
   */
  lemma ParseExponentText(s: string, whole: string, dot: string, frac: string, mark: char, sign: string, exp: string, rest: string)
    requires AllDigits(whole) && AllDigits(frac) && |whole| + |frac| > 0
    requires dot == "." || (dot == "" && frac == "")
    requires mark == 'e' || mark == 'E'
    requires sign == "" || sign == "+" || sign == "-"
    requires |exp| > 0 && AllDigits(exp)
    requires rest == [] || !IsDigit(rest[0])
    requires s == whole + dot + frac + ([mark] + (sign + (exp + rest)))
    ensures ParseFloat(s) ==
            Finite(Scale(DigitsValue(whole + frac) as real,
                         if sign == "-" then -(DigitsValue(exp) as int) else DigitsValue(exp) as int)
                   / (Pow10(|frac|) as real))
  {
    var exponent := if sign == "-" then -(DigitsValue(exp) as int) else DigitsValue(exp) as int;
    var tail := [mark] + (sign + (exp + rest));
    ExponentOf(mark, sign, exp, rest);
    ParseWithTail(s, whole, dot, frac, tail, exponent);
  }

  /** A mantissa followed by a tail starting with `e` or `E` whose exponent is `exponent`. */
  lemma ParseWithTail(s: string, whole: string, dot: string, frac: string, tail: string, exponent: int)
    requires AllDigits(whole) && AllDigits(frac) && |whole| + |frac| > 0
    requires dot == "." || (dot == "" && frac == "")
    requires |tail| > 0 && (tail[0] == 'e' || tail[0] == 'E') && ExponentPart(tail) == exponent
    requires s == whole + dot + frac + tail
    ensures ParseFloat(s) == Finite(Scale(DigitsValue(whole + frac) as real, exponent) / (Pow10(|frac|) as real))
  {
    MantissaOf(whole, dot, frac, tail);
    assert whole != [] ==> s[0] == whole[0];
    assert whole == [] ==> s[0] == '.';
    LiteralValue(s, whole + frac, tail, exponent, |frac|);
  }

  /** A literal's value from its mantissa digits, its fraction length and its exponent. */
  lemma LiteralValue(body: string, digits: string, tail: string, exponent: int, fractionLength: nat)
    requires |body| > 0 && (IsDigit(body[0]) || body[0] == '.')
    requires |digits| > 0 && MantissaDigits(body) == digits && FractionLength(body) == fractionLength
    requires body[MantissaEnd(body)..] == tail && ExponentPart(tail) == exponent
    ensures ParseFloat(body) == Finite(Scale(DigitsValue(digits) as real, exponent) / (Pow10(fractionLength) as real))
  {
    LiteralScaled(body, digits, tail, exponent, fractionLength);
    ScaleShift(DigitsValue(digits) as real, exponent, fractionLength);
  }

  lemma LiteralScaled(body: string, digits: string, tail: string, exponent: int, fractionLength: nat)
    requires |body| > 0 && (IsDigit(body[0]) || body[0] == '.')
    requires |digits| > 0 && MantissaDigits(body) == digits && FractionLength(body) == fractionLength
    requires body[MantissaEnd(body)..] == tail && ExponentPart(tail) == exponent
    ensures ParseFloat(body) == Finite(Scale(DigitsValue(digits) as real, exponent - fractionLength))
  {
    UnsignedOfParts(body, digits, tail);
    UnsignedLiteral(body, Scale(DigitsValue(digits) as real, exponent - fractionLength));
  }

  /** Scaling down by one place is a division by ten, for every exponent. */
  lemma ScaleLower(m: real, e: int)
    ensures Scale(m, e - 1) == Scale(m, e) / 10.0
  {
  }

  /** Lowering the exponent by `k` divides by ten to the `k`. */
  lemma {:induction false} ScaleShift(m: real, e: int, k: nat)
    ensures Scale(m, e - k) == Scale(m, e) / (Pow10(k) as real)
  {
    if k > 0 {
      ScaleShift(m, e, k - 1);
      ScaleLower(m, e - (k - 1));
      var p := Pow10(k - 1) as real;
      assert Pow10(k) as real == 10.0 * p;
      DivideTwice(Scale(m, e), p);
    }
  }

  lemma DivideTwice(x: real, p: real)
    requires p > 0.0
    ensures (x / p) / 10.0 == x / (10.0 * p)
  {
    var q := x / p;
    assert q * p == x;
    assert (q / 10.0) * (10.0 * p) == x;
  }

  /** Leading white space does not change what `parseFloat` reads. */
  lemma ParseSkipsSpace(space: string, t: string)
    requires AllWhitespace(space)
    ensures ParseFloat(space + t) == ParseFloat(t)
  {
    TrimStartAfter(space, t);
  }

  lemma TrimStartAfter(space: string, t: string)
    requires AllWhitespace(space)
    ensures TrimStart(space + t) == TrimStart(t)
  {
    LeadingSpaceAfter(space, t);
    assert (space + t)[|space| + LeadingSpace(t)..] == t[LeadingSpace(t)..];
  }

  lemma {:induction false} LeadingSpaceAfter(space: string, t: string)
    requires AllWhitespace(space)
    ensures LeadingSpace(space + t) == |space| + LeadingSpace(t)
  {
    if space != [] {
      assert (space + t)[0] == space[0];
      assert (space + t)[1..] == space[1..] + t;
      LeadingSpaceAfter(space[1..], t);
    } else {
      assert space + t == t;
    }
  }

  /** Text starting with a digit or a point reads as its unsigned literal. */
  lemma ReadsUnsigned(t: string)
    requires |t| > 0 && (IsDigit(t[0]) || t[0] == '.')
    ensures ParseFloat(t) == if ParseUnsigned(t).None? then NaN else Finite(ParseUnsigned(t).value)
  {
    NoLeadingSpace(t);
    NotInfinity(t);
  }

  /**
   * The same text after a '-' reads as the negated unsigned literal: NaN
   * stays NaN and a finite value is negated.
   */
  lemma ReadsNegated(t: string)
    requires |t| > 0 && (IsDigit(t[0]) || t[0] == '.')
    ensures ParseFloat("-" + t) == if ParseUnsigned(t).None? then NaN else Finite(-ParseUnsigned(t).value)
  {
    var s := "-" + t;
    NoLeadingSpace(s);
    assert s[1..] == t;
    NotInfinity(t);
  }

  /** A '+' before the same text changes nothing. */
  lemma ReadsPlus(t: string)
    requires |t| > 0 && (IsDigit(t[0]) || t[0] == '.')
    ensures ParseFloat("+" + t) == ParseFloat(t)
  {
    NoLeadingSpace("+" + t);
    NoLeadingSpace(t);
    assert ("+" + t)[1..] == t;
    NotInfinity(t);
  }

  lemma NotInfinity(t: string)
    requires |t| > 0 && (IsDigit(t[0]) || t[0] == '.')
    ensures !StartsWithInfinity(t)
  {
    if |t| >= 8 {
      assert t[..8][0] == t[0];
    }
  }

}
