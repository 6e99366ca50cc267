/**
 * Decimal digit strings: the ASCII digits matched by `\d` in a JavaScript
 * regular expression, their numeric value, and the canonical decimal text of
 * an integer as produced by JavaScript's `toString` and template literals.
 */
module Decimal {

  predicate IsDigit(c: char) {
    '0' <= c <= '9'
  }

  predicate AllDigits(s: string) {
    forall k | 0 <= k < |s| :: IsDigit(s[k])
  }

  function DigitValue(c: char): (d: nat)
    requires IsDigit(c)
    ensures d < 10
  {
    c as int - '0' as int
  }

  function DigitChar(d: nat): (c: char)
    requires d < 10
    ensures IsDigit(c) && DigitValue(c) == d
  {
    (d + '0' as int) as char
  }

  /** The value of a digit string read most significant digit first. */
  function DigitsValue(s: string): nat
    requires AllDigits(s)
  {
    if s == [] then 0 else 10 * DigitsValue(s[..|s| - 1]) + DigitValue(s[|s| - 1])
  }

  function Pow10(n: nat): (p: nat)
    ensures p >= 1
  {
    if n == 0 then 1 else 10 * Pow10(n - 1)
  }

  /** Canonical decimal text of a natural number: no leading zero except for "0". */
  function NatToString(n: nat): (s: string)
    ensures |s| >= 1 && AllDigits(s)
    ensures DigitsValue(s) == n
    ensures s[0] == '0' ==> n == 0 && s == "0"
  {
    if n < 10 then [DigitChar(n)]
    else
      var s := NatToString(n / 10) + [DigitChar(n % 10)];
      assert s[..|s| - 1] == NatToString(n / 10);
      s
  }

  /**
   * The decimal text of an integer, with a leading '-' when it is negative,
   * and no leading zero except in "0" itself.
   */
  function IntToString(n: int): (s: string)
    ensures |s| >= 1
    ensures s[0] == '-' <==> n < 0
    ensures n >= 0 ==> AllDigits(s) && DigitsValue(s) == n
    ensures n < 0 ==> |s| >= 2 && AllDigits(s[1..]) && DigitsValue(s[1..]) == -n
    ensures n >= 0 ==> (s[0] == '0' ==> s == "0")
    ensures n < 0 ==> s[1] != '0'
  {
    if n < 0 then "-" + NatToString(-n) else NatToString(n)
  }

  /** The `width` least significant digits of `n`, zero-padded on the left. */
  function FixedDigits(n: nat, width: nat): (s: string)
    ensures |s| == width && AllDigits(s)
    ensures DigitsValue(s) == n % Pow10(width)
  {
    if width == 0 then ""
    else
      var s := FixedDigits(n / 10, width - 1) + [DigitChar(n % 10)];
      assert s[..|s| - 1] == FixedDigits(n / 10, width - 1);
      ModPow10Step(n, width);
      s
  }

  lemma ModPow10Step(n: nat, width: nat)
    requires width >= 1
    ensures n % Pow10(width) == 10 * ((n / 10) % Pow10(width - 1)) + n % 10
  {
    var p := Pow10(width - 1);
    var q := n / 10;
    var r := n % 10;
    assert n == 10 * q + r;
    var a := q / p;
    var b := q % p;
    assert q == a * p + b;
    assert n == (10 * p) * a + (10 * b + r);
    assert 10 * b + r < 10 * p;
    DivModUnique(n, 10 * p, a, 10 * b + r);
  }

  lemma DivModUnique(n: int, d: int, q: int, r: int)
    requires d > 0 && 0 <= r < d && n == d * q + r
    ensures n % d == r && n / d == q
  {
    var k := n / d - q;
    assert d * k == r - n % d;
    if k != 0 {
      MulAwayFromZero(d, k);
    }
  }

  lemma {:induction false} MulAwayFromZero(d: int, k: int)
    requires d > 0 && k != 0
    ensures k > 0 ==> d * k >= d
    ensures k < 0 ==> d * k <= -d
    decreases if k > 0 then k else -k
  {
    if k > 1 {
      MulAwayFromZero(d, k - 1);
      assert d * k == d * (k - 1) + d;
    } else if k < -1 {
      MulAwayFromZero(d, k + 1);
      assert d * k == d * (k + 1) - d;
    }
  }

  /** Reading back a zero-padded field gives the field's own text. */
  lemma {:induction false} FixedDigitsOfValue(s: string)
    requires AllDigits(s)
    ensures FixedDigits(DigitsValue(s), |s|) == s
  {
    if s != [] {
      var init := s[..|s| - 1];
      var last := DigitValue(s[|s| - 1]);
      var n := DigitsValue(s);
      assert n == 10 * DigitsValue(init) + last;
      DivModUnique(n, 10, DigitsValue(init), last);
      FixedDigitsOfValue(init);
      assert FixedDigits(n, |s|) == FixedDigits(DigitsValue(init), |init|) + [DigitChar(last)];
      assert DigitChar(last) == s[|s| - 1];
      assert s == init + [s[|s| - 1]];
    }
  }
}
