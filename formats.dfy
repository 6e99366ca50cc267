/**
 * The two regular expressions `validateFormat` tests a cell's string form
 * against: the e-mail shape `^[^\s@]+@[^\s@]+\.[^\s@]+$` and the date shape
 * `^\d{2}\/\d{2}\/\d{4}$`. Each is a computed matcher proved equal to (or
 * inverted by) a definition that reads the pattern literally.
 */
module Formats {

  import opened Decimal
  import opened Strings

  /** A character of the regular-expression class `[^\s@]`. */
  predicate InClass(c: char) {
    !IsWhitespace(c) && c != '@'
  }

  predicate AllInClass(s: string) {
    forall k | 0 <= k < |s| :: InClass(s[k])
  }

  /** The index of the first character of `s` outside `[^\s@]`, or |s|. */
  function FirstOutsideClass(s: string): (n: nat)
    ensures n <= |s|
    ensures forall k | 0 <= k < n :: InClass(s[k])
    ensures n < |s| ==> !InClass(s[n])
  {
    if s != [] && InClass(s[0]) then 1 + FirstOutsideClass(s[1..]) else 0
  }

  /** `w` has a '.' that is neither its first nor its last character. */
  predicate HasInnerDot(w: string) {
    exists j | 1 <= j < |w| - 1 :: w[j] == '.'
  }

  /**
   * The e-mail test, computed: the first character outside `[^\s@]` is an
   * '@' that is not the first character, every character after it is in the
   * class, and a '.' stands strictly inside the text after it.
   */
  predicate MatchesEmail(s: string) {
    var at := FirstOutsideClass(s);
    0 < at < |s| && s[at] == '@' && AllInClass(s[at + 1..]) && HasInnerDot(s[at + 1..])
  }

  /** The computed test accepts exactly the texts the pattern describes. */
  lemma MatchesEmailIffShape(s: string)
    ensures MatchesEmail(s) <==> EmailShape(s)
  {
    if MatchesEmail(s) {
      EmailShapeOfMatch(s, FirstOutsideClass(s));
    }
    if EmailShape(s) {
      MatchOfEmailShape(s);
    }
  }

  /**
   * The pattern read literally: `s` is local + "@" + domain + "." + suffix
   * with `s[i]` the '@', `s[j]` the '.', and the three parts non-empty and
   * inside `[^\s@]`.
   */
  ghost predicate EmailSplit(s: string, i: int, j: int) {
    && 0 < i && i + 1 < j < |s| - 1
    && s[i] == '@' && s[j] == '.'
    && AllInClass(s[..i]) && AllInClass(s[i + 1..j]) && AllInClass(s[j + 1..])
  }

  ghost predicate EmailShape(s: string) {
    exists i, j :: EmailSplit(s, i, j)
  }

  /** A text without an '@' is never an e-mail address. */
  lemma EmailNeedsAt(s: string)
    requires forall k | 0 <= k < |s| :: s[k] != '@'
    ensures !EmailShape(s)
  {
  }

  lemma EmailShapeOfMatch(s: string, at: nat)
    requires at == FirstOutsideClass(s)
    requires 0 < at < |s| && s[at] == '@' && AllInClass(s[at + 1..]) && HasInnerDot(s[at + 1..])
    ensures EmailShape(s)
  {
    var w := s[at + 1..];
    var d :| 1 <= d < |w| - 1 && w[d] == '.';
    var j := at + 1 + d;
    assert s[at + 1..j] == w[..d];
    assert s[j + 1..] == w[d + 1..];
    assert EmailSplit(s, at, j);
  }

  lemma MatchOfEmailShape(s: string)
    requires EmailShape(s)
    ensures var at := FirstOutsideClass(s);
      0 < at < |s| && s[at] == '@' && AllInClass(s[at + 1..]) && HasInnerDot(s[at + 1..])
  {
    var i, j :| EmailSplit(s, i, j);
    AtIsFirstOutside(s, i);
    DomainOfSplit(s, i, j);
  }

  /** An '@' after a run of class characters is where `FirstOutsideClass` stops. */
  lemma AtIsFirstOutside(s: string, i: nat)
    requires i < |s| && AllInClass(s[..i]) && s[i] == '@'
    ensures FirstOutsideClass(s) == i
  {
    forall k | 0 <= k < i
      ensures InClass(s[k])
    {
      assert s[..i][k] == s[k];
    }
  }

  /** What follows the '@' of a split is in the class and has an inner '.'. */
  lemma DomainOfSplit(s: string, i: int, j: int)
    requires EmailSplit(s, i, j)
    ensures AllInClass(s[i + 1..]) && HasInnerDot(s[i + 1..])
  {
    var w := s[i + 1..];
    forall k | 0 <= k < |w| ensures InClass(w[k]) {
      if k < j - i - 1 {
        assert w[k] == s[i + 1..j][k];
      } else if k > j - i - 1 {
        assert w[k] == s[j + 1..][k - (j - i)];
      }
    }
    assert w[j - i - 1] == '.';
  }

  /** `^\d{2}\/\d{2}\/\d{4}$`: two digits, '/', two digits, '/', four digits. */
  predicate MatchesDate(s: string) {
    && |s| == 10
    && AllDigits(s[..2]) && s[2] == '/'
    && AllDigits(s[3..5]) && s[5] == '/'
    && AllDigits(s[6..])
  }

  /** The text `DD/MM/YYYY` of a day, month and year, zero-padded. */
  function DateText(day: nat, month: nat, year: nat): string
    requires day < 100 && month < 100 && year < 10000
  {
    FixedDigits(day, 2) + "/" + FixedDigits(month, 2) + "/" + FixedDigits(year, 4)
  }

  /**
   * Every day, month and year below 100, 100 and 10000 gives a matching text,
   * whether or not it is a calendar date.
   */
  lemma DateTextMatches(day: nat, month: nat, year: nat)
    requires day < 100 && month < 100 && year < 10000
    ensures MatchesDate(DateText(day, month, year))
  {
    var s := DateText(day, month, year);
    assert s[..2] == FixedDigits(day, 2);
    assert s[3..5] == FixedDigits(month, 2);
    assert s[6..] == FixedDigits(year, 4);
  }

  /** Every matching text is the text of its own three fields. */
  lemma MatchedDateFields(s: string)
    requires MatchesDate(s)
    ensures DigitsValue(s[..2]) < 100 && DigitsValue(s[3..5]) < 100 && DigitsValue(s[6..]) < 10000
    ensures s == DateText(DigitsValue(s[..2]), DigitsValue(s[3..5]), DigitsValue(s[6..]))
  {
    FixedDigitsOfValue(s[..2]);
    FixedDigitsOfValue(s[3..5]);
    FixedDigitsOfValue(s[6..]);
    assert Pow10(2) == 100 && Pow10(4) == 10000;
    assert s == s[..2] + "/" + s[3..5] + "/" + s[6..];
  }
}
