/**
 * JavaScript's notion of white space (the characters `String.prototype.trim`
 * strips, `parseFloat` skips and the regular-expression class `\s` matches),
 * trimming, and substring containment.
 */
module Strings {

  /**
   * The WhiteSpace and LineTerminator code points of ECMAScript: tab, line
   * feed, vertical tab, form feed, carriage return, space, U+00A0, U+1680,
   * U+2000 to U+200A, U+2028, U+2029, U+202F, U+205F, U+3000 and U+FEFF.
   */
  predicate IsWhitespace(c: char) {
    || '\t' <= c <= '\r'
    || c == ' ' || c == '\U{00A0}' || c == '\U{1680}'
    || '\U{2000}' <= c <= '\U{200A}'
    || c == '\U{2028}' || c == '\U{2029}' || c == '\U{202F}' || c == '\U{205F}'
    || c == '\U{3000}' || c == '\U{FEFF}'
  }

  predicate AllWhitespace(s: string) {
    forall k | 0 <= k < |s| :: IsWhitespace(s[k])
  }

  /** The index of the first character of `s` that is not white space, or |s|. */
  function LeadingSpace(s: string): (n: nat)
    ensures n <= |s|
    ensures forall k | 0 <= k < n :: IsWhitespace(s[k])
    ensures n < |s| ==> !IsWhitespace(s[n])
  {
    if s != [] && IsWhitespace(s[0]) then 1 + LeadingSpace(s[1..]) else 0
  }

  /** The index just past the last character of `s` that is not white space, or 0. */
  function TrailingSpaceStart(s: string): (n: nat)
    ensures n <= |s|
    ensures forall k | n <= k < |s| :: IsWhitespace(s[k])
    ensures n > 0 ==> !IsWhitespace(s[n - 1])
  {
    if s != [] && IsWhitespace(s[|s| - 1]) then TrailingSpaceStart(s[..|s| - 1]) else |s|
  }

  /** `s` with its leading white space removed (where `parseFloat` starts reading). */
  function TrimStart(s: string): (r: string)
    ensures r == [] <==> AllWhitespace(s)
    ensures r != [] ==> !IsWhitespace(r[0])
  {
    s[LeadingSpace(s)..]
  }

  /**
   * JavaScript's `String.prototype.trim`: the text between the outer white
   * space, which is all that is removed on either side.
   */
  function Trim(s: string): (r: string)
    ensures r == [] <==> AllWhitespace(s)
    ensures r != [] ==> !IsWhitespace(r[0]) && !IsWhitespace(r[|r| - 1])
    ensures exists k :: OccursAt(s, r, k) && AllWhitespace(s[..k]) && AllWhitespace(s[k + |r|..])
  {
    var first := LeadingSpace(s);
    if first == |s| then
      assert OccursAt(s, [], 0) && AllWhitespace(s[..0]) && AllWhitespace(s[0..]);
      ""
    else
      var last := TrailingSpaceStart(s);
      assert first < last;
      var r := s[first..last];
      assert OccursAt(s, r, first) && AllWhitespace(s[..first]) && AllWhitespace(s[first + |r|..]);
      r
  }

  /** `part` occurs as a contiguous piece of `text`. */
  predicate Contains(text: string, part: string) {
    exists k | 0 <= k <= |text| - |part| :: OccursAt(text, part, k)
  }

  predicate OccursAt(text: string, part: string, k: int) {
    0 <= k <= |text| - |part| && text[k..k + |part|] == part
  }

  lemma ContainsMiddle(before: string, part: string, after: string)
    ensures Contains(before + part + after, part)
  {
    var text := before + part + after;
    assert OccursAt(text, part, |before|);
  }

  lemma ContainsEnd(before: string, part: string)
    ensures Contains(before + part, part)
  {
    assert OccursAt(before + part, part, |before|);
  }
}
