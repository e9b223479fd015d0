/** ASCII character classes and case mapping (String.prototype.toUpperCase / toLowerCase on ASCII). */
module Text {

  predicate IsAsciiUpper(c: char) { 'A' <= c <= 'Z' }

  predicate IsAsciiLower(c: char) { 'a' <= c <= 'z' }

  predicate IsAsciiLetter(c: char) { IsAsciiUpper(c) || IsAsciiLower(c) }

  function UpperChar(c: char): (u: char)
    ensures IsAsciiLetter(c) ==> IsAsciiUpper(u)
    ensures !IsAsciiLetter(c) ==> u == c
    ensures IsAsciiLetter(u) == IsAsciiLetter(c)
  {
    if IsAsciiLower(c) then (c as int - 32) as char else c
  }

  function LowerChar(c: char): (l: char)
    ensures IsAsciiLetter(c) ==> IsAsciiLower(l)
    ensures !IsAsciiLetter(c) ==> l == c
    ensures IsAsciiLetter(l) == IsAsciiLetter(c)
  {
    if IsAsciiUpper(c) then (c as int + 32) as char else c
  }

  function Upper(s: string): string {
    seq(|s|, k requires 0 <= k < |s| => UpperChar(s[k]))
  }

  function Lower(s: string): string {
    seq(|s|, k requires 0 <= k < |s| => LowerChar(s[k]))
  }

  /** Uppercasing fixes a string exactly when it has no lowercase ASCII letter. */
  predicate IsUpperCased(s: string) {
    forall k :: 0 <= k < |s| ==> !IsAsciiLower(s[k])
  }

  lemma UpperIsUpperCased(s: string)
    ensures IsUpperCased(Upper(s))
    ensures Upper(Upper(s)) == Upper(s)
  {
  }

  lemma UpperCasedFixed(s: string)
    requires IsUpperCased(s)
    ensures Upper(s) == s
  {
  }

  /** Case mapping forgets the previous case: the lowercase key of a word does not depend on whether it
      was uppercased first, and vice versa. */
  lemma CaseRoundTrip(s: string)
    ensures Lower(Upper(s)) == Lower(s)
    ensures Upper(Lower(s)) == Upper(s)
  {
  }

  lemma UpperAppend(a: string, b: string)
    ensures Upper(a + b) == Upper(a) + Upper(b)
    ensures Lower(a + b) == Lower(a) + Lower(b)
  {
  }

  /** Two different uppercase words have different lowercase keys. */
  lemma LowerDistinctOnUpperCased(a: string, b: string)
    requires IsUpperCased(a) && IsUpperCased(b) && a != b
    ensures Lower(a) != Lower(b)
  {
    CaseRoundTrip(a);
    CaseRoundTrip(b);
    UpperCasedFixed(a);
    UpperCasedFixed(b);
  }

  /** Two uppercase words with the same lowercase key are the same word. */
  lemma LowerInjectiveOnUpperCased(a: string, b: string)
    requires IsUpperCased(a) && IsUpperCased(b)
    requires Lower(a) == Lower(b)
    ensures a == b
  {
    CaseRoundTrip(a);
    CaseRoundTrip(b);
    UpperCasedFixed(a);
    UpperCasedFixed(b);
  }
}
