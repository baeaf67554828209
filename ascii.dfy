/**
  ASCII case folding: the behaviour of Java's `String.equalsIgnoreCase` on which
  the walker's name tests rest, restricted to the ASCII letters. Outside
  'A'..'Z' and 'a'..'z' every character folds to itself.
 */
module Ascii {

  /** `Character.toLowerCase` on ASCII. */
  function LowerChar(c: char): char
  {
    if 'A' <= c <= 'Z' then (c as int + 32) as char else c
  }

  /** `Character.toUpperCase` on ASCII. */
  function UpperChar(c: char): char
  {
    if 'a' <= c <= 'z' then (c as int - 32) as char else c
  }

  /** One position of `String.regionMatches(true, ...)`: the characters are equal,
      or their upper cases are, or the lower cases of their upper cases are. */
  predicate CharEqualsIgnoreCase(c: char, d: char)
  {
    c == d || UpperChar(c) == UpperChar(d) || LowerChar(UpperChar(c)) == LowerChar(UpperChar(d))
  }

  /** `a.equalsIgnoreCase(b)`: equal lengths, and every position matches ignoring case. */
  predicate EqualsIgnoreCase(a: string, b: string)
  {
    |a| == |b| && forall i | 0 <= i < |a| :: CharEqualsIgnoreCase(a[i], b[i])
  }

  /** The whole string folded to lower case, an independent reference for `EqualsIgnoreCase`. */
  function Lower(s: string): (r: string)
    ensures |r| == |s|
    ensures forall i | 0 <= i < |s| :: r[i] == LowerChar(s[i])
  {
    seq(|s|, i requires 0 <= i < |s| => LowerChar(s[i]))
  }

  /** Two characters match ignoring case exactly when they fold to the same lower case. */
  lemma CharEqualsIgnoreCaseIffSameLower(c: char, d: char)
    ensures CharEqualsIgnoreCase(c, d) <==> LowerChar(c) == LowerChar(d)
  {
  }

  /** `equalsIgnoreCase` holds exactly when both strings fold to the same lower-case string. */
  lemma EqualsIgnoreCaseIffSameLower(a: string, b: string)
    ensures EqualsIgnoreCase(a, b) <==> Lower(a) == Lower(b)
  {
    if |a| == |b| {
      forall i | 0 <= i < |a| ensures CharEqualsIgnoreCase(a[i], b[i]) <==> Lower(a)[i] == Lower(b)[i] {
        CharEqualsIgnoreCaseIffSameLower(a[i], b[i]);
      }
    }
  }

  /** A string with no upper-case ASCII letter is its own lower case. */
  lemma LowerOfLowerCase(s: string)
    requires forall i | 0 <= i < |s| :: !('A' <= s[i] <= 'Z')
    ensures Lower(s) == s
  {
  }
}
