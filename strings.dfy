/**
 * The .NET string primitives the redirect logic relies on: ordinal and
 * ordinal case-insensitive comparison (`string.Equals(.., StringComparison)`),
 * and `string.Replace(oldValue, newValue, StringComparison)`.
 *
 * Case-insensitive ordinal comparison is modelled by folding each character
 * with an ASCII upper-casing function and comparing the folded characters.
 */
module Strings {

  datatype Comparison = Ordinal | OrdinalIgnoreCase

  /** Upper-cases an ASCII letter and leaves every other character alone. */
  function Fold(c: char): (f: char)
    ensures 'a' <= c <= 'z' ==> 'A' <= f <= 'Z' && f as int == c as int - 32
    ensures !('a' <= c <= 'z') ==> f == c
  {
    if 'a' <= c <= 'z' then (c as int - 32) as char else c
  }

  /**
   * Two characters are equal ignoring case exactly when they are the same
   * character, or the same ASCII letter once in lower and once in upper case.
   */
  lemma CharEqualsIgnoreCaseIff(a: char, b: char)
    ensures CharEquals(OrdinalIgnoreCase, a, b) <==>
      a == b ||
      ('a' <= a <= 'z' && b as int == a as int - 32) ||
      ('a' <= b <= 'z' && a as int == b as int - 32)
  {
  }

  /** Character equality under the given comparison. */
  predicate CharEquals(cmp: Comparison, a: char, b: char) {
    match cmp
    case Ordinal => a == b
    case OrdinalIgnoreCase => Fold(a) == Fold(b)
  }

  /** `a.Equals(b, cmp)`: same length and pointwise equal characters. */
  predicate Equals(cmp: Comparison, a: string, b: string) {
    |a| == |b| && forall i :: 0 <= i < |a| ==> CharEquals(cmp, a[i], b[i])
  }

  /** The string with every character folded. */
  function FoldAll(s: string): (r: string)
    ensures |r| == |s|
    ensures forall i :: 0 <= i < |s| ==> r[i] == Fold(s[i])
  {
    seq(|s|, i requires 0 <= i < |s| => Fold(s[i]))
  }

  /** `s` begins with `pat` under the comparison (`s.Substring(0, pat.Length).Equals(pat, cmp)`). */
  predicate StartsWith(cmp: Comparison, s: string, pat: string) {
    |pat| <= |s| && Equals(cmp, s[..|pat|], pat)
  }

  /** `pat` occurs in `s` at position `i`. */
  predicate OccursAt(cmp: Comparison, s: string, pat: string, i: int) {
    0 <= i && i + |pat| <= |s| && Equals(cmp, s[i..i + |pat|], pat)
  }

  /**
   * `s.Replace(pat, rep, cmp)`: one left-to-right pass that replaces each
   * non-overlapping occurrence of `pat` by `rep`. .NET throws on an empty
   * `pat`; callers must rule that case out (or model the exception).
   */
  function Replace(cmp: Comparison, s: string, pat: string, rep: string): string
    requires |pat| > 0
    decreases |s|
  {
    if StartsWith(cmp, s, pat) then rep + Replace(cmp, s[|pat|..], pat, rep)
    else if s == [] then []
    else [s[0]] + Replace(cmp, s[1..], pat, rep)
  }

  /** Ordinal equality is string equality. */
  lemma EqualsOrdinal(a: string, b: string)
    ensures Equals(Ordinal, a, b) <==> a == b
  {
  }

  /** Case-insensitive equality is equality of the folded strings. */
  lemma EqualsIgnoreCaseIffFolded(a: string, b: string)
    ensures Equals(OrdinalIgnoreCase, a, b) <==> FoldAll(a) == FoldAll(b)
  {
  }

  /** A string in which `pat` never occurs comes out of `Replace` unchanged. */
  lemma {:induction false} ReplaceWithoutOccurrence(cmp: Comparison, s: string, pat: string, rep: string)
    requires |pat| > 0
    requires forall i :: !OccursAt(cmp, s, pat, i)
    ensures Replace(cmp, s, pat, rep) == s
    decreases |s|
  {
    assert !OccursAt(cmp, s, pat, 0);
    if s != [] {
      forall i ensures !OccursAt(cmp, s[1..], pat, i) {
        if OccursAt(cmp, s[1..], pat, i) {
          assert s[1..][i..i + |pat|] == s[i + 1..i + 1 + |pat|];
          assert OccursAt(cmp, s, pat, i + 1);
        }
      }
      ReplaceWithoutOccurrence(cmp, s[1..], pat, rep);
    }
  }

  /** A replacement no longer than the pattern never lengthens the string. */
  lemma {:induction false} ReplaceNoLonger(cmp: Comparison, s: string, pat: string, rep: string)
    requires |pat| > 0 && |rep| <= |pat|
    ensures |Replace(cmp, s, pat, rep)| <= |s|
    decreases |s|
  {
    if StartsWith(cmp, s, pat) {
      ReplaceNoLonger(cmp, s[|pat|..], pat, rep);
    } else if s != [] {
      ReplaceNoLonger(cmp, s[1..], pat, rep);
    }
  }
}
