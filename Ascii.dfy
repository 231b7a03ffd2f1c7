/** ASCII letter case: the part of `String.prototype.toLowerCase` that the
    language toggle relies on (comparisons with "it" and "en" and the "en"
    prefix test). */
module Ascii {

  predicate IsUpper(c: char) {
    'A' <= c <= 'Z'
  }

  /** Lowercase one character; anything that is not an ASCII capital is kept. */
  function LowerChar(c: char): (d: char)
    ensures IsUpper(c) ==> d as int == c as int + 32
    ensures !IsUpper(c) ==> d == c
    ensures !IsUpper(d)
  {
    if IsUpper(c) then (c as int + 32) as char else c
  }

  /** Lowercase a whole string, character by character. */
  function Lower(s: string): (r: string)
    ensures |r| == |s|
    ensures forall i :: 0 <= i < |s| ==> r[i] == LowerChar(s[i])
  {
    if s == [] then [] else [LowerChar(s[0])] + Lower(s[1..])
  }

  /** `s` and `w` spell the same word when letter case is ignored. */
  predicate EqualsIgnoringCase(s: string, w: string) {
    |s| == |w| && forall i :: 0 <= i < |s| ==> LowerChar(s[i]) == LowerChar(w[i])
  }

  /** A string with no ASCII capital in it. */
  predicate IsLowerCase(w: string) {
    forall i :: 0 <= i < |w| ==> !IsUpper(w[i])
  }

  /** Lowercasing yields a lowercase word `w` exactly when the input spells
      `w` up to letter case. */
  lemma LowerEqualsIff(s: string, w: string)
    requires IsLowerCase(w)
    ensures Lower(s) == w <==> EqualsIgnoringCase(s, w)
  {
    if EqualsIgnoringCase(s, w) {
      forall i | 0 <= i < |s| ensures Lower(s)[i] == w[i] {
        assert LowerChar(w[i]) == w[i];
      }
    }
  }

  /** Lowercasing commutes with taking a prefix. */
  lemma LowerPrefix(s: string, n: nat)
    requires n <= |s|
    ensures Lower(s)[..n] == Lower(s[..n])
  {
  }
}
