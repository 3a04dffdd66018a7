/** Case-insensitive string comparison, restricted to ASCII.

    Java's String.equalsIgnoreCase compares two strings of equal length
    character by character, treating two characters as equal when they are
    equal after case conversion. This module models the conversion on the
    ASCII letters only; every other character compares exactly. */
module Text {

  /** Character.toLowerCase on ASCII: the result is never an upper-case ASCII
      letter, and only upper-case ASCII letters are changed. */
  function ToLower(c: char): (r: char)
    ensures !('A' <= r <= 'Z')
    ensures r != c ==> 'A' <= c <= 'Z'
  {
    if 'A' <= c <= 'Z' then (c as int + 32) as char else c
  }

  /** Lower-casing twice is lower-casing once. */
  lemma ToLowerIdempotent(c: char)
    ensures ToLower(ToLower(c)) == ToLower(c)
  {
  }

  /** Two characters are equal ignoring case. */
  predicate SameLetter(a: char, b: char)
  {
    ToLower(a) == ToLower(b)
  }

  /** String.equalsIgnoreCase: same length and pairwise equal ignoring case. */
  predicate EqualsIgnoreCase(a: string, b: string)
  {
    |a| == |b| && forall i :: 0 <= i < |a| ==> SameLetter(a[i], b[i])
  }

  /** equalsIgnoreCase is an equivalence: reflexive, symmetric and transitive. */
  lemma EqualsIgnoreCaseEquivalence(a: string, b: string, c: string)
    ensures EqualsIgnoreCase(a, a)
    ensures EqualsIgnoreCase(a, b) ==> EqualsIgnoreCase(b, a)
    ensures EqualsIgnoreCase(a, b) && EqualsIgnoreCase(b, c) ==> EqualsIgnoreCase(a, c)
  {
  }
}
