/**
 Case folding of strings, restricted to the ASCII letters.
 Python's `str.upper` and `str.lower` fold every Unicode letter; here every
 character outside `a`..`z` and `A`..`Z` is left as it is.
 */
module Ascii {

  predicate IsLower(c: char) { 'a' <= c <= 'z' }

  predicate IsUpper(c: char) { 'A' <= c <= 'Z' }

  /** `c` and `d` are the same letter, possibly in different cases, or the same character. */
  predicate SameIgnoringCase(c: char, d: char) {
    || c == d
    || (IsLower(c) && d as int == c as int - 32)
    || (IsUpper(c) && d as int == c as int + 32)
  }

  /** Two strings that agree character by character up to the case of letters. */
  predicate EqualsIgnoringCase(a: string, b: string) {
    && |a| == |b|
    && forall i :: 0 <= i < |a| ==> SameIgnoringCase(a[i], b[i])
  }

  function CharUpper(c: char): (u: char)
    ensures !IsLower(u)
    ensures SameIgnoringCase(c, u)
  {
    if IsLower(c) then (c as int - 32) as char else c
  }

  function CharLower(c: char): (l: char)
    ensures !IsUpper(l)
    ensures SameIgnoringCase(c, l)
  {
    if IsUpper(c) then (c as int + 32) as char else c
  }

  /** Upper-casing, one character at a time: the result has no lower-case letter left. */
  function Upper(s: string): (r: string)
    ensures |r| == |s|
    ensures forall i :: 0 <= i < |s| ==> r[i] == CharUpper(s[i])
  {
    if s == [] then [] else [CharUpper(s[0])] + Upper(s[1..])
  }

  /** Lower-casing, one character at a time: the result has no upper-case letter left. */
  function Lower(s: string): (r: string)
    ensures |r| == |s|
    ensures forall i :: 0 <= i < |s| ==> r[i] == CharLower(s[i])
  {
    if s == [] then [] else [CharLower(s[0])] + Lower(s[1..])
  }

  predicate NoLower(s: string) { forall i :: 0 <= i < |s| ==> !IsLower(s[i]) }

  predicate NoUpper(s: string) { forall i :: 0 <= i < |s| ==> !IsUpper(s[i]) }

  lemma CharUpperAgrees(c: char, d: char)
    ensures CharUpper(c) == CharUpper(d) <==> SameIgnoringCase(c, d)
  {
  }

  lemma CharLowerAgrees(c: char, d: char)
    ensures CharLower(c) == CharLower(d) <==> SameIgnoringCase(c, d)
  {
  }

  /** Two strings upper-case to the same string exactly when they differ only in case. */
  lemma UpperEqualIff(a: string, b: string)
    ensures Upper(a) == Upper(b) <==> EqualsIgnoringCase(a, b)
  {
    if EqualsIgnoringCase(a, b) {
      forall i | 0 <= i < |a|
        ensures Upper(a)[i] == Upper(b)[i]
      {
        CharUpperAgrees(a[i], b[i]);
      }
    }
    if Upper(a) == Upper(b) {
      forall i | 0 <= i < |a|
        ensures SameIgnoringCase(a[i], b[i])
      {
        assert Upper(a)[i] == Upper(b)[i];
        CharUpperAgrees(a[i], b[i]);
      }
    }
  }

  /** Two strings lower-case to the same string exactly when they differ only in case. */
  lemma LowerEqualIff(a: string, b: string)
    ensures Lower(a) == Lower(b) <==> EqualsIgnoringCase(a, b)
  {
    if EqualsIgnoringCase(a, b) {
      forall i | 0 <= i < |a|
        ensures Lower(a)[i] == Lower(b)[i]
      {
        CharLowerAgrees(a[i], b[i]);
      }
    }
    if Lower(a) == Lower(b) {
      forall i | 0 <= i < |a|
        ensures SameIgnoringCase(a[i], b[i])
      {
        assert Lower(a)[i] == Lower(b)[i];
        CharLowerAgrees(a[i], b[i]);
      }
    }
  }

  /** A string without lower-case letters is its own upper-casing. */
  lemma UpperFixed(s: string)
    ensures Upper(s) == s <==> NoLower(s)
  {
    if NoLower(s) {
      assert forall i :: 0 <= i < |s| ==> Upper(s)[i] == s[i];
    }
  }

  /** A string without upper-case letters is its own lower-casing. */
  lemma LowerFixed(s: string)
    ensures Lower(s) == s <==> NoUpper(s)
  {
    if NoUpper(s) {
      assert forall i :: 0 <= i < |s| ==> Lower(s)[i] == s[i];
    }
  }

  /** Lower-casing forgets an earlier upper-casing: `s.upper().lower() == s.lower()`. */
  lemma LowerOfUpper(s: string)
    ensures Lower(Upper(s)) == Lower(s)
  {
    forall i | 0 <= i < |s|
      ensures SameIgnoringCase(Upper(s)[i], s[i])
    {
      CharUpperAgrees(Upper(s)[i], s[i]);
    }
    LowerEqualIff(Upper(s), s);
  }
}
