/** ASCII character classes and the case folding that an ECMAScript regular
    expression applies under the `i` flag when the `u` flag is absent.

    In that mode a character is canonicalised by upper-casing it, except that a
    character outside ASCII is never mapped into ASCII. The classes used by the
    username patterns contain only ASCII characters, so only the ASCII part of
    the mapping decides anything about them; `ToUpper` and `ToLower` therefore
    leave every character outside `a`-`z` / `A`-`Z` unchanged. */
module Ascii {

  predicate IsLower(c: char) { 'a' <= c <= 'z' }

  predicate IsUpper(c: char) { 'A' <= c <= 'Z' }

  predicate IsLetter(c: char) { IsLower(c) || IsUpper(c) }

  predicate IsDigit(c: char) { '0' <= c <= '9' }

  /** `[A-Za-z0-9]` */
  predicate IsAlnum(c: char) { IsLetter(c) || IsDigit(c) }

  /** The class `\w` of an ECMAScript regular expression without the `u` flag. */
  predicate IsWordChar(c: char) { IsAlnum(c) || c == '_' }

  /** The class `[\w-]`. */
  predicate IsWordOrDash(c: char) { IsWordChar(c) || c == '-' }

  /** Canonical (upper-case) form of an ASCII letter; every other character is
      its own canonical form. */
  function ToUpper(c: char): (u: char)
    ensures !IsLower(u)
    ensures IsLetter(u) <==> IsLetter(c)
    ensures IsLower(c) ==> u as int + 32 == c as int
  {
    if IsLower(c) then (c as int - 32) as char else c
  }

  /** Lower-case form of an ASCII letter; every other character is unchanged. */
  function ToLower(c: char): (l: char)
    ensures !IsUpper(l)
    ensures IsLetter(l) <==> IsLetter(c)
    ensures IsUpper(c) ==> l as int == c as int + 32
  {
    if IsUpper(c) then (c as int + 32) as char else c
  }

  /** Two characters that a case-insensitive match cannot tell apart. */
  predicate SameIgnoringCase(a: char, b: char) { ToUpper(a) == ToUpper(b) }

  /** `t` is `s` with the case of any of its ASCII letters changed. */
  predicate CaseVariant(s: string, t: string) {
    |s| == |t| && forall i :: 0 <= i < |s| ==> SameIgnoringCase(s[i], t[i])
  }

  /** A character is always one of its two case forms, and characters that agree
      ignoring case have the same two case forms. */
  lemma CaseForms(a: char, b: char)
    requires SameIgnoringCase(a, b)
    ensures a == ToLower(a) || a == ToUpper(a)
    ensures ToLower(a) == ToLower(b)
  {
  }

  lemma CaseVariantSymmetric(s: string, t: string)
    requires CaseVariant(s, t)
    ensures CaseVariant(t, s)
  {
  }

  /** Slices of case variants are case variants. */
  lemma CaseVariantSlice(s: string, t: string, i: nat, j: nat)
    requires CaseVariant(s, t) && i <= j <= |s|
    ensures CaseVariant(s[i..j], t[i..j])
  {
  }
}
