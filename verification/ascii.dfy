/**
 The character classification and case mapping the engine relies on:
 `isalpha` and `tolower` from <cctype>, in the "C" locale, where only the
 26 ASCII letters of either case are alphabetic and only `A`..`Z` change
 under `tolower`.
 */
module Ascii {

  /**
   `isalpha` in the "C" locale. In ASCII the letters are positions 1 to 26 of
   the two 32-character blocks that start at 64 (`@`, `A`..`Z`) and at 96
   (`` ` ``, `a`..`z`).
   */
  predicate IsAlpha(c: char): (b: bool)
    ensures b <==> (c as int) / 32 in {2, 3} && 1 <= (c as int) % 32 <= 26
  {
    ('a' <= c <= 'z') || ('A' <= c <= 'Z')
  }

  /** A lowercase ASCII letter: the only characters that index a trie slot. */
  predicate IsLowerLetter(c: char) {
    'a' <= c <= 'z'
  }

  /** `tolower` in the "C" locale: `A`..`Z` move up by 32, every other character is kept. */
  function ToLower(c: char): (r: char)
    ensures IsAlpha(c) ==> IsLowerLetter(r)
    ensures !IsAlpha(c) ==> r == c
    ensures IsLowerLetter(c) ==> r == c
    ensures IsAlpha(r) <==> IsAlpha(c)
    ensures 'A' <= c <= 'Z' ==> r as int - 'a' as int == c as int - 'A' as int
  {
    if 'A' <= c <= 'Z' then (c as int + 32) as char else c
  }

  /** Two characters with the same lowercase image are both letters or both non-letters. */
  lemma SameLowerSameClass(a: char, b: char)
    requires ToLower(a) == ToLower(b)
    ensures IsAlpha(a) <==> IsAlpha(b)
  {
  }

  /** `std::transform(s, tolower)`: lowercase every character of a string. */
  function Lower(s: string): (r: string)
    ensures |r| == |s|
    ensures forall i :: 0 <= i < |s| ==> r[i] == ToLower(s[i])
    ensures IsLetters(r) <==> IsLetters(s)
  {
    seq(|s|, i requires 0 <= i < |s| => ToLower(s[i]))
  }

  /** Every character is an ASCII letter (of either case). */
  predicate IsLetters(s: string) {
    forall i :: 0 <= i < |s| ==> IsAlpha(s[i])
  }

  /** Every character is a lowercase ASCII letter: a valid trie key. */
  predicate IsLowerWord(s: string) {
    forall i :: 0 <= i < |s| ==> IsLowerLetter(s[i])
  }

  /** A Word of the byte scan: a non-empty run of lowercase ASCII letters. */
  predicate IsWord(s: string) {
    s != [] && IsLowerWord(s)
  }

  /** Lowercasing is idempotent, and lowercasing letters gives a trie key. */
  lemma LowerProperties(s: string)
    ensures Lower(Lower(s)) == Lower(s)
    ensures IsLetters(s) ==> IsLowerWord(Lower(s))
    ensures IsLowerWord(s) ==> Lower(s) == s
  {
  }
}
