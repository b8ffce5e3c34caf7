/** ASCII character classes and case mapping, as Python applies them to ASCII text. */
module Chars {

  /** Membership in the regular-expression class `[a-zA-Z]`. */
  predicate IsLetter(c: char) {
    'a' <= c <= 'z' || 'A' <= c <= 'Z'
  }

  /** `str.isupper` on one character, restricted to ASCII. */
  predicate IsUpper(c: char) {
    'A' <= c <= 'Z'
  }

  /** `str.islower` on one character, restricted to ASCII. */
  predicate IsLower(c: char) {
    'a' <= c <= 'z'
  }

  /** `str.upper` on one character, restricted to ASCII. */
  function Upper(c: char): (r: char)
    ensures IsLetter(c) ==> IsUpper(r)
    ensures !IsLower(c) ==> r == c
    ensures IsLower(c) ==> r as int == c as int - 32
  {
    if IsLower(c) then (c as int - 32) as char else c
  }

  /** `str.lower` on one character, restricted to ASCII. */
  function Lower(c: char): (r: char)
    ensures IsLetter(c) ==> IsLower(r)
    ensures !IsUpper(c) ==> r == c
    ensures IsUpper(c) ==> r as int == c as int + 32
  {
    if IsUpper(c) then (c as int + 32) as char else c
  }

  /** `str.upper` on a string: applied character by character. */
  function UpperString(s: string): (r: string)
    ensures |r| == |s|
    ensures forall i :: 0 <= i < |s| ==> r[i] == Upper(s[i])
  {
    seq(|s|, i requires 0 <= i < |s| => Upper(s[i]))
  }
}
