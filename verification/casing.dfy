/** Upper-casing of characters and strings, as the game uses it to compare
    guesses with the secret phrase case-insensitively. */
module Casing {

  /** A lower-case ASCII letter: the characters the model maps to upper case. */
  predicate IsLower(c: char) {
    'a' <= c <= 'z'
  }

  /** Upper-case mapping of one character: ASCII letters are mapped, every
      other character is its own upper-case form. */
  function Upper(c: char): (u: char)
    ensures !IsLower(u)
    ensures IsLower(c) || u == c
    ensures IsLower(c) ==> 'A' <= u <= 'Z'
    ensures IsLower(c) ==> u as int == c as int - ('a' as int - 'A' as int)
  {
    if IsLower(c) then (c as int - ('a' as int - 'A' as int)) as char else c
  }

  /** Upper-casing is idempotent. */
  lemma UpperIdempotent(c: char)
    ensures Upper(Upper(c)) == Upper(c)
  {
  }

  /** A string that upper-casing leaves unchanged. */
  ghost predicate IsUpper(s: string) {
    forall i :: 0 <= i < |s| ==> Upper(s[i]) == s[i]
  }

  /** Upper-casing of a whole string, one character at a time: the length is
      kept, each character is upper-cased in place, the result is upper case,
      and an upper-case string is its own upper-case form (so upper-casing
      twice is the same as once). */
  function UpperStr(s: string): (r: string)
    ensures |r| == |s|
    ensures forall i :: 0 <= i < |s| ==> r[i] == Upper(s[i])
    ensures IsUpper(r)
    ensures IsUpper(s) ==> r == s
  {
    seq(|s|, i requires 0 <= i < |s| => Upper(s[i]))
  }
}
