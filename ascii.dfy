/** ASCII character classes and case mapping, as Python's `str` methods behave on ASCII. */
module Ascii {

  predicate IsUpper(c: char) { 'A' <= c <= 'Z' }

  predicate IsLower(c: char) { 'a' <= c <= 'z' }

  /** `c.isalpha()` restricted to ASCII. */
  predicate IsAlpha(c: char) { IsUpper(c) || IsLower(c) }

  predicate IsAsciiText(s: string) { forall i :: 0 <= i < |s| ==> s[i] < 128 as char }

  function ToUpper(c: char): (r: char)
    ensures IsLower(c) ==> IsUpper(r) && r as int == c as int - 32
    ensures !IsLower(c) ==> r == c
  {
    if IsLower(c) then (c as int - 32) as char else c
  }

  function ToLower(c: char): (r: char)
    ensures IsUpper(c) ==> IsLower(r) && r as int == c as int + 32
    ensures !IsUpper(c) ==> r == c
  {
    if IsUpper(c) then (c as int + 32) as char else c
  }

  /** `s.upper()` on ASCII text. */
  function UpperText(s: string): (r: string)
    ensures |r| == |s|
    ensures forall i :: 0 <= i < |s| ==> r[i] == ToUpper(s[i])
  {
    seq(|s|, i requires 0 <= i < |s| => ToUpper(s[i]))
  }

  /** The capital letter with alphabet index `n`, as `chr(n + 65)`. */
  function Capital(n: int): (c: char)
    requires 0 <= n < 26
    ensures IsUpper(c) && c as int - 65 == n
  {
    (n + 65) as char
  }

  /** The alphabet index of an ASCII letter of either case. */
  function LetterIndex(c: char): (n: int)
    requires IsAlpha(c)
    ensures 0 <= n < 26
    ensures n == ToUpper(c) as int - 65
  {
    if IsUpper(c) then c as int - 65 else c as int - 97
  }
}
