/**
 * Characters as the C code sees them. A `char` stands for one byte of a C
 * string; `tolower` is the ASCII mapping of the "C" locale (A-Z to a-z, every
 * other character unchanged).
 */
module Ascii {

  /** A C string: the terminating NUL is implicit, so no NUL occurs inside. */
  type CString = s: string | '\0' !in s

  predicate IsUpper(c: char) {
    'A' <= c <= 'Z'
  }

  predicate IsLower(c: char) {
    'a' <= c <= 'z'
  }

  /** `tolower` in the "C" locale. */
  function ToLower(c: char): (r: char)
    ensures !IsUpper(r)
    ensures IsUpper(c) ==> IsLower(r) && r as int - c as int == 'a' as int - 'A' as int
    ensures !IsUpper(c) ==> r == c
    ensures r == ' ' <==> c == ' '
    ensures r == '\0' <==> c == '\0'
  {
    if IsUpper(c) then (c as int + ('a' as int - 'A' as int)) as char else c
  }

  /** `toupper` in the "C" locale; used to state case-insensitivity. */
  function ToUpper(c: char): (r: char)
    ensures !IsLower(r)
    ensures IsLower(c) ==> IsUpper(r) && c as int - r as int == 'a' as int - 'A' as int
    ensures !IsLower(c) ==> r == c
    ensures r == ' ' <==> c == ' '
    ensures r == '\0' <==> c == '\0'
  {
    if IsLower(c) then (c as int - ('a' as int - 'A' as int)) as char else c
  }

  /** `tolower` applied to every character. */
  function LowerAll(s: string): (r: string)
    ensures |r| == |s|
    ensures forall i :: 0 <= i < |r| ==> r[i] == ToLower(s[i])
  {
    seq(|s|, i requires 0 <= i < |s| => ToLower(s[i]))
  }

  /** `toupper` applied to every character. */
  function UpperAll(s: string): (r: string)
    ensures |r| == |s|
    ensures forall i :: 0 <= i < |r| ==> r[i] == ToUpper(s[i])
  {
    seq(|s|, i requires 0 <= i < |s| => ToUpper(s[i]))
  }

  /** Neither letter case: `tolower` and `toupper` leave it alone. */
  predicate Caseless(c: char) {
    !IsUpper(c) && !IsLower(c)
  }

  /** Only a caseless character itself lower-cases to a caseless character. */
  lemma LowerToCaseless(d: char, c: char)
    requires Caseless(c)
    ensures ToLower(d) == c <==> d == c
  {
  }

  predicate NoUpper(s: string) {
    forall i :: 0 <= i < |s| ==> !IsUpper(s[i])
  }

  /** A string without upper-case letters is its own lower-casing. */
  lemma LowerAllNoUpper(s: string)
    requires NoUpper(s)
    ensures LowerAll(s) == s
  {
  }

  /** Lower-casing forgets whatever upper-casing did. */
  lemma LowerUpper(c: char)
    ensures ToLower(ToUpper(c)) == ToLower(c)
  {
  }
}
