/** Byte values and C string conventions shared by the editing engine.
    Bytes are modelled as `char` values; a C string is the part of a
    byte sequence before its first NUL. */
module Chars {

  const Nul: char := 0 as char
  const Tab: char := 9 as char
  const Newline: char := 10 as char
  const Return: char := 13 as char
  const Esc: char := 27 as char

  function Min(a: int, b: int): int { if a <= b then a else b }
  function Max(a: int, b: int): int { if a >= b then a else b }

  /** The C library's `isspace` in the "C" locale. */
  predicate IsSpace(c: char) {
    c == ' ' || c == Tab || c == Newline || c == 11 as char || c == 12 as char || c == Return
  }

  /** Index of the first occurrence of `c` in `s`, or |s| when there is none
      (what `strchr` and `strlen` search for). */
  function IndexOf(s: seq<char>, c: char): (i: nat)
    ensures i <= |s|
    ensures i < |s| ==> s[i] == c
    ensures forall k :: 0 <= k < i ==> s[k] != c
  {
    if s == [] then 0
    else if s[0] == c then 0
    else 1 + IndexOf(s[1..], c)
  }

  /** The C string held in a byte buffer: everything before the first NUL. */
  function CStr(s: seq<char>): (r: seq<char>)
    ensures Nul !in r
    ensures r <= s
    ensures Nul !in s ==> r == s
  {
    s[..IndexOf(s, Nul)]
  }
}
