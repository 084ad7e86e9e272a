/** ASCII case mapping, the part of Python's `str.upper()` and `str.lower()`
    that the command-line arguments of the benchmark use. */
module Ascii {

  function UpperChar(c: char): char {
    if 'a' <= c <= 'z' then (c as int - 'a' as int + 'A' as int) as char else c
  }

  function LowerChar(c: char): char {
    if 'A' <= c <= 'Z' then (c as int - 'A' as int + 'a' as int) as char else c
  }

  /** `s.upper()` */
  function ToUpper(s: string): string {
    seq(|s|, i requires 0 <= i < |s| => UpperChar(s[i]))
  }

  /** `s.lower()` */
  function ToLower(s: string): string {
    seq(|s|, i requires 0 <= i < |s| => LowerChar(s[i]))
  }

  /** Upper-casing never yields a lower-case letter. */
  lemma UpperCharIsUpper(c: char)
    ensures !('a' <= UpperChar(c) <= 'z')
    ensures UpperChar(UpperChar(c)) == UpperChar(c)
  {
  }

  /** Only 'b' and 'B' upper-case to 'B' (likewise for the unit letters). */
  lemma UpperCharIs(c: char, l: char)
    requires 'A' <= l <= 'Z'
    ensures UpperChar(c) == l <==> c == l || c == LowerChar(l)
  {
  }

  lemma ToUpperIdempotent(s: string)
    ensures ToUpper(ToUpper(s)) == ToUpper(s)
  {
    forall i | 0 <= i < |s|
      ensures ToUpper(ToUpper(s))[i] == ToUpper(s)[i]
    {
      UpperCharIsUpper(s[i]);
    }
  }

  /** A string without upper-case letters, such as a registry key, is
      given back by lower-casing its upper-cased form. */
  lemma {:induction false} ToLowerToUpper(s: string)
    requires forall i :: 0 <= i < |s| ==> !('A' <= s[i] <= 'Z')
    ensures ToLower(ToUpper(s)) == s
  {
    forall i | 0 <= i < |s| ensures LowerChar(UpperChar(s[i])) == s[i] {
      if 'a' <= s[i] <= 'z' {
        assert 'A' <= UpperChar(s[i]) <= 'Z';
      }
    }
  }
}
