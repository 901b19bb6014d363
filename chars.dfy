/**
 * Character classes and the C-string view of a cursor used throughout xml.c.
 *
 * A C string is modelled as a `string` (a `seq<char>`); the terminating NUL is
 * not stored.  Reading `*p` at an index past the end yields the NUL byte, which
 * is what `At` returns, so every "end of input" test of the source
 * (`!*p`) becomes `At(s, p) == '\0'`.
 */
module Chars {

  /** The byte the C code sees at offset `p` of the NUL-terminated string `s`. */
  function At(s: string, p: nat): (c: char)
    ensures c != '\0' ==> p < |s| && c == s[p]
    ensures p < |s| ==> c == s[p]
  {
    if p < |s| then s[p] else '\0'
  }

  /** `isspace` in the C locale: space, tab, newline, vertical tab, form feed, carriage return. */
  predicate IsSpace(c: char)
  {
    c == ' ' || c == '\t' || c == '\n' || c == '\U{000B}' || c == '\U{000C}' || c == '\r'
  }

  /** `XML_isnamechar`: anything but NUL, `>`, `/`, `"`, `=` and white space. */
  predicate IsNameChar(c: char)
  {
    c != '\0' && c != '>' && c != '/' && c != '"' && c != '=' && !IsSpace(c)
  }

  /** `XML_isntnamechar`. */
  predicate IsntNameChar(c: char)
  {
    !IsNameChar(c)
  }

  /** `XML_isquote`. */
  predicate IsQuote(c: char)
  {
    c == '"'
  }

  /** `XML_islt`. */
  predicate IsLt(c: char)
  {
    c == '<'
  }

  /** A string that a C string can hold: no embedded NUL. */
  predicate NoNul(s: string)
  {
    forall i :: 0 <= i < |s| ==> s[i] != '\0'
  }

  /** A name the parser accepts: non-empty and made of name characters only. */
  predicate ValidName(name: string)
  {
    |name| > 0 && forall i :: 0 <= i < |name| ==> IsNameChar(name[i])
  }
}
