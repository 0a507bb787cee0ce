/** The part of JavaScript's string semantics the to-do page relies on:
    `String.prototype.trim` and the truthiness of the string it returns.

    JavaScript strings are sequences of UTF-16 code units; here a string is a
    `seq<char>` of Unicode scalar values. Every character `trim` removes lies in
    the Basic Multilingual Plane, so the two views agree on what is removed. */
module JsString {

  /** The characters ECMA-262 classifies as WhiteSpace or LineTerminator,
      the set `String.prototype.trim` strips from both ends. Each lies in the
      Basic Multilingual Plane, so it is a single UTF-16 code unit. */
  predicate IsWhiteSpace(c: char)
    ensures IsWhiteSpace(c) ==> c < '\U{10000}'
  {
    // LineTerminator: LF, CR, LINE SEPARATOR, PARAGRAPH SEPARATOR
    c == '\n' || c == '\r' || c == '\U{2028}' || c == '\U{2029}' ||
    // WhiteSpace: TAB, VT, FF, ZWNBSP
    c == '\t' || c == '\U{000B}' || c == '\U{000C}' || c == '\U{FEFF}' ||
    // WhiteSpace: every character of general category Zs
    c == ' ' || c == '\U{00A0}' || c == '\U{1680}' ||
    ('\U{2000}' <= c <= '\U{200A}') ||
    c == '\U{202F}' || c == '\U{205F}' || c == '\U{3000}'
  }

  /** Drops the leading white space: the result is the longest suffix of `s`
      that does not start with white space. */
  function TrimStart(s: string): (r: string)
    ensures |r| <= |s| && r == s[|s| - |r|..]
    ensures forall i :: 0 <= i < |s| - |r| ==> IsWhiteSpace(s[i])
    ensures r == [] || !IsWhiteSpace(r[0])
  {
    if |s| > 0 && IsWhiteSpace(s[0]) then TrimStart(s[1..]) else s
  }

  /** Drops the trailing white space: the result is the longest prefix of `s`
      that does not end with white space. */
  function TrimEnd(s: string): (r: string)
    ensures |r| <= |s| && r == s[..|r|]
    ensures forall i :: |r| <= i < |s| ==> IsWhiteSpace(s[i])
    ensures r == [] || !IsWhiteSpace(r[|r| - 1])
  {
    if |s| > 0 && IsWhiteSpace(s[|s| - 1]) then TrimEnd(s[..|s| - 1]) else s
  }

  /** `s.trim()`: the slice of `s` from its first to its last character that
      is not white space, or empty when there is none. */
  function Trim(s: string): (r: string)
    ensures var a := |s| - |TrimStart(s)|;
            a + |r| <= |s| && r == s[a..a + |r|] &&
            (forall i :: 0 <= i < a ==> IsWhiteSpace(s[i])) &&
            (forall i :: a + |r| <= i < |s| ==> IsWhiteSpace(s[i]))
    ensures r == [] || (!IsWhiteSpace(r[0]) && !IsWhiteSpace(r[|r| - 1]))
  {
    TrimEnd(TrimStart(s))
  }

  /** `!s.trim()`: the trimmed string is the empty string, the only falsy
      string. This holds exactly when every character of `s` is white space,
      so the empty string is blank too. */
  predicate IsBlank(s: string)
    ensures IsBlank(s) <==> forall i :: 0 <= i < |s| ==> IsWhiteSpace(s[i])
  {
    Trim(s) == ""
  }
}
