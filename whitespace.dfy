/** The part of JavaScript's `String.prototype.trim` that the todo list relies on:
    removing leading and trailing white space and line terminators, and deciding
    whether an input is blank. */
module Whitespace {

  /** WhiteSpace (section 12.2 of ECMA-262): TAB, VT, FF, ZWNBSP and the Unicode
      space separators (category Zs). */
  const WhiteSpaceChars: set<char> := {
    '\t', '\U{000B}', '\U{000C}', '\U{FEFF}',
    ' ', '\U{00A0}', '\U{1680}',
    '\U{2000}', '\U{2001}', '\U{2002}', '\U{2003}', '\U{2004}', '\U{2005}',
    '\U{2006}', '\U{2007}', '\U{2008}', '\U{2009}', '\U{200A}',
    '\U{202F}', '\U{205F}', '\U{3000}'
  }

  /** LineTerminator (section 12.3 of ECMA-262): LF, CR, LINE SEPARATOR and
      PARAGRAPH SEPARATOR. */
  const LineTerminatorChars: set<char> := {'\n', '\r', '\U{2028}', '\U{2029}'}

  /** The code points `trim` removes from either end of a string. */
  predicate IsWs(c: char) {
    c in WhiteSpaceChars || c in LineTerminatorChars
  }

  /** A string that trims to the empty string: empty, or white space only. */
  predicate IsBlank(s: string) {
    forall k :: 0 <= k < |s| ==> IsWs(s[k])
  }

  /** `s` without its leading white space: a suffix of `s` that is empty or starts
      with a non-white-space character, and everything cut off is white space. */
  function TrimStart(s: string): (r: string)
    ensures |r| <= |s| && r == s[|s| - |r|..]
    ensures forall k :: 0 <= k < |s| - |r| ==> IsWs(s[k])
    ensures r == [] || !IsWs(r[0])
  {
    if |s| > 0 && IsWs(s[0]) then TrimStart(s[1..]) else s
  }

  /** `s` without its trailing white space: a prefix of `s` that is empty or ends
      with a non-white-space character, and everything cut off is white space. */
  function TrimEnd(s: string): (r: string)
    ensures |r| <= |s| && r == s[..|r|]
    ensures forall k :: |r| <= k < |s| ==> IsWs(s[k])
    ensures r == [] || !IsWs(r[|r| - 1])
  {
    if |s| > 0 && IsWs(s[|s| - 1]) then TrimEnd(s[..|s| - 1]) else s
  }

  /** `String.prototype.trim`: the infix of `s` left once the leading white space
      (what `TrimStart` drops) and then the trailing white space are cut off. It
      is empty exactly when `s` is blank; otherwise it neither starts nor ends
      with white space. */
  function Trim(s: string): (r: string)
    ensures |r| <= |TrimStart(s)| && r == s[|s| - |TrimStart(s)|..][..|r|]
    ensures forall k :: |r| <= k < |TrimStart(s)| ==> IsWs(TrimStart(s)[k])
    ensures r == [] || (!IsWs(r[0]) && !IsWs(r[|r| - 1]))
    ensures r == [] <==> IsBlank(s)
  {
    var t := TrimStart(s);
    BlankSplit(s, |s| - |t|);
    BlankIffTrimEndEmpty(t);
    BlankIffTrimStartEmpty(s);
    TrimEnd(t)
  }

  /** A string is blank exactly when both of its parts around `k` are. */
  lemma BlankSplit(s: string, k: nat)
    requires k <= |s|
    ensures IsBlank(s) <==> IsBlank(s[..k]) && IsBlank(s[k..])
  {
  }

  /** Only a blank string loses everything to `TrimStart`. */
  lemma BlankIffTrimStartEmpty(s: string)
    ensures TrimStart(s) == [] <==> IsBlank(s)
  {
  }

  /** Only a blank string loses everything to `TrimEnd`. */
  lemma BlankIffTrimEndEmpty(s: string)
    ensures TrimEnd(s) == [] <==> IsBlank(s)
  {
  }
}
