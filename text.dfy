/** Text handling the tracker relies on: ECMAScript's String.prototype.trim,
    which the form handlers apply to task and list names. */
module Text {

  /** The characters ECMAScript counts as WhiteSpace or LineTerminator:
      TAB, LF, VT, FF, CR, the Unicode space separators (category Zs),
      LINE SEPARATOR, PARAGRAPH SEPARATOR and the byte-order mark. */
  predicate IsWhiteSpace(c: char)
  {
    || c == '\t' || c == '\n' || c == '\U{000B}' || c == '\U{000C}' || c == '\r'
    || c == ' ' || c == '\U{00A0}' || c == '\U{1680}'
    || ('\U{2000}' <= c <= '\U{200A}')
    || c == '\U{2028}' || c == '\U{2029}' || c == '\U{202F}' || c == '\U{205F}'
    || c == '\U{3000}' || c == '\U{FEFF}'
  }

  /** Number of white-space characters at the start of `s`. */
  function LeadingSpace(s: string): (n: nat)
    ensures n <= |s|
    ensures forall k :: 0 <= k < n ==> IsWhiteSpace(s[k])
    ensures n < |s| ==> !IsWhiteSpace(s[n])
  {
    if s == [] || !IsWhiteSpace(s[0]) then 0 else 1 + LeadingSpace(s[1..])
  }

  /** Length of `s` once its trailing white space is dropped. */
  function TrailingStart(s: string): (n: nat)
    ensures n <= |s|
    ensures forall k :: n <= k < |s| ==> IsWhiteSpace(s[k])
    ensures n > 0 ==> !IsWhiteSpace(s[n - 1])
  {
    if s == [] || !IsWhiteSpace(s[|s| - 1]) then |s| else TrailingStart(s[..|s| - 1])
  }

  /** String.prototype.trim: `s` without its leading and trailing white space.
      The result is the contiguous middle of `s` left once white space is
      cut from both ends, and it neither starts nor ends with white space. */
  function Trim(s: string): (r: string)
    ensures exists a, b ::
              && 0 <= a <= b <= |s| && r == s[a..b]
              && (forall k :: 0 <= k < a ==> IsWhiteSpace(s[k]))
              && (forall k :: b <= k < |s| ==> IsWhiteSpace(s[k]))
    ensures r == [] <==> forall k :: 0 <= k < |s| ==> IsWhiteSpace(s[k])
    ensures r != [] ==> !IsWhiteSpace(r[0]) && !IsWhiteSpace(r[|r| - 1])
  {
    var a := LeadingSpace(s);
    var rest := s[a..];
    var b := TrailingStart(rest);
    assert rest[..b] == s[a..a + b];
    assert forall k :: a + b <= k < |s| ==> s[k] == rest[k - a];
    assert b > 0 ==> rest[0] == s[a];
    rest[..b]
  }

  /** Trimming is idempotent: a trimmed name is left alone by a second trim. */
  lemma TrimIdempotent(s: string)
    ensures Trim(Trim(s)) == Trim(s)
  {
  }
}
