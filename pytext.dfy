/**
 * Character classes and scanning helpers shared by the hand-written matchers
 * that stand for the resolver's regular expressions.
 *
 * `\s` is Python's whitespace class for str patterns (the characters for which
 * `str.isspace()` holds), written out in full. `\w` is approximated by the ASCII
 * letters, digits and `_`. `.` is any character except a newline.
 */
module PyText {

  /** Python's `\s` on str patterns. */
  predicate IsSpace(c: char)
  {
    || ('\t' <= c <= '\r')
    || ('\U{1c}' <= c <= '\U{1f}')
    || c == ' '
    || c == '\U{85}'
    || c == '\U{a0}'
    || c == '\U{1680}'
    || ('\U{2000}' <= c <= '\U{200a}')
    || c == '\U{2028}'
    || c == '\U{2029}'
    || c == '\U{202f}'
    || c == '\U{205f}'
    || c == '\U{3000}'
  }

  /** `\w`, restricted to ASCII. */
  predicate IsWordChar(c: char)
  {
    ('a' <= c <= 'z') || ('A' <= c <= 'Z') || ('0' <= c <= '9') || c == '_'
  }

  /** The character class `["']`. */
  predicate IsQuote(c: char)
  {
    c == '\'' || c == '"'
  }

  /** The character classes that the patterns repeat with `*` or `+`. */
  datatype CharClass =
    | Space       // \s
    | NonQuote    // [^"']
    | NonNewline  // .
    | NonSlash    // [^/]

  predicate InClass(c: char, cls: CharClass)
  {
    match cls
    case Space => IsSpace(c)
    case NonQuote => !IsQuote(c)
    case NonNewline => c != '\n'
    case NonSlash => c != '/'
  }

  /** The end of the longest run of `cls` characters of `s` that starts at `k`:
      where a greedy `cls*` starting at `k` stops. That the run consists of
      `cls` characters is `SpanRun`. */
  function Span(s: string, k: nat, cls: CharClass): (e: nat)
    requires k <= |s|
    ensures k <= e <= |s|
    ensures e == |s| || !InClass(s[e], cls)
    decreases |s| - k
  {
    if k == |s| || !InClass(s[k], cls) then k else Span(s, k + 1, cls)
  }

  /** Every character of `s[k..Span(s, k, cls)]` is in `cls`. */
  lemma {:induction false} SpanRun(s: string, k: nat, cls: CharClass)
    requires k <= |s|
    ensures forall m :: k <= m < Span(s, k, cls) ==> InClass(s[m], cls)
    decreases |s| - k
  {
    if k < |s| && InClass(s[k], cls) {
      SpanRun(s, k + 1, cls);
    }
  }

  /** A run of `cls` characters from `k` to `e` that stops at `e` is the span:
      the greedy scan ends exactly there. */
  lemma {:induction false} SpanEnd(s: string, k: nat, cls: CharClass, e: nat)
    requires k <= e <= |s|
    requires forall m :: k <= m < e ==> InClass(s[m], cls)
    requires e == |s| || !InClass(s[e], cls)
    ensures Span(s, k, cls) == e
    decreases e - k
  {
    if k < e {
      SpanEnd(s, k + 1, cls, e);
    }
  }

  /** `\b` at position `i` of `s`, in the only situation the patterns use it:
      in front of a word character `s[i]`, where a boundary means that nothing
      or a non-word character precedes it. */
  predicate WordStart(s: string, i: nat)
    requires i <= |s|
  {
    i == 0 || !IsWordChar(s[i - 1])
  }

  /** The literal `w` occurs in `s` at position `i`. */
  predicate LiteralAt(s: string, i: nat, w: string)
  {
    i + |w| <= |s| && forall t :: 0 <= t < |w| ==> w[t] == s[i + t]
  }

  /** `s.endswith(suffix)`. */
  predicate EndsWith(s: string, suffix: string)
  {
    |suffix| <= |s| && s[|s| - |suffix|..] == suffix
  }

  /** No newline occurs in `s[lo..hi]`: a `.*` can span it. */
  predicate NoNewline(s: string, lo: nat, hi: nat)
    requires lo <= hi <= |s|
  {
    forall m :: lo <= m < hi ==> s[m] != '\n'
  }
}
