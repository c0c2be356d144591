/**
 * The autocomplete trigger detector, `should_do_autocomplete`: whether the text
 * before the cursor contains, before its first newline, an open `require('` or
 * `from '` followed by at least one word character, so that completion
 * candidates should be offered.
 *
 * The two patterns are tried with `re.match`, anchored at the start of the
 * text: `.*\brequire\s*\(['"]\w` and `.*\bfrom\s* ['"]\w`. The leading `.*`
 * lets the rest begin anywhere before the first newline.
 */
module Autocomplete {
  import opened PyText

  datatype Trigger =
    | RequireCall  // \brequire\s*\(['"]\w
    | FromClause   // \bfrom\s* ['"]\w

  /** `\brequire\s*\(['"]\w` matches at `i`. */
  predicate RequireTriggerAt(s: string, i: nat)
    ensures RequireTriggerAt(s, i) ==> i + 10 <= |s|
  {
    && LiteralAt(s, i, "require")
    && WordStart(s, i)
    && var k := Span(s, i + 7, Space);
       k + 2 < |s| && s[k] == '(' && IsQuote(s[k + 1]) && IsWordChar(s[k + 2])
  }

  /** `\bfrom\s* ['"]\w` matches at `i`: the greedy `\s*` has to give back one
      character, which must be the literal space, so the whitespace after
      `from` is non-empty and ends in a space. */
  predicate FromTriggerAt(s: string, i: nat)
    ensures FromTriggerAt(s, i) ==> i + 7 <= |s|
  {
    && LiteralAt(s, i, "from")
    && WordStart(s, i)
    && var e := Span(s, i + 4, Space);
       e > i + 4 && s[e - 1] == ' ' && e + 1 < |s| && IsQuote(s[e]) && IsWordChar(s[e + 1])
  }

  predicate TriggerAt(s: string, i: nat, t: Trigger)
  {
    match t
    case RequireCall => RequireTriggerAt(s, i)
    case FromClause => FromTriggerAt(s, i)
  }

  /** `re.match('.*' + t, s)`, trying the places from `pos` on: the pattern must
      start before the first newline. */
  function MatchFrom(s: string, pos: nat, t: Trigger): (r: bool)
    requires pos <= |s| && NoNewline(s, 0, pos)
    ensures r <==> exists i: nat :: pos <= i <= |s| && NoNewline(s, 0, i) && TriggerAt(s, i, t)
    decreases |s| - pos
  {
    if TriggerAt(s, pos, t) then true
    else if pos == |s| || s[pos] == '\n' then false
    else MatchFrom(s, pos + 1, t)
  }

  /** should_do_autocomplete. */
  function ShouldDoAutocomplete(line: string): (r: bool)
    ensures r <==> exists i: nat ::
                     i <= |line| && NoNewline(line, 0, i) &&
                     (RequireTriggerAt(line, i) || FromTriggerAt(line, i))
  {
    MatchFrom(line, 0, RequireCall) || MatchFrom(line, 0, FromClause)
  }

  /** The `from` rule read directly off the pattern: some amount of whitespace,
      then a literal space, then a quote and a word character. */
  predicate FromSplitAt(s: string, i: nat, m: nat)
  {
    && LiteralAt(s, i, "from")
    && WordStart(s, i)
    && i + 4 <= m && m + 2 < |s|
    && (forall p :: i + 4 <= p < m ==> IsSpace(s[p]))
    && s[m] == ' ' && IsQuote(s[m + 1]) && IsWordChar(s[m + 2])
  }

  /** The backtracking analysis of `\s* ` is right: the greedy reading agrees
      with the pattern's plain meaning. */
  lemma FromTriggerIff(s: string, i: nat)
    ensures FromTriggerAt(s, i) <==> exists m: nat :: FromSplitAt(s, i, m)
  {
    if LiteralAt(s, i, "from") {
      var e := Span(s, i + 4, Space);
      SpanRun(s, i + 4, Space);
      if FromTriggerAt(s, i) {
        assert FromSplitAt(s, i, e - 1);
      }
      if m: nat :| FromSplitAt(s, i, m) {
        assert m + 1 == e;
      }
    }
  }

  /** The false cases among the inline assertions of js_import_resolve.py:
      no text shorter than a whole trigger can start a completion. */
  lemma NoTriggerExamples()
    ensures !ShouldDoAutocomplete("")
    ensures !ShouldDoAutocomplete("foo")
    ensures !ShouldDoAutocomplete("require")
    ensures !ShouldDoAutocomplete("from")
  {
    forall i: nat | i <= 7 ensures !RequireTriggerAt("require", i) && !FromTriggerAt("require", i) {
      if i == 0 { assert Span("require", 7, Space) == 7; }
    }
    forall i: nat | i <= 4 ensures !RequireTriggerAt("from", i) && !FromTriggerAt("from", i) {
      if i == 0 { assert Span("from", 4, Space) == 4; }
    }
  }

  /** The `require` cases among the inline assertions of js_import_resolve.py. */
  lemma RequireTriggerExamples()
    ensures ShouldDoAutocomplete("var asd = require(\"a")
    ensures ShouldDoAutocomplete("var asd = require('a")
  {
    var r1, r2 := "var asd = require(\"a", "var asd = require('a";
    assert LiteralAt(r1, 10, "require") && LiteralAt(r2, 10, "require");
    assert Span(r1, 17, Space) == 17 && Span(r2, 17, Space) == 17;
    assert RequireTriggerAt(r1, 10) && NoNewline(r1, 0, 10);
    assert RequireTriggerAt(r2, 10) && NoNewline(r2, 0, 10);
  }

  /** The `from` cases among the inline assertions of js_import_resolve.py. */
  lemma FromTriggerExamples()
    ensures ShouldDoAutocomplete("import asd from \"a")
    ensures ShouldDoAutocomplete("import asd from 'a")
  {
    var f1, f2 := "import asd from \"a", "import asd from 'a";
    assert LiteralAt(f1, 11, "from") && LiteralAt(f2, 11, "from");
    assert Span(f1, 15, Space) == 16 && Span(f2, 15, Space) == 16;
    assert FromTriggerAt(f1, 11) && NoNewline(f1, 0, 11);
    assert FromTriggerAt(f2, 11) && NoNewline(f2, 0, 11);
  }
}
