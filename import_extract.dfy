/**
 * The import extractor, `extract_import_values`: the module specifiers that one
 * line of JavaScript names, either every CommonJS `require('X')` in order or
 * else the single `X` of an ES `import ... from 'X'`.
 *
 * The two regular expressions are modelled by predicates on positions of the
 * line: `RequireAt` for `\brequire\s*\(["']([^"']+)` and `EsImportAt` for
 * `import.*\sfrom\s+["']([^"']+)`. `RequireMatches` is `re.finditer` of the
 * first, `SearchEsImport` is `re.search` of the second.
 */
module ImportExtract {
  import opened PyText
  import opened Wrappers

  /** A match of one of the two patterns: it begins at `start`, and its group 1
      is `line[group..end]`, which runs to the end of the match. */
  datatype Match = Match(start: nat, group: nat, end: nat)

  predicate WellPlaced(line: string, m: Match)
  {
    m.start < m.group < m.end <= |line|
  }

  /** `match.group(1)`. */
  function Group(line: string, m: Match): string
    requires WellPlaced(line, m)
  {
    line[m.group..m.end]
  }

  // ---------------------------------------------------------------------------
  // \brequire\s*\(["']([^"']+)

  /** The CommonJS pattern matches at `i`. The greedy `\s*` leaves nothing to
      backtrack over, since `(` is not whitespace, and neither does the final
      greedy `[^"']+`, since nothing follows it. */
  predicate RequireAt(line: string, i: nat)
    ensures RequireAt(line, i) ==> i + 10 <= |line|
  {
    && LiteralAt(line, i, "require")
    && WordStart(line, i)
    && var k := Span(line, i + 7, Space);
       k + 2 < |line| && line[k] == '(' && IsQuote(line[k + 1]) && !IsQuote(line[k + 2])
  }

  /** The match that the CommonJS pattern makes at `i`. */
  function RequireMatch(line: string, i: nat): (m: Match)
    requires RequireAt(line, i)
    ensures m.start == i && WellPlaced(line, m)
  {
    var g := Span(line, i + 7, Space) + 2;
    Match(i, g, Span(line, g, NonQuote))
  }

  /** `re.finditer` of the CommonJS pattern over `line[pos..]`: try each position
      from the left, and after a match go on from where it ended. */
  function RequireMatchesFrom(line: string, pos: nat): (ms: seq<Match>)
    requires pos <= |line|
    ensures forall k :: 0 <= k < |ms| ==> pos <= ms[k].start && WellPlaced(line, ms[k])
    decreases |line| - pos
  {
    if pos == |line| then []
    else if RequireAt(line, pos) then
      var m := RequireMatch(line, pos);
      [m] + RequireMatchesFrom(line, m.end)
    else
      RequireMatchesFrom(line, pos + 1)
  }

  /** Left to right, without overlap. */
  predicate Ordered(ms: seq<Match>)
  {
    forall k :: 0 <= k < |ms| - 1 ==> ms[k].end <= ms[k + 1].start
  }

  lemma OrderedCons(m: Match, rest: seq<Match>)
    requires Ordered(rest)
    requires rest != [] ==> m.end <= rest[0].start
    ensures Ordered([m] + rest)
  {
    var ms := [m] + rest;
    forall k | 0 <= k < |ms| - 1 ensures ms[k].end <= ms[k + 1].start {
      if k == 0 {
        assert ms[1] == rest[0];
      } else {
        assert ms[k] == rest[k - 1] && ms[k + 1] == rest[k];
      }
    }
  }

  lemma RequireMatchesSkip(line: string, pos: nat)
    requires pos < |line| && !RequireAt(line, pos)
    ensures RequireMatchesFrom(line, pos) == RequireMatchesFrom(line, pos + 1)
  {
  }

  lemma RequireMatchesStep(line: string, pos: nat)
    requires pos < |line| && RequireAt(line, pos)
    ensures var m := RequireMatch(line, pos);
      RequireMatchesFrom(line, pos) == [m] + RequireMatchesFrom(line, m.end)
  {
  }

  /** A stretch where the pattern never matches contributes nothing. */
  lemma {:induction false} RequireMatchesGap(line: string, pos: nat, q: nat)
    requires pos <= q <= |line|
    requires forall j: nat :: pos <= j < q ==> !RequireAt(line, j)
    ensures RequireMatchesFrom(line, pos) == RequireMatchesFrom(line, q)
    decreases q - pos
  {
    if pos < q {
      RequireMatchesSkip(line, pos);
      RequireMatchesGap(line, pos + 1, q);
    }
  }

  /** Every reported match is a match of the pattern where it starts. */
  lemma {:induction false} RequireMatchesSound(line: string, pos: nat)
    requires pos <= |line|
    ensures var ms := RequireMatchesFrom(line, pos);
      forall k :: 0 <= k < |ms| ==> RequireAt(line, ms[k].start) && ms[k] == RequireMatch(line, ms[k].start)
    decreases |line| - pos
  {
    if pos == |line| {
    } else if RequireAt(line, pos) {
      var m := RequireMatch(line, pos);
      RequireMatchesSound(line, m.end);
      RequireMatchesStep(line, pos);
      SoundCons(line, m, RequireMatchesFrom(line, m.end));
    } else {
      RequireMatchesSound(line, pos + 1);
      RequireMatchesSkip(line, pos);
    }
  }

  /** Prepending a genuine match to genuine matches keeps them genuine. */
  lemma SoundCons(line: string, m: Match, rest: seq<Match>)
    requires RequireAt(line, m.start) && m == RequireMatch(line, m.start)
    requires forall k :: 0 <= k < |rest| ==>
      RequireAt(line, rest[k].start) && rest[k] == RequireMatch(line, rest[k].start)
    ensures var ms := [m] + rest;
      forall k :: 0 <= k < |ms| ==> RequireAt(line, ms[k].start) && ms[k] == RequireMatch(line, ms[k].start)
  {
    var ms := [m] + rest;
    forall k | 0 <= k < |ms|
      ensures RequireAt(line, ms[k].start) && ms[k] == RequireMatch(line, ms[k].start)
    {
      if k > 0 {
        assert ms[k] == rest[k - 1];
      }
    }
  }

  /** The matches come left to right, without overlap. */
  lemma {:induction false} RequireMatchesOrdered(line: string, pos: nat)
    requires pos <= |line|
    ensures Ordered(RequireMatchesFrom(line, pos))
    decreases |line| - pos
  {
    if pos == |line| {
    } else if RequireAt(line, pos) {
      var m := RequireMatch(line, pos);
      RequireMatchesOrdered(line, m.end);
      OrderedCons(m, RequireMatchesFrom(line, m.end));
    } else {
      RequireMatchesOrdered(line, pos + 1);
      RequireMatchesSkip(line, pos);
    }
  }

  /** Position `q` lies inside one of the matches `ms`. */
  predicate Covers(ms: seq<Match>, q: nat)
  {
    exists k :: 0 <= k < |ms| && ms[k].start <= q < ms[k].end
  }

  /** No match is skipped: each position where the pattern matches lies inside
      one of the reported matches (it is a reported start, or it was passed over
      because an earlier match covered it). */
  lemma {:induction false} RequireMatchesComplete(line: string, pos: nat, q: nat)
    requires pos <= q < |line| && RequireAt(line, q)
    ensures Covers(RequireMatchesFrom(line, pos), q)
    decreases |line| - pos
  {
    if RequireAt(line, pos) {
      var m := RequireMatch(line, pos);
      RequireMatchesStep(line, pos);
      if m.end <= q {
        RequireMatchesComplete(line, m.end, q);
      }
      CoversCons(m, RequireMatchesFrom(line, m.end), q);
    } else {
      RequireMatchesComplete(line, pos + 1, q);
      RequireMatchesSkip(line, pos);
    }
  }

  /** A position inside `m`, or covered by `rest`, is covered by `[m] + rest`. */
  lemma CoversCons(m: Match, rest: seq<Match>, q: nat)
    requires m.start <= q < m.end || Covers(rest, q)
    ensures Covers([m] + rest, q)
  {
    var ms := [m] + rest;
    if m.start <= q < m.end {
      assert ms[0] == m;
    } else {
      var k :| 0 <= k < |rest| && rest[k].start <= q < rest[k].end;
      assert ms[k + 1] == rest[k];
    }
  }

  function RequireMatches(line: string): seq<Match>
  {
    RequireMatchesFrom(line, 0)
  }

  // ---------------------------------------------------------------------------
  // import.*\sfrom\s+["']([^"']+)

  /** `\sfrom\s+["']` followed by a non-quote, beginning at `j`. The greedy `\s+`
      cannot give anything back, since a quote is not whitespace. */
  predicate FromClauseAt(line: string, j: nat)
    ensures FromClauseAt(line, j) ==> j + 8 <= |line|
  {
    && j < |line| && IsSpace(line[j])
    && LiteralAt(line, j + 1, "from")
    && var k := Span(line, j + 5, Space);
       k > j + 5 && k + 1 < |line| && IsQuote(line[k]) && !IsQuote(line[k + 1])
  }

  /** The ES pattern matches at `i` with its `.*` ending at `j`. */
  predicate EsImportAt(line: string, i: nat, j: nat)
    ensures EsImportAt(line, i, j) ==> i + 14 <= |line|
  {
    && LiteralAt(line, i, "import")
    && i + 6 <= j <= |line|
    && NoNewline(line, i + 6, j)
    && FromClauseAt(line, j)
  }

  function EsImportMatch(line: string, i: nat, j: nat): (m: Match)
    requires EsImportAt(line, i, j)
    ensures m.start == i && WellPlaced(line, m)
  {
    var g := Span(line, j + 5, Space) + 1;
    Match(i, g, Span(line, g, NonQuote))
  }

  /** Backtracking of the greedy `.*`: the last `j` in `lo..hi` where the rest of
      the pattern matches. */
  function LastFromClause(line: string, lo: nat, hi: nat): (r: Option<nat>)
    requires lo <= hi <= |line|
    ensures r.Some? ==> lo <= r.value <= hi && FromClauseAt(line, r.value)
    ensures r.Some? ==> forall j :: r.value < j <= hi ==> !FromClauseAt(line, j)
    ensures r.None? ==> forall j :: lo <= j <= hi ==> !FromClauseAt(line, j)
    decreases hi - lo
  {
    if FromClauseAt(line, hi) then Some(hi)
    else if hi == lo then None
    else LastFromClause(line, lo, hi - 1)
  }

  /** `re.search` of the ES pattern over `line[pos..]`: the leftmost start `i`,
      and for it the longest `.*`, ending at `j`. */
  function SearchEsImportFrom(line: string, pos: nat): (r: Option<(nat, nat)>)
    requires pos <= |line|
    ensures r.Some? ==> pos <= r.value.0 && EsImportAt(line, r.value.0, r.value.1)
    ensures r.Some? ==> forall i, j :: pos <= i < r.value.0 ==> !EsImportAt(line, i, j)
    ensures r.Some? ==> forall j :: r.value.1 < j ==> !EsImportAt(line, r.value.0, j)
    ensures r.None? ==> forall i, j :: pos <= i ==> !EsImportAt(line, i, j)
    decreases |line| - pos
  {
    if pos + 6 > |line| then None
    else
      SpanRun(line, pos + 6, NonNewline);
      var hit :=
        if LiteralAt(line, pos, "import")
        then LastFromClause(line, pos + 6, Span(line, pos + 6, NonNewline))
        else None;
      if hit.Some? then Some((pos, hit.value)) else SearchEsImportFrom(line, pos + 1)
  }

  function SearchEsImport(line: string): (r: Option<Match>)
    ensures r.Some? ==> WellPlaced(line, r.value)
    ensures r.None? <==> forall i: nat, j: nat :: !EsImportAt(line, i, j)
  {
    match SearchEsImportFrom(line, 0)
    case Some((i, j)) => Some(EsImportMatch(line, i, j))
    case None => None
  }

  /** The match `re.search` reports is the one at the start and `.*` end found. */
  lemma SearchEsImportAt(line: string, i: nat, j: nat)
    requires SearchEsImportFrom(line, 0) == Some((i, j))
    ensures EsImportAt(line, i, j)
    ensures SearchEsImport(line) == Some(EsImportMatch(line, i, j))
  {
  }

  lemma EsImportMatchIs(line: string, i: nat, j: nat, g: nat, e: nat)
    requires EsImportAt(line, i, j)
    requires g == j + 7 && g <= e <= |line|
    requires IsSpace(line[j + 5]) && !IsSpace(line[j + 6])
    requires forall m :: g <= m < e ==> !IsQuote(line[m])
    requires e == |line| || IsQuote(line[e])
    ensures EsImportMatch(line, i, j) == Match(i, g, e)
  {
    SpanEnd(line, j + 5, Space, j + 6);
    SpanEnd(line, g, NonQuote, e);
  }

  // ---------------------------------------------------------------------------

  /** A specifier as the two patterns capture it: `[^"']+`. */
  predicate IsSpecifier(v: string)
  {
    |v| > 0 && forall p :: 0 <= p < |v| ==> !IsQuote(v[p])
  }

  /** The CommonJS capture is a specifier that runs from just after the opening
      quote up to the next quote of either kind, or to the end of the line. */
  lemma RequireGroupShape(line: string, i: nat)
    requires RequireAt(line, i)
    ensures var m := RequireMatch(line, i);
      && IsSpecifier(Group(line, m))
      && IsQuote(line[m.group - 1])
      && (m.end == |line| || IsQuote(line[m.end]))
  {
    SpanRun(line, RequireMatch(line, i).group, NonQuote);
  }

  /** Each CommonJS capture that finditer reports is a specifier. */
  lemma RequireMatchIsSpecifier(line: string, n: nat)
    requires n < |RequireMatches(line)|
    ensures IsSpecifier(Group(line, RequireMatches(line)[n]))
  {
    RequireMatchesSound(line, 0);
    assert RequireMatches(line) == RequireMatchesFrom(line, 0);
    RequireGroupShape(line, RequireMatches(line)[n].start);
  }

  /** The same for the ES capture. */
  lemma EsGroupShape(line: string, i: nat, j: nat)
    requires EsImportAt(line, i, j)
    ensures var m := EsImportMatch(line, i, j);
      && IsSpecifier(Group(line, m))
      && IsQuote(line[m.group - 1])
      && (m.end == |line| || IsQuote(line[m.end]))
  {
    SpanRun(line, EsImportMatch(line, i, j).group, NonQuote);
  }

  /** extract_import_values: all CommonJS specifiers in order when there is at
      least one; otherwise the ES specifier if there is one; otherwise none. */
  method ExtractImportValues(line: string) returns (values: seq<string>)
    ensures var ms := RequireMatches(line);
      |ms| > 0 ==> |values| == |ms| && forall k :: 0 <= k < |ms| ==> values[k] == Group(line, ms[k])
    ensures |RequireMatches(line)| == 0 ==>
      values == match SearchEsImport(line) case Some(m) => [Group(line, m)] case None => []
    ensures forall k :: 0 <= k < |values| ==> IsSpecifier(values[k])
  {
    var commonjs := RequireMatches(line);
    var commonjsValues := [];
    for n := 0 to |commonjs|
      invariant |commonjsValues| == n
      invariant forall k :: 0 <= k < n ==> commonjsValues[k] == Group(line, commonjs[k])
      invariant forall k :: 0 <= k < n ==> IsSpecifier(commonjsValues[k])
    {
      RequireMatchIsSpecifier(line, n);
      commonjsValues := commonjsValues + [Group(line, commonjs[n])];
    }
    if |commonjsValues| > 0 {
      return commonjsValues;
    }
    var es6import := SearchEsImport(line);
    if es6import.Some? {
      var (i, j) := SearchEsImportFrom(line, 0).value;
      EsGroupShape(line, i, j);
      return [Group(line, es6import.value)];
    }
    return [];
  }

  // ---------------------------------------------------------------------------

  /** The specifiers the inline assertions of js_import_resolve.py use
      (`canvas`, `asd-foo`, `./asd.js`, `../asd.js`, `./nested/asd.js`) have
      no whitespace and no `(`, besides being specifiers. */
  predicate PlainSpecifier(v: string)
  {
    IsSpecifier(v) && forall p :: 0 <= p < |v| ==> !IsSpace(v[p]) && v[p] != '('
  }

  /** `const { createCanvas } = require` + whitespace + `(` + quoted `v` + `);`,
      the form of the lines asserted at js_import_resolve.py:24-30. */
  function RequireLine(ws: string, q: char, v: string): string
  {
    "const { createCanvas } = require" + ws + "(" + [q] + v + [q] + ");"
  }

  /** Where the pieces of `RequireLine(ws, q, v)` sit in `line`. */
  predicate RequireLineShape(line: string, ws: string, q: char, v: string)
  {
    var g := 34 + |ws|;
    && |line| == g + |v| + 3
    && line[..32] == "const { createCanvas } = require"
    && line[32..32 + |ws|] == ws
    && line[32 + |ws|..g] == "(" + [q]
    && line[g..g + |v|] == v
    && line[g + |v|..] == [q] + ");"
  }

  lemma RequireLineHasShape(ws: string, q: char, v: string)
    ensures RequireLineShape(RequireLine(ws, q, v), ws, q, v)
  {
  }

  /** Nothing before position 25 of such a line starts `require`. */
  lemma RequireLinePrefix(line: string, ws: string, q: char, v: string)
    requires RequireLineShape(line, ws, q, v)
    ensures forall j: nat :: j < 25 ==> !RequireAt(line, j)
  {
    var p := line[..32];
    forall j: nat | j < 25 ensures !RequireAt(line, j) {
      assert line[j] == p[j] && line[j + 2] == p[j + 2];
      assert !LiteralAt(line, j, "require") by {
        if j == 9 {
          assert "require"[2] != line[j + 2];
        } else {
          assert "require"[0] != line[j];
        }
      }
    }
  }

  /** The one CommonJS match of such a line. */
  lemma RequireLineMatch(line: string, ws: string, q: char, v: string)
    requires RequireLineShape(line, ws, q, v)
    requires (forall p :: 0 <= p < |ws| ==> IsSpace(ws[p])) && IsQuote(q) && IsSpecifier(v)
    ensures var g := 34 + |ws|;
      RequireAt(line, 25) && RequireMatch(line, 25) == Match(25, g, g + |v|)
  {
    RequireLineHead(line, ws, q, v);
    RequireLineValue(line, ws, q, v);
  }

  /** `require`, the whitespace run, `(` and the quote of such a line. */
  lemma RequireLineHead(line: string, ws: string, q: char, v: string)
    requires RequireLineShape(line, ws, q, v)
    requires (forall p :: 0 <= p < |ws| ==> IsSpace(ws[p])) && IsQuote(q)
    ensures LiteralAt(line, 25, "require") && WordStart(line, 25)
    ensures Span(line, 32, Space) == 32 + |ws|
    ensures line[32 + |ws|] == '(' && IsQuote(line[33 + |ws|])
  {
    var g := 34 + |ws|;
    var p := line[..32];
    forall t | 0 <= t < 7 ensures line[25 + t] == "require"[t] {
      assert line[25 + t] == p[25 + t];
    }
    assert line[24] == p[24] == ' ';
    forall m | 32 <= m < 32 + |ws| ensures InClass(line[m], Space) {
      assert line[m] == line[32..32 + |ws|][m - 32];
    }
    assert line[32 + |ws|] == line[32 + |ws|..g][0];
    assert line[33 + |ws|] == line[32 + |ws|..g][1];
    SpanEnd(line, 32, Space, 32 + |ws|);
  }

  /** The specifier of such a line is the greedy non-quote run after the quote. */
  lemma RequireLineValue(line: string, ws: string, q: char, v: string)
    requires RequireLineShape(line, ws, q, v)
    requires IsQuote(q) && IsSpecifier(v)
    ensures var g := 34 + |ws|;
      !IsQuote(line[g]) && Span(line, g, NonQuote) == g + |v|
  {
    var g := 34 + |ws|;
    forall m | g <= m < g + |v| ensures InClass(line[m], NonQuote) {
      assert line[m] == line[g..g + |v|][m - g];
      assert line[m] == v[m - g];
      assert !IsQuote(v[m - g]);
    }
    assert line[g + |v|] == line[g + |v|..][0];
    SpanEnd(line, g, NonQuote, g + |v|);
  }

  /** The CommonJS matches of a line of that shape. */
  lemma RequireLineShapeMatches(line: string, ws: string, q: char, v: string)
    requires RequireLineShape(line, ws, q, v)
    requires (forall p :: 0 <= p < |ws| ==> IsSpace(ws[p])) && IsQuote(q) && IsSpecifier(v)
    ensures var ms := RequireMatches(line);
      |ms| == 1 && Group(line, ms[0]) == v
  {
    var g := 34 + |ws|;
    RequireLinePrefix(line, ws, q, v);
    RequireLineMatch(line, ws, q, v);
    RequireMatchesGap(line, 0, 25);
    RequireMatchesStep(line, 25);
    RequireMatchesGap(line, g + |v|, |line|);
  }

  /** The lines asserted at js_import_resolve.py:24-30, for every run of
      whitespace before `(`, both quotes and every specifier: the one
      CommonJS capture is the specifier. */
  lemma RequireLineExample(ws: string, q: char, v: string)
    requires (forall p :: 0 <= p < |ws| ==> IsSpace(ws[p])) && IsQuote(q) && IsSpecifier(v)
    ensures var line, ms := RequireLine(ws, q, v), RequireMatches(RequireLine(ws, q, v));
      |ms| == 1 && Group(line, ms[0]) == v
  {
    RequireLineHasShape(ws, q, v);
    RequireLineShapeMatches(RequireLine(ws, q, v), ws, q, v);
  }

  /** `const foo = require('a'); const yay = require('b');`, the form of the
      line asserted at js_import_resolve.py:32. */
  function TwoRequireLine(a: string, b: string): string
  {
    "const foo = require('" + a + "'); const yay = require('" + b + "');"
  }

  /** Where the pieces of `TwoRequireLine(a, b)` sit in `line`. */
  predicate TwoRequireShape(line: string, a: string, b: string)
  {
    var e1 := 21 + |a|;
    && |line| == e1 + 28 + |b|
    && line[..21] == "const foo = require('"
    && line[21..e1] == a
    && line[e1..e1 + 25] == "'); const yay = require('"
    && line[e1 + 25..e1 + 25 + |b|] == b
    && line[e1 + 25 + |b|..] == "');"
  }

  lemma TwoRequireLineShape(a: string, b: string)
    ensures TwoRequireShape(TwoRequireLine(a, b), a, b)
  {
  }

  /** The first CommonJS match of such a line, and nothing before it. */
  lemma TwoRequireLineFirst(line: string, a: string, b: string)
    requires TwoRequireShape(line, a, b) && IsSpecifier(a)
    ensures RequireAt(line, 12) && RequireMatch(line, 12) == Match(12, 21, 21 + |a|)
    ensures forall j: nat :: j < 12 ==> !RequireAt(line, j)
  {
    var p := line[..21];
    forall t | 0 <= t < 21 ensures line[t] == p[t] { }
    forall t | 0 <= t < |a| ensures line[21 + t] == a[t] {
      assert line[21..21 + |a|][t] == line[21 + t];
    }
    assert LiteralAt(line, 12, "require");
    assert line[21 + |a|] == line[21 + |a|..46 + |a|][0] == '\'';
    SpanEnd(line, 19, Space, 19);
    SpanEnd(line, 21, NonQuote, 21 + |a|);
    forall j: nat | j < 12 ensures !RequireAt(line, j) {
      assert !LiteralAt(line, j, "require") by {
        assert "require"[0] != line[j];
      }
    }
  }

  /** The second CommonJS match of such a line, and nothing between the two. */
  lemma TwoRequireLineSecond(line: string, a: string, b: string)
    requires TwoRequireShape(line, a, b) && IsSpecifier(b)
    ensures var e1 := 21 + |a|;
      && RequireAt(line, e1 + 16) && RequireMatch(line, e1 + 16) == Match(e1 + 16, e1 + 25, e1 + 25 + |b|)
      && (forall j: nat :: e1 <= j < e1 + 16 ==> !RequireAt(line, j))
  {
    var e1 := 21 + |a|;
    var e2 := e1 + 25 + |b|;
    var m := line[e1..e1 + 25];
    assert m == "'); const yay = require('";
    forall t | 0 <= t < 7 ensures line[e1 + 16 + t] == "require"[t] {
      assert line[e1 + 16 + t] == m[16 + t];
    }
    assert LiteralAt(line, e1 + 16, "require");
    assert line[e1 + 23] == m[23] && line[e1 + 24] == m[24];
    assert line[e1 + 15] == m[15] == ' ';
    assert WordStart(line, e1 + 16);
    SpanEnd(line, e1 + 23, Space, e1 + 23);
    assert line[e1 + 25] == b[0];
    SpanEnd(line, e1 + 25, NonQuote, e2);
    forall j: nat | e1 <= j < e1 + 16 ensures !RequireAt(line, j) {
      assert line[j] == m[j - e1];
      assert !LiteralAt(line, j, "require") by {
        assert "require"[0] != line[j];
      }
    }
  }

  /** The CommonJS matches of a line of that shape. */
  lemma TwoRequireShapeMatches(line: string, a: string, b: string)
    requires TwoRequireShape(line, a, b) && IsSpecifier(a) && IsSpecifier(b)
    ensures var ms := RequireMatches(line);
      |ms| == 2 && Group(line, ms[0]) == a && Group(line, ms[1]) == b
  {
    var e1 := 21 + |a|;
    var e2 := e1 + 25 + |b|;
    TwoRequireLineFirst(line, a, b);
    TwoRequireLineSecond(line, a, b);
    RequireMatchesGap(line, 0, 12);
    RequireMatchesStep(line, 12);
    RequireMatchesGap(line, e1, e1 + 16);
    RequireMatchesStep(line, e1 + 16);
    RequireMatchesGap(line, e2, |line|);
  }

  /** The line asserted at js_import_resolve.py:32, for every two specifiers:
      both are captured, in order, even though a specifier may itself contain
      `require(`, since the scan resumes after each match. */
  lemma TwoRequiresExample(a: string, b: string)
    requires IsSpecifier(a) && IsSpecifier(b)
    ensures var line, ms := TwoRequireLine(a, b), RequireMatches(TwoRequireLine(a, b));
      |ms| == 2 && Group(line, ms[0]) == a && Group(line, ms[1]) == b
  {
    TwoRequireLineShape(a, b);
    TwoRequireShapeMatches(TwoRequireLine(a, b), a, b);
  }

  /** `import { createCanvas } from ` + quoted `v` + `;`, the form of the lines
      asserted at js_import_resolve.py:34-40. */
  function EsImportLine(q: char, v: string): string
  {
    "import { createCanvas } from " + [q] + v + [q] + ";"
  }

  /** Where the pieces of `EsImportLine(q, v)` sit in `line`. */
  predicate EsImportShape(line: string, q: char, v: string)
  {
    && |line| == 32 + |v|
    && line[..30] == "import { createCanvas } from " + [q]
    && line[30..30 + |v|] == v
    && line[30 + |v|..] == [q] + ";"
  }

  lemma EsImportLineHasShape(q: char, v: string)
    ensures EsImportShape(EsImportLine(q, v), q, v)
  {
  }

  /** Each character of such a line is a character of its prefix, of the
      specifier, or of its suffix. */
  lemma EsImportShapeChars(line: string, q: char, v: string)
    requires EsImportShape(line, q, v)
    ensures forall m :: 0 <= m < 30 ==> line[m] == line[..30][m]
    ensures forall m :: 30 <= m < 30 + |v| ==> line[m] == v[m - 30]
    ensures line[30 + |v|] == q && line[31 + |v|] == ';'
  {
    forall m | 30 <= m < 30 + |v| ensures line[m] == v[m - 30] {
      assert line[m] == line[30..30 + |v|][m - 30];
    }
    assert line[30 + |v|..][0] == q && line[30 + |v|..][1] == ';';
  }

  /** Such a line has no `(`, so the CommonJS pattern never matches in it. */
  lemma EsImportLineNoRequire(line: string, q: char, v: string)
    requires EsImportShape(line, q, v) && IsQuote(q) && PlainSpecifier(v)
    ensures RequireMatches(line) == []
  {
    EsImportShapeChars(line, q, v);
    var p := line[..30];
    forall m | 0 <= m < |line| ensures line[m] != '(' {
      if m < 30 {
        assert line[m] == p[m];
      }
    }
    RequireMatchesGap(line, 0, |line|);
  }

  /** The only place where `\sfrom\s+["']` and a non-quote follow is the space
      before `from`. */
  lemma EsImportLineClause(line: string, q: char, v: string)
    requires EsImportShape(line, q, v) && IsQuote(q) && PlainSpecifier(v)
    ensures FromClauseAt(line, 23)
    ensures forall j: nat :: 23 < j <= |line| ==> !FromClauseAt(line, j)
  {
    EsImportShapeChars(line, q, v);
    var p := line[..30];
    forall t | 0 <= t < 4 ensures line[24 + t] == "from"[t] {
      assert line[24 + t] == p[24 + t];
    }
    assert LiteralAt(line, 24, "from");
    assert line[23] == p[23] && line[28] == p[28] && line[29] == p[29];
    SpanEnd(line, 28, Space, 29);
    forall j: nat | 23 < j <= |line| ensures !FromClauseAt(line, j) {
      if j < 30 {
        assert line[j] == p[j];
        if j == 28 {
          assert line[29] != "from"[0];
        }
      }
    }
  }

  /** The `.*` after `import` can reach the end of the line. */
  lemma EsImportLineOneLine(line: string, q: char, v: string)
    requires EsImportShape(line, q, v) && IsQuote(q) && PlainSpecifier(v)
    ensures Span(line, 6, NonNewline) == |line|
  {
    EsImportShapeChars(line, q, v);
    var p := line[..30];
    forall m | 6 <= m < |line| ensures line[m] != '\n' {
      if m < 30 {
        assert line[m] == p[m];
      }
    }
    SpanEnd(line, 6, NonNewline, |line|);
  }

  /** What the extractor sees in a line of that shape. */
  lemma EsImportShapeMatch(line: string, q: char, v: string)
    requires EsImportShape(line, q, v) && IsQuote(q) && PlainSpecifier(v)
    ensures RequireMatches(line) == []
    ensures SearchEsImport(line) == Some(Match(0, 30, 30 + |v|))
    ensures Group(line, Match(0, 30, 30 + |v|)) == v
  {
    EsImportLineNoRequire(line, q, v);
    EsImportLineClause(line, q, v);
    EsImportLineOneLine(line, q, v);
    EsImportShapeChars(line, q, v);
    var p := line[..30];
    forall t | 0 <= t < 6 ensures line[t] == "import"[t] {
      assert line[t] == p[t];
    }
    assert LiteralAt(line, 0, "import");
    assert LastFromClause(line, 6, |line|) == Some(23);
    assert SearchEsImportFrom(line, 0) == Some((0, 23));
    SearchEsImportAt(line, 0, 23);
    assert line[28] == p[28] && line[29] == p[29];
    EsImportMatchIs(line, 0, 23, 30, 30 + |v|);
  }

  /** The lines asserted at js_import_resolve.py:34-40, for both quotes and
      every specifier without whitespace or `(`: there is no CommonJS match,
      and the ES capture is the specifier. */
  lemma EsImportExample(q: char, v: string)
    requires IsQuote(q) && PlainSpecifier(v)
    ensures var line := EsImportLine(q, v);
      && RequireMatches(line) == []
      && SearchEsImport(line).Some?
      && Group(line, SearchEsImport(line).value) == v
  {
    EsImportLineHasShape(q, v);
    EsImportShapeMatch(EsImportLine(q, v), q, v);
  }
}
