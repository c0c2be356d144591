/**
 * The path normalizer, `clean_path`: two textual rewrites applied one after the
 * other, `re.sub(r'/\./', '/', path)` and then `re.sub(r'/[^/]+/\.\./', '/', path)`.
 * Each is a single left-to-right pass that replaces the non-overlapping
 * occurrences of its pattern; neither is repeated until nothing changes.
 */
module CleanPath {
  import opened PyText

  /** The two patterns. */
  datatype Rule =
    | Dot     // /\./
    | Parent  // /[^/]+/\.\./

  /** Length of the match of `rule` at position `i` of `s`, or 0 when it does not
      match there. For `Parent`, the greedy `[^/]+` has nothing to give back,
      since the next character must be `/`. */
  function MatchLength(s: string, i: nat, rule: Rule): (n: nat)
    requires i <= |s|
    ensures n == 0 || (3 <= n && i + n <= |s|)
  {
    if i == |s| || s[i] != '/' then 0
    else match rule
      case Dot =>
        if i + 3 <= |s| && s[i + 1] == '.' && s[i + 2] == '/' then 3 else 0
      case Parent =>
        var k := Span(s, i + 1, NonSlash);
        if k > i + 1 && k + 4 <= |s| && s[k] == '/' && s[k + 1] == '.' && s[k + 2] == '.' && s[k + 3] == '/'
        then k + 4 - i
        else 0
  }

  predicate MatchAt(s: string, i: nat, rule: Rule)
  {
    i <= |s| && MatchLength(s, i, rule) > 0
  }

  /** `re.sub(pattern, '/', s[pos..])`: scan from the left; at a match emit `/`
      and resume after it, otherwise keep the character. */
  function SubFrom(s: string, pos: nat, rule: Rule): (r: string)
    requires pos <= |s|
    ensures |r| <= |s| - pos
    decreases |s| - pos
  {
    if pos == |s| then ""
    else if MatchAt(s, pos, rule) then "/" + SubFrom(s, pos + MatchLength(s, pos, rule), rule)
    else [s[pos]] + SubFrom(s, pos + 1, rule)
  }

  function Sub(s: string, rule: Rule): string
  {
    SubFrom(s, 0, rule)
  }

  /** clean_path. */
  function Clean(path: string): (r: string)
    ensures |r| <= |path|
  {
    Sub(Sub(path, Dot), Parent)
  }

  // ---------------------------------------------------------------------------
  // What one substitution pass does: nothing where the pattern does not occur,
  // and at the leftmost occurrence, the replacement followed by a fresh pass
  // over the rest. Together these two determine the pass completely.

  /** Where the pattern does not occur, the pass copies the text. */
  lemma {:induction false} SubNoMatch(s: string, pos: nat, rule: Rule)
    requires pos <= |s|
    requires forall i: nat :: pos <= i ==> !MatchAt(s, i, rule)
    ensures SubFrom(s, pos, rule) == s[pos..]
    decreases |s| - pos
  {
    if pos < |s| {
      assert !MatchAt(s, pos, rule);
      SubNoMatch(s, pos + 1, rule);
    }
  }

  /** Where the pattern does not match, the pass keeps the character. */
  lemma SubKeep(s: string, pos: nat, rule: Rule)
    requires pos < |s| && !MatchAt(s, pos, rule)
    ensures SubFrom(s, pos, rule) == [s[pos]] + SubFrom(s, pos + 1, rule)
  {
  }

  /** Where the pattern does not occur between `pos` and `i`, the pass copies
      that stretch and carries on from `i`. */
  lemma {:induction false} SubSkip(s: string, pos: nat, i: nat, rule: Rule)
    requires pos <= i <= |s|
    requires forall j: nat :: pos <= j < i ==> !MatchAt(s, j, rule)
    ensures SubFrom(s, pos, rule) == s[pos..i] + SubFrom(s, i, rule)
    decreases i - pos
  {
    if pos < i {
      var rest := SubFrom(s, i, rule);
      SubKeep(s, pos, rule);
      SubSkip(s, pos + 1, i, rule);
      ConsSlice(s, pos, i, rest);
    } else {
      assert s[pos..i] == "";
    }
  }

  lemma ConsSlice(s: string, pos: nat, i: nat, rest: string)
    requires pos < i <= |s|
    ensures [s[pos]] + (s[pos + 1..i] + rest) == s[pos..i] + rest
  {
    assert [s[pos]] + s[pos + 1..i] == s[pos..i];
  }

  /** The text before the leftmost occurrence is kept verbatim, the occurrence
      becomes `/`, and the pass resumes right after it. */
  lemma SubFirstMatch(s: string, pos: nat, i: nat, rule: Rule)
    requires pos <= i && MatchAt(s, i, rule)
    requires forall j: nat :: pos <= j < i ==> !MatchAt(s, j, rule)
    ensures SubFrom(s, pos, rule) == s[pos..i] + "/" + SubFrom(s, i + MatchLength(s, i, rule), rule)
  {
    SubSkip(s, pos, i, rule);
  }

  /** A pass never lengthens the text, and it shortens it when the pattern
      occurs: each replaced occurrence of at least three characters becomes one. */
  lemma {:induction false} SubShortens(s: string, pos: nat, rule: Rule)
    requires pos <= |s|
    ensures |SubFrom(s, pos, rule)| <= |s| - pos
    ensures (exists i: nat :: pos <= i && MatchAt(s, i, rule)) ==> |SubFrom(s, pos, rule)| < |s| - pos
    decreases |s| - pos
  {
    if pos < |s| {
      if MatchAt(s, pos, rule) {
        SubShortens(s, pos + MatchLength(s, pos, rule), rule);
      } else {
        SubShortens(s, pos + 1, rule);
        if exists i: nat :: pos <= i && MatchAt(s, i, rule) {
          var i: nat :| pos <= i && MatchAt(s, i, rule);
          assert pos + 1 <= i;
        }
      }
    }
  }

  /** A pass changes the text exactly when its pattern occurs in it. */
  lemma SubUnchangedIff(s: string, rule: Rule)
    ensures Sub(s, rule) == s <==> forall i: nat :: !MatchAt(s, i, rule)
  {
    SubShortens(s, 0, rule);
    if forall i: nat :: !MatchAt(s, i, rule) {
      SubNoMatch(s, 0, rule);
      assert s[0..] == s;
    }
  }

  // ---------------------------------------------------------------------------
  // The inline assertions of js_import_resolve.py, and what a single pass
  // leaves behind.

  /** A `/./` step is dropped. */
  lemma CleanDotExample()
    ensures Clean("/foo/./bar") == "/foo/bar"
  {
    DotPassFooBar();
    ParentPassFooBar();
  }

  lemma DotPassFooBar()
    ensures Sub("/foo/./bar", Dot) == "/foo/bar"
  {
    var s := "/foo/./bar";
    forall j: nat | j < 4 ensures !MatchAt(s, j, Dot) {
      assert s[j] != '/' || s[j + 1] != '.';
    }
    assert MatchLength(s, 4, Dot) == 3;
    SubFirstMatch(s, 0, 4, Dot);
    DotPassBar(s);
    assert s[0..4] == "/foo";
  }

  lemma DotPassBar(s: string)
    requires s == "/foo/./bar"
    ensures SubFrom(s, 7, Dot) == "bar"
  {
    forall j: nat | 7 <= j ensures !MatchAt(s, j, Dot) { }
    SubNoMatch(s, 7, Dot);
    assert s[7..] == "bar";
  }

  lemma ParentPassFooBar()
    ensures Sub("/foo/bar", Parent) == "/foo/bar"
  {
    var t := "/foo/bar";
    assert Span(t, 1, NonSlash) == 4;
    assert Span(t, 5, NonSlash) == 8;
    forall j: nat ensures !MatchAt(t, j, Parent) { }
    SubNoMatch(t, 0, Parent);
    assert t[0..] == t;
  }

  /** A `/name/../` step collapses to `/`. */
  lemma CleanParentExample()
    ensures Clean("/foo/../bar") == "/bar"
  {
    DotPassFooParentBar();
    ParentPassFooParentBar();
  }

  lemma DotPassFooParentBar()
    ensures Sub("/foo/../bar", Dot) == "/foo/../bar"
  {
    var s := "/foo/../bar";
    forall j: nat ensures !MatchAt(s, j, Dot) {
      if j + 2 < |s| && s[j] == '/' && s[j + 1] == '.' { assert j == 4; }
    }
    SubNoMatch(s, 0, Dot);
    assert s[0..] == s;
  }

  lemma ParentPassFooParentBar()
    ensures Sub("/foo/../bar", Parent) == "/bar"
  {
    var s := "/foo/../bar";
    assert Span(s, 1, NonSlash) == 4;
    assert MatchLength(s, 0, Parent) == 8;
    SubFirstMatch(s, 0, 0, Parent);
    assert Span(s, 9, NonSlash) == 11;
    SubNoMatch(s, 8, Parent);
  }

  /** clean_path never lengthens a path, and it returns the path unchanged
      exactly when neither pattern occurs in it. */
  lemma CleanUnchangedIff(path: string)
    ensures |Clean(path)| <= |path|
    ensures Clean(path) == path <==>
              (forall i: nat :: !MatchAt(path, i, Dot)) && (forall i: nat :: !MatchAt(path, i, Parent))
  {
    var d := Sub(path, Dot);
    SubShortens(path, 0, Dot);
    SubShortens(d, 0, Parent);
    SubUnchangedIff(path, Dot);
    SubUnchangedIff(d, Parent);
  }

  /** The passes are not repeated: overlapping `/./` steps share a slash, so
      only every other one is dropped and the result still holds one. */
  lemma CleanLeavesDotStep()
    ensures Clean("/a/././b") == "/a/./b"
    ensures MatchAt("/a/./b", 2, Dot)
  {
    DotPassOverlap();
    ParentPassOverlap();
  }

  lemma DotPassOverlap()
    ensures Sub("/a/././b", Dot) == "/a/./b"
  {
    var s := "/a/././b";
    assert !MatchAt(s, 0, Dot) && !MatchAt(s, 1, Dot) && MatchAt(s, 2, Dot);
    SubFirstMatch(s, 0, 2, Dot);
    SubNoMatch(s, 5, Dot);
  }

  lemma ParentPassOverlap()
    ensures Sub("/a/./b", Parent) == "/a/./b"
  {
    var t := "/a/./b";
    assert Span(t, 1, NonSlash) == 2;
    assert Span(t, 3, NonSlash) == 4;
    assert Span(t, 5, NonSlash) == 6;
    forall j: nat ensures !MatchAt(t, j, Parent) { }
    SubNoMatch(t, 0, Parent);
    assert t[0..] == t;
  }
}
