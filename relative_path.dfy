/**
 * The relative path calculator, `resolve_relative_path(path1, path2)`: the
 * relative path from the directory `path1` to the file `path2`, as the
 * completion labels show it.
 *
 * Both paths are cut into their non-empty `/`-separated segments, the shared
 * leading segments are counted, and the result is `./rest` when the base has
 * nothing left, or one `..` per remaining base segment followed by `/rest`.
 * The counting loop indexes the target's segments without a bounds check, so
 * it raises `IndexError` when the target's segments are a proper prefix of the
 * base's; that crash is the `IndexError` outcome here.
 */
module RelativePath {

  // ---------------------------------------------------------------------------
  // Splitting and joining on '/'

  /** `re.split(r'/', s)`: the pieces between slashes, empty ones included. */
  function Split(s: string): (parts: seq<string>)
    ensures |parts| >= 1
    ensures forall k :: 0 <= k < |parts| ==> NoSlash(parts[k])
    decreases |s|
  {
    if |s| == 0 then [""]
    else if s[0] == '/' then [""] + Split(s[1..])
    else
      var rest := Split(s[1..]);
      [[s[0]] + rest[0]] + rest[1..]
  }

  /** `'/'.join(parts)`: the pieces in order, one `/` between each two. */
  function Join(parts: seq<string>): (r: string)
    ensures |parts| > 0 ==> parts[0] <= r
    ensures |r| >= |parts| - 1
  {
    if |parts| == 0 then ""
    else if |parts| == 1 then parts[0]
    else parts[0] + "/" + Join(parts[1..])
  }

  predicate NoSlash(x: string)
  {
    forall i :: 0 <= i < |x| ==> x[i] != '/'
  }

  /** A proper segment: non-empty and without a slash. */
  predicate IsSegment(x: string)
  {
    x != "" && NoSlash(x)
  }

  predicate AllSegments(xs: seq<string>)
  {
    forall k :: 0 <= k < |xs| ==> IsSegment(xs[k])
  }

  /** `filter(lambda string: string != '', parts)`. */
  function NonEmpty(parts: seq<string>): (r: seq<string>)
    ensures |r| <= |parts|
    ensures forall x :: x in r <==> x in parts && x != ""
  {
    if |parts| == 0 then []
    else if parts[0] == "" then NonEmpty(parts[1..])
    else [parts[0]] + NonEmpty(parts[1..])
  }

  /** The non-empty segments of a path. */
  function Segments(p: string): (r: seq<string>)
    ensures "" !in r
  {
    NonEmpty(Split(p))
  }

  /** Joining the pieces of a split gives back the text. */
  lemma {:induction false} JoinSplit(s: string)
    ensures Join(Split(s)) == s
    decreases |s|
  {
    if |s| > 0 {
      JoinSplit(s[1..]);
      var rest := Split(s[1..]);
      if s[0] == '/' {
        assert Split(s) == [""] + rest;
        assert ([""] + rest)[1..] == rest;
      } else if |rest| > 1 {
        assert Join(rest) == rest[0] + "/" + Join(rest[1..]);
        var parts := [[s[0]] + rest[0]] + rest[1..];
        assert parts[1..] == rest[1..];
      }
    }
  }

  /** A piece without a slash is split into itself. */
  lemma {:induction false} SplitNoSlash(x: string)
    requires NoSlash(x)
    ensures Split(x) == [x]
    decreases |x|
  {
    if |x| > 0 {
      SplitNoSlash(x[1..]);
      assert [x[0]] + x[1..] == x;
    }
  }

  /** Splitting distributes over a joining slash. */
  lemma {:induction false} SplitAppend(a: string, b: string)
    ensures Split(a + "/" + b) == Split(a) + Split(b)
    decreases |a|
  {
    var s := a + "/" + b;
    if |a| == 0 {
      assert s[0] == '/' && s[1..] == b;
      assert Split(s) == [""] + Split(b);
    } else {
      assert s[0] == a[0] && s[1..] == a[1..] + "/" + b;
      SplitAppend(a[1..], b);
      var ra, rb := Split(a[1..]), Split(b);
      if a[0] == '/' {
        assert Split(s) == [""] + (ra + rb);
        assert Split(a) == [""] + ra;
        AppendAssoc([""], ra, rb);
      } else {
        assert Split(s) == [[a[0]] + (ra + rb)[0]] + (ra + rb)[1..];
        assert Split(a) == [[a[0]] + ra[0]] + ra[1..];
        ExtendHead([a[0]], ra, rb);
      }
    }
  }

  lemma AppendAssoc(x: seq<string>, y: seq<string>, z: seq<string>)
    ensures x + (y + z) == (x + y) + z
  {
  }

  /** Gluing `c` onto the first piece commutes with appending more pieces. */
  lemma ExtendHead(c: string, ra: seq<string>, rb: seq<string>)
    requires |ra| >= 1
    ensures [c + (ra + rb)[0]] + (ra + rb)[1..] == ([c + ra[0]] + ra[1..]) + rb
  {
    assert (ra + rb)[0] == ra[0];
    assert (ra + rb)[1..] == ra[1..] + rb;
  }

  /** Splitting undoes joining, for pieces without slashes. */
  lemma {:induction false} SplitJoin(parts: seq<string>)
    requires |parts| >= 1
    requires forall k :: 0 <= k < |parts| ==> NoSlash(parts[k])
    ensures Split(Join(parts)) == parts
    decreases |parts|
  {
    SplitNoSlash(parts[0]);
    if |parts| > 1 {
      SplitJoin(parts[1..]);
      SplitAppend(parts[0], Join(parts[1..]));
    }
  }

  lemma {:induction false} NonEmptyAppend(a: seq<string>, b: seq<string>)
    ensures NonEmpty(a + b) == NonEmpty(a) + NonEmpty(b)
    decreases |a|
  {
    if |a| == 0 {
      assert a + b == b;
    } else {
      assert (a + b)[1..] == a[1..] + b;
      NonEmptyAppend(a[1..], b);
    }
  }

  /** Every segment of a path is a proper segment. */
  lemma SegmentsAreSegments(p: string)
    ensures forall k :: 0 <= k < |Segments(p)| ==> IsSegment(Segments(p)[k])
  {
    var ps := Split(p);
    forall k | 0 <= k < |Segments(p)| ensures IsSegment(Segments(p)[k]) {
      var x := Segments(p)[k];
      assert x in NonEmpty(ps);
      var i :| 0 <= i < |ps| && ps[i] == x;
    }
  }

  /** Joining proper segments and cutting the result into segments round-trips. */
  lemma {:induction false} SegmentsJoin(xs: seq<string>)
    requires forall k :: 0 <= k < |xs| ==> IsSegment(xs[k])
    ensures Segments(Join(xs)) == xs
    decreases |xs|
  {
    if |xs| == 1 {
      SplitNoSlash(xs[0]);
    } else if |xs| > 1 {
      SegmentsJoin(xs[1..]);
      SplitNoSlash(xs[0]);
      SplitAppend(xs[0], Join(xs[1..]));
      NonEmptyAppend([xs[0]], Split(Join(xs[1..])));
      assert xs == [xs[0]] + xs[1..];
    }
  }

  /** The segments of `a/b` are those of `a` followed by those of `b`. */
  lemma SegmentsAppend(a: string, b: string)
    ensures Segments(a + "/" + b) == Segments(a) + Segments(b)
  {
    SplitAppend(a, b);
    NonEmptyAppend(Split(a), Split(b));
  }

  /** An absolute path written from proper segments has exactly those segments. */
  lemma SegmentsRooted(xs: seq<string>)
    requires forall k :: 0 <= k < |xs| ==> IsSegment(xs[k])
    ensures Segments("/" + Join(xs)) == xs
  {
    var p := "/" + Join(xs);
    assert p[1..] == Join(xs);
    assert Split(p) == [""] + Split(Join(xs));
    assert ([""] + Split(Join(xs)))[1..] == Split(Join(xs));
    SegmentsJoin(xs);
  }

  // ---------------------------------------------------------------------------
  // The shared prefix

  /** The number of leading segments that `a` and `b` share. */
  function CommonPrefix(a: seq<string>, b: seq<string>): (k: nat)
    ensures k <= |a| && k <= |b|
    ensures a[..k] == b[..k]
    ensures k < |a| && k < |b| ==> a[k] != b[k]
    decreases |a|
  {
    if |a| == 0 || |b| == 0 || a[0] != b[0] then 0
    else 1 + CommonPrefix(a[1..], b[1..])
  }

  /** The shared prefix length is the only count with those properties. */
  lemma CommonPrefixUnique(a: seq<string>, b: seq<string>, k: nat)
    requires k <= |a| && k <= |b| && a[..k] == b[..k]
    requires k == |a| || k == |b| || a[k] != b[k]
    ensures CommonPrefix(a, b) == k
  {
    var c := CommonPrefix(a, b);
    forall i | 0 <= i < k ensures a[i] == b[i] {
      assert a[i] == a[..k][i] && b[i] == b[..k][i];
    }
    forall i | 0 <= i < c ensures a[i] == b[i] {
      assert a[i] == a[..c][i] && b[i] == b[..c][i];
    }
  }

  // ---------------------------------------------------------------------------
  // resolve_relative_path

  datatype Outcome = Relative(path: string) | IndexError

  /** `['..'] * n`. */
  function Repeat(x: string, n: nat): (r: seq<string>)
    ensures |r| == n && forall k :: 0 <= k < n ==> r[k] == x
  {
    if n == 0 then [] else [x] + Repeat(x, n - 1)
  }

  /** What `resolve_relative_path(path1, path2)` returns, or that it raises. */
  function RelativePath(path1: string, path2: string): (r: Outcome)
    ensures r.Relative? ==> |r.path| > 0 && r.path[0] == '.'
  {
    FromSegments(Segments(path1), Segments(path2))
  }

  /** The outcome for the base segments `s1` and the target segments `s2`:
      a path that starts with `.` (`./` or `../`), unless the base runs past
      the target. */
  function FromSegments(s1: seq<string>, s2: seq<string>): (r: Outcome)
    ensures r.Relative? ==> |r.path| > 0 && r.path[0] == '.'
  {
    var k := CommonPrefix(s1, s2);
    if k == |s2| && k < |s1| then IndexError
    else if k == |s1| then Relative("./" + Join(s2[k..]))
    else Relative(Join(Repeat("..", |s1| - k)) + "/" + Join(s2[k..]))
  }

  /** resolve_relative_path, with its lock-step counting loop. */
  method ResolveRelativePath(path1: string, path2: string) returns (r: Outcome)
    ensures r == RelativePath(path1, path2)
  {
    var segments1 := Segments(path1);
    var segments2 := Segments(path2);
    var longestCommon := 0;
    while longestCommon < |segments1|
      invariant longestCommon <= |segments1| && longestCommon <= |segments2|
      invariant segments1[..longestCommon] == segments2[..longestCommon]
    {
      if longestCommon == |segments2| {
        // segments2[index] is out of range
        CommonPrefixUnique(segments1, segments2, longestCommon);
        return IndexError;
      }
      if segments2[longestCommon] != segments1[longestCommon] {
        break;
      }
      assert segments1[..longestCommon + 1] == segments1[..longestCommon] + [segments1[longestCommon]];
      assert segments2[..longestCommon + 1] == segments2[..longestCommon] + [segments2[longestCommon]];
      longestCommon := longestCommon + 1;
    }
    CommonPrefixUnique(segments1, segments2, longestCommon);
    segments1 := segments1[longestCommon..];
    segments2 := segments2[longestCommon..];
    if |segments1| == 0 {
      return Relative("./" + Join(segments2));
    } else {
      var parents := Repeat("..", |segments1|);
      return Relative(Join(parents) + "/" + Join(segments2));
    }
  }

  // ---------------------------------------------------------------------------
  // Properties

  /** It raises exactly when the target's segments are a proper prefix of the base's. */
  lemma RelativePathFailsIff(path1: string, path2: string)
    ensures var s1, s2 := Segments(path1), Segments(path2);
      RelativePath(path1, path2) == IndexError <==> |s2| < |s1| && s1[..|s2|] == s2
  {
    var s1, s2 := Segments(path1), Segments(path2);
    if |s2| < |s1| && s1[..|s2|] == s2 {
      assert s2[..|s2|] == s2;
      CommonPrefixUnique(s1, s2, |s2|);
    }
  }

  /** Interpreting relative segments against a directory, as a path resolver
      does: `.` stays, `..` goes up one level (not above the root), any other
      segment goes down into it. */
  function Resolve(dir: seq<string>, rel: seq<string>): seq<string>
    decreases |rel|
  {
    if |rel| == 0 then dir
    else if rel[0] == "." then Resolve(dir, rel[1..])
    else if rel[0] == ".." then Resolve(if |dir| == 0 then dir else dir[..|dir| - 1], rel[1..])
    else Resolve(dir + [rel[0]], rel[1..])
  }

  predicate Plain(xs: seq<string>)
  {
    forall k :: 0 <= k < |xs| ==> xs[k] != "." && xs[k] != ".."
  }

  lemma {:induction false} ResolvePlain(dir: seq<string>, rel: seq<string>)
    requires Plain(rel)
    ensures Resolve(dir, rel) == dir + rel
    decreases |rel|
  {
    if |rel| > 0 {
      ResolvePlain(dir + [rel[0]], rel[1..]);
      assert dir + [rel[0]] + rel[1..] == dir + rel;
    }
  }

  lemma {:induction false} ResolveUp(dir: seq<string>, n: nat, rel: seq<string>)
    requires n <= |dir|
    ensures Resolve(dir, Repeat("..", n) + rel) == Resolve(dir[..|dir| - n], rel)
    decreases n
  {
    if n > 0 {
      var dots := Repeat("..", n) + rel;
      assert dots[0] == "..";
      assert dots[1..] == Repeat("..", n - 1) + rel;
      ResolveUp(dir[..|dir| - 1], n - 1, rel);
      assert dir[..|dir| - 1][..|dir| - 1 - (n - 1)] == dir[..|dir| - n];
    } else {
      assert Repeat("..", 0) + rel == rel;
      assert dir[..|dir|] == dir;
    }
  }

  /** The relative path leads from the base to the target: resolving its
      segments against the base's segments gives the target's segments,
      provided the target has no `.` or `..` segment of its own. */
  lemma RelativePathReaches(path1: string, path2: string)
    requires RelativePath(path1, path2).Relative?
    requires Plain(Segments(path2))
    ensures Resolve(Segments(path1), Segments(RelativePath(path1, path2).path)) == Segments(path2)
  {
    var s1, s2 := Segments(path1), Segments(path2);
    var k := CommonPrefix(s1, s2);
    var rest := s2[k..];
    SegmentsAreSegments(path2);
    SuffixSegments(s2, k);
    assert s1[..k] + rest == s2;
    if k == |s1| {
      assert RelativePath(path1, path2).path == "./" + Join(rest);
      assert s1[..k] == s1;
      ReachesDown(s1, rest);
    } else {
      assert RelativePath(path1, path2).path == Join(Repeat("..", |s1| - k)) + "/" + Join(rest);
      ReachesUp(s1, k, rest);
    }
  }

  lemma SuffixSegments(xs: seq<string>, k: nat)
    requires k <= |xs| && AllSegments(xs) && Plain(xs)
    ensures AllSegments(xs[k..]) && Plain(xs[k..])
  {
    forall j | 0 <= j < |xs| - k ensures IsSegment(xs[k..][j]) && xs[k..][j] != "." && xs[k..][j] != ".." {
      assert xs[k..][j] == xs[k + j];
    }
  }

  /** A leading `./` contributes the one segment `.`. */
  lemma SegmentsDot(t: string)
    ensures Segments("./" + t) == ["."] + Segments(t)
  {
    var s := "./" + t;
    assert s[1..] == "/" + t && ("/" + t)[1..] == t;
    var rest := Split("/" + t);
    assert rest == [""] + Split(t);
    assert rest[0] == "" && rest[1..] == Split(t);
    assert s[0] == '.' && [s[0]] + rest[0] == ".";
    assert Split(s) == [[s[0]] + rest[0]] + rest[1..];
    var ps := ["."] + Split(t);
    assert ps[0] == "." && ps[1..] == Split(t);
    assert NonEmpty(ps) == ["."] + NonEmpty(Split(t));
  }

  /** `./rest` from `base` leads to `base + rest`. */
  lemma ReachesDown(base: seq<string>, rest: seq<string>)
    requires forall j :: 0 <= j < |rest| ==> IsSegment(rest[j])
    requires Plain(rest)
    ensures Resolve(base, Segments("./" + Join(rest))) == base + rest
  {
    SegmentsJoin(rest);
    SegmentsDot(Join(rest));
    var rel := ["."] + rest;
    assert rel[0] == "." && rel[1..] == rest;
    ResolvePlain(base, rest);
  }

  /** `../../rest` from `base`, with one `..` per segment after the first `k`,
      leads to `base[..k] + rest`. */
  lemma ReachesUp(base: seq<string>, k: nat, rest: seq<string>)
    requires k < |base|
    requires forall j :: 0 <= j < |rest| ==> IsSegment(rest[j])
    requires Plain(rest)
    ensures Resolve(base, Segments(Join(Repeat("..", |base| - k)) + "/" + Join(rest))) == base[..k] + rest
  {
    var dots := Repeat("..", |base| - k);
    forall j | 0 <= j < |dots| ensures IsSegment(dots[j]) {
      assert dots[j] == "..";
    }
    SegmentsJoin(dots);
    SegmentsJoin(rest);
    SegmentsAppend(Join(dots), Join(rest));
    ResolveUp(base, |base| - k, rest);
    ResolvePlain(base[..k], rest);
  }

  // ---------------------------------------------------------------------------
  // The inline assertions of js_import_resolve.py, for all segment names

  /** A target below the base is reached by `./` and the rest of its path
      (`/foobar/test` to `/foobar/test/asd.js` gives `./asd.js`, and `/` or
      `/foo` to `.../foobar/test.js` gives `./foobar/test.js`). */
  lemma RelativePathDescends(xs: seq<string>, ys: seq<string>)
    requires AllSegments(xs) && AllSegments(ys)
    ensures RelativePath("/" + Join(xs), "/" + Join(xs + ys)) == Relative("./" + Join(ys))
  {
    var s2 := xs + ys;
    forall k | 0 <= k < |s2| ensures IsSegment(s2[k]) {
      if k < |xs| { assert s2[k] == xs[k]; } else { assert s2[k] == ys[k - |xs|]; }
    }
    SegmentsRooted(xs);
    SegmentsRooted(s2);
    assert s2[..|xs|] == xs && xs[..|xs|] == xs;
    CommonPrefixUnique(xs, s2, |xs|);
    assert s2[|xs|..] == ys;
  }

  lemma AllSegmentsAppend(xs: seq<string>, ys: seq<string>)
    requires AllSegments(xs) && AllSegments(ys)
    ensures AllSegments(xs + ys)
  {
    var s := xs + ys;
    forall k | 0 <= k < |s| ensures IsSegment(s[k]) {
      if k < |xs| { assert s[k] == xs[k]; } else { assert s[k] == ys[k - |xs|]; }
    }
  }


  /** A target beside the base climbs once per base segment left after the
      shared part (`/foobar/test` to `/foobar/src/asd.js` gives
      `../src/asd.js`). */
  lemma RelativePathClimbs(xs: seq<string>, us: seq<string>, vs: seq<string>)
    requires AllSegments(xs) && AllSegments(us) && AllSegments(vs)
    requires |us| > 0 && |vs| > 0 && us[0] != vs[0]
    ensures RelativePath("/" + Join(xs + us), "/" + Join(xs + vs))
         == Relative(Join(Repeat("..", |us|)) + "/" + Join(vs))
  {
    var s1, s2 := xs + us, xs + vs;
    AllSegmentsAppend(xs, us);
    AllSegmentsAppend(xs, vs);
    SegmentsRooted(s1);
    SegmentsRooted(s2);
    ClimbPrefix(xs, us, vs);
    assert RelativePath("/" + Join(s1), "/" + Join(s2)) == FromSegments(s1, s2);
  }

  /** Two lists that share `xs` and then differ share exactly `xs`. */
  lemma ClimbPrefix(xs: seq<string>, us: seq<string>, vs: seq<string>)
    requires |us| > 0 && |vs| > 0 && us[0] != vs[0]
    ensures CommonPrefix(xs + us, xs + vs) == |xs|
    ensures (xs + vs)[|xs|..] == vs && |xs + us| - |xs| == |us|
  {
    var s1, s2 := xs + us, xs + vs;
    assert s1[..|xs|] == xs == s2[..|xs|];
    assert s1[|xs|] == us[0] && s2[|xs|] == vs[0];
    CommonPrefixUnique(s1, s2, |xs|);
  }
}
