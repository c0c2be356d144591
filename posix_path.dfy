/**
 * The two `os.path` operations the resolver relies on, as POSIX Python defines
 * them (`posixpath.join` of two components and `posixpath.dirname`), on plain
 * strings and without touching any filesystem.
 */
module PosixPath {

  /** `os.path.join(a, b)`: an absolute `b` replaces `a`; otherwise a slash is
      put between them unless `a` is empty or already ends with one. */
  function Join(a: string, b: string): string
  {
    if |b| > 0 && b[0] == '/' then b
    else if a == "" || a[|a| - 1] == '/' then a + b
    else a + "/" + b
  }

  /** An absolute `b` is the whole join. Otherwise the join starts with `a`, ends
      with `b`, and adds at most one character, so that a non-empty `a` is
      followed by exactly one separating slash; the slash is added exactly when
      `a` is non-empty and does not already end with one. */
  lemma JoinShape(a: string, b: string)
    ensures |b| > 0 && b[0] == '/' ==> Join(a, b) == b
    ensures !(|b| > 0 && b[0] == '/') ==>
              var r := Join(a, b);
              |a| + |b| <= |r| <= |a| + |b| + 1 && r[..|a|] == a && r[|r| - |b|..] == b
    ensures !(|b| > 0 && b[0] == '/') ==>
              |Join(a, b)| == |a| + |b| + (if a != "" && a[|a| - 1] != '/' then 1 else 0)
    ensures !(|b| > 0 && b[0] == '/') && a != "" ==> Join(a, b)[|Join(a, b)| - |b| - 1] == '/'
  {
  }

  predicate AllSlashes(h: string)
  {
    forall m :: 0 <= m < |h| ==> h[m] == '/'
  }

  /** `p.rfind('/') + 1`: the index just past the last slash, 0 without one. */
  function LastSlashEnd(p: string): (i: nat)
    ensures i <= |p|
    ensures i > 0 ==> p[i - 1] == '/'
    ensures i < |p| ==> p[|p| - 1] != '/'
    decreases |p|
  {
    if |p| == 0 then 0
    else if p[|p| - 1] == '/' then |p|
    else LastSlashEnd(p[..|p| - 1])
  }

  /** No slash follows position `LastSlashEnd(p)`. */
  lemma {:induction false} LastSlashEndIsLast(p: string)
    ensures forall m :: LastSlashEnd(p) <= m < |p| ==> p[m] != '/'
    decreases |p|
  {
    if |p| > 0 && p[|p| - 1] != '/' {
      LastSlashEndIsLast(p[..|p| - 1]);
    }
  }

  /** `h.rstrip('/')`. */
  function StripTrailingSlashes(h: string): (r: string)
    ensures |r| <= |h|
    ensures r == "" || r[|r| - 1] != '/'
    decreases |h|
  {
    if |h| > 0 && h[|h| - 1] == '/' then StripTrailingSlashes(h[..|h| - 1]) else h
  }

  /** Stripping keeps a prefix. */
  lemma {:induction false} StripIsPrefix(h: string)
    ensures StripTrailingSlashes(h) <= h
    decreases |h|
  {
    if |h| > 0 && h[|h| - 1] == '/' {
      StripIsPrefix(h[..|h| - 1]);
    }
  }

  /** Only the slashes at the end are removed. */
  lemma {:induction false} StrippedAreSlashes(h: string)
    ensures AllSlashes(h[|StripTrailingSlashes(h)|..])
    decreases |h|
  {
    if |h| > 0 && h[|h| - 1] == '/' {
      var g := h[..|h| - 1];
      StrippedAreSlashes(g);
      StripIsPrefix(g);
      var n := |StripTrailingSlashes(g)|;
      assert h[n..] == g[n..] + "/";
    }
  }

  /** Stripping leaves nothing exactly when there were only slashes. */
  lemma StripEmptyIff(h: string)
    ensures StripTrailingSlashes(h) == "" <==> AllSlashes(h)
  {
    StrippedAreSlashes(h);
    if AllSlashes(h) {
      AllSlashesStrip(h);
    }
  }

  lemma {:induction false} AllSlashesStrip(h: string)
    requires AllSlashes(h)
    ensures StripTrailingSlashes(h) == ""
    decreases |h|
  {
    if |h| > 0 {
      AllSlashesStrip(h[..|h| - 1]);
    }
  }

  /** `os.path.dirname(p)`: everything up to the last slash, with trailing
      slashes removed unless nothing but slashes is left. */
  function Dirname(p: string): (d: string)
    ensures |d| <= |p|
  {
    var head := p[..LastSlashEnd(p)];
    var stripped := StripTrailingSlashes(head);
    if stripped == "" then head else stripped
  }

  /** The parent directory is a prefix of the path. */
  lemma DirnameIsPrefix(p: string)
    ensures Dirname(p) <= p
  {
    StripIsPrefix(p[..LastSlashEnd(p)]);
  }

  /** `dirname` leaves a path unchanged exactly when it consists of slashes only
      (the empty path included): `""`, `"/"`, `"//"`, ... are its fixed points,
      and every other path gets strictly shorter. */
  lemma DirnameFixedPoint(p: string)
    ensures Dirname(p) == p <==> AllSlashes(p)
    ensures !AllSlashes(p) ==> |Dirname(p)| < |p|
  {
    var i := LastSlashEnd(p);
    if AllSlashes(p) {
      if p != "" {
        assert p[|p| - 1] == '/';
        assert p[..i] == p;
        StripEmptyIff(p);
      }
    } else if i < |p| {
      StripIsPrefix(p[..i]);
      assert |Dirname(p)| <= i;
    } else {
      assert p[..i] == p;
      StripEmptyIff(p);
      assert p[|p| - 1] == '/';
    }
  }

  /** What `dirname` removes is a run of slashes followed by the last name,
      which holds no slash: the parent keeps everything before that name. */
  lemma DirnameDropsLastName(p: string)
    ensures var d, i := Dirname(p), LastSlashEnd(p);
            |d| <= i && AllSlashes(p[|d|..i]) && forall m :: i <= m < |p| ==> p[m] != '/'
  {
    var i := LastSlashEnd(p);
    var head := p[..i];
    LastSlashEndIsLast(p);
    StrippedAreSlashes(head);
    StripIsPrefix(head);
    var n := |Dirname(p)|;
    assert p[n..i] == head[n..];
  }

  /** The parent of a nested path, and of a top-level one. */
  lemma DirnameExamples()
    ensures Dirname("/foo/bar") == "/foo"
    ensures Dirname("/foo") == "/"
  {
    var p := "/foo/bar";
    assert p[4] == '/' && p[5] != '/' && p[6] != '/' && p[7] != '/';
    assert LastSlashEnd(p) == 5;
    assert p[..5] == "/foo/";
    assert StripTrailingSlashes("/foo/") == "/foo";
    var q := "/foo";
    assert q[0] == '/' && q[1] != '/' && q[2] != '/' && q[3] != '/';
    assert LastSlashEnd(q) == 1;
    assert q[..1] == "/";
  }

  /** A bare name has the empty parent; a trailing slash is dropped. */
  lemma DirnameEdgeExamples()
    ensures Dirname("foo") == ""
    ensures Dirname("/foo/bar/") == "/foo/bar"
  {
    assert StripTrailingSlashes("") == "";
    assert LastSlashEnd("foo") == 0;
    var p := "/foo/bar/";
    assert LastSlashEnd(p) == 9;
    assert p[..9] == p;
    assert StripTrailingSlashes(p) == "/foo/bar";
  }
}
