/**
 * The two operations that consult the filesystem: the file variant resolver,
 * `resolve_js_file_path`, and the package root locator, `find_package_root`.
 *
 * The filesystem is the parameter `files`, the set of paths for which
 * `os.path.isfile` holds; nothing else about it is consulted.
 */
module FileResolve {
  import opened Wrappers
  import opened PyText
  import PosixPath

  // ---------------------------------------------------------------------------
  // resolve_js_file_path

  /** `v` is one of the paths the resolver tries for `path`: the path itself,
      then `.js` appended unless it already ends so, then `.json` likewise. */
  predicate Candidate(path: string, v: string)
    ensures Candidate(path, v) ==> path <= v && |v| <= |path| + 5
  {
    || v == path
    || (v == path + ".js" && !EndsWith(path, ".js"))
    || (v == path + ".json" && !EndsWith(path, ".json"))
  }

  /** resolve_js_file_path: the first candidate that is an existing file. */
  method ResolveJsFilePath(path: string, files: set<string>) returns (r: Option<string>)
    ensures r.Some? ==> Candidate(path, r.value) && r.value in files
    ensures r.None? <==> forall v :: Candidate(path, v) ==> v !in files
    // the candidates are tried in order
    ensures path in files ==> r == Some(path)
    ensures path !in files && !EndsWith(path, ".js") && path + ".js" in files ==> r == Some(path + ".js")
  {
    var variations := [path];
    if !EndsWith(path, ".js") {
      variations := variations + [path + ".js"];
    }
    if !EndsWith(path, ".json") {
      variations := variations + [path + ".json"];
    }
    assert variations[0] == path;
    assert !EndsWith(path, ".js") ==> variations[1] == path + ".js";
    assert forall v :: Candidate(path, v) <==> v in variations;
    for n := 0 to |variations|
      invariant forall k :: 0 <= k < n ==> variations[k] !in files
    {
      if variations[n] in files {
        return Some(variations[n]);
      }
    }
    return None;
  }

  // ---------------------------------------------------------------------------
  // find_package_root

  /** The bound on the number of directories the locator looks at. */
  const MaxHops: nat := 20

  /** The `n`-th directory on the way up from `start`: `start`, its dirname, ... */
  function Ancestor(start: string, n: nat): string
  {
    if n == 0 then start else PosixPath.Dirname(Ancestor(start, n - 1))
  }

  /** `os.path.isfile(os.path.join(dir, 'package.json'))`. Its meaning is
      `HasManifestLocation`, kept out of its contract so that the walk proofs
      below do not reason about the joined path. */
  predicate HasManifest(files: set<string>, dir: string)
  {
    PosixPath.Join(dir, "package.json") in files
  }

  /** The file looked for is `package.json` directly inside `dir`, or in the
      current directory when `dir` is empty. */
  lemma HasManifestLocation(files: set<string>, dir: string)
    ensures HasManifest(files, dir) <==>
      (if dir == "" || dir[|dir| - 1] == '/' then dir + "package.json" else dir + "/" + "package.json") in files
  {
  }

  /** Every directory on the way up is a prefix of the start. */
  lemma {:induction false} AncestorIsPrefix(start: string, n: nat)
    ensures Ancestor(start, n) <= start
  {
    if n > 0 {
      AncestorIsPrefix(start, n - 1);
      PosixPath.DirnameIsPrefix(Ancestor(start, n - 1));
    }
  }

  /** The walk reaches the `m`-th directory up: it is within the hop bound,
      and neither it nor any directory before it is `/`. */
  predicate Reaches(start: string, m: nat)
    decreases m
  {
    m < MaxHops && Ancestor(start, m) != "/" && (m == 0 || Reaches(start, m - 1))
  }

  /** None of the directories from the `n`-th up to before the `m`-th holds a
      `package.json`. */
  predicate NoManifestBetween(files: set<string>, start: string, n: nat, m: nat)
    decreases m - n
  {
    n >= m || (!HasManifest(files, Ancestor(start, n)) && NoManifestBetween(files, start, n + 1, m))
  }

  /** A reached directory is reached through reached directories only. */
  lemma {:induction false} ReachesBelow(start: string, m: nat, i: nat)
    requires i <= m && Reaches(start, m)
    ensures Reaches(start, i)
    decreases m - i
  {
    if i < m {
      ReachesBelow(start, m - 1, i);
    }
  }

  /** What find_package_root returns when its walk has reached the `n`-th
      directory up from `start`. */
  function PackageRootFrom(start: string, files: set<string>, n: nat): (r: Option<string>)
    ensures r.Some? ==> HasManifest(files, r.value) && r.value != "/"
    decreases MaxHops - n
  {
    if n >= MaxHops || Ancestor(start, n) == "/" then None
    else if HasManifest(files, Ancestor(start, n)) then Some(Ancestor(start, n))
    else PackageRootFrom(start, files, n + 1)
  }

  function PackageRoot(start: string, files: set<string>): Option<string>
  {
    PackageRootFrom(start, files, 0)
  }

  /** find_package_root: walk up from `start`, at most `MaxHops` directories and
      never `/` itself, and return the first one holding a `package.json`. */
  method FindPackageRoot(start: string, files: set<string>) returns (root: Option<string>)
    ensures root == PackageRoot(start, files)
  {
    var dirname := start;
    var counter := 0;
    while dirname != "/" && counter < MaxHops
      invariant counter <= MaxHops
      invariant dirname == Ancestor(start, counter)
      invariant PackageRootFrom(start, files, counter) == PackageRoot(start, files)
      decreases MaxHops - counter
    {
      if HasManifest(files, dirname) {
        return Some(dirname);
      }
      counter := counter + 1;
      dirname := PosixPath.Dirname(dirname);
    }
    return None;
  }

  /** A result of the walk from the `n`-th directory on is a directory the
      walk reaches, holding a manifest, with none in the directories before it. */
  lemma {:induction false} PackageRootFromSome(start: string, files: set<string>, n: nat)
    requires n == 0 || Reaches(start, n - 1)
    requires PackageRootFrom(start, files, n).Some?
    ensures exists m: nat {:trigger Reaches(start, m)} ::
      && n <= m && Reaches(start, m) && PackageRootFrom(start, files, n).value == Ancestor(start, m)
      && HasManifest(files, Ancestor(start, m)) && NoManifestBetween(files, start, n, m)
    decreases MaxHops - n
  {
    assert n < MaxHops && Ancestor(start, n) != "/";
    assert Reaches(start, n);
    if HasManifest(files, Ancestor(start, n)) {
      assert NoManifestBetween(files, start, n, n);
    } else {
      PackageRootFromSome(start, files, n + 1);
      var m: nat :| n + 1 <= m && Reaches(start, m)
        && PackageRootFrom(start, files, n + 1).value == Ancestor(start, m)
        && HasManifest(files, Ancestor(start, m)) && NoManifestBetween(files, start, n + 1, m);
      assert NoManifestBetween(files, start, n, m);
    }
  }

  /** No result of the walk from the `n`-th directory on means that no
      directory the walk reaches from there holds a manifest. */
  lemma {:induction false} PackageRootFromNone(start: string, files: set<string>, n: nat)
    requires n == 0 || Reaches(start, n - 1)
    requires PackageRootFrom(start, files, n).None?
    ensures forall m: nat {:trigger Reaches(start, m)} ::
      n <= m && Reaches(start, m) ==> !HasManifest(files, Ancestor(start, m))
    decreases MaxHops - n
  {
    if n >= MaxHops || Ancestor(start, n) == "/" {
      ReachesStops(start, n);
    } else {
      var here := Ancestor(start, n);
      assert !HasManifest(files, here);
      assert PackageRootFrom(start, files, n + 1).None?;
      assert Reaches(start, n);
      PackageRootFromNone(start, files, n + 1);
      forall m: nat | n <= m && Reaches(start, m) ensures !HasManifest(files, Ancestor(start, m)) {
        if m == n {
          assert Ancestor(start, m) == here;
        }
      }
    }
  }

  /** The walk reaches nothing from a directory it stops at. */
  lemma ReachesStops(start: string, n: nat)
    requires n >= MaxHops || Ancestor(start, n) == "/"
    ensures forall m: nat {:trigger Reaches(start, m)} :: n <= m ==> !Reaches(start, m)
  {
    forall m: nat | n <= m ensures !Reaches(start, m) {
      if Reaches(start, m) {
        ReachesBelow(start, m, n);
      }
    }
  }

  /** The walk from the `n`-th directory on: a result is a directory the walk
      reaches, holding a manifest, with none in the directories before it; no
      result means that no directory the walk reaches holds one. */
  lemma PackageRootFromSpec(start: string, files: set<string>, n: nat)
    requires n == 0 || Reaches(start, n - 1)
    ensures var r := PackageRootFrom(start, files, n);
      && (r.Some? ==>
            exists m: nat {:trigger Reaches(start, m)} ::
              && n <= m && Reaches(start, m) && r.value == Ancestor(start, m)
              && HasManifest(files, r.value) && NoManifestBetween(files, start, n, m))
      && (r.None? ==>
            forall m: nat {:trigger Reaches(start, m)} ::
              n <= m && Reaches(start, m) ==> !HasManifest(files, Ancestor(start, m)))
  {
    if PackageRootFrom(start, files, n).Some? {
      PackageRootFromSome(start, files, n);
    } else {
      PackageRootFromNone(start, files, n);
    }
  }

  /** find_package_root's result is the first directory on the way up that
      holds a `package.json`, among those the walk reaches; it is an inclusive
      ancestor of `start` and never `/`. No result means that no directory the
      walk reaches holds one. */
  lemma PackageRootSpec(start: string, files: set<string>)
    ensures var r := PackageRoot(start, files);
      && (r.Some? ==>
            exists m: nat {:trigger Reaches(start, m)} ::
              && Reaches(start, m) && r.value == Ancestor(start, m)
              && HasManifest(files, r.value) && NoManifestBetween(files, start, 0, m))
      && (r.None? ==>
            forall m: nat {:trigger Reaches(start, m)} ::
              Reaches(start, m) ==> !HasManifest(files, Ancestor(start, m)))
      && (r.Some? ==> r.value <= start && r.value != "/")
  {
    PackageRootFromSpec(start, files, 0);
    var r := PackageRoot(start, files);
    if r.Some? {
      var m: nat :| Reaches(start, m) && r.value == Ancestor(start, m);
      AncestorIsPrefix(start, m);
    }
  }

  /** Without the counter the walk would not end: from a path made of slashes
      other than `/` (such as `""` or `//`) every step up stays where it is, so
      the `dirname != '/'` test never stops it. */
  lemma {:induction false} AncestorStuck(start: string, n: nat)
    requires PosixPath.AllSlashes(start)
    ensures Ancestor(start, n) == start
  {
    if n > 0 {
      AncestorStuck(start, n - 1);
      PosixPath.DirnameFixedPoint(start);
    }
  }
}
