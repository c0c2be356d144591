# js-import-resolve utilities, modelled in Dafny

js-import-resolve is a Sublime Text plugin. It resolves the module specifiers
that a JavaScript line imports, for hover previews and path completion. This
project models the plugin's utility layer in `js_import_resolve.py` and proves
what each function does:

- `extract_import_values`, the import extractor (`import_extract.dfy`,
  module `ImportExtract`). It returns every CommonJS `require('X')` specifier
  in order. When there is none, it returns the one specifier of an ES
  `import ... from 'X'`, or nothing.
- `clean_path`, the path normalizer (`clean_path.dfy`, module `CleanPath`).
  It runs two single-pass textual rewrites, of `/./` and of `/name/../`.
- `resolve_relative_path`, the relative path calculator (`relative_path.dfy`,
  module `RelativePath`). It builds `./rest` or `../../rest` from the shared
  segment prefix of two paths.
- `resolve_js_file_path`, the file variant resolver, and `find_package_root`,
  the package root locator (`file_resolve.dfy`, module `FileResolve`).
- `should_do_autocomplete`, the autocomplete trigger detector
  (`autocomplete.dfy`, module `Autocomplete`).

Support modules:

- `PyText` (`pytext.dfy`) holds the character classes the patterns use and
  the greedy run scanner `Span`.
- `PosixPath` (`posix_path.dfy`) holds `os.path.join` of two components and
  `os.path.dirname`, as POSIX Python defines them.
- `Wrappers` (`wrappers.dfy`) holds `Option`.

The regular expressions are not run by a general engine. Each pattern is a
predicate on positions of the text. Greedy quantifiers become `Span`, the end
of the longest run of a class. `re.finditer`, `re.search`, `re.sub` and
`re.match` become recursive scans with the leftmost-first, resume-after-match
behaviour of Python's `re`. The shape of each pattern leaves little to
backtrack over. Where backtracking does matter, it is modelled explicitly:

- the greedy `.*` of the ES import pattern gives back characters until
  `\sfrom` matches (`LastFromClause`);
- the `\s* ` of the `from` trigger must give back its last space
  (`FromTriggerAt`, with `FromTriggerIff` relating it to the pattern's plain
  reading).

The filesystem is a parameter `files: set<string>`, the paths for which
`os.path.isfile` holds.

`resolve_relative_path` indexes the second path's segments without a bounds
check. It raises `IndexError` when those segments are a proper prefix of the
first path's. The model returns that crash as the `IndexError` value of
`Outcome`. It does not exclude it by a precondition, and
`RelativePathFailsIff` states exactly when it happens.

Two details of the autocomplete patterns decide what the model accepts:

- `from\s* ['"]` accepts any run of whitespace that ends in a literal space,
  for example a tab followed by a space. A run without a final space, such as
  a lone tab, does not trigger.
- Both patterns are tried with `re.match` after a leading `.*`, so the trigger
  has to start before the first newline of the text.

## Model

| member | source | states |
|---|---|---|
| ImportExtract.RequireAt | js_import_resolve.py:13 | the CommonJS pattern `\brequire\s*\(["']([^"']+)` at a position: `require` at a word start, whitespace, `(`, a quote and a non-quote; a match needs at least ten characters |
| ImportExtract.RequireMatch | js_import_resolve.py:13 | the match the pattern makes there: it starts at the position, and group 1 is the greedy run of non-quotes after the quote |
| ImportExtract.RequireMatchesFrom | js_import_resolve.py:13-16 | `re.finditer` of the CommonJS pattern from a position: every reported match starts at or after it and lies inside the line |
| ImportExtract.RequireMatchesSound | js_import_resolve.py:13 | every reported match is a match of `\brequire\s*\(["']([^"']+)` at its start, with the capture the pattern makes there |
| ImportExtract.RequireMatchesOrdered | js_import_resolve.py:13-16 | the matches come left to right and do not overlap |
| ImportExtract.RequireMatchesComplete | js_import_resolve.py:13-16 | no match is skipped: every position where the pattern matches lies inside a reported match |
| ImportExtract.RequireGroupShape | js_import_resolve.py:13 | a CommonJS capture is non-empty and quote-free, follows a quote, and ends at a quote or at the end of the line |
| ImportExtract.RequireMatchIsSpecifier | js_import_resolve.py:13-16 | each capture that finditer reports is a non-empty, quote-free specifier |
| ImportExtract.FromClauseAt | js_import_resolve.py:19 | the tail `\sfrom\s+["']` of the ES pattern plus the first captured character, at a position: it needs at least eight characters |
| ImportExtract.EsImportAt | js_import_resolve.py:19 | the ES pattern `import.*\sfrom\s+["']([^"']+)` with its `.*` ending at a given place, which it cannot cross a newline to reach; a match needs at least fourteen characters |
| ImportExtract.EsImportMatch | js_import_resolve.py:19 | the match the ES pattern makes there: group 1 is the greedy run of non-quotes after the quote |
| ImportExtract.LastFromClause | js_import_resolve.py:19 | backtracking of the greedy `.*`: the last end position in a range after which `\sfrom\s+["']` and a non-quote follow, or none in the range |
| ImportExtract.SearchEsImportFrom | js_import_resolve.py:19 | `re.search` of the ES pattern: the leftmost start, the longest `.*` for it, and no match at all when it returns none |
| ImportExtract.SearchEsImport | js_import_resolve.py:19-21 | the match `re.search` reports lies inside the line, and there is none exactly when the ES pattern matches nowhere |
| ImportExtract.EsGroupShape | js_import_resolve.py:19 | the ES capture is non-empty and quote-free, follows a quote, and ends at a quote or at the end of the line |
| ImportExtract.ExtractImportValues | js_import_resolve.py:12-22 | when the CommonJS pattern matches, the result is exactly its captures in order; otherwise it is the ES capture or empty; every value is a non-empty, quote-free specifier |
| ImportExtract.RequireLineExample | js_import_resolve.py:24-30 | `const { createCanvas } = require` + whitespace + `(` + a quoted specifier + `);` has exactly one CommonJS capture, the specifier, for every specifier, both quotes and any whitespace before `(` |
| ImportExtract.TwoRequiresExample | js_import_resolve.py:32 | `const foo = require('a'); const yay = require('b');` has exactly two CommonJS captures, `a` then `b`, for every two specifiers |
| ImportExtract.EsImportExample | js_import_resolve.py:34-40 | `import { createCanvas } from ` + a quoted specifier + `;` has no CommonJS match and its ES capture is the specifier, for both quotes and every specifier without whitespace or `(` (all the asserted ones) |
| CleanPath.MatchLength | js_import_resolve.py:43-44 | a match of either rewrite pattern has at least three characters and lies inside the text |
| CleanPath.SubFrom | js_import_resolve.py:43-44 | `re.sub(pattern, '/', …)` from a position: the result is never longer than the text it scans |
| CleanPath.Clean | js_import_resolve.py:42-45 | `clean_path`, the `/./` pass followed by the `/name/../` pass: it never lengthens the path |
| CleanPath.SubNoMatch | js_import_resolve.py:43-44 | where the pattern does not occur, `re.sub` leaves the text as it is |
| CleanPath.SubFirstMatch | js_import_resolve.py:43-44 | text before the leftmost occurrence is kept, the occurrence becomes `/`, and the pass resumes after it without revisiting it |
| CleanPath.SubShortens | js_import_resolve.py:43-44 | a pass never lengthens the text and strictly shortens it when the pattern occurs |
| CleanPath.SubUnchangedIff | js_import_resolve.py:43-44 | a pass leaves the text unchanged exactly when the pattern occurs nowhere in it |
| CleanPath.CleanUnchangedIff | js_import_resolve.py:42-45 | `clean_path` returns the path unchanged exactly when neither pattern occurs in it |
| CleanPath.CleanDotExample | js_import_resolve.py:47 | `/foo/./bar` cleans to `/foo/bar` |
| CleanPath.CleanParentExample | js_import_resolve.py:48 | `/foo/../bar` cleans to `/bar` |
| CleanPath.CleanLeavesDotStep | js_import_resolve.py:42-45 | one pass is not a fixed point: `/a/././b` cleans to `/a/./b`, which still contains `/./` |
| RelativePath.Split | js_import_resolve.py:52-53 | `re.split(r'/', s)`: at least one piece, and no piece holds a slash |
| RelativePath.Join | js_import_resolve.py:62-65 | `'/'.join(parts)`: the result starts with the first piece and has at least one character for each separator; `JoinSplit` and `SplitJoin` make it the inverse of `Split` |
| RelativePath.Segments | js_import_resolve.py:52-53 | `list(filter(lambda string: string != '', re.split(r'/', p)))`: no segment is empty (with `SegmentsAreSegments`, none holds a slash) |
| RelativePath.NonEmpty | js_import_resolve.py:52-53 | `filter(lambda string: string != '', …)`: the result holds exactly the non-empty pieces and is no longer than the input |
| RelativePath.JoinSplit | js_import_resolve.py:52-53 | joining the pieces of `re.split(r'/', s)` with `/` gives back `s` |
| RelativePath.SplitJoin | js_import_resolve.py:52-53 | splitting a `/`-join of slash-free pieces gives back the pieces |
| RelativePath.SegmentsAreSegments | js_import_resolve.py:52-53 | every segment of a path is non-empty and slash-free |
| RelativePath.SegmentsJoin | js_import_resolve.py:52-53 | the segments of a `/`-join of proper segments are those segments |
| RelativePath.SegmentsAppend | js_import_resolve.py:52-53 | the segments of `a/b` are the segments of `a` followed by those of `b` |
| RelativePath.SegmentsRooted | js_import_resolve.py:52-53 | an absolute path written from proper segments has exactly those segments |
| RelativePath.CommonPrefix | js_import_resolve.py:55-58 | the number of shared leading segments: both agree below it, and they differ at it unless one list ends there |
| RelativePath.CommonPrefixUnique | js_import_resolve.py:55-58 | that count is the only one with those properties |
| RelativePath.Repeat | js_import_resolve.py:64 | `['..'] * n` has `n` elements, all equal to `..` |
| RelativePath.RelativePath | js_import_resolve.py:50-65 | the value `resolve_relative_path` returns, or `IndexError`: a returned path is non-empty and starts with `.`, so it reads as a relative specifier |
| RelativePath.FromSegments | js_import_resolve.py:55-65 | the outcome computed from the two segment lists (shared-prefix count, then `IndexError`, `./rest` or `../…/rest`): a returned path starts with `.`; `RelativePathFailsIff` says when it raises, `RelativePathReaches` that the path leads from the base to the target, `RelativePathDescends` and `RelativePathClimbs` what it is for a target below or beside the base |
| RelativePath.ResolveRelativePath | js_import_resolve.py:50-65 | the lock-step loop returns the relative path built from the shared prefix, or `IndexError` where the source raises it |
| RelativePath.RelativePathFailsIff | js_import_resolve.py:55-58 | it raises `IndexError` exactly when the target's segments are a proper prefix of the base's |
| RelativePath.ReachesDown | js_import_resolve.py:61-62 | the `./rest` result, resolved against the base, leads to the base followed by `rest` |
| RelativePath.ReachesUp | js_import_resolve.py:63-65 | the `../..` result climbs once per unshared base segment and then descends into the rest of the target |
| RelativePath.RelativePathReaches | js_import_resolve.py:59-65 | the result, resolved against the base's segments, gives the target's segments when the target has no `.` or `..` segment |
| RelativePath.RelativePathDescends | js_import_resolve.py:67-70 | a target below the base gives `./` and the rest, for all segment names (the three `./` examples) |
| RelativePath.RelativePathClimbs | js_import_resolve.py:68 | a target beside the base gives one `..` per unshared base segment, `/`, and the rest of the target |
| PosixPath.JoinShape | js_import_resolve.py:86 | `os.path.join(dir, name)`: an absolute name replaces the directory; otherwise the join is the directory, one separating slash when the directory is non-empty and lacks a trailing one, then the name |
| PosixPath.Dirname | js_import_resolve.py:89 | `os.path.dirname` never lengthens the path |
| PosixPath.DirnameIsPrefix | js_import_resolve.py:89 | the parent is a prefix of the path |
| PosixPath.DirnameDropsLastName | js_import_resolve.py:89 | what `dirname` removes is a run of slashes and then the last name, which holds no slash |
| PosixPath.DirnameFixedPoint | js_import_resolve.py:85-89 | `dirname` fixes a path exactly when it is all slashes, `""` included, and strictly shortens every other path |
| PosixPath.DirnameExamples | js_import_resolve.py:89 | the parent of `/foo/bar` is `/foo`, and that of `/foo` is `/` |
| PosixPath.DirnameEdgeExamples | js_import_resolve.py:89 | the parent of `foo` is `""`, and `/foo/bar/` loses only its trailing slash |
| FileResolve.Candidate | js_import_resolve.py:73-77 | the variations tried: the path, `.js` appended unless it ends so, `.json` likewise; each extends the path by at most five characters |
| FileResolve.ResolveJsFilePath | js_import_resolve.py:72-81 | the result is an existing candidate among `p`, `p.js` and `p.json` (each added only when `p` does not already end so); the candidates are tried in that order; none exactly when no candidate exists |
| FileResolve.FindPackageRoot | js_import_resolve.py:83-89 | the counting `while` loop returns `PackageRoot`: the first directory on the way up, within 20 hops and before `/`, that holds a `package.json` |
| FileResolve.PackageRootFrom | js_import_resolve.py:85-89 | the walk from its `n`-th directory on: a result holds a `package.json` and is not `/` |
| FileResolve.PackageRootFromSpec | js_import_resolve.py:85-89 | from any reached step on, a result is a reached directory with a manifest and none before it, and no result means no reached directory has one |
| FileResolve.PackageRootSpec | js_import_resolve.py:83-89 | the result is the first of the at most 20 directories the walk reaches (never `/`) that holds a `package.json`, and an inclusive ancestor (prefix) of the start; none means none of them holds one |
| FileResolve.HasManifestLocation | js_import_resolve.py:86 | `HasManifest`, the test `os.path.isfile(os.path.join(dirname, 'package.json'))`: it holds exactly when `package.json` directly inside the directory is an existing file, that is `dir/package.json`, or `dir + "package.json"` when the directory is empty or ends in `/` |
| FileResolve.Ancestor | js_import_resolve.py:89 | the directory after `n` rounds of `dirname = os.path.dirname(dirname)`; it has no ensures of its own (one makes the package root proofs several times costlier): `AncestorIsPrefix` makes it a prefix of the start, and `AncestorStuck` fixes it on slash-only paths |
| FileResolve.AncestorIsPrefix | js_import_resolve.py:89 | every directory on the way up is a prefix of the start |
| FileResolve.AncestorStuck | js_import_resolve.py:84-89 | from a path made only of slashes other than `/`, such as `""`, the walk never moves, so only the counter stops it |
| Autocomplete.RequireTriggerAt | js_import_resolve.py:92 | `\brequire\s*\(['"]\w` at a position: `require` at a word start, whitespace, `(`, a quote and a word character; it needs at least ten characters |
| Autocomplete.FromTriggerAt | js_import_resolve.py:94 | `\bfrom\s* ['"]\w` at a position, with the greedy `\s*` giving back its final space; it needs at least seven characters |
| Autocomplete.MatchFrom | js_import_resolve.py:92-94 | `re.match('.*' + trigger)` holds exactly when the trigger matches at some position before the first newline |
| Autocomplete.ShouldDoAutocomplete | js_import_resolve.py:91-96 | true exactly when, before the first newline, `require\s*(` plus a quote and a word character, or `from`, whitespace ending in a space, a quote and a word character, starts at a word boundary |
| Autocomplete.FromTriggerIff | js_import_resolve.py:94 | the greedy reading of `\s* ` agrees with the pattern's plain meaning: whitespace, then a literal space |
| Autocomplete.NoTriggerExamples | js_import_resolve.py:98-101 | false for `""`, `foo`, `require` and `from` |
| Autocomplete.RequireTriggerExamples | js_import_resolve.py:102-103 | true for `var asd = require("a` and `var asd = require('a` |
| Autocomplete.FromTriggerExamples | js_import_resolve.py:104-105 | true for `import asd from "a` and `import asd from 'a` |

## Left out

- `JsImportResolveListener` (js_import_resolve.py:111-161) is not part of this model. It is editor glue: popups, completion lists, `json.loads`, `os.walk`, `fnmatch`. Two of its behaviours are worth recording:
  - the hover handler stops at the first relative specifier that resolves (line 122);
  - it reads `package_information['main']` without checking that the key exists, and it joins onto `find_package_root`'s result, which can be `None` (lines 126-131).
- The real filesystem is replaced by the set `files` of existing files. `os.path.isdir` and `open` are used only by the listener.
- PosixPath.Join: it models `os.path.join` of two components, because the modelled functions never pass more than two components. Its contract is the lemma `PosixPath.JoinShape` rather than an ensures of its own, which keeps the package root proofs small.
- Autocomplete.RequireTriggerAt: `\w` is approximated by ASCII letters, digits and `_`. Python also counts the other Unicode letters and digits.
- Autocomplete.FromTriggerAt: the same ASCII approximation of `\w`.
- Autocomplete.ShouldDoAutocomplete: inherits that approximation from `RequireTriggerAt` and `FromTriggerAt`.
- ImportExtract.RequireAt: `\b` before `require` is modelled as "not preceded by an ASCII letter, digit or `_`". Python also counts the other Unicode letters and digits as word characters, so on `érequire('x` the model reports a CommonJS match where Python reports none.
- Autocomplete.RequireTriggerAt, Autocomplete.FromTriggerAt and Autocomplete.ShouldDoAutocomplete: `\b` is modelled as "not preceded by a word character", with ASCII word characters. That agrees with Python's `\b` only because the `\b` in both patterns stands before a word character (`r` or `f`), and only for ASCII text before it.
- ImportExtract.EsImportExample: it covers specifiers without whitespace or `(`. All the asserted specifiers are of that kind; a specifier with them can change which `from` the greedy `.*` picks, or add a CommonJS match.
