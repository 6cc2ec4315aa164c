# pipupgrade: package registry and command rules, in Dafny

This project models the parts of pipupgrade that hold logic of their own.

- **The package registry** (`PackageSource`, in `src/pipupgrade/pubgrub.py`). The PubGrub version solver of the `mixology` library queries it. The registry keeps a nested table: package name, then extras, then version. Each version maps to either `None` or a list of dependencies. The model covers:
  - registering a release (`add`), including its duplicate rule;
  - registering the solver's synthetic root (`root_dep`);
  - the query for the versions a constraint admits, newest first (`_versions_for`);
  - the dependency lookup (`dependencies_for`);
  - the conversion of a parsed `semver` constraint into the solver's `Range` or `Union` (`convert_dependency`).
- **The command's string rules** (`src/pipupgrade/commands/__init__.py`):
  - highlighting the changed part of a version (`_cli_format_semver`);
  - the per-line rewrite of a requirements file (`_update_requirements`);
  - the test for which packages are reported;
  - the test for which packages are offered for update.
- **The terminal helpers** (`src/pipupgrade/cli/__init__.py`):
  - ANSI colour codes (`_format_ansi` and the colour constants);
  - colouring a text (`format`);
  - the prompt of `confirm` and how its answer is read.

Modules:

- `Results` (results.dfy) holds `Option`, `Result` and `Outcome`.
- `VersionAlgebra` (version_algebra.dfy) holds the library values the registry handles:
  - versions, ordered lexicographically on `(major, minor, patch)`;
  - `semver` ranges and unions;
  - `mixology` ranges and unions.

  Only point membership is modelled for them.
- `PubGrub` (pubgrub.dfy) is the registry. The registry is a class, `PackageSource`:
  - its fields are the table, the root dependencies, the root version and the root package;
  - `Add` and `RootDep` change the table in place;
  - `VersionsFor` is a loop over the keys.

  Each method is proved against a pure function or a contract, and the lemmas beside them give the properties.
- `Commands` (commands.dfy) and `Cli` (cli.dfy) are functions and lemmas. The one loop, `RewriteLines`, is a method.

The registry's table is nested as the source nests it. `add` stores the second level under the extras value. `_versions_for` and `dependencies_for` read that same level as if its keys were versions. The model keeps this. A second-level key is `ExtrasKey(extras)` or `VersionKey(version)`, and both queries are stated over "the keys at `_packages[package]`". Two consequences follow:

- `DependenciesFor` states that for a table whose second-level keys are all extras values (`ExtrasKeyed`), the lookup of any non-root package raises `KeyError` (`MissingKey`). Every table `add` and `root_dep` build is of that kind (`AddKeepsExtrasKeyed`, `RootRegistrationKeepsExtrasKeyed`). The class invariant `PackageSource.Valid` is this property: the constructor establishes it and `Add` and `RootDep` keep it.
- `VersionsFor` raises, as `Incomparable`, whenever an extras key has to be compared with a version.

The library calls the core relies on are parameters:

- `Version.parse` and `parse_constraint` (with the assumption `StarIsAny`: `"*"` parses to the unbounded range);
- `get_meta`'s answer;
- `semver.parse`;
- `cli_format`;
- the regular-expression search;
- `str()` of a range.

## Model

| member | source | states |
|---|---|---|
| VersionAlgebra.Point | src/pipupgrade/pubgrub.py:161-163 | `Range(v, v, True, True)` contains exactly `v` |
| VersionAlgebra.PointOverlapIsMembership | src/pipupgrade/pubgrub.py:161-163 | a constraint allows some version of `Range(v, v, True, True)` exactly when it allows `v` |
| VersionAlgebra.UnboundedAllowsEverything | src/pipupgrade/pubgrub.py:98 | the `"*"` constraint a bare `Dependency` gets admits every version |
| PubGrub.NewDependency | src/pipupgrade/pubgrub.py:96-99 | keeps the package's name and the given text. An absent or empty constraint becomes the unbounded `"*"` range. Otherwise the constraint is what the parser gives, and `InvalidConstraint` when it rejects the text |
| PubGrub.Put | src/pipupgrade/pubgrub.py:119-122 | the assignment `t[name][key][v] = e`. It creates the `name` and `key` levels only when missing, sets that entry, and leaves every other `(name, key, version)` entry and every other name's map unchanged |
| PubGrub.Unconstrained | src/pipupgrade/pubgrub.py:132-136 | one dependency per package, in order, with the package's name and the unbounded constraint |
| PubGrub.StoredEntry | src/pipupgrade/pubgrub.py:129-138 | `add` stores `None` exactly when `deps` is `None`, and otherwise the unconstrained list for `deps` |
| PubGrub.AddTo | src/pipupgrade/pubgrub.py:117-138 | `InvalidVersion` when the version text does not parse. For a parsed `v`, it fails, with `AlreadyExists(name, v)`, exactly when `deps` is given and `(name, extras, v)` already holds a list. On success: the entry at `(name, extras, v)` is the stored entry and every other entry is unchanged; the names are the old names plus `name`; every other name keeps its map; the second-level keys of `name` are the old ones plus `extras` (created only when missing); every other second-level key of `name` keeps its versions |
| PubGrub.AddWithoutDepsNeverConflicts | src/pipupgrade/pubgrub.py:124-130 | with `deps = None`, `add` fails only on an unparsable version, and overwrites the entry with `None` |
| PubGrub.AddKeepsExtrasKeyed | src/pipupgrade/pubgrub.py:119-122 | `add` keys the second level by extras only, so a table whose second-level keys are all extras stays so |
| PubGrub.AddReleases | src/pipupgrade/pubgrub.py:146-147 | the releases loop raises only `InvalidVersion` of one of the release texts, and only for a text that does not parse |
| PubGrub.AddReleasesStopsAtFirstFailure | src/pipupgrade/pubgrub.py:146-147 | an exception of the releases loop comes from the first release that does not parse: every earlier release parses, and the table is the one reached over those earlier releases |
| PubGrub.AddReleasesStaysWithin | src/pipupgrade/pubgrub.py:146-147 | the releases loop adds at most the name `name` and at most the second-level key `extras`. Every other name keeps its map, every other second-level key of `name` keeps its versions, and a table keyed by extras only stays so |
| PubGrub.AddReleasesRegistersEach | src/pipupgrade/pubgrub.py:146-147 | the releases loop stops with an error exactly when some release text does not parse. When all parse, every release's version holds `None` and no other entry changes |
| PubGrub.RequiredPackages | src/pipupgrade/pubgrub.py:149-151 | one package per metadata dependency name, in order |
| PubGrub.RootRegistration | src/pipupgrade/pubgrub.py:140-153 | an unparsable root constraint leaves everything unchanged. Otherwise exactly one root dependency, built from the constraint, is appended, whatever happens next. The names afterwards are the old ones, plus possibly the package's; every other name keeps its map; the package's second-level keys gain at most its extras |
| PubGrub.RootRegistrationRegistersRoot | src/pipupgrade/pubgrub.py:140-153 | when every text parses: the appended root dependency carries the constraint. The call fails exactly when the constraint's version is not a release and already held a list. On success that version holds one unconstrained dependency per metadata dependency, and every other release holds `None`. Whatever the outcome, every entry outside the package's extras level, and every version there that is neither a release nor the constraint's, is unchanged |
| PubGrub.RootRegistrationKeepsExtrasKeyed | src/pipupgrade/pubgrub.py:140-153 | `root_dep` adds only extras keys at the second level, so a table keyed by extras only stays so |
| PubGrub.ConvertDependency | src/pipupgrade/pubgrub.py:173-195 | keeps the name and admits exactly the versions the source constraint admits. A single range copies min, max and both flags and takes the dependency's text. A union gives one range per member, in order, with the same bounds and flags |
| PubGrub.PrependDescending | src/pipupgrade/pubgrub.py:166 | a version newer than every element of a strictly descending list can be put in front of it |
| PubGrub.InsertDescending | src/pipupgrade/pubgrub.py:166 | inserting a new version into a strictly descending list keeps it strictly descending, with one more element |
| PubGrub.SortDescending | src/pipupgrade/pubgrub.py:166 | `sorted(..., reverse=True)` of distinct versions: the same elements, strictly descending |
| PubGrub.DescendingIsDistinct | src/pipupgrade/pubgrub.py:166 | a strictly descending list holds no key twice |
| PubGrub.CollectAdmitted | src/pipupgrade/pubgrub.py:159-164 | the loop keeps exactly the keys the constraint admits (all keys without one), each once. It raises `Incomparable` exactly when a constraint must be tested on an extras key |
| PubGrub.CreateLevels | src/pipupgrade/pubgrub.py:119-138 | after the two level-creating steps, `(name, extras, v)` holds a list exactly when it did before, and the table is the old one in that case. Assigning the entry then gives `Put` of the old table |
| PubGrub.PackageSource.constructor | src/pipupgrade/pubgrub.py:105-108 | root version `0.0.0`, no root dependencies, an empty table, so `Valid` holds |
| PubGrub.PackageSource.Add | src/pipupgrade/pubgrub.py:117-138 | the new table is `AddTo` of the old one on success. On failure, nothing changes and the error is returned. `Valid` is kept |
| PubGrub.PackageSource.RootDep | src/pipupgrade/pubgrub.py:140-153 | the new table, root dependencies and outcome are those of `RootRegistration`. `Valid` is kept |
| PubGrub.PackageSource.VersionsFor | src/pipupgrade/pubgrub.py:155-166 | `[]` for an unknown package. Otherwise: exactly the keys at `_packages[package]` the constraint admits (all of them without a constraint), strictly descending. Raises `Incomparable` exactly when an extras key meets a constraint, or when two or more keys, one of them extras, are sorted |
| PubGrub.PackageSource.DependenciesFor | src/pipupgrade/pubgrub.py:168-171 | the root dependencies for the root package. Otherwise it is the stored level at `_packages[package][version]`, or `MissingKey` when a key is absent. In a `Valid` registry no non-root lookup succeeds |
| Commands.Find | src/pipupgrade/commands/__init__.py:36 | `str.find`: -1 exactly when no index at or after `start` holds the character, otherwise the first such index |
| Commands.SplitPoint | src/pipupgrade/commands/__init__.py:36-37 | one past the first dot at an index at or after `start`, or 0 (empty head) when there is none |
| Commands.HighlightFrom | src/pipupgrade/commands/__init__.py:37-42 | the head before index `i`, verbatim, followed by the highlighted tail |
| Commands.FormatSemver | src/pipupgrade/commands/__init__.py:26-46 | unchanged when the text is not valid semver or the diff type is neither major, minor nor patch. `major` highlights everything. `minor` and `patch` keep the head before the split point (searched from index 1 and 2) verbatim and highlight the tail |
| Commands.MinorHighlightsAfterMajor | src/pipupgrade/commands/__init__.py:35-38 | for `major.rest`, a minor difference keeps `major.` and highlights `rest`, whatever the length of `major` |
| Commands.PatchHighlightsPatchOfShortMajor | src/pipupgrade/commands/__init__.py:39-42 | with a one-character major number, a patch difference keeps `major.minor.` and highlights only the patch |
| Commands.PatchHighlightsMinorOfLongMajor | src/pipupgrade/commands/__init__.py:39-42 | for every major number of two or more characters, the patch search begins at or before the first dot. So everything after the major number is highlighted (`10.2.3` highlights `2.3`) |
| Commands.FormatSemverIntended | src/pipupgrade/commands/__init__.py:39-42 | agrees with `FormatSemver` except for patch differences, which split after the second dot |
| Commands.IntendedPatchHighlightsPatch | src/pipupgrade/commands/__init__.py:39-42 | for any `major.minor.patch`, the intended rule keeps `major.minor.` and highlights only `patch` |
| Commands.ReplaceAbsent | src/pipupgrade/commands/__init__.py:93-96 | a line without `==current` is left as it is by the replacement |
| Commands.ReplaceBySelf | src/pipupgrade/commands/__init__.py:93-96 | replacing a text by itself changes nothing |
| Commands.ReplaceAll | src/pipupgrade/commands/__init__.py:93-96 | `str.replace` introduces no character absent from both the line and the replacement (in particular no newline) |
| Commands.ReplaceEveryPin | src/pipupgrade/commands/__init__.py:93-96 | for any line `x + pattern + y` in which no occurrence of the pattern starts inside `x`: `x` is kept, that first occurrence is replaced, and the replacement carries on in `y`. Applied once per occurrence, every occurrence is replaced, left to right |
| Commands.ReplacePin | src/pipupgrade/commands/__init__.py:93-96 | `name` followed by the pattern becomes `name` followed by the replacement, when no occurrence of the pattern starts inside the name |
| Commands.NoPinInside | src/pipupgrade/commands/__init__.py:93-94 | no `==current` starts inside a name holding no `=` |
| Commands.RewriteLine | src/pipupgrade/commands/__init__.py:92-96 | a line the pattern does not match is kept. A rewritten line holds only characters of the line or of `==` and the latest version as `%s` shows it (`None` for an unknown version) |
| Commands.RewriteLineUnchanged | src/pipupgrade/commands/__init__.py:92-96 | a line comes out unchanged when the pattern does not match, when it holds no `==current`, or when the latest version is known and equals the current one |
| Commands.RewritePinnedLine | src/pipupgrade/commands/__init__.py:92-96 | a matching line `name==current` is written as `name==latest` when the latest version is known |
| Commands.UnknownLatestWritesNone | src/pipupgrade/commands/__init__.py:93-96 | when PyPI does not know the package (`latest_version` is `None`), a matching line `name==current` is written as `name==None` |
| Commands.IntendedKeepsUnknownPins | src/pipupgrade/commands/__init__.py:93-96 | the corrected rewrite `RewriteLineIntended` keeps a line whose latest version is unknown, and writes a matching `name==current` as `name==latest` when it is known |
| Commands.RewriteAll | src/pipupgrade/commands/__init__.py:91-98 | one rewritten line per input line, in order |
| Commands.SplitAtNewlines | src/pipupgrade/commands/__init__.py:98-101 | reads a written text back as lines: at least one line, none holding a newline. It is not `str.splitlines` |
| Commands.Join | src/pipupgrade/commands/__init__.py:98-101 | the text the loop writes: each line, with a newline after every line but the last |
| Commands.JoinEnds | src/pipupgrade/commands/__init__.py:98-101 | the loop writes nothing for no lines. Otherwise the text starts with the first line and ends with the last, with no newline after it |
| Commands.JoinSnoc | src/pipupgrade/commands/__init__.py:98-101 | appending a line to the joined text adds one newline and the line |
| Commands.SplitJoin | src/pipupgrade/commands/__init__.py:98-101 | lines without newlines, joined by `"\n"`, split back into the same lines |
| Commands.RewriteKeepsLines | src/pipupgrade/commands/__init__.py:87-101 | the written text has exactly as many lines as the input, separated by `"\n"`, with none after the last, each the rewritten input line |
| Commands.RewriteLines | src/pipupgrade/commands/__init__.py:87-101 | the loop writes exactly the rewritten lines joined by newlines. The latest version is optional and is written as `%s` shows it |
| Commands.Filter | src/pipupgrade/commands/__init__.py:223 | a comprehension with a condition keeps exactly the accepted elements and is no longer than its input |
| Commands.FilterConcat | src/pipupgrade/commands/__init__.py:223 | filtering distributes over concatenation, so it keeps the input's order |
| Commands.FilterAll | src/pipupgrade/commands/__init__.py:223 | with a condition every element passes, the comprehension returns its input |
| Commands.IsOutdated | src/pipupgrade/commands/__init__.py:189 | the test for a listed package: a latest version is known and non-empty, and differs from the current one |
| Commands.AutoSelected | src/pipupgrade/commands/__init__.py:223 | the test for an offered package: its difference is not major, or `latest` is set |
| Commands.Report | src/pipupgrade/commands/__init__.py:189 | a package is listed exactly when its latest version is known, non-empty and differs from the current one |
| Commands.SelectForUpdate | src/pipupgrade/commands/__init__.py:223 | a listed package is offered exactly when its difference is not major or `latest` is set. With `latest`, every listed package is offered |
| Commands.SelectedAreOutdated | src/pipupgrade/commands/__init__.py:189-223 | every package offered for update was in the input and is outdated. There are no more offers than input packages |
| Cli.FormatAnsi | src/pipupgrade/cli/__init__.py:16-17 | `ESC [`, then the code, then `m` |
| Cli.AnsiCode | src/pipupgrade/cli/__init__.py:16-17 | a code read out of a text is one that `_format_ansi` builds the text from |
| Cli.AnsiRoundTrip | src/pipupgrade/cli/__init__.py:16-17 | reading the code back from `_format_ansi(x)` gives `x` |
| Cli.ColoursAreDistinct | src/pipupgrade/cli/__init__.py:19-24 | the six colour constants carry the codes `0;1`, `0;91`, `0;92`, `0;93`, `0;96`, `0` and are pairwise different |
| Cli.Format | src/pipupgrade/cli/__init__.py:37-39 | the colour, then the text, then `CLEAR` |
| Cli.Unformat | src/pipupgrade/cli/__init__.py:37-39 | a text recovered from a coloured one is one that `format` builds it from |
| Cli.FormatRoundTrip | src/pipupgrade/cli/__init__.py:37-39 | removing the colour and `CLEAR` from `format(s, t)` gives `s` |
| Cli.Prompt | src/pipupgrade/cli/__init__.py:27-28 | the query followed by `" [Y/n]: "`, or by `" [Y/n/q]: "` when quitting is allowed |
| Cli.PromptQuery | src/pipupgrade/cli/__init__.py:27-28 | a query recovered from a prompt is one the prompt is built from |
| Cli.PromptRoundTrip | src/pipupgrade/cli/__init__.py:27-28 | the query can be read back from its prompt |
| Cli.Classify | src/pipupgrade/cli/__init__.py:13-35 | yes exactly for `""`, `"y"` and `"Y"`. Quit exactly when quitting is allowed and the answer is `"q"` or `"Q"`. No otherwise |
| Cli.QuitNeedsQuitOption | src/pipupgrade/cli/__init__.py:31-35 | without the quit option, `q` and `Q` decline. With it, they quit |

## Left out

- The PubGrub solving algorithm (propagation, conflict resolution, backtracking) belongs to the `mixology` library, not to this code.
- `mixology`'s `PackageSource` base class is not part of this model. The root package it provides is a constructor parameter.
- `populate_db` is not modelled: file timestamps, an HTTP download and gzip.
- `get_meta` is not modelled: its process-wide cache and its JSON file. `RootDep` receives its answer, the release texts and the dependency names, as a `Metadata` parameter.
- `_parse_dependencies` is not modelled: it wraps `pkg_resources`. Only the names of the requirements are used.
- `VersionAlgebra.Version` has only `major.minor.patch`. The pre-release and build parts of `mixology`'s and `semver`'s versions are not modelled. So two releases that differ only there (`1.0.0rc1` and `1.0.0`) are distinct dictionary keys in the source but may be one key in the model, if the parser parameter maps them to the same value.
- `Version.parse` and `parse_constraint` are parameters (`Parsers`). A bare version, which `semver` treats as a one-point range, is covered only as a `SingleInterval`. `semver`'s empty constraint is not modelled.
- `PubGrub.ConvertDependency`: `Union.of` is modelled as keeping the list of ranges as given. The library's merging and sorting of the list is not modelled.
- `PubGrub.ConvertDependency`: `str(_range)` is the parameter `render`.
- `PubGrub.PackageSource.VersionsFor`: the test `not constraint` is read as "no constraint was passed". Whether an empty `Union` counts as false depends on `mixology`.
- `PubGrub.PackageSource.VersionsFor`: comparing an extras value with a version, or two keys one of which is extras, is reported as `Incomparable`. What the libraries do there depends on the type of extras, which is not part of this model.
- `PubGrub.PackageSource.VersionsFor`: the keys are visited as a set rather than in dictionary order. Only the error case can tell orders apart, and it is the same whichever key comes first.
- `Dependency.__str__` is left out: it only returns the constraint's text, and that text is kept as `prettyConstraint`.
- `Package(name)` for a metadata dependency gets empty extras (`NoExtras`). The default of the `Package` class is not part of this model, and only the name is read.
- `command()`'s orchestration is not modelled: `pip` installs, PyPI requests (`_get_pypi_info`, `PackageInfo`), `Table` rendering, git calls, `sys.exit`, and `_get_included_requirements`.
- `semver.difference` is not modelled. Its answer is the `diffType` field of `PackageInfo`.
- `_SEMVER_COLOR_MAP` is not modelled: the colouring of names by difference is I/O formatting.
- `Commands.FormatSemver`: `semver.parse` is the predicate `isSemver`. `cli_format` is the parameter `cliFormat`. An exception raised by `cli_format` itself is not modelled.
- `Commands.RewriteLines`: reading and writing the file and the restore-on-exception path are left out. The loop receives the lines and returns the text it writes.
- `Commands.RewriteLines`: a current version of `None` is not modelled; the current version is a text. With `None`, `re.escape` raises while the pattern is built, and the source restores the file as it was.
- `Commands.RewriteKeepsLines`: `content.splitlines()` (line 87) is not modelled; its lines are the loop's input. `SplitAtNewlines` only reads the written text back. Unlike `splitlines`, it splits only at `"\n"`, gives `[""]` for `""` and keeps a trailing empty piece. The round trip is therefore stated for at least one line. For no lines, the loop writes `""` (`JoinEnds`).
- `Commands.RewriteLines`: the regular-expression search is the predicate `matches`. The pattern is the escaped name followed by a starred group, so it matches any line that contains the name, with case ignored.
- `echo`, the `input`, `print` and `sys.exit` of `confirm`, and the `command` decorator's argument merging are terminal I/O and are left out. `Classify` returns `Quit` where the source exits.

## Findings

| source | as written | input that shows it | evidently intended | confidence | as-written member | corrected member |
|---|---|---|---|---|---|---|
| src/pipupgrade/commands/__init__.py:39-42 | for a patch difference, the dot search starts at index 2 | `10.2.3` with a patch difference highlights `2.3` (as for every major number of two or more characters) | only the patch number `3` is highlighted, as for one-digit majors (proved of the corrected rule by Commands.IntendedPatchHighlightsPatch) | medium, not executed | Commands.PatchHighlightsMinorOfLongMajor | Commands.FormatSemverIntended |
| src/pipupgrade/commands/__init__.py:93-96 | the line is rewritten with `"==%s" % package.latest_version`, which is `None` for a package PyPI does not know (lines 72-74); the rewrite runs for every requirement (lines 208-209) | `private-pkg==1.0`, for a package PyPI does not know, is written back as `private-pkg==None` | a line whose latest version is unknown is left as it is (proved of the corrected rewrite by Commands.IntendedKeepsUnknownPins) | medium, not executed | Commands.UnknownLatestWritesNone | Commands.RewriteLineIntended |
