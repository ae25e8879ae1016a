# webarcade CLI plugin builder, modelled in Dafny

This project models the decision and string routines of the `webarcade`
command-line tool (`src/main.rs`). The tool builds the plugins of a WebArcade
desktop application. For each plugin directory it decides whether the sources
changed since the last successful build. It then builds the stale plugins and
records a source digest for each one in a build cache.

Before a build it terminates any running copy of the application, so that no
process holds a plugin library open. When it generates the backend glue, it
reads the plugin's `[routes]` table and `router.rs`: it derives the route
list, the exported handlers, the plugin struct name and the embedded string
literals.

Modules:

- `Text`: string helpers the other modules share (substring search, trimming,
  ASCII case mapping, splitting, lexicographic order).
- `Versions`: `compare_versions`, the lenient `major.minor.patch` comparison.
- `Fingerprint`: the source fingerprint (`calculate_plugin_hash`) and the
  artifact file name.
  - Which files are hashed, and in which order.
  - What the hasher is fed.
  - The expected artifact name per OS.
- `Cache`: the build cache.
  - The `BuildCache` class with `get` and `set`.
  - `load`, `plugin_needs_rebuild` and `update_build_cache`.
- `Routes`: `extract_routes`, `extract_handlers`, `has_routes` and
  `get_plugin_struct_name`. It also covers the literal escaping and the
  handler-call shape of `create_lib_rs`.
- `ProcessGuard`: the process-termination test of
  `kill_running_app_processes`.
- `PluginMeta`: the field merge of `PluginInfo::from_dir`.
- `Batch`: the partition and counting of `build_all_plugins` and
  `build_plugin`.

The filesystem, TOML/JSON parsing, the router regex and SHA-256 are replaced
by inputs:

- A plugin directory is a finite map from relative path (a sequence of
  components) to file contents, plus the order in which the walker yields its
  files.
- SHA-256 with hex rendering is a function parameter `sha` from the byte
  stream fed to the hasher to a digest string.
- A parsed `[routes]` table is a sequence of (key, value) pairs in iteration
  order.
- `router.rs` is a map from handler name to the text between the parentheses
  of its `pub async fn` signature.
- The clock is a `now` parameter.
- Per-plugin builds are oracles; killing a process is not modelled, and its outcome never fails a build.

## Model

| member | source | states |
|---|---|---|
| Versions.ParseU32 | src/main.rs:349-359 | `str::parse::<u32>` succeeds iff the text is one optional `+` followed by at least one digit and nothing else, and its value is the decimal value of those digits, below 2^32 |
| Versions.CompareVersions | src/main.rs:345-371 | the comparison is None exactly when one of the two versions fails to parse; otherwise it is Less, Equal or Greater exactly as the lexicographic order on the parsed (major, minor, patch) says |
| Versions.ParseVersion | src/main.rs:346-366 | a parsed version has every number below 2^32 |
| Versions.ParseParts | src/main.rs:348-365 | over the dot-separated parts: the major is the first part, the minor the second and the patch the third cut at its first `-`; a missing minor or patch reads as 0; parsing fails exactly when one of the parts present fails to parse |
| Versions.CompareTriplesMeaning | src/main.rs:370 | the tuple comparison is the lexicographic order on (major, minor, patch): Less, Equal or Greater exactly as that order says |
| Versions.CompareVersionsAntisymmetric | src/main.rs:345-371 | swapping the arguments reverses the answer, and both directions fail together |
| Versions.CompareVersionsTransitive | src/main.rs:345-371 | older-than is transitive |
| Versions.ParseRenderVersion | src/main.rs:346-365 | a rendered `a.b.c` with parts below 2^32 parses back to (a, b, c) |
| Versions.MissingPatchIsZero | src/main.rs:354-359 | `a.b` compares Equal to `a.b.0` |
| Versions.SuffixIgnored | src/main.rs:348-353 | a `-suffix` after the patch number is ignored, whatever it holds, dots included (`1.2.3-rc.1` is 1.2.3) |
| Versions.LeadingVIgnored | src/main.rs:347 | leading `v`s are ignored, any number of them |
| Versions.TrimLeadingV | src/main.rs:347 | `trim_start_matches('v')` leaves a suffix of the input that does not start with `v`, and everything it removed is `v` |
| Text.Split | src/main.rs:347 | `split` yields at least one piece, no piece holds the separator, and joining the pieces with the separator gives back the text, so the empty-parts branch of the parse closure is dead |
| Fingerprint.Extension | src/main.rs:1497 | `Path::extension`: an extension, when there is one, holds no dot, the file name ends with a dot and that extension, and a non-empty stem precedes it; there is none exactly when no character after the first is a dot |
| Fingerprint.SelectFilesCount | src/main.rs:1492-1513 | a walked file is kept, as often as it is walked, exactly when its extension is a source extension, no component below the plugin directory is `target`/`node_modules`/`.git`, and its name is not a lock file (the corrected selection; see `SelectFilesAsWrittenBelowCleanRoot` for when it equals the source's) |
| Fingerprint.SortPaths | src/main.rs:1517 | the sorted file list is ordered by component-wise path order and is a permutation of the selected files |
| Fingerprint.SortedUnique | src/main.rs:1517 | two sorted permutations of one list are equal, so any correct sort gives the same order |
| Fingerprint.PathLessTransitive | src/main.rs:1517 | the path order is transitive |
| Fingerprint.PathLessAsymmetric | src/main.rs:1517 | the path order is asymmetric and irreflexive |
| Fingerprint.PathLessTotal | src/main.rs:1517 | any two distinct paths are ordered one way or the other |
| Fingerprint.CalculatePluginHash | src/main.rs:1486-1531 | the loop that collects, sorts and feeds the files computes the digest of the sorted selection: each file's relative path, then its contents when readable. The selection is the corrected one (components below the plugin directory); `SelectFilesAsWrittenBelowCleanRoot` shows it is the source's whenever no component of the plugin directory's own path is excluded |
| Fingerprint.HashInputDependsOnSelectedOnly | src/main.rs:1486-1531 | two walks with the same hashed files and the same hashed contents feed the hasher the same bytes: unselected files and the walk order do not matter (corrected selection, as above) |
| Fingerprint.HashIndependentOfWalkOrder | src/main.rs:1517 | walking the same files in another order gives the same digest (corrected selection, as above) |
| Fingerprint.ContentChangeAltersHashInput | src/main.rs:1520-1530 | changing the bytes of one hashed file, to contents of any length, changes the hasher's input |
| Fingerprint.RenameChangingLengthAltersHashInput | src/main.rs:1519-1527 | renaming a hashed file to an unused hashed name whose path bytes have another length changes the hasher's input (its length changes by the difference) |
| Fingerprint.RenameCanCollide | src/main.rs:1519-1527 | as written, renaming the empty file `a.jsb.js` to `b.jsa.js` beside an empty `a.jsb.jsa.js` leaves the hasher's input unchanged, though the comment at line 1520 promises renames are detected |
| Fingerprint.RenameAltersHashInput | src/main.rs:1519-1527 | with the corrected input of (path, contents) pairs, renaming a hashed file to any other name always changes the input |
| Fingerprint.PairInput | src/main.rs:1517-1527 | the corrected input lists the sorted selected files, one pair per file, in order: each file's relative path with its contents, or no bytes when it cannot be read |
| Fingerprint.AsWrittenAgreesBelowCleanRoot | src/main.rs:1502-1505 | when no component of the plugin directory's own path is `target`/`node_modules`/`.git`, the test as written and the corrected one agree on every file below it |
| Fingerprint.SelectFilesAsWrittenBelowCleanRoot | src/main.rs:1492-1520 | under such a plugin directory the selection as written is the corrected one, and so is the whole hash input |
| Fingerprint.NothingSelectedUnderExcludedRoot | src/main.rs:1502-1505 | as written, a plugin directory with an excluded component anywhere in its absolute path selects no file |
| Fingerprint.PluginNamedTargetIgnoresEdits | src/main.rs:1502-1505 | as written, editing `mod.rs` of a plugin at `plugins/target` leaves the hash input unchanged, while the corrected selection sees the edit |
| Fingerprint.ArtifactName | src/main.rs:1537-1550 | the expected artifact is `<id>.dll`, `lib<id>.dylib` or `lib<id>.so` for a backend plugin on Windows, macOS or another OS, and `<id>.js` without a backend |
| Fingerprint.ArtifactNameInjective | src/main.rs:1537-1550 | distinct plugins, or a backend and a frontend build of one plugin, never share an artifact name on one OS |
| Fingerprint.ArtifactLastChar | src/main.rs:1537-1550 | the artifact name ends in `s` iff the plugin has no backend |
| Cache.LoadCache | src/main.rs:1449-1457 | `load` fails only when the cache file cannot be read; a missing or unparsable file gives the empty cache |
| Cache.BuildCache.Get | src/main.rs:1469-1471 | `get` finds an entry exactly for the ids in the map, and returns that entry |
| Cache.BuildCache.Set | src/main.rs:1473-1482 | after `set(id, h)`, `get(id)` holds `h` with the given time, and every other id's entry is unchanged |
| Cache.BuildCache.Save | src/main.rs:1459-1467 | loading what `save` wrote gives back the map |
| Cache.NeedsRebuild | src/main.rs:1535-1567 | a missing artifact means rebuild, decided before the cache is read; with the artifact in place a rebuild is asked for only when the cache is readable and lacks the id or holds another digest than the current one; the backend test looks at the files that exist at the top of the plugin directory (the digest is over the corrected selection, as in `Fingerprint`) |
| Cache.SkipExactlyWhenUpToDate | src/main.rs:1535-1567 | a plugin is reported up to date exactly when its artifact exists, the cache is readable, and the cache holds the freshly computed digest for it (the digest is over the corrected selection, as in `Fingerprint`) |
| Cache.NeedsRebuildFailsOnlyOnUnreadableCache | src/main.rs:1553-1558 | the decision fails exactly when the artifact exists and the cache cannot be read; a missing artifact means rebuild without reading the cache (the digest is over the corrected selection, as in `Fingerprint`) |
| Cache.UpdateBuildCache | src/main.rs:1571-1576 | recording a build fails only on an unreadable cache; otherwise the stored map is the old one with the id's entry replaced by the current digest and time (the digest is over the corrected selection, as in `Fingerprint`) |
| Cache.UpToDateAfterUpdate | src/main.rs:1535-1576 | after a build is recorded, unchanged sources with the artifact in place are not rebuilt (the digest is over the corrected selection, as in `Fingerprint`) |
| Cache.EditAfterUpdateRebuilds | src/main.rs:1535-1567 | after a build is recorded, editing a hashed file always changes the hasher's input, and makes the plugin stale provided the hash gives the two inputs different digests (the digest is over the corrected selection, as in `Fingerprint`) |
| Cache.UpdateLeavesOthers | src/main.rs:1571-1576 | recording one plugin's build changes no other plugin's decision (the digest is over the corrected selection, as in `Fingerprint`) |
| Routes.SplitAtFirstSpace | src/main.rs:2607-2608 | `splitn(2, ' ')` gives two parts iff the key has a space; the method has no space and method + " " + path is the key |
| Routes.SplitAtFirstSpaceUnique | src/main.rs:2607-2608 | the split is the only one whose method has no space, so the path keeps any later spaces |
| Routes.RouteOfMeaning | src/main.rs:2605-2615 | a row gives route (m, p, h) iff its value is the string h and its key is m, a space, then p, with no space in m |
| Routes.ExtractRoutes | src/main.rs:2597-2621 | `extract_routes` fails only on an unreadable Cargo.toml; otherwise it gives one route per qualifying row, in table order |
| Routes.RoutesOfComplete | src/main.rs:2605-2615 | every string-valued row whose key has a space contributes its route |
| Routes.RoutesOfSound | src/main.rs:2605-2615 | every route comes from a row of the table |
| Routes.ExtractHandlers | src/main.rs:2372-2411 | `extract_handlers` fails only when Cargo.toml or router.rs cannot be read; otherwise it lists the table's handlers once each, in first-seen order, with each flag set by the parameter test on the handler's signature (false without a match) |
| Routes.HandlerNamesDistinct | src/main.rs:2382-2384 | no handler is listed twice |
| Routes.HandlerNamesComplete | src/main.rs:2380-2386 | every string value of the table is listed |
| Routes.HandlerNamesSound | src/main.rs:2380-2386 | every listed handler is a string value of the table |
| Routes.HandlerNamesPrefix | src/main.rs:2380-2386 | the handlers of a prefix of the table are a prefix of the list, so names appear in first-seen order |
| Routes.TakesRequestTextMeaning | src/main.rs:2400-2404 | the request flag is set iff the parameter text contains `Request` or `:`; the trim, the non-empty test and the `HttpRequest` alternative add nothing |
| Routes.EmptyParamsNoRequest | src/main.rs:2400-2401 | a parameter list that is empty or all whitespace never takes the request |
| Routes.HasRoutes | src/main.rs:1959-1972 | `has_routes` holds exactly when the routes table the generators iterate over is non-empty; a missing or unreadable Cargo.toml has none |
| Routes.HandlersNeedRoutes | src/main.rs:1959-1972 | a non-empty handler list implies `has_routes`, so its wrappers are generated |
| Routes.RoutesNeedRoutes | src/main.rs:1959-1972 | a non-empty route list implies `has_routes` |
| Routes.StructName | src/main.rs:2414-2426 | the struct name is the id with `_`/`-` dropped, its first letter and each letter after a separator upper-cased, then `Plugin` |
| Routes.PascalCaseWords | src/main.rs:2415-2424 | capitalising the pieces of the split equals the character-level description |
| Routes.UnescapeEscapeLiteral | src/main.rs:2112-2113 | the escaped text, read back as a Rust string literal, is the original with carriage returns removed |
| Routes.EscapeLiteralEach | src/main.rs:2112-2113 | the four chained replaces escape each character independently: a later replace never rewrites what an earlier one produced |
| Routes.EscapeLiteral | src/main.rs:2112-2113 | the escaped text has no raw line break or carriage return |
| Routes.HandlerCall | src/main.rs:2121-2125 | a handler call names its handler and passes the request exactly when the flag is set; both can be read back from the call |
| Routes.HandlerCalls | src/main.rs:2116-2125 | without routes no wrapper is generated; otherwise one call per extracted handler, with the request exactly for handlers that take it |
| ProcessGuard.AppName | src/main.rs:1588-1602 | the application name is `package.name` of app/Cargo.toml when it has one, `webarcade` when the file is missing, not TOML or has no string name; only an unreadable file is an error |
| ProcessGuard.ShouldKill | src/main.rs:1615-1643 | the flag raised check by check equals the one-condition kill test |
| ProcessGuard.CandidateMentionsApp | src/main.rs:1621-1641 | a process that is killed has the lower-cased application name in its name or its executable path |
| ProcessGuard.UnrelatedProcessSpared | src/main.rs:1621-1641 | a process whose name and path avoid the application name is spared, even in the build output directory |
| ProcessGuard.NamedLikeAppIsCandidate | src/main.rs:1621-1624 | a process named `<app>` or `<app>.exe` is killed wherever it runs from |
| ProcessGuard.CandidateIgnoresCase | src/main.rs:1616-1641 | the test ignores the case of the process name and the application name |
| ProcessGuard.SelectVictims | src/main.rs:1615-1653 | the first pass selects exactly the processes that pass the test, in enumeration order |
| ProcessGuard.CandidatesMembership | src/main.rs:1615-1653 | a process is selected iff it is listed and passes the test |
| ProcessGuard.SecondPassWithinFirst | src/main.rs:1669-1682 | the second, name-only pass never reaches a process the first pass spared |
| PluginMeta.FromDir | src/main.rs:237-337 | the step-by-step overwrites give, field by field, the first source in order of precedence |
| PluginMeta.RejectsOnlyNonPlugins | src/main.rs:238-243 | a directory is rejected iff it has neither a backend (`mod.rs` and `Cargo.toml`) nor a frontend (`index.jsx` or `index.js`) |
| PluginMeta.PackageJsonFirst | src/main.rs:258-276 | package.json's name and author win when given, and the description comes from package.json only |
| PluginMeta.CargoVersionWins | src/main.rs:279-294 | a backend's Cargo.toml version beats package.json's, unless it reads exactly `1.0.0` |
| PluginMeta.DeclaredDefaultVersionYields | src/main.rs:297 | a declared `1.0.0` cannot be told from the default, so the entry file's version replaces it |
| PluginMeta.EntryFileIgnoredWhenVersionKnown | src/main.rs:297-333 | once a version other than `1.0.0` is known, the entry file's contents do not matter |
| PluginMeta.VersionDefaultsWhenUndeclared | src/main.rs:246-256 | with no source declaring a version, the version is `1.0.0` |
| Batch.CollectPluginIds | src/main.rs:1697-1705 | the plugins are the sub-directories of the plugins directory, in listing order |
| Batch.PluginIdsMembership | src/main.rs:1697-1705 | an id is a plugin iff a directory entry of that name is a directory |
| Batch.PartitionPlugins | src/main.rs:1720-1734 | with `force` every plugin is built and none skipped; otherwise to_build and skipped together hold each plugin as often as the listing does, in order |
| Batch.SkippedOnlyWhenUpToDate | src/main.rs:1726-1733 | a plugin is skipped only when not forced and its decision said up to date, so a decision error means build |
| Batch.ExactlyOneSide | src/main.rs:1723-1734 | each plugin lands in exactly one of to_build and skipped |
| Batch.BuildEach | src/main.rs:1753-1770 | every plugin to build is tried once: successes plus failures equal the number of plugins to build, and failures count the failing builds |
| Batch.BatchFailsIffABuildFails | src/main.rs:1773-1786 | the failure count is positive iff some plugin to build failed |
| Batch.BuildAllPlugins | src/main.rs:1689-1789 | a missing or unreadable plugins directory fails and an empty one succeeds, both with nothing done; with plugins to consider, an unreadable app/Cargo.toml fails before any decision (a process that survives the kill is no error); otherwise the report holds the partition and the counts, and the call fails iff some build failed |
| Batch.BuildPlugin | src/main.rs:1791-1812 | an unreadable app/Cargo.toml fails with nothing built; otherwise a plugin is built iff forced or not reported up to date; a skipped plugin succeeds; a built one succeeds iff its build does |
| Batch.SingleAgreesWithBatch | src/main.rs:1791-1812 | building one plugin and a batch of that plugin alone agree on whether it is built |

## Left out

- Filesystem access is not modelled. This covers `WalkDir`, `read_dir`, `fs::read`/`write`, `get_repo_root`, `get_plugins_dir` and `get_dist_plugins_dir`, and their failures. Directory contents, listings and file readability are inputs.
- SHA-256 and the hex rendering of its result are a function parameter.
- TOML and JSON parsing and serialisation are not modelled. Parsed tables and fields are inputs, and the JSON layout of the cache and of `create_manifest` is left out.
- The regexes are not modelled: the router signature match and the `version:`/`name:`/`author:` literal search in `from_dir`. Their first captures are inputs.
- Enumerating processes, killing them and the grace-period sleeps are OS side effects. Only the choice of processes is modelled.
- Subprocesses (cargo, bun), the `lib.rs` templates apart from the handler call, console output and `stdout().flush()` are I/O.
- Text.ToLower: models `to_lowercase`/`to_uppercase` for ASCII letters only, because the tool's names are ASCII.
- Fingerprint.IsHashed: the walker yields only valid UTF-8 relative paths, and non-UTF-8 names (`to_str` giving "") are not modelled.
- Fingerprint.Separator: joins components with the OS separator. Windows prefixes and verbatim paths are not modelled. Because the separator is hashed, the digest of a plugin with files in subdirectories differs between Windows and other OSes; the hash is not independent of the OS.
- Fingerprint.HashInput: keeps the source's delimiter-free feed over the corrected selection, and `Cache` uses it. The corrected pair input of the second finding (`PairInput`) is stated and proved on its own and not threaded into `Cache`.
- Cache.NeedsRebuild, Cache.UpdateBuildCache and Cache.EditAfterUpdateRebuilds: the digest they compare and store is over the corrected selection (the excluded-directory test applied below the plugin directory). They agree with the program whenever no component of the plugin directory's own path is `target`, `node_modules` or `.git` (`Fingerprint.SelectFilesAsWrittenBelowCleanRoot`). For a plugin at `plugins/target` the program selects no file and reports an edited plugin up to date, while the model asks for a rebuild (first row of Findings).
- Fingerprint.SortPaths: a functional insertion sort stands in for the library's `sort`. `SortedUnique` shows that any correct sort gives the same list.
- Cache.UpdateBuildCache: does not model failure of `save` (directory creation, write errors).
- Cache.BuildCache.Set: takes the timestamp as a parameter, instead of reading the clock and falling back to 0.
- Text.FileName: takes the last component. It does not model that `Path::file_name` gives nothing for a path ending in `..`.
- Cache.WalkHasBackend: `exists()` on `mod.rs` and `Cargo.toml` is read off the walk's top-level files, readable or not; a directory named `mod.rs` or `Cargo.toml` is not modelled.
- Batch.BuildAllPlugins: `get_repo_root` inside the process guard is taken to succeed, since the plugins directory was found under the same root.
- Batch.BuildAllPlugins: each plugin's decision (`plugin_needs_rebuild`) and build (`build_plugin_internal`, which includes recording the cache) are oracles. `Cache` models the decision and the cache update themselves.
- `create_manifest` is left out: it only serialises JSON, and the route list it embeds is `Routes.ExtractRoutes`.

## Findings

| source | as written | input that shows it | evidently intended | confidence | as-written member | corrected member |
|---|---|---|---|---|---|---|
| src/main.rs:1502-1505 | the `target`/`node_modules`/`.git` test looks at every component of the walker's absolute path, including the plugin directory and its ancestors | a plugin at `plugins/target` (or a checkout under any directory named `target`, `node_modules` or `.git`): every file is skipped, the digest is that of an empty input, and edits never trigger a rebuild | look only at the components below the plugin directory, i.e. apply the test to the path relative to it | not executed; high that the test sees ancestor components, medium that such layouts occur | Fingerprint.PluginNamedTargetIgnoresEdits | Fingerprint.ContentChangeAltersHashInput |
| src/main.rs:1519-1527 | each file's relative path and then its contents are fed to the hasher back to back, with no length or delimiter between them | empty files `a.jsb.js` and `a.jsb.jsa.js`; renaming the first to `b.jsa.js` feeds `a.jsb.jsa.jsb.jsa.js` before and after, so the digest does not change | a rename is always detected, as the comment at line 1520 says; e.g. feed each path and its contents as a delimited or length-prefixed pair | not executed; high | Fingerprint.RenameCanCollide | Fingerprint.RenameAltersHashInput |
