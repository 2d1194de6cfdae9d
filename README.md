# Local-extension watcher and app bundler: a Dafny model

This project models two development scripts of a React Native app shell.

**The local-extension watcher** (`scripts/watch-local-extensions.js`) runs one
watcher per local extension. Each watcher mirrors changed files of the
extension's source directory into `node_modules/<id>`.
- For every extension it builds an ignore list: the patterns of the
  extension's `.gitignore` and `.npmignore`, merged with `_.union`.
- It copies a changed file unless some ignore pattern matches it. Each pattern
  is joined onto the extension's directory before matching.
- The copy lands at the file's path relative to the extension directory,
  joined onto `node_modules/<id>`.

**The app bundler** (`scripts/classes/app-bundler.js`) does three things:
- it names the output directory (`outputDirectory`, or `temp/<appId>`);
- it names the entry file (`index.<platform>.js`) and the bundle
  (`main.jsbundle` on iOS, `index.<platform>.bundle` elsewhere);
- it assembles the seven-token `react-native bundle` command.

The model is pure. Running it causes no side effects.
- Watching, copying and spawning the bundler stay outside.
- The watch callback returns the copy it would start (`Copy(src, dst)`), or
  `Skip`.
- The bundler's getters are functions of a configuration value.

The helpers it relies on are modelled in their own modules:
- `Strings` models `String.prototype.split` and `Array.prototype.join` with a
  one-character separator.
- `NodePath` models POSIX `path.join`, `path.normalize`, `path.resolve` and
  `path.relative`. It works on segment lists and parses to and from strings.
- `Lodash` models `_.union` (one-level flatten of array arguments, then
  first-occurrence deduplication) and `_.some`.

Glob matching (`glob-to-regexp`) is a parameter, `Matcher`. Every property
about the filter holds for any matcher.

Three points about what the code does, which the model follows:
- Line 17 evidently means `.git` to be ignored, but `_.union` drops the bare
  string; see Findings. The watcher and its lemmas are built on the corrected
  list, `IgnoreList` (see `Setup`); the list as written is
  `IgnoreListAsWritten`, and `GitDirectoryCopiedAsWritten` shows where the two
  part.
- The code has no deletion branch: every notification goes through the filter
  and, if it passes, a copy.
- Each pattern is anchored at the extension directory and matched against the
  path the watcher reports, not against the path relative to the extension.

The bundler likewise uses the corrected generator lookup, `BundleNameFor`,
which reads only the table's own keys. `BundleName`, `BundleOutput` and
`Command` are built on it; the lookup as written is `BundleNameAsWritten`.

## Model

| member | source | states |
|---|---|---|
| WatchLocalExtensions.IgnoreListAsWritten | scripts/watch-local-extensions.js:17 | as written, the list holds exactly the patterns of the two ignore files (`.git` is lost) |
| WatchLocalExtensions.IgnoreList | scripts/watch-local-extensions.js:14-18 | a pattern is in the list iff it comes from `.gitignore`, from `.npmignore`, or is `.git`; no pattern is repeated |
| WatchLocalExtensions.IgnoreListAddsGitDirectory | scripts/watch-local-extensions.js:17 | the intended list is the as-written list with `.git` appended, unless a file already names it |
| WatchLocalExtensions.IgnoreListOrder | scripts/watch-local-extensions.js:15-17 | the list is: the `.gitignore` patterns, then the new `.npmignore` patterns, then `.git` if new; each kept at its first occurrence |
| WatchLocalExtensions.ShouldCopyFile | scripts/watch-local-extensions.js:29-32 | a file is copied iff no pattern of the list, anchored at the extension directory, matches it |
| WatchLocalExtensions.DecisionIgnoresOrderAndRepetition | scripts/watch-local-extensions.js:29-32 | two lists holding the same patterns decide every file alike |
| WatchLocalExtensions.MorePatternsOnlySkipMore | scripts/watch-local-extensions.js:29-45 | adding patterns never turns a skip into a copy; a copy that survives has the same destination |
| WatchLocalExtensions.DecisionOverIgnoreFiles | scripts/watch-local-extensions.js:14-32 | a file is copied iff no `.gitignore` pattern, no `.npmignore` pattern and not `.git` matches it |
| WatchLocalExtensions.OnChange | scripts/watch-local-extensions.js:34-45 | the callback copies iff the filter lets the file through, and it copies the file it was told about |
| WatchLocalExtensions.InstallPath | scripts/watch-local-extensions.js:26-28 | the install path is relative and normalized; for a plain id it is `node_modules/<id>` |
| WatchLocalExtensions.Setup | scripts/watch-local-extensions.js:24-32 | a watcher keeps the extension's id and directory, installs at `InstallPath(id)`, and ignores exactly the patterns of both files and `.git` |
| WatchLocalExtensions.Destination | scripts/watch-local-extensions.js:35-36 | the destination is the install path joined with the relative path `rel` from the extension directory to the file, and joining `rel` onto the resolved extension directory gives the resolved file |
| WatchLocalExtensions.ChangeBelowExtension | scripts/watch-local-extensions.js:24-44 | for any id, a file at `<extension>/rest` is copied to `rest` below the install path, or skipped, as the filter decides |
| WatchLocalExtensions.ChangeBelowPlainExtension | scripts/watch-local-extensions.js:24-44 | for a plain id, a file at `<extension>/rest` is copied to `node_modules/<id>/rest`, or skipped, as the filter decides |
| WatchLocalExtensions.CopyMirrorsRelativePosition | scripts/watch-local-extensions.js:35-36 | a copy lands at the install path joined with `path.relative(extension, file)`, and that relative path leads from the extension directory to the file |
| WatchLocalExtensions.WatchWorkingDirectories | scripts/watch-local-extensions.js:20-47 | one watcher per extension, in order, each set up from that extension and its own ignore files |
| WatchLocalExtensions.Registry | scripts/watch-local-extensions.js:23-46 | the registry holds one watcher per extension, and the i-th is set up from the i-th extension and its ignore files |
| WatchLocalExtensions.ExtensionsAreIsolated | scripts/watch-local-extensions.js:23-46 | an extension's decisions and destinations depend on nothing but that extension and its ignore files |
| WatchLocalExtensions.GitDirectoryCopiedAsWritten | scripts/watch-local-extensions.js:17 | `<extension>/.git` is copied by the list as written and skipped by the intended list when no ignore file names it |
| Lodash.Union | scripts/watch-local-extensions.js:17 | `_.union` keeps exactly the values of its array arguments, each once |
| Lodash.Dedup | scripts/watch-local-extensions.js:17 | deduplication keeps every value and repeats none |
| Lodash.FlattenArrays | scripts/watch-local-extensions.js:17 | the flattened values are those of the array arguments only |
| Lodash.DedupAppend | scripts/watch-local-extensions.js:17 | deduplicating `a + b` gives `a`'s distinct values, then those of `b` not in `a` |
| Lodash.DedupFirstOccurrenceOrder | scripts/watch-local-extensions.js:17 | the union lists values in the order of their first occurrence |
| Lodash.Some | scripts/watch-local-extensions.js:30-32 | `_.some` holds iff some element satisfies the predicate |
| NodePath.Parse | scripts/watch-local-extensions.js:31 | a parsed path is rooted iff the text starts with `/`, and has no empty, `.` or `/`-holding names |
| NodePath.Normalize | scripts/watch-local-extensions.js:36 | `path.normalize` keeps the root and leaves every unresolved `..` before every name, none at the root |
| NodePath.Join | scripts/watch-local-extensions.js:28 | `path.join` is rooted iff its first argument is, and its result is normalized |
| NodePath.JoinStrings | scripts/classes/app-bundler.js:18 | `path.join` on strings never returns the empty string |
| NodePath.RenderParse | scripts/watch-local-extensions.js:36 | rendering a path and parsing the text gives the path back |
| NodePath.NormalizeNormalized | scripts/watch-local-extensions.js:36 | a normalized path is left unchanged by normalization |
| NodePath.NormalizeIdempotent | scripts/watch-local-extensions.js:36 | normalizing twice equals normalizing once |
| NodePath.JoinStringsIsJoin | scripts/classes/app-bundler.js:36 | `path.join` on strings is the join of the parsed paths |
| NodePath.Relative | scripts/watch-local-extensions.js:35 | `path.relative` returns a relative path |
| NodePath.Resolve | scripts/watch-local-extensions.js:35 | a resolved path is rooted and free of `..` |
| NodePath.RelativeOfDescendant | scripts/watch-local-extensions.js:35 | the relative path from a directory to a file below it is the part below it |
| NodePath.JoinRelative | scripts/watch-local-extensions.js:35-36 | joining the relative path from `a` to `b` onto `a` gives `b` |
| AppBundler.OutputDirectory | scripts/classes/app-bundler.js:17-19 | the output directory is never empty, and it is the configured one whenever that is set and not empty |
| AppBundler.DefaultOutputDirectory | scripts/classes/app-bundler.js:18 | without a configured directory, a plain app id gives `temp/<appId>` |
| AppBundler.EntryFileName | scripts/classes/app-bundler.js:21-23 | the entry file is `index.`, then the platform as interpolated, then `.js` |
| AppBundler.BundleName | scripts/classes/app-bundler.js:25-30 | the bundle of `ios` is `main.jsbundle`, every other platform's is `index.<platform>.bundle`, and the lookup as written agrees outside inherited names |
| AppBundler.BundleOutput | scripts/classes/app-bundler.js:36 | the bundle output is never empty, and as a path it is the output directory joined with the bundle name |
| AppBundler.BundleNameFor | scripts/classes/app-bundler.js:25-30 | iOS bundles are `main.jsbundle`; every other platform's is `index.<platform>.bundle` |
| AppBundler.BundleNamesDistinct | scripts/classes/app-bundler.js:8-30 | two platforms never share a bundle name |
| AppBundler.BundleNameAsWritten | scripts/classes/app-bundler.js:29 | the lookup as written agrees with the intended name except on names every object inherits, where it yields no bundle name |
| AppBundler.EntryFileIsNotBundle | scripts/classes/app-bundler.js:21-30 | the entry file and the bundle never have the same name |
| AppBundler.BundleInsideAssetsDirectory | scripts/classes/app-bundler.js:35-36 | the bundle output lies directly in the `--assets-dest` directory, under the bundle's name |
| AppBundler.CommandTokens | scripts/classes/app-bundler.js:40-48 | the command has exactly seven tokens |
| AppBundler.Command | scripts/classes/app-bundler.js:35-52 | the command line is `react-native bundle --assets-dest <dir> --bundle-output <out> --platform <platform> --dev <debug> --entry-file <entry>`, for every configuration |
| AppBundler.CommandWords | scripts/classes/app-bundler.js:40-52 | splitting the command at spaces gives `react-native`, `bundle` and the five flags in fixed order, each followed by its value, when no value holds a space |
| Strings.SplitJoin | scripts/classes/app-bundler.js:52 | joining words that hold no separator and splitting the result gives the words back |
| Strings.SplitConcat | scripts/classes/app-bundler.js:52 | splitting distributes over a separator placed between two strings |

## Left out

- File watching with `node-watch` is left out. So are `fs.copy` and its error callback, and the console logging. The callback returns the copy it would start.
- The callback takes the first argument `node-watch` passes as the changed path, as the code does. The model takes that path as given.
- Glob matching by `glob-to-regexp` is a parameter (`Matcher`). Properties hold for every matcher.
- Reading `.gitignore` and `.npmignore` with `parse-gitignore` is left out. The pattern lists are inputs (`IgnoreFiles`), and a missing file is an empty list.
- Reading `config.json` and `getLocalExtensions` are left out. The extensions are given as a sequence; `scripts/helpers/get-local-extensions.js` is not part of this model.
- The `config.json` watch that only logs a warning is left out. So is the SIGINT and `readline` shutdown handling.
- Deletions are not handled by the code. A removed file still goes through the filter, and its failing copy is only logged; that logging is not modelled.
- Concurrency and the ordering of events between or within extensions are not modelled. Each callback is a function of one event.
- `createReactNativeBundle` is modelled only up to the command string. `ensureDirSync`, `exec`, the promise, the stream piping and the timing are left out. Line 65 also reads a variable that is never defined.
- Paths are POSIX only. Windows separators and drive letters are not modelled.
- NodePath.Render: the trailing `/` that `path.join` and `path.normalize` keep is dropped.
- AppBundler.Config: only absent values and strings (booleans for `debug`) are modelled. Other value types are not; an absent value interpolates as `undefined`.
- AppBundler.BundleNameAsWritten: `_.get` also reads a platform that holds `.` or `[` as a property path (`ios.name` yields the generator's own `name`, and calling it throws). That is not modelled: the whole platform string is one key, so the contract is stronger than the source for such platforms. `BundleName` uses the corrected lookup and is not affected.
- AppBundler.CommandWords: splits at spaces only and requires values that hold no space. The shell also acts on `;`, `|`, `$`, `*`, quotes and tabs (an output directory `out;ls` runs `ls`); shell parsing is not modelled.
- AppBundler.CommandTokens: states only the number of tokens; their text is stated by `Command`.
- WatchLocalExtensions.Anchor: the pattern is parsed into a path, so a trailing `/` is lost and `dir/` and `dir` reach the matcher as the same value. The source hands glob-to-regexp the string `<pkg>/dir/`, which matches no path the watcher reports; the model cannot tell the two patterns apart.
- WatchLocalExtensions.ChangeBelowExtension: requires a rooted extension directory. `CopyMirrorsRelativePosition` gives the destination for every other directory.
- WatchLocalExtensions.OnChange: its ensures gives only the decision and the source. The destination is stated by `Destination`, `CopyMirrorsRelativePosition` and `ChangeBelowExtension`.
- NodePath.Relative: its ensures says only that the result is relative; what it means is stated by `RelativeOfDescendant` and `JoinRelative`.

## Findings

| source | as written | input that shows it | evidently intended | confidence | as-written member | corrected member |
|---|---|---|---|---|---|---|
| scripts/watch-local-extensions.js:17 | `_.union` flattens only array arguments, so the bare string `.git` is dropped from the ignore list | an extension with no `.gitignore` and no `.npmignore`: a change reported for `<extension>/.git` passes the filter and is copied into `node_modules/<id>/.git` | `.git` is always in the ignore list | high, not executed | WatchLocalExtensions.GitDirectoryCopiedAsWritten | WatchLocalExtensions.IgnoreList |
| scripts/classes/app-bundler.js:29 | `_.get` on a plain object also returns members every object inherits | platform `toString` or `constructor`: the inherited function is called instead of the default rule, so no `index.<platform>.bundle` name results | every platform without a rule of its own gets `index.<platform>.bundle` | medium, not executed | AppBundler.BundleNameAsWritten | AppBundler.BundleNameFor |
