# watch-less, modelled in Dafny

watch-less is a command-line daemon. It walks a directory tree of LESS
stylesheets and installs a change watch on every `.less` file it finds. When a
watched file changes, it compiles that file into a mirrored output tree. This
project models the deterministic part of the script `cli.js` and proves
properties about it:

- **Configuration** (`Config`): the root directory and the output directory,
  which defaults to the root. The output extension is always dotted and
  defaults to `.less.css`. The `ignore` option becomes a list. The compiler
  options are `compress` and `optimization`.
- **Selection** (`Selection`): the regular expression `.*\.(less)$` is stated
  as a match over start and end positions. It is proved equivalent to "the
  name ends in `.less`".
- **Output path** (`Mapping`): `ouputPath` slices the root and the `.less`
  suffix off the file path, appends the extension and resolves the result
  under the output directory. It relies on JavaScript `String.prototype.slice`
  (`Js.Slice`) and a model of `path.resolve` (`Paths.Resolve`).
- **Walker handlers and change callbacks** (`Watcher.WatchLess`): a class
  whose state is the ordered trace of the script's external effects. An effect
  is a change watch installed, a console line, or a file read issued together
  with the output path its callback compiles into. The `directories` handler
  continues only into non-ignored names. The `file` handler adds exactly one
  watch per selected file and always continues. The `errors` handler swallows
  the error. A change notification on a watched file logs
  `"updating: " + output` and then issues the read.

Unlike what one might expect of a build daemon, the code behaves as follows,
and the model follows it:

- The initial walk only installs watches and compiles nothing.
- Files whose names start with `_` are selected like any other `.less` file.
- There is no allow-list of files and no source-map output.
- For an ignored directory the walker's continuation is never called. The
  handler does not skip the directory and move on.

Options are modelled as the values the option parser hands over. `None`
stands for an absent option (`null`/`undefined`). `compress` is true whenever
the option is present, even when its value is `false`. An empty `extension`
string has no first character, so it normalises to `.`.

## Model

| member | source | states |
|---|---|---|
| `Js.Slice` | cli.js:99 | The result of `slice` is never longer than the string. For in-range non-negative bounds it is the substring between them. For non-negative bounds with end ≤ start it is empty. |
| `Js.SliceNegativeEnd` | cli.js:99 | A negative end index counts back from the end of the string. One that reaches back past the start clamps to 0, and the slice from a non-negative start is then empty. |
| `Js.SliceIsSubstring` | cli.js:99 | Every result of `slice` is a contiguous piece of the string. |
| `Js.IndexOf` | cli.js:115 | `indexOf` returns -1 exactly when the name is not in the list. Otherwise it returns the position of the first occurrence. |
| `Paths.Resolve` | cli.js:47-48 | `path.resolve` on clean arguments gives an absolute directory. An empty argument gives the base, and an absolute argument is returned as it is. A relative argument ends up strictly under the base, and the part after the base's prefix is that argument. |
| `Paths.ResolveInjective` | cli.js:122 | Distinct (directory, name) pairs from the walker resolve to distinct file paths. |
| `Paths.ResolveWithin` | cli.js:122 | A name resolved in the root or one of its subdirectories lies strictly under the root. |
| `Config.NormalizeExtension` | cli.js:50 | The extension always starts with `.`. An absent option gives `.less.css`. A given option is either kept or gets exactly one `.` in front. |
| `Config.NormalizeExtensionCases` | cli.js:50 | An argument that starts with `.` is returned unchanged. Any other argument, including the empty string, gets `.` prepended. |
| `Config.NormalizeExtensionIdempotent` | cli.js:50 | Normalising twice gives the same result as normalising once. |
| `Config.IgnoreList` | cli.js:52-61 | An absent option gives `[]`. A single string gives a one-element list. A name is on the list exactly when the option names it. |
| `Config.IgnoreListKeepsList` | cli.js:57 | A list-valued option is returned unchanged. |
| `Config.ResolveConfig` | cli.js:47-66 | The root is the working directory when `directory` is absent; otherwise it is `directory` resolved against the working directory. The output directory equals the root when `output` is absent; otherwise it is `output` resolved against the working directory. The extension is normalised. Ignore membership follows the option. `compress` is true iff the option is present. `optimization` defaults to 0. |
| `Selection.PatternTestIsSuffix` | cli.js:121 | The regular-expression test accepts a name iff the name ends in `.less`, compared case-sensitively. Both directions are proved. |
| `Selection.SelectionExamples` | cli.js:121 | `base.less`, `_mixins.less` and `.less` are selected. `base.css`, `base.LESS` and `less` are not. |
| `Selection.SelectedUnderPrefix` | cli.js:121-122 | A selected name stays selected once its directory is put in front of it. |
| `Mapping.RelativeOutputAsWritten` | cli.js:99 | The string passed to `path.resolve` ends with the output extension. |
| `Mapping.SliceDropsRootAndSuffix` | cli.js:98-100 | For `root + "/" + rel + ".less"`, exactly (length of `root`) + 1 leading and 5 trailing characters are dropped. The string resolved is exactly `rel` plus the extension. |
| `Mapping.AsWrittenDistinct` | cli.js:98-100 | Distinct `rel` give distinct relative outputs. |
| `Mapping.AsWrittenAgreesBelowProperRoot` | cli.js:99 | For every root directory other than `/`, the written slice equals the corrected one. |
| `Mapping.RootDirectorySliceDropsCharacter` | cli.js:99 | With root `/`, for any first character `c` of the Basic Multilingual Plane and any remainder `rest`, the file `/` + `c` + `rest` + `.less` maps to `rest` plus the extension: `c` is dropped (`/sub/c.less` gives `ub/c.less.css`). The corrected slice keeps `c`. |
| `Mapping.RootDirectorySliceCollides` | cli.js:98-100 | With root `/`, two paths that differ only in the character after the leading `/`, both characters of the Basic Multilingual Plane, (`/a.less` and `/b.less`, or `/ab.less` and `/cb.less`) get the same output. The corrected slice gives them different outputs. |
| `Mapping.RootDirectorySliceGoesAbsolute` | cli.js:99 | With root `/`, a file below a top-level directory whose name is one character of the Basic Multilingual Plane (`/a/c.less`) gets the absolute string `/c.less.css`. The corrected slice gives the relative `a/c.less.css`. |
| `Mapping.AbsoluteOutputEscapes` | cli.js:100 | `path.resolve` returns an absolute string `/` + `rest` unchanged. It lies under the root directory `/`, the default output directory, so there it is misplaced but inside. Under any other output directory it lies only when `rest` starts with that directory's own path; `-r /out` puts `/c.less.css` outside. |
| `Mapping.RelativeOutput` | cli.js:99 | The corrected relative output ends with the extension. |
| `Mapping.RelativeOutputOfSource` | cli.js:99 | For a file at `rel + ".less"` under any root, including `/`, the corrected slice yields `rel` plus the extension. |
| `Mapping.OutputPath` | cli.js:98-100 | The output path is an absolute path strictly under the output directory. Its part after the output directory is the relative output. |
| `Mapping.SelectedFileBounds` | cli.js:99 | A selected file under the root is long enough for both slice bounds to fall inside it, in order. |
| `Mapping.SourceRelativeOutput` | cli.js:99 | Within those bounds the slice is the text between the root's prefix and `.less`, followed by the extension. |
| `Mapping.SourceMapsCleanly` | cli.js:98-100 | Every selected file under the root has an output that is a clean path under the output directory. |
| `Mapping.OutputPathLayout` | cli.js:98-100 | The file at `rel + ".less"` under the root is compiled to `rel` plus the extension under the output directory. |
| `Mapping.OutputPathInjective` | cli.js:98-100 | Two selected files under the root with the same output path are the same file. |
| `Watcher.WatchesMembership` | cli.js:124-126 | A path is among the watched paths exactly when a watch on it is in the effect trace. |
| `Watcher.WatchesAppend` | cli.js:124-126 | The watched paths of a concatenated trace are the concatenation of the parts' watched paths. |
| `Watcher.CompileEffects` | cli.js:105-110 | Compiling a file installs no watch. |
| `Watcher.CompileEffectsOrder` | cli.js:105-110 | `compileLessFile` produces exactly two effects. The first is the log line `"updating: " + output`; the second is the read of the same file, whose callback compiles into that output. |
| `Watcher.WatchKeepsWatchable` | cli.js:124-126 | Installing a watch on a selected file under the root appends exactly that path to the watched paths. Every watched path stays a selected file under the root. |
| `Watcher.NoWatchKeepsWatches` | cli.js:105-110 | Effects that install no watch leave the watched paths unchanged. |
| `Watcher.WatchLess.constructor` | cli.js:47-66 | Start-up resolves the configuration and has produced no effects yet. |
| `Watcher.WatchLess.OnDirectory` | cli.js:114-118 | The continuation is invoked iff the directory name is not on the ignore list. Nothing else happens. |
| `Watcher.WatchLess.OnFile` | cli.js:120-129 | A selected name adds exactly one watch, on the name resolved in the walked directory. An unselected name adds nothing. No compile is started. The walk always continues, and every watched path stays a selected file under the root. |
| `Watcher.WatchLess.OnErrors` | cli.js:131-133 | A walker error is swallowed and the walk continues. |
| `Watcher.WatchLess.CompileLessFile` | cli.js:105-110 | The trace gains the log line naming the output path, followed by the read of the file. The watched paths do not change. |
| `Watcher.WatchLess.OnChange` | cli.js:124-126 | Every notification on a watched path compiles that same path, whatever `curr` and `prev` hold. The output is defined for it, and no watch is added or removed. |

## Findings

| source | as written | input that shows it | evidently intended | confidence | as-written member | corrected member |
|---|---|---|---|---|---|---|
| cli.js:99 | The slice starts at `rootDirectory.length + 1`, which assumes the root path has no trailing slash. | Root directory `/` (the script run from `/` without `-d`) and file `/sub/c.less`: the resolved string is `ub/c.less.css`. Files directly in `/` whose names differ only in their first character, a character of the Basic Multilingual Plane, collide: `/a.less` and `/b.less` both map to `.less.css`. A file below a top-level directory whose name is one character of the Basic Multilingual Plane, such as `/a/c.less`, gives the absolute `/c.less.css`. With the default output directory `/` that is misplaced but inside; with another output directory, such as `/out`, it lands outside. | Drop the root's own prefix: `root + "/"`, or only `/` when the root is `/`. Every file then maps to its root-relative stem plus the extension. | medium; not executed | `Mapping.RelativeOutputAsWritten`, `Mapping.RootDirectorySliceDropsCharacter`, `Mapping.RootDirectorySliceCollides`, `Mapping.RootDirectorySliceGoesAbsolute`, `Mapping.AbsoluteOutputEscapes` | `Mapping.RelativeOutput`, `Mapping.RelativeOutputOfSource` |

`Mapping.OutputPath`, and through it the watcher, uses the corrected slice.
`Mapping.AsWrittenAgreesBelowProperRoot` proves that the two slices agree for
every root other than `/`.

## Left out

- Command-line parsing with `optimist` is not modelled: aliases, usage text, and the help check that throws (cli.js:10-45). The parsed options are inputs (`Config.Argv`). String-valued options are modelled as strings. Number or boolean values that the parser may produce for them, and arrays from a repeated `-d`, `-r` or `-e` (with `-e css -e map` cli.js:50 gives `.css,map`), are not.
- `parseInt` on the optimization level is not modelled. The level is taken as an already-parsed integer.
- `parseLessFile` is not modelled (cli.js:68-96). That covers the LESS parser and its `toCSS`, `less.writeError`, the read-error log line, opening and writing the output file, and printing to stdout. These are calls into a library whose behaviour is not visible here. The model stops at the read being issued with its output path.
- Strings are sequences of Unicode scalar values, while JavaScript's `length` and `slice` count UTF-16 code units. The two agree on every slice the corrected output path takes, because the root's prefix and `.less` are cut off whole. They differ only in the as-written root-`/` case when the first character of the relative path lies outside the Basic Multilingual Plane: there cli.js:99 cuts that character in half and keeps its low surrogate, which is why `Mapping.RootDirectorySliceDropsCharacter`, `Mapping.RootDirectorySliceCollides` and `Mapping.RootDirectorySliceGoesAbsolute` are stated for characters of the Basic Multilingual Plane.
- Console output, file reads and change watches are recorded as effects in a trace. They are not performed.
- The asynchronous, interleaved delivery of walker events and change notifications is not modelled. Each handler is a sequential method call. `fs.watchFile` delivers notifications only for watched paths, so `Watcher.WatchLess.OnChange` requires the path to be watched.
- `path.resolve` is modelled only on clean paths, where it is a plain join. Its normalisation of `.`, `..`, repeated or trailing slashes is not modelled. `Config.ArgsOk`, `Paths.Within` and `Paths.IsSegment` state this restriction. The working directory is a parameter.
- `Watcher.WatchLess.constructor`: only extensions without `/` that are not all dots (`Paths.SafeExtension`) are modelled, so that the output of every selected file is a clean join. Other extensions make the output of some files something other than a plain join: with `.`, which an empty `-e` gives, the file named `.less` (empty stem) maps to `.`, which `path.resolve` turns into the output directory itself, although `a.less` maps to the harmless `a.`; with `-e /x`, normalised to `./x`, `a.less` maps to `a./x`, a plain join, but `.less` maps to `./x`, which `path.resolve` shortens to `x`.
- `Mapping.OutputPath`: for the root directory `/` the model (`Mapping.OutputPath`, `Mapping.OutputPathLayout`, `Mapping.OutputPathInjective`, and the log line and read output of `Watcher.WatchLess.CompileLessFile` and `Watcher.WatchLess.OnChange`) follows the corrected slice, not the one cli.js:99 takes. As written, that root drops the first character of each relative path (`Mapping.RootDirectorySliceDropsCharacter`). Files directly in `/` whose names differ only in that character then collide (`Mapping.RootDirectorySliceCollides`). A file below a top-level directory with a one-character name gets an absolute path (`Mapping.RootDirectorySliceGoesAbsolute`). That path stays inside the default output directory `/` but lies outside any other output directory it does not happen to start with (`Mapping.AbsoluteOutputEscapes`). For every other root the two agree (`Mapping.AsWrittenAgreesBelowProperRoot`).
- `Watcher.WatchLess.OnDirectory`: what the walk library does after the continuation is withheld is not modelled; the handler only reports whether it called `next()`. It receives a directory name, not the library's `dirStatsArray` event payload.
- `Watcher.WatchLess.OnFile`: whether the walk visits each file once is the library's business. `Paths.ResolveInjective` shows that distinct walker events never produce the same watched path.
