# vite-plugin-auto-index: the barrel-file generator, modelled in Dafny

The plugin keeps an `index.js` "barrel" file in each configured source
directory. For every configuration, `processPath` asks the glob library for
the files in the directory (optionally at every depth, never any file named
`index.js` at any depth, minus user ignore patterns). It sorts them, and derives for each
path:

- a relative directory, through a fixed chain of string rewrites;
- a module name and import target, from the trailing `[\w.]+` run of the path.

It then writes one `import N from 'R/S';` line per file, a blank line, then
`export default {`, one `  N,` property per file, and `};`. The plugin runs this for every configuration when the dev server
starts. When the file watcher reports an added or removed file, it runs it
again for every configuration whose `path` pattern matches the sanitised
file path.

The project has one module per concern:

| file | module | content |
|---|---|---|
| `wrappers.dfy` | `Wrappers` | `Option`, `Result` |
| `sanitizer.dfy` | `Sanitizer` | `sanitizeFilePath` |
| `text.dfy` | `Text` | the JavaScript string primitives the generator uses, with their exact semantics |
| `ordering.dfy` | `Ordering` | `Array.prototype.sort`'s default order on strings, the sorted permutation as a function, and an in-place insertion sort on an `array` proved equal to it |
| `sequences.dfy` | `Sequences` | a `forEach` whose callback may throw: the results in order, or the first failure |
| `auto_index.dfy` | `AutoIndex` | `processPath`: options, glob query, per-path entry, rendering, and the imperative loop `ProcessPath` |
| `plugin.dfy` | `Plugin` | the startup visit and the watcher handler, over a list of configurations |

The JavaScript primitives are modelled as JavaScript defines them, not as
idealised:

- `replace(srcPath, './')` replaces only the first literal occurrence.
- `replace(/\/\//g, '/')` is one non-overlapping left-to-right pass, so `///` becomes `//` (`Text.CollapseIsOnePass`).
- `split('.')[0]` keeps only the text before the first period.
- The name regex runs on the unsanitised path.
- A path whose name-regex match is `null` makes `[0]` throw. This is the error value `NoModuleName(path)`. Because `forEach` stops at the throw, the run fails at the first such path in sorted order, and no file is written.

Three boundaries are parameters rather than behaviour:

- The glob library is a function parameter `glob: GlobQuery -> seq<string>` (an oracle).
- `fs.writeFileSync` is returned as an `IndexWrite(path, content)` value.
- `new RegExp(path).test(file)` is a parameter `isMatch: (string, string) -> bool`.

The model follows the code, including three behaviours a reader may not
expect:

- A path with no trailing `[\w.]` character is an error (the code throws), not a degenerate entry.
- The index file is always `<path>/index.js`.
- Two files with the same module name (`a.js`, `a.ts`) give two identical import bindings and two `  a,` properties. There is no de-duplication.

Two consequences of the code, as proved:

- A file name holding a character outside `[\w.]` is bound and imported by the part after the last such character only (`AutoIndex.PrefixedFileImport`): `src/my-comp.js` and `src/my-big-comp.js` both yield `import comp from './comp'`.
- The relative directory is computed by textual substitution of the first occurrence of `path`. The shapes `"."` and `"./d"` are proved for `path/f` and `path/d/f` where `path`, `d` and `f` hold no backslash, `f` is non-empty and holds no `/`, and `d` holds no `//` and has no trailing `/` (`AutoIndex.RelPathOfDirectChild`, `AutoIndex.RelPathOfSubfolder`). Outside these conditions the shapes can differ. A `path` written with backslashes is never found, because index.js:71 looks for it in the sanitised path (`AutoIndex.BackslashSrcPathNeverFound`).

## Model

| member | source | states |
|---|---|---|
| Sanitizer.SanitizeFilePath | index.js:47-49 | the result has the input's length and holds no backslash; every backslash became `/` and every other character is unchanged at its position |
| Sanitizer.SanitizeIdempotent | index.js:47-49 | sanitising twice equals sanitising once |
| Sanitizer.SanitizeFixesClean | index.js:47-49 | a path without backslashes is returned unchanged |
| Sanitizer.SanitizeChars | index.js:47-49 | a character other than `/` and `\` occurs in the result exactly when it occurs in the input |
| Text.StripTrailingSlash | index.js:70 | defines `replace(/\/$/, '')`, which drops one trailing slash; its properties are `Text.StripTrailingSlashKeeps` and `Text.StripTrailingSlashDropsOne` |
| Text.ReplaceFirst | index.js:71 | defines `replace(srcPath, './')`, which replaces the first occurrence `IndexOf` finds; its properties are `Text.ReplaceFirstChars`, `AutoIndex.ReplaceSrcPathAtFront` and `AutoIndex.RelPathBelowSrcPath` |
| Text.CollapseSlashes | index.js:72 | defines `replace(/\/\//g, '/')` as one left-to-right pass; its properties are `Text.CollapseFixesNoDoubleSlash`, `Text.CollapseKeepsOtherChars` and `Text.CollapseIsOnePass` |
| Text.Join | index.js:75 | defines `join` on one separator; its inverse property is `Text.JoinSplit` |
| Text.DropLastSegment | index.js:73-75 | defines `split('/').slice(0, -1).join('/')`; its properties are `Text.DropLastSegmentCutsAtLastSep`, `Text.DropLastSegmentAppend` and `Text.DropLastSegmentChars` |
| Text.StripTrailingSlashDropsOne | index.js:70 | exactly one trailing slash is dropped, so `a//` becomes `a/` |
| Text.IndexOf | index.js:71 | the result is the first index where the pattern occurs, and `None` exactly when it occurs nowhere |
| Text.ReplaceFirstChars | index.js:71 | the first-occurrence replacement brings in no character that is in neither the input nor the replacement |
| Text.CollapseFixesNoDoubleSlash | index.js:72 | text without `//` is left unchanged by the collapsing pass |
| Text.CollapseKeepsOtherChars | index.js:72 | a non-slash character occurs after the pass exactly when it occurred before |
| Text.CollapseIsOnePass | index.js:72 | `///` becomes `//` and `////` becomes `//`; applying the pass again gives `/`, so the pass is not idempotent |
| Text.Split | index.js:73-77 | `split` yields at least one part, and no part holds the separator |
| Text.JoinSplit | index.js:73-75 | joining the parts of a split with the same separator gives back the string |
| Text.DropLastSegmentCutsAtLastSep | index.js:73-75 | `split/slice(0,-1)/join` keeps exactly the text before the last separator, and gives `""` when there is none |
| Text.SplitWithoutSep | index.js:73 | a string without the separator splits into itself alone |
| Text.SplitAtSep | index.js:73 | splitting `x + sep + y` splits `x` and `y` independently and concatenates the parts |
| Text.DropLastSegmentAppend | index.js:73-75 | for `d/f` with `f` free of `/`, dropping the last segment gives `d` |
| Text.DropLastSegmentChars | index.js:73-75 | dropping the last segment adds no character |
| Text.SplitFirstIsPrefix | index.js:77 | the first part of a split is the longest separator-free prefix of the string |
| Ordering.CodeUnitLe | index.js:68 | defines the default string comparison of `sort()`, character by character, a proper prefix first; its properties are the four lemmas below |
| Ordering.CodeUnitLeReflexive | index.js:68 | the default string order is reflexive |
| Ordering.CodeUnitLeAntisymmetric | index.js:68 | the order is antisymmetric: two strings each before the other are equal |
| Ordering.CodeUnitLeTransitive | index.js:68 | the order is transitive |
| Ordering.CodeUnitLeTotal | index.js:68 | any two strings are comparable |
| Ordering.Insert | index.js:68 | inserting into a sorted sequence gives a sorted sequence holding one more copy of the string |
| Ordering.SortPaths | index.js:68 | the result is sorted and a permutation (same multiset) of the input |
| Ordering.SortedUnique | index.js:68 | two sorted sequences with the same multiset are equal |
| Ordering.SortPathsDependsOnMultiset | index.js:68 | inputs with the same multiset sort to the same sequence |
| Ordering.SortPathsOfSorted | index.js:68 | sorting a sorted sequence leaves it unchanged |
| Ordering.SortInPlace | index.js:68 | `files.sort()`: after the in-place sort the array holds the sorted permutation of its old contents |
| Sequences.MapResult | index.js:68-81 | defines a `forEach` whose callback may throw: the results in order, or the first error; its properties are the lemmas below |
| Sequences.MapResultOkIff | index.js:68-81 | a `forEach` with a throwing callback completes exactly when every callback succeeds |
| Sequences.MapResultOkValues | index.js:68-81 | on completion there is one result per element, the i-th from the i-th element |
| Sequences.MapResultErrFirst | index.js:68-81 | on a throw the error is that of the first failing element, and every element before it succeeded |
| Sequences.MapResultPrefixErr | index.js:68-81 | once a prefix throws, the whole visit throws the same error |
| Sequences.MapResultSnoc | index.js:68-81 | a completed prefix extended by one successful element completes with its result appended |
| Sequences.MapResultCons | index.js:68-81 | the same visit read from the front: the first element's outcome, then the rest's |
| AutoIndex.IgnorePaths | index.js:59-61 | defines the ignore option after its default `[]`, with a single pattern wrapped in a list; its property is `AutoIndex.QueryShape` |
| AutoIndex.IncludeExtension | index.js:57 | defines the default `includeExtension = false`; its property is `AutoIndex.EntryOfSpec` |
| AutoIndex.IncludeSubfolders | index.js:58 | defines the default `includeSubfolders = false`; its property is `AutoIndex.QueryShape` |
| AutoIndex.Query | index.js:62-63 | defines the pattern and ignore list handed to `globSync`; its property is `AutoIndex.QueryShape` |
| AutoIndex.IsNameChar | index.js:76 | defines the class `[\w.]` as ASCII letters, ASCII digits, `_` and `.`, which is what `\w` means in a regular expression without the `u` and `i` flags; its property is `AutoIndex.ModuleFullnameIsLeftmostMatch` |
| AutoIndex.ModuleFullname | index.js:76 | defines `filepath.match(/[\w.]+$/)[0]`, `None` for a null match; its property is `AutoIndex.ModuleFullnameIsLeftmostMatch` |
| AutoIndex.ModuleName | index.js:77 | defines the first part of `moduleFullname.split('.')`; its property is `AutoIndex.ModuleNameIsBeforeFirstDot` |
| AutoIndex.RelPath | index.js:69-75 | defines the chain of rewrites of lines 69-75; its properties are `AutoIndex.RelPathOfDirectChild`, `AutoIndex.RelPathOfSubfolder` and `AutoIndex.RelPathChars` |
| AutoIndex.EntryOf | index.js:69-78 | defines what the loop body derives from one path, or the throw of `[0]` on null; its properties are `AutoIndex.EntryOfSpec`, `AutoIndex.DirectChildImport` and `AutoIndex.PrefixedFileImport` |
| AutoIndex.ImportLine | index.js:79 | defines one import line; its property is `AutoIndex.ImportLineBreaks` |
| AutoIndex.ExportLine | index.js:80 | defines one export property; its property is `AutoIndex.ExportLineBreaks` |
| AutoIndex.Imports | index.js:79 | defines the `imports` string after the loop; its properties are `AutoIndex.ImportsAppend`, `AutoIndex.ImportLineAt` and `AutoIndex.ImportsLineCount` |
| AutoIndex.ExportProps | index.js:80 | defines the lines the loop appends to `exports`; its properties are `AutoIndex.ExportPropsAppend`, `AutoIndex.ExportLineAt` and `AutoIndex.ExportPropsLineCount` |
| AutoIndex.IndexPath | index.js:85 | defines the written file `${srcPath}/index.js`; its property is `AutoIndex.GenerateWrites` |
| AutoIndex.ExportsBlock | index.js:66-83 | defines the `exports` string: `export default {\n`, the properties, and `};` appended after the loop; its property is `AutoIndex.GenerateLineCount` |
| AutoIndex.Content | index.js:83-86 | defines `[imports, exports].join('\n\n')` after `exports` is closed; its properties are `AutoIndex.GenerateEmpty` and `AutoIndex.GenerateLineCount` |
| AutoIndex.Entries | index.js:68-78 | defines the entries of the sorted paths in order, or the first throw; its properties are `AutoIndex.EntriesFailAtFirst`, `AutoIndex.EntriesSingleLine`, `AutoIndex.EntriesStopAt` and `AutoIndex.EntriesStep` |
| AutoIndex.Generate | index.js:63-87 | defines the whole run as a value, from the glob's answer to the write or the throw; its properties are the `Generate…` lemmas below, and `AutoIndex.ProcessPath` is proved equal to it |
| AutoIndex.QueryShape | index.js:56-63 | the ignore list is `**/index.js` followed by the user's patterns in order (a single pattern becomes a one-element list, none gives just `**/index.js`); the pattern is `path/**/*` exactly when subfolders are on, else `path/*` |
| AutoIndex.NameRunStart | index.js:76 | everything from the returned index on is a name character, and the character before it (if any) is not |
| AutoIndex.ModuleFullnameIsLeftmostMatch | index.js:76 | the match of `/[\w.]+$/` is null exactly when the path is empty or ends outside `[\w.]`; otherwise it is the suffix at the leftmost position where a match starts |
| AutoIndex.ModuleNameIsBeforeFirstDot | index.js:77 | the module name holds no period and is the full name up to its first period, or all of it |
| AutoIndex.CollapseAfterSubstitution | index.js:71-72 | after the substitution, `.//x` collapses to `./x` when `x` holds no `//` |
| AutoIndex.RelPathBelowSrcPath | index.js:69-72 | for `path/x` without backslashes or a trailing slash, sanitising, trimming and substituting yield `.//x` |
| AutoIndex.RelPathOfDirectChild | index.js:69-75 | a direct child `path/f`, where `path` and `f` hold no backslash and `f` is non-empty and holds no `/`, has relative directory `.` |
| AutoIndex.BackslashSrcPathNeverFound | index.js:69-71 | a `path` holding a backslash is never substituted, because it is looked for in the sanitised path, which holds none |
| AutoIndex.RelPathOfSubfolder | index.js:69-75 | a file `path/d/f` has relative directory `./d`, where `path`, `d` and `f` hold no backslash, `d` is non-empty, holds no `//` and has no trailing `/`, and `f` is non-empty and holds no `/` |
| AutoIndex.RelPathChars | index.js:69-75 | the relative directory holds no character other than `/`, `\` and `.` that the path lacks |
| AutoIndex.EntryOfSpec | index.js:69-78 | a path yields an entry exactly when it ends in a name character, and else the error names the path; the name is the period-free prefix of the trailing name, made of name characters; the specifier is the full name with `includeExtension` and the name without |
| AutoIndex.ModuleFullnameOfNameFile | index.js:76 | after a non-name character, a file name made only of name characters is the whole match |
| AutoIndex.DirectChildImport | index.js:69-78 | for a `path` without backslashes, a direct child whose file name is non-empty and made only of `[\w.]` characters is imported from `./` with its name, and with or without its extension as `includeExtension` says |
| AutoIndex.PrefixedFileImport | index.js:76-78 | for a `path` without backslashes, a direct child named `prefix + f` is bound and imported as `f`'s module name from `.`, where the prefix is non-empty, holds no `/` or `\` and ends outside `[\w.]`, and `f` is non-empty and made only of `[\w.]` characters |
| AutoIndex.ImportsAppend | index.js:79 | the import block of two entry lists is the concatenation of their blocks |
| AutoIndex.ExportPropsAppend | index.js:80 | the export properties of two entry lists are the concatenation of theirs |
| AutoIndex.ImportLineAt | index.js:79 | the i-th import line is rendered from the i-th entry, between the lines of the entries before and after it |
| AutoIndex.ExportLineAt | index.js:80 | the i-th export property is rendered from the same i-th entry, so it names the same module as the i-th import |
| AutoIndex.ImportLineBreaks | index.js:79 | an import line holds exactly one line break when its parts hold none |
| AutoIndex.ExportLineBreaks | index.js:80 | an export property holds exactly one line break when the name holds none |
| AutoIndex.ImportsLineCount | index.js:79 | the import block has as many line breaks as entries |
| AutoIndex.ExportPropsLineCount | index.js:80 | the export properties have as many line breaks as entries |
| AutoIndex.EntryLineFree | index.js:69-78 | a path without line breaks yields an entry without line breaks |
| AutoIndex.EntriesSingleLine | index.js:68-78 | paths without line breaks yield one entry each, all without line breaks |
| AutoIndex.GenerateFailsIff | index.js:68-81 | a run throws exactly when some matched path has no trailing name character |
| AutoIndex.EntriesFailAtFirst | index.js:68-81 | deriving entries fails with the first path that has no module name |
| AutoIndex.GenerateFailsAtFirst | index.js:68-81 | a failing run reports the first such path in sorted order |
| AutoIndex.GenerateWrites | index.js:68-87 | a successful run writes `path/index.js` with one entry per matched path, the i-th from the i-th path in ascending order |
| AutoIndex.GenerateDependsOnMultiset | index.js:63-68 | the outcome depends only on the multiset of matched paths, not on the order the glob returned them in |
| AutoIndex.GenerateEmpty | index.js:65-86 | an empty match writes `path/index.js` with the text `"\n\nexport default {\n};"` |
| AutoIndex.GenerateLineCount | index.js:79-86 | the content is the imports, a blank line, then `export default {\n`, the properties and `};`; with line-free paths, imports and properties count one line per matched path |
| AutoIndex.EntriesStopAt | index.js:76 | meeting a path without a module name makes the whole run fail with that path |
| AutoIndex.EntriesStep | index.js:68-78 | a path with a module name appends its entry to those of the paths before it |
| AutoIndex.EntryLines | index.js:79-80 | the two lines the loop appends extend the rendered imports and properties by that entry |
| AutoIndex.ProcessPath | index.js:55-88 | the method (query, in-place sort, loop appending to `imports` and `exports`, close, join) returns exactly the run `Generate` describes for the glob's answer |
| Plugin.Sync | index.js:25-33 | defines the visit of the configurations in list order, processing the selected ones and stopping at the first throw; the step for one configuration is `Plugin.RunOne`, which is `Generate` of the glob's answer to `Query(config)`, and `Plugin.ProcessPathIsRunStep` ties `AutoIndex.ProcessPath`'s result to it; its properties are `Plugin.SyncSucceeds` and `Plugin.SyncStops`, and `Plugin.SyncEach` is proved equal to it |
| Plugin.Routed | index.js:31 | defines the routing of a watcher event by `isMatch(path, sanitisedPath)`; its properties are `Plugin.UnroutedEventIsQuiet` and `Plugin.RoutingIsolation` |
| Plugin.Selected | index.js:30-33 | the selected configurations are exactly those in the list that the selection admits |
| Plugin.SelectedOne | index.js:32 | one configuration is kept exactly when the selection admits it |
| Plugin.SelectedAppend | index.js:30-33 | selection distributes over concatenation, so it keeps the admitted configurations in list order, every copy included |
| Plugin.SyncEach | index.js:25-33 | the loop over the configurations returns the writes and failure `Sync` describes |
| Plugin.Startup | index.js:24-25 | at startup every configuration is processed, as `Sync` with everything selected |
| Plugin.HandleWatcherUpdate | index.js:27-34 | a watcher event processes the configurations whose pattern matches the sanitised path |
| Plugin.SyncSucceeds | index.js:30-33 | when every selected configuration succeeds, the writes are theirs, one each, in list order, and nothing fails |
| Plugin.SyncStops | index.js:30-33 | when one throws, its error is the failure and the writes are those of the selected configurations before it |
| Plugin.SelectedAll | index.js:25 | selecting everything keeps the whole list |
| Plugin.StartupWritesAll | index.js:25 | at startup with every configuration succeeding, each is written once, in list order |
| Plugin.UnroutedEventIsQuiet | index.js:30-33 | an event whose path matches no configuration writes nothing and does not fail |
| Plugin.RoutingIsolation | index.js:30-33 | of two configurations, an event matching only the first re-indexes the first alone |
| Plugin.RoutingIgnoresSeparators | index.js:28 | two paths that differ only in `/` versus `\` sanitise to the same path, so they are routed alike |

## Left out

- `globSync` (index.js:63): directory listing and glob and ignore-pattern matching are a foreign library. The model takes its answer as the oracle `glob`, and the oracle is fixed during a visit of several configurations.
- `fs.writeFileSync` (index.js:87): file I/O. The write is returned as `IndexWrite`, and I/O errors are not modelled.
- `new RegExp(pathConfig.path).test(...)` (index.js:31): JavaScript regular-expression semantics on a user string are the uninterpreted parameter `isMatch`. `isMatch` is total, while `new RegExp` throws a `SyntaxError` on a `path` that is not a valid pattern (such as `src/(`), which would stop the handler's `forEach` like a `processPath` throw. `Plugin.UnroutedEventIsQuiet`'s "does not fail" therefore holds for valid patterns only.
- Plugin construction (index.js:21-23), the plugin `name` and the `server.watcher.on('add'/'unlink', …)` registration (index.js:36-37): host wiring. Both events call the same handler, `Plugin.HandleWatcherUpdate`.
- Concurrent or overlapping runs, and the last-writer-wins race on an index file: the code has no logic for them.
- Ordering.CodeUnitLe: compares Dafny characters, while JavaScript compares UTF-16 code units. The two differ only for characters outside the Basic Multilingual Plane.
- Ordering.SortInPlace: sorts by insertion. The engine's sort algorithm is not specified, but every correct sort gives the same result, proved by `Ordering.SortedUnique`.
- AutoIndex.PathConfig: `ignore` is a string or a list of strings. Other JavaScript values, `null` options (which do not take the defaults) and a missing `path` are not represented.
- AutoIndex.ProcessPath: the duplicate bindings that two files with one module name produce are rendered as text. Whether the result is a valid module is not modelled.
- Plugin.Sync: a throw at startup or in the watcher handler is the `failure` of the visit. What the host does with it next is not modelled.
