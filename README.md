# webpack-amplefuture-scripts, modelled in Dafny

`webpack-amplefuture-scripts` builds a project's assets with webpack and can
upload the results over SFTP. This project models and verifies its core:

- **Entry discovery** (`Project`, in `project.dfy`). The `Project` object
  lists the files under the source root and under the build root. Every
  built `.css` path also yields a `sass` and an `scss` candidate: the path
  with its first `css` replaced. Both lists are sorted with JavaScript's
  default string order. A destructive sort-merge then intersects them.
  The common paths become webpack's `entry` map and the whitelist of output
  names (each output name followed by the name of its source map). The
  webpack configurations exit early when there are no entries.
- **Output filter** (`FilterOutput`, in `filter_output.dfy`). On `emit`, the
  `FilterOutputPlugin` deletes, in place, every asset whose name is not in
  the whitelist.
- **Changed-chunk upload** (`SftpOutput`, in `sftp_output.dfy`). The
  `SftpOutputPlugin` keeps a table from chunk name to last hash. After each
  emit it picks the chunks whose hash changed and keeps their files that
  were emitted. It uploads those files one by one and stops at the first
  failure. The `scp` transfer is an oracle `scpOk(local, target)`.
- **Set-up script** (`Create`, in `create.dfy`). `handleAnswers` exits unless
  the user confirmed, drops the `continue` answer, and writes the rest as
  the project configuration. `updateContent` then rewrites `package.json`:
  it sets `scripts.start` and deletes `scripts.test`.

Shared pieces: `JsString` (`js_string.dfy`) models the JavaScript
primitives the code relies on. These are `indexOf`, `replace` with a
string pattern (first occurrence only), `path.join`, the `<` order on
strings and `Array.prototype.sort`. `Webpack` (`webpack.dfy`) models the
compilation object (assets and chunks) and the events the plugins emit.

Inputs the code reads from outside become parameters. The file system is a
map from root paths to directory trees. `Date.now()` is `now`. The `scp`
outcome, the connection test and `JSON.parse` are oracles.

## Model

| member | source | states |
|---|---|---|
| Project.WalkDirectory | config/utils/Project.js:92-110 | the loop over a directory listing collects the walk of the tree: a file yields `dir/name`, a subdirectory the walk under `dir/name`, in listing order |
| Project.WalkListPrefix | config/utils/Project.js:103 | every walked path starts with the walked directory: walking from `p + q` gives the walk from `q` with `p` in front |
| Project.ListFiles | config/utils/Project.js:96-115 | a missing root is the exit with code 1; an existing one gives its walk with the root's own path removed from each path |
| Project.ExtensionIsLastDotSegment | config/utils/Project.js:149 | `split('.').pop()` is the longest suffix without a `.`: the text after the last `.`, or the whole name |
| Project.ExtensionOfDotlessName | config/utils/Project.js:149 | a name with no `.` is its own extension |
| Project.ExtensionAfterLastDot | config/utils/Project.js:149 | the extension of `p.e`, for a dotless `e`, is `e` |
| Project.CssFiles | config/utils/Project.js:154 | a path is kept exactly when it is a destination path whose extension is exactly `css` |
| Project.Rewrites | config/utils/Project.js:159-160 | one rewrite per path, in order; a string is a rewrite exactly when it is some path with its first `css` replaced |
| Project.CandidateMembership | config/utils/Project.js:154-163 | the destination paths come first and unchanged; a string is a candidate exactly when it is a destination path or the `sass`/`scss` rewrite of a destination path with extension `css` |
| Project.CandidateRewritesDirectory | config/utils/Project.js:159-160 | the first `css` is replaced, not the extension: `/css/a.css` yields candidate `/sass/a.css` and not `/css/a.sass` |
| Project.MergeIntersect | config/utils/Project.js:132-147 | the merge result is no longer than either input, and each element is in both |
| Project.KeepIn | config/utils/Project.js:132-147 | the reference intersection: a string is kept exactly when it is in both lists |
| Project.MergeIntersectSorted | config/utils/Project.js:132-147 | with both inputs sorted, the result is sorted |
| Project.MergeIntersectComplete | config/utils/Project.js:137-143 | with both inputs sorted, every string in both inputs is in the result |
| Project.MergeIntersectIsKeepIn | config/utils/Project.js:137-143 | with the first input strictly sorted and the second sorted, the merge equals the reference intersection |
| Project.IntersectionDestructive | config/utils/Project.js:132-147 | the shifting loop terminates and computes the merge; the result is at most as long as either input; with sorted inputs it is sorted and holds exactly the common strings; with strictly sorted inputs each common string appears exactly once |
| Project.MergeIntersectProperties | config/utils/Project.js:132-147 | on sorted inputs the merge is sorted and holds exactly the common strings; on strictly sorted inputs each of them exactly once |
| Project.SortedIntersection | config/utils/Project.js:165-166 | intersecting the sorted copies is sorted, no longer than the source, holds exactly the strings in both lists, and for a duplicate-free source equals its sorted copy filtered by the other list |
| Project.FindCommonFiles | config/utils/Project.js:151-168 | the result is sorted and no longer than the source list; it holds exactly the source paths that are candidates; for a duplicate-free source it is the sorted source filtered by the candidates |
| Project.OutputNameExtension | config/utils/Project.js:74-75 | a `sass` or `scss` source is emitted as `name.css`; any other keeps its own extension |
| Project.EntryNameStripsSuffix | config/utils/Project.js:67 | for a path with no `./` whose first `.ext` is its suffix, the entry name is the path without its extension |
| Project.EntryNameUsesLastDot | config/utils/Project.js:62-67 | `/app.min.js` has extension `js` and entry name `/app.min` |
| Project.EntryNameCutsDirectory | config/utils/Project.js:67 | the first `.js` is cut even inside a directory name: `/a.js/b.js` becomes entry `/a/b.js` |
| Project.AssignKeys | config/utils/Project.js:71 | after the assignments, the object's keys are exactly the assigned names |
| Project.AssignLastWins | config/utils/Project.js:71 | a name holds the value of its last assignment |
| Project.WithMapsLayout | config/utils/Project.js:77-78 | for the i-th name, the list holds it at 2i and its `.map` name at 2i+1, and is twice as long |
| Project.WithMapsMembership | config/utils/Project.js:77-78 | every element is one of the names or its `.map` name |
| Project.WhitelistLayout | config/utils/Project.js:59-79 | the whitelist is twice as long as the common files; at 2i it holds the output name of the i-th file, at 2i+1 that name with `.map` |
| Project.EntryMapKeys | config/utils/Project.js:67-71 | the entry names are exactly the entry names of the common files |
| Project.EntryMapLastWins | config/utils/Project.js:71 | each entry maps to the joined source path of the last common file with that name |
| Project.NoEntriesIffNoCommonFiles | config/utils/Project.js:59-83 | there are no entries, and no whitelisted names, exactly when there are no common files |
| Project.EntriesAndWhitelist | config/utils/Project.js:59-80 | the `forEach` builds exactly the entry map and the whitelist above, so their layout and key lemmas apply to its result |
| Project.Project.constructor | config/utils/Project.js:25-35 | the roots are the configured folders joined to the working directory; no entries yet |
| Project.Project.SetIO | config/utils/Project.js:38-85 | a missing root exits with code 1 and stores nothing; otherwise the stored entries and whitelist are those of the common files of the two listings |
| Project.LoadProject | config/webpack.dev.config.js:18-24 | exit 1 exactly when a root is missing; exit 0 exactly when both roots exist and there are no common files; continue exactly when both exist and there are common files, and then the entries and the whitelist are those of the common files, both non-empty |
| JsString.IndexOfFirst | config/utils/Project.js:67 | `indexOf` finds a position exactly when the pattern occurs, and that position is the first occurrence |
| JsString.ReplaceFirstAt | config/utils/Project.js:159-160 | `replace` with a string pattern replaces the first occurrence and nothing else |
| JsString.ReplaceFirstAbsent | config/utils/Project.js:67 | without an occurrence, `replace` returns the string unchanged |
| JsString.JoinThenStrip | config/utils/Project.js:115 | removing the root from a path joined under it leaves the separator and the rest |
| JsString.LessTrichotomy | config/utils/Project.js:137-139 | two strings are either equal or one is below the other, so the merge's third branch means equal heads |
| JsString.LessTransitive | config/utils/Project.js:137-138 | the string order is transitive |
| JsString.Sort | config/utils/Project.js:166 | `sort()` returns a sorted permutation of its input |
| JsString.SortedPermutationUnique | config/utils/Project.js:166 | two sorted permutations of the same list are equal, so any sorting algorithm gives the same result |
| FilterOutput.FilterOutputPlugin.constructor | config/plugins/FilterOutputPlugin.js:3-5 | the plugin keeps the whitelist it is given |
| FilterOutput.ArrayIndexOf | config/plugins/FilterOutputPlugin.js:12 | `indexOf` gives `-1` exactly when the name is absent, else the first index holding it |
| FilterOutput.FilterOutputPlugin.Emit | config/plugins/FilterOutputPlugin.js:8-17 | the deletion loop leaves exactly the whitelisted assets, with their values, so a plugin given no whitelist removes every asset; the callback is called once, at the end |
| FilterOutput.FilteredKeysAndValues | config/plugins/FilterOutputPlugin.js:11-15 | the remaining names are the original names that are whitelisted; values are unchanged and nothing is added |
| FilterOutput.FilterIdempotent | config/plugins/FilterOutputPlugin.js:11-15 | filtering twice gives the same assets as filtering once |
| FilterOutput.FilterEmptyWhitelist | config/plugins/FilterOutputPlugin.js:8 | with the default empty whitelist every asset is removed |
| FilterOutput.FilterKeepsProjectOutputs | config/plugins/FilterOutputPlugin.js:11-15 | with a project's whitelist, each remaining asset is the output of a common file or its source map |
| SftpOutput.SftpOutputPlugin.constructor | config/plugins/SftpOutputPlugin.js:5-19 | the version table starts empty; a missing or empty port becomes `'22'`; `enabled` is always true; `uploadOnFirstBuild` is true only when given true |
| SftpOutput.VersionsLastWins | config/plugins/SftpOutputPlugin.js:56-60 | after the build each chunk's name maps to its hash, the last chunk of a name winning |
| SftpOutput.VersionsKeepOthers | config/plugins/SftpOutputPlugin.js:56-60 | names of no chunk in the build keep their stored version, or their absence |
| SftpOutput.ChangedIsNewAgainstOldTable | config/plugins/SftpOutputPlugin.js:57-59 | with distinct chunk names, a chunk counts as changed exactly when its hash differs from the version stored before the build, or its name is new |
| SftpOutput.ChangedAmongChunks | config/plugins/SftpOutputPlugin.js:56-60 | the changed chunks are among the build's chunks and no more numerous |
| SftpOutput.UnchangedBuildHasNoChangedChunks | config/plugins/SftpOutputPlugin.js:56-60 | a build whose chunks all hash as recorded has no changed chunk and leaves the table as it was |
| SftpOutput.FilesOfMembership | config/plugins/SftpOutputPlugin.js:61 | a file is collected exactly when some changed chunk lists it |
| SftpOutput.Emitted | config/plugins/SftpOutputPlugin.js:64-69 | a file is kept exactly when it was collected and is an emitted asset |
| SftpOutput.FilesOfSnoc | config/plugins/SftpOutputPlugin.js:61 | the collected files come chunk by chunk, in chunk order, each chunk's files in their own order |
| SftpOutput.EmittedConcat | config/plugins/SftpOutputPlugin.js:64-69 | the filter keeps the order of the collected files: filtering two lists one after the other is filtering each and joining the results |
| SftpOutput.UploadListConcat | config/plugins/SftpOutputPlugin.js:64-70 | the upload list of two file lists one after the other is the first list's uploads, then the second's |
| SftpOutput.UploadOrder | config/plugins/SftpOutputPlugin.js:56-70 | the uploads follow chunk order, then file order: one more changed chunk appends the joined paths of its emitted files, in its order, after all earlier uploads |
| SftpOutput.UploadListMembership | config/plugins/SftpOutputPlugin.js:56-70 | a path is uploaded exactly when it is the local path joined to an emitted file of a changed chunk; no uploaded path is empty |
| SftpOutput.SftpOutputPlugin.RemotePathOfLocalFile | config/plugins/SftpOutputPlugin.js:27 | a file under the local root goes under the remote root with the same relative path |
| SftpOutput.UploadCallsBackOnce | config/plugins/SftpOutputPlugin.js:30-45 | the callback is called exactly once, as the last event |
| SftpOutput.UploadAllSucceed | config/plugins/SftpOutputPlugin.js:30-45 | when every transfer succeeds, each file is tried once in index order, to its own target, then the client is closed and the callback called |
| SftpOutput.UploadStopsAtFirstFailure | config/plugins/SftpOutputPlugin.js:30-45 | at the first failure, the error is printed and the callback called; no later file is tried and the client is not closed |
| SftpOutput.SftpOutputPlugin.Upload | config/plugins/SftpOutputPlugin.js:21-49 | the index-walking upload produces exactly the event sequence of the recursive definition, each file sent to `user:password@host:` and its remote path |
| SftpOutput.SftpOutputPlugin.HandleEmit | config/plugins/SftpOutputPlugin.js:51-78 | the table records every chunk's hash; with no file to upload the callback is called at once, otherwise the upload list is uploaded from index 0 |
| Create.EditPackage | bin/create.js:125-136 | for an object package, `scripts.start` is set and `scripts.test` deleted, other scripts and other top-level keys unchanged; absent `scripts` becomes `{start}` alone; `null` and primitives, as the package or as its `scripts`, throw `TypeError`; arrays come out unchanged |
| Create.EmptyObjectPackage | bin/create.js:125-136 | a package file holding `{}` is rewritten to `{scripts: {start}}` |
| Create.EmptyPackageTextThrows | bin/create.js:121-125 | parsing the empty default text as written throws, while the corrected parse gives an empty object |
| Create.UpdateContent | bin/create.js:121-147 | text that is not JSON throws `SyntaxError`; parsed text is edited as `EditPackage` promises (`scripts.start` set, `scripts.test` deleted, every other key kept, `TypeError` for `null` and primitives); the empty text gives `{scripts: {start}}` (corrected; see ## Findings); a written package is an object or an array |
| Create.UpdatePackageJson | bin/create.js:184-197 | without a `package.json`, or with an empty one, the package written is `{scripts: {start}}` (corrected; see ## Findings); a file that is not JSON throws; a file that parses is edited as `EditPackage` promises |
| Create.ContinueAnswerAsWritten | bin/create.js:31-34 | `continue` is truthy exactly when both `project.config.json` and `package.json` exist and the user confirms; otherwise there is no answer |
| Create.FreshProjectNeverSetUp | bin/create.js:34-41 | without a project configuration `continue` is not truthy, so `handleAnswers` exits and nothing is set up |
| Create.ContinueAnswer | bin/create.js:24-34 | corrected (see ## Findings): `continue` is truthy exactly when there is no set-up to overwrite or the user confirms; where the question is asked, the answer is the one given |
| Create.HandleAnswers | bin/create.js:83-103 | exit with code 0 exactly when `continue` is not truthy, so also when it was never asked; the configuration is written only after a successful connection test, without `continue` and with every other answer unchanged |

## Left out

- Reading `project.config.json` (`readConfig`): its `src` and `build` come in as arguments, and `JSON.parse` of that file is not modelled.
- `path.join` normalisation: joining is plain concatenation with one `/`, so `.`, `..` and doubled separators are kept as they are.
- JavaScript strings are UTF-16; the order is modelled on characters, not on UTF-16 code units.
- A root that exists but is a file, where `readdirSync` would throw, is not modelled; a root is either a listed directory or missing.
- The console messages of `walkDirectory`, `upload` and the bail-out, apart from the failed-upload message, which is the `Failed` event.
- Project.IntersectionDestructive: works on copies and does not model how much of the caller's arrays `shift` consumes; `findCommonFiles` never reads them again.
- Project.FindCommonFiles: does not model that `source.sort()` also reorders the caller's array in place.
- The implicit global variables that `setIO` assigns (`filename`, `outputExtension`, `outputName`) are not modelled.
- Chunk names and asset names are strings; `undefined` chunk names, and names that clash with `Object.prototype` properties, are not modelled.
- An undefined `localPath` or `remotePath`, where `path.join` throws, is not modelled; an undefined `host`, `username` or `password` is not modelled either.
- The `include` and `callback` options and `startTime` are stored but never read by the modelled code; `include` and `callback` are not modelled.
- The `scp` outcome is a deterministic oracle of the local path and target, not a network transfer; `client.close()` is the `Close` event.
- Asynchrony: the hooks' callbacks are modelled as events in the order they happen.
- The prompts of `bin/create.js` (questions, `when` and `validate`), apart from when `continue` is asked, the welcome screen, `installPackages` and `endCreation` are UI and child-process plumbing and are not modelled.
- The connection test is `connectionOk`: utils/connection.js is not part of this model.
- Printing JSON with `pd.json`, key order and the file writes are not modelled; the written configuration and package are values.
- `HandleErrorsPlugin`, the webpack option objects beyond the empty-entries bail-out, and the `scripts/` drivers are not modelled.

## Findings

| source | as written | input that shows it | evidently intended | confidence | as-written member | corrected member |
|---|---|---|---|---|---|---|
| bin/create.js:121-125 | `updateContent` calls `JSON.parse(data)` on the text as read, and `JSON.parse("")` throws `SyntaxError` | an existing but empty `package.json` (with a project config present, so the `continue` question is asked and confirmed): `readFile` yields `""`; the call without arguments when no `package.json` exists is not reachable, since without that file `continue` is never asked and `handleAnswers` exits | the comment says the empty string gives an empty object, so `package.json` is rewritten as `{scripts: {start}}` | high, not executed | Create.ParsePackageAsWritten (shown by Create.EmptyPackageTextThrows) | Create.ParsePackage (used by Create.UpdateContent) |
| bin/create.js:31-41, 86-88 | the `continue` question is asked only when `project.config.json` and `package.json` both exist; a question not asked leaves no answer, every later question is asked only when `continue` is truthy, and `handleAnswers` exits when it is not | a directory with no `project.config.json`: no question is asked and `handleAnswers` exits with code 0, so `create` never sets up a fresh project | the confirmation guards only the overwriting of an existing set-up; without one the set-up goes on (and then `updatePackageJson` runs `updateContent` on its default empty text when there is no `package.json`) | medium, not executed | Create.ContinueAnswerAsWritten (shown by Create.FreshProjectNeverSetUp, with Create.HandleAnswers exiting when `continue` is not truthy) | Create.ContinueAnswer |
