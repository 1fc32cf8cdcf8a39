# move-assets-webpack-plugin in Dafny

A model of the webpack plugin that, after a build, re-keys emitted assets so
that webpack writes them outside its output directory (for example from
`dist/js` into a back-end's `be/public/js`), after first removing the old
target directories.

The model covers `src/index.js`:

- `normalizePath`, which runs Node's POSIX `path.normalize` and only then
  turns every backslash into `/` (module `PosixPath`: `Normalize`, `Join`,
  `ToForwardSlashes`, `NormalizePath`, together with the segment-list view of
  a path that the proofs use);
- the constructor defaults `outputDir || 'dist'` and `patterns || []`
  (`MoveAssets.Construct`);
- the body of the `emit` callback (`MoveAssets.Emit`). With no patterns it
  does nothing. Otherwise it computes the cleanup paths
  `path.join(context, to)` with the raw `to`. It then walks a snapshot of the
  asset keys. For each key it projects the name as
  `normalizePath(path.join(outputDir, name))` and finds the first pattern
  whose normalised `from` occurs in it. It replaces the first occurrence with
  the normalised `to`, puts `../` in front with `path.join`, stores the asset
  under that key and deletes the old one;
- `String.prototype.indexOf` and the string form of `replace`, which
  replaces the first occurrence only (module `Substrings`).

The key loop (`Relocate`) works for any per-key decision. `Plan(cfg)` plugs
in the plugin's own decision, `Destination`. Module `Scenarios` states the
behaviours the repository's tests exercise, for any piece names rather than
the tests' strings:

- the order of a specific and a general rule;
- backslash spellings of `from` and `to`;
- the cleanup of a backslash-spelled `to`.

The code normalises first and replaces backslashes afterwards (line 5). So
`a\..\b` becomes `a/../b`, and `normalizePath` is not idempotent on input
that holds backslashes. A description of the plugin that has the
replacement happen before normalising would not match line 5. The model
follows the code.

## Model

| member | source | states |
|---|---|---|
| `PosixPath.NormalizePath` | src/index.js:4-6 | the result of `normalizePath` never holds a backslash |
| `PosixPath.ToForwardSlashes` | src/index.js:5 | `/\\/g` replacement: same length, every backslash becomes `/`, every other character is kept |
| `PosixPath.NormalizeIdempotent` | src/index.js:5 | POSIX `path.normalize` is idempotent |
| `PosixPath.NormalizePathIdempotent` | src/index.js:4-6 | on backslash-free input `normalizePath` is `path.normalize` and idempotent |
| `PosixPath.NormalizeBackslashWord` | src/index.js:5 | under POSIX a backslash is an ordinary character: `a\..\b` is one piece and `normalize` leaves it alone |
| `PosixPath.NormalizeFoldsDotDot` | src/index.js:5 | `normalize` folds `a/../b` to `b` |
| `PosixPath.BackslashDotDotNotFolded` | src/index.js:4-6 | because the replacement comes after normalising, `normalizePath('a\\..\\b')` is `a/../b` and only a second call folds it to `b` |
| `PosixPath.NormalizeAvoid` | src/index.js:5 | `normalize` introduces no character other than `.` and `/` |
| `PosixPath.PiecesOfJoin` | src/index.js:5 | splitting a path at `/` recovers the pieces it was joined from |
| `PosixPath.ResolveOutput` | src/index.js:5 | the segment stack yields a normal list: no empty or `.` piece, and `..` only in a leading run and only for relative paths |
| `PosixPath.RenderCanonical` | src/index.js:5 | a normal segment list with its leading and trailing separators is a fixed point of `normalize` |
| `PosixPath.JoinJoined` | src/index.js:31 | `path.join` of two normal relative paths whose concatenation is normal is that concatenation |
| `PosixPath.JoinParent` | src/index.js:37 | `path.join('../', p)` for a normal relative `p` adds one leading `..` piece |
| `PosixPath.NormalizePathJoined` | src/index.js:33-35 | `normalizePath` leaves a normal relative path without backslashes unchanged |
| `Substrings.IndexOf` | src/index.js:34 | a position exists iff the pattern occurs; it is the first occurrence |
| `Substrings.ReplaceFirst` | src/index.js:36 | replacing leaves a string without the pattern unchanged and otherwise splices `rep` in at the first occurrence only |
| `Substrings.MissingChar` | src/index.js:34 | a pattern holding a character the string lacks does not match |
| `Substrings.ReplacePrefix` | src/index.js:36 | when the pattern is a prefix, replacing swaps that prefix for `rep` |
| `MoveAssets.Construct` | src/index.js:9-13 | an empty or missing `outputDir` becomes `dist`, otherwise it is kept; missing `patterns` become the empty list, otherwise they are kept |
| `MoveAssets.ConstructIgnoresClean` | src/index.js:10-12 | a `clean` option has no effect on the stored configuration; no options give `dist` and no patterns |
| `MoveAssets.NormalizePattern` | src/index.js:33-35 | both ends of a normalised pattern are backslash-free |
| `MoveAssets.NormalizePatterns` | src/index.js:32-35 | every pattern, and only it, is normalised, in order |
| `MoveAssets.FirstMatch` | src/index.js:32-42 | the index found matches and no earlier pattern does; None exactly when no pattern matches |
| `MoveAssets.Route` | src/index.js:32-42 | a key is moved iff some pattern matches, and then by the first matching pattern's rewrite |
| `MoveAssets.MoveKey` | src/index.js:38-39 | the asset is stored under its new key and its old key is deleted; other keys keep their contents; no content is invented |
| `MoveAssets.Relocate` | src/index.js:30-43 | every key of the result is an old key outside the snapshot or some key's target, and every content was already in the map |
| `MoveAssets.RelocateKeepsOthers` | src/index.js:30-43 | with distinct, fresh targets, keys outside the snapshot keep their contents |
| `MoveAssets.RelocatePlaces` | src/index.js:30-43 | with distinct, fresh targets, every asset's content ends up under its target |
| `MoveAssets.RelocateDrops` | src/index.js:38-39 | with distinct, fresh targets, no moved asset's old key survives the loop |
| `MoveAssets.RelocateCongruent` | src/index.js:30-43 | the loop depends on the per-key decision only through its values on the snapshot |
| `MoveAssets.CleanupTargets` | src/index.js:26-28 | one removal per pattern, in order, each `path.join(context, to)` with the raw `to` |
| `MoveAssets.Emit` | src/index.js:21-43 | no patterns leave the assets untouched; one removal per pattern from the raw `to`; every resulting content was an asset before |
| `MoveAssets.CleanupIgnoresAssets` | src/index.js:26-28 | the removed paths depend on the context and the patterns only |
| `MoveAssets.FirstMatchWins` | src/index.js:40 | once a pattern has matched, patterns after it are never consulted |
| `MoveAssets.UnmatchedPrefixIgnored` | src/index.js:32-34 | patterns that do not match do not affect where a key goes |
| `MoveAssets.NoPatternsNoDestination` | src/index.js:21 | without patterns no asset has a destination |
| `MoveAssets.EmitPlaces` | src/index.js:30-43 | with distinct, fresh targets, the callback stores every asset under its target |
| `MoveAssets.EmitDrops` | src/index.js:30-43 | with distinct, fresh targets, every moved asset's old key is gone and the map holds targets only |
| `MoveAssets.ProjectJoined` | src/index.js:31 | projecting a normal relative name onto a normal relative output directory joins their pieces |
| `MoveAssets.RouteByPrefix` | src/index.js:34-37 | when the first matching `from` is a prefix, the new key is `../` joined to `to` followed by the rest of the path |
| `MoveAssets.RouteJoined` | src/index.js:33-37 | a rule `f -> t` sends the projected path `f/r` to `../t/r` |
| `MoveAssets.RouteWhole` | src/index.js:33-37 | a rule whose `from` is the whole projected path sends it to `../` followed by its `to` |
| `MoveAssets.DestinationByRule` | src/index.js:31-40 | an asset whose projected path the first matching rule `f -> t` splits as `f/r` gets the key `../t/r` |
| `MoveAssets.NoRuleMatches` | src/index.js:31-42 | an asset that no rule matches keeps its key |
| `MoveAssets.SameRulesSameAssets` | src/index.js:31-35 | two configurations whose patterns normalise alike relocate every asset map alike |
| `MoveAssets.IntendedCleanupTargets` | src/index.js:26-28 | corrected cleanup: one removal per pattern, each `path.join(context, normalizePath(to))` |
| `MoveAssets.IntendedEmit` | src/index.js:21-43 | corrected callback: the same relocated assets as the code, removals from the normalised `to` |
| `MoveAssets.IntendedEmitSpellingFree` | src/index.js:26-35 | with the corrected cleanup, patterns that normalise alike give the same removals and the same assets |
| `Scenarios.NormalRuleKept` | src/index.js:33-35 | a rule written as normal relative paths without backslashes is unchanged by normalising |
| `Scenarios.SpecificFirst` | test/index.test.js:308-335 | with `dist/js/libs -> ../be/public/libs` before `dist/js -> ../be/public/js`, `js/libs/jq.js` goes to `../../be/public/libs/jq.js`: in general `f/g -> u` first sends `f/g/r` to `../u/r` |
| `Scenarios.GeneralFirst` | src/index.js:32-40 | with the general rule `f -> t` first, `f/g/r` goes to `../t/g/r` and the specific rule is shadowed |
| `Scenarios.RuleOrderDecides` | src/index.js:32-40 | the two declaration orders send the same asset to different keys whenever the specific rule's target differs |
| `Scenarios.ForwardSlashesOfBackslashJoin` | src/index.js:5 | replacing backslashes turns words joined by `\` into the same words joined by `/` |
| `Scenarios.BackslashSpelling` | test/index.test.js:396 | `normalizePath` turns `dist\index.html`, and any words joined by `\`, into the `/` spelling |
| `Scenarios.BackslashSpellingUp` | test/index.test.js:401 | `normalizePath` turns `../be\public\libs` into `../be/public/libs` |
| `Scenarios.BackslashRulesNormalize` | test/index.test.js:394-407 | the backslash test's rules normalise to the same list as their forward-slash spellings |
| `Scenarios.BackslashRulesMoveAlike` | test/index.test.js:393-418 | the backslash test's rules relocate every asset map exactly as their forward-slash spellings do, and so would the corrected callback as a whole |
| `Scenarios.JoinUpOne` | src/index.js:27 | `path.join(c, '../w')` is `w` for a one-piece context `c` and a single piece `w` |
| `Scenarios.RawCleanupKeepsBackslash` | src/index.js:26-28 | as written, a `to` of `../w1\w2...` makes the cleanup remove the single name `w1\w2...`, which holds a backslash, while the assets move to `../w1/w2/...` |
| `Scenarios.IntendedCleanupNoBackslash` | src/index.js:26-28 | the corrected cleanup never names a path with a backslash when the context has none |

## Left out

- The webpack glue of `apply` (src/index.js:15-20, 23-24): the hook registration is not modelled. The context directory, the asset map and the snapshot of its keys are parameters.
- `fs.removeSync`: the model returns the list of paths handed to it, in order, and does not model a file system.
- `newName.match(from)` compiles `from` as a regular expression; the model reads it as a literal substring. Regular-expression metacharacters in `from` are outside the model: the `.` of `dist/index.html` matches any character in the code but only `.` in the model.
- Special replacement patterns such as `$&` in `to` are not interpreted by `ReplaceFirst`.
- Windows path semantics: `path` is modelled as `path.posix`, where a backslash is an ordinary character.
- The `clean` option that the tests pass (test/index.test.js:218) does not exist in src/index.js. The constructor ignores it, the cleanup is unconditional and the model follows the code.
- Key collisions: `MoveAssets.RelocatePlaces`, `MoveAssets.RelocateKeepsOthers`, `MoveAssets.RelocateDrops`, `MoveAssets.EmitPlaces` and `MoveAssets.EmitDrops` assume distinct targets that are not already keys. `MoveAssets.Relocate` itself handles collisions as the code does (a later insertion overwrites an earlier one), and `MoveAssets.MoveKey` states what one step does in every case.
- `Scenarios.SpecificFirst`: stated for any names that form normal relative paths, so the tests' concrete strings are instances, not separate lemmas.
- `Scenarios.RawCleanupKeepsBackslash`: stated for a one-piece relative context; webpack's context is an absolute directory, where the same `..` step applies to its last piece.
- `Scenarios.JoinUpOne`: stated for a one-piece context only, as the finding needs.

## Findings

| source | as written | input that shows it | evidently intended | confidence | as-written member | corrected member |
|---|---|---|---|---|---|---|
| src/index.js:26-28 | the cleanup removes `path.join(context, to)` with the raw `to`, while lines 33-37 move the assets under `normalizePath(to)` | the `to` `../be\public\libs` of test/index.test.js:401 under POSIX: the cleanup removes the single entry `be\public\libs` beside the context, not the directory `be/public/libs` the assets go to | normalise `to` before joining it to the context, so that `be/public/libs` is cleared, as test/index.test.js:421-438 expects (`be/public/libs/jq-old.js` gone) | medium, not executed | `Scenarios.RawCleanupKeepsBackslash` | `MoveAssets.IntendedEmit` |
