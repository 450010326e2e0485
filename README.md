# Feature-sliced design import rules, modelled in Dafny

The ESLint plugin `eslint-plugin-fsd-netliukh-demian` enforces the
feature-sliced design layout of a front-end project. Source code lives below
a `src` directory and is split into layers:

- ranked from the bottom: `shared`, `entities`, `features`, `widgets`, `pages`, `app`;
- layers are divided into slices (`entities/User`); which layers count as
  sliced differs from rule to rule, see below;
- each slice exposes a public API, its `index.ts`.

The plugin has three rules. Each one visits every `import` declaration of a
file and either passes it, reports it with a message, or throws a
`TypeError` out of the rule:

- `check-path`: inside one slice, imports must be relative. An absolute
  import of the importing file's own layer and slice is reported. Its
  sliced layers are `shared`, `entities`, `features`, `widgets` and `pages`.
- `layer-imports`: a file may only import from layers ranked below its own.
  It knows all six layers by rank and looks only at the first segment, not
  at slices. Relative imports are not checked. Files and specifiers outside
  the known layers are not checked either, nor are specifiers that match an
  ignore pattern.
- `public-api-imports`: an absolute import into a slice of `entities`,
  `features`, `widgets` or `pages` must stop at the slice; reaching deeper is
  reported. `shared` and `app` are not checked by this rule.

Each rule takes an optional alias (such as `@/`), which is removed from the
specifier before it is classified. The helpers model
`replaceAlias`, `getSourcePath`, `getSourcePathArray` and
`getRelativePath`. `getRelativePath` computes the relative specifier from a
file to a path below `src`. The helpers use Node's `path` module. The POSIX
behaviour of `normalize`, `resolve`, `relative`, `dirname`, `parse` and `join`
is modelled in `posix_path.dfy`.

Modules, one per file:

- `Wrappers`: `Option`.
- `Strings`: JavaScript's `indexOf`, `split`, `join` and first-occurrence
  `replace`.
- `PosixPath`: the POSIX `path` functions listed above.
- `SourceTree`: shared facts about paths of the form `/p1/…/pm/src/s1/…/sn`.
- `Alias`: `replaceAlias`.
- `SourcePath`: `getSourcePath`.
- `SourcePathArray`: `getSourcePathArray`, plus its corrected form.
- `RelativePath`: `getRelativePath`.
- `Lint`: what the rules share.
  - `isPathRelative`.
  - The visitor outcome `Verdict = Pass | Report(message) | Throws`.
  - `isMatchSomePattern`, over an abstract matcher.
- `CheckPath`, `LayerImports`, `PublicApiImports`: the three rules.

All of this code is pure, so the model is functions and lemmas only. Three
things become parameters:

- The platform separator `path.sep` is the parameter `sep`.
- The linted file's name, which `context.getFilename()` supplies, is the
  parameter `filename`.
- micromatch's `isMatch` is the parameter `matches`.

Where the code and the rules' documented intent disagree, the model follows
the code. The corrected behaviour is a separate member; see "## Findings".

- `replaceAlias` removes the first occurrence of the alias wherever it
  stands, not only a leading one. `Alias.ReplaceAlias` does the same.
- `getSourcePathArray` throws on a path without `src` instead of returning
  no segments. The rules as written inherit that.

## Model

| member | source | states |
|---|---|---|
| Alias.ReplaceAlias | lib/helpers/replaceAlias.js:1-7 | With no alias, or an alias that does not occur, the specifier is unchanged. Otherwise exactly the first occurrence is cut out, the text around it is kept, and a leading alias is stripped. |
| Alias.ReplaceAliasPrefixed | lib/helpers/replaceAlias.js:3 | Writing the alias in front of any specifier and then replacing it gives the specifier back. |
| Alias.ReplaceAliasFirstOnly | lib/helpers/replaceAlias.js:3 | Only the first copy of the alias is removed; a second copy further on survives. |
| SourcePath.GetSourcePath | lib/helpers/getSourcePath.js:3-6 | The piece before the first `/src/` always exists: it is the normalised path up to that `/src/`, or all of it. The piece after is undefined exactly when there is no `/src/`. Otherwise it is exactly the text after the first `/src/` up to the next `/src/` or the end. |
| SourcePath.SourcePathHalves | lib/helpers/getSourcePath.js:5 | With a single `/src/`, the piece before it, `/src/` and the piece after it rebuild the normalised path. |
| SourcePath.GetSourcePathOfRooted | lib/helpers/getSourcePath.js:3-6 | For `/p1/…/pm/src/s1/…/sn`, with no other directory named `src`, the source path is `s1/…/sn`; names that only contain the text `src`, such as `srcViewer`, do not matter, because the cut is at `/src/`. |
| SourcePathArray.GetSourcePathArray | lib/helpers/getSourcePathArray.js:3-10 | It throws exactly when the normalised path has no `src` text. Otherwise the result is the text after the first `src` up to the next `src` or the end, split on the separator, first piece dropped. Its segments contain neither the separator nor `src`. |
| SourcePathArray.GetSourcePathArrayNormalized | lib/helpers/getSourcePathArray.js:4 | Normalising the argument first changes nothing. |
| SourcePathArray.GetSourcePathArrayOfRooted | lib/helpers/getSourcePathArray.js:3-10 | For `/p1/…/pm/src/s1/…/sn`, with no other `src` text in the names, the result is `[s1, …, sn]`. |
| SourcePathArray.GetSourcePathArrayOutsideSrc | lib/helpers/getSourcePathArray.js:5-6 | A path in which no segment contains `src` makes the helper throw. |
| SourcePathArray.SegmentsUnderSrc | lib/helpers/getSourcePathArray.js:5 | Corrected cut. The result is undefined exactly when no segment IS `src`. Otherwise it is the segments after the first `src` segment. |
| SourcePathArray.SegmentsUnderSrcOfRooted | lib/helpers/getSourcePathArray.js:3-10 | For `/p1/…/pm/src/s1/…/sn` with no `pi` equal to `src`, the corrected cut gives `[s1, …, sn]`, even when names contain the text `src`. |
| SourcePathArray.SegmentsUnderSrcOutsideSrc | lib/helpers/getSourcePathArray.js:5-6 | The corrected cut finds nothing for a path without a `src` segment, and does not throw. |
| SourcePathArray.GetSourcePathArrayAgrees | lib/helpers/getSourcePathArray.js:5 | On paths with no stray `src` text, the helper as written and the corrected cut agree. |
| SourcePathArray.SubstringCutMisplaced | lib/helpers/getSourcePathArray.js:5 | A directory `src<v>` above the real `src` moves the cut. The helper returns `[""]` where the segments below `src` are `rest`. |
| PosixPath.NormalizeIdempotent | lib/helpers/getSourcePathArray.js:4 | Normalising twice is normalising once. |
| PosixPath.Normalize | lib/helpers/getSourcePathArray.js:4 | The result is never empty, and it is absolute exactly when the argument is. |
| PosixPath.Relative | lib/helpers/getRelativePath.js:8-11 | A path is reached from itself by the empty path, and the result never starts with a separator. |
| PosixPath.Dirname | lib/helpers/getRelativePath.js:5 | The directory is `.`, `/`, `//` or a proper prefix of the path. The directory of an absolute path is absolute. |
| PosixPath.Parse | lib/helpers/getRelativePath.js:13 | The directory part is a prefix of the path, the base holds no separator, and name plus extension is the base. |
| PosixPath.JoinPaths | lib/helpers/getRelativePath.js:16 | The result is never empty; with one side empty it is the other side normalised. |
| PosixPath.ResolveAfterRelative | lib/helpers/getRelativePath.js:8-11 | For absolute `from` and `to`, resolving `from/relative(from, to)` reaches `to`. |
| PosixPath.ParseOfJoin | lib/helpers/getRelativePath.js:13 | Parsing `d1/…/dk/last` gives dir `d1/…/dk`, base `last`, and the name and extension of `last` split at its last dot. |
| PosixPath.JoinPathsOfResolved | lib/helpers/getRelativePath.js:16 | Joining a resolved directory with a name gives the `/`-joined path back. |
| PosixPath.SplitExtension | lib/helpers/getRelativePath.js:13-16 | Name and extension rebuild the base name. The extension is empty or starts at the last dot, and the name is never empty when there is an extension. |
| RelativePath.GetRelativePath | lib/helpers/getRelativePath.js:18-22 | The result always starts with a dot, which is what the `./` of lines 18-22 ensures. The value in the general case is stated by `GetRelativePathOfRooted`, `GetRelativePathOfAncestor` and `GetRelativePathOutsideSource`. |
| RelativePath.Interpolated | lib/helpers/getRelativePath.js:9 | A defined source path reads as itself in the template string, an undefined one as `undefined`. |
| RelativePath.StrippedRelative | lib/helpers/getRelativePath.js:5-16 | The path with its extension removed is never empty. |
| RelativePath.RelativeUnderSrc | lib/helpers/getRelativePath.js:8-11 | Between `/src/d1/…/dn` and `/src/u1/…/uk`, `path.relative` climbs out of `d` to the prefix the two share and descends into the rest of `u`; it is empty when they are equal. |
| RelativePath.StrippedRelativeFrom | lib/helpers/getRelativePath.js:5-16 | With the base directory `s1/…/sn` below `src` (or `undefined`), the stripped path to `u1/…/uk` is `.` when they are equal. Otherwise it is the way between them, parsed and joined back without the last extension. |
| RelativePath.StrippedOfSegments | lib/helpers/getRelativePath.js:13-16 | Parsing a resolved relative path and joining its dir and name drops exactly the extension of its last segment. |
| RelativePath.GetRelativePathOfRooted | lib/helpers/getRelativePath.js:4-23 | From `/…/src/d1/…/dn/file`, with no other directory named `src`, to a target `t1/…/tj/last` of plain names not starting with a dot that is not an ancestor of the file's directory: it climbs `n - c` levels, `c` being the leading directories the two share, descends the rest of `t` and ends in `last` without its extension. `./` comes first exactly when it does not climb. So `…/ui/UserCardHeader/UserCardHeader.ts` to `entities/User/ui/UserCard/UserCard` gives `../UserCard/UserCard`, and `…/User/index.ts` to `entities/User/ui/UserCard/UserCard` gives `./ui/UserCard/UserCard`. |
| RelativePath.GetRelativePathOfAncestor | lib/helpers/getRelativePath.js:4-23 | From `/…/src/d1/…/dn/file`, with no other directory named `src`, to its own directory the result is `.`; to the ancestor `d1/…/di` it is `..` repeated `n - i` times. |
| RelativePath.GetRelativePathOutsideSource | lib/helpers/getRelativePath.js:6-11 | For a file whose directory has no `/src/`, such as a file directly in `src`, the base is `/src/undefined`. Every target `t1/…/tj/last` then comes out as `../t1/…/tj/` and the stem of `last`. |
| RelativePath.RelativeToChild | lib/helpers/getRelativePath.js:8-11 | From a directory below `/src/` to a file in it, the relative path is the file's name. |
| RelativePath.StrippedName | lib/helpers/getRelativePath.js:13-16 | Parsing a plain name and joining its dir and name drops exactly its last extension. |
| RelativePath.GetRelativePathSibling | lib/helpers/getRelativePath.js:4-23 | From `/…/src/s1/…/sn/file`, with no other directory named `src`, to `s1/…/sn/target`, the result is `./` followed by the target's name without its extension. |
| Lint.NotRelativeByFirstChar | lib/rules/check-path.js:36-38 | A specifier that does not start with a dot is not relative. |
| Lint.IsPathRelative | lib/rules/check-path.js:36-38 | A relative specifier is `.`, `./…` or `../…`, so it starts with a dot. |
| Lint.IsMatchSomePattern | lib/helpers/isMatchSomePattern.js:3-5 | No patterns match nothing, and a single pattern matches exactly when it alone matches. |
| Lint.SpecifierSegments | lib/rules/public-api-imports.js:45-49 | A specifier written as `/`-separated segments, the first not starting with a dot, is absolute, and splitting it on `/` gives back those segments. |
| CheckPath.SliceOf | lib/rules/check-path.js:66-71 | There is a layer and slice exactly when the first two segments are truthy and the first is one of the five sliced layers; they are those two segments. |
| CheckPath.SliceCheck | lib/rules/check-path.js:57-85 | Relative specifiers, and specifiers without a known layer and a slice, are never flagged. Otherwise it throws exactly when the file path has no `src`. It flags exactly when the file lies in the specifier's layer and slice. |
| CheckPath.ShouldBeRelative | lib/rules/check-path.js:57-85 | It throws exactly when an absolute specifier names a sliced layer and a slice and the file path has no `src`. It flags exactly an absolute specifier into the file's own layer and slice. |
| CheckPath.Outcome | lib/rules/check-path.js:110-112 | A throw propagates, a flag becomes the slice report, and no flag passes. |
| CheckPath.CheckPath | lib/rules/check-path.js:89-113 | The only message is the slice message, and a relative import always passes. |
| CheckPath.SliceCheckSegments | lib/rules/check-path.js:65-84 | `l/s/…` is flagged exactly when `l` is a sliced layer, `s` is non-empty and the file's first two segments are `l` and `s`; depth does not matter. |
| CheckPath.CheckPathSlices | lib/rules/check-path.js:89-113 | On POSIX the visitor reports an import into the file's own layer and slice and passes any other. |
| CheckPath.CheckPathOutsideSrcThrows | lib/rules/check-path.js:73-75 | A file in which no segment contains `src` makes the rule throw on an absolute import that names a slice. |
| CheckPath.CheckPathAliasTransparent | lib/rules/check-path.js:96-98 | Writing the alias in front of a specifier does not change the verdict. |
| CheckPath.OtherSliceAllowed | tests/lib/rules/check-path.js:32-36 | From any `features/<slice>/…` file, importing any `entities/<slice>/…` passes. |
| CheckPath.SameSliceReported | tests/lib/rules/check-path.js:40-53 | From `entities/<slice>/…`, importing `entities/<slice>/…` is reported, both plainly and behind the alias. |
| CheckPath.WindowsNeverReportsAsWritten | lib/rules/check-path.js:65 | With separator `\`, a specifier without `\` always passes: the rule never fires. |
| CheckPath.ShouldBeRelativeCorrected | lib/rules/check-path.js:57-85 | A file outside any source tree is never flagged. Where the two readings of the file path agree, it is the check as written on POSIX. |
| CheckPath.CheckPathCorrected | lib/rules/check-path.js:89-113 | It never throws, and it has one message. It passes files outside a source tree. Where the readings agree, on POSIX it equals the rule as written. |
| CheckPath.CorrectedSlicesOnAnyPlatform | lib/rules/check-path.js:65 | On every platform separator, an import into the file's own layer and slice is reported and any other passes. |
| CheckPath.CorrectedOutsideSrcAllowed | lib/rules/check-path.js:73-75 | A file without a `src` segment is not checked, whatever it imports. |
| LayerImports.GetImportArray | lib/rules/layer-imports.js:53-56 | The imported layer is the longest prefix of the specifier without `/`: the whole specifier or the text before its first `/`. |
| LayerImports.LayerVerdict | lib/rules/layer-imports.js:70-80 | The visitor's tests never throw. A report is only ever about an absolute specifier that no ignore pattern matches. |
| LayerImports.LayerMessage | lib/rules/layer-imports.js:76-79 | The message holds the imported layer right after its 24-character opening and the file's layer right after `' inside '`, with 41 fixed characters in all. |
| LayerImports.SelfImportOnlyForOwnLayer | lib/rules/layer-imports.js:75 | Exempting layers from the check on their own imports changes nothing unless the imported layer is the file's own. |
| LayerImports.RanksDistinct | lib/rules/layer-imports.js:44-51 | No two layers share a rank. |
| LayerImports.LayerImports | lib/rules/layer-imports.js:64-81 | It throws exactly when the file path has no `src`, whatever is imported, because the file's layer is computed first. A report concerns only an absolute specifier that no ignore pattern matches. |
| LayerImports.VerdictOfSegments | lib/rules/layer-imports.js:68-80 | For an absolute specifier `l/…`, the verdict depends only on the ignore patterns, the two layers and their ranks, and the message names `l` and the file's layer. |
| LayerImports.LayerImportsRanks | lib/rules/layer-imports.js:70-79 | An unignored `l/…` is reported exactly when both layers are known and `l` does not rank below the file's layer. |
| LayerImports.IgnoredNeverReported | lib/rules/layer-imports.js:73 | A specifier an ignore pattern matches always passes for a file below `src`. |
| LayerImports.LayerImportsAliasTransparent | lib/rules/layer-imports.js:65 | Writing the alias in front of a specifier does not change the verdict, ignore patterns included. |
| LayerImports.LowerLayerAllowed | tests/lib/rules/layer-imports.js:33-36 | From any `<layer>/<slice>` file, `<lower layer>/<slice>` passes, such as `entities/User` from `features/NewFeature`. |
| LayerImports.HigherLayerReported | tests/lib/rules/layer-imports.js:67-76 | From any `<layer>/<slice>` file, `<higher layer>/<slice>` is reported, naming the imported layer and then the file's. Examples are `entities/User` from `shared/Button` and `pages/HomePage` from `features/NewFeature`. |
| LayerImports.UnusedAliasChangesNothing | tests/lib/rules/layer-imports.js:77-83 | Configuring `@/` does not change the verdict on `layer/slice` written without it. |
| LayerImports.IgnorePatternAllows | tests/lib/rules/layer-imports.js:58-63 | `entities/User` from `shared/Article` passes once the pattern `entities/User` matches it. |
| LayerImports.SameLayerReportedAsWritten | lib/rules/layer-imports.js:75 | Any import of a known layer from a file of the same layer is reported. |
| LayerImports.OutsideSrcThrowsAsWritten | lib/helpers/getSourcePathArray.js:5-6 | A file in which no segment contains `src` makes the rule throw, whatever it imports. |
| LayerImports.LayerImportsCorrected | lib/rules/layer-imports.js:64-81 | It never throws, and it passes files outside a source tree. A report is only about an absolute, unignored specifier. |
| LayerImports.CorrectedRanks | lib/rules/layer-imports.js:75 | An unignored `l/…` is reported exactly when both layers are known and `l` ranks strictly above the file's, or is the file's own layer and not `shared` or `entities`. |
| LayerImports.SameLayerAllowed | tests/lib/rules/layer-imports.js:47-51 | A `shared` or `entities` file importing from its own layer passes, whatever the ignore patterns. The rule's cases show this only for `shared` importing `shared`; `entities` is the layer whose slices compose one another by design. |
| LayerImports.SameLayerStillReported | lib/rules/layer-imports.js:75 | A file of any other known layer importing from its own layer is still reported, as in the rule as written. |
| LayerImports.OutsideSrcAllowed | tests/lib/rules/layer-imports.js:37-46 | A file without a `src` segment passes, whatever it imports. |
| LayerImports.CorrectedAgreesAcrossLayers | lib/rules/layer-imports.js:70-80 | When the file-path readings agree and the layers differ, the corrected rule gives the verdict of the rule as written. |
| PublicApiImports.PublicApiImports | lib/rules/public-api-imports.js:38-61 | It never throws, it has one message, and relative imports pass. |
| PublicApiImports.PublicApiReportsDeepImports | lib/rules/public-api-imports.js:48-60 | An absolute `l/s1/…/sn` is reported exactly when `l` has a public API and `n >= 2`. |
| PublicApiImports.PublicApiAliasTransparent | lib/rules/public-api-imports.js:41-43 | Writing the alias in front of a specifier does not change the verdict. |
| PublicApiImports.PublicApiImportsWithTesting | lib/rules/public-api-imports.js:38-61 | Corrected rule. It differs from the rule as written only on `l/s/testing`, and relative imports pass. |
| PublicApiImports.IsTestingPublicApi | tests/lib/rules/public-api-imports.js:57-83 | The testing API `l/s/testing` is deeper than a slice, which is why the rule as written reports it. |
| PublicApiImports.TestingApiOnlyFromTests | tests/lib/rules/public-api-imports.js:49-84 | `l/s/testing` passes exactly from files a test pattern matches. From any other file it is reported with the testing message. |
| PublicApiImports.PastTestingApi | tests/lib/rules/public-api-imports.js:85-95 | Reaching past the testing API, as in `entities/User/testing/mockUser.ts`, gets the public-API message, even from a test file. |
| PublicApiImports.TestingApiRejectedAsWritten | lib/rules/public-api-imports.js:53 | As written, `l/s/testing` is always reported with the public-API message, whichever file imports it. |

## Left out

- Object keys inherited from the prototype are not modelled. Names such as
  `constructor` or `toString` pass the lookups `layers[x]`, `layersOrder[x]`
  and `availableLayers[x]` in the code, but the model treats the layer tables
  as plain sets and maps of their own keys.
- Windows path semantics (`path.win32.normalize`, drive letters) are left
  out. Normalisation is the POSIX one for every separator; only the split
  separator `sep` varies.
- micromatch's glob matching is left out; `matches` is a parameter.
- The ESLint host is left out: rule registration, `meta`, option schemas,
  `context.report` and the AST node. A visitor's effect is a `Verdict`. The
  rules have no auto-fix, and none is modelled.
- lib/index.js, which only registers the rules, is not part of this model.
- lib/helpers/isPathRelative.js is not part of this model. Its definition is
  taken to be the one in lib/rules/check-path.js:36-38 (`Lint.IsPathRelative`).
- lib/schema/alias.js is not part of this model; the alias is an
  `Option<string>` argument.
- `path.parse`'s `root` field and `path.resolve` of a relative path are left
  out; the helpers only resolve absolute paths. `resolveProjectPath` in the
  tests depends on the working directory and is left out.
- RelativePath.GetRelativePath: its value is stated for files below a
  single directory named `src` (other names may contain the text `src`) and
  targets made of plain names (`GetRelativePathOfRooted`,
  `GetRelativePathOfAncestor`), and for directories without `/src/`
  (`GetRelativePathOutsideSource`). Targets that contain `.`, `..` or a
  segment starting with a dot are not stated beyond "starts with a dot". A
  target such as `a/.env` next to the file comes out as `.env`, which starts
  with a dot but is not a relative specifier in the sense of
  `Lint.IsPathRelative`.
- SourcePathArray.GetSourcePathArray and SourcePathArray.SegmentsUnderSrc
  both cut at the FIRST `src`. A checkout below a directory named `src`, as
  in `/home/u/src/app/src/features/…`, reads the layer as `app` in both. The
  lemmas about rooted paths require that no directory above the project's
  `src` is named `src`.
- PosixPath.Normalize: its own contract states only that the result is
  non-empty and absolute exactly when the argument is. Idempotence is the
  lemma `NormalizeIdempotent`, and that the segments of the result are the
  names is stated only for rooted paths of plain names
  (`NormalizeAbsoluteNames`). It is not compared with Node beyond the cases
  the helpers reach.

## Findings

| source | as written | input that shows it | evidently intended | confidence | as-written member | corrected member |
|---|---|---|---|---|---|---|
| lib/rules/layer-imports.js:75 | Ranks are compared with `<=`, so a layer may not import from itself. | `shared/Button` imported from `…/src/shared/Select` is reported. | `shared` may import `shared`, as the rule's own case at tests/lib/rules/layer-imports.js:47-51 says. Only that pair is shown by a case. The model also exempts `entities`, whose slices compose one another by design, and keeps reporting the other layers. | not executed | LayerImports.SameLayerReportedAsWritten | LayerImports.SameLayerAllowed |
| lib/rules/public-api-imports.js:53 | Every specifier with more than two segments is reported; there is no testing public API and no test-file option. | `entities/User/testing` imported from `…/LoginForm.test.ts` is reported with the public-API message. | `l/s/testing` is allowed from test files and reported with "Only test files can import from testing public api." from others (tests/lib/rules/public-api-imports.js:49-95). | not executed | PublicApiImports.TestingApiRejectedAsWritten | PublicApiImports.TestingApiOnlyFromTests |
| lib/helpers/getSourcePathArray.js:5-6 | A path without `src` gives `undefined`, and `.split` on it throws out of the rule. | A file `…/config/babel/newBabelPlugin` throws on any import. | Files outside the source tree are not checked (tests/lib/rules/layer-imports.js:37-46). | not executed | LayerImports.OutsideSrcThrowsAsWritten | LayerImports.OutsideSrcAllowed |
| lib/helpers/getSourcePathArray.js:5 | The path is cut at the first occurrence of the text `src`, inside any name. | `/srcs/src/pages/Home` gives `[""]` instead of `[pages, Home]`. | The cut is at the first segment that is `src`. | not executed | SourcePathArray.SubstringCutMisplaced | SourcePathArray.SegmentsUnderSrcOfRooted |
| lib/rules/check-path.js:65 | The import specifier is split on `path.sep`, which is `\` on Windows. | On Windows, `entities/User/ui/UserCard` from a file in `src\entities\User` passes. | Specifiers always use `/`; only the file path uses the platform separator. | not executed | CheckPath.WindowsNeverReportsAsWritten | CheckPath.CorrectedSlicesOnAnyPlatform |
