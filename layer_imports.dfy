/**
 * The `layer-imports` rule: the layers are ranked `shared` < `entities` <
 * `features` < `widgets` < `pages` < `app`, and a file may only import from
 * layers below its own. The current file's layer is the first segment below
 * `src` of its path, the imported layer the first `/`-segment of the
 * specifier (after the alias is removed). Relative imports, files and
 * specifiers outside the known layers, and specifiers that match one of the
 * `ignoreFilesPatterns` are not checked.
 */
module LayerImports {
  import opened Wrappers
  import opened Strings
  import opened PosixPath
  import opened SourceTree
  import opened SourcePathArray
  import opened Alias
  import opened Lint

  /** `layersOrder`: the rank of each layer. */
  const LayersOrder: map<string, nat> :=
    map["app" := 5, "pages" := 4, "widgets" := 3, "features" := 2, "entities" := 1, "shared" := 0]

  /** `getImportArray(importPath)`: the layer a specifier names, its first `/`-segment. */
  function GetImportArray(importPath: string): (r: string)
    // a prefix of the specifier without a separator, ending where the first separator is
    ensures StartsWith(importPath, r) && '/' !in r
    ensures r == importPath || (|r| < |importPath| && importPath[|r|] == '/')
  {
    FirstPieceOfSplit(importPath);
    Split(importPath, "/")[0]
  }

  /** The text before the first `/` holds no `/` and is followed by one, or is the whole text. */
  lemma FirstPieceOfSplit(s: string)
    ensures var first := Split(s, "/")[0];
      && StartsWith(s, first) && '/' !in first
      && (first == s || (|first| < |s| && s[|first|] == '/'))
  {
    SplitFirstPiece(s, "/");
    var pieces := Split(s, "/");
    var first := pieces[0];
    assert "/" == ['/'];
    forall j | 0 <= j < |first| ensures first[j] != '/' {
      OccursAtChar(first, '/', j);
    }
    if |pieces| > 1 {
      OccursAtChar(s, '/', |first|);
    }
  }

  /** The report for importing `importLayer` into a file of `currentFileLayer`. */
  function LayerMessage(importLayer: string, currentFileLayer: string): (r: string)
    // the fixed text around the two layers is 41 characters long
    ensures |r| == |importLayer| + |currentFileLayer| + 41
    // the imported layer follows the 24-character opening, the file's layer follows `' inside '`
    ensures r[..24] == "You can't import layer '" && r[24..24 + |importLayer|] == importLayer
    ensures r[24 + |importLayer|..34 + |importLayer|] == "' inside '"
    ensures r[34 + |importLayer|..34 + |importLayer| + |currentFileLayer|] == currentFileLayer
  {
    "You can't import layer '" + importLayer + "' inside '" + currentFileLayer + "' layer"
  }

  /**
   * The visitor's tests once the current file's segments below `src` are
   * known: a relative specifier, a file or a specifier outside the known
   * layers and an ignored specifier pass; otherwise the import is reported
   * when the imported layer does not rank below the file's, unless it is the
   * file's own layer and that layer is one of `selfImport`.
   */
  function LayerVerdict(pathArray: seq<string>, importPath: string, ignoreFilesPatterns: seq<string>,
                        matches: (string, string) -> bool, selfImport: set<string>): (r: Verdict)
    // it never throws, and a report is only about an absolute specifier no ignore pattern matches
    ensures r != Throws
    ensures r.Report? ==> !IsPathRelative(importPath) && !IsMatchSomePattern(importPath, ignoreFilesPatterns, matches)
  {
    var currentFileLayer := At(pathArray, 0);
    var importLayer := GetImportArray(importPath);
    if IsPathRelative(importPath) then Pass
    else if currentFileLayer.None? || currentFileLayer.value !in LayersOrder then Pass
    else if importLayer !in LayersOrder then Pass
    else if IsMatchSomePattern(importPath, ignoreFilesPatterns, matches) then Pass
    else if LayersOrder[currentFileLayer.value] <= LayersOrder[importLayer] &&
            !(importLayer == currentFileLayer.value && importLayer in selfImport) then
      Report(LayerMessage(importLayer, currentFileLayer.value))
    else Pass
  }

  /** Exempting layers from the check changes only the verdict on an import from the file's own layer. */
  lemma SelfImportOnlyForOwnLayer(pathArray: seq<string>, importPath: string, ignoreFilesPatterns: seq<string>,
                                  matches: (string, string) -> bool, selfImport: set<string>)
    requires At(pathArray, 0) != Some(GetImportArray(importPath))
    ensures LayerVerdict(pathArray, importPath, ignoreFilesPatterns, matches, selfImport) ==
      LayerVerdict(pathArray, importPath, ignoreFilesPatterns, matches, {})
  {
  }

  /**
   * The `ImportDeclaration` visitor, as written, for the file `filename` and
   * the specifier `source`; `sep` is `path.sep` and `matches` stands for
   * micromatch's `isMatch`.
   */
  function LayerImports(filename: string, source: string, alias: Option<string>,
                        ignoreFilesPatterns: seq<string>, matches: (string, string) -> bool, sep: char): (r: Verdict)
    // the current file's layer is computed before any other test: a file without `src` throws,
    // whatever it imports
    ensures r == Throws <==> GetSourcePathArray(filename, sep).None?
    // a report is only ever about an absolute specifier that no ignore pattern matches
    ensures r.Report? ==>
      var importPath := ReplaceAlias(source, alias);
      !IsPathRelative(importPath) && !IsMatchSomePattern(importPath, ignoreFilesPatterns, matches)
  {
    var importPath := ReplaceAlias(source, alias);
    match GetSourcePathArray(filename, sep)
    case None => Throws
    case Some(pathArray) => LayerVerdict(pathArray, importPath, ignoreFilesPatterns, matches, {})
  }

  /** No two layers share a rank. */
  lemma RanksDistinct(a: string, b: string)
    requires a in LayersOrder && b in LayersOrder && LayersOrder[a] == LayersOrder[b]
    ensures a == b
  {
    assert a in {"app", "pages", "widgets", "features", "entities", "shared"};
  }

  /** Every layer name is a non-empty name that does not start with a dot. */
  lemma LayerNameShape(layer: string)
    requires layer in LayersOrder
    ensures layer != "" && layer[0] != '.'
  {
  }

  /** The layer of a specifier `l/s1/…/sn` is `l`. */
  lemma ImportLayerOfSegments(specifier: string, segs: seq<string>)
    requires WrittenAs(specifier, segs)
    ensures GetImportArray(specifier) == segs[0]
    ensures !IsPathRelative(specifier)
  {
    SpecifierSegments(specifier, segs);
    SplitFirstPiece(specifier, "/");
  }

  /** The verdict on `l/…` for a file whose segments below `src` start with `fileLayer`. */
  lemma VerdictOfSegments(fileLayer: string, fileRest: seq<string>, specifier: string, segs: seq<string>,
                          ignoreFilesPatterns: seq<string>, matches: (string, string) -> bool, selfImport: set<string>)
    requires WrittenAs(specifier, segs)
    ensures LayerVerdict([fileLayer] + fileRest, specifier, ignoreFilesPatterns, matches, selfImport) ==
      (if IsMatchSomePattern(specifier, ignoreFilesPatterns, matches) then Pass
       else if fileLayer in LayersOrder && segs[0] in LayersOrder &&
          LayersOrder[fileLayer] <= LayersOrder[segs[0]] && !(segs[0] == fileLayer && fileLayer in selfImport)
       then Report(LayerMessage(segs[0], fileLayer)) else Pass)
  {
    ImportLayerOfSegments(specifier, segs);
    assert At([fileLayer] + fileRest, 0) == Some(fileLayer);
    VerdictOfLayers([fileLayer] + fileRest, fileLayer, specifier, segs[0], ignoreFilesPatterns, matches, selfImport);
  }

  /** The verdict once the file's layer and the imported layer are known. */
  lemma VerdictOfLayers(pathArray: seq<string>, fileLayer: string, importPath: string, importLayer: string,
                        ignoreFilesPatterns: seq<string>, matches: (string, string) -> bool, selfImport: set<string>)
    requires At(pathArray, 0) == Some(fileLayer) && GetImportArray(importPath) == importLayer
    requires !IsPathRelative(importPath)
    ensures LayerVerdict(pathArray, importPath, ignoreFilesPatterns, matches, selfImport) ==
      (if IsMatchSomePattern(importPath, ignoreFilesPatterns, matches) then Pass
       else if fileLayer in LayersOrder && importLayer in LayersOrder &&
          LayersOrder[fileLayer] <= LayersOrder[importLayer] && !(importLayer == fileLayer && fileLayer in selfImport)
       then Report(LayerMessage(importLayer, fileLayer)) else Pass)
  {
  }

  /**
   * For a file whose segments below `src` start with `fileLayer`, an import of
   * `l/…` that no ignore pattern matches is reported exactly when both are
   * known layers and `l` does not rank below `fileLayer`; the message names
   * `l` and then `fileLayer`.
   */
  lemma LayerImportsRanks(filename: string, fileLayer: string, fileRest: seq<string>,
                          specifier: string, segs: seq<string>,
                          ignoreFilesPatterns: seq<string>, matches: (string, string) -> bool, sep: char)
    requires GetSourcePathArray(filename, sep) == Some([fileLayer] + fileRest)
    requires WrittenAs(specifier, segs)
    requires !IsMatchSomePattern(specifier, ignoreFilesPatterns, matches)
    ensures LayerImports(filename, specifier, None, ignoreFilesPatterns, matches, sep) ==
      (if fileLayer in LayersOrder && segs[0] in LayersOrder && LayersOrder[fileLayer] <= LayersOrder[segs[0]]
       then Report(LayerMessage(segs[0], fileLayer)) else Pass)
  {
    VerdictOfSegments(fileLayer, fileRest, specifier, segs, ignoreFilesPatterns, matches, {});
  }

  lemma NoPatterns(name: string, matches: (string, string) -> bool)
    ensures !IsMatchSomePattern(name, [], matches)
  {
  }

  /** An alias that the specifier does not contain changes nothing. */
  lemma AliasAbsent(filename: string, source: string, alias: string,
                    ignoreFilesPatterns: seq<string>, matches: (string, string) -> bool, sep: char)
    requires !Contains(source, alias)
    ensures LayerImports(filename, source, Some(alias), ignoreFilesPatterns, matches, sep) ==
      LayerImports(filename, source, None, ignoreFilesPatterns, matches, sep)
  {
  }

  /** A specifier that an ignore pattern matches is never reported from a file below `src`. */
  lemma IgnoredNeverReported(filename: string, source: string, alias: Option<string>,
                             ignoreFilesPatterns: seq<string>, matches: (string, string) -> bool, sep: char)
    requires GetSourcePathArray(filename, sep).Some?
    requires IsMatchSomePattern(ReplaceAlias(source, alias), ignoreFilesPatterns, matches)
    ensures LayerImports(filename, source, alias, ignoreFilesPatterns, matches, sep) == Pass
  {
  }

  /** Writing the alias in front of a specifier changes nothing, ignore patterns included. */
  lemma LayerImportsAliasTransparent(filename: string, alias: string, specifier: string,
                                     ignoreFilesPatterns: seq<string>, matches: (string, string) -> bool, sep: char)
    ensures LayerImports(filename, alias + specifier, Some(alias), ignoreFilesPatterns, matches, sep) ==
      LayerImports(filename, specifier, None, ignoreFilesPatterns, matches, sep)
  {
    ReplaceAliasPrefixed(alias, specifier);
  }

  // ---------------------------------------------------------------------------
  // The rule's cases

  /**
   * From a file `<fileLayer>/<slice>`, `<layer>/<slice>` of a lower layer
   * passes: `entities/User` from `features/NewFeature`.
   */
  lemma LowerLayerAllowed(file: string, fileLayer: string, fileSlice: string, specifier: string,
                          layer: string, slice: string, matches: (string, string) -> bool)
    requires GetSourcePathArray(file, '/') == Some([fileLayer, fileSlice])
    requires layer in LayersOrder && fileLayer in LayersOrder && LayersOrder[layer] < LayersOrder[fileLayer]
    requires '/' !in slice && specifier == Join([layer, slice], "/")
    ensures LayerImports(file, specifier, None, [], matches, '/') == Pass
  {
    LayerSpecifier(layer, slice, specifier);
    assert [fileLayer, fileSlice] == [fileLayer] + [fileSlice];
    NoPatterns(specifier, matches);
    LayerImportsRanks(file, fileLayer, [fileSlice], specifier, [layer, slice], [], matches, '/');
  }

  /**
   * From a file `<fileLayer>/<slice>`, `<layer>/<slice>` of a higher layer is
   * reported, naming `layer` and then `fileLayer`: `entities/User` from
   * `shared/Button`, `pages/HomePage` from `features/NewFeature`.
   */
  lemma HigherLayerReported(file: string, fileLayer: string, fileSlice: string, specifier: string,
                            layer: string, slice: string, matches: (string, string) -> bool)
    requires GetSourcePathArray(file, '/') == Some([fileLayer, fileSlice])
    requires layer in LayersOrder && fileLayer in LayersOrder && LayersOrder[fileLayer] < LayersOrder[layer]
    requires '/' !in slice && specifier == Join([layer, slice], "/")
    ensures LayerImports(file, specifier, None, [], matches, '/') == Report(LayerMessage(layer, fileLayer))
  {
    LayerSpecifier(layer, slice, specifier);
    assert [fileLayer, fileSlice] == [fileLayer] + [fileSlice];
    NoPatterns(specifier, matches);
    LayerImportsRanks(file, fileLayer, [fileSlice], specifier, [layer, slice], [], matches, '/');
  }

  /** `<layer>/<slice>` is written as those two segments. */
  lemma LayerSpecifier(layer: string, slice: string, specifier: string)
    requires layer in LayersOrder && '/' !in slice && specifier == Join([layer, slice], "/")
    ensures WrittenAs(specifier, [layer, slice])
  {
    LayerNameShape(layer);
    assert '/' !in layer;
  }

  /**
   * Configuring the alias `@/` does not change the verdict on a specifier
   * written without it (`entities/User`, `pages/HomePage`).
   */
  lemma UnusedAliasChangesNothing(file: string, layer: string, slice: string, specifier: string,
                                  ignoreFilesPatterns: seq<string>, matches: (string, string) -> bool)
    requires '@' !in layer && '@' !in slice && specifier == Join([layer, slice], "/")
    ensures LayerImports(file, specifier, Some("@/"), ignoreFilesPatterns, matches, '/') ==
      LayerImports(file, specifier, None, ignoreFilesPatterns, matches, '/')
  {
    JoinCharFree([layer, slice], '@', "/");
    NotContainsLead(specifier, "@/");
    AliasAbsent(file, specifier, "@/", ignoreFilesPatterns, matches, '/');
  }

  /** `entities/User` from `shared/Article` is allowed once the pattern `entities/User` ignores it. */
  lemma IgnorePatternAllows(file: string, specifier: string, matches: (string, string) -> bool)
    requires GetSourcePathArray(file, '/') == Some(["shared", "Article"])
    requires specifier == "entities/User" && matches(specifier, specifier)
    ensures LayerImports(file, specifier, None, [specifier], matches, '/') == Pass
  {
    assert [specifier][0] == specifier;
  }

  /**
   * As written, a layer may not import from itself: `shared/Button` from
   * `shared/Select` is reported, since the ranks are compared with `<=`.
   */
  lemma SameLayerReportedAsWritten(file: string, layer: string, fileRest: seq<string>,
                                   specifier: string, segs: seq<string>, matches: (string, string) -> bool)
    requires GetSourcePathArray(file, '/') == Some([layer] + fileRest)
    requires layer in LayersOrder && segs != [] && segs[0] == layer
    requires forall k :: 0 <= k < |segs| ==> '/' !in segs[k]
    requires specifier == Join(segs, "/")
    ensures LayerImports(file, specifier, None, [], matches, '/') == Report(LayerMessage(layer, layer))
  {
    LayerNameShape(layer);
    LayerImportsRanks(file, layer, fileRest, specifier, segs, [], matches, '/');
  }

  /**
   * As written, a file outside any source tree (no segment contains `src`,
   * such as `…/config/babel/newBabelPlugin`) makes the rule throw, whatever
   * it imports.
   */
  lemma OutsideSrcThrowsAsWritten(names: seq<string>, source: string, alias: Option<string>,
                                  ignoreFilesPatterns: seq<string>, matches: (string, string) -> bool, sep: char)
    requires OutsideSrc(names)
    ensures LayerImports("/" + Join(names, "/"), source, alias, ignoreFilesPatterns, matches, sep) == Throws
  {
    GetSourcePathArrayOutsideSrc(names, sep);
  }

  // ---------------------------------------------------------------------------
  // The rule as its cases intend it

  /**
   * The layers whose slices may import one another: `shared`, which the
   * rule's own cases let import itself, and `entities`, whose slices compose
   * one another by design.
   */
  const SelfImportingLayers: set<string> := {"shared", "entities"}

  /**
   * The visitor as the rule's cases intend it: the file's layer is the
   * segment after the `src` SEGMENT, a file outside any source tree is not
   * checked, and a layer of `SelfImportingLayers` may import from itself.
   */
  function LayerImportsCorrected(filename: string, source: string, alias: Option<string>,
                                 ignoreFilesPatterns: seq<string>, matches: (string, string) -> bool, sep: char): (r: Verdict)
    // it never throws, and a report is only about an absolute specifier no ignore pattern matches
    ensures r != Throws
    ensures r.Report? ==>
      var importPath := ReplaceAlias(source, alias);
      !IsPathRelative(importPath) && !IsMatchSomePattern(importPath, ignoreFilesPatterns, matches)
    // a file outside any source tree is not checked
    ensures SegmentsUnderSrc(filename, sep).None? ==> r == Pass
  {
    var importPath := ReplaceAlias(source, alias);
    match SegmentsUnderSrc(filename, sep)
    case None => Pass
    case Some(pathArray) => LayerVerdict(pathArray, importPath, ignoreFilesPatterns, matches, SelfImportingLayers)
  }

  /**
   * For a file whose segments below `src` start with `fileLayer`, an import of
   * `l/…` that no ignore pattern matches is reported exactly when both are
   * known layers and `l` ranks strictly above `fileLayer`, or is `fileLayer`
   * itself and not one of `SelfImportingLayers`.
   */
  lemma CorrectedRanks(filename: string, fileLayer: string, fileRest: seq<string>,
                       specifier: string, segs: seq<string>,
                       ignoreFilesPatterns: seq<string>, matches: (string, string) -> bool, sep: char)
    requires SegmentsUnderSrc(filename, sep) == Some([fileLayer] + fileRest)
    requires WrittenAs(specifier, segs)
    requires !IsMatchSomePattern(specifier, ignoreFilesPatterns, matches)
    ensures LayerImportsCorrected(filename, specifier, None, ignoreFilesPatterns, matches, sep) ==
      (if fileLayer in LayersOrder && segs[0] in LayersOrder &&
          (LayersOrder[fileLayer] < LayersOrder[segs[0]] || (segs[0] == fileLayer && fileLayer !in SelfImportingLayers))
       then Report(LayerMessage(segs[0], fileLayer)) else Pass)
  {
    VerdictOfSegments(fileLayer, fileRest, specifier, segs, ignoreFilesPatterns, matches, SelfImportingLayers);
    if fileLayer in LayersOrder && segs[0] in LayersOrder {
      if LayersOrder[fileLayer] == LayersOrder[segs[0]] {
        RanksDistinct(fileLayer, segs[0]);
      }
      SelfImportReading(LayersOrder[fileLayer], LayersOrder[segs[0]], segs[0] == fileLayer, fileLayer in SelfImportingLayers);
    }
  }

  /** Same-rank layers are the same layer; the exemption then reads as a strict comparison otherwise. */
  lemma SelfImportReading(fileRank: nat, importRank: nat, same: bool, exempt: bool)
    requires fileRank == importRank ==> same
    requires same ==> fileRank == importRank
    ensures (fileRank <= importRank && !(same && exempt)) <==> (fileRank < importRank || (same && !exempt))
  {
  }

  /** `shared` and `entities` may import from themselves: `shared/Button` from `shared/Select` is allowed. */
  lemma SameLayerAllowed(file: string, layer: string, fileRest: seq<string>,
                         specifier: string, segs: seq<string>,
                         ignoreFilesPatterns: seq<string>, matches: (string, string) -> bool)
    requires SegmentsUnderSrc(file, '/') == Some([layer] + fileRest)
    requires layer in SelfImportingLayers && segs != [] && segs[0] == layer
    requires forall k :: 0 <= k < |segs| ==> '/' !in segs[k]
    requires specifier == Join(segs, "/")
    ensures LayerImportsCorrected(file, specifier, None, ignoreFilesPatterns, matches, '/') == Pass
  {
    LayerNameShape(layer);
    VerdictOfSegments(layer, fileRest, specifier, segs, ignoreFilesPatterns, matches, SelfImportingLayers);
  }

  /** The other layers still may not import from themselves: `features/A` from `features/B` is reported. */
  lemma SameLayerStillReported(file: string, layer: string, fileRest: seq<string>,
                               specifier: string, segs: seq<string>, matches: (string, string) -> bool)
    requires SegmentsUnderSrc(file, '/') == Some([layer] + fileRest)
    requires layer in LayersOrder && layer !in SelfImportingLayers && segs != [] && segs[0] == layer
    requires forall k :: 0 <= k < |segs| ==> '/' !in segs[k]
    requires specifier == Join(segs, "/")
    ensures LayerImportsCorrected(file, specifier, None, [], matches, '/') == Report(LayerMessage(layer, layer))
  {
    LayerNameShape(layer);
    NoPatterns(specifier, matches);
    VerdictOfSegments(layer, fileRest, specifier, segs, [], matches, SelfImportingLayers);
  }

  /** `…/config/babel/newBabelPlugin`, outside any source tree, is not checked and does not throw. */
  lemma OutsideSrcAllowed(names: seq<string>, source: string, alias: Option<string>,
                          ignoreFilesPatterns: seq<string>, matches: (string, string) -> bool)
    requires NoSrcSegment(names)
    ensures LayerImportsCorrected("/" + Join(names, "/"), source, alias, ignoreFilesPatterns, matches, '/') == Pass
  {
    SegmentsUnderSrcOutsideSrc(names);
  }

  /**
   * Where the two readings of the file path agree and the layers differ, the
   * corrected visitor gives the verdict of the rule as written.
   */
  lemma CorrectedAgreesAcrossLayers(filename: string, source: string, alias: Option<string>,
                                    ignoreFilesPatterns: seq<string>, matches: (string, string) -> bool, sep: char)
    requires GetSourcePathArray(filename, sep).Some?
    requires GetSourcePathArray(filename, sep) == SegmentsUnderSrc(filename, sep)
    requires At(GetSourcePathArray(filename, sep).value, 0) != Some(GetImportArray(ReplaceAlias(source, alias)))
    ensures LayerImportsCorrected(filename, source, alias, ignoreFilesPatterns, matches, sep) ==
      LayerImports(filename, source, alias, ignoreFilesPatterns, matches, sep)
  {
    SelfImportOnlyForOwnLayer(GetSourcePathArray(filename, sep).value, ReplaceAlias(source, alias),
      ignoreFilesPatterns, matches, SelfImportingLayers);
  }
}
