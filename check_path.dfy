/**
 * The `check-path` rule: within one slice of a layer (`entities/User`, say),
 * imports must be relative. An absolute import is reported when its first two
 * segments name the same layer and slice as the first two segments below
 * `src` of the importing file's path. The configured alias is removed first.
 */
module CheckPath {
  import opened Wrappers
  import opened Strings
  import opened PosixPath
  import opened SourcePathArray
  import opened Alias
  import opened Lint

  /** `layers`: the layers that are divided into slices. */
  const Layers: set<string> := {"shared", "entities", "features", "widgets", "pages"}

  const RelativeMessage: string := "All paths should be relative within the same slice."

  /**
   * The layer and slice that a list of segments starts with, when it has both,
   * neither is empty and the layer is one of `layers`.
   */
  function SliceOf(segments: seq<string>): (r: Option<(string, string)>)
    ensures r.Some? ==> |segments| >= 2 && r.value == (segments[0], segments[1])
    ensures r.Some? <==> Truthy(At(segments, 0)) && Truthy(At(segments, 1)) && segments[0] in Layers
  {
    if |segments| >= 2 && segments[0] != "" && segments[1] != "" && segments[0] in Layers then
      Some((segments[0], segments[1]))
    else None
  }

  /**
   * The body of `shouldBeRelative(from, to)` once the file path is read:
   * `fromArray` is the file's segments below `src` (`None` when reading it
   * threw) and the specifier is split on `toSep`. The file's layer and slice
   * are `fromArray[1]` and `fromArray[2]` of the text after `src`, which are
   * the first two of `getSourcePathArray(from)`. `None` is a `TypeError`.
   */
  function SliceCheck(fromArray: Option<seq<string>>, to: string, toSep: char): (r: Option<bool>)
    // a relative specifier is never flagged, whatever the file
    ensures IsPathRelative(to) ==> r == Some(false)
    // a specifier without a known layer and a slice is never flagged, whatever the file
    ensures SliceOf(Split(to, [toSep])).None? ==> r == Some(false)
    // otherwise it throws exactly when the file path could not be read, and it is flagged
    // exactly when the file lies in the specifier's layer and slice
    ensures !IsPathRelative(to) && SliceOf(Split(to, [toSep])).Some? ==>
      match fromArray
      case None => r.None?
      case Some(segments) => r == Some(SliceOf(Split(to, [toSep])) == SliceOf(segments))
  {
    if IsPathRelative(to) then Some(false)
    else
      var toArray := Split(to, [toSep]);
      var toLayer := At(toArray, 0);
      var toSlice := At(toArray, 1);
      if !Truthy(toLayer) || !Truthy(toSlice) || toLayer.value !in Layers then Some(false)
      else
        match fromArray
        case None => None
        case Some(segments) =>
          var fromLayer := At(segments, 0);
          var fromSlice := At(segments, 1);
          if !Truthy(fromLayer) || !Truthy(fromSlice) || fromLayer.value !in Layers then Some(false)
          else Some(fromLayer == toLayer && fromSlice == toSlice)
  }

  /** `shouldBeRelative(from, to)` as written: both paths are split on `path.sep`. */
  function ShouldBeRelative(from: string, to: string, sep: char): (r: Option<bool>)
    // it throws exactly when an absolute specifier names a layer and slice and the file path has no `src`
    ensures r.None? <==>
      !IsPathRelative(to) && SliceOf(Split(to, [sep])).Some? && GetSourcePathArray(from, sep).None?
    // it flags exactly an absolute specifier into the file's own layer and slice
    ensures r == Some(true) <==>
      && !IsPathRelative(to) && SliceOf(Split(to, [sep])).Some? && GetSourcePathArray(from, sep).Some?
      && SliceOf(Split(to, [sep])) == SliceOf(GetSourcePathArray(from, sep).value)
  {
    SliceCheck(GetSourcePathArray(from, sep), to, sep)
  }

  /** Report the slice message when the check says so. */
  function Outcome(shouldBe: Option<bool>): (r: Verdict)
    // a throw propagates, a flag is the slice report, and no flag passes
    ensures r == Throws <==> shouldBe.None?
    ensures r == Report(RelativeMessage) <==> shouldBe == Some(true)
    ensures r == Pass <==> shouldBe == Some(false)
  {
    match shouldBe
    case None => Throws
    case Some(b) => if b then Report(RelativeMessage) else Pass
  }

  /** The `ImportDeclaration` visitor for the file `filename` and the specifier `source`, as written. */
  function CheckPath(filename: string, source: string, alias: Option<string>, sep: char): (r: Verdict)
    // its only message is the slice message
    ensures r == Pass || r == Report(RelativeMessage) || r == Throws
    // a relative import is never reported and never throws
    ensures IsPathRelative(ReplaceAlias(source, alias)) ==> r == Pass
  {
    var importTo := ReplaceAlias(source, alias);
    Outcome(ShouldBeRelative(filename, importTo, sep))
  }

  /**
   * For a file whose segments below `src` are `fromArray`, the absolute
   * specifier `l/s/…` is flagged exactly when `l` is a layer, `s` is not
   * empty, and the file's first two segments are `l` and `s`; how deep
   * either path goes does not matter.
   */
  lemma SliceCheckSegments(fromArray: seq<string>, to: string, segs: seq<string>)
    requires WrittenAs(to, segs)
    ensures SliceCheck(Some(fromArray), to, '/') == Some(SliceOf(segs).Some? && SliceOf(segs) == SliceOf(fromArray))
  {
    SpecifierSegments(to, segs);
    assert "/" == ['/'];
  }

  /** The rule on POSIX: an import into the file's own layer and slice is reported, any other is not. */
  lemma CheckPathSlices(filename: string, fromArray: seq<string>, specifier: string, segs: seq<string>)
    requires GetSourcePathArray(filename, '/') == Some(fromArray)
    requires WrittenAs(specifier, segs)
    ensures CheckPath(filename, specifier, None, '/') ==
      (if SliceOf(segs).Some? && SliceOf(segs) == SliceOf(fromArray) then Report(RelativeMessage) else Pass)
  {
    SliceCheckSegments(fromArray, specifier, segs);
  }

  /**
   * A file outside any source tree (no segment contains `src`) makes the
   * rule throw on an absolute import that names a layer and a slice.
   */
  lemma CheckPathOutsideSrcThrows(names: seq<string>, specifier: string, segs: seq<string>)
    requires OutsideSrc(names)
    requires WrittenAs(specifier, segs) && SliceOf(segs).Some?
    ensures CheckPath("/" + Join(names, "/"), specifier, None, '/') == Throws
  {
    var filename := "/" + Join(names, "/");
    assert GetSourcePathArray(filename, '/').None? by {
      GetSourcePathArrayOutsideSrc(names, '/');
    }
    assert SliceCheck(None, specifier, '/').None? by {
      SpecifierSegments(specifier, segs);
      assert "/" == ['/'];
    }
    ThrowsWithoutFilePath(filename, specifier);
  }

  /** When the file path cannot be read and the specifier names a slice, the rule throws. */
  lemma ThrowsWithoutFilePath(filename: string, specifier: string)
    requires GetSourcePathArray(filename, '/').None? && SliceCheck(None, specifier, '/').None?
    ensures CheckPath(filename, specifier, None, '/') == Throws
  {
    assert ReplaceAlias(specifier, None) == specifier;
  }

  /** Writing the alias in front of a specifier changes nothing. */
  lemma CheckPathAliasTransparent(filename: string, alias: string, specifier: string, sep: char)
    ensures CheckPath(filename, alias + specifier, Some(alias), sep) == CheckPath(filename, specifier, None, sep)
  {
    ReplaceAliasPrefixed(alias, specifier);
  }

  /** Every layer is a non-empty name that does not start with a dot. */
  lemma LayerShape(layer: string)
    requires layer in Layers
    ensures layer != "" && layer[0] != '.'
  {
  }

  /** A specifier `layer/slice/…` meets the conditions of `CheckPathSlices` and names that layer and slice. */
  lemma SliceSegments(layer: string, slice: string, rest: seq<string>)
    requires layer in Layers && slice != "" && '/' !in slice
    requires forall k :: 0 <= k < |rest| ==> '/' !in rest[k]
    ensures var segs := [layer, slice] + rest;
      && segs[0] != "" && segs[0][0] != '.'
      && (forall k :: 0 <= k < |segs| ==> '/' !in segs[k])
      && SliceOf(segs) == Some((layer, slice))
  {
    LayerShape(layer);
    var segs := [layer, slice] + rest;
    assert '/' !in layer;
    forall k | 0 <= k < |segs| ensures '/' !in segs[k] {
      if k >= 2 {
        assert segs[k] == rest[k - 2];
      }
    }
  }

  /**
   * The rule's case: from `features/<slice>/…`, an import of
   * `entities/<slice>/…` (such as `entities/User/ui/UserCard/UserCard` from
   * `features/LoginByUsername/ui/LoginForm`) is allowed.
   */
  lemma OtherSliceAllowed(filename: string, fileSlice: string, fileRest: seq<string>,
                          specifier: string, slice: string, rest: seq<string>)
    requires GetSourcePathArray(filename, '/') == Some(["features", fileSlice] + fileRest)
    requires slice != "" && '/' !in slice && forall k :: 0 <= k < |rest| ==> '/' !in rest[k]
    requires specifier == Join(["entities", slice] + rest, "/")
    ensures CheckPath(filename, specifier, None, '/') == Pass
  {
    var fromArray := ["features", fileSlice] + fileRest;
    SliceSegments("entities", slice, rest);
    assert SliceOf(fromArray).None? || SliceOf(fromArray).value.0 == "features";
    CheckPathSlices(filename, fromArray, specifier, ["entities", slice] + rest);
  }

  /**
   * The rule's cases: from `entities/<slice>/…` (such as
   * `entities/User/ui/UserCard`), an import of `entities/<slice>/…` (such as
   * `entities/User/ui/UserCard/UserCard`) is reported, and so is the same
   * specifier behind the alias (`@/entities/User/ui/UserCard/UserCard`).
   */
  lemma SameSliceReported(filename: string, slice: string, fileRest: seq<string>,
                          specifier: string, rest: seq<string>, alias: string)
    requires GetSourcePathArray(filename, '/') == Some(["entities", slice] + fileRest)
    requires slice != "" && '/' !in slice && forall k :: 0 <= k < |rest| ==> '/' !in rest[k]
    requires specifier == Join(["entities", slice] + rest, "/")
    ensures CheckPath(filename, specifier, None, '/') == Report(RelativeMessage)
    ensures CheckPath(filename, alias + specifier, Some(alias), '/') == Report(RelativeMessage)
  {
    var fromArray := ["entities", slice] + fileRest;
    SliceSegments("entities", slice, rest);
    assert SliceOf(fromArray) == Some(("entities", slice));
    CheckPathSlices(filename, fromArray, specifier, ["entities", slice] + rest);
    CheckPathAliasTransparent(filename, alias, specifier, '/');
  }

  // ---------------------------------------------------------------------------
  // Specifiers on Windows

  /**
   * As written, on Windows (`path.sep` is `\`) a specifier such as
   * `entities/User/ui/UserCard` has no `\` and splits into one piece, so it
   * never has a slice and no file is ever reported.
   */
  lemma WindowsNeverReportsAsWritten(filename: string, specifier: string)
    requires '\\' !in specifier
    ensures CheckPath(filename, specifier, None, '\\') == Pass
  {
    NotContainsChar(specifier, '\\');
    SplitCount(specifier, ['\\']);
    SplitFirstPiece(specifier, ['\\']);
  }

  /**
   * `shouldBeRelative(from, to)` as intended: specifiers always use `/`, only
   * the file path uses the platform separator; the file's segments are those
   * after its `src` SEGMENT, and a file outside any source tree is not
   * checked.
   */
  function ShouldBeRelativeCorrected(from: string, to: string, sep: char): (r: bool)
    // a file outside any source tree is never flagged
    ensures SegmentsUnderSrc(from, sep).None? ==> !r
    // where the two readings of the file path agree, on POSIX it is the rule as written
    ensures sep == '/' && GetSourcePathArray(from, sep).Some? && GetSourcePathArray(from, sep) == SegmentsUnderSrc(from, sep) ==>
      Some(r) == ShouldBeRelative(from, to, sep)
  {
    match SegmentsUnderSrc(from, sep)
    case None => false
    case Some(segments) =>
      assert "/" == ['/'];
      SliceCheck(Some(segments), to, '/').value
  }

  /** The visitor with the file's segments cut at `src` and the specifier split on `/`. */
  function CheckPathCorrected(filename: string, source: string, alias: Option<string>, sep: char): (r: Verdict)
    // it never throws, and its only message is the slice message
    ensures r == Pass || r == Report(RelativeMessage)
    // a file outside any source tree is not checked
    ensures SegmentsUnderSrc(filename, sep).None? ==> r == Pass
    // where the two readings of the file path agree, on POSIX it is the rule as written
    ensures sep == '/' && GetSourcePathArray(filename, sep).Some? && GetSourcePathArray(filename, sep) == SegmentsUnderSrc(filename, sep) ==>
      r == CheckPath(filename, source, alias, sep)
  {
    var importTo := ReplaceAlias(source, alias);
    if ShouldBeRelativeCorrected(filename, importTo, sep) then Report(RelativeMessage) else Pass
  }

  /**
   * On any platform, a file whose segments below `src` are `fromArray` is
   * reported for `l/s/…` exactly when it lies in layer `l`, slice `s`: the
   * platform separator no longer hides the slice of the specifier.
   */
  lemma CorrectedSlicesOnAnyPlatform(filename: string, fromArray: seq<string>, specifier: string,
                                     segs: seq<string>, sep: char)
    requires SegmentsUnderSrc(filename, sep) == Some(fromArray)
    requires WrittenAs(specifier, segs)
    ensures CheckPathCorrected(filename, specifier, None, sep) ==
      (if SliceOf(segs).Some? && SliceOf(segs) == SliceOf(fromArray) then Report(RelativeMessage) else Pass)
  {
    SliceCheckSegments(fromArray, specifier, segs);
    assert ReplaceAlias(specifier, None) == specifier;
    assert ShouldBeRelativeCorrected(filename, specifier, sep) == (SliceOf(segs).Some? && SliceOf(segs) == SliceOf(fromArray));
  }

  /** A file outside any source tree is not checked, and does not throw. */
  lemma CorrectedOutsideSrcAllowed(filename: string, names: seq<string>, source: string, alias: Option<string>)
    requires NoSrcSegment(names)
    requires filename == "/" + Join(names, "/")
    ensures CheckPathCorrected(filename, source, alias, '/') == Pass
  {
    SegmentsUnderSrcOutsideSrc(names);
  }
}
