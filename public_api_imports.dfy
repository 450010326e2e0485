/**
 * The `public-api-imports` rule: an absolute import into a slice of one of
 * the layers `entities`, `features`, `widgets` and `pages` must stop at the
 * slice (`entities/User`), whose `index.ts` is its public API; reaching
 * further in (`entities/User/ui/UserCard`) is reported. The configured alias
 * is removed first, and relative imports are never checked.
 */
module PublicApiImports {
  import opened Wrappers
  import opened Strings
  import opened Alias
  import opened Lint

  /** The layers whose slices have a public API. */
  const AvailableLayers: set<string> := {"entities", "features", "widgets", "pages"}

  const PublicApiMessage: string := "Absolute import allowed only from public API (index.ts)."

  /** The `ImportDeclaration` visitor for the specifier `source`, as the rule is written. */
  function PublicApiImports(source: string, alias: Option<string>): (r: Verdict)
    // the rule never throws, and its only message is the public-API one
    ensures r == Pass || r == Report(PublicApiMessage)
    // relative imports are not checked
    ensures IsPathRelative(ReplaceAlias(source, alias)) ==> r == Pass
  {
    var importTo := ReplaceAlias(source, alias);
    if IsPathRelative(importTo) then Pass
    else
      var segments := Split(importTo, "/");
      var layer := segments[0];
      if layer !in AvailableLayers then Pass
      else if |segments| > 2 then Report(PublicApiMessage)
      else Pass
  }

  /**
   * An absolute specifier `l/s1/…/sn` is reported exactly when `l` is one of
   * the layers with a public API and it reaches past the slice (n >= 2).
   */
  lemma PublicApiReportsDeepImports(specifier: string, segs: seq<string>)
    requires WrittenAs(specifier, segs)
    ensures PublicApiImports(specifier, None) ==
      (if segs[0] in AvailableLayers && |segs| > 2 then Report(PublicApiMessage) else Pass)
  {
    assert !IsPathRelative(specifier) && Split(specifier, "/") == segs by {
      SpecifierSegments(specifier, segs);
    }
    PublicApiOfSplit(specifier, segs);
  }

  /** The rule on an absolute specifier depends only on its segments. */
  lemma PublicApiOfSplit(specifier: string, segs: seq<string>)
    requires !IsPathRelative(specifier) && Split(specifier, "/") == segs
    ensures PublicApiImports(specifier, None) ==
      (if segs[0] in AvailableLayers && |segs| > 2 then Report(PublicApiMessage) else Pass)
  {
    assert ReplaceAlias(specifier, None) == specifier;
  }

  /** Writing the alias in front of a specifier changes nothing. */
  lemma PublicApiAliasTransparent(alias: string, specifier: string)
    ensures PublicApiImports(alias + specifier, Some(alias)) == PublicApiImports(specifier, None)
  {
    ReplaceAliasPrefixed(alias, specifier);
  }

  // ---------------------------------------------------------------------------
  // The testing public API

  const TestingMessage: string := "Only test files can import from testing public api."

  /** `l/s/testing`: the slice's second public API, meant for test files only. */
  predicate IsTestingPublicApi(segments: seq<string>)
    // it is deeper than a slice, which is why the rule as written reports it
    ensures IsTestingPublicApi(segments) ==> |segments| > 2 && segments[|segments| - 1] == "testing"
  {
    |segments| == 3 && segments[2] == "testing"
  }

  /**
   * The visitor with the testing public API: `l/s/testing` is allowed from a
   * file that matches one of `testFilesPatterns` (`matches` stands for
   * micromatch's `isMatch`) and reported with its own message from any other
   * file; every other specifier is treated as before.
   */
  function PublicApiImportsWithTesting(filename: string, source: string, alias: Option<string>,
                                       testFilesPatterns: seq<string>, matches: (string, string) -> bool): (r: Verdict)
    // it differs from the rule as written only on the testing public API
    ensures !IsTestingPublicApi(Split(ReplaceAlias(source, alias), "/")) ==> r == PublicApiImports(source, alias)
    // relative imports are not checked
    ensures IsPathRelative(ReplaceAlias(source, alias)) ==> r == Pass
  {
    var importTo := ReplaceAlias(source, alias);
    if IsPathRelative(importTo) then Pass
    else
      var segments := Split(importTo, "/");
      var layer := segments[0];
      if layer !in AvailableLayers then Pass
      else if !IsTestingPublicApi(segments) then
        if |segments| > 2 then Report(PublicApiMessage) else Pass
      else if IsMatchSomePattern(filename, testFilesPatterns, matches) then Pass
      else Report(TestingMessage)
  }

  /**
   * `l/s/testing`, for a layer with a public API, is allowed exactly from test
   * files, and reported with the testing message from other files.
   */
  lemma TestingApiOnlyFromTests(filename: string, specifier: string, layer: string, slice: string,
                                testFilesPatterns: seq<string>, matches: (string, string) -> bool)
    requires layer in AvailableLayers && '/' !in slice
    requires specifier == Join([layer, slice, "testing"], "/")
    ensures PublicApiImportsWithTesting(filename, specifier, None, testFilesPatterns, matches) ==
      (if IsMatchSomePattern(filename, testFilesPatterns, matches) then Pass else Report(TestingMessage))
  {
    assert '/' !in layer;
    SpecifierSegments(specifier, [layer, slice, "testing"]);
  }

  /**
   * A specifier that goes past the testing API, such as
   * `entities/User/testing/mockUser.ts`, is reported with the public-API
   * message even from a test file.
   */
  lemma PastTestingApi(filename: string, specifier: string, segs: seq<string>,
                       testFilesPatterns: seq<string>, matches: (string, string) -> bool)
    requires WrittenAs(specifier, segs) && segs[0] in AvailableLayers && |segs| > 3
    ensures PublicApiImportsWithTesting(filename, specifier, None, testFilesPatterns, matches) == Report(PublicApiMessage)
  {
    assert !IsTestingPublicApi(Split(ReplaceAlias(specifier, None), "/")) by {
      SpecifierSegments(specifier, segs);
    }
    PublicApiReportsDeepImports(specifier, segs);
  }

  /** Every layer with a public API is a non-empty name that does not start with a dot. */
  lemma AvailableLayerShape(layer: string)
    requires layer in AvailableLayers
    ensures layer != "" && layer[0] != '.'
  {
  }

  /**
   * As written the rule has no testing public API: `l/s/testing` (such as
   * `entities/User/testing`) is reported with the public-API message whatever
   * file imports it, so a test file cannot import it and another file gets
   * the wrong message.
   */
  lemma TestingApiRejectedAsWritten(specifier: string, layer: string, slice: string)
    requires layer in AvailableLayers && '/' !in slice
    requires specifier == Join([layer, slice, "testing"], "/")
    ensures PublicApiImports(specifier, None) == Report(PublicApiMessage)
  {
    AvailableLayerShape(layer);
    assert '/' !in layer;
    assert WrittenAs(specifier, [layer, slice, "testing"]);
    PublicApiReportsDeepImports(specifier, [layer, slice, "testing"]);
  }
}
