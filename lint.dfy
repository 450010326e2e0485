/**
 * What the three rules share: the test for a relative specifier, the outcome
 * of visiting one import declaration, and the ignore-pattern test.
 */
module Lint {
  import opened Wrappers
  import opened Strings
  import opened PosixPath

  /**
   * The outcome of an `ImportDeclaration` visitor: nothing, one report with
   * its message, or a `TypeError` thrown out of the rule.
   */
  datatype Verdict = Pass | Report(message: string) | Throws

  /** `isPathRelative(path)`: `.`, `./…` or `../…`. */
  predicate IsPathRelative(path: string)
    // a relative specifier starts with a dot
    ensures IsPathRelative(path) ==> path != "" && path[0] == '.'
  {
    path == "." || StartsWith(path, "./") || StartsWith(path, "../")
  }

  /** A specifier that starts with anything but a dot is not relative. */
  lemma NotRelativeByFirstChar(path: string)
    requires |path| > 0 && path[0] != '.'
    ensures !IsPathRelative(path)
  {
    if |path| >= 2 {
      assert path[..2][0] == path[0];
    }
    if |path| >= 3 {
      assert path[..3][0] == path[0];
    }
  }

  /** `array[i]`, `undefined` past the end. */
  function At(a: seq<string>, i: nat): (r: Option<string>)
    ensures r.Some? <==> i < |a|
    ensures r.Some? ==> r.value == a[i]
  {
    if i < |a| then Some(a[i]) else None
  }

  /** JavaScript truthiness of a string that may be `undefined`. */
  predicate Truthy(o: Option<string>)
  {
    o.Some? && o.value != ""
  }

  /**
   * `isMatchSomePattern(name, patterns)`: some pattern matches the name;
   * `matches` stands for micromatch's `isMatch`.
   */
  predicate IsMatchSomePattern(name: string, patterns: seq<string>, matches: (string, string) -> bool)
    // no pattern matches nothing, and a single pattern matches as it does alone
    ensures patterns == [] ==> !IsMatchSomePattern(name, patterns, matches)
    ensures |patterns| == 1 ==> (IsMatchSomePattern(name, patterns, matches) <==> matches(name, patterns[0]))
  {
    exists i :: 0 <= i < |patterns| && matches(name, patterns[i])
  }

  /**
   * `specifier` is written as the `/`-separated segments `segs`, none of
   * which holds a `/`, the first a name that does not start with a dot.
   */
  predicate WrittenAs(specifier: string, segs: seq<string>)
  {
    && segs != [] && segs[0] != "" && segs[0][0] != '.'
    && (forall k :: 0 <= k < |segs| ==> '/' !in segs[k])
    && specifier == Join(segs, "/")
  }

  /** Such a specifier is absolute, and splitting it on `/` gives back its segments. */
  lemma SpecifierSegments(specifier: string, segs: seq<string>)
    requires WrittenAs(specifier, segs)
    ensures Split(specifier, "/") == segs
    ensures !IsPathRelative(specifier)
  {
    assert "/" == ['/'];
    SplitJoinChar(segs, '/');
    JoinFirstChar(segs);
    NotRelativeByFirstChar(specifier);
  }
}
