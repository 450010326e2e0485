/**
 * `replaceAlias(importPath, alias)`: the configured import alias (say `@/`)
 * is removed from an import specifier before it is classified. JavaScript's
 * `String.prototype.replace` with a string pattern removes the FIRST
 * occurrence only, wherever it is, not just a prefix.
 */
module Alias {
  import opened Wrappers
  import opened Strings

  /** `replaceAlias(importPath, alias)`; `None` is a `null` or `undefined` alias. */
  function ReplaceAlias(importPath: string, alias: Option<string>): (r: string)
    // no alias configured: the specifier is unchanged
    ensures alias.None? ==> r == importPath
    // an alias that does not occur changes nothing
    ensures alias.Some? && !Contains(importPath, alias.value) ==> r == importPath
    // one occurrence, and only one, is removed
    ensures alias.Some? && Contains(importPath, alias.value) ==> |r| == |importPath| - |alias.value|
    // it is the first occurrence: the text before it and the text after it are kept
    ensures alias.Some? ==> forall i :: IndexOf(importPath, alias.value) == Some(i) ==>
      r == importPath[..i] + importPath[i + |alias.value|..]
    // a leading alias is stripped
    ensures alias.Some? && StartsWith(importPath, alias.value) ==> r == importPath[|alias.value|..]
  {
    match alias
    case None => importPath
    case Some(a) => RemoveFirst(importPath, a)
  }

  /** Prefixing a specifier with the alias and then replacing the alias gives the specifier back. */
  lemma ReplaceAliasPrefixed(alias: string, x: string)
    ensures ReplaceAlias(alias + x, Some(alias)) == x
  {
    assert (alias + x)[..|alias|] == alias;
    assert (alias + x)[|alias|..] == x;
  }

  /** Only the first occurrence goes: a second copy of the alias further on stays in the result. */
  lemma ReplaceAliasFirstOnly(alias: string, x: string)
    ensures ReplaceAlias(alias + x + alias, Some(alias)) == x + alias
  {
    var s := alias + x + alias;
    assert s[..|alias|] == alias;
    assert s[|alias|..] == x + alias;
  }
}
