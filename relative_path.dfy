/**
 * `getRelativePath(currentFilePath, absolutePath)`: the relative import
 * specifier that reaches `absolutePath` (a path below `src`, such as
 * `entities/User/model/slice/userSlice.ts`) from the file `currentFilePath`.
 * Both ends are placed under a synthetic root `/src/`, so the real location of
 * the project on disk does not matter; the last extension is dropped and a
 * leading `./` is added when the result does not already start with a dot.
 */
module RelativePath {
  import opened Wrappers
  import opened Strings
  import opened PosixPath
  import opened SourceTree
  import opened SourcePath

  /** How a possibly `undefined` value reads inside a template string. */
  function Interpolated(o: Option<string>): (r: string)
    // a defined value reads as itself, `undefined` as the word
    ensures o.Some? ==> r == o.value
    ensures o.None? ==> r == "undefined"
  {
    match o
    case None => "undefined"
    case Some(s) => s
  }

  /** The directory part and the extension-less name of the relative path (`relativePath` after line 16). */
  function StrippedRelative(currentFilePath: string, absolutePath: string): (r: string)
    // `path.join` never gives the empty path
    ensures r != ""
  {
    var currentFileDirName := Dirname(currentFilePath);
    var fromSource := GetSourcePath(currentFileDirName);
    var base := "/src/" + Interpolated(fromSource);
    var target := "/src/" + absolutePath;
    UnderSrcAbsolute(Interpolated(fromSource));
    UnderSrcAbsolute(absolutePath);
    var relativePath := Relative(base, target);
    var parsedPath := Parse(relativePath);
    JoinPaths(parsedPath.dir, parsedPath.name)
  }

  /** `getRelativePath(currentFilePath, absolutePath)` */
  function GetRelativePath(currentFilePath: string, absolutePath: string): (r: string)
    // a relative specifier always starts with a dot
    ensures StartsWith(r, ".")
  {
    var relativePath := StrippedRelative(currentFilePath, absolutePath);
    if StartsWith(relativePath, ".") then relativePath else "./" + relativePath
  }

  /** The directory of a file `/p1/…/pm/src/s1/…/sn/file` is `/p1/…/pm/src/s1/…/sn`. */
  lemma DirnameOfRooted(dir: seq<string>, file: string)
    requires dir != [] && dir[0] != ""
    requires forall k :: 0 <= k < |dir| ==> '/' !in dir[k]
    requires IsName(file)
    ensures Dirname("/" + Join(dir + [file], "/")) == "/" + Join(dir, "/")
  {
    var init := [""] + dir;
    forall k | 0 <= k < |init| ensures '/' !in init[k] {
      if k > 0 {
        assert init[k] == dir[k - 1];
      }
    }
    RootedJoin(dir + [file]);
    ConcatAssoc([""], dir, [file]);
    RootedJoin(dir);
    DirnameOfJoin(init, file);
  }

  lemma SrcNames(segs: seq<string>)
    requires forall k :: 0 <= k < |segs| ==> IsName(segs[k])
    ensures forall k :: 0 <= k < |[SrcText] + segs| ==> IsName(([SrcText] + segs)[k])
  {
    forall k | 0 <= k < |[SrcText] + segs| ensures IsName(([SrcText] + segs)[k]) {
      if k > 0 {
        assert ([SrcText] + segs)[k] == segs[k - 1];
      }
    }
  }

  /** Resolving `/src/s1/…/sn` gives back its segments. */
  lemma ResolvedUnderSrc(p: string, segs: seq<string>)
    requires segs != []
    requires forall k :: 0 <= k < |segs| ==> IsName(segs[k])
    requires p == "/src/" + Join(segs, "/")
    ensures ResolvedSegments(p) == [SrcText] + segs
  {
    UnderSrcRoot(segs);
    SrcNames(segs);
    ResolvedSegmentsOfNames([SrcText] + segs);
  }

  /** From a directory to a file in it, the relative path is the file's name. */
  lemma RelativeToChild(segs: seq<string>, target: string)
    requires segs != [] && IsName(target)
    requires forall k :: 0 <= k < |segs| ==> IsName(segs[k])
    ensures StartsWith("/src/" + Join(segs, "/"), "/") && StartsWith("/src/" + Join(segs + [target], "/"), "/")
    ensures Relative("/src/" + Join(segs, "/"), "/src/" + Join(segs + [target], "/")) == target
  {
    var from, to := "/src/" + Join(segs, "/"), "/src/" + Join(segs + [target], "/");
    UnderSrcAbsolute(Join(segs, "/"));
    UnderSrcAbsolute(Join(segs + [target], "/"));
    ChildLonger(segs, target);
    ResolvedChild(from, to, segs, target);
    RelativeOfChild(from, to, target);
  }

  lemma ChildLonger(segs: seq<string>, target: string)
    requires segs != []
    ensures "/src/" + Join(segs, "/") != "/src/" + Join(segs + [target], "/")
  {
    JoinAppend(segs, "/", target);
    assert |Join(segs + [target], "/")| > |Join(segs, "/")|;
  }

  lemma ResolvedChild(from: string, to: string, segs: seq<string>, target: string)
    requires segs != [] && IsName(target)
    requires forall k :: 0 <= k < |segs| ==> IsName(segs[k])
    requires from == "/src/" + Join(segs, "/") && to == "/src/" + Join(segs + [target], "/")
    ensures ResolvedSegments(to) == ResolvedSegments(from) + [target]
  {
    ResolvedUnderSrc(from, segs);
    ChildUnderSrc(to, segs, target);
  }

  lemma ChildUnderSrc(to: string, segs: seq<string>, target: string)
    requires IsName(target)
    requires forall k :: 0 <= k < |segs| ==> IsName(segs[k])
    requires to == "/src/" + Join(segs + [target], "/")
    ensures ResolvedSegments(to) == [SrcText] + segs + [target]
  {
    var t := segs + [target];
    assert ResolvedSegments(to) == [SrcText] + t by {
      NamesAppend(segs, target);
      ResolvedUnderSrc(to, t);
    }
    ConcatAssoc([SrcText], segs, [target]);
  }

  lemma NamesAppend(segs: seq<string>, target: string)
    requires IsName(target)
    requires forall k :: 0 <= k < |segs| ==> IsName(segs[k])
    ensures forall k :: 0 <= k < |segs + [target]| ==> IsName((segs + [target])[k])
  {
    forall k | 0 <= k < |segs + [target]| ensures IsName((segs + [target])[k]) {
      if k < |segs| {
        assert (segs + [target])[k] == segs[k];
      }
    }
  }

  /** When `to` resolves to one more segment than `from`, the relative path is that segment. */
  lemma RelativeOfChild(from: string, to: string, target: string)
    requires StartsWith(from, "/") && StartsWith(to, "/") && from != to
    requires ResolvedSegments(to) == ResolvedSegments(from) + [target]
    ensures Relative(from, to) == target
  {
    var f := ResolvedSegments(from);
    RelativeSegmentsOfChild(f, target);
  }

  lemma RelativeSegmentsOfChild(f: seq<string>, target: string)
    ensures RelativeSegments(f, f + [target]) == [target]
  {
    assert Dots(0) == [];
  }

  /** The steps of the computation, one fact each. */
  lemma StrippedRelativeSteps(current: string, absolutePath: string, dir: string, source: string, rel: string)
    requires Dirname(current) == dir && GetSourcePath(dir) == Some(source)
    requires StartsWith("/src/" + source, "/") && StartsWith("/src/" + absolutePath, "/")
    requires Relative("/src/" + source, "/src/" + absolutePath) == rel
    ensures StrippedRelative(current, absolutePath) == JoinPaths(Parse(rel).dir, Parse(rel).name)
  {
  }

  /** The extension-less name of a segment that does not start with a dot is a plain name not starting with a dot. */
  lemma StemIsName(target: string)
    requires IsName(target) && target[0] != '.'
    ensures var name := SplitExtension(target, true).0;
      IsName(name) && name[0] == target[0]
  {
    var parts := SplitExtension(target, true);
    var name := parts.0;
    assert name != "";
    assert target[..|name|] == name;
    assert name[0] == target[0];
    assert '/' !in name by {
      forall i | 0 <= i < |name| ensures name[i] != '/' {
        assert name[i] == target[i];
        assert target[i] in target;
      }
    }
  }

  /** A plain name that is its own relative path: parsed, stripped of its extension and joined back. */
  lemma StrippedName(target: string)
    requires IsName(target) && target[0] != '.'
    ensures JoinPaths(Parse(target).dir, Parse(target).name) == SplitExtension(target, true).0
  {
    ParseSegment(target);
    StemIsName(target);
    NameJoinsToItself(SplitExtension(target, true).0);
  }

  /** A single name joined onto the empty directory is itself. */
  lemma NameJoinsToItself(name: string)
    requires IsName(name)
    ensures JoinPaths("", name) == name
  {
    NormalizeRender(false, [name], false);
    assert Render(false, [name], false) == name;
  }

  /** The directory of the current file. */
  lemma DirOfFile(pre: seq<string>, segs: seq<string>, file: string)
    requires forall k :: 0 <= k < |pre| ==> IsName(pre[k])
    requires forall k :: 0 <= k < |segs| ==> IsName(segs[k])
    requires IsName(file)
    ensures Dirname("/" + Join(pre + [SrcText] + segs + [file], "/")) == "/" + Join(pre + [SrcText] + segs, "/")
  {
    var dir := pre + [SrcText] + segs;
    RootedNames(pre, segs);
    assert dir[0] != "" by {
      if pre != [] {
        assert dir[0] == pre[0];
      } else {
        assert dir[0] == SrcText;
      }
    }
    DirnameOfRooted(dir, file);
  }

  /** For a sibling target, the extension-less relative path is the target's stem. */
  lemma StrippedSibling(pre: seq<string>, segs: seq<string>, file: string, target: string)
    requires segs != []
    requires forall k :: 0 <= k < |pre| ==> IsName(pre[k]) && pre[k] != SrcText
    requires forall k :: 0 <= k < |segs| ==> IsName(segs[k]) && segs[k] != SrcText
    requires IsName(file) && IsName(target) && target[0] != '.'
    ensures StrippedRelative("/" + Join(pre + [SrcText] + segs + [file], "/"), Join(segs + [target], "/"))
      == SplitExtension(target, true).0
  {
    var current := "/" + Join(pre + [SrcText] + segs + [file], "/");
    DirOfFile(pre, segs, file);
    GetSourcePathOfRooted(pre, segs);
    RelativeToChild(segs, target);
    StrippedRelativeSteps(current, Join(segs + [target], "/"), "/" + Join(pre + [SrcText] + segs, "/"),
      Join(segs, "/"), target);
    StrippedName(target);
  }

  /**
   * A target in the current file's own directory yields `./<name>`, the
   * target's name without its last extension: for the file
   * `/p1/…/pm/src/s1/…/sn/file` and the target `s1/…/sn/target`.
   */
  lemma GetRelativePathSibling(pre: seq<string>, segs: seq<string>, file: string, target: string)
    requires segs != []
    requires forall k :: 0 <= k < |pre| ==> IsName(pre[k]) && pre[k] != SrcText
    requires forall k :: 0 <= k < |segs| ==> IsName(segs[k]) && segs[k] != SrcText
    requires IsName(file) && IsName(target) && target[0] != '.'
    ensures GetRelativePath("/" + Join(pre + [SrcText] + segs + [file], "/"), Join(segs + [target], "/"))
      == "./" + SplitExtension(target, true).0
  {
    StrippedSibling(pre, segs, file, target);
    StemIsName(target);
    var name := SplitExtension(target, true).0;
    assert !StartsWith(name, ".") by {
      assert name[..1][0] == name[0];
    }
  }

  // ---------------------------------------------------------------------------
  // Targets anywhere below `src`

  /** Under the common first segment `src`, the way between two directories is the way between the rest. */
  lemma RelativeSegmentsUnderSrc(d: seq<string>, u: seq<string>)
    ensures RelativeSegments([SrcText] + d, [SrcText] + u) == RelativeSegments(d, u)
  {
    var f, t := [SrcText] + d, [SrcText] + u;
    assert f[1..] == d && t[1..] == u;
    var k := CommonPrefix(d, u);
    assert CommonPrefix(f, t) == 1 + k;
    assert t[1 + k..] == u[k..];
  }

  /** `path.relative` between two paths below the synthetic root `/src/`. */
  lemma RelativeUnderSrc(d: seq<string>, u: seq<string>)
    requires d != [] && u != []
    requires forall k :: 0 <= k < |d| ==> IsName(d[k])
    requires forall k :: 0 <= k < |u| ==> IsName(u[k])
    ensures StartsWith("/src/" + Join(d, "/"), "/") && StartsWith("/src/" + Join(u, "/"), "/")
    ensures Relative("/src/" + Join(d, "/"), "/src/" + Join(u, "/")) ==
      if d == u then "" else Join(RelativeSegments(d, u), "/")
  {
    var from, to := "/src/" + Join(d, "/"), "/src/" + Join(u, "/");
    UnderSrcAbsolute(Join(d, "/"));
    UnderSrcAbsolute(Join(u, "/"));
    ResolvedUnderSrc(from, d);
    ResolvedUnderSrc(to, u);
    if d != u {
      assert [SrcText] + d != [SrcText] + u by {
        assert ([SrcText] + d)[1..] == d && ([SrcText] + u)[1..] == u;
      }
      RelativeSegmentsUnderSrc(d, u);
    }
  }

  /**
   * For a file whose directory lies at `s1/…/sn` below `src` (`sourceDir`
   * being `[s1, …, sn]`, or `[undefined]` where no `/src/` is found), the
   * stripped relative path to `u1/…/uk` is built from the way between them.
   */
  lemma StrippedRelativeFrom(currentFilePath: string, sourceDir: seq<string>, u: seq<string>)
    requires Interpolated(GetSourcePath(Dirname(currentFilePath))) == Join(sourceDir, "/")
    requires sourceDir != [] && u != []
    requires forall k :: 0 <= k < |sourceDir| ==> IsName(sourceDir[k])
    requires forall k :: 0 <= k < |u| ==> IsName(u[k])
    ensures var rs := RelativeSegments(sourceDir, u);
      StrippedRelative(currentFilePath, Join(u, "/")) ==
        if sourceDir == u then "." else JoinPaths(Parse(Join(rs, "/")).dir, Parse(Join(rs, "/")).name)
  {
    RelativeUnderSrc(sourceDir, u);
    if sourceDir == u {
      assert Parse("") == ParsedPath("", "", "", "");
    }
  }

  /**
   * Parsing a relative path whose last segment is `..` or a name that does
   * not start with a dot, and joining its directory and name, drops the
   * extension of the last segment.
   */
  lemma StrippedOfSegments(init: seq<string>, last: string)
    requires IsResolved(init + [last], true)
    requires last == ".." || (IsName(last) && last[0] != '.')
    ensures var p := Parse(Join(init + [last], "/"));
      JoinPaths(p.dir, p.name) == Join(init + [SplitExtension(last, true).0], "/")
  {
    ParseOfJoin(init, last);
    StemResolved(init, last);
    JoinPathsOfResolved(init, SplitExtension(last, true).0);
  }

  /** Dropping the extension of the last segment keeps a resolved list resolved. */
  lemma StemResolved(init: seq<string>, last: string)
    requires IsResolved(init + [last], true)
    requires last == ".." || (IsName(last) && last[0] != '.')
    ensures IsResolved(init + [SplitExtension(last, true).0], true)
  {
    var name := SplitExtension(last, true).0;
    if last == ".." {
      assert name == last;
    } else {
      StemIsName(last);
      InitResolved(init, last);
      AppendName(init, name);
    }
  }

  lemma InitResolved(init: seq<string>, last: string)
    requires IsResolved(init + [last], true)
    ensures IsResolved(init, true)
  {
    var n := init + [last];
    assert forall j :: 0 <= j < |init| ==> init[j] == n[j];
  }

  lemma AppendName(init: seq<string>, name: string)
    requires IsResolved(init, true) && IsName(name)
    ensures IsResolved(init + [name], true)
  {
    var n := init + [name];
    assert forall j :: 0 <= j < |init| ==> n[j] == init[j];
    assert n[|init|] == name;
  }

  /** The first character of a joined list of segments is that of its first segment. */
  lemma JoinStartsWithDot(ps: seq<string>)
    requires ps != [] && ps[0] != ""
    ensures StartsWith(Join(ps, "/"), ".") <==> ps[0][0] == '.'
  {
    JoinFirstChar(ps);
    var s := Join(ps, "/");
    assert StartsWith(s, ".") <==> s[..1] == ".";
    assert s[..1] == [s[0]];
  }

  /** For a file `/p1/…/pm/src/s1/…/sn/file`, the base of the relative path is `/src/s1/…/sn`. */
  lemma RootedSourceDir(pre: seq<string>, d: seq<string>, file: string)
    requires d != []
    requires forall k :: 0 <= k < |pre| ==> IsName(pre[k]) && pre[k] != SrcText
    requires forall k :: 0 <= k < |d| ==> IsName(d[k]) && d[k] != SrcText
    requires IsName(file)
    ensures Interpolated(GetSourcePath(Dirname("/" + Join(pre + [SrcText] + d + [file], "/")))) == Join(d, "/")
  {
    DirOfFile(pre, d, file);
    GetSourcePathOfRooted(pre, d);
  }

  /**
   * `getRelativePath` from the file `/p1/…/pm/src/d1/…/dn/file` to a target
   * `t1/…/tj/last` that is neither the file's directory nor one of its
   * ancestors: with `c` the number of leading directories the two share, the
   * result climbs `n - c` levels, descends `t(c+1)/…/tj`, and ends in `last`
   * without its extension; `./` is put in front exactly when it does not
   * climb. From `…/ui/UserCardHeader/UserCardHeader.ts` to
   * `entities/User/ui/UserCard/UserCard` that is `../UserCard/UserCard`.
   */
  lemma GetRelativePathOfRooted(pre: seq<string>, d: seq<string>, file: string, t: seq<string>, last: string)
    requires d != []
    requires forall k :: 0 <= k < |pre| ==> IsName(pre[k]) && pre[k] != SrcText
    requires forall k :: 0 <= k < |d| ==> IsName(d[k]) && d[k] != SrcText
    requires IsName(file)
    requires forall k :: 0 <= k < |t| ==> IsName(t[k]) && t[k][0] != '.'
    requires IsName(last) && last[0] != '.'
    requires !(|t| < |d| && d[..|t| + 1] == t + [last])
    ensures var c := CommonPrefix(d, t);
      GetRelativePath("/" + Join(pre + [SrcText] + d + [file], "/"), Join(t + [last], "/")) ==
        (if c == |d| then "./" else "") + Join(Dots(|d| - c) + t[c..] + [SplitExtension(last, true).0], "/")
  {
    var current := "/" + Join(pre + [SrcText] + d + [file], "/");
    var u := t + [last];
    var c := CommonPrefix(d, t);
    var init := Dots(|d| - c) + t[c..];
    var segs := init + [SplitExtension(last, true).0];
    assert StrippedRelative(current, Join(u, "/")) == Join(segs, "/") by {
      StrippedToTarget(pre, d, file, t, last);
    }
    assert StartsWith(Join(segs, "/"), ".") <==> c < |d| by {
      StemIsName(last);
      assert segs[0] == (if c < |d| then ".." else if c < |t| then t[c] else SplitExtension(last, true).0);
      JoinStartsWithDot(segs);
    }
  }

  /** The stripped relative path of `GetRelativePathOfRooted`. */
  lemma StrippedToTarget(pre: seq<string>, d: seq<string>, file: string, t: seq<string>, last: string)
    requires d != []
    requires forall k :: 0 <= k < |pre| ==> IsName(pre[k]) && pre[k] != SrcText
    requires forall k :: 0 <= k < |d| ==> IsName(d[k]) && d[k] != SrcText
    requires IsName(file)
    requires forall k :: 0 <= k < |t| ==> IsName(t[k])
    requires IsName(last) && last[0] != '.'
    requires !(|t| < |d| && d[..|t| + 1] == t + [last])
    ensures var c := CommonPrefix(d, t);
      StrippedRelative("/" + Join(pre + [SrcText] + d + [file], "/"), Join(t + [last], "/")) ==
        Join(Dots(|d| - c) + t[c..] + [SplitExtension(last, true).0], "/")
  {
    var u := t + [last];
    NamesAppend(t, last);
    var init := TargetSegments(d, t, last);
    StrippedToSegments(pre, d, file, u, init + [last]);
    StrippedOfSegments(init, last);
  }

  /** From a file below `src` to another directory below it, the stripped path is that of the segments between. */
  lemma StrippedToSegments(pre: seq<string>, d: seq<string>, file: string, u: seq<string>, rs: seq<string>)
    requires d != [] && u != [] && d != u && rs == RelativeSegments(d, u)
    requires forall k :: 0 <= k < |pre| ==> IsName(pre[k]) && pre[k] != SrcText
    requires forall k :: 0 <= k < |d| ==> IsName(d[k]) && d[k] != SrcText
    requires IsName(file)
    requires forall k :: 0 <= k < |u| ==> IsName(u[k])
    ensures IsResolved(rs, true)
    ensures StrippedRelative("/" + Join(pre + [SrcText] + d + [file], "/"), Join(u, "/")) ==
      JoinPaths(Parse(Join(rs, "/")).dir, Parse(Join(rs, "/")).name)
  {
    RelativeSegmentsResolved(d, u);
    RootedSourceDir(pre, d, file);
    StrippedRelativeFrom("/" + Join(pre + [SrcText] + d + [file], "/"), d, u);
  }

  /** `d` is not itself a target that is not one of its ancestors. */
  lemma NotOwnDirectory(d: seq<string>, t: seq<string>, last: string)
    requires !(|t| < |d| && d[..|t| + 1] == t + [last])
    ensures d != t + [last]
  {
    if |d| == |t| + 1 {
      assert d[..|t| + 1] == d;
    }
  }

  /** A target that is not an ancestor of `d`: the way there climbs to the shared part and descends. */
  lemma TargetSegments(d: seq<string>, t: seq<string>, last: string) returns (init: seq<string>)
    requires d != []
    requires !(|t| < |d| && d[..|t| + 1] == t + [last])
    ensures d != t + [last]
    ensures init == Dots(|d| - CommonPrefix(d, t)) + t[CommonPrefix(d, t)..]
    ensures RelativeSegments(d, t + [last]) == init + [last]
  {
    var u := t + [last];
    var c := CommonPrefix(d, t);
    NotOwnDirectory(d, t, last);
    SharedPastTarget(d, t, last);
    assert u[c..] == t[c..] + [last];
    init := Dots(|d| - c) + t[c..];
  }

  /** A target off the file's directory path shares with it what its directory part shares. */
  lemma SharedPastTarget(d: seq<string>, t: seq<string>, last: string)
    requires !(|t| < |d| && d[..|t| + 1] == t + [last])
    ensures CommonPrefix(d, t + [last]) == CommonPrefix(d, t)
  {
    var u := t + [last];
    var c := CommonPrefix(d, t);
    assert u[..c] == t[..c];
    if c < |d| && c == |t| {
      PrefixOneMore(d, t);
    } else if c < |t| {
      assert u[c] == t[c];
    }
    CommonPrefixIs(d, u, c);
  }

  /** A proper prefix `t` of `d` grows by the element of `d` that follows it. */
  lemma PrefixOneMore(d: seq<string>, t: seq<string>)
    requires |t| < |d| && d[..|t|] == t
    ensures d[..|t| + 1] == t + [d[|t|]]
  {
  }

  /**
   * `getRelativePath` from the file `/p1/…/pm/src/d1/…/dn/file` to its own
   * directory (`.`) or to the ancestor `d1/…/di` (`..` repeated `n - i` times).
   */
  lemma GetRelativePathOfAncestor(pre: seq<string>, d: seq<string>, file: string, i: nat)
    requires 1 <= i <= |d|
    requires forall k :: 0 <= k < |pre| ==> IsName(pre[k]) && pre[k] != SrcText
    requires forall k :: 0 <= k < |d| ==> IsName(d[k]) && d[k] != SrcText
    requires IsName(file)
    ensures GetRelativePath("/" + Join(pre + [SrcText] + d + [file], "/"), Join(d[..i], "/")) ==
      if i == |d| then "." else Join(Dots(|d| - i), "/")
  {
    var current := "/" + Join(pre + [SrcText] + d + [file], "/");
    var u := d[..i];
    assert forall k :: 0 <= k < |u| ==> IsName(u[k]) by {
      assert forall k :: 0 <= k < |u| ==> u[k] == d[k];
    }
    assert StrippedRelative(current, Join(u, "/")) ==
      if i == |d| then "." else Join(Dots(|d| - i), "/") by {
      RootedSourceDir(pre, d, file);
      StrippedRelativeFrom(current, d, u);
      if i < |d| {
        ClimbSegments(d, i);
      }
    }
    assert StartsWith(".", ".");
    if i < |d| {
      JoinStartsWithDot(Dots(|d| - i));
    }
  }

  /** Stripping the way from `d1/…/dn` up to `d1/…/di` leaves it `..` repeated `n - i` times. */
  lemma ClimbSegments(d: seq<string>, i: nat)
    requires i < |d|
    requires forall k :: 0 <= k < |d| ==> IsName(d[k])
    ensures var rs := RelativeSegments(d, d[..i]);
      JoinPaths(Parse(Join(rs, "/")).dir, Parse(Join(rs, "/")).name) == Join(Dots(|d| - i), "/")
  {
    var u := d[..i];
    var m := |d| - i;
    CommonPrefixIs(d, u, i);
    assert RelativeSegments(d, u) == Dots(m - 1) + [".."];
    assert IsResolved(Dots(m - 1) + [".."], true) by {
      assert forall k :: 0 <= k < |u| ==> u[k] == d[k];
      RelativeSegmentsResolved(d, u);
    }
    StrippedOfSegments(Dots(m - 1), "..");
    assert SplitExtension("..", true).0 == "..";
    assert Dots(m - 1) + [".."] == Dots(m);
  }

  // ---------------------------------------------------------------------------
  // Files whose directory has no `/src/`

  /**
   * For a file whose directory has no `/src/` (a file directly in `src`, such
   * as `/p/src/index.ts`, or one outside any source tree) the base is
   * `/src/undefined`, so every target `t1/…/tj/last` is reached through `..`:
   * the result is `../t1/…/tj/` followed by `last` without its extension.
   */
  lemma GetRelativePathOutsideSource(currentFilePath: string, t: seq<string>, last: string)
    requires GetSourcePath(Dirname(currentFilePath)).None?
    requires forall k :: 0 <= k < |t| ==> IsName(t[k])
    requires IsName(last) && last[0] != '.'
    requires (t + [last])[0] != "undefined"
    ensures GetRelativePath(currentFilePath, Join(t + [last], "/")) ==
      Join([".."] + t + [SplitExtension(last, true).0], "/")
  {
    var u := t + [last];
    var stem := SplitExtension(last, true).0;
    NamesAppend(t, last);
    var init := ClimbOutOfUndefined(t, last);
    assert StrippedRelative(currentFilePath, Join(u, "/")) == Join(init + [stem], "/") by {
      StrippedFromUndefined(currentFilePath, u, init + [last]);
      StrippedOfSegments(init, last);
    }
    JoinStartsWithDot(init + [stem]);
  }

  /** With the base `/src/undefined`, the stripped path is that of the segments from `undefined` to the target. */
  lemma StrippedFromUndefined(currentFilePath: string, u: seq<string>, rs: seq<string>)
    requires GetSourcePath(Dirname(currentFilePath)).None?
    requires u != [] && u[0] != "undefined" && rs == RelativeSegments(["undefined"], u)
    requires forall k :: 0 <= k < |u| ==> IsName(u[k])
    ensures IsResolved(rs, true)
    ensures StrippedRelative(currentFilePath, Join(u, "/")) ==
      JoinPaths(Parse(Join(rs, "/")).dir, Parse(Join(rs, "/")).name)
  {
    assert Join(["undefined"], "/") == "undefined";
    assert ["undefined"] != u;
    RelativeSegmentsResolved(["undefined"], u);
    StrippedRelativeFrom(currentFilePath, ["undefined"], u);
  }

  /** From the directory `undefined`, every other path starts with `..`. */
  lemma ClimbOutOfUndefined(t: seq<string>, last: string) returns (init: seq<string>)
    requires (t + [last])[0] != "undefined"
    ensures init == [".."] + t
    ensures RelativeSegments(["undefined"], t + [last]) == init + [last]
  {
    var u := t + [last];
    CommonPrefixIs(["undefined"], u, 0);
    assert Dots(1) == [".."];
    init := [".."] + t;
  }
}
