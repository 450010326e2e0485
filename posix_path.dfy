/**
 * The POSIX flavour of Node's `path` module, as far as the rules use it:
 * `normalize`, `resolve` (of an absolute path), `relative`, `dirname`,
 * `parse` and a two-argument `join`. Paths are strings; the work is done on
 * their segments, the pieces between `/` separators.
 */
module PosixPath {
  import opened Wrappers
  import opened Strings

  /** A segment that normalisation keeps as it is. */
  predicate IsName(x: string)
  {
    x != "" && x != "." && x != ".." && '/' !in x
  }

  /**
   * The segment lists normalisation produces: names, preceded by a run of
   * `..` only when the path is relative (and may climb above its start).
   */
  ghost predicate IsResolved(segs: seq<string>, allowAboveRoot: bool)
  {
    && (forall k :: 0 <= k < |segs| ==> IsName(segs[k]) || (allowAboveRoot && segs[k] == ".."))
    && (forall j, k :: 0 <= j < k < |segs| && segs[k] == ".." ==> segs[j] == "..")
  }

  /** One step of Node's `normalizeString`: folds segment `x` into the stack `acc`. */
  function Step(acc: seq<string>, x: string, allowAboveRoot: bool): seq<string>
  {
    if x == "" || x == "." then acc
    else if x == ".." then
      if |acc| > 0 && acc[|acc| - 1] != ".." then acc[..|acc| - 1]
      else if allowAboveRoot then acc + [".."]
      else acc
    else acc + [x]
  }

  /** Folds `segs`, left to right, into the stack `acc`. */
  function Fold(acc: seq<string>, segs: seq<string>, allowAboveRoot: bool): seq<string>
    decreases |segs|
  {
    if segs == [] then acc
    else Fold(Step(acc, segs[0], allowAboveRoot), segs[1..], allowAboveRoot)
  }

  /**
   * The text `normalize` builds from a resolved segment list, the path being
   * absolute or not and ending in a separator or not.
   */
  function Render(absolute: bool, segs: seq<string>, trailing: bool): string
  {
    if segs == [] then (if absolute then "/" else if trailing then "./" else ".")
    else (if absolute then "/" else "") + Join(segs, "/") + (if trailing then "/" else "")
  }

  /** `path.posix.normalize(p)` */
  function Normalize(p: string): (r: string)
    // never empty: an empty path normalises to `.`
    ensures r != ""
    // absolute exactly when the argument is
    ensures p != "" ==> (r[0] == '/' <==> p[0] == '/')
  {
    if p == "" then "."
    else
      var absolute := p[0] == '/';
      var n := Fold([], Split(p, "/"), !absolute);
      SplitSlashPieces(p);
      FoldResolved([], Split(p, "/"), !absolute);
      if n != [] then RenderShape(absolute, n, p[|p| - 1] == '/'); Render(absolute, n, p[|p| - 1] == '/')
      else Render(absolute, n, p[|p| - 1] == '/')
  }

  /** The segments of `path.posix.resolve(p)` for an absolute `p`. */
  function ResolvedSegments(p: string): seq<string>
  {
    Fold([], Split(p, "/"), false)
  }

  /** `path.posix.resolve(p)` for an absolute `p` (a relative one would be resolved against the working directory). */
  function Resolve(p: string): string
    requires StartsWith(p, "/")
  {
    "/" + Join(ResolvedSegments(p), "/")
  }

  /** The length of the longest common prefix of `f` and `t`. */
  function CommonPrefix(f: seq<string>, t: seq<string>): (k: nat)
    ensures k <= |f| && k <= |t|
    ensures f[..k] == t[..k]
    ensures k < |f| && k < |t| ==> f[k] != t[k]
  {
    if f == [] || t == [] || f[0] != t[0] then 0
    else 1 + CommonPrefix(f[1..], t[1..])
  }

  function Dots(m: nat): seq<string>
  {
    seq(m, _ => "..")
  }

  /** The segments of the way from directory `f` to `t`: up to their common prefix, then down. */
  function RelativeSegments(f: seq<string>, t: seq<string>): seq<string>
  {
    var k := CommonPrefix(f, t);
    Dots(|f| - k) + t[k..]
  }

  /** `path.posix.relative(from, to)` for absolute `from` and `to`. */
  function Relative(from: string, to: string): (r: string)
    requires StartsWith(from, "/") && StartsWith(to, "/")
    // a path is reached from itself by the empty path
    ensures from == to ==> r == ""
    // the result is relative: it never starts with a separator
    ensures r == "" || r[0] != '/'
  {
    ResolvedSegmentsResolved(to);
    RelativeSegmentsResolved(ResolvedSegments(from), ResolvedSegments(to));
    JoinFirstNonSlash(RelativeSegments(ResolvedSegments(from), ResolvedSegments(to)));
    if from == to then ""
    else Join(RelativeSegments(ResolvedSegments(from), ResolvedSegments(to)), "/")
  }

  /** The largest `j` with `lo <= j < hi` and `(p[j] == c) == equal`, or -1 when there is none. */
  function LastIndexWhere(p: string, lo: nat, hi: nat, c: char, equal: bool): (j: int)
    requires hi <= |p|
    ensures j == -1 || (lo <= j < hi && (p[j] == c) == equal)
    ensures forall k :: lo <= k < hi && j < k ==> (p[k] == c) != equal
    decreases hi
  {
    if hi <= lo then -1
    else if (p[hi - 1] == c) == equal then hi - 1
    else LastIndexWhere(p, lo, hi - 1, c, equal)
  }

  /** `path.posix.dirname(p)` */
  function Dirname(p: string): (r: string)
    // never empty: `.`, the root `/` or `//`, or a proper prefix of the path
    ensures r == "." || r == "/" || r == "//" || (|r| < |p| && StartsWith(p, r))
    // the directory of an absolute path is absolute
    ensures p != "" && p[0] == '/' ==> r != "" && r[0] == '/'
  {
    if p == "" then "."
    else
      var hasRoot := p[0] == '/';
      // the last character after the first that is not a separator
      var last := LastIndexWhere(p, 1, |p|, '/', false);
      // the separator before it, which ends the directory part
      var end := if last == -1 then -1 else LastIndexWhere(p, 1, last, '/', true);
      if end == -1 then (if hasRoot then "/" else ".")
      else if hasRoot && end == 1 then "//"
      else p[..end]
  }

  datatype ParsedPath = ParsedPath(dir: string, base: string, name: string, ext: string)

  /**
   * How `path.parse` divides a base name into name and extension: at its last
   * dot, unless that dot is the first character or the base is `..`
   * (`dotDotIsName` is false only for a base right under the root, where
   * Node's test for `..` does not fire).
   */
  function SplitExtension(base: string, dotDotIsName: bool): (r: (string, string))
    ensures r.0 + r.1 == base
    ensures r.1 == "" || (r.1[0] == '.' && '.' !in r.1[1..] && r.0 != "")
    ensures r.1 == "" ==> r.0 == base
  {
    var dot := LastIndexWhere(base, 0, |base|, '.', true);
    if dot <= 0 then (base, "")
    else if dotDotIsName && base == ".." then (base, "")
    else (base[..dot], base[dot..])
  }

  /** `path.posix.parse(p)`, without `root`. */
  function Parse(p: string): (r: ParsedPath)
    // the directory part is a prefix of the path
    ensures StartsWith(p, r.dir)
    // the base name holds no separator, and name and extension rebuild it
    ensures '/' !in r.base && r.name + r.ext == r.base
  {
    if p == "" then ParsedPath("", "", "", "")
    else
      var absolute := p[0] == '/';
      var start := if absolute then 1 else 0;
      // the last character that is not a trailing separator
      var last := LastIndexWhere(p, start, |p|, '/', false);
      // the separator before it
      var slash := if last == -1 then -1 else LastIndexWhere(p, start, last, '/', true);
      var dir := if slash >= 0 then p[..slash] else if absolute then "/" else "";
      assert StartsWith(p, dir) by {
        if slash >= 0 {
          assert p[..|dir|] == dir;
        } else if absolute {
          assert p[..1] == [p[0]];
        }
      }
      if last == -1 then ParsedPath(dir, "", "", "")
      else
        var baseStart := if slash == -1 && absolute then 1 else slash + 1;
        var base := p[baseStart..last + 1];
        var parts := SplitExtension(base, baseStart == slash + 1);
        BaseFree(p, start, last, slash, baseStart);
        ParsedPath(dir, base, parts.0, parts.1)
  }

  /** The base name runs from after the separator before `last` up to `last`, and holds no separator. */
  lemma BaseFree(p: string, start: nat, last: nat, slash: int, baseStart: nat)
    requires start <= last < |p| && p[last] != '/'
    requires slash == LastIndexWhere(p, start, last, '/', true)
    requires start <= baseStart && baseStart >= slash + 1 && baseStart <= last + 1
    ensures '/' !in p[baseStart..last + 1]
  {
    SliceFree(p, baseStart, last + 1);
  }

  /** A slice none of whose characters is a separator holds none. */
  lemma SliceFree(p: string, lo: nat, hi: nat)
    requires lo <= hi <= |p|
    requires forall k :: lo <= k < hi ==> p[k] != '/'
    ensures '/' !in p[lo..hi]
  {
    forall j | 0 <= j < hi - lo ensures p[lo..hi][j] != '/' {
      assert p[lo..hi][j] == p[lo + j];
    }
  }

  /** `path.posix.join(a, b)` */
  function JoinPaths(a: string, b: string): (r: string)
    // never empty: joining nothing gives `.`
    ensures r != ""
    // with an empty side, the other side normalised
    ensures a == "" && b != "" ==> r == Normalize(b)
    ensures b == "" && a != "" ==> r == Normalize(a)
  {
    var joined := if a == "" then b else if b == "" then a else a + "/" + b;
    if joined == "" then "." else Normalize(joined)
  }

  // ---------------------------------------------------------------------------
  // Normalisation

  /** The pieces of a split on the separator hold no separator. */
  lemma SplitSlashPieces(s: string)
    ensures forall k :: 0 <= k < |Split(s, "/")| ==> '/' !in Split(s, "/")[k]
  {
    SplitPiecesFree(s, "/");
    forall k | 0 <= k < |Split(s, "/")| ensures '/' !in Split(s, "/")[k] {
      var x := Split(s, "/")[k];
      if '/' in x {
        var j :| 0 <= j < |x| && x[j] == '/';
        OccursAtChar(x, '/', j);
      }
    }
  }

  lemma StepResolved(acc: seq<string>, x: string, allowAboveRoot: bool)
    requires IsResolved(acc, allowAboveRoot) && '/' !in x
    ensures IsResolved(Step(acc, x, allowAboveRoot), allowAboveRoot)
  {
  }

  /** Folding separator-free segments keeps a stack resolved. */
  lemma {:induction false} FoldResolved(acc: seq<string>, segs: seq<string>, allowAboveRoot: bool)
    requires IsResolved(acc, allowAboveRoot)
    requires forall k :: 0 <= k < |segs| ==> '/' !in segs[k]
    ensures IsResolved(Fold(acc, segs, allowAboveRoot), allowAboveRoot)
    decreases |segs|
  {
    if segs != [] {
      StepResolved(acc, segs[0], allowAboveRoot);
      FoldResolved(Step(acc, segs[0], allowAboveRoot), segs[1..], allowAboveRoot);
    }
  }

  lemma {:induction false} FoldConcat(acc: seq<string>, s1: seq<string>, s2: seq<string>, allowAboveRoot: bool)
    ensures Fold(acc, s1 + s2, allowAboveRoot) == Fold(Fold(acc, s1, allowAboveRoot), s2, allowAboveRoot)
    decreases |s1|
  {
    if s1 == [] {
      assert s1 + s2 == s2;
    } else {
      assert (s1 + s2)[1..] == s1[1..] + s2;
      FoldConcat(Step(acc, s1[0], allowAboveRoot), s1[1..], s2, allowAboveRoot);
    }
  }

  /** Folding an already resolved list onto a stack it extends appends it unchanged. */
  lemma {:induction false} FoldResolvedAppends(acc: seq<string>, n: seq<string>, allowAboveRoot: bool)
    requires IsResolved(acc + n, allowAboveRoot)
    ensures Fold(acc, n, allowAboveRoot) == acc + n
    decreases |n|
  {
    if n != [] {
      assert (acc + n)[|acc|] == n[0];
      if n[0] == ".." && |acc| > 0 {
        assert (acc + n)[|acc| - 1] == "..";
      }
      assert Step(acc, n[0], allowAboveRoot) == acc + [n[0]];
      assert acc + [n[0]] + n[1..] == acc + n;
      FoldResolvedAppends(acc + [n[0]], n[1..], allowAboveRoot);
    }
  }

  /** Each `..` folded onto a stack of names removes the last name. */
  lemma {:induction false} FoldDotsPops(f: seq<string>, m: nat, allowAboveRoot: bool)
    requires m <= |f|
    requires forall k :: 0 <= k < |f| ==> IsName(f[k])
    ensures Fold(f, Dots(m), allowAboveRoot) == f[..|f| - m]
    decreases m
  {
    if m > 0 {
      assert Dots(m)[0] == ".." && Dots(m)[1..] == Dots(m - 1);
      assert Step(f, "..", allowAboveRoot) == f[..|f| - 1];
      FoldDotsPops(f[..|f| - 1], m - 1, allowAboveRoot);
      assert f[..|f| - 1][..|f| - 1 - (m - 1)] == f[..|f| - m];
    }
  }

  /** The segments `Render` writes out between separators. */
  function Wrap(absolute: bool, segs: seq<string>, trailing: bool): seq<string>
  {
    (if absolute then [""] else []) + segs + (if trailing then [""] else [])
  }

  lemma RenderIsJoin(absolute: bool, n: seq<string>, trailing: bool)
    requires n != []
    ensures Render(absolute, n, trailing) == Join(Wrap(absolute, n, trailing), "/")
  {
    var body := Join(n, "/");
    var tail := if trailing then "/" else "";
    var mid := n + (if trailing then [""] else []);
    JoinTrailing(n, trailing);
    if absolute {
      assert Wrap(absolute, n, trailing) == [""] + mid;
      JoinCons("", mid, "/");
      ConcatAssoc("/", body, tail);
      assert "" + "/" == "/";
    } else {
      assert Wrap(absolute, n, trailing) == mid;
      assert "" + body == body;
    }
  }

  /** A trailing empty segment writes out as a trailing separator. */
  lemma JoinTrailing(n: seq<string>, trailing: bool)
    requires n != []
    ensures Join(n + (if trailing then [""] else []), "/") == Join(n, "/") + (if trailing then "/" else "")
  {
    if trailing {
      JoinAppend(n, "/", "");
      ConcatNil(Join(n, "/") + "/");
    } else {
      ConcatNil(n);
      ConcatNil(Join(n, "/"));
    }
  }

  /** Normalisation leaves the text it builds from a resolved segment list unchanged. */
  lemma NormalizeRender(absolute: bool, n: seq<string>, trailing: bool)
    requires IsResolved(n, !absolute)
    ensures Normalize(Render(absolute, n, trailing)) == Render(absolute, n, trailing)
  {
    if n == [] {
      NormalizeRenderEmpty(absolute, trailing);
    } else {
      RenderShape(absolute, n, trailing);
      WrapFolds(absolute, n, trailing);
    }
  }

  /** The texts `/`, `./` and `.` are their own normal forms. */
  lemma NormalizeRenderEmpty(absolute: bool, trailing: bool)
    ensures Normalize(Render(absolute, [], trailing)) == Render(absolute, [], trailing)
  {
    var q := Render(absolute, [], trailing);
    if absolute {
      assert Join(["", ""], "/") == q;
      SplitJoinChar(["", ""], '/');
    } else if trailing {
      assert Join([".", ""], "/") == q;
      SplitJoinChar([".", ""], '/');
    } else {
      assert Join(["."], "/") == q;
      SplitJoinChar(["."], '/');
    }
  }

  /** The text built from a non-empty resolved list: where its separators are and what it splits into. */
  lemma RenderShape(absolute: bool, n: seq<string>, trailing: bool)
    requires n != [] && IsResolved(n, !absolute)
    ensures var q := Render(absolute, n, trailing);
      && q != ""
      && (q[0] == '/' <==> absolute)
      && (q[|q| - 1] == '/' <==> trailing)
      && Split(q, "/") == Wrap(absolute, n, trailing)
  {
    ResolvedPieces(n, !absolute);
    RenderEnds(absolute, n, trailing);
    assert Split(Render(absolute, n, trailing), "/") == Wrap(absolute, n, trailing) by {
      RenderIsJoin(absolute, n, trailing);
      WrapFree(absolute, n, trailing);
      assert "/" == ['/'];
      SplitJoinChar(Wrap(absolute, n, trailing), '/');
    }
  }

  /** The segments of a resolved list are non-empty and hold no separator. */
  lemma ResolvedPieces(n: seq<string>, allowAboveRoot: bool)
    requires IsResolved(n, allowAboveRoot)
    ensures forall k :: 0 <= k < |n| ==> n[k] != "" && '/' !in n[k]
  {
  }

  /** No written-out segment holds the separator. */
  lemma WrapFree(absolute: bool, n: seq<string>, trailing: bool)
    requires forall k :: 0 <= k < |n| ==> '/' !in n[k]
    ensures var w := Wrap(absolute, n, trailing);
      forall k :: 0 <= k < |w| ==> '/' !in w[k]
  {
    var w := Wrap(absolute, n, trailing);
    forall k | 0 <= k < |w| ensures '/' !in w[k] {
      if absolute && k == 0 {
      } else if trailing && k == |w| - 1 {
      } else {
        assert w[k] == n[k - (if absolute then 1 else 0)];
      }
    }
  }

  /** A rendered list starts with `/` exactly when absolute and ends with one exactly when trailing. */
  lemma RenderEnds(absolute: bool, n: seq<string>, trailing: bool)
    requires n != []
    requires forall k :: 0 <= k < |n| ==> n[k] != "" && '/' !in n[k]
    ensures var q := Render(absolute, n, trailing);
      && q != ""
      && (q[0] == '/' <==> absolute)
      && (q[|q| - 1] == '/' <==> trailing)
  {
    var body := Join(n, "/");
    var first, last := n[0], n[|n| - 1];
    assert '/' !in first && '/' !in last;
    assert first[0] in first && last[|last| - 1] in last;
    JoinHead(n, "/");
    JoinTail(n, "/");
    assert body[0] != '/' && body[|body| - 1] != '/';
    var head, tail := (if absolute then "/" else ""), (if trailing then "/" else "");
    var q := Render(absolute, n, trailing);
    assert q == head + body + tail;
    assert q[0] == (if absolute then '/' else body[0]);
    assert q[|q| - 1] == (if trailing then '/' else body[|body| - 1]);
  }

  /** Folding the written-out segments of a resolved list gives the list back. */
  lemma WrapFolds(absolute: bool, n: seq<string>, trailing: bool)
    requires IsResolved(n, !absolute)
    ensures Fold([], Wrap(absolute, n, trailing), !absolute) == n
  {
    FoldConcat([], (if absolute then [""] else []) + n, (if trailing then [""] else []), !absolute);
    FoldConcat([], (if absolute then [""] else []), n, !absolute);
    assert [] + n == n;
    FoldResolvedAppends([], n, !absolute);
  }

  /** Normalising twice is normalising once: `.`, `..` and repeated separators are all resolved. */
  lemma NormalizeIdempotent(p: string)
    ensures Normalize(Normalize(p)) == Normalize(p)
  {
    if p == "" {
      NormalizeRender(false, [], false);
    } else {
      var absolute := p[0] == '/';
      SplitSlashPieces(p);
      FoldResolved([], Split(p, "/"), !absolute);
      NormalizeRender(absolute, Fold([], Split(p, "/"), !absolute), p[|p| - 1] == '/');
    }
  }

  /** An absolute path of names is its own normal form. */
  lemma NormalizeAbsoluteNames(names: seq<string>)
    requires names != []
    requires forall k :: 0 <= k < |names| ==> IsName(names[k])
    ensures Normalize("/" + Join(names, "/")) == "/" + Join(names, "/")
  {
    var body := "/" + Join(names, "/");
    assert Render(true, names, false) == body + "";
    ConcatNil(body);
    NormalizeRender(true, names, false);
  }

  lemma SplitAbsoluteNames(names: seq<string>)
    requires names != []
    requires forall k :: 0 <= k < |names| ==> IsName(names[k])
    ensures Split("/" + Join(names, "/"), "/") == [""] + names
  {
    assert "/" == ['/'];
    SplitRooted(names, '/');
  }

  lemma FoldAbsoluteNames(names: seq<string>)
    requires forall k :: 0 <= k < |names| ==> IsName(names[k])
    ensures Fold([], [""] + names, false) == names
  {
    FoldConcat([], [""], names, false);
    FoldResolvedAppends([], names, false);
    assert [] + names == names;
  }

  /** An absolute path of names resolves to its names. */
  lemma ResolvedSegmentsOfNames(names: seq<string>)
    requires names != []
    requires forall k :: 0 <= k < |names| ==> IsName(names[k])
    ensures ResolvedSegments("/" + Join(names, "/")) == names
  {
    SplitAbsoluteNames(names);
    FoldAbsoluteNames(names);
  }


  // ---------------------------------------------------------------------------
  // relative and resolve

  /** Resolving the way from `f` to `t`, starting at `f`, arrives at `t`. */
  lemma ResolveRelativeSegments(f: seq<string>, t: seq<string>)
    requires IsResolved(f, false) && IsResolved(t, false)
    ensures Fold(f, RelativeSegments(f, t), false) == t
  {
    var k := CommonPrefix(f, t);
    ResolvedNames(f);
    ClimbToCommon(f, k);
    DescendFromCommon(f[..k], t, k);
    FoldConcat(f, Dots(|f| - k), t[k..], false);
  }

  /** Climbing from `f` by `|f| - k` levels leaves its first `k` names. */
  lemma ClimbToCommon(f: seq<string>, k: nat)
    requires k <= |f|
    requires forall j :: 0 <= j < |f| ==> IsName(f[j])
    ensures Fold(f, Dots(|f| - k), false) == f[..k]
  {
    var m := |f| - k;
    FoldDotsPops(f, m, false);
    assert |f| - m == k;
  }

  /** Descending from a prefix of `t` along the rest of `t` arrives at `t`. */
  lemma DescendFromCommon(c: seq<string>, t: seq<string>, k: nat)
    requires k <= |t| && c == t[..k]
    requires IsResolved(t, false)
    ensures Fold(c, t[k..], false) == t
  {
    assert c + t[k..] == t;
    FoldResolvedAppends(c, t[k..], false);
  }

  /** A resolved list of an absolute path holds only names. */
  lemma ResolvedNames(f: seq<string>)
    requires IsResolved(f, false)
    ensures forall k :: 0 <= k < |f| ==> IsName(f[k])
  {
  }

  lemma ResolvedSegmentsResolved(p: string)
    ensures IsResolved(ResolvedSegments(p), false)
  {
    SplitSlashPieces(p);
    FoldResolved([], Split(p, "/"), false);
  }

  /**
   * `path.resolve(from, path.relative(from, to))` is `path.resolve(to)`: the
   * relative path leads from `from` to `to`.
   */
  lemma ResolveAfterRelative(from: string, to: string)
    requires StartsWith(from, "/") && StartsWith(to, "/")
    ensures StartsWith(from + "/" + Relative(from, to), "/")
    ensures Resolve(from + "/" + Relative(from, to)) == Resolve(to)
  {
    var rel := Relative(from, to);
    var f := ResolvedSegments(from);
    var t := ResolvedSegments(to);
    ResolvedSegmentsResolved(from);
    ResolvedSegmentsResolved(to);
    SplitConcatChar(from, '/', rel);
    FoldConcat([], Split(from, "/"), Split(rel, "/"), false);
    var rs := RelativeSegments(f, t);
    ResolveRelativeSegments(f, t);
    if rel == "" || rs == [] {
      assert Split(rel, "/") == [""] by {
        if rs == [] { assert rel == ""; }
      }
      if from != to {
        assert Fold(f, rs, false) == f;
      }
    } else {
      SplitJoinChar(rs, '/');
    }
  }

  /** Any length that agrees on both lists and stops at a difference or at an end is the common prefix. */
  lemma CommonPrefixIs(f: seq<string>, t: seq<string>, k: nat)
    requires k <= |f| && k <= |t| && f[..k] == t[..k]
    requires k < |f| && k < |t| ==> f[k] != t[k]
    ensures CommonPrefix(f, t) == k
  {
  }

  /**
   * The way between two lists of names is a run of `..` followed by names:
   * what `normalize` produces for a relative path.
   */
  lemma RelativeSegmentsResolved(f: seq<string>, t: seq<string>)
    requires forall j :: 0 <= j < |t| ==> IsName(t[j])
    ensures IsResolved(RelativeSegments(f, t), true)
  {
    var k := CommonPrefix(f, t);
    var m := |f| - k;
    var rs := RelativeSegments(f, t);
    assert forall j :: 0 <= j < m ==> rs[j] == "..";
    assert forall j :: m <= j < |rs| ==> rs[j] == t[k + j - m];
  }

  // ---------------------------------------------------------------------------
  // dirname, parse and join

  /** A joined path whose last segment is non-empty ends with that segment after a separator. */
  lemma JoinLast(init: seq<string>, last: string)
    requires init != []
    ensures Join(init + [last], "/") == Join(init, "/") + "/" + last
  {
    JoinAppend(init, "/", last);
  }

  /** In `dir + "/" + last`, the last separator before the last character is the one after `dir`. */
  lemma LastSeparator(dir: string, last: string, lo: nat)
    requires last != "" && '/' !in last && lo <= |dir|
    ensures var p := dir + "/" + last;
      && LastIndexWhere(p, lo, |p|, '/', false) == |p| - 1
      && LastIndexWhere(p, lo, |p| - 1, '/', true) == |dir|
  {
    var p := dir + "/" + last;
    assert p[|p| - 1] == last[|last| - 1];
    assert p[|dir|] == '/';
    forall k | |dir| < k < |p| ensures p[k] != '/' {
      assert p[k] == last[k - |dir| - 1];
    }
  }

  /** `dirname(dir + "/" + last)` is `dir`, for a last segment and a directory that is more than the root. */
  lemma DirnameAt(dir: string, last: string)
    requires |dir| >= 1 && (dir[0] == '/' ==> |dir| >= 2)
    requires last != "" && '/' !in last
    ensures Dirname(dir + "/" + last) == dir
  {
    var p := dir + "/" + last;
    LastSeparator(dir, last, 1);
    assert p[0] == dir[0];
    assert p[..|dir|] == dir;
  }

  /** A resolved relative path, written out, does not start with a separator. */
  lemma JoinFirstNonSlash(rs: seq<string>)
    requires IsResolved(rs, true)
    ensures Join(rs, "/") == "" || Join(rs, "/")[0] != '/'
  {
    if rs != [] {
      JoinFirstChar(rs);
      assert rs[0][0] in rs[0];
    }
  }

  lemma JoinFirstChar(ps: seq<string>)
    requires ps != [] && ps[0] != ""
    ensures |Join(ps, "/")| >= 1 && Join(ps, "/")[0] == ps[0][0]
  {
    if |ps| > 1 {
      JoinConcat([ps[0]], ps[1..], "/");
      assert [ps[0]] + ps[1..] == ps;
    }
  }

  /** The directory part of a path that starts with a name, or with the root and a name, is more than the root. */
  lemma DirPrefix(init: seq<string>)
    requires init != []
    requires forall k :: 0 <= k < |init| ==> '/' !in init[k]
    requires init[0] != "" || (|init| >= 2 && init[1] != "")
    ensures var dir := Join(init, "/");
      |dir| >= 1 && (dir[0] == '/' ==> |dir| >= 2)
  {
    var dir := Join(init, "/");
    if init[0] != "" {
      JoinFirstChar(init);
    } else {
      JoinConcat([init[0]], init[1..], "/");
      assert [init[0]] + init[1..] == init;
      JoinFirstChar(init[1..]);
      assert dir == "/" + Join(init[1..], "/");
    }
  }

  /**
   * `dirname` of a path that ends in a non-empty segment is the path up to
   * the separator before that segment (the root cases `/` and `//` aside).
   */
  lemma DirnameOfJoin(init: seq<string>, last: string)
    requires init != [] && last != "" && '/' !in last
    requires forall k :: 0 <= k < |init| ==> '/' !in init[k]
    requires init[0] != "" || (|init| >= 2 && init[1] != "")
    ensures Dirname(Join(init + [last], "/")) == Join(init, "/")
  {
    JoinLast(init, last);
    DirPrefix(init);
    DirnameAt(Join(init, "/"), last);
  }

  /** `parse(dir + "/" + last)` for a relative `dir`: `dir` is the directory and `last` the base. */
  lemma ParseAt(dir: string, last: string)
    requires last != "" && '/' !in last
    requires |dir| >= 1 && dir[0] != '/'
    ensures Parse(dir + "/" + last).dir == dir
    ensures Parse(dir + "/" + last).base == last
    ensures Parse(dir + "/" + last).name == SplitExtension(last, true).0
    ensures Parse(dir + "/" + last).ext == SplitExtension(last, true).1
  {
    var p := dir + "/" + last;
    LastSeparator(dir, last, 0);
    assert p[0] == dir[0];
    assert p[..|dir|] == dir;
    assert p[|dir| + 1..|p|] == last;
  }

  /** `parse` of a single segment: no directory, the segment is the base. */
  lemma ParseSegment(last: string)
    requires last != "" && '/' !in last
    ensures Parse(last).dir == ""
    ensures Parse(last).base == last
    ensures Parse(last).name == SplitExtension(last, true).0
    ensures Parse(last).ext == SplitExtension(last, true).1
  {
    assert forall k :: 0 <= k < |last| ==> last[k] != '/' by {
      forall k | 0 <= k < |last| ensures last[k] != '/' {
        assert last[k] in last;
      }
    }
    assert last[0..|last|] == last;
  }

  /** `parse` of a relative resolved path: the directory part, and the last segment as base. */
  lemma ParseOfJoin(init: seq<string>, last: string)
    requires IsResolved(init + [last], true)
    ensures Parse(Join(init + [last], "/")).dir == Join(init, "/")
    ensures Parse(Join(init + [last], "/")).base == last
    ensures Parse(Join(init + [last], "/")).name == SplitExtension(last, true).0
    ensures Parse(Join(init + [last], "/")).ext == SplitExtension(last, true).1
  {
    assert (init + [last])[|init|] == last;
    if init == [] {
      assert init + [last] == [last];
      ParseSegment(last);
    } else {
      assert (init + [last])[0] == init[0];
      JoinFirstChar(init);
      JoinLast(init, last);
      ParseAt(Join(init, "/"), last);
    }
  }

  /** `join` of a resolved relative directory and one more resolved segment separates them with `/`. */
  lemma JoinPathsOfResolved(init: seq<string>, name: string)
    requires IsResolved(init + [name], true)
    ensures JoinPaths(Join(init, "/"), name) == Join(init + [name], "/")
  {
    var n := init + [name];
    assert n[|init|] == name;
    NormalizeRender(false, n, false);
    if init == [] {
      assert n == [name];
      assert Render(false, n, false) == name;
    } else {
      assert n[0] == init[0];
      JoinFirstChar(init);
      JoinAppend(init, "/", name);
      var j := Join(n, "/");
      assert Render(false, n, false) == "" + j + "";
      assert "" + j + "" == j;
      assert name != "";
      assert Join(init, "/") + "/" + name == j;
    }
  }
}
