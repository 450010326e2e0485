/**
 * `getSourcePathArray(importPath)`: the segments of a file path below its
 * `src` directory, `…/src/entities/User/ui/UserCard.tsx` giving
 * `[entities, User, ui, UserCard.tsx]`. As written, the normalised path is cut
 * at the first occurrence of the TEXT `src` (inside any segment name), the
 * text up to the next `src` is split on the platform separator, and the
 * first piece (the empty text before the leading separator) is dropped. A
 * path without `src` leaves `undefined` to be split, which throws.
 */
module SourcePathArray {
  import opened Wrappers
  import opened Strings
  import opened PosixPath
  import opened SourceTree

  /** `getSourcePathArray(importPath)` with `path.sep` as `sep`; `None` is the `TypeError` thrown without `src`. */
  function GetSourcePathArray(importPath: string, sep: char): (r: Option<seq<string>>)
    // it throws exactly when the normalised path has no `src` in it
    ensures r.None? <==> IndexOf(Normalize(importPath), SrcText).None?
    // the segments hold neither the separator nor `src`
    ensures r.Some? ==> forall k :: 0 <= k < |r.value| ==> sep !in r.value[k] && !Contains(r.value[k], SrcText)
    // otherwise the cut falls after the first `src` and runs to the next one, or to the end;
    // that text is split on the separator and its first piece is dropped
    ensures forall i :: IndexOf(Normalize(importPath), SrcText) == Some(i) ==>
      r == Some(Split(BeforeFirst(Normalize(importPath)[i + 3..], SrcText), [sep])[1..])
  {
    var n := Normalize(importPath);
    var pieces := Split(n, SrcText);
    if |pieces| < 2 then
      SplitCount(n, SrcText);
      IndexOfContains(n, SrcText);
      None
    else
      SplitCount(n, SrcText);
      IndexOfContains(n, SrcText);
      SplitPiecesFree(n, SrcText);
      SecondSrcPiece(n);
      var projectFrom := pieces[1];
      var pathArray := Split(projectFrom, [sep]);
      SegmentsFree(projectFrom, sep);
      Some(pathArray[1..])
  }

  /** The second piece of the split at `src` ends at the second `src`, or at the end. */
  lemma SecondSrcPiece(n: string)
    ensures forall i :: IndexOf(n, SrcText) == Some(i) ==>
      |Split(n, SrcText)| > 1 && Split(n, SrcText)[1] == BeforeFirst(n[i + 3..], SrcText)
  {
    if IndexOf(n, SrcText).Some? {
      var i := IndexOf(n, SrcText).value;
      SplitAt(n, SrcText, i);
      SplitFirstIsBefore(n[i + 3..], SrcText);
    }
  }

  /** The pieces of the post-`src` text, split on the separator, hold neither the separator nor `src`. */
  lemma SegmentsFree(projectFrom: string, sep: char)
    requires !Contains(projectFrom, SrcText)
    ensures forall k :: 0 <= k < |Split(projectFrom, [sep])| ==>
      sep !in Split(projectFrom, [sep])[k] && !Contains(Split(projectFrom, [sep])[k], SrcText)
  {
    var ps := Split(projectFrom, [sep]);
    SplitPiecesFree(projectFrom, [sep]);
    JoinSplit(projectFrom, [sep]);
    forall k | 0 <= k < |ps| ensures sep !in ps[k] && !Contains(ps[k], SrcText) {
      if sep in ps[k] {
        var j :| 0 <= j < |ps[k]| && ps[k][j] == sep;
        OccursAtChar(ps[k], sep, j);
      }
      PieceNotContains(ps, k, [sep], SrcText);
    }
  }

  /** A piece of a joined text has no occurrence that the whole does not have. */
  lemma PieceNotContains(ps: seq<string>, k: nat, d: string, t: string)
    requires k < |ps| && !Contains(Join(ps, d), t)
    ensures !Contains(ps[k], t)
    decreases k
  {
    if |ps| > 1 {
      JoinCons(ps[0], ps[1..], d);
      assert [ps[0]] + ps[1..] == ps;
      var s := Join(ps, d);
      if k == 0 {
        forall j ensures !OccursAt(ps[0], t, j) {
          if 0 <= j && j + |t| <= |ps[0]| {
            assert s[..|ps[0]|] == ps[0];
            OccursWithin(s, t, |ps[0]|, j);
          }
        }
      } else {
        var n := |ps[0]| + |d|;
        assert s[n..] == Join(ps[1..], d);
        forall j ensures !OccursAt(Join(ps[1..], d), t, j) {
          if 0 <= j {
            OccursShift(s, n, t, n + j);
          }
        }
        PieceNotContains(ps[1..], k - 1, d, t);
      }
    }
  }

  /** Normalising first does not change the result: the helper normalises itself. */
  lemma GetSourcePathArrayNormalized(importPath: string, sep: char)
    ensures GetSourcePathArray(Normalize(importPath), sep) == GetSourcePathArray(importPath, sep)
  {
    NormalizeIdempotent(importPath);
  }

  /**
   * For a file `/p1/…/pm/src/s1/…/sn` whose segments are plain names and do not
   * contain the text `src` (apart from the `src` directory itself), the result
   * is the segments below `src`: `[s1, …, sn]`.
   */
  lemma GetSourcePathArrayOfRooted(pre: seq<string>, rest: seq<string>)
    requires forall k :: 0 <= k < |pre| ==> IsName(pre[k]) && !Contains(pre[k], SrcText)
    requires forall k :: 0 <= k < |rest| ==> IsName(rest[k]) && !Contains(rest[k], SrcText)
    ensures GetSourcePathArray("/" + Join(pre + [SrcText] + rest, "/"), '/') == Some(rest)
  {
    var p := "/" + Join(pre + [SrcText] + rest, "/");
    RootedNormal(pre, rest);
    var a := Join([""] + pre + [""], "/");
    var b := Join([""] + rest, "/");
    RootedShape(pre, rest);
    NoSrcBefore(a, pre);
    NoSrcAfter(b, rest);
    RootedCut(a, b);
    assert Split(Normalize(p), SrcText)[1] == b;
    forall k | 0 <= k < |[""] + rest| ensures '/' !in ([""] + rest)[k] {
      if k > 0 {
        assert ([""] + rest)[k] == rest[k - 1];
      }
    }
    SplitJoinChar([""] + rest, '/');
  }

  /** `/n1/…/nk` names a file outside any source tree: no segment contains `src`. */
  ghost predicate OutsideSrc(names: seq<string>)
  {
    names != [] && forall k :: 0 <= k < |names| ==> IsName(names[k]) && !Contains(names[k], SrcText)
  }

  /** A file outside any source tree makes the helper throw. */
  lemma GetSourcePathArrayOutsideSrc(names: seq<string>, sep: char)
    requires OutsideSrc(names)
    ensures GetSourcePathArray("/" + Join(names, "/"), sep).None?
  {
    NormalizeAbsoluteNames(names);
    NoSrcInRooted(names);
    IndexOfContains("/" + Join(names, "/"), SrcText);
  }

  // ---------------------------------------------------------------------------
  // Cutting at the `src` segment

  /** The index of the first segment equal to `x`, if any. */
  function FirstSegment(segs: seq<string>, x: string): (r: Option<nat>)
    ensures r.Some? ==> r.value < |segs| && segs[r.value] == x
    ensures forall k :: 0 <= k < |segs| && (r.None? || k < r.value) ==> segs[k] != x
  {
    if segs == [] then None
    else if segs[0] == x then Some(0)
    else
      match FirstSegment(segs[1..], x)
      case None => None
      case Some(k) => Some(k + 1)
  }

  /** The segments of the normalised path. */
  function Segments(importPath: string, sep: char): seq<string>
  {
    Split(Normalize(importPath), [sep])
  }

  /**
   * The segments below the first segment that IS `src`; `None` when no
   * segment is `src` (a file outside any source tree).
   */
  function SegmentsUnderSrc(importPath: string, sep: char): (r: Option<seq<string>>)
    // `None` exactly when no segment is `src`
    ensures var segs := Segments(importPath, sep);
      r.None? <==> forall k :: 0 <= k < |segs| ==> segs[k] != SrcText
    // otherwise the result is what follows the first `src` segment
    ensures var segs := Segments(importPath, sep);
      r.Some? ==>
        var at := |segs| - |r.value| - 1;
        && 0 <= at && segs[at] == SrcText
        && (forall k :: 0 <= k < at ==> segs[k] != SrcText)
        && r.value == segs[at + 1..]
  {
    var segs := Segments(importPath, sep);
    match FirstSegment(segs, SrcText)
    case None => None
    case Some(k) =>
      var r := segs[k + 1..];
      assert |segs| - |r| - 1 == k;
      assert segs[k] == SrcText;
      Some(r)
  }

  /**
   * `/p1/…/pm/src/s1/…/sn` gives `[s1, …, sn]` whenever no `pi` is the
   * segment `src`: names that merely contain the text `src` do no harm.
   */
  lemma SegmentsUnderSrcOfRooted(pre: seq<string>, rest: seq<string>)
    requires forall k :: 0 <= k < |pre| ==> IsName(pre[k]) && pre[k] != SrcText
    requires forall k :: 0 <= k < |rest| ==> IsName(rest[k])
    ensures SegmentsUnderSrc("/" + Join(pre + [SrcText] + rest, "/"), '/') == Some(rest)
  {
    var names := pre + [SrcText] + rest;
    RootedNormal(pre, rest);
    RootedNames(pre, rest);
    SplitAbsoluteNames(names);
    assert "/" == ['/'];
    FirstSrcSegment([""] + names, pre, rest);
  }

  /** In `["", p1, …, pm, src, s1, …, sn]` with no `pi` equal to `src`, the first `src` is at `m + 1`. */
  lemma FirstSrcSegment(segs: seq<string>, pre: seq<string>, rest: seq<string>)
    requires segs == [""] + (pre + [SrcText] + rest)
    requires forall k :: 0 <= k < |pre| ==> pre[k] != SrcText
    ensures FirstSegment(segs, SrcText) == Some(|pre| + 1)
    ensures segs[|pre| + 2..] == rest
  {
    assert segs[|pre| + 1] == SrcText;
    forall k | 0 <= k < |pre| + 1 ensures segs[k] != SrcText {
      if k > 0 {
        assert segs[k] == pre[k - 1];
      }
    }
    assert segs[|pre| + 2..] == rest;
  }

  /** `/n1/…/nk` has no `src` segment. */
  predicate NoSrcSegment(names: seq<string>)
  {
    names != [] && forall k :: 0 <= k < |names| ==> IsName(names[k]) && names[k] != SrcText
  }

  /** Outside any source tree there is no `src` segment either. */
  lemma SegmentsUnderSrcOutsideSrc(names: seq<string>)
    requires NoSrcSegment(names)
    ensures SegmentsUnderSrc("/" + Join(names, "/"), '/').None?
  {
    NormalizeAbsoluteNames(names);
    SplitAbsoluteNames(names);
    forall k | 0 <= k < |[""] + names| ensures ([""] + names)[k] != SrcText {
      if k > 0 {
        assert ([""] + names)[k] == names[k - 1];
      }
    }
  }

  /** On paths without stray `src` text the helper as written and the segment cut agree. */
  lemma GetSourcePathArrayAgrees(pre: seq<string>, rest: seq<string>)
    requires forall k :: 0 <= k < |pre| ==> IsName(pre[k]) && !Contains(pre[k], SrcText)
    requires forall k :: 0 <= k < |rest| ==> IsName(rest[k]) && !Contains(rest[k], SrcText)
    ensures var p := "/" + Join(pre + [SrcText] + rest, "/");
      GetSourcePathArray(p, '/') == SegmentsUnderSrc(p, '/')
  {
    GetSourcePathArrayOfRooted(pre, rest);
    NoSrcTextSegment(pre);
    SegmentsUnderSrcOfRooted(pre, rest);
  }

  /** A segment that does not contain the text `src` is not `src`. */
  lemma NoSrcTextSegment(pre: seq<string>)
    requires forall k :: 0 <= k < |pre| ==> !Contains(pre[k], SrcText)
    ensures forall k :: 0 <= k < |pre| ==> pre[k] != SrcText
  {
    assert OccursAt(SrcText, SrcText, 0);
  }

  /**
   * As written, a directory whose name starts with `src` above the real
   * `src` directory moves the cut: `/srcs/src/pages/Home` (v = `s`) gives
   * `[""]`, the text `s/` between the two occurrences split on `/` without its
   * first piece, where the segments below `src` are `[pages, Home]`.
   */
  lemma SubstringCutMisplaced(v: string, rest: seq<string>)
    requires v != "" && '/' !in v && !Contains(v, SrcText)
    requires forall k :: 0 <= k < |rest| ==> IsName(rest[k])
    ensures var p := "/" + Join([SrcText + v] + [SrcText] + rest, "/");
      && GetSourcePathArray(p, '/') == Some([""])
      && SegmentsUnderSrc(p, '/') == Some(rest)
      && Some([""]) != Some(rest)
  {
    SrcDirIsName(v);
    SegmentsUnderSrcOfRooted([SrcText + v], rest);
    SubstringCutAsWritten(v, rest);
    if rest != [] {
      assert rest[0] != "";
    }
  }

  lemma SubstringCutAsWritten(v: string, rest: seq<string>)
    requires v != "" && '/' !in v && !Contains(v, SrcText)
    requires forall k :: 0 <= k < |rest| ==> IsName(rest[k])
    ensures GetSourcePathArray("/" + Join([SrcText + v] + [SrcText] + rest, "/"), '/') == Some([""])
  {
    var p := "/" + Join([SrcText + v] + [SrcText] + rest, "/");
    SrcDirIsName(v);
    RootedNormal([SrcText + v], rest);
    SrcDirShape(v, rest);
    CutOfShape(p, v, Join([""] + rest, "/"));
  }

  /** The cut of a normalised `/src` + `v/src` + `c`: the text `v/` split on `/` without its first piece. */
  lemma CutOfShape(p: string, v: string, c: string)
    requires Normalize(p) == p
    requires p == "/" + SrcText + (v + "/" + SrcText + c)
    requires '/' !in v && !Contains(v, SrcText)
    ensures GetSourcePathArray(p, '/') == Some([""])
  {
    FirstCutAfterSlash(v + "/" + SrcText + c);
    SecondCut(v, c);
    SplitLastSlash(v);
    CutPiece(p, v + "/");
  }

  lemma SrcDirIsName(v: string)
    requires v != "" && '/' !in v
    ensures IsName(SrcText + v) && SrcText + v != SrcText
  {
    var dir := SrcText + v;
    assert dir[..3] == SrcText;
    assert dir != "" && dir != "." && dir != "..";
    assert '/' !in SrcText;
  }

  lemma SrcDirShape(v: string, rest: seq<string>)
    ensures "/" + Join([SrcText + v] + [SrcText] + rest, "/")
      == "/" + SrcText + (v + "/" + SrcText + Join([""] + rest, "/"))
  {
    var dir := SrcText + v;
    RootedShape([dir], rest);
    assert Join([""] + [dir] + [""], "/") == "/" + dir + "/" by {
      JoinAppend([""], "/", dir);
      JoinAppend([""] + [dir], "/", "");
      assert Join([""], "/") == "";
      assert "" + "/" + dir == "/" + dir;
      ConcatNil("/" + dir + "/");
    }
    Regroup("/", SrcText, v, Join([""] + rest, "/"));
  }

  lemma Regroup<T>(a: seq<T>, s: seq<T>, v: seq<T>, x: seq<T>)
    ensures a + (s + v) + a + s + x == a + s + (v + a + s + x)
  {
  }

  /** The result as written, given the normalised path and the text after its first `src`. */
  lemma CutPiece(p: string, piece: string)
    requires Normalize(p) == p && |Split(p, SrcText)| >= 2 && Split(p, SrcText)[1] == piece
    ensures GetSourcePathArray(p, '/') == Some(Split(piece, "/")[1..])
  {
  }

  /** `/src…` is cut right after its leading separator. */
  lemma FirstCutAfterSlash(b: string)
    ensures Split("/" + SrcText + b, SrcText) == ["/"] + Split(b, SrcText)
  {
    assert "/" + SrcText[..2] == Join(["", "sr"], "/") by {
      JoinCons("", ["sr"], "/");
    }
    ShortHasNoSrc("");
    ShortHasNoSrc("sr");
    NoSrcIn(["", "sr"]);
    IndexOfAfter("/", SrcText, b);
    SplitAt("/" + SrcText + b, SrcText, 1);
    assert ("/" + SrcText + b)[..1] == "/";
    assert ("/" + SrcText + b)[4..] == b;
  }

  /** The first piece of `v/src…` is `v/`. */
  lemma SecondCut(v: string, c: string)
    requires !Contains(v, SrcText)
    ensures Split(v + "/" + SrcText + c, SrcText)[0] == v + "/"
  {
    assert v + "/" + SrcText[..2] == Join([v, "sr"], "/") by {
      JoinCons(v, ["sr"], "/");
    }
    ShortHasNoSrc("sr");
    NoSrcIn([v, "sr"]);
    IndexOfAfter(v + "/", SrcText, c);
    SplitAt(v + "/" + SrcText + c, SrcText, |v| + 1);
    assert (v + "/" + SrcText + c)[..|v| + 1] == v + "/";
  }

  /** Splitting a name followed by the separator leaves an empty last piece. */
  lemma SplitLastSlash(v: string)
    requires '/' !in v
    ensures Split(v + "/", "/") == [v, ""]
  {
    NotContainsChar(v, '/');
    assert v + "/"[..0] == v;
    IndexOfAfter(v, "/", "");
    assert v + "/" + "" == v + "/";
    SplitAt(v + "/", "/", |v|);
    assert (v + "/")[|v| + 1..] == "";
    assert (v + "/")[..|v|] == v;
  }
}
