/**
 * `getSourcePath(importPath, afterSrc = true)`: the normalised path is split
 * at the text `/src/`, and the piece after the first occurrence (or, with
 * `afterSrc` false, the piece before it) is returned. With no `/src/` in the
 * path the piece after it does not exist and the result is `undefined`.
 */
module SourcePath {
  import opened Wrappers
  import opened Strings
  import opened PosixPath
  import opened SourceTree

  const SrcDelimiter: string := "/src/"

  /** `getSourcePath(importPath, afterSrc)`; `None` is `undefined`. */
  function GetSourcePath(importPath: string, afterSrc: bool := true): (r: Option<string>)
    // before the first `/src/`: always defined, a prefix of the normalised path free of `/src/`
    ensures !afterSrc ==>
      (r.Some? && StartsWith(Normalize(importPath), r.value) && !Contains(r.value, SrcDelimiter))
    // with no `/src/`, the piece before is the whole normalised path and the piece after is undefined
    ensures IndexOf(Normalize(importPath), SrcDelimiter).None? ==>
      r == (if afterSrc then None else Some(Normalize(importPath)))
    // with a `/src/` at `i`: the piece before ends there, the piece after starts right after it,
    // runs up to the next `/src/` or the end, and holds no `/src/` itself
    ensures forall i :: IndexOf(Normalize(importPath), SrcDelimiter) == Some(i) ==>
      var n := Normalize(importPath);
      && r.Some?
      && (!afterSrc ==> r.value == n[..i])
      && (afterSrc ==> StartsWith(n[i + 5..], r.value) && !Contains(r.value, SrcDelimiter))
    // and the piece after it is exactly the text up to the next `/src/`, or to the end
    ensures forall i :: IndexOf(Normalize(importPath), SrcDelimiter) == Some(i) ==>
      afterSrc ==> r == Some(BeforeFirst(Normalize(importPath)[i + 5..], SrcDelimiter))
  {
    var n := Normalize(importPath);
    SplitFirstPiece(n, SrcDelimiter);
    SplitPiecesFree(n, SrcDelimiter);
    var pieces := Split(n, SrcDelimiter);
    if afterSrc then
      if |pieces| > 1 then
        AfterFirst(n);
        SecondPiece(n);
        Some(pieces[1])
      else
        SplitCount(n, SrcDelimiter);
        IndexOfContains(n, SrcDelimiter);
        None
    else
      PieceBefore(n);
      Some(pieces[0])
  }

  /** The first piece of the split ends where the first `/src/` starts. */
  lemma PieceBefore(n: string)
    ensures forall i :: IndexOf(n, SrcDelimiter) == Some(i) ==> Split(n, SrcDelimiter)[0] == n[..i]
    ensures IndexOf(n, SrcDelimiter).None? ==> Split(n, SrcDelimiter)[0] == n
  {
    match IndexOf(n, SrcDelimiter)
    case None =>
      IndexOfContains(n, SrcDelimiter);
      SplitCount(n, SrcDelimiter);
      SplitFirstPiece(n, SrcDelimiter);
    case Some(i) =>
      SplitAt(n, SrcDelimiter, i);
  }

  /** The second piece of the split is the first piece of the text after the first `/src/`. */
  lemma AfterFirst(n: string)
    requires |Split(n, SrcDelimiter)| > 1
    ensures IndexOf(n, SrcDelimiter).Some?
    ensures forall i :: IndexOf(n, SrcDelimiter) == Some(i) ==>
      StartsWith(n[i + 5..], Split(n, SrcDelimiter)[1])
  {
    SplitCount(n, SrcDelimiter);
    IndexOfContains(n, SrcDelimiter);
    var i := IndexOf(n, SrcDelimiter).value;
    SplitAt(n, SrcDelimiter, i);
    SplitFirstPiece(n[i + 5..], SrcDelimiter);
  }

  /** The second piece of the split ends at the second `/src/`, or at the end. */
  lemma SecondPiece(n: string)
    ensures forall i :: IndexOf(n, SrcDelimiter) == Some(i) ==>
      Split(n, SrcDelimiter)[1] == BeforeFirst(n[i + 5..], SrcDelimiter)
  {
    if IndexOf(n, SrcDelimiter).Some? {
      var i := IndexOf(n, SrcDelimiter).value;
      SplitAt(n, SrcDelimiter, i);
      SplitFirstIsBefore(n[i + 5..], SrcDelimiter);
    }
  }

  /**
   * With exactly one `/src/` in the normalised path, the piece before it,
   * `/src/` and the piece after it make up the whole normalised path.
   */
  lemma SourcePathHalves(importPath: string, i: nat)
    requires IndexOf(Normalize(importPath), SrcDelimiter) == Some(i)
    requires !Contains(Normalize(importPath)[i + 5..], SrcDelimiter)
    ensures GetSourcePath(importPath, false).Some? && GetSourcePath(importPath).Some?
    ensures GetSourcePath(importPath, false).value + SrcDelimiter + GetSourcePath(importPath).value
      == Normalize(importPath)
  {
    var n := Normalize(importPath);
    SplitAt(n, SrcDelimiter, i);
    var rest := n[i + 5..];
    SplitCount(rest, SrcDelimiter);
    assert Split(n, SrcDelimiter) == [n[..i], rest];
    assert n[..i] + SrcDelimiter + rest == n by {
      assert n[i..i + 5] == SrcDelimiter;
    }
  }

  /**
   * For a directory `/p1/…/pm/src/s1/…/sn` (n >= 1) of plain names of which
   * only the one marked is `src` itself, the source path is `s1/…/sn`. Names
   * that merely contain the text `src`, such as `srcViewer`, do not matter.
   */
  lemma GetSourcePathOfRooted(pre: seq<string>, segs: seq<string>)
    requires segs != []
    requires forall k :: 0 <= k < |pre| ==> IsName(pre[k]) && pre[k] != SrcText
    requires forall k :: 0 <= k < |segs| ==> IsName(segs[k]) && segs[k] != SrcText
    ensures GetSourcePath("/" + Join(pre + [SrcText] + segs, "/")) == Some(Join(segs, "/"))
  {
    var p := "/" + Join(pre + [SrcText] + segs, "/");
    RootedNormal(pre, segs);
    var a := Join([""] + pre + [""], "/");
    var b := Join([""] + segs, "/");
    RootedShape(pre, segs);
    RootedEnds(pre, segs);
    PrefixNoDelimiter(a, pre);
    FirstDelimiter(a, b);
    SegmentsNoDelimiter(segs);
    assert p[|a| + 4..] == b[1..];
    SourcePathHalves(p, |a| - 1);
  }

  /** A name other than `src` between two separators does not spell `/src/`. */
  lemma FramedNameNoDelimiter(n: string, rest: string)
    requires IsName(n) && n != SrcText
    requires rest != [] && rest[0] == '/' && !Contains(rest, SrcDelimiter)
    ensures !Contains("/" + n + rest, SrcDelimiter)
  {
    var s := "/" + n + rest;
    assert forall i :: 1 <= i <= |n| ==> s[i] == n[i - 1];
    assert s[|n| + 1] == '/' && s[|n| + 1..] == rest;
    assert SrcDelimiter == ['/', 's', 'r', 'c', '/'] && SrcText == ['s', 'r', 'c'];
    forall j ensures !OccursAt(s, SrcDelimiter, j) {
      if j > |n| {
        OccursShift(s, |n| + 1, SrcDelimiter, j);
      } else if j >= 1 {
        OccursAtCharAt(s, SrcDelimiter, j, 0);
      } else if |n| >= 4 {
        OccursAtCharAt(s, SrcDelimiter, j, 4);
      } else if |n| == 3 {
        OccursAtCharAt(s, SrcDelimiter, j, 1);
        OccursAtCharAt(s, SrcDelimiter, j, 2);
        OccursAtCharAt(s, SrcDelimiter, j, 3);
        assert n == [s[1], s[2], s[3]];
      } else {
        OccursAtCharAt(s, SrcDelimiter, j, |n| + 1);
      }
    }
  }

  /** Where `d` occurs, the text has `d`'s `k`-th character `k` places on. */
  lemma OccursAtCharAt(s: string, d: string, j: int, k: nat)
    requires k < |d|
    ensures OccursAt(s, d, j) ==> s[j + k] == d[k]
  {
    if OccursAt(s, d, j) {
      assert s[j..j + |d|][k] == s[j + k];
    }
  }

  /** Names other than `src`, each between separators, never spell `/src/`. */
  lemma {:induction false} FramedNamesNoDelimiter(names: seq<string>)
    requires forall k :: 0 <= k < |names| ==> IsName(names[k]) && names[k] != SrcText
    ensures !Contains("/" + Join(names, "/") + "/", SrcDelimiter)
    decreases |names|
  {
    if names != [] {
      var rest := "/" + Join(names[1..], "/") + "/";
      if |names| == 1 {
        rest := "/";
      } else {
        assert forall k :: 0 <= k < |names[1..]| ==> names[1..][k] == names[k + 1];
        FramedNamesNoDelimiter(names[1..]);
      }
      assert "/" + Join(names, "/") + "/" == "/" + names[0] + rest;
      FramedNameNoDelimiter(names[0], rest);
    }
  }

  /** The part above the `src` directory, `/p1/…/pm/`, holds no `/src/`. */
  lemma PrefixNoDelimiter(a: string, pre: seq<string>)
    requires a == Join([""] + pre + [""], "/")
    requires forall k :: 0 <= k < |pre| ==> IsName(pre[k]) && pre[k] != SrcText
    ensures !Contains(a, SrcDelimiter)
  {
    FramedJoin(pre);
    if pre != [] {
      FramedNamesNoDelimiter(pre);
    }
  }

  /** `/p1/…/pm/` is `/` when there are no names, and the names joined between separators otherwise. */
  lemma FramedJoin(pre: seq<string>)
    ensures Join([""] + pre + [""], "/") == if pre == [] then "/" else "/" + Join(pre, "/") + "/"
  {
    JoinCons("", pre + [""], "/");
    assert [""] + pre + [""] == [""] + (pre + [""]);
    if pre != [] {
      JoinAppend(pre, "/", "");
    }
  }

  /** The part below the `src` directory, `s1/…/sn`, holds no `/src/`. */
  lemma SegmentsNoDelimiter(segs: seq<string>)
    requires forall k :: 0 <= k < |segs| ==> IsName(segs[k]) && segs[k] != SrcText
    ensures !Contains(Join(segs, "/"), SrcDelimiter)
  {
    var j := Join(segs, "/");
    var s := "/" + j + "/";
    FramedNamesNoDelimiter(segs);
    forall i ensures !OccursAt(j, SrcDelimiter, i) {
      if OccursAt(j, SrcDelimiter, i) {
        assert (j + "/")[..|j|] == j;
        OccursWithin(j + "/", SrcDelimiter, |j|, i);
        assert s[1..] == j + "/";
        OccursInSuffix(s, SrcDelimiter, 1, i);
      }
    }
  }

  /** In `a` + `src` + `b`, with `a` ending and `b` starting in a separator, the first `/src/` is the marked one. */
  lemma FirstDelimiter(a: string, b: string)
    requires |a| >= 1 && a[|a| - 1] == '/' && |b| >= 1 && b[0] == '/'
    requires !Contains(a, SrcDelimiter)
    ensures IndexOf(a + SrcText + b, SrcDelimiter) == Some(|a| - 1)
  {
    var p := a + SrcText + b;
    assert p[|a| - 1..|a| + 4] == SrcDelimiter;
    assert p[|a| - 1] == '/' && p[..|a|] == a;
    forall j | 0 <= j < |a| - 1 ensures !OccursAt(p, SrcDelimiter, j) {
      if j + 5 <= |a| {
        OccursWithin(p, SrcDelimiter, |a|, j);
      } else {
        OccursAtCharAt(p, SrcDelimiter, j, |a| - 1 - j);
      }
    }
    IndexOfIs(p, SrcDelimiter, |a| - 1);
  }

  /** Around the `src` directory are separators, and after it come the segments below it. */
  lemma RootedEnds(pre: seq<string>, segs: seq<string>)
    requires segs != []
    ensures var a := Join([""] + pre + [""], "/");
      |a| >= 1 && a[|a| - 1] == '/'
    ensures var b := Join([""] + segs, "/");
      |b| >= 1 && b[0] == '/' && b[1..] == Join(segs, "/")
  {
    JoinAppend([""] + pre, "/", "");
    JoinCons("", segs, "/");
  }
}
