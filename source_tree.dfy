/**
 * Paths of a project laid out as `/p1/…/pm/src/s1/…/sn`: a rooted path of
 * plain segment names with a `src` directory in it. The helpers that locate a
 * file in the source tree are characterised on such paths.
 */
module SourceTree {
  import opened Strings
  import opened PosixPath

  const SrcText: string := "src"

  /** A rooted path is its segments joined after an empty first segment. */
  lemma RootedJoin(segs: seq<string>)
    requires segs != []
    ensures "/" + Join(segs, "/") == Join([""] + segs, "/")
  {
    JoinCons("", segs, "/");
  }

  /** A path under the synthetic root `/src/` is absolute. */
  lemma UnderSrcAbsolute(x: string)
    ensures StartsWith("/src/" + x, "/")
  {
    assert ("/src/" + x)[..1] == "/";
  }

  /** `/src/s1/…/sn` is the rooted path of `[src, s1, …, sn]`. */
  lemma UnderSrcRoot(segs: seq<string>)
    requires segs != []
    ensures "/src/" + Join(segs, "/") == "/" + Join([SrcText] + segs, "/")
  {
    JoinCons(SrcText, segs, "/");
    assert "/" + SrcText + "/" == "/src/";
  }

  /** A rooted path of plain names is already normal. */
  lemma RootedNormal(pre: seq<string>, rest: seq<string>)
    requires forall k :: 0 <= k < |pre| ==> IsName(pre[k])
    requires forall k :: 0 <= k < |rest| ==> IsName(rest[k])
    ensures Normalize("/" + Join(pre + [SrcText] + rest, "/")) == "/" + Join(pre + [SrcText] + rest, "/")
  {
    RootedNames(pre, rest);
    NormalizeAbsoluteNames(pre + [SrcText] + rest);
  }

  lemma RootedNames(pre: seq<string>, rest: seq<string>)
    requires forall k :: 0 <= k < |pre| ==> IsName(pre[k])
    requires forall k :: 0 <= k < |rest| ==> IsName(rest[k])
    ensures forall k :: 0 <= k < |pre + [SrcText] + rest| ==> IsName((pre + [SrcText] + rest)[k])
  {
    var names := pre + [SrcText] + rest;
    forall k | 0 <= k < |names| ensures IsName(names[k]) {
      if k >= |pre| + 1 {
        assert names[k] == rest[k - |pre| - 1];
      } else if k < |pre| {
        assert names[k] == pre[k];
      } else {
        assert names[k] == SrcText;
      }
    }
  }

  /** The rooted path is the text before `src`, ending in a separator, then `src`, then the text after it. */
  lemma RootedShape(pre: seq<string>, rest: seq<string>)
    ensures "/" + Join(pre + [SrcText] + rest, "/")
      == Join([""] + pre + [""], "/") + SrcText + Join([""] + rest, "/")
  {
    var names := pre + [SrcText] + rest;
    JoinCons("", names, "/");
    ConcatAssoc([""], pre + [SrcText], rest);
    ConcatAssoc([""], pre, [SrcText]);
    JoinGlue([""] + pre, SrcText, rest, "/");
  }

  /** With no `src` before the `src` directory and none after it, the cut text is everything after it. */
  lemma RootedCut(a: string, b: string)
    requires !Contains(a + SrcText[..2], SrcText) && !Contains(b, SrcText)
    ensures |Split(a + SrcText + b, SrcText)| >= 2 && Split(a + SrcText + b, SrcText)[1] == b
  {
    IndexOfAfter(a, SrcText, b);
    var p := a + SrcText + b;
    SplitAt(p, SrcText, |a|);
    assert p[|a| + 3..] == b;
    SplitCount(b, SrcText);
    IndexOfContains(b, SrcText);
    SplitFirstPiece(b, SrcText);
  }

  /** No `src` starts before the `src` directory. */
  lemma NoSrcBefore(a: string, pre: seq<string>)
    requires a == Join([""] + pre + [""], "/")
    requires forall k :: 0 <= k < |pre| ==> !Contains(pre[k], SrcText)
    ensures !Contains(a + SrcText[..2], SrcText)
  {
    var sr := SrcText[..2];
    ShortHasNoSrc(sr);
    JoinThen([""] + pre, sr);
    BeforeSrcPieces(pre, sr);
    NoSrcIn([""] + pre + [sr]);
  }

  /** Text after a trailing separator is one more piece. */
  lemma JoinThen(before: seq<string>, x: string)
    requires before != []
    ensures Join(before + [""], "/") + x == Join(before + [x], "/")
  {
    JoinAppend(before, "/", "");
    JoinAppend(before, "/", x);
  }

  /** The pieces of the text before `x`: an empty one, the names above `src`, and `x`. */
  lemma BeforeSrcPieces(pre: seq<string>, x: string)
    requires forall k :: 0 <= k < |pre| ==> !Contains(pre[k], SrcText)
    requires !Contains(x, SrcText)
    ensures forall k :: 0 <= k < |[""] + pre + [x]| ==> !Contains(([""] + pre + [x])[k], SrcText)
  {
    var ps := [""] + pre + [x];
    forall k | 0 <= k < |ps| ensures !Contains(ps[k], SrcText) {
      if 0 < k <= |pre| {
        assert ps[k] == pre[k - 1];
      } else if k == 0 {
        ShortHasNoSrc(ps[k]);
      }
    }
  }

  /** No `src` occurs after the `src` directory. */
  lemma NoSrcAfter(b: string, rest: seq<string>)
    requires b == Join([""] + rest, "/")
    requires forall k :: 0 <= k < |rest| ==> !Contains(rest[k], SrcText)
    ensures !Contains(b, SrcText)
  {
    forall k | 0 <= k < |[""] + rest| ensures !Contains(([""] + rest)[k], SrcText) {
      if k > 0 {
        assert ([""] + rest)[k] == rest[k - 1];
      } else {
        ShortHasNoSrc(([""] + rest)[k]);
      }
    }
    NoSrcIn([""] + rest);
  }

  lemma ShortHasNoSrc(s: string)
    requires |s| < |SrcText|
    ensures !Contains(s, SrcText)
  {
  }

  /** Joining pieces that have no `src` with `/` creates none. */
  lemma NoSrcIn(ps: seq<string>)
    requires forall k :: 0 <= k < |ps| ==> !Contains(ps[k], SrcText)
    ensures !Contains(Join(ps, "/"), SrcText)
  {
    NotContainsJoin(ps, '/', SrcText);
  }

  /** A rooted path none of whose segments contains `src` contains no `src`. */
  lemma NoSrcInRooted(names: seq<string>)
    requires forall k :: 0 <= k < |names| ==> !Contains(names[k], SrcText)
    ensures !Contains("/" + Join(names, "/"), SrcText)
  {
    if names == [] {
      ShortHasNoSrc("/");
    } else {
      JoinCons("", names, "/");
      forall k | 0 <= k < |[""] + names| ensures !Contains(([""] + names)[k], SrcText) {
        if k > 0 {
          assert ([""] + names)[k] == names[k - 1];
        } else {
          ShortHasNoSrc(([""] + names)[k]);
        }
      }
      NoSrcIn([""] + names);
      assert "" + "/" + Join(names, "/") == "/" + Join(names, "/");
    }
  }
}
