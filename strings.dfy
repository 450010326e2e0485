/**
 * The JavaScript string operations the rules are built from: `indexOf`,
 * `startsWith`, `split` with a string separator, `Array.prototype.join`
 * and `replace` with a string pattern (which replaces the first match only).
 */
module Strings {
  import opened Wrappers

  /** `d` occurs in `s` starting at index `i`. */
  predicate OccursAt(s: string, d: string, i: int)
  {
    0 <= i && i + |d| <= |s| && s[i..i + |d|] == d
  }

  ghost predicate Contains(s: string, d: string)
  {
    exists i :: OccursAt(s, d, i)
  }

  /** Concatenation regroups. */
  lemma ConcatAssoc<T>(a: seq<T>, b: seq<T>, c: seq<T>)
    ensures a + (b + c) == a + b + c
  {
  }

  /** Appending nothing changes nothing. */
  lemma ConcatNil<T>(a: seq<T>)
    ensures a + [] == a
  {
  }

  /** `s.startsWith(p)` */
  predicate StartsWith(s: string, p: string)
  {
    |p| <= |s| && s[..|p|] == p
  }

  /** `s.indexOf(d, from)`, with -1 written as None. */
  function IndexOfFrom(s: string, d: string, from: nat): (r: Option<nat>)
    requires from <= |s|
    ensures r.Some? ==> from <= r.value && OccursAt(s, d, r.value)
    ensures forall j :: from <= j && (r.None? || j < r.value) ==> !OccursAt(s, d, j)
    decreases |s| - from
  {
    if from + |d| > |s| then None
    else if s[from..from + |d|] == d then Some(from)
    else IndexOfFrom(s, d, from + 1)
  }

  /** `s.indexOf(d)`: the first occurrence of `d`, if any. */
  function IndexOf(s: string, d: string): (r: Option<nat>)
    ensures r.Some? ==> OccursAt(s, d, r.value)
    ensures r.Some? ==> forall j :: 0 <= j < r.value ==> !OccursAt(s, d, j)
    ensures r.None? ==> forall j :: !OccursAt(s, d, j)
  {
    IndexOfFrom(s, d, 0)
  }

  /** `indexOf` finds something exactly when there is something to find. */
  lemma IndexOfContains(s: string, d: string)
    ensures IndexOf(s, d).None? <==> !Contains(s, d)
  {
  }

  /** An occurrence with none before it is the one `indexOf` finds. */
  lemma IndexOfIs(s: string, d: string, i: nat)
    requires OccursAt(s, d, i)
    requires forall j :: 0 <= j < i ==> !OccursAt(s, d, j)
    ensures IndexOf(s, d) == Some(i)
  {
  }

  /** The text of `s` before the first occurrence of `d`; all of `s` when `d` does not occur. */
  function BeforeFirst(s: string, d: string): string
  {
    match IndexOf(s, d)
    case None => s
    case Some(i) => s[..i]
  }

  /** `s.split(d)` for a non-empty separator string `d`. */
  function Split(s: string, d: string): (r: seq<string>)
    requires |d| > 0
    ensures 1 <= |r|
    decreases |s|
  {
    match IndexOf(s, d)
    case None => [s]
    case Some(i) => [s[..i]] + Split(s[i + |d|..], d)
  }

  /** Unfolds `split` at its first separator. */
  lemma SplitAt(s: string, d: string, i: nat)
    requires |d| > 0 && IndexOf(s, d) == Some(i)
    ensures i + |d| <= |s|
    ensures Split(s, d) == [s[..i]] + Split(s[i + |d|..], d)
  {
  }

  /** The first piece of a split is the text before the first separator. */
  lemma SplitFirstIsBefore(s: string, d: string)
    requires |d| > 0
    ensures Split(s, d)[0] == BeforeFirst(s, d)
  {
  }

  /** A split has a second piece exactly when the separator occurs. */
  lemma SplitCount(s: string, d: string)
    requires |d| > 0
    ensures |Split(s, d)| == 1 <==> !Contains(s, d)
  {
    IndexOfContains(s, d);
  }

  /** `ps.join(d)` */
  function Join(ps: seq<string>, d: string): string
  {
    if |ps| == 0 then ""
    else if |ps| == 1 then ps[0]
    else ps[0] + d + Join(ps[1..], d)
  }

  /** `s.replace(pat, '')`: the first occurrence of `pat` is removed, wherever it is. */
  function RemoveFirst(s: string, pat: string): (r: string)
    ensures !Contains(s, pat) ==> r == s
    ensures Contains(s, pat) ==> |r| == |s| - |pat|
    ensures forall i :: IndexOf(s, pat) == Some(i) ==> r == s[..i] + s[i + |pat|..]
    ensures StartsWith(s, pat) ==> r == s[|pat|..]
  {
    match IndexOf(s, pat)
    case None => s
    case Some(i) => s[..i] + s[i + |pat|..]
  }

  // ---------------------------------------------------------------------------
  // Occurrences in pieces of a string

  lemma OccursInPrefix(s: string, d: string, n: nat, j: int)
    requires n <= |s| && OccursAt(s[..n], d, j)
    ensures OccursAt(s, d, j)
  {
    assert s[..n][j..j + |d|] == s[j..j + |d|];
  }

  lemma OccursWithin(s: string, d: string, n: nat, j: int)
    requires n <= |s| && 0 <= j && j + |d| <= n
    ensures OccursAt(s, d, j) <==> OccursAt(s[..n], d, j)
  {
    assert s[..n][j..j + |d|] == s[j..j + |d|];
  }

  lemma OccursInSuffix(s: string, d: string, n: nat, j: int)
    requires n <= |s| && OccursAt(s[n..], d, j)
    ensures OccursAt(s, d, n + j)
  {
    assert s[n..][j..j + |d|] == s[n + j..n + j + |d|];
  }

  /** A one-character separator occurs exactly where that character is. */
  lemma OccursAtChar(s: string, c: char, j: int)
    ensures OccursAt(s, [c], j) <==> 0 <= j < |s| && s[j] == c
  {
    if 0 <= j < |s| {
      assert s[j..j + 1] == [s[j]];
    }
  }

  /** A text without the first character of `d` does not contain `d`. */
  lemma NotContainsLead(s: string, d: string)
    requires |d| > 0 && d[0] !in s
    ensures !Contains(s, d)
  {
    forall j ensures !OccursAt(s, d, j) {
      if 0 <= j && j + |d| <= |s| {
        assert s[j..j + |d|][0] == s[j];
      }
    }
  }

  lemma NotContainsChar(s: string, c: char)
    requires c !in s
    ensures !Contains(s, [c])
  {
    forall j ensures !OccursAt(s, [c], j) {
      OccursAtChar(s, c, j);
    }
  }

  /**
   * An occurrence of `d` starting inside `a` in `a + d + b` lies within
   * `a + d` without its last character; so when that text has no occurrence,
   * the first occurrence in `a + d + b` is the one right after `a`.
   */
  lemma IndexOfAfter(a: string, d: string, b: string)
    requires |d| > 0
    requires !Contains(a + d[..|d| - 1], d)
    ensures IndexOf(a + d + b, d) == Some(|a|)
  {
    var s := a + d + b;
    var t := a + d[..|d| - 1];
    assert s[|a|..|a| + |d|] == d;
    forall j | 0 <= j < |a| ensures !OccursAt(s, d, j) {
      assert s[..|t|] == t;
      OccursWithin(s, d, |t|, j);
    }
    IndexOfIs(s, d, |a|);
  }

  // ---------------------------------------------------------------------------
  // split and join are inverse

  /** Joining the pieces of a split with the same separator gives back the string. */
  lemma {:induction false} JoinSplit(s: string, d: string)
    requires |d| > 0
    ensures Join(Split(s, d), d) == s
    decreases |s|
  {
    var r := IndexOf(s, d);
    if r.Some? {
      var i := r.value;
      var rest := s[i + |d|..];
      var tail := Split(rest, d);
      JoinSplit(rest, d);
      assert Split(s, d) == [s[..i]] + tail;
      JoinCons(s[..i], tail, d);
      assert s[i..i + |d|] == d;
      assert s == s[..i] + s[i..i + |d|] + rest;
    }
  }

  /** No piece of a split contains the separator. */
  lemma {:induction false} SplitPiecesFree(s: string, d: string)
    requires |d| > 0
    ensures forall k :: 0 <= k < |Split(s, d)| ==> !Contains(Split(s, d)[k], d)
    decreases |s|
  {
    match IndexOf(s, d)
    case None =>
    case Some(i) =>
      var rest := s[i + |d|..];
      SplitPiecesFree(rest, d);
      assert Split(s, d) == [s[..i]] + Split(rest, d);
      forall j ensures !OccursAt(s[..i], d, j) {
        if OccursAt(s[..i], d, j) {
          OccursInPrefix(s, d, i, j);
        }
      }
  }

  /**
   * The first piece of a split is the text before the first separator (the
   * whole string when there is none), and it is a prefix of the string.
   */
  lemma SplitFirstPiece(s: string, d: string)
    requires |d| > 0
    ensures StartsWith(s, Split(s, d)[0])
    ensures |Split(s, d)| == 1 ==> Split(s, d)[0] == s
    ensures |Split(s, d)| > 1 ==> OccursAt(s, d, |Split(s, d)[0]|)
    ensures !Contains(Split(s, d)[0], d)
  {
    SplitPiecesFree(s, d);
  }

  /** A split on one character, of pieces free of it, gives back the pieces. */
  lemma {:induction false} SplitJoinChar(ps: seq<string>, c: char)
    requires |ps| >= 1
    requires forall k :: 0 <= k < |ps| ==> c !in ps[k]
    ensures Split(Join(ps, [c]), [c]) == ps
    decreases |ps|
  {
    NotContainsChar(ps[0], c);
    if |ps| > 1 {
      var rest := Join(ps[1..], [c]);
      var s := Join(ps, [c]);
      assert ps == [ps[0]] + ps[1..];
      JoinCons(ps[0], ps[1..], [c]);
      assert s == ps[0] + [c] + rest;
      assert ps[0] + [c][..0] == ps[0];
      IndexOfAfter(ps[0], [c], rest);
      assert s[..|ps[0]|] == ps[0];
      assert s[|ps[0]| + 1..] == rest;
      assert Split(s, [c]) == [ps[0]] + Split(rest, [c]);
      SplitJoinChar(ps[1..], c);
    }
  }

  /** A text that starts with the separator splits into an empty piece and then its pieces. */
  lemma SplitRooted(ps: seq<string>, c: char)
    requires ps != []
    requires forall k :: 0 <= k < |ps| ==> c !in ps[k]
    ensures Split([c] + Join(ps, [c]), [c]) == [""] + ps
  {
    var qs := [""] + ps;
    assert [c] + Join(ps, [c]) == Join(qs, [c]) by {
      JoinCons("", ps, [c]);
    }
    forall k | 0 <= k < |qs| ensures c !in qs[k] {
      if k > 0 {
        assert qs[k] == ps[k - 1];
      }
    }
    SplitJoinChar(qs, c);
  }

  /** Splitting on one character distributes over an occurrence of it. */
  lemma {:induction false} SplitConcatChar(a: string, c: char, b: string)
    ensures Split(a + [c] + b, [c]) == Split(a, [c]) + Split(b, [c])
    decreases |a|
  {
    var r := IndexOf(a, [c]);
    if r.None? {
      SplitFirstCharGap(a, c, b);
    } else {
      var i := r.value;
      SplitPastFirstChar(a, c, b, i);
      SplitConcatChar(a[i + 1..], c, b);
      ConcatAssoc([a[..i]], Split(a[i + 1..], [c]), Split(b, [c]));
    }
  }

  /** When `a` has no `c`, the first piece of `a + [c] + b` is `a`. */
  lemma SplitFirstCharGap(a: string, c: char, b: string)
    requires IndexOf(a, [c]).None?
    ensures Split(a + [c] + b, [c]) == [a] + Split(b, [c])
  {
    var s := a + [c] + b;
    assert a + [c][..0] == a;
    IndexOfAfter(a, [c], b);
    assert s[..|a|] == a;
    assert s[|a| + 1..] == b;
  }

  /** When `a` has its first `c` at `i`, both splits share their first piece. */
  lemma SplitPastFirstChar(a: string, c: char, b: string, i: nat)
    requires IndexOf(a, [c]) == Some(i)
    ensures i + 1 <= |a|
    ensures Split(a, [c]) == [a[..i]] + Split(a[i + 1..], [c])
    ensures Split(a + [c] + b, [c]) == [a[..i]] + Split(a[i + 1..] + [c] + b, [c])
  {
    var s := a + [c] + b;
    OccursAtChar(a, c, i);
    OccursAtChar(s, c, i);
    forall j | 0 <= j < i ensures !OccursAt(s, [c], j) {
      OccursAtChar(a, c, j);
      OccursAtChar(s, c, j);
    }
    IndexOfIs(s, [c], i);
    assert s[..i] == a[..i];
    assert s[i + 1..] == a[i + 1..] + [c] + b;
    SplitAt(s, [c], i);
    SplitAt(a, [c], i);
  }

  lemma JoinCons(x: string, ps: seq<string>, d: string)
    requires |ps| >= 1
    ensures Join([x] + ps, d) == x + d + Join(ps, d)
  {
    assert ([x] + ps)[1..] == ps;
  }

  lemma JoinAppend(ps: seq<string>, d: string, x: string)
    requires |ps| >= 1
    ensures Join(ps + [x], d) == Join(ps, d) + d + x
    decreases |ps|
  {
    if |ps| > 1 {
      assert (ps + [x])[1..] == ps[1..] + [x];
      JoinAppend(ps[1..], d, x);
    }
  }

  lemma JoinConcat(a: seq<string>, b: seq<string>, d: string)
    requires |a| >= 1 && |b| >= 1
    ensures Join(a + b, d) == Join(a, d) + d + Join(b, d)
    decreases |a|
  {
    if |a| > 1 {
      assert (a + b)[1..] == a[1..] + b;
      JoinConcat(a[1..], b, d);
    }
  }

  /** A joined string whose first piece is not empty starts with that piece's first character. */
  lemma JoinHead(ps: seq<string>, d: string)
    requires |ps| >= 1 && |ps[0]| > 0
    ensures |Join(ps, d)| > 0 && Join(ps, d)[0] == ps[0][0]
  {
  }

  /** A joined string whose last piece is not empty ends with that piece's last character. */
  lemma JoinTail(ps: seq<string>, d: string)
    requires |ps| >= 1 && |ps[|ps| - 1]| > 0
    ensures |Join(ps, d)| > 0
    ensures Join(ps, d)[|Join(ps, d)| - 1] == ps[|ps| - 1][|ps[|ps| - 1]| - 1]
  {
    if |ps| > 1 {
      JoinAppend(ps[..|ps| - 1], d, ps[|ps| - 1]);
      assert ps[..|ps| - 1] + [ps[|ps| - 1]] == ps;
    }
  }

  /** A character that no piece contains is in the joined text only as part of the separator. */
  lemma {:induction false} JoinCharFree(ps: seq<string>, c: char, d: string)
    requires forall k :: 0 <= k < |ps| ==> c !in ps[k]
    requires c !in d
    ensures c !in Join(ps, d)
    decreases |ps|
  {
    if |ps| > 1 {
      JoinCharFree(ps[1..], c, d);
    }
  }

  /** Joining around one piece: the text before it ends with a separator, the text after it starts with one. */
  lemma JoinGlue(a: seq<string>, x: string, b: seq<string>, d: string)
    requires |a| >= 1
    ensures Join(a + [x] + b, d) == Join(a + [""], d) + x + Join([""] + b, d)
  {
    JoinAppend(a, d, "");
    if b == [] {
      JoinGlueLast(a, x, d);
    } else {
      JoinGlueInner(a, x, b, d);
    }
  }

  lemma JoinGlueLast(a: seq<string>, x: string, d: string)
    requires |a| >= 1
    ensures Join(a + [x], d) == Join(a, d) + d + x
    ensures Join(a + [x] + [], d) == Join(a + [""], d) + x + Join([""] + [], d)
  {
    JoinAppend(a, d, "");
    JoinAppend(a, d, x);
    assert a + [x] + [] == a + [x];
    assert [""] + [] == [""];
  }

  lemma JoinGlueInner(a: seq<string>, x: string, b: seq<string>, d: string)
    requires |a| >= 1 && |b| >= 1
    ensures Join(a + [x] + b, d) == Join(a + [""], d) + x + Join([""] + b, d)
  {
    JoinEmptyLast(a, d);
    JoinEmptyFirst(b, d);
    JoinAround(a, x, b, d);
    ConcatRegroup(Join(a, d), d, x, Join(b, d));
  }

  lemma JoinEmptyLast(a: seq<string>, d: string)
    requires |a| >= 1
    ensures Join(a + [""], d) == Join(a, d) + d
  {
    JoinAppend(a, d, "");
    assert Join(a, d) + d + "" == Join(a, d) + d;
  }

  lemma JoinEmptyFirst(b: seq<string>, d: string)
    requires |b| >= 1
    ensures Join([""] + b, d) == d + Join(b, d)
  {
    JoinCons("", b, d);
    assert "" + d + Join(b, d) == d + Join(b, d);
  }

  lemma JoinAround(a: seq<string>, x: string, b: seq<string>, d: string)
    requires |a| >= 1 && |b| >= 1
    ensures Join(a + [x] + b, d) == Join(a, d) + d + (x + d + Join(b, d))
  {
    ConcatAssoc(a, [x], b);
    JoinConcat(a, [x] + b, d);
    JoinCons(x, b, d);
  }

  lemma ConcatRegroup(p: string, d: string, x: string, q: string)
    ensures p + d + (x + d + q) == (p + d) + x + (d + q)
  {
  }

  /** Occurrences in a suffix are occurrences in the whole, shifted by where the suffix starts. */
  lemma OccursShift(s: string, n: nat, d: string, j: int)
    requires n <= |s| && n <= j
    ensures OccursAt(s, d, j) <==> OccursAt(s[n..], d, j - n)
  {
    if j + |d| <= |s| {
      assert s[n..][j - n..j - n + |d|] == s[j..j + |d|];
    }
  }

  /** An occurrence of `d` in `x + [c] + y` that does not cross the `c` lies in `x` or in `y`. */
  lemma NotContainsSeparated(x: string, c: char, y: string, d: string)
    requires c !in d && |d| > 0
    requires !Contains(x, d) && !Contains(y, d)
    ensures !Contains(x + [c] + y, d)
  {
    var s := x + [c] + y;
    forall j ensures !OccursAt(s, d, j) {
      if j < 0 || j + |d| > |s| {
      } else if j + |d| <= |x| {
        assert s[..|x|] == x;
        OccursWithin(s, d, |x|, j);
        assert !OccursAt(x, d, j);
      } else if j > |x| {
        assert s[|x| + 1..] == y;
        OccursShift(s, |x| + 1, d, j);
        assert !OccursAt(y, d, j - |x| - 1);
      } else {
        assert s[j..j + |d|][|x| - j] == c;
        assert d[|x| - j] in d;
      }
    }
  }

  /** A delimiter without the separator character occurs in a join only if it occurs in a piece. */
  lemma {:induction false} NotContainsJoin(ps: seq<string>, c: char, d: string)
    requires c !in d && |d| > 0
    requires forall k :: 0 <= k < |ps| ==> !Contains(ps[k], d)
    ensures !Contains(Join(ps, [c]), d)
    decreases |ps|
  {
    if |ps| == 1 {
      assert !Contains(ps[0], d);
    } else if |ps| > 1 {
      NotContainsJoin(ps[1..], c, d);
      assert [ps[0]] + ps[1..] == ps;
      JoinCons(ps[0], ps[1..], [c]);
      assert !Contains(ps[0], d);
      NotContainsSeparated(ps[0], c, Join(ps[1..], [c]), d);
    }
  }
}
