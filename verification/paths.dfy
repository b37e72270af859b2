/** Dotted path strings: splitting into segments, the parent computation of
    the empty-parent walk (`lastIndexOf(".")`), and the first-`*`
    substitution of wildcard fan-out (`replace("*", …)`). */
module Paths {
  import opened Decimal

  function Last<T>(s: seq<T>): T
    requires |s| > 0
  {
    s[|s| - 1]
  }

  function DropLast<T>(s: seq<T>): seq<T>
    requires |s| > 0
  {
    s[..|s| - 1]
  }

  /** The segments of a dotted path: the maximal runs of characters between
      dots. There is always at least one segment, possibly empty. */
  function Split(s: string): (r: seq<string>)
    ensures |r| >= 1
    ensures forall i :: 0 <= i < |r| ==> '.' !in r[i]
    decreases |s|
  {
    if |s| == 0 then [""]
    else
      var rest := Split(s[1..]);
      if s[0] == '.' then [""] + rest else [[s[0]] + rest[0]] + rest[1..]
  }

  /** The dotted path with the given segments. */
  function Join(segs: seq<string>): string
  {
    if |segs| == 0 then ""
    else if |segs| == 1 then segs[0]
    else segs[0] + "." + Join(segs[1..])
  }

  /** Splitting a concatenation glues the last segment of the left part to
      the first segment of the right part. */
  lemma {:induction false} SplitAppend(x: string, y: string)
    ensures Split(x + y)
         == DropLast(Split(x)) + [Last(Split(x)) + Split(y)[0]] + Split(y)[1..]
    decreases |x|
  {
    if |x| == 0 {
      assert x + y == y;
      var sy := Split(y);
      assert Split(x) == [""];
      assert "" + sy[0] == sy[0];
      assert sy == [sy[0]] + sy[1..];
    } else {
      var x' := x[1..];
      assert (x + y)[1..] == x' + y;
      assert (x + y)[0] == x[0];
      SplitAppend(x', y);
      var sx := Split(x');
      var sy := Split(y);
      var sxy := Split(x' + y);
      assert sxy == DropLast(sx) + [Last(sx) + sy[0]] + sy[1..];
      if x[0] == '.' {
        SplitAppendDot(sx, sy, sxy);
      } else {
        SplitAppendChar(x[0], sx, sy, sxy);
      }
    }
  }

  lemma SplitAppendDot(sx: seq<string>, sy: seq<string>, sxy: seq<string>)
    requires |sx| >= 1 && |sy| >= 1
    requires sxy == DropLast(sx) + [Last(sx) + sy[0]] + sy[1..]
    ensures [""] + sxy
         == DropLast([""] + sx) + [Last([""] + sx) + sy[0]] + sy[1..]
  {
    assert DropLast([""] + sx) == [""] + DropLast(sx);
  }

  lemma SplitAppendChar(c: char, sx: seq<string>, sy: seq<string>, sxy: seq<string>)
    requires |sx| >= 1 && |sy| >= 1
    requires sxy == DropLast(sx) + [Last(sx) + sy[0]] + sy[1..]
    ensures [[c] + sxy[0]] + sxy[1..]
         == DropLast([[c] + sx[0]] + sx[1..]) + [Last([[c] + sx[0]] + sx[1..]) + sy[0]] + sy[1..]
  {
    var h := [c] + sx[0];
    if |sx| == 1 {
      assert sxy[0] == sx[0] + sy[0];
      assert sxy[1..] == sy[1..];
      assert [c] + (sx[0] + sy[0]) == h + sy[0];
      assert DropLast([h] + sx[1..]) == [];
    } else {
      assert sxy[0] == sx[0];
      assert sxy[1..] == DropLast(sx)[1..] + [Last(sx) + sy[0]] + sy[1..];
      assert DropLast([h] + sx[1..]) == [h] + DropLast(sx)[1..];
      assert Last([h] + sx[1..]) == Last(sx);
    }
  }

  /** A path without dots is a single segment. */
  lemma {:induction false} SplitNoDot(s: string)
    ensures '.' !in s ==> Split(s) == [s]
    decreases |s|
  {
    if '.' !in s && |s| > 0 {
      SplitNoDot(s[1..]);
      assert s == [s[0]] + s[1..];
    }
  }

  /** Joining the segments of a path gives the path back. */
  lemma {:induction false} JoinSplit(s: string)
    ensures Join(Split(s)) == s
    decreases |s|
  {
    if |s| > 0 {
      JoinSplit(s[1..]);
      var rest := Split(s[1..]);
      if s[0] == '.' {
        assert Split(s) == [""] + rest;
        assert Join([""] + rest) == "" + "." + Join(rest);
        assert s == "." + s[1..];
      } else {
        JoinConsChar(s[0], rest[0], rest[1..]);
        assert rest == [rest[0]] + rest[1..];
        assert s == [s[0]] + s[1..];
      }
    }
  }

  lemma JoinHead(x: string, rest: seq<string>)
    ensures Join([x] + rest) == if |rest| == 0 then x else x + "." + Join(rest)
  {
    if |rest| > 0 {
      assert ([x] + rest)[1..] == rest;
    }
  }

  lemma JoinConsChar(c: char, head: string, rest: seq<string>)
    ensures Join([[c] + head] + rest) == [c] + Join([head] + rest)
  {
    JoinHead([c] + head, rest);
    JoinHead(head, rest);
  }

  /** Splitting the join of dot-free segments gives the segments back. */
  lemma {:induction false} SplitJoin(segs: seq<string>)
    requires |segs| >= 1
    requires forall i :: 0 <= i < |segs| ==> '.' !in segs[i]
    ensures Split(Join(segs)) == segs
    decreases |segs|
  {
    SplitNoDot(segs[0]);
    if |segs| > 1 {
      SplitJoin(segs[1..]);
      var j := Join(segs[1..]);
      assert Join(segs) == segs[0] + ("." + j);
      SplitNoDotPrefix(segs[0], "." + j);
      SplitDotCons(j);
      assert segs[0] + "" == segs[0];
      assert segs == [segs[0]] + segs[1..];
    }
  }

  lemma SplitDotCons(s: string)
    ensures Split("." + s) == [""] + Split(s)
  {
    assert ("." + s)[1..] == s;
  }

  /** Position of the last `c` in `s`, or -1 (JavaScript's `lastIndexOf`). */
  function LastIndexOf(s: string, c: char): (i: int)
    ensures -1 <= i < |s|
    ensures i == -1 <==> c !in s
    ensures 0 <= i ==> s[i] == c && c !in s[i + 1..]
    decreases |s|
  {
    if |s| == 0 then -1
    else if s[|s| - 1] == c then |s| - 1
    else
      assert s == s[..|s| - 1] + [s[|s| - 1]];
      LastIndexOf(s[..|s| - 1], c)
  }

  /** Position of the first `c` in `s`, or -1 (JavaScript's `indexOf`). */
  function IndexOfChar(s: string, c: char): (i: int)
    ensures -1 <= i < |s|
    ensures i == -1 <==> c !in s
    ensures 0 <= i ==> s[i] == c && c !in s[..i]
    decreases |s|
  {
    if |s| == 0 then -1
    else if s[0] == c then 0
    else
      var j := IndexOfChar(s[1..], c);
      assert s == [s[0]] + s[1..];
      if j == -1 then -1
      else
        assert s[..j + 1] == [s[0]] + s[1..][..j];
        j + 1
  }

  /** The path one level up: everything before the last dot, or the empty
      path when there is no dot (index.ts:69-72 and 88-90 compute the same). */
  function Parent(path: string): (r: string)
    ensures '.' !in path ==> r == ""
    ensures '.' in path ==>
              |r| < |path| && path[..|r|] == r && path[|r|] == '.' && '.' !in path[|r| + 1..]
  {
    if '.' in path then path[..LastIndexOf(path, '.')] else ""
  }

  /** The parent of a dotted path has exactly the path's segments but the last. */
  lemma ParentSplit(path: string)
    ensures '.' in path ==> Split(Parent(path)) == DropLast(Split(path))
    ensures '.' !in path ==> |Split(path)| == 1
  {
    if '.' in path {
      var p := Parent(path);
      var tail := path[|p| + 1..];
      ParentDecompose(path);
      SplitDotSuffix(p, tail);
    } else {
      SplitNoDot(path);
    }
  }

  lemma ParentDecompose(path: string)
    requires '.' in path
    ensures path == Parent(path) + ("." + path[|Parent(path)| + 1..])
  {
    var p := Parent(path);
    DotAt(path, |p|);
  }

  lemma DotAt(s: string, w: nat)
    requires w < |s| && s[w] == '.'
    ensures s == s[..w] + ("." + s[w + 1..])
  {
    SliceAround(s, w);
    assert [s[w]] == ".";
  }

  lemma SplitDotSuffix(p: string, tail: string)
    requires '.' !in tail
    ensures Split(p + ("." + tail)) == Split(p) + [tail]
  {
    SplitAppend(p, "." + tail);
    SplitNoDot(tail);
    SplitDotCons(tail);
    var sp := Split(p);
    assert Last(sp) + "" == Last(sp);
    assert DropLast(sp) + [Last(sp)] == sp;
  }

  /** The successive values of `parentPath` in the empty-parent loop
      (index.ts:73-91), starting from `path`: it stops at the empty path. */
  function Walk(path: string): (w: seq<string>)
    ensures forall k :: 0 <= k < |w| ==> w[k] != ""
    decreases |path|
  {
    if path == "" then [] else [path] + Walk(Parent(path))
  }

  lemma WalkPrefixes(path: string)
    ensures |Walk(path)| == if Split(path)[0] == "" then |Split(path)| - 1 else |Split(path)|
    ensures forall k :: 0 <= k < |Walk(path)| ==>
              Split(Walk(path)[k]) == Split(path)[..|Split(path)| - k]
  {
    WalkLength(path);
    forall k | 0 <= k < |Walk(path)|
      ensures Split(Walk(path)[k]) == Split(path)[..|Split(path)| - k]
    {
      WalkAt(path, k);
    }
  }

  /** The walk has one path per segment, except a leading empty segment. */
  lemma {:induction false} WalkLength(path: string)
    ensures |Walk(path)| == if Split(path)[0] == "" then |Split(path)| - 1 else |Split(path)|
    decreases |path|
  {
    if path != "" {
      ParentSplit(path);
      var s := Split(path);
      if '.' in path {
        WalkLength(Parent(path));
        assert Split(Parent(path))[0] == s[0];
      } else {
        assert Walk(Parent(path)) == [];
      }
    }
  }

  /** The `k`-th path of the walk has the first `|Split(path)| - k` segments. */
  lemma {:induction false} WalkAt(path: string, k: nat)
    requires k < |Walk(path)|
    ensures k <= |Split(path)| && Split(Walk(path)[k]) == Split(path)[..|Split(path)| - k]
    decreases |path|
  {
    var s := Split(path);
    assert Walk(path) == [path] + Walk(Parent(path));
    if k == 0 {
      assert s[..|s|] == s;
    } else {
      ParentSplit(path);
      if '.' in path {
        WalkAt(Parent(path), k - 1);
        WalkLength(path);
        assert Split(Walk(path)[k]) == DropLast(s)[..|s| - 1 - (k - 1)];
      }
    }
  }

  /** The empty-parent walk started from the parent of a source path visits
      the source's proper dotted prefixes, innermost first, each one segment
      shorter than the last; it misses only a leading empty segment. */
  lemma WalkVisitsProperPrefixes(sourcePath: string)
    ensures |Walk(Parent(sourcePath))| <= |Split(sourcePath)| - 1
    ensures forall k :: 0 <= k < |Walk(Parent(sourcePath))| ==>
              Split(Walk(Parent(sourcePath))[k])
              == Split(sourcePath)[..|Split(sourcePath)| - 1 - k]
    ensures Split(sourcePath)[0] != "" ==>
              |Walk(Parent(sourcePath))| == |Split(sourcePath)| - 1
    ensures Split(sourcePath)[0] == "" && |Split(sourcePath)| > 1 ==>
              |Walk(Parent(sourcePath))| == |Split(sourcePath)| - 2
  {
    ParentSplit(sourcePath);
    if '.' in sourcePath {
      WalkBelow(Parent(sourcePath), Split(sourcePath));
    } else {
      assert Walk(Parent(sourcePath)) == [];
    }
  }

  lemma WalkBelow(p: string, s: seq<string>)
    requires |s| >= 1 && Split(p) == DropLast(s)
    ensures |Walk(p)| <= |s| - 1
    ensures forall k :: 0 <= k < |Walk(p)| ==> Split(Walk(p)[k]) == s[..|s| - 1 - k]
    ensures s[0] != "" ==> |Walk(p)| == |s| - 1
    ensures s[0] == "" ==> |Walk(p)| == |s| - 2
  {
    var sp := Split(p);
    WalkPrefixes(p);
    forall k | 0 <= k < |Walk(p)|
      ensures Split(Walk(p)[k]) == s[..|s| - 1 - k]
    {
      assert sp[..|sp| - k] == s[..|s| - 1 - k];
    }
    assert sp[0] == s[0];
  }

  /** `s` with its first `*` replaced by `t` (JavaScript's `replace("*", t)`). */
  function ReplaceFirst(s: string, t: string): (r: string)
    ensures '*' !in s ==> r == s
    ensures '*' in s ==>
              var w := IndexOfChar(s, '*');
              && 0 <= w < |s| && s[w] == '*' && '*' !in s[..w]
              && r == s[..w] + t + s[w + 1..]
  {
    var w := IndexOfChar(s, '*');
    if w == -1 then s else s[..w] + t + s[w + 1..]
  }

  /** Whatever precedes the first `*` is kept, the `*` becomes `t`, and
      everything after it, later `*`s included, is kept. */
  lemma ReplaceFirstAt(a: string, b: string, t: string)
    requires '*' !in a
    ensures ReplaceFirst(a + "*" + b, t) == a + t + b
  {
    var s := a + "*" + b;
    assert s[|a|] == '*';
    var w := IndexOfChar(s, '*');
    assert s[..|a|] == a;
    assert forall k :: 0 <= k < |a| ==> s[k] == a[k];
    assert s[..w] == a;
    assert s[w + 1..] == b;
  }

  /** The first `*` of `target` fills a whole segment. */
  predicate WholeSegmentWildcard(target: string) {
    var w := IndexOfChar(target, '*');
    && w >= 0
    && (w == 0 || target[w - 1] == '.')
    && (w + 1 == |target| || target[w + 1] == '.')
  }

  lemma SplitNoDotPrefix(m: string, b: string)
    requires '.' !in m
    ensures Split(m + b) == [m + Split(b)[0]] + Split(b)[1..]
  {
    SplitAppend(m, b);
    SplitNoDot(m);
  }

  lemma SplitAroundNoDot(a: string, m: string, b: string)
    requires '.' !in m
    ensures Split(a + m + b)
         == DropLast(Split(a)) + [Last(Split(a)) + m + Split(b)[0]] + Split(b)[1..]
  {
    var sa, sb := Split(a), Split(b);
    var mb := m + b;
    SplitNoDotPrefix(m, b);
    assert a + m + b == a + mb;
    SplitAppend(a, mb);
    assert Last(sa) + (m + sb[0]) == Last(sa) + m + sb[0];
  }

  lemma LastSplitEmpty(a: string)
    requires a == "" || a[|a| - 1] == '.'
    ensures Last(Split(a)) == ""
  {
    if a != "" {
      var a' := a[..|a| - 1];
      var empty := a[|a|..];
      assert a == a' + ("." + empty);
      SplitDotSuffix(a', empty);
    }
  }

  /** The segments before the wildcard segment of `target`. */
  function WildcardPrefix(target: string): seq<string>
    requires IndexOfChar(target, '*') >= 0
  {
    DropLast(Split(target[..IndexOfChar(target, '*')]))
  }

  /** The segments after the wildcard segment of `target`. */
  function WildcardSuffix(target: string): seq<string>
    requires IndexOfChar(target, '*') >= 0
  {
    Split(target[IndexOfChar(target, '*') + 1..])[1..]
  }

  /** Substituting a whole-segment `*` replaces exactly that segment: the
      target splits as `pre + ["*"] + post` and the substituted path as
      `pre + [t] + post`, where `pre` holds no `*` segment. */
  lemma ReplaceWildcardSegment(target: string, t: string)
    requires WholeSegmentWildcard(target)
    requires '.' !in t
    ensures Split(target) == WildcardPrefix(target) + ["*"] + WildcardSuffix(target)
    ensures Split(ReplaceFirst(target, t)) == WildcardPrefix(target) + [t] + WildcardSuffix(target)
    ensures forall i :: 0 <= i < |WildcardPrefix(target)| ==> '*' !in WildcardPrefix(target)[i]
  {
    var w := IndexOfChar(target, '*');
    var a := target[..w];
    var b := target[w + 1..];
    WildcardDecompose(target);
    assert ReplaceFirst(target, t) == a + t + b;
    LastSplitEmpty(a);
    FirstSplitEmpty(b);
    SubstituteSegment(a, "*", b);
    SubstituteSegment(a, t, b);
    SegmentsInPath(a);
  }

  lemma WildcardDecompose(target: string)
    requires IndexOfChar(target, '*') >= 0
    ensures var w := IndexOfChar(target, '*');
            target == target[..w] + "*" + target[w + 1..]
  {
    var w := IndexOfChar(target, '*');
    SliceAround(target, w);
  }

  lemma SliceAround<T>(s: seq<T>, w: nat)
    requires w < |s|
    ensures s == s[..w] + [s[w]] + s[w + 1..]
  {
  }

  lemma SubstituteSegment(a: string, m: string, b: string)
    requires '.' !in m
    requires Last(Split(a)) == "" && Split(b)[0] == ""
    ensures Split(a + m + b) == DropLast(Split(a)) + [m] + Split(b)[1..]
  {
    SplitAroundNoDot(a, m, b);
    assert "" + m + "" == m;
  }

  lemma FirstSplitEmpty(b: string)
    requires b == "" || b[0] == '.'
    ensures Split(b)[0] == ""
  {
  }

  lemma {:induction false} SegmentsInPath(a: string)
    ensures forall i, c :: 0 <= i < |Split(a)| && c in Split(a)[i] ==> c in a
    decreases |a|
  {
    if |a| > 0 {
      SegmentsInPath(a[1..]);
      assert a == [a[0]] + a[1..];
    }
  }
}
