/** The remapping engine of index.ts: for each rule of the remapping
    definition, in order, read the value at the source path, write it at the
    target path (fanning an array out over a `*`), optionally delete the
    source and then prune the ancestors the deletion left empty. */
module Remapper {
  import opened Wrappers
  import opened Decimal
  import opened Paths
  import opened Document
  import opened DotPath

  /** The caller's options; `None` means the option was not passed. */
  datatype Options = Options(
    reverse: Option<bool>,
    deleteMappedValues: Option<bool>,
    deleteEmptyParents: Option<bool>,
    keepUnmappedValues: Option<bool>)

  /** The options with their defaults filled in. */
  datatype Flags = Flags(
    reverse: bool,
    deleteMappedValues: bool,
    deleteEmptyParents: bool,
    keepUnmappedValues: bool)

  /** Calling `remap` without an options argument. */
  const NoOptions := Options(None, None, None, None)

  /** Destructuring with defaults (index.ts:22-27): `reverse` is off unless
      asked for, the three other switches are on unless turned off. */
  function Resolve(o: Options): (f: Flags)
    ensures f.reverse <==> o.reverse == Some(true)
    ensures f.deleteMappedValues <==> o.deleteMappedValues != Some(false)
    ensures f.deleteEmptyParents <==> o.deleteEmptyParents != Some(false)
    ensures f.keepUnmappedValues <==> o.keepUnmappedValues != Some(false)
  {
    Flags(
      o.reverse.GetOr(false),
      o.deleteMappedValues.GetOr(true),
      o.deleteEmptyParents.GetOr(true),
      o.keepUnmappedValues.GetOr(true))
  }

  /** One entry of the remapping definition: its key path and its value path. */
  type Rule = (string, string)

  /** Source and target paths of a rule: key to value, or value to key under
      `reverse` (index.ts:41-42). */
  function SelectPaths(rule: Rule, reverse: bool): (paths: (string, string))
  {
    if reverse then (rule.1, rule.0) else rule
  }

  /** The document the rules write into (index.ts:29-36): the input itself
      when unmapped values are kept, otherwise a fresh empty array or object
      matching the input's shape. */
  function InitialWorking(input: Json, keepUnmappedValues: bool): (w: Json)
    ensures keepUnmappedValues ==> w == input
    ensures !keepUnmappedValues ==> IsEmptyContainer(w) && (w.JArr? <==> input.JArr?)
  {
    if keepUnmappedValues then input
    else if input.JArr? then JArr([])
    else JObj(map[])
  }

  /** The target path for element `i` of a fanned-out array. */
  function Substitute(target: string, i: nat): string {
    ReplaceFirst(target, NatToString(i))
  }

  /** Writes the first `n` elements of `items`, element `i` at the target
      with its first `*` replaced by `i`, in index order (index.ts:54-57). */
  function FanOut(work: Json, target: string, items: seq<Json>, n: nat): (r: Json)
    requires n <= |items|
    ensures n == 0 ==> r == work
    ensures n > 0 ==> Get(r, Split(Substitute(target, n - 1))) == Some(items[n - 1])
    ensures n > 0 ==> r.JObj? || r.JArr?
    decreases n
  {
    if n == 0 then work
    else Set(FanOut(work, target, items, n - 1), Split(Substitute(target, n - 1)), items[n - 1])
  }

  /** The write of one rule (index.ts:53-60): an array read for a target
      containing `*` is fanned out; any other value, arrays included, is
      written whole at the target path. */
  function Write(work: Json, target: string, v: Json): (r: Json)
    ensures !(v.JArr? && '*' in target) ==> Get(r, Split(target)) == Some(v)
    ensures v.JArr? && '*' in target && |v.items| == 0 ==> r == work
    ensures v.JArr? && '*' in target && |v.items| > 0 ==>
              Get(r, Split(Substitute(target, |v.items| - 1))) == Some(v.items[|v.items| - 1])
  {
    if v.JArr? && '*' in target then FanOut(work, target, v.items, |v.items|)
    else Set(work, Split(target), v)
  }

  /** Fanning an array out over a target whose first `*` is a whole segment
      leaves every element at its own substituted path: element `i` is
      readable at the target with `*` replaced by `i`. */
  lemma FanOutWritesEach(work: Json, target: string, items: seq<Json>)
    requires WholeSegmentWildcard(target)
    ensures forall i :: 0 <= i < |items| ==>
              Get(FanOut(work, target, items, |items|), Split(Substitute(target, i))) == Some(items[i])
  {
    FanOutPrefix(work, target, items, |items|);
  }

  lemma {:induction false} FanOutPrefix(work: Json, target: string, items: seq<Json>, n: nat)
    requires WholeSegmentWildcard(target)
    requires n <= |items|
    ensures forall i :: 0 <= i < n ==>
              Get(FanOut(work, target, items, n), Split(Substitute(target, i))) == Some(items[i])
    decreases n
  {
    if n > 0 {
      FanOutPrefix(work, target, items, n - 1);
      var before := FanOut(work, target, items, n - 1);
      var after := Set(before, Split(Substitute(target, n - 1)), items[n - 1]);
      assert FanOut(work, target, items, n) == after;
      forall i | 0 <= i < n - 1
        ensures Get(after, Split(Substitute(target, i))) == Some(items[i])
      {
        SiblingElementKept(before, target, n - 1, i, items[n - 1]);
      }
    }
  }

  /** Writing element `j` keeps what an earlier element `i` left at its own path. */
  lemma SiblingElementKept(before: Json, target: string, j: nat, i: nat, v: Json)
    requires WholeSegmentWildcard(target)
    requires i < j
    requires Get(before, Split(Substitute(target, i))).Some?
    ensures Get(Set(before, Split(Substitute(target, j)), v), Split(Substitute(target, i)))
         == Get(before, Split(Substitute(target, i)))
  {
    var pre := WildcardPrefix(target);
    var pj, pi := Split(Substitute(target, j)), Split(Substitute(target, i));
    SubstitutedPath(target, j);
    SubstitutedPath(target, i);
    if NatToString(j) == NatToString(i) {
      NatToStringInjective(j, i);
    }
    IndexOfNatToString(j);
    IndexOfNatToString(i);
    assert pj[..|pre|] == pre == pi[..|pre|];
    assert pj[|pre|] == NatToString(j) && pi[|pre|] == NatToString(i);
    SetPreserves(before, pj, pi, |pre|, v);
  }

  /** Fanning out leaves every value whose path parts from the target above
      its `*` segment, at a segment of the same kind. */
  lemma {:induction false} FanOutFrame(work: Json, target: string, items: seq<Json>, n: nat,
                                       q: seq<string>, k: nat)
    requires WholeSegmentWildcard(target)
    requires n <= |items|
    requires Get(work, q).Some?
    requires DivergeAt(WildcardPrefix(target), q, k)
    requires IndexOf(WildcardPrefix(target)[k]).Some? == IndexOf(q[k]).Some?
    ensures Get(FanOut(work, target, items, n), q) == Get(work, q)
    decreases n
  {
    if n > 0 {
      FanOutFrame(work, target, items, n - 1, q, k);
      var pre := WildcardPrefix(target);
      var p := Split(Substitute(target, n - 1));
      SubstitutedPath(target, n - 1);
      assert p[..k] == pre[..k] && p[k] == pre[k];
      SetPreserves(FanOut(work, target, items, n - 1), p, q, k, items[n - 1]);
    }
  }

  /** The segments of the target substituted for element `i`. */
  lemma SubstitutedPath(target: string, i: nat)
    requires WholeSegmentWildcard(target)
    ensures Split(Substitute(target, i))
         == WildcardPrefix(target) + [NatToString(i)] + WildcardSuffix(target)
  {
    var s := NatToString(i);
    assert !IsDigit('.');
    assert '.' !in s;
    ReplaceWildcardSegment(target, s);
  }

  /** One step of the empty-parent walk (index.ts:74-85): the ancestor at
      `path` is removed only when it is an empty array or an empty object;
      `null`, scalars, non-empty containers and missing paths stay. */
  function PruneStep(doc: Json, path: string): (r: Json)
    ensures !(Get(doc, Split(path)).Some? && IsEmptyContainer(Get(doc, Split(path)).value)) ==> r == doc
    ensures Get(doc, Split(path)).Some? && IsEmptyContainer(Get(doc, Split(path)).value) ==>
              var up := DropLast(Split(path));
              Get(doc, up).Some?
              && Get(r, up) == Some(DropChild(Get(doc, up).value, Last(Split(path))))
  {
    var s := Split(path);
    match Get(doc, s)
    case Some(x) =>
      if IsEmptyContainer(x) then
        GetParentNonEmpty(doc, s);
        assert s[..|s| - 1] == DropLast(s);
        Remove(doc, s)
      else doc
    case None => doc
  }

  /** The exception a JavaScript built-in raises. */
  datatype Thrown = TypeError

  /** The emptiness test of index.ts:77-83 as the code writes it: an empty
      array, or anything whose `typeof` is "object" and that has no own keys.
      `typeof null` is "object" too, and `Object.keys(null)` throws. */
  function EmptyParentAsWritten(parentValue: Option<Json>): (r: Result<bool, Thrown>)
    ensures parentValue == Some(JNull) ==> r == Err(TypeError)
    ensures parentValue != Some(JNull) ==>
              r == Ok(parentValue.Some? && IsEmptyContainer(parentValue.value))
  {
    match parentValue
    case Some(JArr(a)) => Ok(|a| == 0)
    case Some(JObj(m)) => Ok(|m| == 0)
    case Some(JNull) => Err(TypeError)
    case _ => Ok(false)
  }

  /** The empty-parent walk from `path` outward (index.ts:73-91): every
      prefix is visited, each one segment shorter, until none is left. */
  function PruneFrom(doc: Json, path: string): Json
    decreases |path|
  {
    if path == "" then doc else PruneFrom(PruneStep(doc, path), Parent(path))
  }

  /** One pruning step per path of `paths`, in order. */
  function PruneAlong(doc: Json, paths: seq<string>): Json
    decreases |paths|
  {
    if |paths| == 0 then doc else PruneAlong(PruneStep(doc, paths[0]), paths[1..])
  }

  /** The walk takes one pruning step at each path `Walk` lists: the
      `parentPath` values of the loop, innermost first. */
  lemma {:induction false} PruneFromWalk(doc: Json, path: string)
    ensures PruneFrom(doc, path) == PruneAlong(doc, Walk(path))
    decreases |path|
  {
    if path != "" {
      var w := Walk(path);
      assert w == [path] + Walk(Parent(path));
      assert w[1..] == Walk(Parent(path));
      PruneFromWalk(PruneStep(doc, path), Parent(path));
    }
  }

  /** The walk as the halting rule "stop at the first ancestor that is still
      there and is not empty" would have it. */
  function PruneHalting(doc: Json, path: string): Json
    decreases |path|
  {
    if path == "" then doc
    else match Get(doc, Split(path))
      case Some(x) =>
        if IsEmptyContainer(x) then PruneHalting(Remove(doc, Split(path)), Parent(path)) else doc
      case None => PruneHalting(doc, Parent(path))
  }

  /** Above a value that is present and not an empty container, nothing is pruned. */
  lemma {:induction false} PruneAbovePresent(doc: Json, path: string)
    requires path != ""
    requires Get(doc, Split(path)).Some? && !IsEmptyContainer(Get(doc, Split(path)).value)
    ensures PruneFrom(doc, Parent(path)) == doc
    decreases |path|
  {
    ParentSplit(path);
    if '.' in path && Parent(path) != "" {
      var s := Split(path);
      GetParentNonEmpty(doc, s);
      assert PruneStep(doc, Parent(path)) == doc;
      PruneAbovePresent(doc, Parent(path));
    }
  }

  /** The walk never stops early, but stopping at the first ancestor that is
      present and non-empty would give the same document. */
  lemma {:induction false} PruneFromIsHalting(doc: Json, path: string)
    ensures PruneFrom(doc, path) == PruneHalting(doc, path)
    decreases |path|
  {
    if path != "" {
      var s := Split(path);
      match Get(doc, s)
      case Some(x) =>
        if IsEmptyContainer(x) {
          PruneFromIsHalting(Remove(doc, s), Parent(path));
        } else {
          PruneAbovePresent(doc, path);
        }
      case None =>
        PruneFromIsHalting(doc, Parent(path));
    }
  }

  /** Number of leading segments `a` and `b` share. */
  function CommonPrefix(a: seq<string>, b: seq<string>): (k: nat)
    ensures k <= |a| && k <= |b| && a[..k] == b[..k]
    ensures k < |a| && k < |b| ==> a[k] != b[k]
    decreases |a|
  {
    if |a| == 0 || |b| == 0 || a[0] != b[0] then 0
    else
      var k := CommonPrefix(a[1..], b[1..]);
      assert a[..k + 1] == [a[0]] + a[1..][..k];
      assert b[..k + 1] == [b[0]] + b[1..][..k];
      k + 1
  }

  lemma CommonPrefixUnique(a: seq<string>, b: seq<string>, k: nat)
    requires k <= |a| && k <= |b| && a[..k] == b[..k]
    requires k < |a| && k < |b| ==> a[k] != b[k]
    ensures CommonPrefix(a, b) == k
  {
  }

  /** `q` leaves the chain of `s` below it, or branches off at an object. */
  predicate OffChain(doc: Json, s: seq<string>, q: seq<string>) {
    var k := CommonPrefix(s, q);
    || (k == |s| && |q| > |s|)
    || (k < |s| && k < |q| && ObjectAt(doc, s[..k]))
  }

  /** The walk leaves untouched every value that lies below the walked path
      or branches off its chain at an object. */
  lemma {:induction false} PruneFromPreserves(doc: Json, path: string, q: seq<string>)
    requires Get(doc, q).Some?
    requires OffChain(doc, Split(path), q)
    ensures Get(PruneFrom(doc, path), q) == Get(doc, q)
    decreases |path|
  {
    if path != "" {
      PruneStepPreserves(doc, path, q);
      ParentSplit(path);
      if '.' in path {
        OffChainParent(doc, path, q);
        PruneFromPreserves(PruneStep(doc, path), Parent(path), q);
      }
    }
  }

  /** One step of the walk keeps every value off the chain. */
  lemma PruneStepPreserves(doc: Json, path: string, q: seq<string>)
    requires Get(doc, q).Some?
    requires OffChain(doc, Split(path), q)
    ensures Get(PruneStep(doc, path), q) == Get(doc, q)
  {
    var s := Split(path);
    var k := CommonPrefix(s, q);
    if PruneStep(doc, path) != doc {
      if k == |s| {
        GetThroughEmpty(doc, s, q);
      } else {
        RemoveFrame(doc, s, q, k);
      }
    }
  }

  /** A path off the chain of `path` stays off the chain of its parent after the step. */
  lemma OffChainParent(doc: Json, path: string, q: seq<string>)
    requires '.' in path
    requires OffChain(doc, Split(path), q)
    ensures OffChain(PruneStep(doc, path), Split(Parent(path)), q)
  {
    var s := Split(path);
    var k := CommonPrefix(s, q);
    ParentSplit(path);
    var s' := Split(Parent(path));
    assert s' == s[..|s| - 1];
    if k < |s| - 1 {
      assert s'[..k] == s[..k];
      CommonPrefixUnique(s', q, k);
      if PruneStep(doc, path) != doc {
        RemoveKeepsObject(doc, s, k);
      }
    } else {
      assert q[..|s'|] == s' by {
        assert q[..|s'|] == q[..k][..|s'|];
      }
      CommonPrefixUnique(s', q, |s'|);
    }
  }

  /** The walk of index.ts:69-91 as a loop over `parentPath` that drops the
      last segment each time round, with the corrected emptiness test: a
      `null` parent stays, where the test as written throws (see
      `EmptyParentAsWritten`). */
  method PruneEmptyParents(doc: Json, sourcePath: string) returns (r: Json)
    ensures r == PruneHalting(doc, Parent(sourcePath))
  {
    var parentPath := Parent(sourcePath);
    r := doc;
    ghost var visited: seq<string> := [];
    while parentPath != ""
      invariant visited + Walk(parentPath) == Walk(Parent(sourcePath))
      invariant PruneFrom(r, parentPath) == PruneFrom(doc, Parent(sourcePath))
      decreases |parentPath|
    {
      var parentValue := Get(r, Split(parentPath));
      if parentValue.Some? && IsEmptyContainer(parentValue.value) {
        r := Remove(r, Split(parentPath));
      }
      assert Walk(parentPath) == [parentPath] + Walk(Parent(parentPath));
      visited := visited + [parentPath];
      parentPath := Parent(parentPath);
    }
    PruneFromIsHalting(doc, Parent(sourcePath));
  }

  /** What follows a successful write (index.ts:62-93): only when unmapped
      values are kept and mapped values are deleted is the source removed,
      and then its emptied ancestors pruned if `deleteEmptyParents`. */
  function Cleanup(doc: Json, sourcePath: string, f: Flags): (r: Json)
    ensures !(f.keepUnmappedValues && f.deleteMappedValues) ==> r == doc
    ensures f.keepUnmappedValues && f.deleteMappedValues && !f.deleteEmptyParents
            && |Split(sourcePath)| > 1 && ObjectAt(doc, DropLast(Split(sourcePath))) ==>
              Get(r, Split(sourcePath)).None?
    ensures f.keepUnmappedValues && f.deleteMappedValues && '.' !in sourcePath ==>
              r == Remove(doc, [sourcePath])
  {
    if f.keepUnmappedValues && f.deleteMappedValues then
      var s := Split(sourcePath);
      var removed := Remove(doc, s);
      assert s == DropLast(s) + [Last(s)];
      GetAppend(removed, DropLast(s), [Last(s)]);
      SplitNoDot(sourcePath);
      if f.deleteEmptyParents then PruneFrom(removed, Parent(sourcePath)) else removed
    else doc
  }

  /** The cleanup leaves untouched every value whose path branches off the
      source path at an object: siblings of the source and of its pruned
      ancestors keep their values. */
  lemma CleanupPreservesOffChain(doc: Json, sourcePath: string, f: Flags, q: seq<string>, k: nat)
    requires Get(doc, q).Some?
    requires DivergeAt(Split(sourcePath), q, k) && ObjectAt(doc, Split(sourcePath)[..k])
    ensures Get(Cleanup(doc, sourcePath, f), q) == Get(doc, q)
  {
    var s := Split(sourcePath);
    if f.keepUnmappedValues && f.deleteMappedValues {
      var removed := Remove(doc, s);
      RemoveFrame(doc, s, q, k);
      if f.deleteEmptyParents {
        assert Cleanup(doc, sourcePath, f) == PruneFrom(removed, Parent(sourcePath));
        ParentSplit(sourcePath);
        if '.' in sourcePath {
          RemovedOffChain(doc, sourcePath, q, k);
          PruneFromPreserves(removed, Parent(sourcePath), q);
        }
      } else {
        assert Cleanup(doc, sourcePath, f) == removed;
      }
    }
  }

  /** With deletion on, a source whose every proper prefix is an object is
      gone after the cleanup, whether or not emptied parents are pruned. */
  lemma CleanupRemovesSource(doc: Json, sourcePath: string, f: Flags)
    requires f.keepUnmappedValues && f.deleteMappedValues
    requires forall i :: 0 <= i < |Split(sourcePath)| ==> ObjectAt(doc, Split(sourcePath)[..i])
    ensures Get(Cleanup(doc, sourcePath, f), Split(sourcePath)).None?
  {
    var s := Split(sourcePath);
    var removed := Remove(doc, s);
    RemovedUnderObject(doc, s, s);
    assert Cleanup(doc, sourcePath, f) == if f.deleteEmptyParents then PruneFrom(removed, Parent(sourcePath)) else removed;
    if f.deleteEmptyParents && '.' in sourcePath {
      ParentSplit(sourcePath);
      var sp := Split(Parent(sourcePath));
      assert sp == s[..|sp|];
      forall i | 0 <= i < |sp|
        ensures ObjectAt(removed, s[..i])
      {
        RemoveKeepsObject(doc, s, i);
      }
      PruneFromKeepsGone(removed, Parent(sourcePath), s);
    }
  }

  /** Removing a slot of an object leaves nothing at or below that slot. */
  lemma RemovedUnderObject(doc: Json, p: seq<string>, q: seq<string>)
    requires |p| > 0 && ObjectAt(doc, DropLast(p))
    requires |q| >= |p| && q[..|p|] == p
    ensures Get(Remove(doc, p), q).None?
  {
    var r := Remove(doc, p);
    RemovedSlotGone(doc, p);
    assert q == p + q[|p|..];
    GetAppend(r, p, q[|p|..]);
  }

  lemma RemovedSlotGone(doc: Json, p: seq<string>)
    requires |p| > 0 && ObjectAt(doc, DropLast(p))
    ensures Get(Remove(doc, p), p).None?
  {
    var r := Remove(doc, p);
    var up := p[..|p| - 1];
    assert up == DropLast(p);
    assert Get(r, up) == Some(DropChild(Get(doc, up).value, p[|p| - 1]));
    GetLastStep(r, p);
  }

  /** Pruning the ancestors of a missing path never brings it back, as long
      as each ancestor the walk may remove sits in an object. */
  lemma {:induction false} PruneFromKeepsGone(doc: Json, path: string, s: seq<string>)
    requires Get(doc, s).None?
    requires path != "" ==> |Split(path)| < |s| && Split(path) == s[..|Split(path)|]
    requires path != "" ==> forall i :: 0 <= i < |Split(path)| ==> ObjectAt(doc, s[..i])
    ensures Get(PruneFrom(doc, path), s).None?
    decreases |path|
  {
    if path != "" {
      var t := Split(path);
      var step := PruneStep(doc, path);
      if step != doc {
        assert step == Remove(doc, t);
        assert DropLast(t) == s[..|t| - 1];
        RemovedUnderObject(doc, t, s);
      }
      if '.' in path {
        ParentSplit(path);
        var t' := Split(Parent(path));
        assert t' == s[..|t'|];
        forall i | 0 <= i < |t'|
          ensures ObjectAt(step, s[..i])
        {
          if step != doc {
            assert t[..i] == s[..i];
            RemoveKeepsObject(doc, t, i);
          }
        }
        PruneFromKeepsGone(step, Parent(path), s);
      }
    }
  }

  /** After the source is removed, a path that parted from it at an object
      is off the chain of the source's parent. */
  lemma RemovedOffChain(doc: Json, sourcePath: string, q: seq<string>, k: nat)
    requires '.' in sourcePath
    requires DivergeAt(Split(sourcePath), q, k) && ObjectAt(doc, Split(sourcePath)[..k])
    ensures OffChain(Remove(doc, Split(sourcePath)), Split(Parent(sourcePath)), q)
  {
    var s := Split(sourcePath);
    ParentSplit(sourcePath);
    var s' := Split(Parent(sourcePath));
    assert s' == s[..|s| - 1];
    if k < |s| - 1 {
      assert s'[..k] == s[..k];
      CommonPrefixUnique(s', q, k);
      RemoveKeepsObject(doc, s, k);
    } else {
      assert q[..|s'|] == s';
      CommonPrefixUnique(s', q, |s'|);
    }
  }

  /** One rule (index.ts:39-95). Sources are read from the working document
      when unmapped values are kept, otherwise from the input. */
  function ApplyRule(input: Json, work: Json, rule: Rule, f: Flags): (r: Json)
    ensures var (src, tgt) := SelectPaths(rule, f.reverse);
            var base := if f.keepUnmappedValues then work else input;
            && (Get(base, Split(src)).None? ==> r == work)
            && (Get(base, Split(src)).Some? && !(f.keepUnmappedValues && f.deleteMappedValues) ==>
                  r == Write(work, tgt, Get(base, Split(src)).value))
  {
    var (src, tgt) := SelectPaths(rule, f.reverse);
    var base := if f.keepUnmappedValues then work else input;
    match Get(base, Split(src))
    case None => work
    case Some(v) => Cleanup(Write(work, tgt, v), src, f)
  }

  /** The move of a rule (index.ts:53-91): with deletion on, a value read
      from the source lands at a target that parts from the source at an
      object, and neither the source removal nor the pruning disturbs it. */
  lemma MoveLandsAtTarget(input: Json, work: Json, rule: Rule, f: Flags, k: nat)
    requires var (src, tgt) := SelectPaths(rule, f.reverse);
             var base := if f.keepUnmappedValues then work else input;
             && Get(base, Split(src)).Some?
             && !(Get(base, Split(src)).value.JArr? && '*' in tgt)
             && DivergeAt(Split(src), Split(tgt), k)
             && ObjectAt(Write(work, tgt, Get(base, Split(src)).value), Split(src)[..k])
    ensures var (src, tgt) := SelectPaths(rule, f.reverse);
            var base := if f.keepUnmappedValues then work else input;
            Get(ApplyRule(input, work, rule, f), Split(tgt)) == Get(base, Split(src))
  {
    var (src, tgt) := SelectPaths(rule, f.reverse);
    var base := if f.keepUnmappedValues then work else input;
    var v := Get(base, Split(src)).value;
    var written := Write(work, tgt, v);
    assert ApplyRule(input, work, rule, f) == Cleanup(written, src, f);
    CleanupPreservesOffChain(written, src, f, Split(tgt), k);
  }

  /** Nothing else changes: a value present in the working document keeps
      its value through a rule whose value is not fanned out, when its path
      parts from the target at a segment of the same kind and from the
      source at an object. In preserving mode this is how fields no rule
      mentions survive. */
  lemma ApplyRuleFrame(input: Json, work: Json, rule: Rule, f: Flags, q: seq<string>, kt: nat, ks: nat)
    requires var (src, tgt) := SelectPaths(rule, f.reverse);
             var base := if f.keepUnmappedValues then work else input;
             && Get(work, q).Some?
             && (Get(base, Split(src)).Some? ==>
                   var v := Get(base, Split(src)).value;
                   && !(v.JArr? && '*' in tgt)
                   && DivergeAt(Split(tgt), q, kt)
                   && IndexOf(Split(tgt)[kt]).Some? == IndexOf(q[kt]).Some?
                   && DivergeAt(Split(src), q, ks)
                   && ObjectAt(Write(work, tgt, v), Split(src)[..ks]))
    ensures Get(ApplyRule(input, work, rule, f), q) == Get(work, q)
  {
    var (src, tgt) := SelectPaths(rule, f.reverse);
    var base := if f.keepUnmappedValues then work else input;
    if Get(base, Split(src)).Some? {
      var v := Get(base, Split(src)).value;
      var written := Write(work, tgt, v);
      assert ApplyRule(input, work, rule, f) == Cleanup(written, src, f);
      SetPreserves(work, Split(tgt), q, kt, v);
      assert Get(written, q) == Get(work, q);
      CleanupPreservesOffChain(written, src, f, q, ks);
    }
  }

  /** The rules applied in order, each to the document the previous one left. */
  function ApplyRules(input: Json, work: Json, rules: seq<Rule>, f: Flags): Json
    decreases |rules|
  {
    if |rules| == 0 then work
    else ApplyRules(input, ApplyRule(input, work, rules[0], f), rules[1..], f)
  }

  /** Folding from the back: the last rule runs on what all the rules before
      it left (the `forEach` of index.ts:39 takes the rules in order). */
  lemma {:induction false} ApplyRulesLast(input: Json, work: Json, rules: seq<Rule>, f: Flags)
    requires |rules| > 0
    ensures ApplyRules(input, work, rules, f)
         == ApplyRule(input, ApplyRules(input, work, DropLast(rules), f), Last(rules), f)
    decreases |rules|
  {
    var next := ApplyRule(input, work, rules[0], f);
    if |rules| == 1 {
      assert ApplyRules(input, next, rules[1..], f) == next;
      assert ApplyRules(input, work, DropLast(rules), f) == work;
    } else {
      ApplyRulesLast(input, next, rules[1..], f);
      assert DropLast(rules)[1..] == DropLast(rules[1..]);
      assert Last(rules[1..]) == Last(rules);
    }
  }

  /** `remap(jsonData, remappingDefinition, options)` (index.ts:10-98). The
      input is `None` for `undefined`; the rules are the definition's entries
      in key order. */
  function Remap(doc: Option<Json>, rules: seq<Rule>, options: Options): (r: Json)
    ensures doc.None? || doc == Some(JNull) ==> r == JNull
    ensures doc.Some? && doc.value != JNull && |rules| == 0 ==>
              r == InitialWorking(doc.value, Resolve(options).keepUnmappedValues)
  {
    match doc
    case None => JNull
    case Some(input) =>
      if input == JNull then JNull
      else
        var f := Resolve(options);
        ApplyRules(input, InitialWorking(input, f.keepUnmappedValues), rules, f)
  }

  /** Every rule with its key and value exchanged. */
  function Swapped(rules: seq<Rule>): (r: seq<Rule>)
    ensures |r| == |rules|
    ensures forall i :: 0 <= i < |rules| ==> r[i] == (rules[i].1, rules[i].0)
  {
    seq(|rules|, i requires 0 <= i < |rules| => (rules[i].1, rules[i].0))
  }

  lemma {:induction false} ApplyRulesReverse(input: Json, work: Json, rules: seq<Rule>, f: Flags)
    ensures ApplyRules(input, work, rules, f.(reverse := true))
         == ApplyRules(input, work, Swapped(rules), f.(reverse := false))
    decreases |rules|
  {
    if |rules| > 0 {
      var sw := Swapped(rules);
      assert sw[1..] == Swapped(rules[1..]);
      assert ApplyRule(input, work, rules[0], f.(reverse := true))
          == ApplyRule(input, work, sw[0], f.(reverse := false));
      ApplyRulesReverse(input, ApplyRule(input, work, rules[0], f.(reverse := true)), rules[1..], f);
    }
  }

  /** Under `reverse` every rule runs with its key and value swapped; nothing
      else about the run changes. */
  lemma ReverseIsSwap(doc: Option<Json>, rules: seq<Rule>, options: Options)
    ensures Remap(doc, rules, options.(reverse := Some(true)))
         == Remap(doc, Swapped(rules), options.(reverse := Some(false)))
  {
    if doc.Some? && doc.value != JNull {
      var f := Resolve(options);
      assert Resolve(options.(reverse := Some(true))) == f.(reverse := true);
      assert Resolve(options.(reverse := Some(false))) == f.(reverse := false);
      ApplyRulesReverse(doc.value, InitialWorking(doc.value, f.keepUnmappedValues), rules, f);
    }
  }

  /** The non-preserving run described independently: each rule whose source
      resolves in the input writes into the output; nothing is ever removed. */
  function TransferAll(input: Json, work: Json, rules: seq<Rule>, reverse: bool): Json
    decreases |rules|
  {
    if |rules| == 0 then work
    else
      var (src, tgt) := SelectPaths(rules[0], reverse);
      var next := match Get(input, Split(src))
        case None => work
        case Some(v) => Write(work, tgt, v);
      TransferAll(input, next, rules[1..], reverse)
  }

  lemma {:induction false} ApplyRulesNonPreserving(input: Json, work: Json, rules: seq<Rule>, f: Flags)
    requires !f.keepUnmappedValues
    ensures ApplyRules(input, work, rules, f) == TransferAll(input, work, rules, f.reverse)
    decreases |rules|
  {
    if |rules| > 0 {
      ApplyRulesNonPreserving(input, ApplyRule(input, work, rules[0], f), rules[1..], f);
    }
  }

  /** With `keepUnmappedValues` off, the output starts as an empty array or
      object, sources are read from the untouched input, and only writes
      happen: no source removal, no pruning. */
  lemma NonPreservingOnlyWrites(doc: Json, rules: seq<Rule>, options: Options)
    requires doc != JNull
    requires options.keepUnmappedValues == Some(false)
    ensures Remap(Some(doc), rules, options)
         == TransferAll(doc, if doc.JArr? then JArr([]) else JObj(map[]), rules, options.reverse == Some(true))
  {
    ApplyRulesNonPreserving(doc, InitialWorking(doc, false), rules, Resolve(options));
  }

  /** With `keepUnmappedValues` off, the two deletion switches make no difference. */
  lemma NonPreservingIgnoresDeleteFlags(doc: Option<Json>, rules: seq<Rule>, o1: Options, o2: Options)
    requires o1.keepUnmappedValues == Some(false) && o2.keepUnmappedValues == Some(false)
    requires o1.reverse == o2.reverse
    ensures Remap(doc, rules, o1) == Remap(doc, rules, o2)
  {
    if doc.Some? && doc.value != JNull {
      NonPreservingOnlyWrites(doc.value, rules, o1);
      NonPreservingOnlyWrites(doc.value, rules, o2);
    }
  }
}
