/** Worked runs of the remapper on small documents, one per documented
    behaviour: moving and pruning, keeping the source, stopping at a
    non-empty ancestor, fan-out, and rules that build on earlier rules. */
module Scenarios {
  import opened Wrappers
  import opened Decimal
  import opened Paths
  import opened Document
  import opened DotPath
  import opened Remapper

  const Defaults := Flags(false, true, true, true)

  lemma SplitAB()
    ensures Split("a.b") == ["a", "b"] && Parent("a.b") == "a"
  {
    SplitJoin(["a", "b"]);
    assert Join(["a", "b"]) == "a.b";
  }

  lemma SplitSingle(s: string)
    requires '.' !in s
    ensures Split(s) == [s] && Parent(s) == ""
  {
    SplitNoDot(s);
  }

  lemma SetTop(m: map<string, Json>, k: string, v: Json)
    ensures Set(JObj(m), [k], v) == JObj(m[k := v])
  {
    assert [k][1..] == [];
  }

  lemma RemoveTop(m: map<string, Json>, k: string)
    ensures Remove(JObj(m), [k]) == JObj(m - {k})
  {
  }

  lemma RemoveNested(m: map<string, Json>, a: string, inner: map<string, Json>, b: string)
    requires a in m && m[a] == JObj(inner)
    ensures Remove(JObj(m), [a, b]) == JObj(m[a := JObj(inner - {b})])
  {
    var p := [a, b];
    assert p[1..] == [b];
    RemoveTop(inner, b);
  }

  lemma ReplaceFirstKey(a: string, x: string, before: Json, after: Json, v: Json)
    requires a != x
    ensures map[a := before, x := v][a := after] == map[a := after, x := v]
  {
  }

  /** A run of one rule is that rule applied to the starting document. */
  lemma RemapOneRule(input: Json, rule: Rule, options: Options)
    requires input != JNull
    ensures Remap(Some(input), [rule], options)
         == ApplyRule(input, InitialWorking(input, Resolve(options).keepUnmappedValues), rule, Resolve(options))
  {
    var f := Resolve(options);
    var w := InitialWorking(input, f.keepUnmappedValues);
    assert ApplyRules(input, w, [rule], f) == ApplyRules(input, ApplyRule(input, w, rule, f), [], f);
  }

  lemma MoveAndPruneRemove(v: Json)
    ensures Remove(JObj(map["a" := JObj(map["b" := v]), "x" := v]), ["a", "b"]) == JObj(map["a" := JObj(map[]), "x" := v])
  {
    var m := map["a" := JObj(map["b" := v]), "x" := v];
    RemoveNested(m, "a", map["b" := v], "b");
    assert map["b" := v] - {"b"} == map[];
    ReplaceFirstKey("a", "x", JObj(map["b" := v]), JObj(map[]), v);
  }

  lemma MoveAndPrunePrune(v: Json)
    ensures PruneFrom(JObj(map["a" := JObj(map[]), "x" := v]), "a") == JObj(map["x" := v])
  {
    SplitSingle("a");
    var removed := JObj(map["a" := JObj(map[]), "x" := v]);
    assert Get(removed, ["a"]) == Some(JObj(map[]));
    assert map["a" := JObj(map[]), "x" := v] - {"a"} == map["x" := v];
    assert PruneStep(removed, "a") == JObj(map["x" := v]);
  }

  lemma MoveAndPruneCleanup(v: Json)
    ensures Cleanup(JObj(map["a" := JObj(map["b" := v]), "x" := v]), "a.b", Defaults) == JObj(map["x" := v])
  {
    SplitAB();
    MoveAndPruneRemove(v);
    MoveAndPrunePrune(v);
  }

  lemma MoveAndPruneApply(v: Json)
    ensures ApplyRule(JObj(map["a" := JObj(map["b" := v])]), JObj(map["a" := JObj(map["b" := v])]), ("a.b", "x"), Defaults)
         == JObj(map["x" := v])
  {
    var input := JObj(map["a" := JObj(map["b" := v])]);
    SplitAB();
    SplitSingle("x");
    assert Get(input, ["a", "b"]) == Some(v);
    assert Write(input, "x", v) == JObj(map["a" := JObj(map["b" := v]), "x" := v]);
    MoveAndPruneCleanup(v);
  }

  /** `{a: {b: v}}` with `a.b -> x` and default options gives `{x: v}`:
      the value moves and the emptied `a` is pruned. */
  lemma MoveAndPrune(v: Json)
    ensures Remap(Some(JObj(map["a" := JObj(map["b" := v])])), [("a.b", "x")], NoOptions)
         == JObj(map["x" := v])
  {
    assert Resolve(NoOptions) == Defaults;
    RemapOneRule(JObj(map["a" := JObj(map["b" := v])]), ("a.b", "x"), NoOptions);
    MoveAndPruneApply(v);
  }

  lemma KeepSourceApply(v: Json)
    ensures ApplyRule(JObj(map["a" := JObj(map["b" := v])]), JObj(map["a" := JObj(map["b" := v])]), ("a.b", "x"),
                      Defaults.(deleteMappedValues := false))
         == JObj(map["a" := JObj(map["b" := v]), "x" := v])
  {
    var input := JObj(map["a" := JObj(map["b" := v])]);
    SplitAB();
    SplitSingle("x");
    assert Get(input, ["a", "b"]) == Some(v);
    assert Set(input, ["x"], v) == JObj(map["a" := JObj(map["b" := v]), "x" := v]);
  }

  /** With `deleteMappedValues` off the source stays: `{a: {b: v}, x: v}`. */
  lemma KeepSource(v: Json)
    ensures Remap(Some(JObj(map["a" := JObj(map["b" := v])])), [("a.b", "x")],
                  NoOptions.(deleteMappedValues := Some(false)))
         == JObj(map["a" := JObj(map["b" := v]), "x" := v])
  {
    assert Resolve(NoOptions.(deleteMappedValues := Some(false))) == Defaults.(deleteMappedValues := false);
    RemapOneRule(JObj(map["a" := JObj(map["b" := v])]), ("a.b", "x"), NoOptions.(deleteMappedValues := Some(false)));
    KeepSourceApply(v);
  }

  lemma NonEmptyParentRemove(v: Json, w: Json)
    ensures Remove(JObj(map["a" := JObj(map["b" := v, "c" := w]), "x" := v]), ["a", "b"])
         == JObj(map["a" := JObj(map["c" := w]), "x" := v])
  {
    var m := map["a" := JObj(map["b" := v, "c" := w]), "x" := v];
    RemoveNested(m, "a", map["b" := v, "c" := w], "b");
    assert map["b" := v, "c" := w] - {"b"} == map["c" := w];
    ReplaceFirstKey("a", "x", JObj(map["b" := v, "c" := w]), JObj(map["c" := w]), v);
  }

  lemma NonEmptyParentPrune(v: Json, w: Json)
    ensures PruneFrom(JObj(map["a" := JObj(map["c" := w]), "x" := v]), "a")
         == JObj(map["a" := JObj(map["c" := w]), "x" := v])
  {
    SplitSingle("a");
    var removed := JObj(map["a" := JObj(map["c" := w]), "x" := v]);
    assert Get(removed, ["a"]) == Some(JObj(map["c" := w]));
    assert PruneStep(removed, "a") == removed;
  }

  lemma NonEmptyParentApply(v: Json, w: Json)
    ensures ApplyRule(JObj(map["a" := JObj(map["b" := v, "c" := w])]), JObj(map["a" := JObj(map["b" := v, "c" := w])]),
                      ("a.b", "x"), Defaults)
         == JObj(map["a" := JObj(map["c" := w]), "x" := v])
  {
    var input := JObj(map["a" := JObj(map["b" := v, "c" := w])]);
    SplitAB();
    SplitSingle("x");
    assert Get(input, ["a", "b"]) == Some(v);
    assert Write(input, "x", v) == JObj(map["a" := JObj(map["b" := v, "c" := w]), "x" := v]);
    NonEmptyParentRemove(v, w);
    NonEmptyParentPrune(v, w);
  }

  /** A parent that still has entries is kept: `{a: {b: v, c: w}}` with
      `a.b -> x` gives `{a: {c: w}, x: v}`. */
  lemma NonEmptyParentStays(v: Json, w: Json)
    ensures Remap(Some(JObj(map["a" := JObj(map["b" := v, "c" := w])])), [("a.b", "x")], NoOptions)
         == JObj(map["a" := JObj(map["c" := w]), "x" := v])
  {
    assert Resolve(NoOptions) == Defaults;
    RemapOneRule(JObj(map["a" := JObj(map["b" := v, "c" := w])]), ("a.b", "x"), NoOptions);
    NonEmptyParentApply(v, w);
  }

  /** A top-level key moved to another top-level key, with its source deleted. */
  lemma MoveTopLevel(m: map<string, Json>, src: string, tgt: string, v: Json)
    requires '.' !in src && '.' !in tgt && '*' !in tgt && src != tgt
    requires src in m && m[src] == v
    ensures ApplyRule(JObj(m), JObj(m), (src, tgt), Defaults) == JObj(m[tgt := v] - {src})
  {
    SplitSingle(src);
    SplitSingle(tgt);
    assert Get(JObj(m), [src]) == Some(v);
    SetTop(m, tgt, v);
    var written := JObj(m[tgt := v]);
    assert Write(JObj(m), tgt, v) == written;
    assert Cleanup(written, src, Defaults) == Remove(written, [src]);
    RemoveTop(m[tgt := v], src);
  }

  /** A run of two rules is the second applied to what the first left. */
  lemma RemapTwoRules(input: Json, r1: Rule, r2: Rule, options: Options)
    requires input != JNull
    ensures var f := Resolve(options);
            (Remap(Some(input), [r1, r2], options)
             == ApplyRule(input, ApplyRule(input, InitialWorking(input, f.keepUnmappedValues), r1, f), r2, f))
  {
    var f := Resolve(options);
    var w := InitialWorking(input, f.keepUnmappedValues);
    var rules := [r1, r2];
    assert rules[1..] == [r2];
    var mid := ApplyRule(input, w, r1, f);
    assert ApplyRules(input, w, rules, f) == ApplyRules(input, mid, [r2], f);
    assert ApplyRules(input, mid, [r2], f) == ApplyRules(input, ApplyRule(input, mid, r2, f), [], f);
  }

  lemma MapMove(k1: string, k2: string, v: Json)
    requires k1 != k2
    ensures map[k1 := v][k2 := v] - {k1} == map[k2 := v]
  {
  }

  /** When unmapped values are kept, the second rule reads what the first
      one wrote: `{a: v}` with `a -> b` then `b -> c` gives `{c: v}`. */
  lemma LaterRuleSeesEarlierWrite(v: Json)
    ensures Remap(Some(JObj(map["a" := v])), [("a", "b"), ("b", "c")], NoOptions)
         == JObj(map["c" := v])
  {
    var input := JObj(map["a" := v]);
    assert Resolve(NoOptions) == Defaults;
    RemapTwoRules(input, ("a", "b"), ("b", "c"), NoOptions);
    assert '*' !in "b" && '*' !in "c";
    MoveTopLevel(map["a" := v], "a", "b", v);
    MapMove("a", "b", v);
    MoveTopLevel(map["b" := v], "b", "c", v);
    MapMove("b", "c", v);
  }

  /** Without unmapped values, sources come from the input, so the second
      rule finds no `b`: the same run gives `{b: v}`. */
  lemma NonPreservingReadsInput(v: Json)
    ensures Remap(Some(JObj(map["a" := v])), [("a", "b"), ("b", "c")],
                  NoOptions.(keepUnmappedValues := Some(false)))
         == JObj(map["b" := v])
  {
    var input := JObj(map["a" := v]);
    var f := Defaults.(keepUnmappedValues := false);
    assert Resolve(NoOptions.(keepUnmappedValues := Some(false))) == f;
    SplitSingle("a");
    SplitSingle("b");
    var start := JObj(map[]);
    assert InitialWorking(input, false) == start;
    var mid := JObj(map["b" := v]);
    assert Set(start, ["b"], v) == mid;
    assert ApplyRule(input, start, ("a", "b"), f) == mid;
    assert Get(input, ["b"]) == None;
    assert ApplyRule(input, mid, ("b", "c"), f) == mid;
    var rules := [("a", "b"), ("b", "c")];
    assert rules[1..] == [("b", "c")];
    assert ApplyRules(input, start, rules, f) == ApplyRules(input, mid, [("b", "c")], f);
    assert ApplyRules(input, mid, [("b", "c")], f) == ApplyRules(input, mid, [], f);
  }

  lemma SplitABC()
    ensures Split("a.b.c") == ["a", "b", "c"] && Parent("a.b.c") == "a.b"
  {
    SplitJoin(["a", "b", "c"]);
    assert Join(["a", "b", "c"]) == "a.b.c";
  }

  lemma RemoveUnder(m: map<string, Json>, a: string, q: seq<string>)
    requires a in m && |q| >= 1
    ensures Remove(JObj(m), [a] + q) == JObj(m[a := Remove(m[a], q)])
  {
    assert ([a] + q)[1..] == q;
  }

  lemma ChainRemoveSource(v: Json)
    ensures Remove(JObj(map["a" := JObj(map["b" := JObj(map["c" := v])]), "x" := v]), ["a", "b", "c"])
         == JObj(map["a" := JObj(map["b" := JObj(map[])]), "x" := v])
  {
    var m := map["a" := JObj(map["b" := JObj(map["c" := v])]), "x" := v];
    assert ["a", "b", "c"] == ["a"] + ["b", "c"];
    RemoveUnder(m, "a", ["b", "c"]);
    RemoveNested(map["b" := JObj(map["c" := v])], "b", map["c" := v], "c");
    assert map["c" := v] - {"c"} == map[];
    Overwrite(map[], "b", JObj(map["c" := v]), JObj(map[]));
    ReplaceFirstKey("a", "x", JObj(map["b" := JObj(map["c" := v])]), JObj(map["b" := JObj(map[])]), v);
  }

  lemma ChainPruneInner(v: Json)
    ensures PruneStep(JObj(map["a" := JObj(map["b" := JObj(map[])]), "x" := v]), "a.b")
         == JObj(map["a" := JObj(map[]), "x" := v])
  {
    SplitAB();
    var m := map["a" := JObj(map["b" := JObj(map[])]), "x" := v];
    assert Get(JObj(m), ["a", "b"]) == Some(JObj(map[]));
    RemoveNested(m, "a", map["b" := JObj(map[])], "b");
    assert map["b" := JObj(map[])] - {"b"} == map[];
    ReplaceFirstKey("a", "x", JObj(map["b" := JObj(map[])]), JObj(map[]), v);
  }

  lemma ChainPruneOuter(v: Json)
    ensures PruneFrom(JObj(map["a" := JObj(map[]), "x" := v]), "a") == JObj(map["x" := v])
  {
    SplitSingle("a");
    var m := map["a" := JObj(map[]), "x" := v];
    assert Get(JObj(m), ["a"]) == Some(JObj(map[]));
    RemoveTop(m, "a");
    assert m - {"a"} == map["x" := v];
  }

  lemma ChainPrune(v: Json)
    ensures PruneFrom(JObj(map["a" := JObj(map["b" := JObj(map[])]), "x" := v]), "a.b")
         == JObj(map["x" := v])
  {
    SplitAB();
    ChainPruneInner(v);
    ChainPruneOuter(v);
  }

  lemma ChainRead(v: Json)
    ensures Get(JObj(map["a" := JObj(map["b" := JObj(map["c" := v])])]), ["a", "b", "c"]) == Some(v)
  {
    var p := ["a", "b", "c"];
    assert p[1..] == ["b", "c"];
    assert p[1..][1..] == ["c"];
  }

  lemma ChainCleanup(v: Json)
    ensures Cleanup(JObj(map["a" := JObj(map["b" := JObj(map["c" := v])]), "x" := v]), "a.b.c", Defaults)
         == JObj(map["x" := v])
  {
    SplitABC();
    ChainRemoveSource(v);
    ChainPrune(v);
  }

  lemma ChainApply(v: Json)
    ensures ApplyRule(JObj(map["a" := JObj(map["b" := JObj(map["c" := v])])]),
                      JObj(map["a" := JObj(map["b" := JObj(map["c" := v])])]),
                      ("a.b.c", "x"), Defaults)
         == JObj(map["x" := v])
  {
    var m := map["a" := JObj(map["b" := JObj(map["c" := v])])];
    SplitABC();
    SplitSingle("x");
    ChainRead(v);
    SetTop(m, "x", v);
    assert m["x" := v] == map["a" := JObj(map["b" := JObj(map["c" := v])]), "x" := v];
    assert Write(JObj(m), "x", v) == JObj(map["a" := JObj(map["b" := JObj(map["c" := v])]), "x" := v]);
    ChainCleanup(v);
  }

  /** Emptied ancestors are pruned in turn: `{a: {b: {c: v}}}` with
      `a.b.c -> x` gives `{x: v}`. */
  lemma PruneWholeChain(v: Json)
    ensures Remap(Some(JObj(map["a" := JObj(map["b" := JObj(map["c" := v])])])), [("a.b.c", "x")], NoOptions)
         == JObj(map["x" := v])
  {
    assert Resolve(NoOptions) == Defaults;
    RemapOneRule(JObj(map["a" := JObj(map["b" := JObj(map["c" := v])])]), ("a.b.c", "x"), NoOptions);
    ChainApply(v);
  }

  lemma NullParentSteps()
    ensures Set(JObj(map["a" := JObj(map["b" := JNull])]), ["a"], JNull) == JObj(map["a" := JNull])
    ensures Get(JObj(map["a" := JNull]), ["a", "b"]) == None
    ensures Get(JObj(map["a" := JNull]), ["a"]) == Some(JNull)
  {
  }

  /** The write and the source removal of the `null`-parent run. */
  lemma NullParentWrite()
    ensures Write(JObj(map["a" := JObj(map["b" := JNull])]), "a", JNull) == JObj(map["a" := JNull])
    ensures Remove(JObj(map["a" := JNull]), Split("a.b")) == JObj(map["a" := JNull])
    ensures Split("a.b") == ["a", "b"] && Parent("a.b") == "a"
  {
    SplitAB();
    SplitSingle("a");
    NullParentSteps();
  }

  lemma NullParentApply()
    ensures ApplyRule(JObj(map["a" := JObj(map["b" := JNull])]), JObj(map["a" := JObj(map["b" := JNull])]),
                      ("a.b", "a"), Defaults)
         == JObj(map["a" := JNull])
  {
    var input := JObj(map["a" := JObj(map["b" := JNull])]);
    var written := JObj(map["a" := JNull]);
    NullParentWrite();
    SplitSingle("a");
    NullParentSteps();
    assert Get(input, ["a", "b"]) == Some(JNull);
    assert PruneStep(written, "a") == written;
    assert PruneFrom(written, "a") == written;
  }

  /** `{a: {b: null}}` with `a.b -> a`: after the write `a` holds `null`, the
      walk reaches `a`, and the emptiness test as written throws; the model
      leaves the `null` in place and returns `{a: null}`. */
  lemma NullParentThrows()
    ensures var input := JObj(map["a" := JObj(map["b" := JNull])]);
            var written := Write(input, "a", JNull);
            var removed := Remove(written, Split("a.b"));
            && Parent("a.b") == "a"
            && EmptyParentAsWritten(Get(removed, Split(Parent("a.b")))) == Err(TypeError)
            && Remap(Some(input), [("a.b", "a")], NoOptions) == JObj(map["a" := JNull])
  {
    var input := JObj(map["a" := JObj(map["b" := JNull])]);
    NullParentWrite();
    SplitSingle("a");
    NullParentSteps();
    assert Resolve(NoOptions) == Defaults;
    RemapOneRule(input, ("a.b", "a"), NoOptions);
    NullParentApply();
  }

  // The fan-out scenarios below name the target `out.*.val` through a
  // parameter pinned by `requires t == "out.*.val"` instead of writing the
  // string in place: on a literal argument the verifier unfolds `Split` and
  // `ReplaceFirst` character by character, which the parameter avoids.

  lemma SubstituteOut(i: nat)
    ensures Substitute("out.*.val", i) == "out." + NatToString(i) + ".val"
  {
    assert "out.*.val" == "out." + "*" + ".val";
    ReplaceFirstAt("out.", ".val", NatToString(i));
  }

  lemma SplitOut(d: string)
    requires '.' !in d
    ensures Split("out." + d + ".val") == ["out", d, "val"]
  {
    SplitThreeJoined("out", d, "val", "out.", ".val");
  }

  lemma SplitThreeJoined(x: string, d: string, y: string, xd: string, dy: string)
    requires '.' !in x && '.' !in d && '.' !in y
    requires xd == x + "." && dy == "." + y
    ensures Split(xd + d + dy) == [x, d, y]
  {
    SplitThree(x, d, y);
    assert xd + d + dy == x + "." + d + "." + y;
  }

  lemma SplitThree(x: string, d: string, y: string)
    requires '.' !in x && '.' !in d && '.' !in y
    ensures Split(x + "." + d + "." + y) == [x, d, y]
  {
    var xd := x + ("." + d);
    assert Split(xd) == [x, d] by {
      SplitNoDot(x);
      SplitDotSuffix(x, d);
    }
    assert Split(xd + ("." + y)) == [x, d, y] by {
      SplitDotSuffix(xd, y);
    }
    assert x + "." + d + "." + y == xd + ("." + y);
  }

  lemma FanOutPath(i: nat)
    ensures Split(Substitute("out.*.val", i)) == ["out", NatToString(i), "val"]
    ensures IndexOf(NatToString(i)) == Some(i)
  {
    var d := NatToString(i);
    assert !IsDigit('.');
    assert '.' !in d;
    SubstituteOut(i);
    SplitOut(d);
    IndexOfNatToString(i);
  }

  /** `val` is an object key, not an array index (pinned as a parameter, as above). */
  lemma ValIsKey(k: string)
    requires k == "val"
    ensures IndexOf(k).None?
  {
    assert !IsDigit(k[0]);
  }

  /** Writing `{val: v}` at slot `k` of the array under `out`, one past its end. */
  lemma FanOutSet(m: map<string, Json>, a: seq<Json>, k: string, v: Json)
    requires "out" in m && m["out"] == JArr(a)
    requires IndexOf(k) == Some(|a|)
    ensures Set(JObj(m), ["out", k, "val"], v) == JObj(m["out" := JArr(a + [JObj(map["val" := v])])])
  {
    ValIsKey("val");
    var p := ["out", k, "val"];
    assert p[1..] == [k, "val"] && p[1..][1..] == ["val"] && p[1..][1..][1..] == [];
    assert Set(JNull, ["val"], v) == JObj(map["val" := v]);
    assert Child(JArr(a), k) == None;
    assert Set(JArr(a), [k, "val"], v) == JArr(a + [JObj(map["val" := v])]);
  }

  lemma FanOutSetFirst(m: map<string, Json>, k: string, v: Json)
    requires "out" !in m && IndexOf(k) == Some(0)
    ensures Set(JObj(m), ["out", k, "val"], v) == JObj(m["out" := JArr([JObj(map["val" := v])])])
  {
    ValIsKey("val");
    var p := ["out", k, "val"];
    assert p[1..] == [k, "val"] && p[1..][1..] == ["val"] && p[1..][1..][1..] == [];
    assert Set(JNull, ["val"], v) == JObj(map["val" := v]);
    assert Set(JNull, [k, "val"], v) == JArr([JObj(map["val" := v])]);
  }

  /** Each element wrapped as `{val: x}`. */
  function Wrapped(items: seq<Json>): (r: seq<Json>)
    ensures |r| == |items|
    ensures forall i :: 0 <= i < |items| ==> r[i] == JObj(map["val" := items[i]])
  {
    if |items| == 0 then []
    else Wrapped(items[..|items| - 1]) + [JObj(map["val" := items[|items| - 1]])]
  }

  lemma WrappedSnoc(items: seq<Json>, n: nat)
    requires 0 < n <= |items|
    ensures Wrapped(items[..n]) == Wrapped(items[..n - 1]) + [JObj(map["val" := items[n - 1]])]
  {
    assert items[..n][..n - 1] == items[..n - 1];
  }

  lemma FanOutFirst(m: map<string, Json>, t: string, items: seq<Json>)
    requires 0 < |items| && "out" !in m
    requires Split(Substitute(t, 0)) == ["out", NatToString(0), "val"]
    ensures FanOut(JObj(m), t, items, 1) == JObj(m["out" := JArr(Wrapped(items[..1]))])
  {
    IndexOfNatToString(0);
    FanOutSetFirst(m, NatToString(0), items[0]);
    assert Wrapped(items[..1]) == [JObj(map["val" := items[0]])];
  }

  lemma Overwrite(m: map<string, Json>, k: string, x: Json, y: Json)
    ensures m[k := x][k := y] == m[k := y]
  {
  }

  lemma FanOutUnfold(m: map<string, Json>, t: string, items: seq<Json>, n: nat)
    requires 1 < n <= |items|
    requires Split(Substitute(t, n - 1)) == ["out", NatToString(n - 1), "val"]
    requires FanOut(JObj(m), t, items, n - 1) == JObj(m["out" := JArr(Wrapped(items[..n - 1]))])
    ensures FanOut(JObj(m), t, items, n)
         == Set(JObj(m["out" := JArr(Wrapped(items[..n - 1]))]), ["out", NatToString(n - 1), "val"], items[n - 1])
  {
  }

  lemma FanOutAppend(before: map<string, Json>, a: seq<Json>, v: Json)
    requires "out" in before && before["out"] == JArr(a)
    ensures Set(JObj(before), ["out", NatToString(|a|), "val"], v)
         == JObj(before["out" := JArr(a + [JObj(map["val" := v])])])
  {
    IndexOfNatToString(|a|);
    FanOutSet(before, a, NatToString(|a|), v);
  }

  lemma FanOutNext(m: map<string, Json>, t: string, items: seq<Json>, n: nat)
    requires 1 < n <= |items|
    requires Split(Substitute(t, n - 1)) == ["out", NatToString(n - 1), "val"]
    requires FanOut(JObj(m), t, items, n - 1) == JObj(m["out" := JArr(Wrapped(items[..n - 1]))])
    ensures FanOut(JObj(m), t, items, n) == JObj(m["out" := JArr(Wrapped(items[..n]))])
  {
    var a := Wrapped(items[..n - 1]);
    var grown := a + [JObj(map["val" := items[n - 1]])];
    assert |a| == n - 1;
    FanOutUnfold(m, t, items, n);
    FanOutAppend(m["out" := JArr(a)], a, items[n - 1]);
    assert FanOut(JObj(m), t, items, n) == JObj(m["out" := JArr(a)]["out" := JArr(grown)]);
    Overwrite(m, "out", JArr(a), JArr(grown));
    WrappedSnoc(items, n);
  }

  /** Fanning out to `out.*.val` builds the array of wrapped elements under `out`. */
  lemma {:induction false} FanOutGrows(m: map<string, Json>, t: string, items: seq<Json>, n: nat)
    requires 0 < n <= |items| && "out" !in m
    requires forall i: nat :: Split(Substitute(t, i)) == ["out", NatToString(i), "val"]
    ensures FanOut(JObj(m), t, items, n) == JObj(m["out" := JArr(Wrapped(items[..n]))])
    decreases n
  {
    if n == 1 {
      FanOutFirst(m, t, items);
    } else {
      FanOutGrows(m, t, items, n - 1);
      FanOutNext(m, t, items, n);
    }
  }

  lemma FanOutTargetPaths(t: string)
    requires t == "out.*.val"
    ensures forall i: nat :: Split(Substitute(t, i)) == ["out", NatToString(i), "val"]
    ensures '*' in t
  {
    forall i: nat ensures Split(Substitute(t, i)) == ["out", NatToString(i), "val"] {
      FanOutPath(i);
    }
    assert t[4] == '*';
  }

  lemma FanOutWritten(t: string, items: seq<Json>, m: map<string, Json>)
    requires '*' in t && |items| > 0 && "out" !in m
    requires forall i: nat :: Split(Substitute(t, i)) == ["out", NatToString(i), "val"]
    ensures Write(JObj(m), t, JArr(items)) == JObj(m["out" := JArr(Wrapped(items))])
  {
    FanOutGrows(m, t, items, |items|);
    assert items[..|items|] == items;
  }

  lemma FanOutCleanup(items: seq<Json>, out: Json)
    ensures Cleanup(JObj(map["items" := JArr(items)]["out" := out]), "items", Defaults) == JObj(map["out" := out])
  {
    var m := map["items" := JArr(items)]["out" := out];
    SplitSingle("items");
    assert m - {"items"} == map["out" := out];
    assert Remove(JObj(m), ["items"]) == JObj(map["out" := out]);
  }

  lemma FanOutRead(t: string, items: seq<Json>)
    ensures ApplyRule(JObj(map["items" := JArr(items)]), JObj(map["items" := JArr(items)]), ("items", t), Defaults)
         == Cleanup(Write(JObj(map["items" := JArr(items)]), t, JArr(items)), "items", Defaults)
  {
    var input := JObj(map["items" := JArr(items)]);
    SplitSingle("items");
    assert Get(input, Split("items")) == Some(JArr(items));
  }

  lemma FanOutWrite(t: string, items: seq<Json>)
    requires t == "out.*.val" && |items| > 0
    ensures Write(JObj(map["items" := JArr(items)]), t, JArr(items))
         == JObj(map["items" := JArr(items)]["out" := JArr(Wrapped(items))])
  {
    FanOutTargetPaths(t);
    FanOutWritten(t, items, map["items" := JArr(items)]);
  }

  lemma FanOutRule(t: string, items: seq<Json>)
    requires Write(JObj(map["items" := JArr(items)]), t, JArr(items))
          == JObj(map["items" := JArr(items)]["out" := JArr(Wrapped(items))])
    ensures ApplyRule(JObj(map["items" := JArr(items)]), JObj(map["items" := JArr(items)]), ("items", t), Defaults)
         == JObj(map["out" := JArr(Wrapped(items))])
  {
    FanOutRead(t, items);
    FanOutCleanup(items, JArr(Wrapped(items)));
  }

  /** An array read for a target with `*` is fanned out and the source
      removed: `{items: [x0, x1, ...]}` with `items -> out.*.val` gives
      `{out: [{val: x0}, {val: x1}, ...]}`. */
  lemma FanOutArray(t: string, items: seq<Json>)
    requires t == "out.*.val" && |items| > 0
    ensures Remap(Some(JObj(map["items" := JArr(items)])), [("items", t)], NoOptions)
         == JObj(map["out" := JArr(Wrapped(items))])
    ensures forall i :: 0 <= i < |items| ==> Wrapped(items)[i] == JObj(map["val" := items[i]])
  {
    assert Resolve(NoOptions) == Defaults;
    RemapOneRule(JObj(map["items" := JArr(items)]), ("items", t), NoOptions);
    FanOutApply(t, items);
  }

  lemma FanOutApply(t: string, items: seq<Json>)
    requires t == "out.*.val" && |items| > 0
    ensures ApplyRule(JObj(map["items" := JArr(items)]), JObj(map["items" := JArr(items)]), ("items", t), Defaults)
         == JObj(map["out" := JArr(Wrapped(items))])
  {
    FanOutWrite(t, items);
    FanOutRule(t, items);
  }

  /** The same run on a three-element array `{items: [x, y, z]}`. */
  lemma FanOutThree(x: Json, y: Json, z: Json)
    ensures Remap(Some(JObj(map["items" := JArr([x, y, z])])), [("items", "out.*.val")], NoOptions)
         == JObj(map["out" := JArr([JObj(map["val" := x]), JObj(map["val" := y]), JObj(map["val" := z])])])
  {
    FanOutArray("out.*.val", [x, y, z]);
    WrappedThree(x, y, z);
  }

  lemma WrappedThree(x: Json, y: Json, z: Json)
    ensures Wrapped([x, y, z]) == [JObj(map["val" := x]), JObj(map["val" := y]), JObj(map["val" := z])]
  {
    var w := Wrapped([x, y, z]);
    assert |w| == 3 && w[0] == JObj(map["val" := x]) && w[1] == JObj(map["val" := y]) && w[2] == JObj(map["val" := z]);
  }
}
