# dot-wild-remap in Dafny

A model of the `remap` engine of dot-wild-remap (`src/index.ts`). `remap`
takes a JSON-like tree and an ordered list of rules, each a pair of dotted
paths. For each rule, in order, it:

- reads the value at the source path;
- writes it at the target path, or fans an array out over a `*` in the target;
- optionally deletes the source;
- walks the source path's dotted prefixes from innermost to outermost and
  removes every ancestor that has become an empty object or an empty array.

Four options steer it: `reverse`, `deleteMappedValues`, `deleteEmptyParents`
and `keepUnmappedValues`.

Modules, one per component:

- `Wrappers`: `Option` and `Result`.
- `Decimal`: decimal rendering of array indices (`index.toString()`) and the
  canonical-index test for path segments.
- `Paths`: dotted path strings. Covers splitting into segments,
  `lastIndexOf`/`indexOf`, the parent computation of the pruning loop, the
  sequence of paths the loop visits, and `replace("*", …)`.
- `Document`: the `Json` tree. Numbers are integers, objects are maps,
  arrays are sequences. `undefined` is `None` of an `Option<Json>`.
- `DotPath`: stand-ins for the `get`, `set` and `remove` functions of the
  dot-wild library, on literal keys and indices. Their contracts say what
  the engine relies on, and frame lemmas say what a write or a removal
  leaves alone.
- `Remapper`: the engine. It covers option defaults, the starting document,
  one rule (read, write or fan-out, cleanup), the pruning walk as a function
  and as the source's `while` loop, and the fold over all rules. It also has
  an independent description of the non-preserving mode and the `reverse`
  swap.
- `Scenarios`: worked runs on small documents. They cover:
  - moving a value and pruning its emptied parent;
  - keeping the source;
  - stopping at a non-empty parent;
  - pruning a whole chain;
  - fan-out;
  - a later rule reading an earlier write;
  - the non-preserving mode reading the input;
  - the `null`-parent run of the finding below.

## Model

| member | source | states |
|---|---|---|
| `Remapper.Remap` | src/index.ts:21 | A null or undefined document gives null whatever the rules and options; with no rules the result is the starting document. |
| `Remapper.Resolve` | src/index.ts:22-27 | `reverse` is on only when passed as true; each of the three other switches is on unless passed as false. |
| `Remapper.InitialWorking` | src/index.ts:29-36 | Preserving mode works on the input itself; otherwise the output starts as an empty container that is an array exactly when the input is one. |
| `Remapper.ReverseIsSwap` | src/index.ts:41-42 | Running with `reverse` equals running without it on the rules with key and value exchanged; nothing else about the run changes. |
| `Remapper.ApplyRule` | src/index.ts:45-51 | A rule whose source does not resolve leaves the document unchanged; a resolving source, with deletion off, is only written to its target. |
| `Remapper.FanOut` | src/index.ts:54-57 | Fanning out no elements changes nothing; after `n` elements the last one is readable at the target with its first `*` replaced by `n - 1`, and the root is a container. |
| `Paths.ReplaceFirst` | src/index.ts:55 | A target without `*` is returned as is; otherwise the text before the first `*` has no `*`, and the result is that text, the replacement, and everything after the `*`. |
| `Paths.ReplaceFirstAt` | src/index.ts:55 | For any `a` without `*`, replacing the first `*` of `a*b` by `t` gives `atb`: later `*`s stay. |
| `Remapper.Write` | src/index.ts:53-60 | A value that is not an array, or a target without `*`, is readable whole at the target afterwards; an empty array fanned out changes nothing; the last element lands at its substituted target. |
| `Remapper.FanOutWritesEach` | src/index.ts:54-57 | After the fan-out every element `i` is readable at the target with its first `*` replaced by the decimal `i`; later elements do not overwrite earlier ones. |
| `Remapper.FanOutFrame` | src/index.ts:54-57 | The fan-out keeps every value whose path parts from the target above its `*` segment, at a segment of the same kind. |
| `Paths.ReplaceWildcardSegment` | src/index.ts:55 | Replacing the first `*`, when it fills a whole segment, changes exactly that segment of the path and no segment before it holds a `*`. |
| `Decimal.IndexOfNatToString` | src/index.ts:55 | The decimal rendering of an element index is read back as that same array index. |
| `Decimal.ParseNatToString` | src/index.ts:55 | Parsing the decimal rendering of a natural number gives the number back. |
| `Remapper.NonPreservingOnlyWrites` | src/index.ts:30-36 | With `keepUnmappedValues` off, the result is every resolving rule's value read from the original input and written into an empty container, with nothing removed. |
| `Remapper.NonPreservingIgnoresDeleteFlags` | src/index.ts:63 | With `keepUnmappedValues` off, the result does not depend on `deleteMappedValues` or `deleteEmptyParents`. |
| `Remapper.Cleanup` | src/index.ts:62-65 | Without both `keepUnmappedValues` and `deleteMappedValues` nothing is removed. With both and pruning off, a source whose parent is an object is gone afterwards. A dot-free source is removed with no pruning. |
| `Remapper.CleanupRemovesSource` | src/index.ts:62-91 | With both `keepUnmappedValues` and `deleteMappedValues`, a source whose every proper prefix is an object is gone afterwards, with or without pruning. |
| `Remapper.MoveLandsAtTarget` | src/index.ts:53-91 | The move: a value that is not fanned out lands at a target that parts from the source at an object of the written document, and neither the source removal nor the pruning disturbs it. |
| `Remapper.ApplyRuleFrame` | src/index.ts:45-93 | Nothing else changes: a value present in the working document keeps its value through a rule whose value is written whole, when its path parts from the target at a segment of the same kind and from the source at an object. When the source does not resolve, every present value is kept. |
| `Remapper.CleanupPreservesOffChain` | src/index.ts:62-93 | Source removal and pruning never touch a value whose path branches off the source path at an object. |
| `Remapper.PruneStep` | src/index.ts:74-85 | An ancestor is removed only when it resolves to an empty array or empty object, and then exactly that slot of its parent is dropped, a top-level key included. |
| `Remapper.PruneFromIsHalting` | src/index.ts:67-91 | The walk over every prefix gives the same document as a walk that stops at the first ancestor that is present and not empty. |
| `Remapper.PruneFromPreserves` | src/index.ts:73-91 | The walk leaves unchanged every value below the walked path or branching off its chain at an object. |
| `Remapper.PruneAbovePresent` | src/index.ts:73-91 | Above a present value that is not an empty container, the walk removes nothing. |
| `Remapper.PruneEmptyParents` | src/index.ts:69-91 | The `while` loop over `parentPath` computes the halting walk from the parent of the source path. |
| `Remapper.EmptyParentAsWritten` | src/index.ts:77-83 | The emptiness test as written: an empty array or an object with no keys is empty; a `null` parent throws a TypeError. |
| `Remapper.ApplyRulesLast` | src/index.ts:39 | The rules run in order: the result is the last rule applied to what all the rules before it left. |
| `Remapper.ApplyRulesNonPreserving` | src/index.ts:39 | The fold over the rules in non-preserving mode equals the writes-only description. |
| `Paths.Parent` | src/index.ts:88-90 | A path without a dot has the empty parent; otherwise the parent is the text before the last dot. |
| `Paths.ParentSplit` | src/index.ts:69-72 | The parent of a dotted path has the path's segments without the last one. |
| `Paths.WalkVisitsProperPrefixes` | src/index.ts:69-73 | The loop visits the source's proper dotted prefixes, innermost first, each one segment shorter, so it ends; a dot-free source visits none, and a source with a leading dot visits all but the empty first segment. |
| `Remapper.PruneFromWalk` | src/index.ts:73-91 | The pruning walk takes one pruning step at each path the loop's `parentPath` runs through, in order. |
| `Paths.LastIndexOf` | src/index.ts:71 | The position of the last dot, or -1 exactly when there is none. |
| `DotPath.Set` | src/index.ts:59 | After a write the value is readable at its path, and the root is a container. |
| `DotPath.SetPreserves` | src/index.ts:56 | A write leaves every value at a path that parts from the written one at a segment of the same kind. |
| `DotPath.Remove` | src/index.ts:65 | A path that does not resolve leaves the document unchanged; otherwise exactly that slot of its parent is dropped. |
| `DotPath.RemoveFrame` | src/index.ts:78 | A removal leaves every value at a path that parts from the removed one above it, or beside it in an object. |
| `DotPath.GetLastStep` | src/index.ts:74 | A path resolves to the entry its last segment names in what its parent path resolves to, and to nothing as soon as a segment names no entry. |
| `DotPath.GetThroughEmpty` | src/index.ts:74 | Nothing resolves below an empty container. |
| `Scenarios.MoveAndPrune` | src/index.ts:62-91 | For any value `v`, `{a: {b: v}}` with `a.b -> x` gives `{x: v}`: the value moves and the emptied `a` is pruned. |
| `Scenarios.KeepSource` | src/index.ts:63 | With `deleteMappedValues` off, `{a: {b: v}}` with `a.b -> x` gives `{a: {b: v}, x: v}`: the source stays next to the copy. |
| `Scenarios.NonEmptyParentStays` | src/index.ts:80-85 | `{a: {b: v, c: w}}` with `a.b -> x` gives `{a: {c: w}, x: v}`: a parent that still holds a sibling is not pruned. |
| `Scenarios.PruneWholeChain` | src/index.ts:73-91 | `{a: {b: {c: v}}}` with `a.b.c -> x` gives `{x: v}`: both emptied ancestors are pruned. |
| `Scenarios.FanOutArray` | src/index.ts:53-57 | `{items: [x0, x1, …]}` with `items -> out.*.val` gives `{out: [{val: x0}, {val: x1}, …]}`. |
| `Scenarios.FanOutThree` | src/index.ts:53-57 | `{items: [x, y, z]}` with `items -> out.*.val` gives `{out: [{val: x}, {val: y}, {val: z}]}`. |
| `Remapper.SiblingElementKept` | src/index.ts:54-57 | When the first `*` fills a whole segment, writing element `j` keeps the value an earlier element `i` left at its own path. |
| `Scenarios.LaterRuleSeesEarlierWrite` | src/index.ts:45-48 | In preserving mode `{a: v}` with `a -> b` then `b -> c` gives `{c: v}`: a later rule reads what an earlier rule wrote. |
| `Scenarios.NonPreservingReadsInput` | src/index.ts:46 | With `keepUnmappedValues` off the same run gives `{b: v}`: a rule reads the original input, not the output so far. |
| `Scenarios.NullParentThrows` | src/index.ts:80-83 | On `{a: {b: null}}` with `a.b -> a`, the walk reaches a `null` parent and the test as written throws; the model keeps the `null`. |

## Left out

- The dot-wild library is not part of this model. `DotPath` gives literal-key stand-ins for its `get`, `set` and `remove`, with stated contracts. The stand-ins make these choices:
  - a segment addresses an array slot only when it is the canonical decimal of the index;
  - `set` replaces a level that cannot hold the next segment (missing, a scalar, or an array addressed by a non-index key) with a fresh array or object, chosen by the segment;
  - writing past an array's end pads the gap with `null`;
  - `remove` splices an array element out, so later elements shift down.
- Wildcards in source paths are not modelled: a `*` in a source path is read as a literal key. Only the target-side `*` of the fan-out is modelled. A `*` left in a target is a literal key in the `set` stand-in too: the whole target of a value that is not fanned out, and every `*` after the first in a fan-out target.
- A top-level array document is not iterated element by element, and neither is it in the code: only the shape of the starting container depends on it.
- JavaScript numbers are modelled as integers. Floating point plays no part in the engine.
- The rules are a sequence in `Object.keys` iteration order. The integer-like-keys-first ordering of JavaScript objects is not modelled, and keys are not required to be distinct.
- Object identity and aliasing of the input in preserving mode are not modelled. The model has value semantics, and the working document is rebound after each call as the code does.
- `dist/index.d.ts` is a generated type declaration with no logic.
- The pruning walk starts at the parent of the source path and stops at the empty path. A source path with a leading dot therefore never visits its empty first segment. `Paths.WalkVisitsProperPrefixes` states which paths are visited and how many.
- The code never halts the walk early. `Remapper.PruneHalting` is the variant that stops at the first ancestor that is present and not empty, and `Remapper.PruneFromIsHalting` proves the two give the same document under these stand-ins. The model follows the code.
- Remapper.FanOutWritesEach: proved only when the first `*` of the target fills a whole segment (`out.*.val`). Other target shapes, such as a `*` inside a segment (`out.a*b`), are not proved.
- Remapper.Cleanup: "the source is gone" is promised only when the source's parent is an object, or, with pruning on, when every proper prefix of the source is an object (`Remapper.CleanupRemovesSource`). With an array anywhere above the source it need not hold: removing an emptied array element splices the array, so a later element can move up into the source's position. For example, `{a: [{b: 1}, {b: 5}]}` with source `a.0.b` and pruning on ends with `5` at `a.0.b`. `DotPath.Remove` states the splice.
- Remapper.ApplyRuleFrame: covers a value written whole. For a fanned-out array, `Remapper.FanOutFrame` states the frame of the writes alone, and no lemma combines it with the cleanup.
- Remapper.MoveLandsAtTarget: covers a target that parts from the source at an object. A target that is a prefix or an extension of the source, or that parts from it at an array, is not covered, because the removal or the splice can then reach the written value.

## Findings

| source | as written | input that shows it | evidently intended | confidence | as-written member | corrected member |
|---|---|---|---|---|---|---|
| src/index.ts:80-83 | The emptiness test calls `Object.keys(parentValue)` whenever `typeof parentValue === "object"`, which holds for `null`, so `Object.keys(null)` throws a TypeError. | `remap({a: {b: null}}, {"a.b": "a"})`: the write leaves `a` holding `null`, the walk reaches `a`, and the test throws. | A `null` ancestor is not an empty container and stays; the run returns `{a: null}`. | medium, not executed | `Remapper.EmptyParentAsWritten` (exhibited by `Scenarios.NullParentThrows`) | `Remapper.PruneStep` |
