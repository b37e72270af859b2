/** Stand-ins for the `get`, `set` and `remove` operations of the dot-wild
    path library, on literal keys and literal array indices. A path is the
    list of its segments (see `Paths.Split`); a segment addresses an array
    slot only when it is the canonical decimal rendering of the slot's index. */
module DotPath {
  import opened Wrappers
  import opened Decimal
  import opened Document

  /** `n` has a slot that `seg` can name: any key of an object, an index of an array. */
  predicate CanHold(n: Json, seg: string) {
    n.JObj? || (n.JArr? && IndexOf(seg).Some?)
  }

  /** The container `set` creates for a missing level: an array when the
      segment names an index, an object otherwise. */
  function FreshFor(seg: string): (n: Json)
    ensures CanHold(n, seg) && IsEmptyContainer(n)
    ensures n.JArr? <==> IndexOf(seg).Some?
  {
    if IndexOf(seg).Some? then JArr([]) else JObj(map[])
  }

  /** The entry of `n` that `seg` names, if there is one. */
  function Child(n: Json, seg: string): (r: Option<Json>)
    ensures r.Some? ==> CanHold(n, seg)
    ensures IsEmptyContainer(n) ==> r.None?
  {
    match n
    case JObj(m) => if seg in m then Some(m[seg]) else None
    case JArr(a) =>
      (match IndexOf(seg)
       case Some(i) => if i < |a| then Some(a[i]) else None
       case None => None)
    case _ => None
  }

  /** `n` with the slot `seg` names holding `x`; writing past the end of an
      array fills the gap with `null`. */
  function PutChild(n: Json, seg: string, x: Json): (r: Json)
    requires CanHold(n, seg)
    ensures Child(r, seg) == Some(x)
    ensures r.JObj? == n.JObj? && r.JArr? == n.JArr?
    ensures forall other :: other != seg && Child(n, other).Some? ==> Child(r, other) == Child(n, other)
    ensures Child(n, seg) == Some(x) ==> r == n
  {
    match n
    case JObj(m) => JObj(m[seg := x])
    case JArr(a) =>
      var i := IndexOf(seg).value;
      if i < |a| then JArr(a[i := x])
      else JArr(a + seq(i - |a|, _ => JNull) + [x])
  }

  /** `n` without the slot `seg` names: an object loses the key, an array
      loses the element and closes the gap; anything else is unchanged. */
  function DropChild(n: Json, seg: string): (r: Json)
    ensures Child(n, seg).None? ==> r == n
    ensures n.JObj? ==> r.JObj? && r.fields.Keys == n.fields.Keys - {seg}
                        && forall k :: k in r.fields ==> r.fields[k] == n.fields[k]
    ensures n.JArr? && Child(n, seg).Some? ==>
              var i := IndexOf(seg).value;
              r.JArr? && r.items == n.items[..i] + n.items[i + 1..]
  {
    match n
    case JObj(m) => JObj(m - {seg})
    case JArr(a) =>
      (match IndexOf(seg)
       case Some(i) => if i < |a| then JArr(a[..i] + a[i + 1..]) else n
       case None => n)
    case _ => n
  }

  /** The value at path `p`, or `None` when some segment is missing
      (`dotWild.get`; `None` stands for `undefined`). */
  function Get(n: Json, p: seq<string>): Option<Json>
    decreases |p|
  {
    if |p| == 0 then Some(n)
    else match Child(n, p[0])
      case None => None
      case Some(c) => Get(c, p[1..])
  }

  /** `n` with `v` written at path `p` (`dotWild.set`). A level that cannot
      hold the next segment (missing, a scalar, or an array addressed by a
      non-index key) is replaced by a fresh container of the kind the
      segment calls for. */
  function Set(n: Json, p: seq<string>, v: Json): (r: Json)
    ensures Get(r, p) == Some(v)
    ensures |p| > 0 ==> r.JObj? || r.JArr?
    decreases |p|
  {
    if |p| == 0 then v
    else
      var h := if CanHold(n, p[0]) then n else FreshFor(p[0]);
      var c := Child(h, p[0]).GetOr(JNull);
      PutChild(h, p[0], Set(c, p[1..], v))
  }

  /** `n` with the slot at path `p` deleted (`dotWild.remove`); a path that
      does not resolve leaves `n` unchanged. */
  function Remove(n: Json, p: seq<string>): (r: Json)
    ensures Get(n, p).None? ==> r == n
    ensures |p| > 0 && Get(n, p[..|p| - 1]).Some? ==>
              Get(r, p[..|p| - 1]) == Some(DropChild(Get(n, p[..|p| - 1]).value, p[|p| - 1]))
    decreases |p|
  {
    if |p| == 0 then n
    else if |p| == 1 then
      assert Child(n, p[0]).Some? ==> Get(Child(n, p[0]).value, p[1..]).Some?;
      DropChild(n, p[0])
    else match Child(n, p[0])
      case None => n
      case Some(c) =>
        assert p[..|p| - 1][1..] == p[1..][..|p| - 2];
        PutChild(n, p[0], Remove(c, p[1..]))
  }

  /** Paths `p` and `q` agree on their first `k` segments and differ at segment `k`. */
  predicate DivergeAt(p: seq<string>, q: seq<string>, k: nat) {
    k < |p| && k < |q| && p[..k] == q[..k] && p[k] != q[k]
  }

  /** Path `p` resolves to an object in `n`. */
  predicate ObjectAt(n: Json, p: seq<string>) {
    Get(n, p).Some? && Get(n, p).value.JObj?
  }

  /** Resolving a concatenated path resolves the first part, then the rest from there. */
  lemma {:induction false} GetAppend(n: Json, p: seq<string>, s: seq<string>)
    ensures Get(n, p + s) == (if Get(n, p).Some? then Get(Get(n, p).value, s) else None)
    decreases |p|
  {
    if |p| > 0 {
      assert (p + s)[0] == p[0];
      assert (p + s)[1..] == p[1..] + s;
      match Child(n, p[0])
      case None =>
      case Some(c) => GetAppend(c, p[1..], s);
    } else {
      assert p + s == s;
    }
  }

  /** Resolving a path is resolving its parent path, then taking the last
      segment's entry there: the result is missing as soon as any segment
      names no entry. */
  lemma GetLastStep(n: Json, p: seq<string>)
    requires |p| > 0
    ensures Get(n, p) == match Get(n, p[..|p| - 1])
                         case None => None
                         case Some(up) => Child(up, p[|p| - 1])
  {
    var up := p[..|p| - 1];
    assert p == up + [p[|p| - 1]];
    GetAppend(n, up, [p[|p| - 1]]);
  }

  /** Nothing resolves below an empty container. */
  lemma GetThroughEmpty(n: Json, p: seq<string>, q: seq<string>)
    requires Get(n, p).Some? && IsEmptyContainer(Get(n, p).value)
    requires |q| > |p| && q[..|p|] == p
    ensures Get(n, q) == None
  {
    var s := q[|p|..];
    assert q == p + s;
    GetAppend(n, p, s);
  }

  /** The parent of a resolving path is a container that holds it, so it is not empty. */
  lemma GetParentNonEmpty(n: Json, p: seq<string>)
    requires |p| > 0 && Get(n, p).Some?
    ensures Get(n, p[..|p| - 1]).Some?
    ensures !IsEmptyContainer(Get(n, p[..|p| - 1]).value)
  {
    assert p == p[..|p| - 1] + [p[|p| - 1]];
    GetAppend(n, p[..|p| - 1], [p[|p| - 1]]);
  }

  /** Writing at `p` keeps every value already present at a path `q` that
      branches off `p`, provided the two segments where they part are of
      the same kind (both array indices or both keys). */
  lemma {:induction false} SetPreserves(n: Json, p: seq<string>, q: seq<string>, k: nat, v: Json)
    requires DivergeAt(p, q, k)
    requires Get(n, q).Some?
    requires IndexOf(p[k]).Some? == IndexOf(q[k]).Some?
    ensures Get(Set(n, p, v), q) == Get(n, q)
    decreases k
  {
    var c := Child(n, q[0]).value;
    if k == 0 {
      assert CanHold(n, p[0]);
    } else {
      assert p[0] == q[0];
      assert p[1..][..k - 1] == p[..k][1..];
      assert q[1..][..k - 1] == q[..k][1..];
      SetPreserves(c, p[1..], q[1..], k - 1, v);
    }
  }

  /** Removing at `p` keeps every value present at a path `q` that branches
      off `p` above the removed slot, or at the removed slot's level when
      that level is an object. */
  lemma {:induction false} RemoveFrame(n: Json, p: seq<string>, q: seq<string>, k: nat)
    requires DivergeAt(p, q, k)
    requires Get(n, q).Some?
    requires k + 1 < |p| || ObjectAt(n, p[..k])
    ensures Get(Remove(n, p), q) == Get(n, q)
    decreases k
  {
    var c := Child(n, q[0]).value;
    if k == 0 {
      if |p| == 1 {
        assert n.JObj?;
      }
    } else {
      assert p[0] == q[0];
      assert p[1..][..k - 1] == p[..k][1..];
      assert q[1..][..k - 1] == q[..k][1..];
      assert |p| > 1;
      RemoveFrame(c, p[1..], q[1..], k - 1);
    }
  }

  /** Removing below an object leaves an object there. */
  lemma {:induction false} RemoveKeepsObject(n: Json, p: seq<string>, k: nat)
    requires k < |p| && ObjectAt(n, p[..k])
    ensures ObjectAt(Remove(n, p), p[..k])
    decreases k
  {
    if k > 0 {
      var c := Child(n, p[0]).value;
      assert p[1..][..k - 1] == p[..k][1..];
      RemoveKeepsObject(c, p[1..], k - 1);
    }
  }
}
