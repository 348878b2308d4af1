/** The leaf map both sides of a diff rest on. */
module Flatten {
  import opened Json
  import opened Wrappers
  import Pointer
  import Text

  type LeafMap = map<string, Value>

  function Lookup(m: LeafMap, q: Path): Option<Value> {
    if Pointer.Encode(q) in m then Some(m[Pointer.Encode(q)]) else None
  }

  function LeafAt(v: Value, q: Path): Option<Value> {
    if IsLeaf(v, q) then At(v, q) else None
  }

  ghost predicate WellKeyed(m: LeafMap) {
    forall k :: k in m ==> Pointer.Encode(Pointer.Decode(k)) == k
  }

  /** `m` holds exactly the scalar leaves of `v`, each under the pointer of its path. */
  ghost predicate IsFlat(v: Value, m: LeafMap) {
    WellKeyed(m) && forall q: Path :: Lookup(m, q) == LeafAt(v, q)
  }

  /** `after` is `before` overwritten by the leaves of `v`, which stands at `prefix`. */
  ghost predicate Adds(prefix: Path, v: Value, before: LeafMap, after: LeafMap) {
    forall q: Path :: Lookup(after, q) ==
      if prefix <= q && IsLeaf(v, q[|prefix|..]) then At(v, q[|prefix|..]) else Lookup(before, q)
  }

  /** The same for those leaves only that lie under the segments `segs`. */
  ghost predicate AddsChildren(prefix: Path, v: Value, segs: set<string>, before: LeafMap, after: LeafMap) {
    forall q: Path :: Lookup(after, q) ==
      if Below(prefix, q) && q[|prefix|] in segs && IsLeaf(v, q[|prefix|..]) then At(v, q[|prefix|..])
      else Lookup(before, q)
  }

  lemma AddChild(prefix: Path, v: Value, segs: set<string>, s: string, c: Value,
                 before: LeafMap, mid: LeafMap, after: LeafMap)
    requires Child(v, s) == Some(c)
    requires AddsChildren(prefix, v, segs, before, mid)
    requires Adds(prefix + [s], c, mid, after)
    ensures AddsChildren(prefix, v, segs + {s}, before, after)
  {
    forall q: Path
      ensures Lookup(after, q) ==
        if Below(prefix, q) && q[|prefix|] in segs + {s} && IsLeaf(v, q[|prefix|..]) then At(v, q[|prefix|..])
        else Lookup(before, q)
    {
      if Below(prefix, q) && q[|prefix|] == s {
        assert prefix + [s] <= q;
        assert q[|prefix|..][1..] == q[|prefix + [s]|..];
      } else {
        assert !(prefix + [s] <= q);
      }
    }
  }

  lemma AllChildren(prefix: Path, v: Value, segs: set<string>, before: LeafMap, after: LeafMap)
    requires !Scalar(v) && AddsChildren(prefix, v, segs, before, after)
    requires forall s :: Child(v, s).Some? ==> s in segs
    ensures Adds(prefix, v, before, after)
  {
    forall q: Path | prefix <= q && IsLeaf(v, q[|prefix|..]) ensures Below(prefix, q) && q[|prefix|] in segs {
      var p := q[|prefix|..];
      assert p != [];
      assert Child(v, p[0]).Some?;
    }
  }

  lemma AddLeaf(prefix: Path, v: Value, before: LeafMap)
    requires Scalar(v)
    ensures Adds(prefix, v, before, before[Pointer.Encode(prefix) := v])
  {
    forall q: Path
      ensures prefix <= q && IsLeaf(v, q[|prefix|..]) <==> q == prefix
      ensures Pointer.Encode(q) == Pointer.Encode(prefix) ==> q == prefix
    {
      if q == prefix { assert q[|prefix|..] == []; }
      if Pointer.Encode(q) == Pointer.Encode(prefix) { Pointer.EncodeInjective(q, prefix); }
    }
  }

  /** The names and values of a container's children, in iteration order. */
  ghost predicate AreChildren(v: Value, names: seq<string>, children: seq<Value>) {
    && |names| == |children|
    && (forall i :: 0 <= i < |names| ==> Child(v, names[i]) == Some(children[i]))
    && (forall s :: Child(v, s).Some? ==> s in names)
  }

  method ChildrenOf(v: Value) returns (names: seq<string>, children: seq<Value>)
    requires !Scalar(v)
    ensures AreChildren(v, names, children)
    ensures forall i :: 0 <= i < |children| ==> children[i] < v
    ensures forall i, j :: 0 <= i < j < |names| ==> names[i] != names[j]
    ensures v.Arr? ==> names == IndexNames(|v.elems|) && children == v.elems
  {
    if v.Obj? {
      names := Text.Sorted(v.fields.Keys);
      children := seq(|names|, i requires 0 <= i < |names| =>
        assert names[i] in names; v.fields[names[i]]);
      forall i | 0 <= i < |names| ensures children[i] < v && Child(v, names[i]) == Some(children[i]) {
        assert names[i] in v.fields;
      }
      forall i, j | 0 <= i < j < |names| ensures names[i] != names[j] {
        Text.LexTotal(names[i], names[j]);
      }
    } else {
      names := IndexNames(|v.elems|);
      children := v.elems;
      IndexNamesAreChildren(v.elems);
      IndexNamesDistinct(|v.elems|);
    }
  }

  function IndexNames(n: nat): seq<string> {
    seq(n, i requires 0 <= i < n => Decimal(i))
  }

  lemma IndexNamesDistinct(n: nat)
    ensures forall i, j :: 0 <= i < j < n ==> IndexNames(n)[i] != IndexNames(n)[j]
  {
    forall i, j | 0 <= i < j < n ensures IndexNames(n)[i] != IndexNames(n)[j] {
      ParseDecimal(i);
      ParseDecimal(j);
    }
  }

  lemma IndexNamesAreChildren(es: seq<Value>)
    ensures AreChildren(Arr(es), IndexNames(|es|), es)
  {
    forall i | 0 <= i < |es| ensures Child(Arr(es), IndexNames(|es|)[i]) == Some(es[i]) {
      ChildOfArray(es, i);
    }
    forall s | Child(Arr(es), s).Some? ensures s in IndexNames(|es|) {
      assert s == IndexNames(|es|)[ParseIndex(s).value];
    }
  }

  /** Walks the tree depth first and inserts every leaf into the accumulator. */
  method FlattenInto(ghost prefix: Path, pointer: string, v: Value, out: LeafMap) returns (r: LeafMap)
    requires pointer == Pointer.Encode(prefix) && WellKeyed(out)
    ensures Adds(prefix, v, out, r) && WellKeyed(r)
    decreases v
  {
    r := out;
    if Scalar(v) {
      r := r[pointer := v];
      AddLeaf(prefix, v, out);
      Pointer.DecodeEncode(prefix);
    } else {
      var names, children := ChildrenOf(v);
      ghost var done: set<string> := {};
      for i := 0 to |names|
        invariant done == set j | 0 <= j < i :: names[j]
        invariant AddsChildren(prefix, v, done, out, r) && WellKeyed(r)
      {
        ghost var before := r;
        PushIsEncode(prefix, names[i]);
        r := FlattenInto(prefix + [names[i]], Pointer.Push(pointer, names[i]), children[i], r);
        AddChild(prefix, v, done, names[i], children[i], out, before, r);
        done := done + {names[i]};
      }
      AllChildren(prefix, v, done, out, r);
    }
  }

  lemma PushIsEncode(p: Path, s: string)
    ensures Pointer.Push(Pointer.Encode(p), s) == Pointer.Encode(p + [s])
  {
    assert (p + [s])[..|p|] == p;
  }

  method Flatten(v: Value) returns (m: LeafMap)
    ensures IsFlat(v, m)
  {
    m := FlattenInto([], "", v, map[]);
    forall q: Path ensures Lookup(m, q) == LeafAt(v, q) {
      assert q[0..] == q;
    }
  }

  lemma KeyIsLeaf(v: Value, m: LeafMap, k: string)
    requires IsFlat(v, m) && k in m
    ensures IsLeaf(v, Pointer.Decode(k)) && Pointer.Encode(Pointer.Decode(k)) == k
  {
    assert Lookup(m, Pointer.Decode(k)).Some?;
  }

  lemma LeafIsKey(v: Value, m: LeafMap, p: Path)
    requires IsFlat(v, m)
    ensures IsLeaf(v, p) <==> Pointer.Encode(p) in m
    ensures IsLeaf(v, p) ==> KindAt(v, p) == Leaf(m[Pointer.Encode(p)])
  {
    assert Lookup(m, p) == LeafAt(v, p);
  }

  /** No flattened key lies below another one. */
  lemma PrefixFree(v: Value, m: LeafMap, j: string, k: string)
    requires IsFlat(v, m) && j in m && k in m && Pointer.Under(j, k)
    ensures j == k
  {
    KeyIsLeaf(v, m, j);
    KeyIsLeaf(v, m, k);
    Pointer.UnderIsPrefix(Pointer.Decode(j), Pointer.Decode(k));
    LeavesIncomparable(v, Pointer.Decode(j), Pointer.Decode(k));
  }

  /** A tree of objects whose containers, the root apart, all have leaves below them. */
  ghost predicate PlainObject(v: Value) {
    && v.Obj?
    && (forall p: Path :: !KindAt(v, p).ArrNode?)
    && (forall p: Path :: KindAt(v, p).ObjNode? && p != [] ==> exists q: Path :: IsLeaf(v, q) && p <= q)
  }

  /** The leaf map determines a tree of objects without empty containers. */
  lemma FlatDetermines(u: Value, v: Value, m: LeafMap)
    requires PlainObject(u) && PlainObject(v) && IsFlat(u, m) && IsFlat(v, m)
    ensures u == v
  {
    forall p: Path ensures KindAt(u, p) == KindAt(v, p) {
      SameKind(u, v, m, p);
      SameKind(v, u, m, p);
    }
    Extensional(u, v);
  }

  lemma SameKind(u: Value, v: Value, m: LeafMap, p: Path)
    requires PlainObject(u) && PlainObject(v) && IsFlat(u, m) && IsFlat(v, m)
    ensures KindAt(u, p) != Absent ==> KindAt(u, p) == KindAt(v, p)
  {
    if IsLeaf(u, p) {
      assert Lookup(m, p) == LeafAt(u, p) == LeafAt(v, p);
    } else if KindAt(u, p) != Absent && p != [] {
      var q: Path :| IsLeaf(u, q) && p <= q;
      assert Lookup(m, q) == LeafAt(u, q) == LeafAt(v, q);
      AboveIsContainer(v, p, q);
    }
  }
}
