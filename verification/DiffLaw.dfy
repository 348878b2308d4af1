/** The laws of the diff engine as a caller sees them: diff two trees, apply the diff, compare. */
module DiffLaw {
  import opened Wrappers
  import opened Json
  import opened Diff
  import opened Flatten
  import opened Apply
  import opened Rebuild
  import opened Patching
  import opened FullTrees
  import opened Shrinking
  import Pointer
  import Prune
  import RoundTrip

  ghost predicate IsStructuralDiff(before: Value, after: Value, ignored: IgnoreList, d: Diff) {
    exists fb, fa :: IsFlat(before, fb) && IsFlat(after, fa) && IsDiff(fb, fa, ignored, d)
  }

  method StructuralDiff(before: Value, after: Value, ignored: IgnoreList) returns (d: Diff)
    ensures IsStructuralDiff(before, after, ignored, d)
  {
    var flatBefore := Flatten.Flatten(before);
    var flatAfter := Flatten.Flatten(after);
    d := DiffFlat(flatBefore, flatAfter, ignored);
  }

  /** `r` is what `ApplyDiff` returns. */
  ghost predicate IsApplied(state: Value, d: Diff, r: Outcome) {
    exists flat, roots ::
      IsFlat(state, flat) && Prune.IsCover(flat, RemovedLeaves(d.entries), roots) && r == Applied(state, roots, d.entries)
  }

  /** No ignored path differs. */
  ghost predicate IgnoredAgree(b: Value, a: Value, ignored: IgnoreList) {
    forall p: Path :: ignored(Pointer.Encode(p)) ==> LeafAt(b, p) == LeafAt(a, p)
  }

  /** A tree has one leaf map. */
  lemma FlatUnique(v: Value, m: LeafMap, n: LeafMap)
    requires IsFlat(v, m) && IsFlat(v, n)
    ensures m == n
  {
    forall k | k in m ensures k in n && m[k] == n[k] { SameEntry(v, m, n, k); }
    forall k | k in n ensures k in m { SameEntry(v, n, m, k); }
  }

  lemma SameEntry(v: Value, m: LeafMap, n: LeafMap, k: string)
    requires IsFlat(v, m) && IsFlat(v, n) && k in m
    ensures k in n && m[k] == n[k]
  {
    var q := Pointer.Decode(k);
    KeyIsLeaf(v, m, k);
    assert Lookup(m, q) == Lookup(n, q);
  }

  lemma IgnoredKeysAgree(b: Value, a: Value, fb: LeafMap, fa: LeafMap, ignored: IgnoreList)
    requires IsFlat(b, fb) && IsFlat(a, fa) && IgnoredAgree(b, a, ignored)
    ensures forall k :: ignored(k) ==> !Disagree(fb, fa, k)
  {
    forall k | ignored(k) && (k in fb || k in fa) ensures !Disagree(fb, fa, k) {
      var q := Pointer.Decode(k);
      assert Pointer.Encode(q) == k;
      assert Lookup(fb, q) == Lookup(fa, q);
    }
  }

  lemma SettingOf(b: Value, a: Value, ignored: IgnoreList, d: Diff, r: Outcome)
    returns (fb: LeafMap, fa: LeafMap, roots: seq<string>)
    requires IsStructuralDiff(b, a, ignored, d) && IsApplied(b, d, r) && IgnoredAgree(b, a, ignored)
    ensures Setting(b, a, fb, fa, ignored, d, roots) && r == Applied(b, roots, d.entries)
  {
    fb, fa :| IsFlat(b, fb) && IsFlat(a, fa) && IsDiff(fb, fa, ignored, d);
    var flat;
    flat, roots :| IsFlat(b, flat) && Prune.IsCover(flat, RemovedLeaves(d.entries), roots) && r == Applied(b, roots, d.entries);
    FlatUnique(b, fb, flat);
    IgnoredKeysAgree(b, a, fb, fa, ignored);
  }

  /**
   * Applying the diff of two trees to the first gives the second exactly when the pair is
   * restorable, for all trees whose staying arrays lose no element but their last, and gain only
   * scalars or only containers.
   */
  lemma DiffThenApply(b: Value, a: Value, ignored: IgnoreList, d: Diff, r: Outcome)
    requires IsStructuralDiff(b, a, ignored, d) && IsApplied(b, d, r) && IgnoredAgree(b, a, ignored)
    requires ArrayStable(b, a)
    ensures r == Ok(a) <==> Restorable(b, a)
  {
    var fb, fa, roots := SettingOf(b, a, ignored, d, r);
    RoundTrip.ApplyInvertsDiff(b, a, fb, fa, ignored, d, roots);
  }

  // Ignored paths.

  /** `m` has the leaves of `a`, but at ignored paths those of `b`. */
  ghost predicate Merges(b: Value, a: Value, ignored: IgnoreList, m: Value) {
    forall p: Path :: LeafAt(m, p) == if ignored(Pointer.Encode(p)) then LeafAt(b, p) else LeafAt(a, p)
  }

  function MergedMap(fb: LeafMap, fa: LeafMap, ignored: IgnoreList): LeafMap {
    map k | k in fb.Keys + fa.Keys && (if ignored(k) then k in fb else k in fa) :: if ignored(k) then fb[k] else fa[k]
  }

  lemma MergedIsFlat(b: Value, a: Value, fb: LeafMap, fa: LeafMap, ignored: IgnoreList, m: Value)
    requires IsFlat(b, fb) && IsFlat(a, fa) && Merges(b, a, ignored, m)
    ensures IsFlat(m, MergedMap(fb, fa, ignored))
  {
    var fm := MergedMap(fb, fa, ignored);
    forall q: Path ensures Lookup(fm, q) == LeafAt(m, q) {
      assert Lookup(fb, q) == LeafAt(b, q) && Lookup(fa, q) == LeafAt(a, q);
    }
  }

  /** The diff does not see the ignored leaves: it has the entries of the diff with the merged tree. */
  lemma MergedDiff(b: Value, a: Value, ignored: IgnoreList, d: Diff, m: Value) returns (e: Diff)
    requires IsStructuralDiff(b, a, ignored, d) && Merges(b, a, ignored, m)
    ensures IsStructuralDiff(b, m, ignored, e) && e.entries == d.entries
  {
    var fb, fa :| IsFlat(b, fb) && IsFlat(a, fa) && IsDiff(fb, fa, ignored, d);
    var fm := MergedMap(fb, fa, ignored);
    MergedIsFlat(b, a, fb, fa, ignored, m);
    e := Diff(d.entries, |IgnoredIn(fb.Keys + fm.Keys, ignored)|);
    SameDiff(fb, fa, fm, ignored, d, e);
  }

  /** A diff depends on the leaves that are not ignored; only its ignored count depends on the others. */
  lemma SameDiff(fb: LeafMap, fa: LeafMap, fm: LeafMap, ignored: IgnoreList, d: Diff, e: Diff)
    requires IsDiff(fb, fa, ignored, d)
    requires forall k :: !ignored(k) ==> (k in fm <==> k in fa) && (k in fm && k in fa ==> fm[k] == fa[k])
    requires e == Diff(d.entries, |IgnoredIn(fb.Keys + fm.Keys, ignored)|)
    ensures IsDiff(fb, fm, ignored, e)
  {
    forall i | 0 <= i < |d.entries| ensures !ignored(d.entries[i].path) && Fits(fb, fm, d.entries[i]) {
      assert Fits(fb, fa, d.entries[i]);
    }
    forall k | k in fb.Keys + fm.Keys && !ignored(k) && Disagree(fb, fm, k) ensures k in Paths(d.entries) {
      assert k in fb.Keys + fa.Keys && Disagree(fb, fa, k);
    }
  }

  /**
   * With ignored paths that differ, the target is the merged tree: it comes out exactly when the
   * first tree and the merged one are restorable.
   */
  lemma DiffIgnoring(b: Value, a: Value, ignored: IgnoreList, d: Diff, r: Outcome, m: Value)
    requires IsStructuralDiff(b, a, ignored, d) && IsApplied(b, d, r) && Merges(b, a, ignored, m)
    requires ArrayStable(b, m)
    ensures r == Ok(m) <==> Restorable(b, m)
  {
    var e := MergedDiff(b, a, ignored, d, m);
    DiffThenApply(b, m, ignored, e, r);
  }

  // Trees without empty containers.

  ghost predicate NoEmptyKey(v: Value) {
    v.Obj? ==> "" !in v.fields
  }

  lemma NoEmptyKeyUntouched(b: Value, a: Value)
    requires NoEmptyKey(b) && NoEmptyKey(a)
    ensures EmptyKeyUntouched(b, a)
  {
    forall v: Value, p: Path | v in {b, a} && LostPrefix(p) ensures KindAt(v, p) == Absent {
      assert ParseIndex("").None?;
      assert Child(v, "").None?;
    }
  }

  /**
   * Without empty containers and empty top-level keys, applying the diff gives the target exactly
   * when the target has arrays where arrays of the first tree stay, and nowhere else: keys come and
   * go, scalars turn into objects and back, arrays change inside, grow, and lose their last element.
   */
  lemma FullTreesRoundTrip(b: Value, a: Value, ignored: IgnoreList, d: Diff, r: Outcome)
    requires IsStructuralDiff(b, a, ignored, d) && IsApplied(b, d, r) && IgnoredAgree(b, a, ignored)
    requires Full(b) && Full(a) && NoEmptyKey(b) && NoEmptyKey(a) && !Scalar(b) && !Scalar(a) && ArrayStable(b, a)
    ensures r == Ok(a) <==> ArraysCarryOver(b, a)
  {
    NoEmptyKeyUntouched(b, a);
    FullTreesAgree(b, a);
    DiffThenApply(b, a, ignored, d, r);
  }

  /** A plain object, none of whose top-level keys is empty. */
  ghost predicate Addressable(v: Value) {
    PlainObject(v) && "" !in v.fields
  }

  lemma PlainIsFull(v: Value)
    requires PlainObject(v)
    ensures Full(v)
  {
    forall p: Path | p != [] && Container(KindAt(v, p)) ensures HasLeafBelow(v, p) {
      var q: Path :| IsLeaf(v, q) && p <= q;
      assert q != p;
    }
  }

  /**
   * For trees of objects without empty containers and without an empty top-level key, applying the
   * diff never fails and gives exactly the target: objects may turn into scalars and back.
   */
  lemma PlainObjectsRoundTrip(b: Value, a: Value, ignored: IgnoreList, d: Diff, r: Outcome)
    requires IsStructuralDiff(b, a, ignored, d) && IsApplied(b, d, r) && IgnoredAgree(b, a, ignored)
    requires Addressable(b) && Addressable(a)
    ensures r == Ok(a)
  {
    PlainIsFull(b);
    PlainIsFull(a);
    assert forall p: Path :: !Kept(b, a, p).ArrNode?;
    FullTreesRoundTrip(b, a, ignored, d, r);
  }

  /** Without ignored differences the merged tree is the target. */
  lemma AgreedMerge(b: Value, a: Value, ignored: IgnoreList)
    ensures IgnoredAgree(b, a, ignored) <==> Merges(b, a, ignored, a)
  {
  }

  /** Diffs two trees and applies the result to the first. */
  method ApplyStructuralDiff(before: Value, after: Value, ignored: IgnoreList) returns (r: Outcome)
    ensures forall m :: Merges(before, after, ignored, m) && ArrayStable(before, m) ==> (r == Ok(m) <==> Restorable(before, m))
    ensures IgnoredAgree(before, after, ignored) && ArrayStable(before, after) ==> (r == Ok(after) <==> Restorable(before, after))
    ensures IgnoredAgree(before, after, ignored) && Addressable(before) && Addressable(after) ==> r == Ok(after)
  {
    var d := StructuralDiff(before, after, ignored);
    r := ApplyDiff(before, d);
    forall m | Merges(before, after, ignored, m) && ArrayStable(before, m) ensures r == Ok(m) <==> Restorable(before, m) {
      DiffIgnoring(before, after, ignored, d, r, m);
    }
    if IgnoredAgree(before, after, ignored) {
      AgreedMerge(before, after, ignored);
      if Addressable(before) && Addressable(after) { PlainObjectsRoundTrip(before, after, ignored, d, r); }
    }
  }

  // Trees of one shape.

  /** The two trees have the same paths, containers and array lengths, and differ in leaf values only. */
  ghost predicate SameShape(b: Value, a: Value) {
    forall p: Path :: KindAt(b, p) == KindAt(a, p) || (IsLeaf(b, p) && IsLeaf(a, p))
  }

  lemma SameShapeLosesNothing(b: Value, a: Value, c: Path)
    requires SameShape(b, a)
    ensures !LosesAll(b, a, c)
  {
    if q: Path :| IsLeaf(b, q) && c <= q {
      assert IsLeaf(a, q);
    }
  }

  lemma SameShapeKeepsAll(b: Value, a: Value, p: Path)
    requires SameShape(b, a)
    ensures Kept(b, a, p) == KindAt(b, p)
  {
    forall c: Path ensures !LosesAll(b, a, c) { SameShapeLosesNothing(b, a, c); }
  }

  lemma SameShapeIsStable(b: Value, a: Value)
    requires SameShape(b, a)
    ensures ArrayStable(b, a)
  {
    forall p: Path | Kept(b, a, p).ArrNode? ensures ElementsStay(b, a, p) {
      forall s ensures !LosesAll(b, a, p + [s]) { SameShapeLosesNothing(b, a, p + [s]); }
      forall q: Path ensures !NewBelow(b, a, p, q) {
        if IsLeaf(a, q) && Below(p, q) { SharedLeafKept(b, a, q); }
      }
    }
  }

  lemma SameShapeLength(b: Value, a: Value, p: Path)
    requires SameShape(b, a)
    ensures Kept(b, a, p) == KindAt(a, p) || (IsLeaf(a, p) && Kept(b, a, p).Leaf?)
    ensures !Outgrown(b, a, p)
  {
    SameShapeKeepsAll(b, a, p);
    if q: Path :| IsLeaf(a, q) && Overtakes(b, a, q, p) {
      OvertakerIsNew(b, a, q, p);
      SharedLeafKept(b, a, q);
    }
  }

  lemma SameShapeContainers(b: Value, a: Value)
    requires SameShape(b, a)
    ensures ContainersAgree(b, a)
  {
    forall p: Path
      ensures HasLeafBelow(a, p) ==> HoldsLeaves(b, a, p)
      ensures Leafless(a, p) ==> IsLeftover(b, a, p, KindAt(a, p))
    {
      SameShapeLength(b, a, p);
      LeafHasNoneBelow(a, p);
      if HasLeafBelow(a, p) { ContainerAbove(a, p); }
    }
  }

  /** Changing leaf values only, inside arrays too, round-trips unless a changed leaf hides below an empty top-level key. */
  lemma LeafChangesRoundTrip(b: Value, a: Value, ignored: IgnoreList, d: Diff, r: Outcome)
    requires IsStructuralDiff(b, a, ignored, d) && IsApplied(b, d, r) && IgnoredAgree(b, a, ignored)
    requires SameShape(b, a)
    ensures r == Ok(a) <==> forall p: Path :: LostPrefix(p) ==> KindAt(b, p) == KindAt(a, p)
  {
    SameShapeIsStable(b, a);
    SameShapeContainers(b, a);
    DiffThenApply(b, a, ignored, d, r);
    assert KindAt(b, []) == KindOf(b) && KindAt(a, []) == KindOf(a);
    if Scalar(a) {
      forall p: Path | LostPrefix(p) ensures KindAt(a, p) == Absent == KindAt(b, p) {
      }
    }
  }

  // What pruning leaves behind.

  /**
   * Pruning empties no container but the root: if a container below the root had leaves, it is
   * pruned itself or keeps one of them.
   */
  lemma NothingEmptied(v: Value, flat: LeafMap, removed: set<string>, roots: seq<string>, p: Path)
    requires IsFlat(v, flat) && removed <= flat.Keys && Prune.IsCover(flat, removed, roots) && !Scalar(v)
    requires p != [] && exists q: Path :: IsLeaf(v, q) && p <= q
    ensures Prune.Covered(roots, Pointer.Encode(p)) ||
            exists q: Path :: IsLeaf(v, q) && p <= q && !Prune.Covered(roots, Pointer.Encode(q))
  {
    Prune.CoveredIffPruned(v, flat, removed, roots, p);
    if forall q: Path :: IsLeaf(v, q) && p <= q ==> Pointer.Encode(q) in removed {
      assert p <= p && Prune.Gone(v, removed, p);
    } else {
      var q: Path :| IsLeaf(v, q) && p <= q && Pointer.Encode(q) !in removed;
      LeafIsKey(v, flat, q);
      Prune.ExactCover(v, flat, removed, roots, Pointer.Encode(q));
    }
  }

  // Pairs that do not come back.

  /** A container below an object that survives in the target without leaves, but loses all it had, is never restored. */
  lemma EmptiedContainerIsLost(b: Value, a: Value, ignored: IgnoreList, d: Diff, r: Outcome, p: Path)
    requires IsStructuralDiff(b, a, ignored, d) && IsApplied(b, d, r) && IgnoredAgree(b, a, ignored)
    requires ArrayStable(b, a) && p != [] && LosesAll(b, a, p) && KindAt(b, p[..|p| - 1]).ObjNode?
    requires Leafless(a, p) && Container(KindAt(a, p))
    ensures r != Ok(a)
  {
    DiffThenApply(b, a, ignored, d, r);
    assert p <= p && Vanishes(b, a, p);
    ContainerNotScalar(a, p);
    NotOutgrownInObject(b, a, p);
  }

  /** Below an object of `b`, nothing grows. */
  lemma NotOutgrownInObject(b: Value, a: Value, p: Path)
    requires p != [] && KindAt(b, p[..|p| - 1]).ObjNode?
    ensures !Outgrown(b, a, p)
  {
  }

  /**
   * An array that stays but loses its last element and another one fails, whatever else changes
   * in trees without an empty top-level key: after the first removal the last index is gone.
   */
  lemma ShrunkArrayFails(b: Value, a: Value, ignored: IgnoreList, d: Diff, r: Outcome, h: Path, i: nat, last: nat)
    requires IsStructuralDiff(b, a, ignored, d) && IsApplied(b, d, r) && IgnoredAgree(b, a, ignored)
    requires EmptyKeyUntouched(b, a) && LosesTwo(b, a, h, i, last)
    ensures r.Err?
  {
    var fb, fa, roots := SettingOf(b, a, ignored, d, r);
    RemovalFails(b, a, fb, fa, ignored, d, roots, h, i, last);
  }
}
