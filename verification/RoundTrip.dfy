/** Applying a structural diff to the tree it started from: what comes out, and when that is the target. */
module RoundTrip {
  import opened Wrappers
  import opened Json
  import opened Diff
  import opened Flatten
  import opened Apply
  import opened WriteEffects
  import opened Rebuild
  import opened Patching
  import Pointer
  import Prune

  /** The paths an entry writes. */
  function Writes(e: DiffEntry): set<Path> {
    if e.Removed? then {} else {Pointer.Decode(e.path)}
  }

  function AllWrites(entries: seq<DiffEntry>): set<Path> {
    if entries == [] then {} else Writes(entries[0]) + AllWrites(entries[1..])
  }

  /** A written path is a leaf of `a` that `b` does not have, or has with another value. */
  lemma WrittenLeaf(b: Value, a: Value, fb: LeafMap, fa: LeafMap, e: DiffEntry)
    requires IsFlat(b, fb) && IsFlat(a, fa) && Fits(fb, fa, e) && !e.Removed?
    ensures var q := Pointer.Decode(e.path);
      Pointer.Encode(q) == e.path && KindAt(a, q) == Leaf(e.after) && KindAt(b, q) != KindAt(a, q)
    ensures Scalar(e.after)
    ensures e.Modified? ==> IsLeaf(b, Pointer.Decode(e.path))
  {
    var q := Pointer.Decode(e.path);
    KeyIsLeaf(a, fa, e.path);
    LeafIsKey(a, fa, q);
    LeafIsKey(b, fb, q);
  }

  /** Where `b` has a leaf already, the parents are all there. */
  lemma OverwriteStep(b: Value, a: Value, done: set<Path>, cur: Value, q: Path, v: Value)
    requires !Scalar(b) && ArrayStable(b, a) && IsPatched(b, a, done, cur)
    requires q != [] && KindAt(a, q) == Leaf(v) && Scalar(v) && IsLeaf(b, q)
    ensures SetAt(cur, q, v).Ok? && IsPatched(b, a, done + {q}, SetAt(cur, q, v).value)
  {
    var above := q[..|q| - 1];
    WriteStep(b, a, done, cur, q, v);
    SharedLeafKept(b, a, q);
    PatchedIfKept(b, a, done, above, KindAt(cur, above), q);
    EnsureNothing(cur, above);
  }

  lemma ParentsOf(q: Path)
    requires q != [] && !LostPrefix(q)
    ensures forall root :: EnsureParent(root, Pointer.Encode(q)) == EnsureAt(root, q[..|q| - 1])
  {
    WalkedAsIs(q);
    Pointer.SegmentsRoot();
  }

  lemma RemovedCovered(b: Value, a: Value, fb: LeafMap, fa: LeafMap, ignored: IgnoreList, d: Diff, roots: seq<string>, e: DiffEntry)
    requires Setting(b, a, fb, fa, ignored, d, roots) && e in d.entries && e.Removed?
    ensures Prune.Covered(roots, e.path)
  {
    assert Fits(fb, fa, e);
    RemovedExactly(fb, fa, ignored, d);
    Prune.ExactCover(b, fb, fb.Keys - fa.Keys, roots, e.path);
  }

  lemma AddedStep(b: Value, a: Value, done: set<Path>, cur: Value, roots: seq<string>, q: Path, v: Value)
    requires !Scalar(b) && ArrayStable(b, a) && IsPatched(b, a, done, cur)
    requires q != [] && !LostPrefix(q) && KindAt(a, q) == Leaf(v) && Scalar(v)
    ensures var next := ApplyEntry(cur, roots, Added(Pointer.Encode(q), v));
      next.Ok? && IsPatched(b, a, done + {q}, next.value)
  {
    WalkedAsIs(q);
    ParentsOf(q);
    WriteStep(b, a, done, cur, q, v);
  }

  lemma ModifiedStep(b: Value, a: Value, done: set<Path>, cur: Value, roots: seq<string>, q: Path, u: Value, v: Value)
    requires !Scalar(b) && ArrayStable(b, a) && IsPatched(b, a, done, cur)
    requires q != [] && !LostPrefix(q) && KindAt(a, q) == Leaf(v) && Scalar(v) && IsLeaf(b, q)
    ensures var next := ApplyEntry(cur, roots, Modified(Pointer.Encode(q), u, v));
      next.Ok? && IsPatched(b, a, done + {q}, next.value)
  {
    WalkedAsIs(q);
    OverwriteStep(b, a, done, cur, q, v);
  }

  lemma EntryStep(b: Value, a: Value, fb: LeafMap, fa: LeafMap, ignored: IgnoreList, d: Diff, roots: seq<string>,
                  done: set<Path>, cur: Value, e: DiffEntry)
    requires Setting(b, a, fb, fa, ignored, d, roots) && !Scalar(b) && !Scalar(a)
    requires ArrayStable(b, a) && EmptyKeyUntouched(b, a)
    requires IsPatched(b, a, done, cur) && e in d.entries
    ensures ApplyEntry(cur, roots, e).Ok? && IsPatched(b, a, done + Writes(e), ApplyEntry(cur, roots, e).value)
  {
    if e.Removed? {
      RemovedCovered(b, a, fb, fa, ignored, d, roots, e);
      assert done + {} == done;
    } else {
      var q := Pointer.Decode(e.path);
      EntryIsWritable(b, a, fb, fa, ignored, d, roots, e);
      if e.Added? {
        AddedStep(b, a, done, cur, roots, q, e.after);
      } else {
        ModifiedStep(b, a, done, cur, roots, q, e.before, e.after);
      }
    }
  }

  lemma EntryIsWritable(b: Value, a: Value, fb: LeafMap, fa: LeafMap, ignored: IgnoreList, d: Diff, roots: seq<string>,
                        e: DiffEntry)
    requires Setting(b, a, fb, fa, ignored, d, roots) && !Scalar(a) && EmptyKeyUntouched(b, a)
    requires e in d.entries && !e.Removed?
    ensures var q := Pointer.Decode(e.path);
      q != [] && !LostPrefix(q) && Pointer.Encode(q) == e.path && KindAt(a, q) == Leaf(e.after)
      && Scalar(e.after) && (e.Modified? ==> IsLeaf(b, q))
  {
    assert Fits(fb, fa, e);
    WrittenLeaf(b, a, fb, fa, e);
    LeafBelowRoot(a, Pointer.Decode(e.path));
  }

  lemma LeafBelowRoot(a: Value, q: Path)
    requires !Scalar(a) && IsLeaf(a, q)
    ensures q != []
  {
  }

  lemma {:induction false} EntriesKind(b: Value, a: Value, fb: LeafMap, fa: LeafMap, ignored: IgnoreList, d: Diff,
                                       roots: seq<string>, done: set<Path>, cur: Value, entries: seq<DiffEntry>)
    requires Setting(b, a, fb, fa, ignored, d, roots) && !Scalar(b) && !Scalar(a)
    requires ArrayStable(b, a) && EmptyKeyUntouched(b, a)
    requires IsPatched(b, a, done, cur) && forall i :: 0 <= i < |entries| ==> entries[i] in d.entries
    ensures ApplyEntries(cur, roots, entries).Ok?
    ensures IsPatched(b, a, done + AllWrites(entries), ApplyEntries(cur, roots, entries).value)
    decreases |entries|
  {
    if entries == [] {
      assert done + {} == done;
    } else {
      EntryStep(b, a, fb, fa, ignored, d, roots, done, cur, entries[0]);
      var next := ApplyEntry(cur, roots, entries[0]).value;
      EntriesKind(b, a, fb, fa, ignored, d, roots, done + Writes(entries[0]), next, entries[1..]);
      assert done + Writes(entries[0]) + AllWrites(entries[1..]) == done + AllWrites(entries);
    }
  }

  lemma {:induction false} AllWritesElement(entries: seq<DiffEntry>, q: Path)
    ensures q in AllWrites(entries) <==> exists e :: e in entries && q in Writes(e)
  {
    if entries != [] {
      AllWritesElement(entries[1..], q);
      assert entries[0] in entries;
      assert forall e :: e in entries <==> e == entries[0] || e in entries[1..];
    }
  }

  /** The diff writes exactly the leaves of `a` that differ from `b`. */
  lemma WritesChangedLeaves(b: Value, a: Value, fb: LeafMap, fa: LeafMap, ignored: IgnoreList, d: Diff,
                            roots: seq<string>, q: Path)
    requires Setting(b, a, fb, fa, ignored, d, roots)
    ensures q in AllWrites(d.entries) <==> IsLeaf(a, q) && KindAt(b, q) != KindAt(a, q)
  {
    AllWritesElement(d.entries, q);
    LeafIsKey(a, fa, q);
    LeafIsKey(b, fb, q);
    Pointer.DecodeEncode(q);
    var k := Pointer.Encode(q);
    if IsLeaf(a, q) && KindAt(b, q) != KindAt(a, q) {
      PathsDisagree(fb, fa, ignored, d, k);
      var e :| e in d.entries && e.path == k;
      assert Fits(fb, fa, e) && q in Writes(e);
    }
    if q in AllWrites(d.entries) {
      var e :| e in d.entries && q in Writes(e);
      assert Fits(fb, fa, e);
      WrittenLeaf(b, a, fb, fa, e);
    }
  }

  /** What the diff engine computes, path by path: what is kept of `b`, with the changed leaves of `a` written. */
  lemma ApplyRebuilds(b: Value, a: Value, fb: LeafMap, fa: LeafMap, ignored: IgnoreList, d: Diff, roots: seq<string>)
    requires Setting(b, a, fb, fa, ignored, d, roots) && !Scalar(b) && !Scalar(a)
    requires ArrayStable(b, a) && EmptyKeyUntouched(b, a)
    ensures Applied(b, roots, d.entries).Ok? && ChangedLeaves(b, a, AllWrites(d.entries))
    ensures IsPatched(b, a, AllWrites(d.entries), Applied(b, roots, d.entries).value)
  {
    PrunedTree(b, a, fb, fa, ignored, d, roots);
    var pruned := RemoveRoots(b, roots).value;
    forall p: Path ensures PatchedTo(b, a, {}, p, KindAt(pruned, p)) {
    }
    EntriesKind(b, a, fb, fa, ignored, d, roots, {}, pruned, d.entries);
    assert {} + AllWrites(d.entries) == AllWrites(d.entries);
    forall q: Path ensures q in AllWrites(d.entries) <==> IsLeaf(a, q) && KindAt(b, q) != KindAt(a, q) {
      WritesChangedLeaves(b, a, fb, fa, ignored, d, roots, q);
    }
  }

  // Scalars at the root.

  predicate AnyWrite(entries: seq<DiffEntry>) {
    exists e :: e in entries && !e.Removed?
  }

  /** Every write puts `a` at the root; the removals are taken care of by the roots. */
  ghost predicate RootWrites(a: Value, roots: seq<string>, entries: seq<DiffEntry>) {
    forall e :: e in entries ==>
      if e.Removed? then Prune.Covered(roots, e.path) else e.path == "" && e.after == a
  }

  lemma {:induction false} ScalarEntries(a: Value, roots: seq<string>, cur: Value, entries: seq<DiffEntry>)
    requires RootWrites(a, roots, entries)
    ensures ApplyEntries(cur, roots, entries) ==
      Ok(if AnyWrite(entries) then a else cur)
    decreases |entries|
  {
    if entries != [] {
      assert entries[0] in entries;
      assert forall e :: e in entries <==> e == entries[0] || e in entries[1..];
      ScalarEntries(a, roots, ApplyEntry(cur, roots, entries[0]).value, entries[1..]);
    }
  }

  lemma ScalarKeys(v: Value, m: LeafMap)
    requires Scalar(v) && IsFlat(v, m)
    ensures m == map["" := v]
  {
    LeafIsKey(v, m, []);
    forall k | k in m ensures k == "" {
      KeyIsLeaf(v, m, k);
    }
  }

  lemma ScalarTargetEntries(b: Value, a: Value, fb: LeafMap, fa: LeafMap, ignored: IgnoreList, d: Diff, roots: seq<string>)
    requires Setting(b, a, fb, fa, ignored, d, roots) && Scalar(a)
    ensures RootWrites(a, roots, d.entries)
  {
    ScalarKeys(a, fa);
    forall e | e in d.entries
      ensures if e.Removed? then Prune.Covered(roots, e.path) else e.path == "" && e.after == a
    {
      assert Fits(fb, fa, e);
      if e.Removed? { RemovedCovered(b, a, fb, fa, ignored, d, roots, e); }
    }
  }

  /** The root is written exactly when it changes. */
  lemma RootWritten(b: Value, a: Value, fb: LeafMap, fa: LeafMap, ignored: IgnoreList, d: Diff, roots: seq<string>)
    requires Setting(b, a, fb, fa, ignored, d, roots) && Scalar(a) && b != a
    ensures AnyWrite(d.entries)
  {
    ScalarKeys(a, fa);
    LeafIsKey(b, fb, []);
    PathsDisagree(fb, fa, ignored, d, "");
    var e :| e in d.entries && e.path == "";
    assert Fits(fb, fa, e);
  }

  lemma NoRootsForScalars(b: Value, a: Value, fb: LeafMap, fa: LeafMap, ignored: IgnoreList, d: Diff, roots: seq<string>)
    requires Setting(b, a, fb, fa, ignored, d, roots) && Scalar(a) && Scalar(b)
    ensures roots == []
  {
    ScalarKeys(a, fa);
    ScalarKeys(b, fb);
    RemovedExactly(fb, fa, ignored, d);
    assert fb.Keys - fa.Keys == {};
    assert forall c :: !Prune.Candidate({}, c);
    FirstRoot(fb, {}, roots);
  }

  lemma FirstRoot(flat: LeafMap, removed: set<string>, roots: seq<string>)
    requires Prune.IsCover(flat, removed, roots)
    ensures roots != [] ==> Prune.Candidate(removed, roots[0])
  {
  }

  /** A scalar target is always reached. */
  lemma ScalarTarget(b: Value, a: Value, fb: LeafMap, fa: LeafMap, ignored: IgnoreList, d: Diff, roots: seq<string>)
    requires Setting(b, a, fb, fa, ignored, d, roots) && ArrayStable(b, a) && Scalar(a)
    ensures Applied(b, roots, d.entries) == Ok(a)
  {
    RootsGo(b, a, fb, fa, ignored, d, roots);
    ScalarTargetEntries(b, a, fb, fa, ignored, d, roots);
    if b != a { RootWritten(b, a, fb, fa, ignored, d, roots); }
    ScalarOutcome(b, a, roots, d.entries);
  }

  lemma ScalarOutcome(b: Value, a: Value, roots: seq<string>, entries: seq<DiffEntry>)
    requires RemoveRoots(b, roots).Ok? && RootWrites(a, roots, entries)
    requires AnyWrite(entries) || RemoveRoots(b, roots) == Ok(a)
    ensures Applied(b, roots, entries) == Ok(a)
  {
    ScalarEntries(a, roots, RemoveRoots(b, roots).value, entries);
  }

  lemma RootsGo(b: Value, a: Value, fb: LeafMap, fa: LeafMap, ignored: IgnoreList, d: Diff, roots: seq<string>)
    requires Setting(b, a, fb, fa, ignored, d, roots) && ArrayStable(b, a) && Scalar(a)
    ensures RemoveRoots(b, roots).Ok?
    ensures Scalar(b) ==> RemoveRoots(b, roots) == Ok(b)
  {
    if Scalar(b) {
      NoRootsForScalars(b, a, fb, fa, ignored, d, roots);
    } else {
      LosesTheEmptyKey(b, a);
      PrunedTree(b, a, fb, fa, ignored, d, roots);
    }
  }

  lemma LosesTheEmptyKey(b: Value, a: Value)
    requires !Scalar(b) && Scalar(a)
    ensures EmptyKeyUntouched(b, a)
  {
    assert forall p: Path :: IsLeaf(a, p) ==> p == [];
    forall p: Path | IsLeaf(b, p) && LostPrefix(p) ensures LosesAll(b, a, [""]) {
      assert [""] <= p;
    }
  }

  lemma WriteIntoScalar(b: Value, p: Path, v: Value)
    requires Scalar(b) && p != []
    ensures SetAt(b, p, v).Err?
    ensures EnsureAt(b, p[..|p| - 1]).Err? || EnsureAt(b, p[..|p| - 1]) == Ok(b)
  {
  }

  lemma {:induction false} ScalarStays(b: Value, roots: seq<string>, entries: seq<DiffEntry>)
    requires Scalar(b)
    requires forall e :: e in entries ==> if e.Removed? then Prune.Covered(roots, e.path) else e.path != ""
    ensures ApplyEntries(b, roots, entries).Err? || ApplyEntries(b, roots, entries) == Ok(b)
    decreases |entries|
  {
    if entries != [] {
      assert entries[0] in entries;
      if !entries[0].Removed? {
        WriteIntoScalar(b, Pointer.Segments(entries[0].path), entries[0].after);
      } else {
        ScalarStays(b, roots, entries[1..]);
      }
    }
  }

  lemma {:induction false} RootRemovalsDoNothing(b: Value, roots: seq<string>)
    requires forall i :: 0 <= i < |roots| ==> roots[i] == ""
    ensures RemoveRoots(b, roots) == Ok(b)
    decreases |roots|
  {
    if roots != [] { RootRemovalsDoNothing(b, roots[1..]); }
  }

  /** A scalar never turns into a container: removing the root does nothing, and nothing fits below it. */
  lemma ScalarSource(b: Value, a: Value, fb: LeafMap, fa: LeafMap, ignored: IgnoreList, d: Diff, roots: seq<string>)
    requires Setting(b, a, fb, fa, ignored, d, roots) && Scalar(b) && !Scalar(a)
    ensures Applied(b, roots, d.entries) != Ok(a)
  {
    ScalarKeys(b, fb);
    RemovedExactly(fb, fa, ignored, d);
    forall i | 0 <= i < |roots| ensures roots[i] == "" {
      assert Prune.Candidate(fb.Keys - fa.Keys, roots[i]);
    }
    RootRemovalsDoNothing(b, roots);
    ScalarSourceEntries(b, a, fb, fa, ignored, d, roots);
    ScalarStays(b, roots, d.entries);
  }

  lemma ScalarSourceEntries(b: Value, a: Value, fb: LeafMap, fa: LeafMap, ignored: IgnoreList, d: Diff, roots: seq<string>)
    requires Setting(b, a, fb, fa, ignored, d, roots) && !Scalar(a)
    ensures forall e :: e in d.entries ==> if e.Removed? then Prune.Covered(roots, e.path) else e.path != ""
  {
    LeafIsKey(a, fa, []);
    forall e | e in d.entries
      ensures if e.Removed? then Prune.Covered(roots, e.path) else e.path != ""
    {
      assert Fits(fb, fa, e);
      if e.Removed? { RemovedCovered(b, a, fb, fa, ignored, d, roots, e); }
    }
  }

  // A changed leaf below an empty top-level key.

  /** The value of the empty top-level key is still what it was, or gone, or a scalar. */
  predicate EmptyKeyKept(b: Value, cur: Value) {
    Child(cur, "") == Child(b, "") || Child(cur, "").None? || Scalar(Child(cur, "").value)
  }

  /** A path that does not lead through the empty top-level key, though it may end there. */
  predicate AvoidsEmptyKey(e: Path) {
    e != [] && (e[0] != "" || e == [""])
  }

  lemma WalkAvoidsEmptyKey(p: Path)
    requires p != []
    ensures AvoidsEmptyKey(Pointer.Segments(Pointer.Encode(p)))
    ensures Pointer.Encode(p) != ""
  {
    Pointer.SegmentsEncode(p);
    Pointer.EffectiveShorter(p);
    Pointer.SplitEncode(p);
  }

  lemma SetKeepsEmptyKey(b: Value, cur: Value, e: Path, v: Value)
    requires EmptyKeyKept(b, cur) && AvoidsEmptyKey(e) && Scalar(v)
    ensures SetAt(cur, e, v).Ok? ==> EmptyKeyKept(b, SetAt(cur, e, v).value)
  {
    assert ParseIndex("").None?;
  }

  lemma RemoveKeepsEmptyKey(b: Value, cur: Value, e: Path)
    requires EmptyKeyKept(b, cur) && AvoidsEmptyKey(e)
    ensures RemoveAt(cur, e).Ok? ==> EmptyKeyKept(b, RemoveAt(cur, e).value)
  {
    assert ParseIndex("").None?;
  }

  lemma EnsureKeepsEmptyKey(b: Value, cur: Value, e: Path)
    requires EmptyKeyKept(b, cur) && AvoidsEmptyKey(e)
    ensures EnsureAt(cur, e[..|e| - 1]).Ok? ==> EmptyKeyKept(b, EnsureAt(cur, e[..|e| - 1]).value)
  {
    assert ParseIndex("").None?;
    assert |e| > 1 ==> e[..|e| - 1][0] == e[0];
  }

  lemma EntryKeepsEmptyKey(b: Value, roots: seq<string>, cur: Value, e: DiffEntry, p: Path)
    requires EmptyKeyKept(b, cur) && p != [] && e.path == Pointer.Encode(p)
    requires if e.Removed? then Prune.Covered(roots, e.path) else Scalar(e.after)
    ensures ApplyEntry(cur, roots, e).Ok? ==> EmptyKeyKept(b, ApplyEntry(cur, roots, e).value)
  {
    WalkAvoidsEmptyKey(p);
    if !e.Removed? {
      var walk := Pointer.Segments(e.path);
      SetKeepsEmptyKey(b, cur, walk, e.after);
      EnsureKeepsEmptyKey(b, cur, walk);
      if e.Added? && EnsureParent(cur, e.path).Ok? {
        SetKeepsEmptyKey(b, EnsureParent(cur, e.path).value, walk, e.after);
      }
    }
  }

  /** The pointer of some path below the root. */
  ghost predicate Proper(k: string) {
    Pointer.Decode(k) != [] && Pointer.Encode(Pointer.Decode(k)) == k
  }

  ghost predicate ProperRoots(roots: seq<string>) {
    forall i :: 0 <= i < |roots| ==> Proper(roots[i])
  }

  ghost predicate ProperEntry(roots: seq<string>, e: DiffEntry) {
    Proper(e.path) && if e.Removed? then Prune.Covered(roots, e.path) else Scalar(e.after)
  }

  ghost predicate ProperEntries(roots: seq<string>, entries: seq<DiffEntry>) {
    forall e :: e in entries ==> ProperEntry(roots, e)
  }

  lemma {:induction false} EntriesKeepEmptyKey(b: Value, roots: seq<string>, cur: Value, entries: seq<DiffEntry>)
    requires EmptyKeyKept(b, cur) && ProperEntries(roots, entries)
    ensures ApplyEntries(cur, roots, entries).Ok? ==> EmptyKeyKept(b, ApplyEntries(cur, roots, entries).value)
    decreases |entries|
  {
    if entries != [] {
      assert entries[0] in entries;
      EntryKeepsEmptyKey(b, roots, cur, entries[0], Pointer.Decode(entries[0].path));
      if ApplyEntry(cur, roots, entries[0]).Ok? {
        EntriesKeepEmptyKey(b, roots, ApplyEntry(cur, roots, entries[0]).value, entries[1..]);
      }
    }
  }

  lemma {:induction false} RemovalsKeepEmptyKey(b: Value, cur: Value, roots: seq<string>)
    requires EmptyKeyKept(b, cur) && ProperRoots(roots)
    ensures RemoveRoots(cur, roots).Ok? ==> EmptyKeyKept(b, RemoveRoots(cur, roots).value)
    decreases |roots|
  {
    if roots != [] {
      var p := Pointer.Decode(roots[0]);
      WalkAvoidsEmptyKey(p);
      RemoveKeepsEmptyKey(b, cur, Pointer.Segments(roots[0]));
      if PointerRemove(cur, roots[0]).Ok? {
        RemovalsKeepEmptyKey(b, PointerRemove(cur, roots[0]).value, roots[1..]);
      }
    }
  }

  lemma EntryPaths(b: Value, a: Value, fb: LeafMap, fa: LeafMap, ignored: IgnoreList, d: Diff, roots: seq<string>, e: DiffEntry)
    requires Setting(b, a, fb, fa, ignored, d, roots) && !Scalar(b) && !Scalar(a) && e in d.entries
    ensures ProperEntry(roots, e)
  {
    assert Fits(fb, fa, e);
    var q := Pointer.Decode(e.path);
    if e.Removed? {
      RemovedCovered(b, a, fb, fa, ignored, d, roots, e);
      KeyIsLeaf(b, fb, e.path);
      LeafBelowRoot(b, q);
    } else {
      WrittenLeaf(b, a, fb, fa, e);
      LeafBelowRoot(a, q);
    }
  }

  lemma EmptyKeyInvariant(b: Value, a: Value, fb: LeafMap, fa: LeafMap, ignored: IgnoreList, d: Diff, roots: seq<string>)
    requires Setting(b, a, fb, fa, ignored, d, roots) && !Scalar(b) && !Scalar(a)
    ensures Applied(b, roots, d.entries).Ok? ==> EmptyKeyKept(b, Applied(b, roots, d.entries).value)
  {
    forall i | 0 <= i < |roots| ensures Proper(roots[i]) {
      RootLosesAll(b, a, fb, fa, ignored, d, roots, i);
    }
    forall e | e in d.entries ensures ProperEntry(roots, e) {
      EntryPaths(b, a, fb, fa, ignored, d, roots, e);
    }
    AppliedKeepsEmptyKey(b, roots, d.entries);
  }

  lemma AppliedKeepsEmptyKey(b: Value, roots: seq<string>, entries: seq<DiffEntry>)
    requires ProperRoots(roots) && ProperEntries(roots, entries)
    ensures Applied(b, roots, entries).Ok? ==> EmptyKeyKept(b, Applied(b, roots, entries).value)
  {
    RemovalsKeepEmptyKey(b, b, roots);
    if RemoveRoots(b, roots).Ok? {
      EntriesKeepEmptyKey(b, roots, RemoveRoots(b, roots).value, entries);
    }
  }

  lemma ThroughEmptyKey(u: Value, v: Value, p: Path)
    requires LostPrefix(p) && Child(u, "") == Child(v, "")
    ensures KindAt(u, p) == KindAt(v, p)
  {
  }

  lemma HoldsContainer(v: Value, p: Path)
    requires LostPrefix(p) && KindAt(v, p) != Absent
    ensures Child(v, "").Some? && !Scalar(Child(v, "").value)
  {
    assert At(v, p).Some? && p[1..] != [];
    var child := Child(v, "").value;
    assert At(child, p[1..]).Some?;
    assert Child(child, p[1..][0]).Some?;
  }

  /** If the empty top-level key is touched, what comes out keeps the old value there, or loses it. */
  lemma EmptyKeyFails(b: Value, a: Value)
    requires !EmptyKeyUntouched(b, a)
    ensures !EmptyKeyKept(b, a)
  {
    if p: Path :| IsLeaf(a, p) && LostPrefix(p) && KindAt(b, p) != KindAt(a, p) {
      HoldsContainer(a, p);
      if Child(a, "") == Child(b, "") { ThroughEmptyKey(a, b, p); }
    } else {
      var p: Path :| IsLeaf(b, p) && !IsLeaf(a, p) && LostPrefix(p) && !LosesAll(b, a, [""]);
      assert [""] <= p;
      var q: Path :| IsLeaf(b, q) && [""] <= q && IsLeaf(a, q);
      if |q| == 1 { assert q <= p; LeavesIncomparable(b, q, p); }
      HoldsContainer(a, q);
      if Child(a, "") == Child(b, "") { ThroughEmptyKey(a, b, p); }
    }
  }

  /**
   * The law of the diff engine, for every pair of trees in which no array shifts: applying
   * the diff gives the target exactly when the pair is restorable.
   */
  lemma ApplyInvertsDiff(b: Value, a: Value, fb: LeafMap, fa: LeafMap, ignored: IgnoreList, d: Diff, roots: seq<string>)
    requires Setting(b, a, fb, fa, ignored, d, roots) && ArrayStable(b, a)
    ensures Applied(b, roots, d.entries) == Ok(a) <==> Restorable(b, a)
  {
    if Scalar(a) {
      ScalarTarget(b, a, fb, fa, ignored, d, roots);
    } else if Scalar(b) {
      ScalarSource(b, a, fb, fa, ignored, d, roots);
    } else if !EmptyKeyUntouched(b, a) {
      EmptyKeyInvariant(b, a, fb, fa, ignored, d, roots);
      EmptyKeyFails(b, a);
    } else {
      ApplyRebuilds(b, a, fb, fa, ignored, d, roots);
      PatchedIsTarget(b, a, AllWrites(d.entries), Applied(b, roots, d.entries).value);
    }
  }
}
