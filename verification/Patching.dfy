/** What stands at each path once some leaves of the target are written, and once all are. */
module Patching {
  import opened Json
  import opened Apply
  import opened WriteEffects
  import opened Rebuild

  ghost predicate DoneAbove(done: set<Path>, p: Path) {
    exists d :: d in done && Below(d, p)
  }

  ghost predicate DoneBelow(done: set<Path>, p: Path) {
    exists d :: d in done && Below(p, d)
  }

  /** Some written path has grown an array beyond `p`. */
  ghost predicate Overtaken(b: Value, a: Value, done: set<Path>, p: Path) {
    exists d :: d in done && Overtakes(b, a, d, p)
  }

  ghost predicate FilledBy(b: Value, a: Value, done: set<Path>, p: Path, k: Kind) {
    exists d :: d in done && Fills(b, a, d, p, k)
  }

  /** An array of `kept` elements has grown to `n`, just as far as the written paths need it. */
  ghost predicate GrownTo(done: set<Path>, p: Path, kept: nat, n: nat) {
    && kept <= n
    && (forall d :: d in done && LeadsInto(d, p) ==> IndexOf(d[|p|]).value < n)
    && (n == kept || exists d :: d in done && LeadsInto(d, p) && IndexOf(d[|p|]).value + 1 == n)
  }

  ghost predicate IsNew(b: Value, a: Value, done: set<Path>, p: Path, k: Kind) {
    if DoneBelow(done, p) then k == ObjNode
    else if Overtaken(b, a, done, p) then FilledBy(b, a, done, p, k)
    else k == Absent
  }

  ghost predicate PatchedTo(b: Value, a: Value, done: set<Path>, p: Path, k: Kind) {
    if p in done then k == KindAt(a, p)
    else if DoneAbove(done, p) then k == Absent
    else
      match Kept(b, a, p)
      case Absent => IsNew(b, a, done, p, k)
      case ArrNode(n) => k.ArrNode? && GrownTo(done, p, n, k.n)
      case kept => k == kept
  }

  ghost predicate LeavesOf(a: Value, done: set<Path>) {
    forall d :: d in done ==> IsLeaf(a, d)
  }

  ghost predicate IsPatched(b: Value, a: Value, done: set<Path>, cur: Value) {
    LeavesOf(a, done) && forall p: Path :: PatchedTo(b, a, done, p, KindAt(cur, p))
  }

  lemma NotDoneAbove(a: Value, done: set<Path>, p: Path, q: Path)
    requires LeavesOf(a, done) && IsLeaf(a, q)
    ensures p <= q ==> !DoneAbove(done, p)
    ensures Below(p, q) || Below(q, p) ==> p !in done && !IsLeaf(a, p)
  {
    if p != q && p <= q && IsLeaf(a, p) { LeavesIncomparable(a, p, q); }
    if p != q && q <= p && IsLeaf(a, p) { LeavesIncomparable(a, q, p); }
    if p <= q {
      forall d | d in done ensures !Below(d, p) {
        if Below(d, p) { LeavesIncomparable(a, d, q); }
      }
    }
  }

  lemma MoreDone(done: set<Path>, q: Path, p: Path)
    ensures DoneAbove(done + {q}, p) <==> DoneAbove(done, p) || Below(q, p)
    ensures DoneBelow(done + {q}, p) <==> DoneBelow(done, p) || Below(p, q)
  {
    assert q in done + {q};
    if DoneAbove(done, p) {
      var d :| d in done && Below(d, p);
      assert d in done + {q};
    }
    if DoneBelow(done, p) {
      var d :| d in done && Below(p, d);
      assert d in done + {q};
    }
  }

  lemma OneMore(done: set<Path>, q: Path, such: Path -> bool)
    ensures (exists d :: d in done + {q} && such(d)) <==> (exists d :: d in done && such(d)) || such(q)
  {
    assert q in done + {q};
    if d :| d in done && such(d) {
      assert d in done + {q};
    }
  }

  lemma MoreOvertaken(b: Value, a: Value, done: set<Path>, q: Path, p: Path)
    ensures Overtaken(b, a, done + {q}, p) <==> Overtaken(b, a, done, p) || Overtakes(b, a, q, p)
  {
    OneMore(done, q, d => Overtakes(b, a, d, p));
  }

  lemma MoreFilled(b: Value, a: Value, done: set<Path>, q: Path, p: Path, k: Kind)
    ensures FilledBy(b, a, done + {q}, p, k) <==> FilledBy(b, a, done, p, k) || Fills(b, a, q, p, k)
  {
    OneMore(done, q, d => Fills(b, a, d, p, k));
  }

  /** One more path: an array it leads past the end of is as long as it needs, any other as before. */
  lemma GrowsOnce(done: set<Path>, q: Path, p: Path, kept: nat, n: nat, longer: nat)
    requires GrownTo(done, p, kept, n)
    requires longer == if LeadsInto(q, p) && IndexOf(q[|p|]).value >= n then IndexOf(q[|p|]).value + 1 else n
    ensures GrownTo(done + {q}, p, kept, longer)
  {
    assert q in done + {q};
    if longer == n && n != kept {
      var d :| d in done && LeadsInto(d, p) && IndexOf(d[|p|]).value + 1 == n;
      assert d in done + {q};
    }
  }

  /** On the way to the written path. */
  lemma PatchOnTheWay(b: Value, a: Value, done: set<Path>, cur: Value, q: Path, v: Value, p: Path)
    requires LeavesOf(a, done) && PatchedTo(b, a, done, p, KindAt(cur, p))
    requires IsLeaf(a, q) && Below(p, q) && !KindAt(cur, p).Leaf?
    ensures PatchedTo(b, a, done + {q}, p, WrittenKind(cur, q, v, p))
  {
    NotDoneAbove(a, done, p, q);
    MoreDone(done, q, p);
    NoGapOnTheWay(cur, q, p);
    if Kept(b, a, p).ArrNode? {
      var n := KindAt(cur, p).n;
      GrowsOnce(done, q, p, Kept(b, a, p).n, n, GrownKind(cur, q, p).n);
    }
  }

  /** Where an array is on the way to a leaf of `a`, it is one that is kept, and has not shrunk. */
  lemma ArrayIsKept(b: Value, a: Value, done: set<Path>, cur: Value, h: Path, q: Path)
    requires IsPatched(b, a, done, cur) && IsLeaf(a, q) && Below(h, q)
    ensures h !in done && !DoneAbove(done, h)
    ensures KindAt(cur, h).ArrNode? <==> Kept(b, a, h).ArrNode?
    ensures KindAt(cur, h).ArrNode? ==> Kept(b, a, h).n <= KindAt(cur, h).n
  {
    NotDoneAbove(a, done, h, q);
    assert PatchedTo(b, a, done, h, KindAt(cur, h));
    if Kept(b, a, h) == Absent { NewIsNoArray(b, a, done, h, KindAt(cur, h)); }
  }

  lemma NewIsNoArray(b: Value, a: Value, done: set<Path>, p: Path, k: Kind)
    requires IsNew(b, a, done, p, k)
    ensures !k.ArrNode?
    ensures DoneBelow(done, p) || Overtaken(b, a, done, p) ==> k != Absent
  {
  }

  lemma AbsentPastEnd(cur: Value, h: Path, s: string)
    requires KindAt(cur, h).ArrNode? && IndexOf(s).Some?
    ensures KindAt(cur, h + [s]) == Absent <==> IndexOf(s).value >= KindAt(cur, h).n
  {
    AtConcat(cur, h, [s]);
  }

  /** The gaps that a write fills are the missing elements it overtakes. */
  lemma GapIsOvertaken(b: Value, a: Value, done: set<Path>, cur: Value, q: Path, p: Path)
    requires IsPatched(b, a, done, cur) && IsLeaf(a, q)
    ensures InGap(cur, q, p) <==> Overtakes(b, a, q, p) && KindAt(cur, p) == Absent
    ensures InGap(cur, q, p) ==> !DoneAbove(done, p)
  {
    GrowsMeansAbsent(cur, q, p);
    if p != [] && Below(p[..|p| - 1], q) {
      ArrayIsKept(b, a, done, cur, p[..|p| - 1], q);
      GapInKept(cur, q, p, Kept(b, a, p[..|p| - 1]));
      DoneAboveStep(done, p);
    }
  }

  /** A gap in an array that has grown is past the end of what was kept of it. */
  lemma GapInKept(cur: Value, q: Path, p: Path, kept: Kind)
    requires p != [] && Below(p[..|p| - 1], q)
    requires KindAt(cur, p[..|p| - 1]).ArrNode? <==> kept.ArrNode?
    requires kept.ArrNode? ==> kept.n <= KindAt(cur, p[..|p| - 1]).n
    ensures InGap(cur, q, p) <==>
      && kept.ArrNode? && IndexOf(p[|p| - 1]).Some? && IndexOf(q[|p| - 1]).Some?
      && kept.n <= IndexOf(p[|p| - 1]).value < IndexOf(q[|p| - 1]).value
      && KindAt(cur, p) == Absent
  {
    var h, s := p[..|p| - 1], p[|p| - 1];
    assert p == h + [s];
    if kept.ArrNode? && IndexOf(s).Some? { AbsentPastEnd(cur, h, s); }
  }

  lemma DoneAboveStep(done: set<Path>, p: Path)
    requires p != []
    ensures DoneAbove(done, p) <==> p[..|p| - 1] in done || DoneAbove(done, p[..|p| - 1])
  {
    forall d ensures Below(d, p) <==> d == p[..|p| - 1] || Below(d, p[..|p| - 1]) {
      PrefixStep(d, p);
    }
  }

  /** Away from the written path. */
  lemma PatchAside(b: Value, a: Value, done: set<Path>, cur: Value, q: Path, v: Value, p: Path)
    requires IsPatched(b, a, done, cur) && IsLeaf(a, q) && !(p <= q) && !(q <= p)
    ensures PatchedTo(b, a, done + {q}, p, WrittenKind(cur, q, v, p))
  {
    assert PatchedTo(b, a, done, p, KindAt(cur, p));
    MoreDone(done, q, p);
    GapIsOvertaken(b, a, done, cur, q, p);
    if Kept(b, a, p).ArrNode? && KindAt(cur, p).ArrNode? {
      GrowsOnce(done, q, p, Kept(b, a, p).n, KindAt(cur, p).n, KindAt(cur, p).n);
    } else if Kept(b, a, p) == Absent && p !in done && !DoneAbove(done, p) {
      NewAside(b, a, done, q, p, KindAt(cur, p));
    }
  }

  lemma NewAside(b: Value, a: Value, done: set<Path>, q: Path, p: Path, k: Kind)
    requires IsNew(b, a, done, p, k) && !(p <= q)
    ensures IsNew(b, a, done + {q}, p, if Overtakes(b, a, q, p) && k == Absent then Filler(q, p) else k)
  {
    MoreDone(done, q, p);
    MoreOvertaken(b, a, done, q, p);
    NewIsNoArray(b, a, done, p, k);
    MoreFilled(b, a, done, q, p, k);
    MoreFilled(b, a, done, q, p, Filler(q, p));
  }

  /** Writing one more leaf of `a` with its parents. */
  lemma PatchStep(b: Value, a: Value, done: set<Path>, cur: Value, q: Path, v: Value, p: Path)
    requires IsPatched(b, a, done, cur) && KindAt(a, q) == Leaf(v) && Writable(cur, q)
    ensures PatchedTo(b, a, done + {q}, p, WrittenKind(cur, q, v, p))
  {
    if Below(p, q) {
      assert PatchedTo(b, a, done, p, KindAt(cur, p));
      assert OpenAt(cur, q, |p|) && q[..|p|] == p;
      PatchOnTheWay(b, a, done, cur, q, v, p);
    } else if Below(q, p) {
      NotDoneAbove(a, done, p, q);
      MoreDone(done, q, p);
    } else if p != q {
      PatchAside(b, a, done, cur, q, v, p);
    }
  }

  lemma LoneLeafLoses(b: Value, a: Value, p: Path)
    requires IsLeaf(b, p) && !IsLeaf(a, p)
    ensures LosesAll(b, a, p)
  {
    forall q: Path | IsLeaf(b, q) && p <= q ensures q == p {
      LeavesIncomparable(b, p, q);
    }
    assert p <= p;
  }

  lemma KeptLeafStays(b: Value, a: Value, p: Path)
    requires !Scalar(b) && Kept(b, a, p).Leaf?
    ensures IsLeaf(a, p)
  {
    if !IsLeaf(a, p) { LoneLeafLoses(b, a, p); }
  }

  /** Past the end of what an array keeps, nothing is kept. */
  lemma NothingKeptPastEnd(b: Value, a: Value, h: Path, s: string)
    requires Kept(b, a, h).ArrNode? && IndexOf(s).Some? && IndexOf(s).value >= Kept(b, a, h).n
    ensures Kept(b, a, h + [s]) == Absent
  {
    AbsentPastEnd(b, h, s);
    if KindAt(b, h + [s]) != Absent {
      assert LosesAll(b, a, h + [s]) && h + [s] <= h + [s];
    }
  }

  lemma OvertakerIsNew(b: Value, a: Value, d: Path, p: Path)
    requires IsLeaf(a, d) && Overtakes(b, a, d, p)
    ensures NewBelow(b, a, p[..|p| - 1], d)
  {
    var h := p[..|p| - 1];
    NothingKeptPastEnd(b, a, h, d[|h|]);
    assert d[..|h| + 1] == h + [d[|h|]];
  }

  /** New elements are all scalars or all containers, so no null is left in the way. */
  lemma FillerIsPassable(b: Value, a: Value, d: Path, p: Path, q: Path)
    requires ArrayStable(b, a) && IsLeaf(a, d) && Overtakes(b, a, d, p) && IsLeaf(a, q) && Below(p, q) && Kept(b, a, p) == Absent
    ensures |d| != |p|
  {
    var h := p[..|p| - 1];
    OvertakerIsNew(b, a, d, p);
    assert q[..|h| + 1] == p;
    assert NewBelow(b, a, h, q);
    assert ElementsStay(b, a, h);
  }

  lemma NoScalarOnTheWay(b: Value, a: Value, done: set<Path>, p: Path, k: Kind, q: Path)
    requires !Scalar(b) && ArrayStable(b, a) && LeavesOf(a, done) && PatchedTo(b, a, done, p, k)
    requires IsLeaf(a, q) && Below(p, q)
    ensures !k.Leaf?
  {
    NotDoneAbove(a, done, p, q);
    if Kept(b, a, p).Leaf? { KeptLeafStays(b, a, p); }
    if Kept(b, a, p) == Absent && FilledBy(b, a, done, p, k) {
      var d :| d in done && Fills(b, a, d, p, k);
      FillerIsPassable(b, a, d, p, q);
    }
  }

  lemma PatchedIfKept(b: Value, a: Value, done: set<Path>, p: Path, k: Kind, q: Path)
    requires LeavesOf(a, done) && PatchedTo(b, a, done, p, k) && IsLeaf(a, q) && p <= q && Kept(b, a, p) != Absent
    ensures k != Absent
  {
    NotDoneAbove(a, done, p, q);
  }

  lemma OpenOnTheWay(b: Value, a: Value, done: set<Path>, cur: Value, q: Path, n: nat)
    requires ArrayStable(b, a) && IsPatched(b, a, done, cur) && IsLeaf(a, q) && n < |q|
    ensures OpenAt(cur, q, n)
  {
    var p, next := q[..n], q[..n + 1];
    assert next == p + [q[n]];
    ArrayIsKept(b, a, done, cur, p, q);
    assert PatchedTo(b, a, done, next, KindAt(cur, next));
    if Kept(b, a, next) != Absent {
      PatchedIfKept(b, a, done, next, KindAt(cur, next), q);
    } else if KindAt(cur, p).ArrNode? {
      assert ElementsStay(b, a, p) && NewBelow(b, a, p, q);
      AbsentPastEnd(cur, p, q[n]);
    }
  }

  /** The next leaf of `a` can be written, whatever leaves have been. */
  lemma WayIsWritable(b: Value, a: Value, done: set<Path>, cur: Value, q: Path)
    requires !Scalar(b) && ArrayStable(b, a) && IsPatched(b, a, done, cur) && IsLeaf(a, q)
    ensures Writable(cur, q)
  {
    forall n | 0 <= n < |q| ensures OpenAt(cur, q, n) && !KindAt(cur, q[..n]).Leaf? {
      OpenOnTheWay(b, a, done, cur, q, n);
      NoScalarOnTheWay(b, a, done, q[..n], KindAt(cur, q[..n]), q);
    }
  }

  lemma WriteStep(b: Value, a: Value, done: set<Path>, cur: Value, q: Path, v: Value)
    requires !Scalar(b) && ArrayStable(b, a) && IsPatched(b, a, done, cur)
    requires q != [] && KindAt(a, q) == Leaf(v) && Scalar(v)
    ensures var ready := EnsureAt(cur, q[..|q| - 1]);
      ready.Ok? && SetAt(ready.value, q, v).Ok? && IsPatched(b, a, done + {q}, SetAt(ready.value, q, v).value)
  {
    WayIsWritable(b, a, done, cur, q);
    WriteKind(cur, q, v, []);
    var r := SetAt(EnsureAt(cur, q[..|q| - 1]).value, q, v).value;
    forall p: Path ensures PatchedTo(b, a, done + {q}, p, KindAt(r, p)) {
      WriteKind(cur, q, v, p);
      PatchStep(b, a, done, cur, q, v, p);
    }
  }

  // All changed leaves written.

  /** The leaves of `a` that `b` does not have, or has with another value. */
  ghost predicate ChangedLeaves(b: Value, a: Value, done: set<Path>) {
    forall q: Path :: q in done <==> IsLeaf(a, q) && KindAt(b, q) != KindAt(a, q)
  }

  lemma SharedLeafKept(b: Value, a: Value, q: Path)
    requires IsLeaf(b, q) && IsLeaf(a, q)
    ensures forall p: Path :: p <= q ==> !Vanishes(b, a, p)
    ensures forall p: Path :: p <= q ==> Kept(b, a, p) != Absent
  {
    forall p: Path | p <= q ensures Kept(b, a, p) != Absent {
      if p != q { AboveIsContainer(b, p, q); }
    }
  }

  /** A leaf of `a` below something that is not kept is a changed one. */
  lemma NewIsChanged(b: Value, a: Value, done: set<Path>, p: Path, q: Path)
    requires ChangedLeaves(b, a, done) && IsLeaf(a, q) && p <= q && Kept(b, a, p) == Absent
    ensures q in done
  {
    if q !in done { SharedLeafKept(b, a, q); }
  }

  lemma OvertakerIsChanged(b: Value, a: Value, done: set<Path>, p: Path, q: Path)
    requires ChangedLeaves(b, a, done) && IsLeaf(a, q) && Overtakes(b, a, q, p)
    ensures q in done
  {
    OvertakerIsNew(b, a, q, p);
    NewIsChanged(b, a, done, q[..|p|], q);
  }

  lemma OvertakersAlike(b: Value, a: Value, d: Path, q: Path, p: Path)
    requires ArrayStable(b, a) && IsLeaf(a, d) && IsLeaf(a, q) && Overtakes(b, a, d, p) && Overtakes(b, a, q, p)
    ensures Filler(d, p) == Filler(q, p)
  {
    OvertakerIsNew(b, a, d, p);
    OvertakerIsNew(b, a, q, p);
    assert ElementsStay(b, a, p[..|p| - 1]);
  }

  lemma FillerUnique(b: Value, a: Value, done: set<Path>, p: Path, k: Kind, l: Kind)
    requires ArrayStable(b, a) && LeavesOf(a, done)
    requires FilledBy(b, a, done, p, k) && FilledBy(b, a, done, p, l)
    ensures k == l
  {
    var d :| d in done && Fills(b, a, d, p, k);
    var e :| e in done && Fills(b, a, e, p, l);
    OvertakersAlike(b, a, d, e, p);
  }

  lemma NewUnique(b: Value, a: Value, done: set<Path>, p: Path, k: Kind, l: Kind)
    requires ArrayStable(b, a) && LeavesOf(a, done) && IsNew(b, a, done, p, k) && IsNew(b, a, done, p, l)
    ensures k == l
  {
    if !DoneBelow(done, p) && Overtaken(b, a, done, p) { FillerUnique(b, a, done, p, k, l); }
  }

  lemma LengthUnique(done: set<Path>, p: Path, kept: nat, m: nat, n: nat)
    requires GrownTo(done, p, kept, m) && GrownTo(done, p, kept, n)
    ensures m == n
  {
  }

  /** Patching determines what stands at each path. */
  lemma PatchedUnique(b: Value, a: Value, done: set<Path>, p: Path, k: Kind, l: Kind)
    requires ArrayStable(b, a) && LeavesOf(a, done)
    requires PatchedTo(b, a, done, p, k) && PatchedTo(b, a, done, p, l)
    ensures k == l
  {
    if p !in done && !DoneAbove(done, p) {
      if Kept(b, a, p) == Absent { NewUnique(b, a, done, p, k, l); }
      if Kept(b, a, p).ArrNode? { LengthUnique(done, p, Kept(b, a, p).n, k.n, l.n); }
    }
  }

  /** Above the leaves of `a`. */
  lemma HoldsIsPatched(b: Value, a: Value, done: set<Path>, p: Path)
    requires ChangedLeaves(b, a, done) && HasLeafBelow(a, p)
    ensures PatchedTo(b, a, done, p, KindAt(a, p)) <==> HoldsLeaves(b, a, p)
  {
    NothingDoneAbove(b, a, done, p);
    if Kept(b, a, p).ArrNode? && KindAt(a, p).ArrNode? { LengthIsPatched(b, a, done, p); }
  }

  lemma NothingDoneAbove(b: Value, a: Value, done: set<Path>, p: Path)
    requires ChangedLeaves(b, a, done) && HasLeafBelow(a, p)
    ensures p !in done && !DoneAbove(done, p)
    ensures Kept(b, a, p) == Absent ==> DoneBelow(done, p)
  {
    var q: Path :| IsLeaf(a, q) && Below(p, q);
    NotDoneAbove(a, done, p, q);
    if Kept(b, a, p) == Absent { NewIsChanged(b, a, done, p, q); }
  }

  lemma LengthIsPatched(b: Value, a: Value, done: set<Path>, p: Path)
    requires ChangedLeaves(b, a, done) && Kept(b, a, p).ArrNode? && KindAt(a, p).ArrNode?
    ensures var k, n := Kept(b, a, p).n, KindAt(a, p).n;
      GrownTo(done, p, k, n) <==> k <= n && (n == k || NeedsLength(a, p, n))
  {
    var k, n := Kept(b, a, p).n, KindAt(a, p).n;
    forall d | d in done && LeadsInto(d, p) ensures IndexOf(d[|p|]).value < n {
      LeafBelowLength(a, p, d);
    }
    if n > k && NeedsLength(a, p, n) {
      var q: Path :| IsLeaf(a, q) && LeadsInto(q, p) && IndexOf(q[|p|]).value + 1 == n;
      LastIsChanged(b, a, done, p, q);
    }
  }

  lemma LeafBelowLength(a: Value, p: Path, d: Path)
    requires KindAt(a, p).ArrNode? && IsLeaf(a, d) && LeadsInto(d, p)
    ensures IndexOf(d[|p|]).value < KindAt(a, p).n
  {
    var next := p + [d[|p|]];
    assert next <= d;
    if next != d { AboveIsContainer(a, next, d); }
    AbsentPastEnd(a, p, d[|p|]);
  }

  lemma LastIsChanged(b: Value, a: Value, done: set<Path>, p: Path, q: Path)
    requires ChangedLeaves(b, a, done) && Kept(b, a, p).ArrNode? && IsLeaf(a, q)
    requires LeadsInto(q, p) && IndexOf(q[|p|]).value >= Kept(b, a, p).n
    ensures q in done
  {
    NothingKeptPastEnd(b, a, p, q[|p|]);
    NewIsChanged(b, a, done, p + [q[|p|]], q);
  }

  /** Away from the leaves of `a`. */
  lemma LeftoverIsPatched(b: Value, a: Value, done: set<Path>, p: Path, k: Kind)
    requires ChangedLeaves(b, a, done) && Leafless(a, p)
    ensures PatchedTo(b, a, done, p, k) <==> IsLeftover(b, a, p, k)
  {
    forall d: Path | IsLeaf(a, d) ensures !Below(d, p) && !Below(p, d) {
    }
    OvertakenByLeaf(b, a, done, p);
    FilledByLeaf(b, a, done, p, k);
    if Kept(b, a, p) != Absent { KeptIsNotOvertaken(b, a, p); }
  }

  lemma OvertakenByLeaf(b: Value, a: Value, done: set<Path>, p: Path)
    requires ChangedLeaves(b, a, done)
    ensures Overtaken(b, a, done, p) <==> Outgrown(b, a, p)
  {
    if q: Path :| IsLeaf(a, q) && Overtakes(b, a, q, p) {
      OvertakerIsChanged(b, a, done, p, q);
    }
  }

  lemma FilledByLeaf(b: Value, a: Value, done: set<Path>, p: Path, k: Kind)
    requires ChangedLeaves(b, a, done)
    ensures FilledBy(b, a, done, p, k) <==> IsFiller(b, a, p, k)
  {
    if q: Path :| IsLeaf(a, q) && Fills(b, a, q, p, k) {
      OvertakerIsChanged(b, a, done, p, q);
    }
  }

  lemma KeptIsNotOvertaken(b: Value, a: Value, p: Path)
    requires Kept(b, a, p) != Absent
    ensures !Outgrown(b, a, p)
  {
    if q: Path :| Overtakes(b, a, q, p) {
      assert p == p[..|p| - 1] + [p[|p| - 1]];
      NothingKeptPastEnd(b, a, p[..|p| - 1], p[|p| - 1]);
    }
  }

  /** At and below the leaves of `a`, writing the changed ones always gives what `a` has. */
  lemma LeafIsPatched(b: Value, a: Value, done: set<Path>, p: Path)
    requires ChangedLeaves(b, a, done) && (IsLeaf(a, p) || HasLeafAbove(a, p))
    ensures PatchedTo(b, a, done, p, KindAt(a, p))
  {
    if IsLeaf(a, p) {
      NotDoneAbove(a, done, p, p);
      if p !in done { SharedLeafKept(b, a, p); }
    } else {
      var q: Path :| IsLeaf(a, q) && Below(q, p);
      NothingBelowLeaf(a, p);
      if q !in done { NothingPatchedBelow(b, a, done, q, p); }
    }
  }

  /** Below an unchanged leaf nothing is kept and nothing is written. */
  lemma NothingPatchedBelow(b: Value, a: Value, done: set<Path>, q: Path, p: Path)
    requires ChangedLeaves(b, a, done) && IsLeaf(a, q) && IsLeaf(b, q) && Below(q, p)
    ensures PatchedTo(b, a, done, p, Absent)
  {
    if KindAt(b, p) != Absent { AboveIsContainer(b, q, p); }
    NotDoneAbove(a, done, p, q);
    forall d | d in done ensures !Below(p, d) && !Overtakes(b, a, d, p) {
      if q <= d { LeavesIncomparable(a, q, d); }
      NoArrayBelowLeaf(b, a, q, p[..|p| - 1]);
    }
  }

  lemma NoArrayBelowLeaf(b: Value, a: Value, q: Path, p: Path)
    requires IsLeaf(b, q) && q <= p
    ensures !Kept(b, a, p).ArrNode?
  {
    if q != p && KindAt(b, p) != Absent { AboveIsContainer(b, q, p); }
  }

  lemma AgreesAt(b: Value, a: Value, done: set<Path>, p: Path)
    requires ChangedLeaves(b, a, done)
    ensures PatchedTo(b, a, done, p, KindAt(a, p)) <==>
      && (HasLeafBelow(a, p) ==> HoldsLeaves(b, a, p))
      && (Leafless(a, p) ==> IsLeftover(b, a, p, KindAt(a, p)))
  {
    NothingBelowLeaf(a, p);
    LeafHasNoneBelow(a, p);
    if HasLeafBelow(a, p) {
      HoldsIsPatched(b, a, done, p);
    } else if Leafless(a, p) {
      LeftoverIsPatched(b, a, done, p, KindAt(a, p));
    } else {
      LeafIsPatched(b, a, done, p);
    }
  }

  /** Once all changed leaves are written, the tree is `a` exactly when the containers agree. */
  lemma PatchedIsTarget(b: Value, a: Value, done: set<Path>, r: Value)
    requires ArrayStable(b, a) && ChangedLeaves(b, a, done) && IsPatched(b, a, done, r)
    ensures r == a <==> ContainersAgree(b, a)
  {
    forall p: Path ensures PatchedTo(b, a, done, p, KindAt(a, p)) <==>
      && (HasLeafBelow(a, p) ==> HoldsLeaves(b, a, p))
      && (Leafless(a, p) ==> IsLeftover(b, a, p, KindAt(a, p)))
    {
      AgreesAt(b, a, done, p);
    }
    if ContainersAgree(b, a) {
      forall p: Path ensures KindAt(r, p) == KindAt(a, p) {
        PatchedUnique(b, a, done, p, KindAt(r, p), KindAt(a, p));
      }
      Extensional(r, a);
    }
  }
}
