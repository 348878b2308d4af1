/** What stands at each path after a diff is applied: the removed subtrees gone, the leaves of the target written. */
module Rebuild {
  import opened Wrappers
  import opened Json
  import opened Diff
  import opened Flatten
  import opened Apply
  import opened WriteEffects
  import Pointer
  import Prune

  /** The diff of two trees, and the roots `apply_diff` prunes for it. Ignored paths agree on both sides. */
  ghost predicate Setting(b: Value, a: Value, fb: LeafMap, fa: LeafMap, ignored: IgnoreList, d: Diff, roots: seq<string>) {
    && IsFlat(b, fb)
    && IsFlat(a, fa)
    && IsDiff(fb, fa, ignored, d)
    && (forall k :: ignored(k) ==> !Disagree(fb, fa, k))
    && Prune.IsCover(fb, RemovedLeaves(d.entries), roots)
  }

  /** Something at or above `p`, below the root, loses all the leaves it has. */
  ghost predicate Vanishes(b: Value, a: Value, p: Path) {
    exists c: Path :: c != [] && c <= p && LosesAll(b, a, c)
  }

  ghost predicate LosesAll(b: Value, a: Value, c: Path) {
    && (exists q: Path :: IsLeaf(b, q) && c <= q)
    && (forall q: Path :: IsLeaf(b, q) && c <= q ==> !IsLeaf(a, q))
  }

  ghost predicate HasLeafAbove(a: Value, p: Path) {
    exists q: Path :: IsLeaf(a, q) && Below(q, p)
  }

  ghost predicate HasLeafBelow(a: Value, p: Path) {
    exists q: Path :: IsLeaf(a, q) && Below(p, q)
  }

  /** What stands at `p` after the removed subtrees are gone: an array may have lost its last element. */
  ghost function Kept(b: Value, a: Value, p: Path): Kind {
    if Vanishes(b, a, p) then Absent
    else
      match KindAt(b, p)
      case ArrNode(n) => if n > 0 && LosesAll(b, a, p + [Decimal(n - 1)]) then ArrNode(n - 1) else ArrNode(n)
      case k => k
  }

  /** A leaf of `a` below `p` for which the child of `p` on the way is missing. */
  ghost predicate NewBelow(b: Value, a: Value, p: Path, q: Path) {
    IsLeaf(a, q) && Below(p, q) && Kept(b, a, q[..|p| + 1]) == Absent
  }

  /**
   * Arrays of `b` that stay lose no whole element but the last one, and what they gain has proper
   * indices and is either all scalars or all containers.
   */
  ghost predicate ArrayStable(b: Value, a: Value) {
    forall p: Path :: Kept(b, a, p).ArrNode? ==> ElementsStay(b, a, p)
  }

  ghost predicate ElementsStay(b: Value, a: Value, p: Path) {
    && (forall s :: KindAt(b, p + [s]) != Absent && LosesAll(b, a, p + [s]) ==>
          KindAt(b, p).ArrNode? && KindAt(b, p).n > 0 && s == Decimal(KindAt(b, p).n - 1))
    && (forall q: Path :: NewBelow(b, a, p, q) ==> IndexOf(q[|p|]).Some?)
    && (forall q: Path, r: Path :: NewBelow(b, a, p, q) && NewBelow(b, a, p, r) ==> (|q| == |p| + 1 <==> |r| == |p| + 1))
  }

  /** Nothing changes below an empty top-level key, short of the whole key going. */
  ghost predicate EmptyKeyUntouched(b: Value, a: Value) {
    && (forall p: Path :: IsLeaf(a, p) && LostPrefix(p) ==> KindAt(b, p) == KindAt(a, p))
    && (forall p: Path :: IsLeaf(b, p) && !IsLeaf(a, p) && LostPrefix(p) ==> LosesAll(b, a, [""]))
  }

  /** A path whose leading empty segment is lost when its pointer is split. */
  predicate LostPrefix(p: Path) {
    |p| > 1 && p[0] == ""
  }

  ghost predicate Leafless(a: Value, p: Path) {
    !IsLeaf(a, p) && !HasLeafAbove(a, p) && !HasLeafBelow(a, p)
  }

  /** `q` leads to a later element of the kept array above `p` than `p`, which lies past its end. */
  ghost predicate Overtakes(b: Value, a: Value, q: Path, p: Path) {
    && p != [] && Below(p[..|p| - 1], q)
    && Kept(b, a, p[..|p| - 1]).ArrNode? && IndexOf(p[|p| - 1]).Some? && IndexOf(q[|p| - 1]).Some?
    && Kept(b, a, p[..|p| - 1]).n <= IndexOf(p[|p| - 1]).value < IndexOf(q[|p| - 1]).value
  }

  predicate LeadsInto(q: Path, p: Path) {
    Below(p, q) && IndexOf(q[|p|]).Some?
  }

  /** The last of `n` elements has a leaf. */
  ghost predicate NeedsLength(a: Value, p: Path, n: nat) {
    exists q: Path :: IsLeaf(a, q) && LeadsInto(q, p) && IndexOf(q[|p|]).value + 1 == n
  }

  /** What a container above leaves of `a` has to be: what is left of `b`, with room for new elements, or a new object. */
  ghost predicate HoldsLeaves(b: Value, a: Value, p: Path) {
    match Kept(b, a, p)
    case Absent => KindAt(a, p) == ObjNode
    case ArrNode(k) =>
      && KindAt(a, p).ArrNode? && k <= KindAt(a, p).n
      && (KindAt(a, p).n == k || NeedsLength(a, p, KindAt(a, p).n))
    case k => KindAt(a, p) == k
  }

  /** A missing element before a new one: a null among scalars, an empty object among containers. */
  ghost predicate IsFiller(b: Value, a: Value, p: Path, k: Kind) {
    exists q: Path :: IsLeaf(a, q) && Fills(b, a, q, p, k)
  }

  ghost predicate Fills(b: Value, a: Value, d: Path, p: Path, k: Kind) {
    Overtakes(b, a, d, p) && k == Filler(d, p)
  }

  /** What stands where `a` has no leaves: what is left of `b`, or what fills a gap before a new element. */
  ghost predicate IsLeftover(b: Value, a: Value, p: Path, k: Kind) {
    if Outgrown(b, a, p) then IsFiller(b, a, p, k) else k == Kept(b, a, p)
  }

  /** Some leaf of `a` makes an array grow beyond `p`. */
  ghost predicate Outgrown(b: Value, a: Value, p: Path) {
    exists q: Path :: IsLeaf(a, q) && Overtakes(b, a, q, p)
  }

  /** Above its leaves and away from them, `a` has the containers that come out. */
  ghost predicate ContainersAgree(b: Value, a: Value) {
    && (forall p: Path :: HasLeafBelow(a, p) ==> HoldsLeaves(b, a, p))
    && (forall p: Path :: Leafless(a, p) ==> IsLeftover(b, a, p, KindAt(a, p)))
  }

  /** The exact condition under which applying the diff of `b` and `a` to `b` gives `a`. */
  ghost predicate Restorable(b: Value, a: Value) {
    Scalar(a) || (!Scalar(b) && EmptyKeyUntouched(b, a) && ContainersAgree(b, a))
  }

  lemma LeafHasNoneBelow(a: Value, p: Path)
    ensures IsLeaf(a, p) ==> !HasLeafBelow(a, p)
  {
    if IsLeaf(a, p) {
      forall q: Path | IsLeaf(a, q) ensures !Below(p, q) {
        if Below(p, q) { LeavesIncomparable(a, p, q); }
      }
    }
  }

  lemma NothingBelowLeaf(a: Value, p: Path)
    ensures HasLeafAbove(a, p) ==> KindAt(a, p) == Absent && !HasLeafBelow(a, p) && !IsLeaf(a, p)
  {
    if HasLeafAbove(a, p) {
      var q: Path :| IsLeaf(a, q) && Below(q, p);
      if KindAt(a, p) != Absent { AboveIsContainer(a, q, p); }
      forall x: Path | IsLeaf(a, x) ensures !Below(p, x) {
        if Below(p, x) { LeavesIncomparable(a, q, x); }
      }
    }
  }

  // The removed leaves.

  lemma RemovedExactly(fb: LeafMap, fa: LeafMap, ignored: IgnoreList, d: Diff)
    requires IsDiff(fb, fa, ignored, d) && forall k :: ignored(k) ==> !Disagree(fb, fa, k)
    ensures RemovedLeaves(d.entries) == fb.Keys - fa.Keys
  {
    forall k ensures k in RemovedLeaves(d.entries) <==> k in fb && k !in fa {
      if k in fb && k !in fa {
        PathsDisagree(fb, fa, ignored, d, k);
        var e :| e in d.entries && e.path == k;
        assert Fits(fb, fa, e);
      }
    }
  }

  lemma RemovedLeaf(b: Value, a: Value, fb: LeafMap, fa: LeafMap, q: Path)
    requires IsFlat(b, fb) && IsFlat(a, fa)
    ensures Pointer.Encode(q) in fb.Keys - fa.Keys <==> IsLeaf(b, q) && !IsLeaf(a, q)
  {
    LeafIsKey(b, fb, q);
    LeafIsKey(a, fa, q);
  }

  lemma LosesAllIsGone(b: Value, a: Value, fb: LeafMap, fa: LeafMap, c: Path)
    requires IsFlat(b, fb) && IsFlat(a, fa)
    ensures LosesAll(b, a, c) <==> Prune.Gone(b, fb.Keys - fa.Keys, c)
  {
    forall q: Path | IsLeaf(b, q) ensures Pointer.Encode(q) in fb.Keys - fa.Keys <==> !IsLeaf(a, q) {
      RemovedLeaf(b, a, fb, fa, q);
    }
  }

  lemma VanishesIsPruned(b: Value, a: Value, fb: LeafMap, fa: LeafMap, p: Path)
    requires IsFlat(b, fb) && IsFlat(a, fa)
    ensures Vanishes(b, a, p) <==> Prune.Pruned(b, fb.Keys - fa.Keys, p)
  {
    if Vanishes(b, a, p) {
      var c: Path :| c != [] && c <= p && LosesAll(b, a, c);
      LosesAllIsGone(b, a, fb, fa, c);
    }
    if Prune.Pruned(b, fb.Keys - fa.Keys, p) {
      var c: Path :| c != [] && c <= p && Prune.Gone(b, fb.Keys - fa.Keys, c);
      LosesAllIsGone(b, a, fb, fa, c);
    }
  }

  // Pruning.

  /** A path that is walked as it is, and leads to something that can be removed. */
  ghost predicate CleanRoot(b: Value, c: Path) {
    c != [] && !LostPrefix(c) && CanRemove(KindAt(b, c[..|c| - 1]), c[|c| - 1])
  }

  ghost predicate CleanRoots(b: Value, cs: seq<Path>) {
    forall i :: 0 <= i < |cs| ==> CleanRoot(b, cs[i])
  }

  ghost predicate Separate(cs: seq<Path>) {
    forall i, j :: 0 <= i < |cs| && 0 <= j < |cs| && i != j ==> !(cs[i] <= cs[j])
  }

  ghost predicate CoveredBy(cs: seq<Path>, p: Path) {
    exists i :: 0 <= i < |cs| && cs[i] <= p
  }

  /** The last of `n` elements of the array at `p` is one of the roots. */
  predicate LastIsRoot(cs: seq<Path>, p: Path, n: nat) {
    n > 0 && p + [Decimal(n - 1)] in cs
  }

  /** An array whose last element is one of the roots is one shorter. */
  function Shortened(b: Value, cs: seq<Path>, p: Path): Kind {
    var k := KindAt(b, p);
    if k.ArrNode? && LastIsRoot(cs, p, k.n) then LessOne(k) else k
  }

  ghost predicate PrunedTo(b: Value, cs: seq<Path>, r: Value) {
    forall p: Path :: KindAt(r, p) == if CoveredBy(cs, p) then Absent else Shortened(b, cs, p)
  }

  function RemovePaths(v: Value, cs: seq<Path>): Outcome
    decreases |cs|
  {
    if cs == [] then Ok(v)
    else if cs[0] == [] then RemovePaths(v, cs[1..])
    else
      var next :- RemoveAt(v, cs[0]);
      RemovePaths(next, cs[1..])
  }

  /** `next` is `b` with the clean root `c` removed. */
  ghost predicate IsWithout(b: Value, c: Path, next: Value)
    requires c != []
  {
    forall p: Path :: KindAt(next, p) ==
      if c <= p then Absent else if p == c[..|c| - 1] then LessOne(KindAt(b, p)) else KindAt(b, p)
  }

  /** Removing one clean root, and then the rest. */
  lemma {:induction false} RemovePathsKind(b: Value, cs: seq<Path>)
    requires Separate(cs) && CleanRoots(b, cs)
    ensures RemovePaths(b, cs).Ok? && PrunedTo(b, cs, RemovePaths(b, cs).value)
    decreases |cs|
  {
    if cs != [] {
      RemovedOne(b, cs[0]);
      var next := RemoveAt(b, cs[0]).value;
      CleanAfter(b, cs, next);
      RemovePathsKind(next, cs[1..]);
      forall p: Path
        ensures (if CoveredBy(cs[1..], p) then Absent else Shortened(next, cs[1..], p)) ==
          if CoveredBy(cs, p) then Absent else Shortened(b, cs, p)
      {
        OneRootMore(b, cs, next, p);
      }
    }
  }

  lemma RemovedOne(b: Value, c: Path)
    requires CleanRoot(b, c)
    ensures RemoveAt(b, c).Ok? && IsWithout(b, c, RemoveAt(b, c).value)
  {
    RemoveKind(b, c, []);
    forall p: Path
      ensures KindAt(RemoveAt(b, c).value, p) ==
        if c <= p then Absent else if p == c[..|c| - 1] then LessOne(KindAt(b, p)) else KindAt(b, p)
    {
      RemoveKind(b, c, p);
    }
  }

  lemma OneRootMore(b: Value, cs: seq<Path>, next: Value, p: Path)
    requires cs != [] && CleanRoots(b, cs) && IsWithout(b, cs[0], next)
    ensures (if CoveredBy(cs[1..], p) then Absent else Shortened(next, cs[1..], p)) ==
      if CoveredBy(cs, p) then Absent else Shortened(b, cs, p)
  {
    CoveredSplit(cs, p);
    if cs[0] <= p {
      assert KindAt(next, p) == Absent;
    } else {
      ShortenedOnce(b, cs, next, p);
    }
  }

  lemma CoveredSplit(cs: seq<Path>, p: Path)
    requires cs != []
    ensures CoveredBy(cs, p) <==> cs[0] <= p || CoveredBy(cs[1..], p)
  {
    if CoveredBy(cs, p) {
      var i :| 0 <= i < |cs| && cs[i] <= p;
      assert i == 0 || cs[1..][i - 1] == cs[i];
    }
    if CoveredBy(cs[1..], p) {
      var i :| 0 <= i < |cs[1..]| && cs[1..][i] <= p;
      assert cs[i + 1] == cs[1..][i];
    }
  }

  /** An array is shortened by its own last element only, so once. */
  lemma ShortenedOnce(b: Value, cs: seq<Path>, next: Value, p: Path)
    requires cs != [] && CleanRoots(b, cs)
    requires KindAt(next, p) == if p == cs[0][..|cs[0]| - 1] then LessOne(KindAt(b, p)) else KindAt(b, p)
    ensures Shortened(next, cs[1..], p) == Shortened(b, cs, p)
  {
    if KindAt(b, p).ArrNode? {
      if p == cs[0][..|cs[0]| - 1] { ShortenedHere(b, cs, next, p); } else { ShortenedElsewhere(b, cs, next, p); }
    }
  }

  lemma ShortenedHere(b: Value, cs: seq<Path>, next: Value, p: Path)
    requires cs != [] && CleanRoots(b, cs) && p == cs[0][..|cs[0]| - 1] && KindAt(b, p).ArrNode?
    requires KindAt(next, p) == LessOne(KindAt(b, p))
    ensures Shortened(next, cs[1..], p) == Shortened(b, cs, p)
  {
    FirstIsLast(b, cs, p);
    OnlyOneIsLast(b, cs, p);
  }

  lemma FirstIsLast(b: Value, cs: seq<Path>, p: Path)
    requires cs != [] && CleanRoots(b, cs) && p == cs[0][..|cs[0]| - 1] && KindAt(b, p).ArrNode?
    ensures LastIsRoot(cs, p, KindAt(b, p).n)
  {
    var c := cs[0];
    assert CleanRoot(b, c) && c == p + [c[|c| - 1]];
    assert cs[0] in cs;
  }

  lemma OnlyOneIsLast(b: Value, cs: seq<Path>, p: Path)
    requires cs != [] && CleanRoots(b, cs) && KindAt(b, p).ArrNode? && KindAt(b, p).n > 0
    ensures !LastIsRoot(cs[1..], p, KindAt(b, p).n - 1)
  {
    var n := KindAt(b, p).n;
    if n > 1 { OnlyLastElement(b, cs[1..], p, n - 2); }
  }

  lemma ShortenedElsewhere(b: Value, cs: seq<Path>, next: Value, p: Path)
    requires cs != [] && cs[0] != [] && p != cs[0][..|cs[0]| - 1] && KindAt(next, p) == KindAt(b, p)
    ensures Shortened(next, cs[1..], p) == Shortened(b, cs, p)
  {
    var k := KindAt(b, p);
    if k.ArrNode? && k.n > 0 { NotFirstRoot(cs, p, Decimal(k.n - 1)); }
  }

  /** The only element of an array that can be a clean root is the last one. */
  lemma OnlyLastElement(b: Value, cs: seq<Path>, p: Path, j: nat)
    requires CleanRoots(b, cs) && KindAt(b, p).ArrNode? && j != KindAt(b, p).n - 1
    ensures p + [Decimal(j)] !in cs
  {
    var c := p + [Decimal(j)];
    assert c[..|c| - 1] == p && c[|c| - 1] == Decimal(j);
    if KindAt(b, p).n > 0 { DecimalInjective(j, KindAt(b, p).n - 1); }
    assert !CleanRoot(b, c);
  }

  lemma NotFirstRoot(cs: seq<Path>, p: Path, s: string)
    requires cs != [] && cs[0] != [] && p != cs[0][..|cs[0]| - 1]
    ensures p + [s] in cs <==> p + [s] in cs[1..]
  {
    assert (p + [s])[..|p|] == p;
    assert forall x :: x in cs <==> x == cs[0] || x in cs[1..];
  }

  lemma CleanAfter(b: Value, cs: seq<Path>, next: Value)
    requires cs != [] && Separate(cs) && CleanRoots(b, cs) && IsWithout(b, cs[0], next)
    ensures Separate(cs[1..]) && CleanRoots(next, cs[1..])
  {
    var rest := cs[1..];
    forall i | 0 <= i < |rest| ensures CleanRoot(next, rest[i]) {
      assert rest[i] == cs[i + 1] && !(cs[0] <= cs[i + 1]);
      CleanStays(b, next, cs[0], rest[i]);
    }
    forall i, j | 0 <= i < |rest| && 0 <= j < |rest| && i != j ensures !(rest[i] <= rest[j]) {
      assert !(cs[i + 1] <= cs[j + 1]);
    }
  }

  lemma CleanStays(b: Value, next: Value, c: Path, r: Path)
    requires CleanRoot(b, c) && CleanRoot(b, r) && !(c <= r) && IsWithout(b, c, next)
    ensures CleanRoot(next, r)
  {
    var holder := r[..|r| - 1];
    assert !(c <= holder);
    SameHolder(b, c, r);
  }

  lemma SameHolder(b: Value, c: Path, r: Path)
    requires CleanRoot(b, c) && CleanRoot(b, r)
    ensures c[..|c| - 1] == r[..|r| - 1] && KindAt(b, c[..|c| - 1]).ArrNode? ==> c == r
  {
    assert r == r[..|r| - 1] + [r[|r| - 1]] && c == c[..|c| - 1] + [c[|c| - 1]];
  }

  // From the chosen pointers to paths.

  function DecodeAll(roots: seq<string>): seq<Path> {
    seq(|roots|, i requires 0 <= i < |roots| => Pointer.Decode(roots[i]))
  }

  /** The roots are pointers of non-empty paths. */
  ghost predicate Pointers(roots: seq<string>) {
    forall i :: 0 <= i < |roots| ==> Pointer.Decode(roots[i]) != [] && Pointer.Encode(Pointer.Decode(roots[i])) == roots[i]
  }

  lemma WalkedAsIs(p: Path)
    requires p != [] && !LostPrefix(p)
    ensures Pointer.Segments(Pointer.Encode(p)) == p && Pointer.Encode(p) != ""
  {
    Pointer.SegmentsFaithful(p);
    Pointer.SplitEncode(p);
  }

  lemma {:induction false} RemoveRootsIsRemovePaths(v: Value, roots: seq<string>)
    requires Pointers(roots) && forall i :: 0 <= i < |roots| ==> !LostPrefix(Pointer.Decode(roots[i]))
    ensures RemoveRoots(v, roots) == RemovePaths(v, DecodeAll(roots))
    decreases |roots|
  {
    if roots != [] {
      var c := Pointer.Decode(roots[0]);
      WalkedAsIs(c);
      assert DecodeAll(roots)[1..] == DecodeAll(roots[1..]);
      if RemoveAt(v, c).Ok? { RemoveRootsIsRemovePaths(RemoveAt(v, c).value, roots[1..]); }
    }
  }

  lemma CoveredIsCoveredBy(roots: seq<string>, p: Path)
    requires Pointers(roots)
    ensures Prune.Covered(roots, Pointer.Encode(p)) <==> CoveredBy(DecodeAll(roots), p)
  {
    forall i | 0 <= i < |roots| ensures Pointer.Under(roots[i], Pointer.Encode(p)) <==> DecodeAll(roots)[i] <= p {
      Pointer.UnderIsPrefix(Pointer.Decode(roots[i]), p);
    }
    if CoveredBy(DecodeAll(roots), p) {
      var i :| 0 <= i < |roots| && DecodeAll(roots)[i] <= p;
      assert Pointer.Under(roots[i], Pointer.Encode(p));
    }
  }

  lemma AntichainIsSeparate(roots: seq<string>)
    requires Pointers(roots) && Prune.Antichain(roots)
    ensures Separate(DecodeAll(roots))
  {
    forall i, j | 0 <= i < |roots| && 0 <= j < |roots| && i != j ensures !(DecodeAll(roots)[i] <= DecodeAll(roots)[j]) {
      assert !Pointer.Under(roots[i], roots[j]);
      Pointer.UnderIsPrefix(Pointer.Decode(roots[i]), Pointer.Decode(roots[j]));
    }
  }

  /** A chosen root is the pointer of a path that loses all its leaves. */
  lemma RootLosesAll(b: Value, a: Value, fb: LeafMap, fa: LeafMap, ignored: IgnoreList, d: Diff, roots: seq<string>, i: nat)
    requires Setting(b, a, fb, fa, ignored, d, roots) && !Scalar(b) && i < |roots|
    ensures var c := Pointer.Decode(roots[i]); c != [] && Pointer.Encode(c) == roots[i] && LosesAll(b, a, c)
  {
    var removed := fb.Keys - fa.Keys;
    RemovedExactly(fb, fa, ignored, d);
    Prune.RootIsPointer(b, fb, removed, roots[i]);
    var c := Pointer.Decode(roots[i]);
    Prune.GoneIsRemovable(b, fb, removed, c);
    LosesAllIsGone(b, a, fb, fa, c);
  }

  lemma CoveredIffVanishes(b: Value, a: Value, fb: LeafMap, fa: LeafMap, ignored: IgnoreList, d: Diff, roots: seq<string>, p: Path)
    requires Setting(b, a, fb, fa, ignored, d, roots) && !Scalar(b)
    ensures Prune.Covered(roots, Pointer.Encode(p)) <==> Vanishes(b, a, p)
  {
    RemovedExactly(fb, fa, ignored, d);
    Prune.CoveredIffPruned(b, fb, fb.Keys - fa.Keys, roots, p);
    VanishesIsPruned(b, a, fb, fa, p);
  }

  lemma RootsArePointers(b: Value, a: Value, fb: LeafMap, fa: LeafMap, ignored: IgnoreList, d: Diff, roots: seq<string>)
    requires Setting(b, a, fb, fa, ignored, d, roots) && !Scalar(b)
    ensures Pointers(roots)
  {
    forall i | 0 <= i < |roots|
      ensures Pointer.Decode(roots[i]) != [] && Pointer.Encode(Pointer.Decode(roots[i])) == roots[i]
    {
      RootLosesAll(b, a, fb, fa, ignored, d, roots, i);
    }
  }

  /** What is removed as a whole hangs off an object, or is the last element of an array. */
  lemma HangsOff(b: Value, a: Value, c: Path)
    requires c != [] && LosesAll(b, a, c) && ArrayStable(b, a) && !Vanishes(b, a, c[..|c| - 1])
    ensures CanRemove(KindAt(b, c[..|c| - 1]), c[|c| - 1])
  {
    var above := c[..|c| - 1];
    LostIsThere(b, a, c);
    assert above + [c[|c| - 1]] == c;
    assert Kept(b, a, above).ArrNode? ==> ElementsStay(b, a, above);
  }

  lemma LostIsThere(b: Value, a: Value, c: Path)
    requires c != [] && LosesAll(b, a, c)
    ensures KindAt(b, c) != Absent && Container(KindAt(b, c[..|c| - 1]))
  {
    var q: Path :| IsLeaf(b, q) && c <= q;
    AboveIsContainer(b, c[..|c| - 1], q);
    if c != q { AboveIsContainer(b, c, q); }
  }

  lemma EmptyKeyOnTop(b: Value, a: Value, c: Path)
    requires LosesAll(b, a, c) && EmptyKeyUntouched(b, a)
    ensures LostPrefix(c) ==> Vanishes(b, a, c[..|c| - 1])
  {
    var q: Path :| IsLeaf(b, q) && c <= q;
    if LostPrefix(c) {
      assert LostPrefix(q) && !IsLeaf(a, q);
      assert [""] <= c[..|c| - 1];
    }
  }

  /** The roots are exactly what vanishes as a whole. */
  ghost predicate ExactRoots(b: Value, a: Value, cs: seq<Path>) {
    && (forall i :: 0 <= i < |cs| ==> cs[i] != [] && LosesAll(b, a, cs[i]))
    && (forall p: Path :: CoveredBy(cs, p) <==> Vanishes(b, a, p))
  }

  lemma RootsAreExact(b: Value, a: Value, fb: LeafMap, fa: LeafMap, ignored: IgnoreList, d: Diff, roots: seq<string>)
    requires Setting(b, a, fb, fa, ignored, d, roots) && !Scalar(b)
    ensures Pointers(roots) && ExactRoots(b, a, DecodeAll(roots))
  {
    RootsArePointers(b, a, fb, fa, ignored, d, roots);
    forall i | 0 <= i < |roots| ensures Pointer.Decode(roots[i]) != [] && LosesAll(b, a, Pointer.Decode(roots[i])) {
      RootLosesAll(b, a, fb, fa, ignored, d, roots, i);
    }
    forall p: Path ensures CoveredBy(DecodeAll(roots), p) <==> Vanishes(b, a, p) {
      CoveredIffVanishes(b, a, fb, fa, ignored, d, roots, p);
      CoveredIsCoveredBy(roots, p);
    }
  }

  lemma RootsAreClean(b: Value, a: Value, cs: seq<Path>)
    requires ExactRoots(b, a, cs) && Separate(cs) && ArrayStable(b, a) && EmptyKeyUntouched(b, a)
    ensures CleanRoots(b, cs)
  {
    forall i | 0 <= i < |cs| ensures CleanRoot(b, cs[i]) {
      RootIsClean(b, a, cs, i);
    }
  }

  lemma RootIsClean(b: Value, a: Value, cs: seq<Path>, i: nat)
    requires ExactRoots(b, a, cs) && Separate(cs) && ArrayStable(b, a) && EmptyKeyUntouched(b, a) && i < |cs|
    ensures CleanRoot(b, cs[i])
  {
    var c := cs[i];
    StaysAbove(b, a, cs, i);
    HangsOff(b, a, c);
    EmptyKeyOnTop(b, a, c);
  }

  lemma StaysAbove(b: Value, a: Value, cs: seq<Path>, i: nat)
    requires ExactRoots(b, a, cs) && Separate(cs) && i < |cs|
    ensures !Vanishes(b, a, cs[i][..|cs[i]| - 1])
  {
    var above := cs[i][..|cs[i]| - 1];
    forall j | 0 <= j < |cs| ensures !(cs[j] <= above) {
      PrefixStep(cs[j], cs[i]);
    }
  }

  lemma PrefixStep(r: Path, c: Path)
    requires c != []
    ensures r <= c <==> r == c || r <= c[..|c| - 1]
  {
  }

  /** What hangs off something that stays is a root exactly when it loses all its leaves. */
  lemma LastRoot(b: Value, a: Value, cs: seq<Path>, p: Path, s: string)
    requires ExactRoots(b, a, cs) && !Vanishes(b, a, p)
    ensures p + [s] in cs <==> LosesAll(b, a, p + [s])
  {
    var c := p + [s];
    if LosesAll(b, a, c) {
      assert c <= c && Vanishes(b, a, c);
      var i :| 0 <= i < |cs| && cs[i] <= c;
      assert c[..|c| - 1] == p;
      PrefixStep(cs[i], c);
    }
  }

  /** Removing the chosen subtrees leaves exactly what is kept. */
  lemma PrunedTree(b: Value, a: Value, fb: LeafMap, fa: LeafMap, ignored: IgnoreList, d: Diff, roots: seq<string>)
    requires Setting(b, a, fb, fa, ignored, d, roots) && !Scalar(b)
    requires ArrayStable(b, a) && EmptyKeyUntouched(b, a)
    ensures RemoveRoots(b, roots).Ok?
    ensures forall p: Path :: KindAt(RemoveRoots(b, roots).value, p) == Kept(b, a, p)
  {
    RootsAreExact(b, a, fb, fa, ignored, d, roots);
    AntichainIsSeparate(roots);
    RootsAreClean(b, a, DecodeAll(roots));
    RemovePathsKind(b, DecodeAll(roots));
    RootsRemoved(b, roots);
    forall p: Path ensures Kept(b, a, p) == if CoveredBy(DecodeAll(roots), p) then Absent else Shortened(b, DecodeAll(roots), p) {
      PrunedKind(b, a, DecodeAll(roots), p);
    }
  }

  lemma RootsRemoved(b: Value, roots: seq<string>)
    requires Pointers(roots) && forall i :: 0 <= i < |DecodeAll(roots)| ==> !LostPrefix(DecodeAll(roots)[i])
    ensures RemoveRoots(b, roots) == RemovePaths(b, DecodeAll(roots))
  {
    forall i | 0 <= i < |roots| ensures !LostPrefix(Pointer.Decode(roots[i])) {
      assert !LostPrefix(DecodeAll(roots)[i]);
    }
    RemoveRootsIsRemovePaths(b, roots);
  }

  lemma PrunedKind(b: Value, a: Value, cs: seq<Path>, p: Path)
    requires ExactRoots(b, a, cs)
    ensures Kept(b, a, p) == if CoveredBy(cs, p) then Absent else Shortened(b, cs, p)
  {
    if !Vanishes(b, a, p) && KindAt(b, p).ArrNode? && KindAt(b, p).n > 0 {
      LastRoot(b, a, cs, p, Decimal(KindAt(b, p).n - 1));
    }
  }
}
