/** Trees whose containers, the root apart, all have leaves: when what comes out of a diff has the right containers. */
module FullTrees {
  import opened Json
  import opened Apply
  import opened Rebuild
  import opened Patching

  /** Only the root may be an empty container. */
  ghost predicate Full(v: Value) {
    forall p: Path :: p != [] && Container(KindAt(v, p)) ==> HasLeafBelow(v, p)
  }

  /** The target has arrays exactly where arrays of `b` stay. */
  ghost predicate ArraysCarryOver(b: Value, a: Value) {
    forall p: Path :: Container(KindAt(a, p)) ==> (KindAt(a, p).ArrNode? <==> Kept(b, a, p).ArrNode?)
  }

  lemma FullHasLeaf(v: Value, p: Path)
    requires Full(v) && p != [] && KindAt(v, p) != Absent
    ensures exists q: Path :: IsLeaf(v, q) && p <= q
  {
    if IsLeaf(v, p) {
      assert p <= p;
    } else {
      var q: Path :| IsLeaf(v, q) && Below(p, q);
    }
  }

  lemma LeaflessIsAbsent(a: Value, p: Path)
    requires Full(a) && p != [] && Leafless(a, p)
    ensures KindAt(a, p) == Absent
  {
    if KindAt(a, p) != Absent { FullHasLeaf(a, p); }
  }

  /** Where the target has no leaves, nothing of a full tree stays. */
  lemma LeaflessIsGone(b: Value, a: Value, p: Path)
    requires Full(b) && p != [] && Leafless(a, p)
    ensures Kept(b, a, p) == Absent
  {
    if KindAt(b, p) != Absent {
      FullHasLeaf(b, p);
      forall q: Path | IsLeaf(b, q) && p <= q ensures !IsLeaf(a, q) {
        assert q == p || Below(p, q);
      }
      assert LosesAll(b, a, p) && p <= p;
    }
  }

  lemma ElementIsThere(v: Value, p: Path, i: nat)
    requires KindAt(v, p).ArrNode?
    ensures KindAt(v, p + [Decimal(i)]) != Absent <==> i < KindAt(v, p).n
  {
    IndexOfDecimal(i);
    AbsentPastEnd(v, p, Decimal(i));
  }

  /** What an array keeps has leaves that stay. */
  lemma KeptElementHasLeaf(b: Value, a: Value, p: Path, i: nat)
    requires Full(b) && ArrayStable(b, a) && Kept(b, a, p).ArrNode? && i < Kept(b, a, p).n
    ensures exists q: Path :: IsLeaf(a, q) && p + [Decimal(i)] <= q
  {
    var c := p + [Decimal(i)];
    ElementIsThere(b, p, i);
    FullHasLeaf(b, c);
    assert ElementsStay(b, a, p);
    if LosesAll(b, a, c) { DecimalInjective(i, KindAt(b, p).n - 1); }
  }

  lemma KeptFits(b: Value, a: Value, p: Path)
    requires Full(b) && ArrayStable(b, a) && Kept(b, a, p).ArrNode? && KindAt(a, p).ArrNode?
    ensures Kept(b, a, p).n <= KindAt(a, p).n
  {
    var k := Kept(b, a, p).n;
    if k > 0 { KeptElementFits(b, a, p, k - 1); }
  }

  lemma KeptElementFits(b: Value, a: Value, p: Path, i: nat)
    requires Full(b) && ArrayStable(b, a) && Kept(b, a, p).ArrNode? && KindAt(a, p).ArrNode? && i < Kept(b, a, p).n
    ensures i < KindAt(a, p).n
  {
    KeptElementHasLeaf(b, a, p, i);
    ElementWithLeaf(a, p, i);
  }

  lemma ElementWithLeaf(a: Value, p: Path, i: nat)
    requires KindAt(a, p).ArrNode? && exists q: Path :: IsLeaf(a, q) && p + [Decimal(i)] <= q
    ensures i < KindAt(a, p).n
  {
    var c := p + [Decimal(i)];
    var q: Path :| IsLeaf(a, q) && c <= q;
    if q != c { AboveIsContainer(a, c, q); }
    ElementIsThere(a, p, i);
  }

  lemma LastHasLeaf(a: Value, p: Path)
    requires Full(a) && KindAt(a, p).ArrNode? && KindAt(a, p).n > 0
    ensures NeedsLength(a, p, KindAt(a, p).n)
  {
    var i: nat := KindAt(a, p).n - 1;
    ElementIsThere(a, p, i);
    FullHasLeaf(a, p + [Decimal(i)]);
    var q: Path :| IsLeaf(a, q) && p + [Decimal(i)] <= q;
    LeadsToElement(p, q, Decimal(i), i);
  }

  lemma LeadsToElement(p: Path, q: Path, s: string, i: nat)
    requires p + [s] <= q && s == Decimal(i)
    ensures LeadsInto(q, p) && IndexOf(q[|p|]).value == i
  {
    IndexOfDecimal(i);
    assert p <= p + [s] && q[|p|] == (p + [s])[|p|];
  }

  lemma NoElementsNoLength(a: Value, p: Path)
    requires Full(a) && KindAt(a, p).ArrNode? && Leafless(a, p)
    ensures KindAt(a, p).n == 0
  {
    if KindAt(a, p).n > 0 { LastHasLeaf(a, p); }
  }

  lemma HoldsIfCarriedOver(b: Value, a: Value, p: Path)
    requires Full(b) && Full(a) && !Scalar(b) && ArrayStable(b, a) && HasLeafBelow(a, p)
    ensures HoldsLeaves(b, a, p) <==> (KindAt(a, p).ArrNode? <==> Kept(b, a, p).ArrNode?)
  {
    ContainerAbove(a, p);
    if Kept(b, a, p).Leaf? {
      KeptLeafStays(b, a, p);
      LeafHasNoneBelow(a, p);
    } else if Kept(b, a, p).ArrNode? && KindAt(a, p).ArrNode? {
      KeptFits(b, a, p);
      if KindAt(a, p).n > 0 { LastHasLeaf(a, p); }
    }
  }

  lemma ContainerAbove(a: Value, p: Path)
    requires HasLeafBelow(a, p)
    ensures Container(KindAt(a, p))
  {
    var q: Path :| IsLeaf(a, q) && Below(p, q);
    AboveIsContainer(a, p, q);
  }

  /** A full target has no gaps to be filled. */
  lemma NotOutgrown(b: Value, a: Value, p: Path)
    requires Full(a) && ArraysCarryOver(b, a) && Leafless(a, p)
    ensures !Outgrown(b, a, p)
  {
    if q: Path :| IsLeaf(a, q) && Overtakes(b, a, q, p) {
      var h := p[..|p| - 1];
      AboveIsContainer(a, h, q);
      LeafBelowLength(a, h, q);
      assert p == h + [p[|h|]];
      AbsentPastEnd(a, h, p[|h|]);
      LeaflessIsAbsent(a, p);
    }
  }

  lemma RootIsKept(b: Value, a: Value)
    ensures !Vanishes(b, a, []) && !Outgrown(b, a, [])
  {
  }

  lemma LeaflessRoot(b: Value, a: Value)
    requires Full(b) && Full(a) && !Scalar(b) && !Scalar(a) && ArrayStable(b, a) && Leafless(a, [])
    ensures IsLeftover(b, a, [], KindAt(a, [])) <==> (KindAt(a, []).ArrNode? <==> Kept(b, a, []).ArrNode?)
  {
    RootIsKept(b, a);
    assert Container(KindAt(b, [])) && Container(KindAt(a, []));
    if KindAt(a, []).ArrNode? && Kept(b, a, []).ArrNode? {
      NoElementsNoLength(a, []);
      KeptFits(b, a, []);
    }
  }

  /** Full trees agree in their containers exactly when the target has arrays where arrays stay. */
  lemma FullTreesAgree(b: Value, a: Value)
    requires Full(b) && Full(a) && !Scalar(b) && !Scalar(a) && ArrayStable(b, a)
    ensures ContainersAgree(b, a) <==> ArraysCarryOver(b, a)
  {
    if ContainersAgree(b, a) {
      forall p: Path | Container(KindAt(a, p)) ensures KindAt(a, p).ArrNode? <==> Kept(b, a, p).ArrNode? {
        if HasLeafBelow(a, p) { HoldsIfCarriedOver(b, a, p); } else { AgreesAtEmptyRoot(b, a, p); }
      }
    }
    if ArraysCarryOver(b, a) {
      forall p: Path | HasLeafBelow(a, p) ensures HoldsLeaves(b, a, p) {
        ContainerAbove(a, p);
        HoldsIfCarriedOver(b, a, p);
      }
      forall p: Path | Leafless(a, p) ensures IsLeftover(b, a, p, KindAt(a, p)) {
        if p == [] { LeaflessRoot(b, a); } else { LeftoverIsNothing(b, a, p); }
      }
    }
  }

  lemma AgreesAtEmptyRoot(b: Value, a: Value, p: Path)
    requires Full(b) && Full(a) && !Scalar(b) && !Scalar(a) && ArrayStable(b, a) && ContainersAgree(b, a)
    requires Container(KindAt(a, p)) && !HasLeafBelow(a, p)
    ensures KindAt(a, p).ArrNode? <==> Kept(b, a, p).ArrNode?
  {
    NothingBelowLeaf(a, p);
    assert p == [] && Leafless(a, p);
    LeaflessRoot(b, a);
  }

  lemma LeftoverIsNothing(b: Value, a: Value, p: Path)
    requires Full(b) && Full(a) && ArraysCarryOver(b, a) && Leafless(a, p) && p != []
    ensures IsLeftover(b, a, p, KindAt(a, p))
  {
    NotOutgrown(b, a, p);
    LeaflessIsAbsent(a, p);
    LeaflessIsGone(b, a, p);
  }
}
