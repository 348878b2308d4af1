/** The law of diff and apply for lists of scalars. */
module Lists {
  import opened Wrappers
  import opened Json
  import opened Diff
  import opened Apply
  import opened WriteEffects
  import opened Rebuild
  import opened FullTrees
  import opened Shrinking
  import opened DiffLaw

  ghost predicate Scalars(es: seq<Value>) {
    forall i :: 0 <= i < |es| ==> Scalar(es[i])
  }

  predicate Element(es: seq<Value>, q: Path) {
    |q| == 1 && IndexOf(q[0]).Some? && IndexOf(q[0]).value < |es|
  }

  lemma ListKind(es: seq<Value>, q: Path)
    requires Scalars(es)
    ensures IsLeaf(Arr(es), q) <==> Element(es, q)
    ensures Container(KindAt(Arr(es), q)) <==> q == []
  {
    if q != [] {
      var child := Child(Arr(es), q[0]);
      if child.Some? {
        ScalarKind(child.value, q[1..]);
        assert KindAt(Arr(es), q) == KindAt(child.value, q[1..]);
      }
    }
  }

  lemma ListLoses(es: seq<Value>, fs: seq<Value>, c: Path)
    requires Scalars(es) && Scalars(fs) && c != []
    ensures LosesAll(Arr(es), Arr(fs), c) <==> Element(es, c) && !Element(fs, c)
  {
    forall q: Path ensures IsLeaf(Arr(es), q) <==> Element(es, q) { ListKind(es, q); }
    forall q: Path ensures IsLeaf(Arr(fs), q) <==> Element(fs, q) { ListKind(fs, q); }
    forall q: Path | Element(es, q) ensures c <= q <==> c == q {
    }
  }

  lemma OnlyLastIsLost(es: seq<Value>, fs: seq<Value>, c: Path)
    requires Scalars(es) && Scalars(fs) && |fs| + 1 >= |es| && c != []
    ensures LosesAll(Arr(es), Arr(fs), c) ==> |c| == 1 && IndexOf(c[0]) == Some(|fs|) && |es| == |fs| + 1
  {
    ListLoses(es, fs, c);
  }

  lemma ListsAreStable(es: seq<Value>, fs: seq<Value>)
    requires Scalars(es) && Scalars(fs) && |fs| + 1 >= |es|
    ensures ArrayStable(Arr(es), Arr(fs))
  {
    var b, a := Arr(es), Arr(fs);
    forall p: Path | Kept(b, a, p).ArrNode? ensures ElementsStay(b, a, p) {
      ListKind(es, p);
      forall s | LosesAll(b, a, p + [s]) ensures |es| == |fs| + 1 && s == Decimal(|fs|) {
        OnlyLastIsLost(es, fs, p + [s]);
        IndexOfIs(s, |fs|);
      }
      forall q: Path | IsLeaf(a, q) ensures |q| == 1 && IndexOf(q[0]).Some? { ListKind(fs, q); }
    }
  }

  lemma ListsCarryOver(es: seq<Value>, fs: seq<Value>)
    requires Scalars(es) && Scalars(fs)
    ensures Full(Arr(es)) && ArraysCarryOver(Arr(es), Arr(fs))
  {
    RootIsKept(Arr(es), Arr(fs));
    forall q: Path ensures Container(KindAt(Arr(es), q)) <==> q == [] { ListKind(es, q); }
    forall q: Path ensures Container(KindAt(Arr(fs), q)) <==> q == [] { ListKind(fs, q); }
  }

  lemma ListsLoseTwo(es: seq<Value>, fs: seq<Value>)
    requires Scalars(es) && Scalars(fs) && |fs| + 1 < |es|
    ensures LosesTwo(Arr(es), Arr(fs), [], |fs|, |es| - 1)
  {
    RootIsKept(Arr(es), Arr(fs));
    IndexOfDecimal(|fs|);
    IndexOfDecimal(|es| - 1);
    ListLoses(es, fs, [] + [Decimal(|fs|)]);
    ListLoses(es, fs, [] + [Decimal(|es| - 1)]);
  }

  lemma ListsThatFit(es: seq<Value>, fs: seq<Value>, ignored: IgnoreList, d: Diff, r: Outcome)
    requires Scalars(es) && Scalars(fs) && |fs| + 1 >= |es|
    requires IsStructuralDiff(Arr(es), Arr(fs), ignored, d) && IsApplied(Arr(es), d, r)
    requires IgnoredAgree(Arr(es), Arr(fs), ignored)
    ensures r == Ok(Arr(fs))
  {
    ListsAreStable(es, fs);
    ListsCarryOver(es, fs);
    ListsCarryOver(fs, es);
    FullTreesRoundTrip(Arr(es), Arr(fs), ignored, d, r);
  }

  lemma ListsThatShrink(es: seq<Value>, fs: seq<Value>, ignored: IgnoreList, d: Diff, r: Outcome)
    requires Scalars(es) && Scalars(fs) && |fs| + 1 < |es|
    requires IsStructuralDiff(Arr(es), Arr(fs), ignored, d) && IsApplied(Arr(es), d, r)
    requires IgnoredAgree(Arr(es), Arr(fs), ignored)
    ensures r.Err?
  {
    NoEmptyKeyUntouched(Arr(es), Arr(fs));
    ListsLoseTwo(es, fs);
    ShrunkArrayFails(Arr(es), Arr(fs), ignored, d, r, [], |fs|, |es| - 1);
  }

  /** Applying the diff of two lists of scalars gives the second exactly when it is at most one element shorter. */
  lemma ListsRoundTrip(es: seq<Value>, fs: seq<Value>, ignored: IgnoreList, d: Diff, r: Outcome)
    requires Scalars(es) && Scalars(fs)
    requires IsStructuralDiff(Arr(es), Arr(fs), ignored, d) && IsApplied(Arr(es), d, r)
    requires IgnoredAgree(Arr(es), Arr(fs), ignored)
    ensures r == Ok(Arr(fs)) <==> |fs| + 1 >= |es|
    ensures r.Err? <==> |fs| + 1 < |es|
  {
    if |fs| + 1 >= |es| {
      ListsThatFit(es, fs, ignored, d, r);
    } else {
      ListsThatShrink(es, fs, ignored, d, r);
    }
  }
}
