/** When a write fails and with which error, and what a write that works does whatever it was given. */
module WriteErrors {
  import opened Wrappers
  import opened Json
  import opened Diff
  import opened Apply
  import opened WriteEffects
  import Pointer

  /** Setting past the end of an array fills the gap with nulls. */
  lemma SetBeyondEnd(es: seq<Value>, i: nat, v: Value)
    requires |es| <= i
    ensures SetAt(Arr(es), [Decimal(i)], v).Ok? && SetAt(Arr(es), [Decimal(i)], v).value.Arr?
    ensures var r := SetAt(Arr(es), [Decimal(i)], v).value.elems;
      |r| == i + 1 && es <= r && r[i] == v && forall j :: |es| <= j < i ==> r[j] == Null
  {
    ParseDecimal(i);
  }

  /** Ensuring a parent past the end of an array fills the gap with empty objects, not nulls. */
  lemma EnsureBeyondEnd(es: seq<Value>, i: nat)
    requires |es| <= i
    ensures EnsureAt(Arr(es), [Decimal(i)]).Ok? && EnsureAt(Arr(es), [Decimal(i)]).value.Arr?
    ensures var r := EnsureAt(Arr(es), [Decimal(i)]).value.elems;
      |r| == i + 1 && es <= r && forall j :: |es| <= j <= i ==> r[j] == Obj(map[])
  {
    ParseDecimal(i);
    assert [Decimal(i)][1..] == [];
  }

  /** Removing an array element moves the later ones down. */
  lemma RemoveShifts(es: seq<Value>, i: nat)
    ensures i < |es| ==> RemoveAt(Arr(es), [Decimal(i)]).Ok? && RemoveAt(Arr(es), [Decimal(i)]).value.Arr?
    ensures i < |es| ==> var r := RemoveAt(Arr(es), [Decimal(i)]).value.elems;
      |r| == |es| - 1 && (forall j :: 0 <= j < i ==> r[j] == es[j]) && forall j :: i <= j < |r| ==> r[j] == es[j + 1]
    ensures i >= |es| ==> RemoveAt(Arr(es), [Decimal(i)]) == Err(MissingParentPath)
  {
    ParseDecimal(i);
  }

  /** Where navigation ends up, or why it does not. */
  function Walk(cur: Value, p: Path): Outcome
    decreases |p|
  {
    if p == [] then Ok(cur)
    else
      var child :- Navigate(cur, p[0]);
      Walk(child, p[1..])
  }

  /** Why the holder at the end of a walk takes no write: it is a scalar, or an array asked for a non-index. */
  function Refusal(holder: Value, seg: string): Option<DiffError> {
    if Scalar(holder) then Some(IncompatibleShape)
    else if holder.Arr? && ParseIndex(seg).None? then Some(MissingParentPath)
    else None
  }

  /** Setting fails exactly when the walk to the holder fails or the holder refuses, with that error. */
  lemma {:induction false} SetFailsExactly(cur: Value, q: Path, v: Value)
    requires q != []
    ensures var walk := Walk(cur, q[..|q| - 1]); var written := SetAt(cur, q, v);
      if walk.Err? then written == walk
      else if Refusal(walk.value, q[|q| - 1]).Some? then written == Err(Refusal(walk.value, q[|q| - 1]).value)
      else written.Ok?
    decreases |q|
  {
    if |q| > 1 {
      assert q[..|q| - 1][1..] == q[1..][..|q[1..]| - 1];
      if Navigate(cur, q[0]).Ok? { SetFailsExactly(Navigate(cur, q[0]).value, q[1..], v); }
    }
  }

  /** Removing fails for the same reasons, and for an index past the end. */
  lemma {:induction false} RemoveFailsExactly(cur: Value, q: Path)
    requires q != []
    ensures var walk := Walk(cur, q[..|q| - 1]); var removed := RemoveAt(cur, q); var last := q[|q| - 1];
      if walk.Err? then removed == walk
      else if Refusal(walk.value, last).Some? then removed == Err(Refusal(walk.value, last).value)
      else if walk.value.Arr? && ParseIndex(last).value >= |walk.value.elems| then removed == Err(MissingParentPath)
      else removed.Ok?
    decreases |q|
  {
    if |q| > 1 {
      assert q[..|q| - 1][1..] == q[1..][..|q[1..]| - 1];
      if Navigate(cur, q[0]).Ok? { RemoveFailsExactly(Navigate(cur, q[0]).value, q[1..]); }
    }
  }

  /** One step down fails with a shape error at a scalar, and otherwise exactly where no child stands. */
  lemma NavigateFailsExactly(cur: Value, s: string)
    ensures Navigate(cur, s) == Err(IncompatibleShape) <==> KindAt(cur, []).Leaf?
    ensures cur.Obj? ==> Navigate(cur, s) == if KindAt(cur, [s]) == Absent then Err(MissingParentPath) else Ok(At(cur, [s]).value)
    ensures cur.Arr? && ParseIndex(s).None? ==> Navigate(cur, s) == Err(MissingParentPath)
    ensures cur.Arr? && ParseIndex(s).Some? ==> var q := [Decimal(ParseIndex(s).value)];
      Navigate(cur, s) == if KindAt(cur, q) == Absent then Err(MissingParentPath) else Ok(At(cur, q).value)
  {
    AtOne(cur, s);
    if ParseIndex(s).Some? {
      IndexOfDecimal(ParseIndex(s).value);
      AtOne(cur, Decimal(ParseIndex(s).value));
    }
  }

  lemma AtOne(v: Value, s: string)
    ensures At(v, [s]) == Child(v, s)
  {
    assert [s][1..] == [];
  }

  /** What stops a walk from creating parents after `n` steps: the holder reached there refuses. */
  function Obstacle(cur: Value, parents: Path, n: nat): Option<DiffError>
    requires n < |parents|
  {
    var walk := Walk(cur, parents[..n]);
    if walk.Ok? then Refusal(walk.value, parents[n]) else None
  }

  /**
   * Ensuring parents fails exactly when some holder on the way, short of its end, refuses, and with
   * its error: a scalar with a shape error, an array asked for a non-index with a missing parent.
   */
  lemma {:induction false} EnsureFailsExactly(cur: Value, parents: Path)
    ensures EnsureAt(cur, parents).Err? <==> exists n :: 0 <= n < |parents| && Obstacle(cur, parents, n).Some?
    ensures forall n :: 0 <= n < |parents| && Obstacle(cur, parents, n).Some? ==>
      EnsureAt(cur, parents) == Err(Obstacle(cur, parents, n).value)
    decreases |parents|
  {
    if parents != [] {
      assert parents[..0] == [];
      assert Obstacle(cur, parents, 0) == Refusal(cur, parents[0]);
      if Refusal(cur, parents[0]).None? {
        var child := NextParent(cur, parents[0]);
        EnsureFailsExactly(child, parents[1..]);
        EnsureFailsBelow(cur, parents, child);
        ObstacleBelow(cur, parents, child);
        if m :| 0 <= m < |parents| - 1 && Obstacle(child, parents[1..], m).Some? {
          assert Obstacle(cur, parents, m + 1).Some?;
        }
      } else {
        RefusedStopsWalk(cur, parents);
      }
    }
  }

  /** The child a walk that creates parents goes on with: the one there is, or a new object. */
  function NextParent(cur: Value, s: string): Value {
    if Navigate(cur, s).Ok? then Navigate(cur, s).value else Obj(map[])
  }

  lemma EnsureFailsBelow(cur: Value, parents: Path, child: Value)
    requires parents != [] && Refusal(cur, parents[0]).None? && child == NextParent(cur, parents[0])
    ensures EnsureAt(cur, parents).Err? <==> EnsureAt(child, parents[1..]).Err?
    ensures EnsureAt(cur, parents).Err? ==> EnsureAt(cur, parents) == EnsureAt(child, parents[1..])
  {
  }

  lemma ObstacleBelow(cur: Value, parents: Path, child: Value)
    requires parents != [] && Refusal(cur, parents[0]).None? && child == NextParent(cur, parents[0])
    ensures forall n :: 0 < n < |parents| ==> Obstacle(cur, parents, n) == Obstacle(child, parents[1..], n - 1)
  {
    forall n | 0 < n < |parents| ensures Obstacle(cur, parents, n) == Obstacle(child, parents[1..], n - 1) {
      assert parents[..n][1..] == parents[1..][..n - 1] && parents[..n][0] == parents[0];
      if Navigate(cur, parents[0]).Err? { WalkEmpty(parents[1..][..n - 1]); }
    }
  }

  lemma WalkEmpty(p: Path)
    ensures Walk(Obj(map[]), p) == if p == [] then Ok(Obj(map[])) else Err(MissingParentPath)
  {
  }

  lemma RefusedStopsWalk(cur: Value, parents: Path)
    requires parents != [] && Refusal(cur, parents[0]).Some?
    ensures forall n :: 0 < n < |parents| ==> Obstacle(cur, parents, n).None?
  {
    forall n | 0 < n < |parents| ensures Walk(cur, parents[..n]).Err? {
      assert parents[..n][0] == parents[0];
    }
  }

  /** What a write that creates parents may do to what stands already: let an array grow. */
  predicate Preserved(before: Kind, after: Kind) {
    before == Absent || after == before || (before.ArrNode? && after.ArrNode? && before.n <= after.n)
  }

  /** Ensuring parents takes nothing away: every leaf and container stays, and arrays only grow. */
  lemma {:induction false} EnsurePreserves(cur: Value, parents: Path, p: Path)
    ensures EnsureAt(cur, parents).Ok? ==> Preserved(KindAt(cur, p), KindAt(EnsureAt(cur, parents).value, p))
    ensures EnsureAt(cur, parents).Ok? && IsLeaf(cur, p) ==> KindAt(EnsureAt(cur, parents).value, p) == KindAt(cur, p)
    decreases |parents|
  {
    if parents != [] && EnsureAt(cur, parents).Ok? {
      EnsurePreserves(NextParent(cur, parents[0]), parents[1..], if p == [] then [] else p[1..]);
    }
  }

  // Any spelling of an index.

  /** The path a write takes: indices in the way they are written. */
  function Spelled(cur: Value, q: Path): Path
    decreases |q|
  {
    if q == [] then []
    else [SpelledIn(cur, q[0])] + Spelled(NextParent(cur, q[0]), q[1..])
  }

  function SpelledIn(cur: Value, s: string): string {
    if cur.Arr? && ParseIndex(s).Some? then Decimal(ParseIndex(s).value) else s
  }

  lemma SpelledStep(cur: Value, s: string)
    ensures Navigate(cur, SpelledIn(cur, s)) == Navigate(cur, s) && NextParent(cur, SpelledIn(cur, s)) == NextParent(cur, s)
    ensures forall v :: SetLast(cur, SpelledIn(cur, s), v) == SetLast(cur, s, v)
    ensures RemoveLast(cur, SpelledIn(cur, s)) == RemoveLast(cur, s)
    ensures cur.Arr? ==> ParseIndex(SpelledIn(cur, s)) == ParseIndex(s)
  {
    if ParseIndex(s).Some? { ParseDecimal(ParseIndex(s).value); }
  }

  lemma {:induction false} SetSpelled(cur: Value, q: Path, v: Value)
    requires q != []
    ensures Spelled(cur, q) != [] && SetAt(cur, q, v) == SetAt(cur, Spelled(cur, q), v)
    decreases |q|
  {
    SpelledStep(cur, q[0]);
    assert Spelled(cur, q)[1..] == Spelled(NextParent(cur, q[0]), q[1..]);
    if |q| > 1 { SetSpelled(NextParent(cur, q[0]), q[1..], v); }
  }

  lemma {:induction false} RemoveSpelled(cur: Value, q: Path)
    requires q != []
    ensures Spelled(cur, q) != [] && RemoveAt(cur, q) == RemoveAt(cur, Spelled(cur, q))
    decreases |q|
  {
    SpelledStep(cur, q[0]);
    assert Spelled(cur, q)[1..] == Spelled(NextParent(cur, q[0]), q[1..]);
    if |q| > 1 { RemoveSpelled(NextParent(cur, q[0]), q[1..]); }
  }

  lemma {:induction false} EnsureSpelled(cur: Value, q: Path)
    ensures EnsureAt(cur, q) == EnsureAt(cur, Spelled(cur, q))
    decreases |q|
  {
    if q != [] {
      SpelledStep(cur, q[0]);
      assert Spelled(cur, q)[1..] == Spelled(NextParent(cur, q[0]), q[1..]);
      EnsureSpelled(NextParent(cur, q[0]), q[1..]);
    }
  }

  /** However an index is spelled, with a plus sign or leading zeros, a write does the same. */
  lemma SpellingIsIrrelevant(cur: Value, q: Path, v: Value)
    ensures q != [] ==> Spelled(cur, q) != []
    ensures q != [] ==> SetAt(cur, q, v) == SetAt(cur, Spelled(cur, q), v)
    ensures q != [] ==> RemoveAt(cur, q) == RemoveAt(cur, Spelled(cur, q))
    ensures EnsureAt(cur, q) == EnsureAt(cur, Spelled(cur, q))
  {
    EnsureSpelled(cur, q);
    if q != [] {
      SetSpelled(cur, q, v);
      RemoveSpelled(cur, q);
    }
  }

  lemma ThroughChild(cur: Value, s: string, p: Path)
    requires Child(cur, s).Some?
    ensures KindAt(cur, [s] + p) == KindAt(Child(cur, s).value, p)
  {
    assert ([s] + p)[1..] == p;
  }

  lemma SpelledChild(cur: Value, s: string)
    requires Navigate(cur, s).Ok?
    ensures Child(cur, SpelledIn(cur, s)) == Some(Navigate(cur, s).value)
  {
    if cur.Arr? { ParseDecimal(ParseIndex(s).value); }
  }

  /** A set that works had a place for what it set. */
  lemma {:induction false} SetNeedsPlace(cur: Value, q: Path, v: Value)
    requires q != [] && SetAt(cur, q, v).Ok?
    ensures Spelled(cur, q) != [] && HasPlace(cur, Spelled(cur, q))
    decreases |q|
  {
    var p := Spelled(cur, q);
    if |q| == 1 {
      SetLastNeedsPlace(cur, q[0], v);
      assert p == [SpelledIn(cur, q[0])];
    } else {
      var child := Navigate(cur, q[0]).value;
      SetNeedsPlace(child, q[1..], v);
      SpelledChild(cur, q[0]);
      PlaceAbove(cur, p, child);
    }
  }

  lemma SetLastNeedsPlace(cur: Value, s: string, v: Value)
    requires SetLast(cur, s, v).Ok?
    ensures HasPlace(cur, [SpelledIn(cur, s)])
  {
    var q := [SpelledIn(cur, s)];
    assert q[..0] == [];
    AtOne(cur, q[0]);
    if cur.Arr? { IndexOfDecimal(ParseIndex(s).value); }
  }

  lemma PlaceAbove(cur: Value, p: Path, child: Value)
    requires |p| > 1 && Child(cur, p[0]) == Some(child) && HasPlace(child, p[1..])
    ensures HasPlace(cur, p)
  {
    assert p[..|p| - 1][1..] == p[1..][..|p[1..]| - 1];
    GrowsBelow(cur, p, p[..|p| - 1]);
  }

  /** Ensuring parents that works found no scalar and no refusing array on the way. */
  lemma {:induction false} EnsureNeedsWritable(cur: Value, q: Path)
    requires EnsureAt(cur, q).Ok?
    ensures Writable(cur, Spelled(cur, q))
    decreases |q|
  {
    if q != [] {
      EnsureFailsBelow(cur, q, NextParent(cur, q[0]));
      EnsureNeedsWritable(NextParent(cur, q[0]), q[1..]);
      WritableAbove(cur, q[0], Spelled(NextParent(cur, q[0]), q[1..]));
    }
  }

  lemma WritableAbove(cur: Value, s: string, rest: Path)
    requires Refusal(cur, s).None? && Writable(NextParent(cur, s), rest)
    ensures Writable(cur, [SpelledIn(cur, s)] + rest)
  {
    var p := [SpelledIn(cur, s)] + rest;
    assert p[1..] == rest;
    forall n | 0 <= n < |p| ensures OpenAt(cur, p, n) && !KindAt(cur, p[..n]).Leaf? {
      if Navigate(cur, s).Ok? { SpelledChild(cur, s); } else { NoSpelledChild(cur, s); }
      if n == 0 { FirstIsOpen(cur, p, s); } else { RestIsOpen(cur, p, n); }
    }
  }

  lemma NoSpelledChild(cur: Value, s: string)
    requires Navigate(cur, s).Err?
    ensures Child(cur, SpelledIn(cur, s)).None?
  {
    if cur.Arr? && ParseIndex(s).Some? { ParseDecimal(ParseIndex(s).value); }
  }

  lemma FirstIsOpen(cur: Value, p: Path, s: string)
    requires Refusal(cur, s).None? && p != [] && p[0] == SpelledIn(cur, s)
    ensures OpenAt(cur, p, 0) && !KindAt(cur, p[..0]).Leaf?
  {
    assert p[..0] == [] && p[..1] == [p[0]];
    AtOne(cur, p[0]);
    if cur.Arr? { IndexOfDecimal(ParseIndex(s).value); }
  }

  lemma RestIsOpen(cur: Value, p: Path, n: nat)
    requires 0 < n < |p|
    requires Child(cur, p[0]).Some? ==> Writable(Child(cur, p[0]).value, p[1..])
    ensures OpenAt(cur, p, n) && !KindAt(cur, p[..n]).Leaf?
  {
    assert p[..n][1..] == p[1..][..n - 1] && p[..n + 1][1..] == p[1..][..n];
    if Child(cur, p[0]).Some? {
      assert OpenAt(Child(cur, p[0]).value, p[1..], n - 1);
      GrowsBelow(cur, p, p[..n]);
    }
  }

  /** Whatever a set that works was given, its result is the one described for the proper path. */
  lemma SetResult(cur: Value, q: Path, v: Value, p: Path)
    requires q != [] && Scalar(v) && SetAt(cur, q, v).Ok?
    ensures KindAt(SetAt(cur, q, v).value, p) ==
      var way := Spelled(cur, q);
      if p == way then Leaf(v) else if way <= p then Absent
      else if InGap(cur, way, p) then Leaf(Null) else GrownKind(cur, way, p)
  {
    SpellingIsIrrelevant(cur, q, v);
    SetNeedsPlace(cur, q, v);
    SetKind(cur, Spelled(cur, q), v, p);
  }

  /** Whatever parents were ensured, the missing ones are objects, and nothing else changed but arrays that grew. */
  lemma EnsureResult(cur: Value, q: Path, p: Path)
    requires EnsureAt(cur, q).Ok?
    ensures KindAt(EnsureAt(cur, q).value, p) == ReadyKind(cur, Spelled(cur, q), p)
  {
    SpellingIsIrrelevant(cur, q, Null);
    EnsureNeedsWritable(cur, q);
    EnsureKind(cur, Spelled(cur, q), p);
  }

  /** What stands at `p` after an element of an array is removed: the later ones have moved down by one. */
  function ShiftedKind(cur: Value, q: Path, p: Path): Kind
    requires q != []
  {
    var h := q[..|q| - 1];
    if p == h then LessOne(KindAt(cur, p))
    else if h <= p && Moves(q[|h|], p[|h|]) then KindAt(cur, h + [Decimal(IndexOf(p[|h|]).value + 1)] + p[|h| + 1..])
    else KindAt(cur, p)
  }

  predicate Moves(removed: string, seg: string) {
    IndexOf(removed).Some? && IndexOf(seg).Some? && IndexOf(seg).value >= IndexOf(removed).value
  }

  /** Removing an array element, anywhere in a tree, moves the later ones down and touches nothing else. */
  lemma {:induction false} RemoveElementKind(cur: Value, q: Path, p: Path)
    requires q != [] && KindAt(cur, q[..|q| - 1]).ArrNode? && KindAt(cur, q) != Absent
    ensures RemoveAt(cur, q).Ok? && KindAt(RemoveAt(cur, q).value, p) == ShiftedKind(cur, q, p)
    decreases |q|
  {
    if |q| == 1 {
      assert q[..0] == [] && q == [q[0]];
      RemoveOwnElement(cur, q[0], p);
    } else {
      var child := Child(cur, q[0]).value;
      assert q[..|q| - 1][1..] == q[1..][..|q[1..]| - 1];
      if p != [] { RemoveElementKind(child, q[1..], p[1..]); } else { RemoveElementKind(child, q[1..], []); }
      ReplaceKind(cur, q[0], RemoveAt(child, q[1..]).value, p);
      if p != [] && p[0] == q[0] { ShiftedBelow(cur, q, p); }
    }
  }

  lemma RemoveOwnElement(cur: Value, s: string, p: Path)
    requires cur.Arr? && KindAt(cur, [s]) != Absent
    ensures RemoveLast(cur, s).Ok? && KindAt(RemoveLast(cur, s).value, p) == ShiftedKind(cur, [s], p)
  {
    AtOne(cur, s);
    assert [s][..0] == [];
    if p != [] {
      ShiftedAt(cur.elems, IndexOf(s).value, IndexOf(p[0]));
      if Moves(s, p[0]) { NextElement(cur, p); }
    }
  }

  lemma ShiftedAt(es: seq<Value>, i: nat, j: Option<nat>)
    requires i < |es|
    ensures ElementAt(es[..i] + es[i + 1..], j) ==
      if j.Some? && j.value >= i then ElementAt(es, Some(j.value + 1)) else ElementAt(es, j)
  {
  }

  lemma NextElement(cur: Value, p: Path)
    requires cur.Arr? && p != [] && IndexOf(p[0]).Some?
    ensures KindAt(cur, [] + [Decimal(IndexOf(p[0]).value + 1)] + p[1..]) ==
      match ElementAt(cur.elems, Some(IndexOf(p[0]).value + 1))
      case Some(c) => KindAt(c, p[1..])
      case None => Absent
  {
    var j := IndexOf(p[0]).value + 1;
    ThroughElement(cur, j, p[1..]);
    assert [] + [Decimal(j)] + p[1..] == [Decimal(j)] + p[1..];
  }

  lemma ThroughElement(cur: Value, j: nat, p: Path)
    requires cur.Arr?
    ensures KindAt(cur, [Decimal(j)] + p) == if j < |cur.elems| then KindAt(cur.elems[j], p) else Absent
  {
    IndexOfDecimal(j);
    assert ([Decimal(j)] + p)[1..] == p;
  }

  lemma ShiftedBelow(cur: Value, q: Path, p: Path)
    requires |q| > 1 && p != [] && p[0] == q[0] && Child(cur, q[0]).Some?
    ensures ShiftedKind(cur, q, p) == ShiftedKind(Child(cur, q[0]).value, q[1..], p[1..])
  {
    var child, h := Child(cur, q[0]).value, q[..|q| - 1];
    assert h[1..] == q[1..][..|q[1..]| - 1] && h == [q[0]] + h[1..] && p == [p[0]] + p[1..];
    if h <= p && p != h {
      assert h[1..] <= p[1..];
      var next := [Decimal(if IndexOf(p[|h|]).Some? then IndexOf(p[|h|]).value + 1 else 0)];
      assert h + next + p[|h| + 1..] == [q[0]] + (h[1..] + next + p[1..][|h[1..]| + 1..]);
      ThroughChild(cur, q[0], h[1..] + next + p[1..][|h[1..]| + 1..]);
    }
  }

  // Whole entries.

  /** Parents that were there are left alone; otherwise a new object stands at the end of the way. */
  lemma {:induction false} EnsureThenWalk(cur: Value, parents: Path)
    requires EnsureAt(cur, parents).Ok?
    ensures Walk(EnsureAt(cur, parents).value, parents) ==
      Ok(if Walk(cur, parents).Ok? then Walk(cur, parents).value else Obj(map[]))
    decreases |parents|
  {
    if parents != [] {
      var child := NextParent(cur, parents[0]);
      EnsureFailsBelow(cur, parents, child);
      EnsureThenWalk(child, parents[1..]);
      if Navigate(cur, parents[0]).Err? { WalkEmpty(parents[1..]); }
      NavigateEnsured(cur, parents, child);
    }
  }

  lemma NavigateEnsured(cur: Value, parents: Path, child: Value)
    requires parents != [] && EnsureAt(cur, parents).Ok? && child == NextParent(cur, parents[0])
    ensures EnsureAt(child, parents[1..]).Ok?
    ensures Navigate(EnsureAt(cur, parents).value, parents[0]) == EnsureAt(child, parents[1..])
  {
  }

  lemma ObstacleAbove(root: Value, q: Path)
    requires q != []
    ensures forall n :: 0 <= n < |q| - 1 ==> Obstacle(root, q, n) == Obstacle(root, q[..|q| - 1], n)
    ensures Obstacle(root, q, |q| - 1) ==
      if Walk(root, q[..|q| - 1]).Ok? then Refusal(Walk(root, q[..|q| - 1]).value, q[|q| - 1]) else None
  {
    forall n | 0 <= n < |q| - 1 ensures q[..|q| - 1][..n] == q[..n] {
    }
  }

  /** Ensuring the parents and setting fails exactly when a holder on the way, the last one included, refuses. */
  lemma WriteFailsExactly(root: Value, q: Path, v: Value)
    requires q != []
    ensures var ready := EnsureAt(root, q[..|q| - 1]);
      var r := if ready.Err? then ready else SetAt(ready.value, q, v);
      (r.Err? <==> exists n :: 0 <= n < |q| && Obstacle(root, q, n).Some?)
      && (forall n :: 0 <= n < |q| && Obstacle(root, q, n).Some? ==> r == Err(Obstacle(root, q, n).value))
  {
    var above := q[..|q| - 1];
    ObstacleAbove(root, q);
    EnsureFailsExactly(root, above);
    if EnsureAt(root, above).Ok? {
      EnsureThenWalk(root, above);
      SetFailsExactly(EnsureAt(root, above).value, q, v);
      assert Obstacle(root, q, |q| - 1).Some? ==> 0 <= |q| - 1 < |q|;
    } else {
      var n :| 0 <= n < |above| && Obstacle(root, above, n).Some?;
      OneObstacle(root, q, n);
      assert Obstacle(root, q, n).Some?;
    }
  }

  lemma AddedIsWrite(root: Value, roots: seq<string>, path: string, v: Value)
    requires path != ""
    ensures var q := Pointer.Segments(path); var ready := EnsureAt(root, q[..|q| - 1]);
      ApplyEntry(root, roots, Added(path, v)) == if ready.Err? then ready else SetAt(ready.value, q, v)
  {
    if path == "/" { Pointer.SegmentsRoot(); }
  }

  /**
   * An addition fails exactly when a holder on the way, the last one included, refuses: a scalar, or
   * an array asked for a non-index. Missing parents are no obstacle.
   */
  lemma AddedFailsExactly(root: Value, roots: seq<string>, path: string, v: Value)
    requires path != ""
    ensures var q, r := Pointer.Segments(path), ApplyEntry(root, roots, Added(path, v));
      (r.Err? <==> exists n :: 0 <= n < |q| && Obstacle(root, q, n).Some?)
      && (forall n :: 0 <= n < |q| && Obstacle(root, q, n).Some? ==> r == Err(Obstacle(root, q, n).value))
  {
    AddedIsWrite(root, roots, path, v);
    WriteFailsExactly(root, Pointer.Segments(path), v);
  }

  lemma {:induction false} EnsureKeepsSpelling(cur: Value, q: Path)
    requires q != [] && EnsureAt(cur, q[..|q| - 1]).Ok?
    ensures Spelled(EnsureAt(cur, q[..|q| - 1]).value, q) == Spelled(cur, q)
    decreases |q|
  {
    var above := q[..|q| - 1];
    if above != [] {
      var child := NextParent(cur, q[0]);
      assert above[1..] == q[1..][..|q[1..]| - 1];
      NavigateEnsured(cur, above, child);
      EnsureKeepsSpelling(child, q[1..]);
    }
  }

  lemma {:induction false} SpelledPrefix(cur: Value, q: Path)
    requires q != []
    ensures |Spelled(cur, q)| == |q| && Spelled(cur, q)[..|q| - 1] == Spelled(cur, q[..|q| - 1])
    decreases |q|
  {
    if |q| == 1 {
      assert q[..0] == [];
    } else {
      assert q[..|q| - 1][1..] == q[1..][..|q[1..]| - 1];
      SpelledPrefix(NextParent(cur, q[0]), q[1..]);
    }
  }

  /** An addition that works, whatever it was given, is the write of its leaf with its parents. */
  lemma AddedResult(root: Value, roots: seq<string>, path: string, v: Value, p: Path)
    requires path != "" && Scalar(v) && ApplyEntry(root, roots, Added(path, v)).Ok?
    ensures var q := Pointer.Segments(path);
      Spelled(root, q) != [] && KindAt(ApplyEntry(root, roots, Added(path, v)).value, p) == WrittenKind(root, Spelled(root, q), v, p)
  {
    var q := Pointer.Segments(path);
    AddedIsWrite(root, roots, path, v);
    WriteFailsExactly(root, q, v);
    EnsureFailsExactly(root, q);
    EnsureNeedsWritable(root, q);
    SpelledPrefix(root, q);
    SpellingIsIrrelevant(root, q[..|q| - 1], v);
    EnsureKeepsSpelling(root, q);
    SpellingIsIrrelevant(EnsureAt(root, q[..|q| - 1]).value, q, v);
    WriteKind(root, Spelled(root, q), v, p);
  }

  /** A walk that is refused goes no further. */
  lemma OneObstacle(cur: Value, q: Path, n: nat)
    requires n < |q| && Obstacle(cur, q, n).Some?
    ensures forall m :: n < m < |q| ==> Obstacle(cur, q, m).None?
  {
    forall m | n < m < |q| ensures Walk(cur, q[..m]).Err? {
      assert q[..m][..n] == q[..n] && q[..m][n] == q[n];
      WalkOn(cur, q[..m], n);
    }
  }

  lemma {:induction false} WalkOn(cur: Value, p: Path, n: nat)
    requires n < |p| && Walk(cur, p[..n]).Ok? && Refusal(Walk(cur, p[..n]).value, p[n]).Some?
    ensures Walk(cur, p).Err?
    decreases n
  {
    if n > 0 {
      assert p[..n][1..] == p[1..][..n - 1];
      WalkOn(Navigate(cur, p[0]).value, p[1..], n - 1);
    } else {
      assert p[..0] == [];
    }
  }

  /** A modification creates nothing: it fails exactly when its parents are not all there, or the holder refuses. */
  lemma ModifiedFailsExactly(root: Value, roots: seq<string>, path: string, u: Value, v: Value)
    requires path != ""
    ensures var q, r := Pointer.Segments(path), ApplyEntry(root, roots, Modified(path, u, v));
      var walk := Walk(root, q[..|q| - 1]);
      if walk.Err? then r == walk
      else if Refusal(walk.value, q[|q| - 1]).Some? then r == Err(Refusal(walk.value, q[|q| - 1]).value)
      else r == SetAt(root, q, v) && r.Ok?
  {
    SetFailsExactly(root, Pointer.Segments(path), v);
  }

  /** A removal that a pruned subtree covers does nothing; any other takes its own path away, or fails. */
  lemma RemovedExactlyIfUncovered(root: Value, roots: seq<string>, path: string, u: Value)
    requires path != ""
    ensures var q, r := Pointer.Segments(path), ApplyEntry(root, roots, Removed(path, u));
      var walk := Walk(root, q[..|q| - 1]);
      if exists i :: 0 <= i < |roots| && Pointer.Under(roots[i], path) then r == Ok(root)
      else if walk.Err? then r == walk
      else if Scalar(walk.value) then r == Err(IncompatibleShape)
      else r.Ok? <==> (walk.value.Obj? || Navigate(walk.value, q[|q| - 1]).Ok?)
  {
    RemoveFailsExactly(root, Pointer.Segments(path));
  }
}
