/** What each write does to a tree, seen path by path. */
module WriteEffects {
  import opened Wrappers
  import opened Json
  import opened Apply

  lemma ReplaceKind(cur: Value, s: string, c: Value, p: Path)
    requires Child(cur, s).Some?
    ensures Navigate(cur, s) == Ok(Child(cur, s).value)
    ensures KindAt(Replace(cur, s, c), p) ==
      if p == [] then KindOf(cur) else if p[0] == s then KindAt(c, p[1..]) else KindAt(cur, p)
  {
  }

  /** The next segment of `q` below the array at `p` is an index past its end. */
  predicate GrowsAt(cur: Value, q: Path, p: Path) {
    && Below(p, q) && KindAt(cur, p).ArrNode?
    && IndexOf(q[|p|]).Some? && IndexOf(q[|p|]).value >= KindAt(cur, p).n
  }

  /** What stands at `p`, an array growing as far as `q` leads past its end. */
  function GrownKind(cur: Value, q: Path, p: Path): Kind {
    if GrowsAt(cur, q, p) then ArrNode(IndexOf(q[|p|]).value + 1) else KindAt(cur, p)
  }

  /** `p` is one of the new elements before the one `q` leads to. */
  predicate InGap(cur: Value, q: Path, p: Path) {
    && p != [] && GrowsAt(cur, q, p[..|p| - 1])
    && IndexOf(p[|p| - 1]).Some?
    && KindAt(cur, p[..|p| - 1]).n <= IndexOf(p[|p| - 1]).value < IndexOf(q[|p| - 1]).value
  }

  /** Where an array would have to grow, nothing stands yet. */
  lemma GrowsMeansAbsent(cur: Value, q: Path, p: Path)
    ensures GrowsAt(cur, q, p) ==> KindAt(cur, q[..|p| + 1]) == Absent
    ensures InGap(cur, q, p) ==> KindAt(cur, p) == Absent
  {
    if GrowsAt(cur, q, p) {
      AtConcat(cur, p, [q[|p|]]);
      assert q[..|p| + 1] == p + [q[|p|]];
    }
    if InGap(cur, q, p) {
      AtConcat(cur, p[..|p| - 1], [p[|p| - 1]]);
      assert p == p[..|p| - 1] + [p[|p| - 1]];
    }
  }

  /** The container that holds `q` is there, and can take a new child at the end of `q`. */
  predicate HasPlace(cur: Value, q: Path)
    requires q != []
  {
    var holder := KindAt(cur, q[..|q| - 1]);
    holder.ObjNode? || (holder.ArrNode? && (KindAt(cur, q) != Absent || GrowsAt(cur, q, q[..|q| - 1])))
  }

  lemma GrowsBelow(cur: Value, q: Path, p: Path)
    requires p != [] && q != [] && p[0] == q[0] && Child(cur, q[0]).Some?
    ensures GrowsAt(cur, q, p) <==> GrowsAt(Child(cur, q[0]).value, q[1..], p[1..])
    ensures GrownKind(cur, q, p) == GrownKind(Child(cur, q[0]).value, q[1..], p[1..])
  {
    assert p == [p[0]] + p[1..] && q == [q[0]] + q[1..];
  }

  lemma GapBelow(cur: Value, q: Path, p: Path)
    requires |p| > 1 && q != [] && p[0] == q[0] && Child(cur, q[0]).Some?
    ensures InGap(cur, q, p) <==> InGap(Child(cur, q[0]).value, q[1..], p[1..])
  {
    assert p[..|p| - 1][1..] == p[1..][..|p[1..]| - 1];
    GrowsBelow(cur, q, p[..|p| - 1]);
  }

  /** Nothing grows where the way of `q` goes on through an existing child. */
  lemma NoGrowthAtExisting(cur: Value, q: Path, p: Path)
    requires q != [] && Child(cur, q[0]).Some?
    ensures !GrowsAt(cur, q, []) && GrownKind(cur, q, []) == KindOf(cur)
    ensures InGap(cur, q, p) ==> |p| > 1 && p[0] == q[0]
  {
    assert KindAt(cur, []) == KindOf(cur);
    if p != [] {
      assert |p| == 1 ==> p[..|p| - 1] == [];
      assert |p| > 1 ==> p[..|p| - 1][0] == p[0];
      BelowSharesHead(p[..|p| - 1], q);
    }
  }

  lemma PlaceBelow(cur: Value, q: Path)
    requires |q| > 1 && HasPlace(cur, q)
    ensures Child(cur, q[0]).Some? && HasPlace(Child(cur, q[0]).value, q[1..])
  {
    assert q[..|q| - 1][1..] == q[1..][..|q[1..]| - 1];
    GrowsBelow(cur, q, q[..|q| - 1]);
  }

  function Padded(es: seq<Value>, pad: Value, i: nat, v: Value): seq<Value>
    requires |es| <= i
  {
    es + seq(i - |es|, _ => pad) + [v]
  }

  lemma PaddedChild(es: seq<Value>, pad: Value, i: nat, v: Value, s: string)
    requires |es| <= i
    ensures Child(Arr(Padded(es, pad, i, v)), s) ==
      match IndexOf(s)
      case None => None
      case Some(j) =>
        if j < |es| then Some(es[j]) else if j < i then Some(pad) else if j == i then Some(v) else None
  {
  }

  /** An array grown to `v` at index `i`: the old elements, the padding, `v`. */
  lemma PaddedKind(es: seq<Value>, pad: Value, i: nat, v: Value, q: Path, p: Path)
    requires |es| <= i && q != [] && IndexOf(q[0]) == Some(i)
    ensures KindAt(Arr(Padded(es, pad, i, v)), p) ==
      if p != [] && p[0] == q[0] then KindAt(v, p[1..])
      else if p != [] && InGap(Arr(es), q, p[..1]) then KindAt(pad, p[1..])
      else GrownKind(Arr(es), q, p)
  {
    if p == [] {
      assert GrowsAt(Arr(es), q, []);
    } else {
      PaddedChild(es, pad, i, v, p[0]);
      assert p[..1] == [p[0]] && p[..1][..0] == [];
      assert KindAt(Arr(es), []) == ArrNode(|es|);
      PastTheEnd(es, q, p);
    }
  }

  /** Past the end of an array there is nothing, and nothing to grow. */
  lemma PastTheEnd(es: seq<Value>, q: Path, p: Path)
    requires p != [] && q != [] && IndexOf(q[0]).Some? && IndexOf(q[0]).value >= |es|
    ensures GrownKind(Arr(es), q, p) == KindAt(Arr(es), p)
    ensures IndexOf(p[0]).Some? && IndexOf(p[0]).value >= |es| ==> KindAt(Arr(es), p) == Absent
  {
    BelowSharesHead(p, q);
    NoSuchElement(es, p);
  }

  lemma BelowSharesHead(p: Path, q: Path)
    ensures Below(p, q) && p != [] ==> p[0] == q[0]
  {
  }

  lemma NoSuchElement(es: seq<Value>, p: Path)
    requires p != []
    ensures IndexOf(p[0]).Some? && IndexOf(p[0]).value >= |es| ==> KindAt(Arr(es), p) == Absent
  {
  }

  /**
   * Setting a scalar puts it at its path, clears what was below, lets an array grow with nulls
   * before the new element, and touches nothing else.
   */
  lemma {:induction false} SetKind(cur: Value, q: Path, v: Value, p: Path)
    requires q != [] && Scalar(v) && HasPlace(cur, q)
    ensures SetAt(cur, q, v).Ok?
    ensures KindAt(SetAt(cur, q, v).value, p) ==
      if p == q then Leaf(v) else if q <= p then Absent
      else if InGap(cur, q, p) then Leaf(Null) else GrownKind(cur, q, p)
  {
    if |q| == 1 {
      assert q[..0] == [] && q == [q[0]];
      SetLastKind(cur, q, v, p);
    } else {
      PlaceBelow(cur, q);
      NoGrowthAtExisting(cur, q, p);
      var child := Child(cur, q[0]).value;
      if p != [] { SetKind(child, q[1..], v, p[1..]); } else { SetKind(child, q[1..], v, []); }
      ReplaceKind(cur, q[0], SetAt(child, q[1..], v).value, p);
      if p != [] { StepDown(cur, q, p); }
    }
  }

  /** Looking at `p` from `cur` and from the child `q` leads through. */
  lemma StepDown(cur: Value, q: Path, p: Path)
    requires q != [] && Child(cur, q[0]).Some? && p != []
    ensures p[0] != q[0] ==> !(q <= p) && !(p <= q) && !InGap(cur, q, p) && GrownKind(cur, q, p) == KindAt(cur, p)
    ensures p[0] == q[0] ==>
      && (p == q <==> p[1..] == q[1..]) && (q <= p <==> q[1..] <= p[1..]) && (p <= q <==> p[1..] <= q[1..])
      && (InGap(cur, q, p) <==> InGap(Child(cur, q[0]).value, q[1..], p[1..]))
      && GrownKind(cur, q, p) == GrownKind(Child(cur, q[0]).value, q[1..], p[1..])
  {
    assert p == [p[0]] + p[1..] && q == [q[0]] + q[1..];
    NoGrowthAtExisting(cur, q, p);
    if p[0] == q[0] {
      GrowsBelow(cur, q, p);
      if |p| > 1 { GapBelow(cur, q, p); }
    }
  }

  lemma SetLastKind(cur: Value, q: Path, v: Value, p: Path)
    requires |q| == 1 && Scalar(v) && HasPlace(cur, q)
    ensures SetLast(cur, q[0], v).Ok?
    ensures KindAt(SetLast(cur, q[0], v).value, p) ==
      if p == q then Leaf(v) else if q <= p then Absent
      else if InGap(cur, q, p) then Leaf(Null) else GrownKind(cur, q, p)
  {
    var s := q[0];
    assert q == [s] && q[..0] == [];
    assert p != [] ==> (q <= p <==> p[0] == s) && (p == q <==> p[0] == s && p[1..] == []) by {
      if p != [] { assert p == [p[0]] + p[1..]; }
    }
    ScalarKind(v, if p == [] then [] else p[1..]);
    if Child(cur, s).Some? {
      ReplaceKind(cur, s, v, p);
      assert SetLast(cur, s, v).value == Replace(cur, s, v);
      NoGrowthAtExisting(cur, q, p);
      if p != [] { StepDown(cur, q, p); }
    } else if cur.Arr? {
      var i := IndexOf(s).value;
      assert SetLast(cur, s, v).value == Arr(Padded(cur.elems, Null, i, v));
      PaddedKind(cur.elems, Null, i, v, q, p);
      GapIsOneDeep(cur, q, p);
      ScalarKind(Null, if p == [] then [] else p[1..]);
    }
  }

  lemma ScalarKind(v: Value, p: Path)
    requires Scalar(v)
    ensures KindAt(v, p) == if p == [] then Leaf(v) else Absent
  {
  }

  /** The gap an array of its own leaves is one level deep, and nothing stands below it. */
  lemma GapIsOneDeep(cur: Value, q: Path, p: Path)
    requires cur.Arr? && q != [] && IndexOf(q[0]).Some? && IndexOf(q[0]).value >= |cur.elems|
    ensures InGap(cur, q, p) ==> |p| == 1
    ensures p != [] && InGap(cur, q, p[..1]) ==> KindAt(cur, p) == Absent
    ensures |p| == 1 ==> p[..1] == p
  {
    if p != [] {
      assert p[..1][..0] == [];
      PastTheEnd(cur.elems, q, p);
      if |p| > 1 { PastTheEnd(cur.elems, q, p[..|p| - 1]); }
    }
  }

  /** An object, or an array whose last element is the one removed. */
  predicate CanRemove(holder: Kind, seg: string) {
    holder.ObjNode? || (holder.ArrNode? && holder.n > 0 && seg == Decimal(holder.n - 1))
  }

  function LessOne(holder: Kind): Kind {
    if holder.ArrNode? && holder.n > 0 then ArrNode(holder.n - 1) else holder
  }

  lemma PopChild(es: seq<Value>, s: string)
    requires |es| > 0
    ensures Child(Arr(es[..|es| - 1]), s) == if s == Decimal(|es| - 1) then None else Child(Arr(es), s)
  {
    IndexOfIs(s, |es| - 1);
    PopAt(es, IndexOf(s));
  }

  function ElementAt(es: seq<Value>, i: Option<nat>): Option<Value> {
    if i.Some? && i.value < |es| then Some(es[i.value]) else None
  }

  lemma PopAt(es: seq<Value>, i: Option<nat>)
    requires |es| > 0
    ensures ElementAt(es[..|es| - 1], i) == if i == Some(|es| - 1) then None else ElementAt(es, i)
  {
  }

  /** Removing a key or a last element clears its path and everything below, and touches nothing else but the array's length. */
  lemma {:induction false} RemoveKind(cur: Value, q: Path, p: Path)
    requires q != [] && CanRemove(KindAt(cur, q[..|q| - 1]), q[|q| - 1])
    ensures RemoveAt(cur, q).Ok?
    ensures KindAt(RemoveAt(cur, q).value, p) ==
      if q <= p then Absent else if p == q[..|q| - 1] then LessOne(KindAt(cur, p)) else KindAt(cur, p)
  {
    if |q| == 1 {
      assert q[..0] == [];
      RemoveLastKind(cur, q[0], p);
    } else {
      assert q[..|q| - 1][1..] == q[1..][..|q[1..]| - 1];
      assert Child(cur, q[0]).Some?;
      var child := Child(cur, q[0]).value;
      if p != [] { RemoveKind(child, q[1..], p[1..]); } else { RemoveKind(child, q[1..], []); }
      ReplaceKind(cur, q[0], RemoveAt(child, q[1..]).value, p);
      assert q[..|q| - 1] == [q[0]] + q[1..][..|q[1..]| - 1];
      if p != [] {
        assert p == [p[0]] + p[1..] && q == [q[0]] + q[1..];
      }
    }
  }

  lemma RemoveLastKind(cur: Value, s: string, p: Path)
    requires CanRemove(KindOf(cur), s)
    ensures RemoveLast(cur, s).Ok?
    ensures KindAt(RemoveLast(cur, s).value, p) ==
      if [s] <= p then Absent else if p == [] then LessOne(KindOf(cur)) else KindAt(cur, p)
  {
    if cur.Arr? {
      var n := |cur.elems| - 1;
      ParseDecimal(n);
      assert cur.elems[..n] + cur.elems[n + 1..] == cur.elems[..n];
      if p != [] { PopChild(cur.elems, p[0]); }
    }
    assert p != [] ==> ([s] <= p <==> p[0] == s);
  }

  /** On the way to `q` stand no scalars, and every array has the next element or grows to it. */
  ghost predicate Writable(cur: Value, q: Path) {
    forall n | 0 <= n < |q| :: OpenAt(cur, q, n) && !KindAt(cur, q[..n]).Leaf?
  }

  predicate OpenAt(cur: Value, q: Path, n: nat)
    requires n < |q|
  {
    KindAt(cur, q[..n]).ArrNode? ==> KindAt(cur, q[..n + 1]) != Absent || GrowsAt(cur, q, q[..n])
  }

  lemma WritableBelow(cur: Value, q: Path)
    requires q != [] && Writable(cur, q) && Child(cur, q[0]).Some?
    ensures Writable(Child(cur, q[0]).value, q[1..])
  {
    var child := Child(cur, q[0]).value;
    forall n | 0 <= n < |q[1..]| ensures OpenAt(child, q[1..], n) && !KindAt(child, q[1..][..n]).Leaf? {
      assert OpenAt(cur, q, n + 1);
      assert q[..n + 1][1..] == q[1..][..n] && q[..n + 2][1..] == q[1..][..n + 1];
      GrowsBelow(cur, q, q[..n + 1]);
    }
  }

  lemma WritableEmpty(q: Path)
    ensures Writable(Obj(map[]), q)
  {
    forall n | 0 < n <= |q| ensures KindAt(Obj(map[]), q[..n]) == Absent {
    }
  }

  /**
   * Ensuring the parents fills the gaps on the way with empty objects, lets an array grow with empty
   * objects, and touches nothing else.
   */
  lemma {:induction false} EnsureKind(cur: Value, q: Path, p: Path)
    requires Writable(cur, q)
    ensures EnsureAt(cur, q).Ok?
    ensures KindAt(EnsureAt(cur, q).value, p) ==
      if p <= q && KindAt(cur, p) == Absent then ObjNode
      else if InGap(cur, q, p) then ObjNode else GrownKind(cur, q, p)
    decreases |q|
  {
    assert q[..0] == [];
    if q != [] {
      assert q[..1] == [q[0]];
      assert !KindAt(cur, q[..0]).Leaf?;
      if Child(cur, q[0]).Some? {
        EnsureExisting(cur, q, p);
      } else {
        assert KindAt(cur, q[..1]) == Absent;
        assert OpenAt(cur, q, 0);
        WritableEmpty(q[1..]);
        EnsureKind(Obj(map[]), q[1..], if p == [] then [] else p[1..]);
        NothingGrowsInEmpty(q[1..], if p == [] then [] else p[1..]);
        EnsureMissing(cur, q, p, EnsureAt(Obj(map[]), q[1..]).value);
      }
    }
  }

  lemma NothingGrowsInEmpty(q: Path, p: Path)
    ensures !InGap(Obj(map[]), q, p) && GrownKind(Obj(map[]), q, p) == if p == [] then ObjNode else Absent
  {
    EmptyBelow(p);
    if p != [] { EmptyBelow(p[..|p| - 1]); }
  }

  lemma {:induction false} EnsureExisting(cur: Value, q: Path, p: Path)
    requires q != [] && Writable(cur, q) && Child(cur, q[0]).Some?
    ensures EnsureAt(cur, q).Ok?
    ensures KindAt(EnsureAt(cur, q).value, p) ==
      if p <= q && KindAt(cur, p) == Absent then ObjNode
      else if InGap(cur, q, p) then ObjNode else GrownKind(cur, q, p)
    decreases |q|, 0
  {
    var child := Child(cur, q[0]).value;
    WritableBelow(cur, q);
    EnsureKind(child, q[1..], if p == [] then [] else p[1..]);
    EnsureStepExisting(cur, q);
    ReplaceKind(cur, q[0], EnsureAt(child, q[1..]).value, p);
    NoGrowthAtExisting(cur, q, p);
    if p != [] { StepDown(cur, q, p); }
  }

  /** The step into a missing child: a new key of an object, or an index past the end of an array. */
  lemma EnsureMissing(cur: Value, q: Path, p: Path, grown: Value)
    requires q != [] && Child(cur, q[0]).None? && EnsureAt(Obj(map[]), q[1..]) == Ok(grown)
    requires cur.Obj? || (cur.Arr? && IndexOf(q[0]).Some? && IndexOf(q[0]).value >= |cur.elems|)
    requires var rest := if p == [] then [] else p[1..]; KindAt(grown, rest) == if rest <= q[1..] then ObjNode else Absent
    ensures EnsureAt(cur, q).Ok?
    ensures KindAt(EnsureAt(cur, q).value, p) ==
      if p <= q && KindAt(cur, p) == Absent then ObjNode
      else if InGap(cur, q, p) then ObjNode else GrownKind(cur, q, p)
  {
    assert p != [] && p[0] == q[0] ==> (p <= q <==> p[1..] <= q[1..]);
    assert p != [] && p[0] != q[0] ==> !(p <= q);
    if cur.Obj? {
      assert EnsureAt(cur, q) == Ok(Obj(cur.fields[q[0] := grown]));
      MissingKey(cur, q, p);
    } else {
      var es, i := cur.elems, IndexOf(q[0]).value;
      PadForEnsure(es, i, grown);
      assert EnsureAt(cur, q) == Ok(Arr(Padded(es, Obj(map[]), i, grown)));
      PaddedKind(es, Obj(map[]), i, grown, q, p);
      GapIsOneDeep(cur, q, p);
      if p != [] { EmptyBelow(p[1..]); GapBeforeNew(cur, q, p); }
    }
  }

  lemma PadForEnsure(es: seq<Value>, i: nat, v: Value)
    requires |es| <= i
    ensures (es + seq(i + 1 - |es|, _ => Obj(map[])))[i := v] == Padded(es, Obj(map[]), i, v)
  {
  }

  /** The element `q` leads to is not part of the gap before it. */
  lemma GapBeforeNew(cur: Value, q: Path, p: Path)
    requires cur.Arr? && q != [] && p != [] && IndexOf(q[0]).Some? && IndexOf(q[0]).value >= |cur.elems|
    ensures p[0] == q[0] ==> KindAt(cur, p) == Absent && !InGap(cur, q, p) && GrownKind(cur, q, p) == Absent
    ensures InGap(cur, q, p[..1]) && |p| > 1 ==> GrownKind(cur, q, p) == Absent && !InGap(cur, q, p)
  {
    PastTheEnd(cur.elems, q, p);
    GapIsOneDeep(cur, q, p);
  }

  lemma MissingKey(cur: Value, q: Path, p: Path)
    requires cur.Obj? && q != [] && Child(cur, q[0]).None?
    ensures p != [] && p[0] == q[0] ==> KindAt(cur, p) == Absent
    ensures !InGap(cur, q, p) && GrownKind(cur, q, p) == KindAt(cur, p)
  {
    assert KindAt(cur, []) == ObjNode;
    BelowSharesHead(p, q);
    if p != [] {
      BelowSharesHead(p[..|p| - 1], q);
      MissingBelow(cur, q[0], p);
      MissingBelow(cur, q[0], p[..|p| - 1]);
    }
  }

  lemma MissingBelow(cur: Value, s: string, p: Path)
    requires Child(cur, s).None?
    ensures p != [] && p[0] == s ==> KindAt(cur, p) == Absent
  {
  }

  lemma EmptyBelow(p: Path)
    ensures KindAt(Obj(map[]), p) == if p == [] then ObjNode else Absent
  {
  }

  lemma EnsureStepExisting(cur: Value, q: Path)
    requires q != [] && Child(cur, q[0]).Some? && EnsureAt(Child(cur, q[0]).value, q[1..]).Ok?
    ensures EnsureAt(cur, q) == Ok(Replace(cur, q[0], EnsureAt(Child(cur, q[0]).value, q[1..]).value))
  {
    if cur.Arr? {
      var i := ParseIndex(q[0]).value;
      assert cur.elems + seq(0, _ => Obj(map[])) == cur.elems;
    }
  }

  // Ensuring the parents, then setting: the write of an added leaf.

  /** What stands at `p` after `v` is written at `q` with all its parents. */
  function WrittenKind(cur: Value, q: Path, v: Value, p: Path): Kind {
    if p == q then Leaf(v)
    else if q <= p then Absent
    else if p <= q && KindAt(cur, p) == Absent then ObjNode
    else if InGap(cur, q, p) then Filler(q, p)
    else GrownKind(cur, q, p)
  }

  /** What fills the gap at `p` before a new element on the way to `q`, or at its end. */
  function Filler(q: Path, p: Path): Kind {
    if |p| == |q| then Leaf(Null) else ObjNode
  }

  lemma GrowsToParent(cur: Value, q: Path, p: Path)
    requires q != []
    ensures GrowsAt(cur, q[..|q| - 1], p) <==> GrowsAt(cur, q, p) && |p| < |q| - 1
    ensures GrowsAt(cur, q[..|q| - 1], p) ==> GrownKind(cur, q[..|q| - 1], p) == GrownKind(cur, q, p)
  {
    var above := q[..|q| - 1];
    assert |p| < |above| ==> above[|p|] == q[|p|];
    assert |p| < |above| ==> (p <= above <==> p <= q);
  }

  lemma GapToParent(cur: Value, q: Path, p: Path)
    requires q != []
    ensures InGap(cur, q[..|q| - 1], p) <==> InGap(cur, q, p) && |p| < |q|
  {
    if p != [] { GrowsToParent(cur, q, p[..|p| - 1]); }
  }

  lemma WritableParents(cur: Value, q: Path)
    requires q != [] && Writable(cur, q)
    ensures Writable(cur, q[..|q| - 1])
  {
    var above := q[..|q| - 1];
    forall n | 0 <= n < |above| ensures OpenAt(cur, above, n) && !KindAt(cur, above[..n]).Leaf? {
      assert OpenAt(cur, q, n);
      assert above[..n] == q[..n] && above[..n + 1] == q[..n + 1];
      GrowsToParent(cur, q, q[..n]);
    }
  }

  /** Nothing on the way to `q` itself lies in a gap. */
  lemma NoGapOnTheWay(cur: Value, q: Path, p: Path)
    ensures p <= q ==> !InGap(cur, q, p)
  {
  }

  /** The parents of `q` once they are ensured. */
  ghost predicate IsReady(cur: Value, q: Path, ready: Value)
    requires q != []
  {
    forall p: Path :: KindAt(ready, p) == ReadyKind(cur, q[..|q| - 1], p)
  }

  function ReadyKind(cur: Value, above: Path, p: Path): Kind {
    if p <= above && KindAt(cur, p) == Absent then ObjNode
    else if InGap(cur, above, p) then ObjNode else GrownKind(cur, above, p)
  }

  lemma EnsureReady(cur: Value, q: Path)
    requires q != [] && Writable(cur, q)
    ensures EnsureAt(cur, q[..|q| - 1]).Ok? && IsReady(cur, q, EnsureAt(cur, q[..|q| - 1]).value)
  {
    var above := q[..|q| - 1];
    WritableParents(cur, q);
    EnsureKind(cur, above, []);
    forall p: Path ensures KindAt(EnsureAt(cur, above).value, p) == ReadyKind(cur, above, p) {
      EnsureKind(cur, above, p);
    }
  }

  /** Only the last array on the way is left to grow. */
  lemma ReadyGrows(cur: Value, q: Path, ready: Value, p: Path)
    requires q != [] && IsReady(cur, q, ready)
    ensures GrowsAt(ready, q, p) <==> p == q[..|q| - 1] && GrowsAt(cur, q, p)
    ensures p == q[..|q| - 1] && GrowsAt(cur, q, p) ==> KindAt(ready, p) == KindAt(cur, p)
  {
    assert KindAt(ready, p) == ReadyKind(cur, q[..|q| - 1], p);
    NoGapOnTheWay(cur, q[..|q| - 1], p);
    GrowsToParent(cur, q, p);
    assert Below(p, q) ==> p <= q[..|q| - 1];
  }

  lemma ReadyGap(cur: Value, q: Path, ready: Value, p: Path)
    requires q != [] && IsReady(cur, q, ready)
    ensures InGap(ready, q, p) <==> InGap(cur, q, p) && |p| == |q|
  {
    if p != [] { ReadyGrows(cur, q, ready, p[..|p| - 1]); }
  }

  lemma ReadyHasPlace(cur: Value, q: Path, ready: Value)
    requires q != [] && Writable(cur, q) && IsReady(cur, q, ready)
    ensures HasPlace(ready, q)
  {
    var above := q[..|q| - 1];
    assert OpenAt(cur, q, |q| - 1) && q[..|q|] == q;
    assert KindAt(ready, above) == ReadyKind(cur, above, above) && KindAt(ready, q) == ReadyKind(cur, above, q);
    NoGapOnTheWay(cur, above, above);
    GapToParent(cur, q, q);
    ReadyGrows(cur, q, ready, above);
  }

  lemma ComposeKind(cur: Value, q: Path, ready: Value, v: Value, p: Path)
    requires q != [] && IsReady(cur, q, ready)
    ensures (if p == q then Leaf(v) else if q <= p then Absent
             else if InGap(ready, q, p) then Leaf(Null) else GrownKind(ready, q, p)) == WrittenKind(cur, q, v, p)
  {
    if Below(p, q) {
      ComposeOnTheWay(cur, q, ready, p);
    } else if !(q <= p) {
      ComposeAside(cur, q, ready, p);
    }
  }

  lemma ComposeOnTheWay(cur: Value, q: Path, ready: Value, p: Path)
    requires Below(p, q) && IsReady(cur, q, ready)
    ensures !InGap(ready, q, p)
    ensures GrownKind(ready, q, p) == if KindAt(cur, p) == Absent then ObjNode else GrownKind(cur, q, p)
    ensures KindAt(cur, p) != Absent ==> !InGap(cur, q, p)
  {
    NoGapOnTheWay(ready, q, p);
    NoGapOnTheWay(cur, q, p);
    NoGapOnTheWay(cur, q[..|q| - 1], p);
    ReadyGrows(cur, q, ready, p);
    GrowsToParent(cur, q, p);
    assert KindAt(ready, p) == ReadyKind(cur, q[..|q| - 1], p);
    assert p <= q[..|q| - 1];
  }

  lemma ComposeAside(cur: Value, q: Path, ready: Value, p: Path)
    requires q != [] && IsReady(cur, q, ready) && !(p <= q)
    ensures (if InGap(ready, q, p) then Leaf(Null) else GrownKind(ready, q, p)) ==
            if InGap(cur, q, p) then Filler(q, p) else GrownKind(cur, q, p)
  {
    ReadyGap(cur, q, ready, p);
    GapToParent(cur, q, p);
    GapNotDeeper(cur, q, p);
    assert !GrowsAt(cur, q[..|q| - 1], p) && !GrowsAt(cur, q, p) && !GrowsAt(ready, q, p);
    assert KindAt(ready, p) == ReadyKind(cur, q[..|q| - 1], p);
  }

  lemma GapNotDeeper(cur: Value, q: Path, p: Path)
    ensures InGap(cur, q, p) ==> |p| <= |q|
  {
  }

  /**
   * Writing a leaf with its parents: the leaf stands at its path and nothing below, missing parents
   * are objects, arrays grow as far as needed and their gaps are filled, all else stays.
   */
  lemma WriteKind(cur: Value, q: Path, v: Value, p: Path)
    requires q != [] && Scalar(v) && Writable(cur, q)
    ensures EnsureAt(cur, q[..|q| - 1]).Ok? && SetAt(EnsureAt(cur, q[..|q| - 1]).value, q, v).Ok?
    ensures KindAt(SetAt(EnsureAt(cur, q[..|q| - 1]).value, q, v).value, p) == WrittenKind(cur, q, v, p)
  {
    EnsureReady(cur, q);
    var ready := EnsureAt(cur, q[..|q| - 1]).value;
    ReadyHasPlace(cur, q, ready);
    SetKind(ready, q, v, p);
    ComposeKind(cur, q, ready, v, p);
  }

  lemma ReplaceSame(cur: Value, s: string)
    requires Child(cur, s).Some?
    ensures Navigate(cur, s).Ok? && Replace(cur, s, Child(cur, s).value) == cur
  {
    ReplaceKind(cur, s, Child(cur, s).value, []);
    if cur.Arr? {
      var i := IndexOf(s).value;
      assert cur.elems[i := cur.elems[i]] == cur.elems;
    } else {
      assert cur.fields[s := cur.fields[s]] == cur.fields;
    }
  }

  /** Ensuring parents that are all there changes nothing. */
  lemma {:induction false} EnsureNothing(cur: Value, q: Path)
    requires KindAt(cur, q) != Absent
    ensures EnsureAt(cur, q) == Ok(cur)
    decreases |q|
  {
    if q != [] {
      var child := Child(cur, q[0]).value;
      EnsureNothing(child, q[1..]);
      EnsureStepExisting(cur, q);
      ReplaceSame(cur, q[0]);
    }
  }
}
