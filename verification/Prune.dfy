/** The subtrees a diff removes completely, which `apply_diff` prunes before it touches single leaves. */
module Prune {
  import opened Json
  import opened Flatten
  import Pointer
  import Text

  /** The pointer itself, or the pointer cut before one of its later slashes. */
  predicate IsCut(k: string, c: string) {
    c == k || (1 <= |c| < |k| && k[|c|] == '/' && c <= k)
  }

  ghost predicate Candidate(removed: set<string>, c: string) {
    exists k :: k in removed && IsCut(k, c)
  }

  ghost predicate HasLeaves(flat: LeafMap, c: string) {
    exists k :: k in flat && Pointer.Under(c, k)
  }

  ghost predicate AllRemoved(flat: LeafMap, removed: set<string>, c: string) {
    forall k :: k in flat && Pointer.Under(c, k) ==> k in removed
  }

  /** A prefix that carries leaves, all of which go. */
  ghost predicate Removable(flat: LeafMap, removed: set<string>, c: string) {
    AllRemoved(flat, removed, c) && HasLeaves(flat, c)
  }

  ghost predicate Covered(roots: seq<string>, c: string) {
    exists i :: 0 <= i < |roots| && Pointer.Under(roots[i], c)
  }

  ghost predicate Antichain(roots: seq<string>) {
    forall i, j :: 0 <= i < |roots| && 0 <= j < |roots| && i != j ==> !Pointer.Under(roots[i], roots[j])
  }

  /** The topmost removable prefixes of removed pointers, shortest first. */
  ghost predicate IsCover(flat: LeafMap, removed: set<string>, roots: seq<string>) {
    && Text.ShortestFirst(roots)
    && Antichain(roots)
    && (forall i :: 0 <= i < |roots| ==> Candidate(removed, roots[i]) && Removable(flat, removed, roots[i]))
    && (forall c :: Candidate(removed, c) && Removable(flat, removed, c) ==> Covered(roots, c))
  }

  method Candidates(removed: set<string>) returns (candidates: set<string>)
    ensures forall c :: c in candidates <==> Candidate(removed, c)
  {
    candidates := {};
    var paths := Text.Sorted(removed);
    for i := 0 to |paths|
      invariant forall c :: c in candidates <==> exists j :: 0 <= j < i && IsCut(paths[j], c)
    {
      var cuts := Cuts(paths[i]);
      candidates := candidates + cuts;
    }
    forall c | Candidate(removed, c) ensures c in candidates {
      var k :| k in removed && IsCut(k, c);
      assert k in paths;
    }
    forall c | c in candidates ensures Candidate(removed, c) {
      var j :| 0 <= j < |paths| && IsCut(paths[j], c);
      assert paths[j] in paths;
    }
  }

  method Cuts(path: string) returns (cuts: set<string>)
    ensures forall c :: c in cuts <==> IsCut(path, c)
  {
    cuts := {};
    var depth := 0;
    while depth < |path|
      invariant depth <= |path|
      invariant forall c :: c in cuts <==> 1 <= |c| < depth && path[|c|] == '/' && c <= path
    {
      var ch := path[depth];
      depth := depth + 1;
      if ch == '/' && depth > 1 {
        var cut := path[..depth - 1];
        assert forall c :: c <= path && |c| == depth - 1 ==> c == cut;
        cuts := cuts + {cut};
      }
    }
    cuts := cuts + {path};
  }

  method IsRemovable(flat: LeafMap, removed: set<string>, c: string) returns (removable: bool)
    ensures removable <==> Removable(flat, removed, c)
  {
    var keys := Text.Sorted(flat.Keys);
    var allRemoved, hasLeaves := true, false;
    for i := 0 to |keys|
      invariant allRemoved <==> forall j :: 0 <= j < i && Pointer.Under(c, keys[j]) ==> keys[j] in removed
      invariant hasLeaves <==> exists j :: 0 <= j < i && Pointer.Under(c, keys[j])
    {
      if Pointer.Under(c, keys[i]) {
        hasLeaves := true;
        if keys[i] !in removed { allRemoved := false; }
      }
    }
    removable := allRemoved && hasLeaves;
    assert forall k :: k in flat <==> k in keys;
  }

  method IsCovered(roots: seq<string>, c: string) returns (covered: bool)
    ensures covered <==> Covered(roots, c)
  {
    covered := false;
    for i := 0 to |roots|
      invariant covered <==> exists j :: 0 <= j < i && Pointer.Under(roots[j], c)
    {
      if Pointer.Under(roots[i], c) { covered := true; }
    }
  }

  /** What the choosing loop keeps after the candidates `sorted[..n]`. */
  ghost predicate Chosen(flat: LeafMap, removed: set<string>, sorted: seq<string>, n: nat, roots: seq<string>)
    requires n <= |sorted|
  {
    && Text.ShortestFirst(roots)
    && Antichain(roots)
    && (forall i :: 0 <= i < |roots| ==> roots[i] in sorted[..n] && Removable(flat, removed, roots[i]))
    && (forall i :: 0 <= i < n && Removable(flat, removed, sorted[i]) ==> Covered(roots, sorted[i]))
  }

  lemma CoveredGrows(roots: seq<string>, r: string, c: string)
    ensures Covered(roots + [r], c) <==> Covered(roots, c) || Pointer.Under(r, c)
  {
    var more := roots + [r];
    assert more[|roots|] == r;
    if Covered(roots, c) {
      var i :| 0 <= i < |roots| && Pointer.Under(roots[i], c);
      assert more[i] == roots[i];
    }
  }

  lemma KeepCandidate(flat: LeafMap, removed: set<string>, sorted: seq<string>, n: nat, roots: seq<string>)
    requires n < |sorted| && Text.ShortestFirst(sorted) && Chosen(flat, removed, sorted, n, roots)
    requires Removable(flat, removed, sorted[n]) && !Covered(roots, sorted[n])
    ensures Chosen(flat, removed, sorted, n + 1, roots + [sorted[n]])
  {
    var c := sorted[n];
    forall i | 0 <= i < |roots| ensures Text.ShortLexLess(roots[i], c) && !Pointer.Under(c, roots[i]) {
      assert roots[i] in sorted[..n];
      var j :| 0 <= j < n && sorted[..n][j] == roots[i];
      assert Text.ShortLexLess(sorted[j], c);
      Text.LexTotal(c, c);
    }
    forall i | 0 <= i < n + 1 && Removable(flat, removed, sorted[i]) ensures Covered(roots + [c], sorted[i]) {
      CoveredGrows(roots, c, sorted[i]);
    }
    assert sorted[..n + 1] == sorted[..n] + [c];
  }

  lemma SkipCandidate(flat: LeafMap, removed: set<string>, sorted: seq<string>, n: nat, roots: seq<string>)
    requires n < |sorted| && Chosen(flat, removed, sorted, n, roots)
    requires Covered(roots, sorted[n]) || !Removable(flat, removed, sorted[n])
    ensures Chosen(flat, removed, sorted, n + 1, roots)
  {
    assert sorted[..n + 1] == sorted[..n] + [sorted[n]];
  }

  method FullyRemovedSubtrees(flat: LeafMap, removed: set<string>) returns (roots: seq<string>)
    ensures IsCover(flat, removed, roots)
  {
    var candidates := Candidates(removed);
    var sorted := Text.SortedByLength(candidates);
    roots := [];
    for n := 0 to |sorted|
      invariant Chosen(flat, removed, sorted, n, roots)
    {
      var covered := IsCovered(roots, sorted[n]);
      if covered {
        SkipCandidate(flat, removed, sorted, n, roots);
        continue;
      }
      var removable := IsRemovable(flat, removed, sorted[n]);
      if removable {
        KeepCandidate(flat, removed, sorted, n, roots);
        roots := roots + [sorted[n]];
      } else {
        SkipCandidate(flat, removed, sorted, n, roots);
      }
    }
    assert sorted[..|sorted|] == sorted;
    forall c | Candidate(removed, c) && Removable(flat, removed, c) ensures Covered(roots, c) {
      assert c in sorted;
    }
    forall i | 0 <= i < |roots| ensures Candidate(removed, roots[i]) {
      assert roots[i] in sorted;
    }
  }

  ghost predicate AtMostOneRoot(roots: seq<string>, k: string) {
    forall i, j | 0 <= i < |roots| && 0 <= j < |roots| && Pointer.Under(roots[i], k) && Pointer.Under(roots[j], k) :: i == j
  }

  /**
   * The cover is exact: every removed leaf lies under exactly one chosen root, and no leaf that is
   * kept lies under any.
   */
  lemma ExactCover(v: Value, flat: LeafMap, removed: set<string>, roots: seq<string>, k: string)
    requires IsFlat(v, flat) && removed <= flat.Keys && IsCover(flat, removed, roots) && k in flat
    ensures k in removed <==> Covered(roots, k)
    ensures AtMostOneRoot(roots, k)
  {
    if k in removed {
      assert IsCut(k, k);
      forall l | l in flat && Pointer.Under(k, l) ensures l in removed {
        PrefixFree(v, flat, k, l);
      }
      assert Removable(flat, removed, k);
    }
    forall i, j | 0 <= i < |roots| && 0 <= j < |roots| && Pointer.Under(roots[i], k) && Pointer.Under(roots[j], k)
      ensures i == j
    {
      UnderComparable(roots[i], roots[j], k);
    }
  }

  lemma UnderComparable(r: string, s: string, k: string)
    requires Pointer.Under(r, k) && Pointer.Under(s, k)
    ensures Pointer.Under(r, s) || Pointer.Under(s, r)
  {
    assert r <= k && s <= k;
    if |r| <= |s| {
      assert s[..|r|] == k[..|r|] == r;
      if |r| < |s| { assert s[|r|] == k[|r|]; }
    } else {
      assert r[..|s|] == k[..|s|] == s;
      assert r[|s|] == k[|s|];
    }
  }

  /** All leaves at or below `c` are removed, and there are some. */
  ghost predicate Gone(v: Value, removed: set<string>, c: Path) {
    && (exists q: Path :: IsLeaf(v, q) && c <= q)
    && (forall q: Path :: IsLeaf(v, q) && c <= q ==> Pointer.Encode(q) in removed)
  }

  /** The same test in terms of the tree: something at or above `p`, below the root, is gone. */
  ghost predicate Pruned(v: Value, removed: set<string>, p: Path) {
    exists c: Path :: c != [] && c <= p && Gone(v, removed, c)
  }

  lemma GoneIsRemovable(v: Value, flat: LeafMap, removed: set<string>, c: Path)
    requires IsFlat(v, flat)
    ensures Gone(v, removed, c) <==> Removable(flat, removed, Pointer.Encode(c))
  {
    forall q: Path | IsLeaf(v, q)
      ensures Pointer.Encode(q) in flat
      ensures c <= q <==> Pointer.Under(Pointer.Encode(c), Pointer.Encode(q))
    {
      LeafIsKey(v, flat, q);
      Pointer.UnderIsPrefix(c, q);
    }
    forall k | k in flat ensures IsLeaf(v, Pointer.Decode(k)) && Pointer.Encode(Pointer.Decode(k)) == k {
      KeyIsLeaf(v, flat, k);
    }
  }

  /** A chosen root is the pointer of a non-empty path. */
  lemma RootIsPointer(v: Value, flat: LeafMap, removed: set<string>, r: string)
    requires IsFlat(v, flat) && removed <= flat.Keys && Candidate(removed, r) && !Scalar(v)
    ensures Pointer.Decode(r) != [] && Pointer.Encode(Pointer.Decode(r)) == r
  {
    var k :| k in removed && IsCut(k, r);
    KeyIsLeaf(v, flat, k);
    CutIsPointer(Pointer.Decode(k), r);
  }

  lemma CutIsPointer(p: Path, r: string)
    requires p != [] && IsCut(Pointer.Encode(p), r)
    ensures Pointer.Decode(r) != [] && Pointer.Encode(Pointer.Decode(r)) == r
  {
    var k := Pointer.Encode(p);
    if r == k {
      Pointer.DecodeEncode(p);
    } else {
      var m := Pointer.CutIsPrefix(p, |r|);
      assert k[..|r|] == r;
      Pointer.DecodeEncode(p[..m]);
    }
  }

  lemma PrefixIsCandidate(removed: set<string>, c: Path, q: Path)
    requires c != [] && c <= q && Pointer.Encode(q) in removed
    ensures Candidate(removed, Pointer.Encode(c))
  {
    Pointer.UnderIsPrefix(c, q);
    Pointer.SplitEncode(c);
    assert IsCut(Pointer.Encode(q), Pointer.Encode(c));
  }

  /** A pointer lies under a chosen root exactly when something at or above it is gone. */
  lemma CoveredIffPruned(v: Value, flat: LeafMap, removed: set<string>, roots: seq<string>, p: Path)
    requires IsFlat(v, flat) && removed <= flat.Keys && IsCover(flat, removed, roots) && !Scalar(v)
    ensures Covered(roots, Pointer.Encode(p)) <==> Pruned(v, removed, p)
  {
    if Covered(roots, Pointer.Encode(p)) {
      var i :| 0 <= i < |roots| && Pointer.Under(roots[i], Pointer.Encode(p));
      RootIsPointer(v, flat, removed, roots[i]);
      Pointer.UnderIsPrefix(Pointer.Decode(roots[i]), p);
      GoneIsRemovable(v, flat, removed, Pointer.Decode(roots[i]));
    }
    if Pruned(v, removed, p) {
      var c: Path :| c != [] && c <= p && Gone(v, removed, c);
      var q: Path :| IsLeaf(v, q) && c <= q;
      PrefixIsCandidate(removed, c, q);
      GoneIsRemovable(v, flat, removed, c);
      var i :| 0 <= i < |roots| && Pointer.Under(roots[i], Pointer.Encode(c));
      RootIsPointer(v, flat, removed, roots[i]);
      Pointer.UnderIsPrefix(Pointer.Decode(roots[i]), c);
      Pointer.UnderIsPrefix(Pointer.Decode(roots[i]), p);
    }
  }
}
