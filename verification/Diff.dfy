/** The two-loop structural diff of two leaf maps. */
module Diff {
  import opened Json
  import opened Flatten
  import Text

  datatype DiffEntry =
    | Added(path: string, after: Value)
    | Removed(path: string, before: Value)
    | Modified(path: string, before: Value, after: Value)

  datatype Diff = Diff(entries: seq<DiffEntry>, ignoredCount: nat)

  type IgnoreList = string -> bool

  predicate Disagree(before: LeafMap, after: LeafMap, k: string) {
    if k in before && k in after then before[k] != after[k] else k in before || k in after
  }

  /** The entry says what happened to its path. */
  predicate Fits(before: LeafMap, after: LeafMap, e: DiffEntry) {
    match e
    case Added(k, v) => k !in before && k in after && v == after[k]
    case Removed(k, v) => k in before && k !in after && v == before[k]
    case Modified(k, v, w) => k in before && k in after && v == before[k] && w == after[k] && v != w
  }

  function Paths(entries: seq<DiffEntry>): set<string> {
    set e | e in entries :: e.path
  }

  function IgnoredIn(keys: set<string>, ignored: IgnoreList): set<string> {
    set k | k in keys && ignored(k)
  }

  ghost predicate SortedByPath(entries: seq<DiffEntry>) {
    forall i, j :: 0 <= i < j < |entries| ==> Text.LexLess(entries[i].path, entries[j].path)
  }

  ghost predicate Sound(before: LeafMap, after: LeafMap, ignored: IgnoreList, entries: seq<DiffEntry>) {
    forall i :: 0 <= i < |entries| ==> !ignored(entries[i].path) && Fits(before, after, entries[i])
  }

  ghost predicate Complete(before: LeafMap, after: LeafMap, ignored: IgnoreList, keys: set<string>, entries: seq<DiffEntry>) {
    forall k :: k in keys && !ignored(k) && Disagree(before, after, k) ==> k in Paths(entries)
  }

  /** Sound, complete, strictly sorted, with every ignored path of either side counted once. */
  ghost predicate IsDiff(before: LeafMap, after: LeafMap, ignored: IgnoreList, d: Diff) {
    && SortedByPath(d.entries)
    && Sound(before, after, ignored, d.entries)
    && Complete(before, after, ignored, before.Keys + after.Keys, d.entries)
    && d.ignoredCount == |IgnoredIn(before.Keys + after.Keys, ignored)|
  }

  ghost predicate DistinctPaths(entries: seq<DiffEntry>) {
    forall i, j :: 0 <= i < j < |entries| ==> entries[i].path != entries[j].path
  }

  lemma AppendEntry(entries: seq<DiffEntry>, e: DiffEntry)
    ensures Paths(entries + [e]) == Paths(entries) + {e.path}
  {
    forall k | k in Paths(entries) + {e.path} ensures k in Paths(entries + [e]) {
      if k == e.path {
        assert (entries + [e])[|entries|] == e;
      } else {
        var x :| x in entries && x.path == k;
        assert x in entries + [e];
      }
    }
  }

  /** What both loops keep: the keys seen so far are accounted for, each exactly once. */
  ghost predicate Progress(before: LeafMap, after: LeafMap, ignored: IgnoreList, seen: set<string>,
                           entries: seq<DiffEntry>, ignoredCount: nat) {
    && Sound(before, after, ignored, entries)
    && DistinctPaths(entries)
    && Complete(before, after, ignored, seen, entries)
    && Paths(entries) <= seen
    && ignoredCount == |IgnoredIn(seen, ignored)|
  }

  lemma CountIgnored(seen: set<string>, ignored: IgnoreList, k: string)
    requires k !in seen
    ensures |IgnoredIn(seen + {k}, ignored)| == |IgnoredIn(seen, ignored)| + if ignored(k) then 1 else 0
  {
    assert IgnoredIn(seen + {k}, ignored) == IgnoredIn(seen, ignored) + if ignored(k) then {k} else {};
  }

  lemma SkipKey(before: LeafMap, after: LeafMap, ignored: IgnoreList, seen: set<string>,
                entries: seq<DiffEntry>, ignoredCount: nat, k: string)
    requires Progress(before, after, ignored, seen, entries, ignoredCount) && k !in seen
    requires ignored(k) || !Disagree(before, after, k)
    ensures Progress(before, after, ignored, seen + {k}, entries, ignoredCount + if ignored(k) then 1 else 0)
  {
    CountIgnored(seen, ignored, k);
  }

  lemma AddKey(before: LeafMap, after: LeafMap, ignored: IgnoreList, seen: set<string>,
               entries: seq<DiffEntry>, ignoredCount: nat, e: DiffEntry)
    requires Progress(before, after, ignored, seen, entries, ignoredCount) && e.path !in seen
    requires !ignored(e.path) && Fits(before, after, e)
    ensures Progress(before, after, ignored, seen + {e.path}, entries + [e], ignoredCount)
  {
    CountIgnored(seen, ignored, e.path);
    AppendEntry(entries, e);
    forall i | 0 <= i < |entries| ensures entries[i].path in Paths(entries) {
      assert entries[i] in entries;
    }
  }

  method DiffFlat(before: LeafMap, after: LeafMap, ignored: IgnoreList) returns (d: Diff)
    ensures IsDiff(before, after, ignored, d)
  {
    var entries, ignoredCount := BeforeLoop(before, after, ignored);
    entries, ignoredCount := AfterLoop(before, after, ignored, entries, ignoredCount);
    entries := SortEntries(entries);
    d := Diff(entries, ignoredCount);
  }

  method BeforeLoop(before: LeafMap, after: LeafMap, ignored: IgnoreList)
    returns (entries: seq<DiffEntry>, ignoredCount: nat)
    ensures Progress(before, after, ignored, before.Keys, entries, ignoredCount)
  {
    entries, ignoredCount := [], 0;
    var keys := Text.Sorted(before.Keys);
    ghost var seen: set<string> := {};
    assert IgnoredIn(seen, ignored) == {};
    for i := 0 to |keys|
      invariant forall k :: k in seen <==> k in keys[..i]
      invariant Progress(before, after, ignored, seen, entries, ignoredCount)
    {
      var k := keys[i];
      FreshKey(keys, i);
      if ignored(k) {
        SkipKey(before, after, ignored, seen, entries, ignoredCount, k);
        ignoredCount := ignoredCount + 1;
      } else if k !in after {
        AddKey(before, after, ignored, seen, entries, ignoredCount, Removed(k, before[k]));
        entries := entries + [Removed(k, before[k])];
      } else if after[k] != before[k] {
        AddKey(before, after, ignored, seen, entries, ignoredCount, Modified(k, before[k], after[k]));
        entries := entries + [Modified(k, before[k], after[k])];
      } else {
        SkipKey(before, after, ignored, seen, entries, ignoredCount, k);
      }
      seen := seen + {k};
    }
    assert keys[..|keys|] == keys;
    assert seen == before.Keys;
  }

  lemma FreshKey(keys: seq<string>, i: nat)
    requires Text.StrictlyIncreasing(keys) && i < |keys|
    ensures keys[i] in keys && keys[i] !in keys[..i] && keys[..i + 1] == keys[..i] + [keys[i]]
  {
    Text.LexTotal(keys[i], keys[i]);
  }

  method AfterLoop(before: LeafMap, after: LeafMap, ignored: IgnoreList, entries0: seq<DiffEntry>, ignored0: nat)
    returns (entries: seq<DiffEntry>, ignoredCount: nat)
    requires Progress(before, after, ignored, before.Keys, entries0, ignored0)
    ensures Progress(before, after, ignored, before.Keys + after.Keys, entries, ignoredCount)
  {
    entries, ignoredCount := entries0, ignored0;
    var keys := Text.Sorted(after.Keys);
    ghost var seen := before.Keys;
    for i := 0 to |keys|
      invariant forall k :: k in seen <==> k in before || k in keys[..i]
      invariant Progress(before, after, ignored, seen, entries, ignoredCount)
    {
      var k := keys[i];
      FreshKey(keys, i);
      assert k in before ==> seen + {k} == seen;
      if ignored(k) {
        if k !in before {
          SkipKey(before, after, ignored, seen, entries, ignoredCount, k);
          ignoredCount := ignoredCount + 1;
        }
      } else if k !in before {
        AddKey(before, after, ignored, seen, entries, ignoredCount, Added(k, after[k]));
        entries := entries + [Added(k, after[k])];
      }
      seen := seen + {k};
    }
    assert keys[..|keys|] == keys;
    assert seen == before.Keys + after.Keys;
  }

  method SortEntries(entries: seq<DiffEntry>) returns (sorted: seq<DiffEntry>)
    requires DistinctPaths(entries)
    ensures SortedByPath(sorted) && Paths(sorted) == Paths(entries)
    ensures forall i :: 0 <= i < |sorted| ==> sorted[i] in entries
  {
    var keys := Text.Sorted(Paths(entries));
    sorted := [];
    for i := 0 to |keys|
      invariant |sorted| == i
      invariant forall j :: 0 <= j < i ==> sorted[j] in entries && sorted[j].path == keys[j]
    {
      assert keys[i] in keys;
      var e :| e in entries && e.path == keys[i];
      sorted := sorted + [e];
    }
    SortedPaths(sorted, keys);
  }

  lemma SortedPaths(sorted: seq<DiffEntry>, keys: seq<string>)
    requires |sorted| == |keys| && forall i :: 0 <= i < |keys| ==> sorted[i].path == keys[i]
    ensures forall k :: k in Paths(sorted) <==> k in keys
  {
    forall k | k in keys ensures k in Paths(sorted) {
      var i :| 0 <= i < |keys| && keys[i] == k;
      assert sorted[i] in sorted;
    }
  }

  /** A path that is not ignored has one entry if the two sides disagree there, and none otherwise. */
  lemma ExactlyOneEntry(before: LeafMap, after: LeafMap, ignored: IgnoreList, d: Diff, k: string)
    requires IsDiff(before, after, ignored, d) && !ignored(k)
    ensures Disagree(before, after, k) <==> k in Paths(d.entries)
    ensures forall i, j :: 0 <= i < |d.entries| && 0 <= j < |d.entries| && d.entries[i].path == d.entries[j].path ==> i == j
  {
    forall i, j | 0 <= i < j < |d.entries| ensures d.entries[i].path != d.entries[j].path {
      Text.LexTotal(d.entries[i].path, d.entries[j].path);
    }
    if k in Paths(d.entries) {
      var e :| e in d.entries && e.path == k;
    }
  }

  function SwapEntry(e: DiffEntry): DiffEntry {
    match e
    case Added(k, v) => Removed(k, v)
    case Removed(k, v) => Added(k, v)
    case Modified(k, v, w) => Modified(k, w, v)
  }

  function SwapAll(entries: seq<DiffEntry>): seq<DiffEntry> {
    seq(|entries|, i requires 0 <= i < |entries| => SwapEntry(entries[i]))
  }

  function PathSeq(entries: seq<DiffEntry>): seq<string> {
    seq(|entries|, i requires 0 <= i < |entries| => entries[i].path)
  }

  /** Two diffs of the same maps are the same diff. */
  lemma DiffUnique(before: LeafMap, after: LeafMap, ignored: IgnoreList, d: Diff, e: Diff)
    requires IsDiff(before, after, ignored, d) && IsDiff(before, after, ignored, e)
    ensures d == e
  {
    SortedPaths(d.entries, PathSeq(d.entries));
    SortedPaths(e.entries, PathSeq(e.entries));
    forall k ensures k in PathSeq(d.entries) <==> k in PathSeq(e.entries) {
      PathsDisagree(before, after, ignored, d, k);
      PathsDisagree(before, after, ignored, e, k);
    }
    Text.IncreasingUnique(PathSeq(d.entries), PathSeq(e.entries));
    forall i | 0 <= i < |d.entries| ensures d.entries[i] == e.entries[i] {
      assert PathSeq(d.entries)[i] == PathSeq(e.entries)[i];
    }
  }

  lemma PathsDisagree(before: LeafMap, after: LeafMap, ignored: IgnoreList, d: Diff, k: string)
    requires IsDiff(before, after, ignored, d)
    ensures k in Paths(d.entries) <==> !ignored(k) && Disagree(before, after, k)
  {
    if k in Paths(d.entries) {
      var e :| e in d.entries && e.path == k;
    } else if !ignored(k) {
      ExactlyOneEntry(before, after, ignored, d, k);
    }
  }

  /** Swapping the sides swaps Added with Removed and the two values of Modified, and nothing else. */
  lemma SwapSides(before: LeafMap, after: LeafMap, ignored: IgnoreList, d: Diff, e: Diff)
    requires IsDiff(before, after, ignored, d) && IsDiff(after, before, ignored, e)
    ensures e == Diff(SwapAll(d.entries), d.ignoredCount)
  {
    var s := SwapAll(d.entries);
    assert forall i :: 0 <= i < |s| ==> s[i].path == d.entries[i].path;
    SortedPaths(s, PathSeq(d.entries));
    SortedPaths(d.entries, PathSeq(d.entries));
    assert after.Keys + before.Keys == before.Keys + after.Keys;
    forall i | 0 <= i < |s| ensures !ignored(s[i].path) && Fits(after, before, s[i]) {
      assert Fits(before, after, d.entries[i]);
    }
    assert Complete(after, before, ignored, after.Keys + before.Keys, s);
    DiffUnique(after, before, ignored, Diff(s, d.ignoredCount), e);
  }
}
