/** Writing a diff back into a tree. */
module Apply {
  import opened Wrappers
  import opened Json
  import opened Diff
  import Flatten
  import Pointer
  import Prune

  datatype DiffError = MissingParentPath | IncompatibleShape

  type Outcome = Result<Value, DiffError>

  /** One step down, as `navigate_mut` takes it. */
  function Navigate(cur: Value, seg: string): Outcome {
    match cur
    case Obj(m) => if seg in m then Ok(m[seg]) else Err(MissingParentPath)
    case Arr(es) =>
      (match ParseIndex(seg)
       case Some(i) => if i < |es| then Ok(es[i]) else Err(MissingParentPath)
       case None => Err(MissingParentPath))
    case _ => Err(IncompatibleShape)
  }

  /** `cur` after a write through the reference that `Navigate` hands out. */
  function Replace(cur: Value, seg: string, child: Value): Value
    requires Navigate(cur, seg).Ok?
  {
    match cur
    case Obj(m) => Obj(m[seg := child])
    case Arr(es) => Arr(es[ParseIndex(seg).value := child])
  }

  function SetLast(cur: Value, seg: string, v: Value): Outcome {
    match cur
    case Obj(m) => Ok(Obj(m[seg := v]))
    case Arr(es) =>
      (match ParseIndex(seg)
       case Some(i) =>
         if i < |es| then Ok(Arr(es[i := v])) else Ok(Arr(es + seq(i - |es|, _ => Null) + [v]))
       case None => Err(MissingParentPath))
    case _ => Err(IncompatibleShape)
  }

  function SetAt(cur: Value, p: Path, v: Value): Outcome
    requires p != []
  {
    if |p| == 1 then SetLast(cur, p[0], v)
    else
      var child :- Navigate(cur, p[0]);
      var changed :- SetAt(child, p[1..], v);
      Ok(Replace(cur, p[0], changed))
  }

  function PointerSet(root: Value, pointer: string, v: Value): Outcome {
    if pointer == "" then Ok(v) else SetAt(root, Pointer.Segments(pointer), v)
  }

  function RemoveLast(cur: Value, seg: string): Outcome {
    match cur
    case Obj(m) => Ok(Obj(m - {seg}))
    case Arr(es) =>
      (match ParseIndex(seg)
       case Some(i) => if i < |es| then Ok(Arr(es[..i] + es[i + 1..])) else Err(MissingParentPath)
       case None => Err(MissingParentPath))
    case _ => Err(IncompatibleShape)
  }

  function RemoveAt(cur: Value, p: Path): Outcome
    requires p != []
  {
    if |p| == 1 then RemoveLast(cur, p[0])
    else
      var child :- Navigate(cur, p[0]);
      var changed :- RemoveAt(child, p[1..]);
      Ok(Replace(cur, p[0], changed))
  }

  function PointerRemove(root: Value, pointer: string): Outcome {
    if pointer == "" then Ok(root) else RemoveAt(root, Pointer.Segments(pointer))
  }

  /** Missing containers on the way are created as objects, whatever the segments look like. */
  function EnsureAt(cur: Value, parents: Path): Outcome
    decreases |parents|
  {
    if parents == [] then Ok(cur)
    else
      match cur
      case Obj(m) =>
        var child := if parents[0] in m then m[parents[0]] else Obj(map[]);
        var changed :- EnsureAt(child, parents[1..]);
        Ok(Obj(m[parents[0] := changed]))
      case Arr(es) =>
        (match ParseIndex(parents[0])
         case Some(i) =>
           var grown := es + seq(if i < |es| then 0 else i + 1 - |es|, _ => Obj(map[]));
           var changed :- EnsureAt(grown[i], parents[1..]);
           Ok(Arr(grown[i := changed]))
         case None => Err(MissingParentPath))
      case _ => Err(IncompatibleShape)
  }

  function EnsureParent(root: Value, pointer: string): Outcome {
    if pointer == "" || pointer == "/" then Ok(root)
    else
      var p := Pointer.Segments(pointer);
      EnsureAt(root, p[..|p| - 1])
  }

  function RemovedLeaves(entries: seq<DiffEntry>): set<string> {
    set e | e in entries && e.Removed? :: e.path
  }

  function RemoveRoots(root: Value, roots: seq<string>): Outcome
    decreases |roots|
  {
    if roots == [] then Ok(root)
    else
      var next :- PointerRemove(root, roots[0]);
      RemoveRoots(next, roots[1..])
  }

  ghost function ApplyEntry(root: Value, roots: seq<string>, e: DiffEntry): Outcome {
    match e
    case Added(path, after) =>
      var ready :- EnsureParent(root, path);
      PointerSet(ready, path, after)
    case Removed(path, _) => if Prune.Covered(roots, path) then Ok(root) else PointerRemove(root, path)
    case Modified(path, _, after) => PointerSet(root, path, after)
  }

  ghost function ApplyEntries(root: Value, roots: seq<string>, entries: seq<DiffEntry>): Outcome
    decreases |entries|
  {
    if entries == [] then Ok(root)
    else
      var next :- ApplyEntry(root, roots, entries[0]);
      ApplyEntries(next, roots, entries[1..])
  }

  /** Removed subtrees first, then the entries in order. */
  ghost function Applied(root: Value, roots: seq<string>, entries: seq<DiffEntry>): Outcome {
    var pruned :- RemoveRoots(root, roots);
    ApplyEntries(pruned, roots, entries)
  }

  method ApplyDiff(state: Value, d: Diff) returns (r: Outcome)
    ensures exists flat, roots ::
      && Flatten.IsFlat(state, flat)
      && Prune.IsCover(flat, RemovedLeaves(d.entries), roots)
      && r == Applied(state, roots, d.entries)
  {
    var flat := Flatten.Flatten(state);
    var roots := Prune.FullyRemovedSubtrees(flat, RemovedLeaves(d.entries));
    r := RemovalLoop(state, roots);
    if r.Ok? {
      r := EntryLoop(r.value, roots, d.entries);
    }
    assert r == Applied(state, roots, d.entries);
  }

  method RemovalLoop(state: Value, roots: seq<string>) returns (r: Outcome)
    ensures r == RemoveRoots(state, roots)
  {
    var root := state;
    for i := 0 to |roots|
      invariant RemoveRoots(state, roots) == RemoveRoots(root, roots[i..])
    {
      assert roots[i..][1..] == roots[i + 1..];
      var next := PointerRemove(root, roots[i]);
      if next.Err? {
        return next;
      }
      root := next.value;
    }
    r := Ok(root);
  }

  method EntryLoop(state: Value, roots: seq<string>, entries: seq<DiffEntry>) returns (r: Outcome)
    ensures r == ApplyEntries(state, roots, entries)
  {
    var root := state;
    for i := 0 to |entries|
      invariant ApplyEntries(state, roots, entries) == ApplyEntries(root, roots, entries[i..])
    {
      assert entries[i..][1..] == entries[i + 1..];
      var next: Outcome := Ok(root);
      match entries[i] {
        case Added(path, after) =>
          next := EnsureParent(root, path);
          if next.Ok? {
            next := PointerSet(next.value, path, after);
          }
        case Removed(path, _) =>
          var covered := Prune.IsCovered(roots, path);
          if !covered {
            next := PointerRemove(root, path);
          }
        case Modified(path, _, after) =>
          next := PointerSet(root, path, after);
      }
      if next.Err? {
        return next;
      }
      root := next.value;
    }
    r := Ok(root);
  }
}
