# Trilithon, modelled and proved

Trilithon keeps a versioned desired state for a Caddy proxy. It diffs, hashes, redacts, stores and
applies that state. This project models the parts that carry its correctness and proves what they
promise, for all inputs, all runs and all interleavings. `dafny verify dfyconfig.toml` checks it.

| module | what it models |
|---|---|
| `Text`, `Wrappers`, `Json` | ordered strings, result types, JSON trees and the paths into them |
| `Pointer`, `Flatten`, `Diff` | JSON pointers, the leaf map, the two-loop diff |
| `Prune`, `Apply` | the subtrees a diff removes as a whole, and writing a diff back |
| `WriteEffects`, `WriteErrors` | what each write does to a tree, path by path, and when it fails |
| `Rebuild`, `Patching`, `RoundTrip` | what pruning leaves, what writing leaf by leaf makes of it, the two together |
| `FullTrees`, `Shrinking`, `DiffLaw`, `Lists` | trees without empty containers, arrays that lose too much, the laws of diff and apply, and what they say of lists |
| `Canonical`, `CanonicalDiff` | the normal form, and what an empty diff of normal forms means |
| `Redactor` | replacing secrets in a tree |
| `ApplyProtocol`, `ApplyStore` | the apply protocol as a state machine, and its statements as a store executes them |
| `LockSafety`, `PointerSafety` | mutual exclusion, and the applied-version pointer, over all interleavings |
| `LockProgress` | the lock comes back, an undisturbed apply succeeds, and every other end is told |
| `Snapshots`, `AuditChain`, `AuditTail` | snapshot lineage, the audit hash chain, reading the log backwards |
| `Drift` | drift recording across crashes |
| `Mutation`, `MutationEffects` | pure mutations and their change lists, and what each variant does |
| `Password`, `KeyFile`, `RateLimit` | five-bit slicing, the versioned key file, the login limiter |

## How to read the main results

* **Apply inverts diff.** A tree is seen as what stands at each path (`Json.KindAt`), so every write
  is described path by path. `Rebuild.Restorable` is the exact condition under which applying the
  diff of `b` and `a` to `b` gives `a`: the root is a container unless the target is a scalar,
  nothing below an empty top-level key is touched, and the containers agree: above the leaves of
  `a`, what is left of `b` is what `a` has, arrays as long as their new elements need, and new
  containers are objects; the empty containers of `a` are those left of `b`. `DiffLaw.DiffThenApply`
  proves "if and only if" for all pairs in `Rebuild.ArrayStable`: an array that stays may change
  inside, lose or replace its last element, and gain any number of elements, all scalars or all
  containers. `DiffLaw.FullTreesRoundTrip` reads it for trees without empty containers: the target
  comes out exactly when it has arrays where arrays stay. `DiffLaw.PlainObjectsRoundTrip` (always,
  for objects only) and `DiffLaw.LeafChangesRoundTrip` (trees of one shape) are its simple readings,
  and `DiffLaw.DiffIgnoring` extends it to ignored paths that differ. Outside `ArrayStable`,
  `DiffLaw.ShrunkArrayFails` shows that an array losing its last element and another one fails. For lists of scalars
  the two meet: `Lists.ListsRoundTrip`.
* **The apply protocol.** An event is one database statement or transaction, one call to Caddy, a
  panic, a crash or a snapshot insertion, by any of any number of tasks in any number of processes;
  a run is any sequence of events. Every statement may also fail, or take effect and be reported as
  failed. A crashed process stays dead. The in-process mutex is not used in the proofs, so the
  results also hold for several appliers in one process. Next to safety, `LockProgress` says what an
  apply achieves: its lock comes back, alone it succeeds, and each failure ends in its own way.
* **Single operations.** Lemmas named `...Exactly` describe one operation on every input without
  going through its definition: what it accepts, its errors, and the whole of what it changes.
* **Stores and state machines** are classes whose methods are proved against functions on their
  contents; the results about whole runs are lemmas about those functions.

## Where the code and its documentation differ

The model follows the code.

* `ensure_parent` creates objects only, whatever a segment looks like; its comment promises
  containers by segment kind (core/crates/core/src/diff.rs:404-428).
* Applying a diff restores neither an array that `b` does not have (it comes out as an object keyed
  by indices) nor one that loses its last two elements (`DiffLaw.FullTreesRoundTrip`,
  `DiffLaw.ShrunkArrayFails`, core/crates/core/src/diff.rs:553-558).
* `fully_removed_subtrees` keeps the shortest removable prefixes; its comment speaks of the longest
  (core/crates/core/src/diff.rs:571-574).
* A row left behind by a lost delete is stale only once its process has ended; until then it blocks
  every caller (core/crates/adapters/src/storage_sqlite/locks.rs:60-64, `LockSafety.LostReleaseLocksOut`).
* A truncated parent chain holds neither the requested snapshot nor a full window of `max_depth + 1`
  rows: the query visits up to `max_depth + 2` (core/crates/adapters/src/sqlite_storage.rs:720-763).
* The password comment counts 144 bits; 24 characters carry the first 120. The alphabet keeps L and U
  (core/crates/adapters/src/auth/bootstrap.rs:17-52).
* The login limiter admits nine failures within half a minute, not five a minute
  (core/crates/adapters/src/auth/rate_limit.rs:1-4, `RateLimit.NineInHalfAMinute`).

## Model

| member | source | states |
|---|---|---|
| `Text.Sorted` | core/crates/core/src/diff/flatten.rs:30-35 | iterating a key-ordered map visits every key once, in strictly increasing order |
| `Text.LexLessExactly` | core/crates/core/src/diff/flatten.rs:30-35 | one key comes before another exactly when it is a proper prefix, or has the smaller character at the first difference |
| `Text.SortedByLength` | core/crates/core/src/diff.rs:597-598 | the stable sort by length of an ordered set: shorter first, equal lengths in string order, nothing lost |
| `Json.ParseDecimal` | core/crates/core/src/diff/flatten.rs:37-40 | an array index written as a segment parses back to the same index |
| `Json.ParseIndexExactly` | core/crates/core/src/diff.rs:439-441 | a segment is an index exactly when it is digits, at least one, with an optional plus sign; leading zeros and the plus sign do not matter |
| `Pointer.EscapeHead` | core/crates/core/src/model/primitive.rs:52-61 | escaping works character by character: a tilde becomes ~0, a slash ~1, the rest stays |
| `Pointer.UnescapeEscape` | core/crates/core/src/diff.rs:400-402 | unescaping a segment undoes the escaping of `push`, for every string |
| `Pointer.DecodeEncode` | core/crates/core/src/model/primitive.rs:58-68 | reading a pushed pointer by RFC 6901 sections 3 and 4 gives back exactly the pushed segments |
| `Pointer.EncodeInjective` | core/crates/core/src/model/primitive.rs:58-68 | different segment lists have different pointers |
| `Pointer.UnderIsPrefix` | core/crates/core/src/diff.rs:601-616 | the test "equal, or starts with it and then a slash" holds exactly when the segment list is a prefix |
| `Pointer.SegmentsEncode` | core/crates/core/src/diff.rs:474-476 | trimming and splitting a pointer walks its own segments with leading empty ones lost |
| `Pointer.SegmentsFaithful` | core/crates/core/src/diff.rs:412-414 | the walk follows the pointer's own path exactly when the first segment is not empty or is the only one |
| `Pointer.CutIsPrefix` | core/crates/core/src/diff.rs:582-592 | cutting a pointer before a later slash gives the pointer of a shorter, non-empty path |
| `Flatten.ChildrenOf` | core/crates/core/src/diff/flatten.rs:30-41 | the children of a container, named as `push` names them: all of them, none twice, each smaller than the container |
| `Flatten.FlattenInto` | core/crates/core/src/diff/flatten.rs:28-48 | the accumulator afterwards is the accumulator before, overwritten by exactly the scalar leaves below the prefix |
| `Flatten.Flatten` | core/crates/core/src/diff/flatten.rs:22-26 | the result holds exactly the scalar leaves of the tree, each under the pointer of its path, and no other key |
| `Flatten.PrefixFree` | core/crates/core/src/diff/flatten.rs:28-48 | no flattened key lies under another one |
| `Flatten.FlatDetermines` | core/crates/core/src/diff/flatten.rs:28-48 | two object trees without empty containers below the root and with one leaf map are the same tree |
| `Diff.BeforeLoop` | core/crates/core/src/diff.rs:216-233 | after the first loop every key of the before side is accounted for: Removed, Modified, unchanged, or counted as ignored |
| `Diff.AfterLoop` | core/crates/core/src/diff.rs:234-248 | the second loop adds exactly the Added entries, and counts an ignored path only if the first loop did not |
| `Diff.SortEntries` | core/crates/core/src/diff.rs:250-251 | the entries come out strictly sorted by path, the same ones as before |
| `Diff.DiffFlat` | core/crates/core/src/diff.rs:207-256 | the two-loop diff is sound, complete, strictly sorted, and counts the ignored paths of the union of keys |
| `Diff.ExactlyOneEntry` | core/crates/core/src/diff.rs:216-251 | a path that is not ignored has exactly one entry if the two maps disagree there, and none otherwise |
| `Diff.PathsDisagree` | core/crates/core/src/diff.rs:216-251 | the entry paths are exactly the paths that are not ignored and on which the two maps disagree |
| `Diff.DiffUnique` | core/crates/core/src/diff.rs:210-256 | the diff of two maps is determined: any two results meeting the specification are equal |
| `Diff.SwapSides` | core/crates/core/src/diff.rs:210-256 | swapping the sides swaps Added with Removed and before with after, and keeps order and ignored count |
| `Prune.Candidates` | core/crates/core/src/diff.rs:580-592 | the candidates are exactly the removed pointers and their cuts before later slashes |
| `Prune.Cuts` | core/crates/core/src/diff.rs:583-591 | walking one pointer collects exactly its cuts and itself |
| `Prune.IsRemovable` | core/crates/core/src/diff.rs:608-625 | the two scans decide whether a prefix has leaves and all of them are removed |
| `Prune.IsCovered` | core/crates/core/src/diff.rs:601-607 | the scan decides whether a pointer lies under a chosen root |
| `Prune.FullyRemovedSubtrees` | core/crates/core/src/diff.rs:576-630 | the chosen roots are removable prefixes of removed pointers, an antichain, shortest first, and cover every removable prefix |
| `Prune.ExactCover` | core/crates/core/src/diff.rs:594-629 | every removed leaf lies under exactly one chosen root, every kept leaf under none |
| `Prune.CoveredIffPruned` | core/crates/core/src/diff.rs:576-630 | a pointer lies under a chosen root exactly when, in the tree, something at or above it loses all its leaves |
| `DiffLaw.NothingEmptied` | core/crates/core/src/diff.rs:568-575 | a container below the root that had leaves is pruned itself or keeps one of them |
| `WriteEffects.SetKind` | core/crates/core/src/diff.rs:467-522 | setting a scalar puts it at its path and clears what was below; an array grows just to it, with nulls in the gap, and nothing else changes |
| `WriteEffects.RemoveKind` | core/crates/core/src/diff.rs:525-566 | removing an object key or the last array element clears its path and everything below, shortens that array by one, and changes nothing else |
| `WriteEffects.EnsureKind` | core/crates/core/src/diff.rs:404-463 | ensuring the parents creates the missing ones as objects; an array grows just to the next one, with empty objects in the gap, and nothing else changes |
| `WriteEffects.WriteKind` | core/crates/core/src/diff.rs:289-292 | an added leaf with its parents, seen path by path: where it fits, both steps succeed and this is the whole new tree |
| `WriteEffects.EnsureNothing` | core/crates/core/src/diff.rs:404-463 | ensuring parents that are all there changes nothing |
| `WriteErrors.SetBeyondEnd` | core/crates/core/src/diff.rs:506-514 | setting past the end of an array fills the gap with nulls and keeps the elements |
| `WriteErrors.EnsureBeyondEnd` | core/crates/core/src/diff.rs:442-445 | ensuring a parent past the end of an array fills the gap with empty objects and keeps the elements |
| `WriteErrors.RemoveShifts` | core/crates/core/src/diff.rs:549-558 | removing an array element moves the later ones down; an index past the end is a missing parent path |
| `WriteErrors.SetFailsExactly` | core/crates/core/src/diff.rs:467-522 | setting fails exactly when the walk to the holder fails or the holder refuses, with that error |
| `WriteErrors.RemoveFailsExactly` | core/crates/core/src/diff.rs:525-566 | removing fails for the same reasons and for an index past the end, and otherwise succeeds |
| `WriteErrors.NavigateFailsExactly` | core/crates/core/src/diff.rs:634-662 | one step down: a shape error exactly at a scalar, a missing parent exactly where no child stands |
| `WriteErrors.EnsureFailsExactly` | core/crates/core/src/diff.rs:404-463 | ensuring parents fails exactly when a holder on the way, short of its end, refuses: a scalar with a shape error, an array met by a non-index with a missing parent; otherwise it succeeds |
| `WriteErrors.EnsurePreserves` | core/crates/core/src/diff.rs:404-463 | ensuring parents takes nothing away: every leaf and container stays, and arrays only grow |
| `WriteErrors.EnsureResult` | core/crates/core/src/diff.rs:404-463 | the whole tree after ensuring any parents with success, however indices are spelled |
| `WriteErrors.SetResult` | core/crates/core/src/diff.rs:467-522 | the whole tree after setting at any path with success, however indices are spelled |
| `WriteErrors.SpellingIsIrrelevant` | core/crates/core/src/diff.rs:439-441 | a plus sign or leading zeros in an index change nothing of any write |
| `WriteErrors.RemoveElementKind` | core/crates/core/src/diff.rs:549-558 | removing any array element anywhere in a tree moves the later ones down with all they hold, and touches nothing else |
| `WriteErrors.AddedFailsExactly` | core/crates/core/src/diff.rs:289-292 | an Added entry fails exactly when a holder on the way, the last one included, refuses, with its error; missing parents are no obstacle |
| `WriteErrors.AddedResult` | core/crates/core/src/diff.rs:289-292 | the whole tree after any Added entry that succeeds |
| `WriteErrors.ModifiedFailsExactly` | core/crates/core/src/diff.rs:306-308 | a Modified entry creates nothing: it fails exactly when its parents are not all there or the holder refuses |
| `WriteErrors.RemovedExactlyIfUncovered` | core/crates/core/src/diff.rs:293-305 | a Removed entry does nothing when a pruned subtree covers it, and otherwise removes its path or fails |
| `Apply.ApplyDiff` | core/crates/core/src/diff.rs:259-316 | the result is: flatten, prune the chosen roots, then apply the entries in order, with the first error ending it |
| `Apply.RemovalLoop` | core/crates/core/src/diff.rs:281-284 | the loop removes the roots one after the other and stops at the first error |
| `Apply.EntryLoop` | core/crates/core/src/diff.rs:286-310 | the loop applies Added, uncovered Removed and Modified entries in order and stops at the first error |
| `Rebuild.RemovedExactly` | core/crates/core/src/diff.rs:265-275 | the removed leaves of a diff are exactly the keys of the before side that the after side lacks |
| `Rebuild.RootLosesAll` | core/crates/core/src/diff.rs:576-630 | each chosen root is the pointer of a non-empty path all of whose leaves go |
| `Rebuild.RemovePathsKind` | core/crates/core/src/diff.rs:281-284 | removing incomparable keys and last elements one after the other clears exactly what lies under them and shortens exactly the arrays that lose their last element |
| `Rebuild.RootsAreExact` | core/crates/core/src/diff.rs:576-630 | the chosen roots are pointers of paths that lose all their leaves, and a path lies under one exactly when something at or above it does |
| `Rebuild.PrunedTree` | core/crates/core/src/diff.rs:277-284 | when arrays lose at most their last element and nothing below an empty top-level key changes: after pruning, each path holds what it held before, unless something at or above it lost all its leaves; an array that lost its last element is one shorter |
| `Patching.WayIsWritable` | core/crates/core/src/diff.rs:404-463 | whatever leaves of the target have been written, in any order, the next one can be: no scalar is in the way, and every array has the next element or grows to it |
| `Patching.WriteStep` | core/crates/core/src/diff.rs:289-292 | writing one more leaf keeps the invariant that relates the tree to the leaves written so far |
| `Patching.GapIsOvertaken` | core/crates/core/src/diff.rs:442-445 | the gaps a write fills are exactly the missing elements before a new one |
| `Patching.PatchedUnique` | core/crates/core/src/diff.rs:286-310 | the leaves written so far determine what stands at each path, so the order of writing does not matter |
| `Patching.PatchedIsTarget` | core/crates/core/src/diff.rs:286-310 | once all changed leaves are written, the tree is the target exactly when the containers agree |
| `RoundTrip.EntryStep` | core/crates/core/src/diff.rs:287-310 | under the same conditions each entry succeeds and keeps the invariant: the tree is the pruned one with the leaves written so far, arrays grown as far as these need |
| `RoundTrip.WritesChangedLeaves` | core/crates/core/src/diff.rs:286-310 | the entries write exactly the leaves of the target that are new or changed |
| `RoundTrip.ApplyRebuilds` | core/crates/core/src/diff.rs:259-316 | under the same conditions: what the engine computes at every path |
| `RoundTrip.ScalarTarget` | core/crates/core/src/diff.rs:467-472 | a scalar target at the root is reached whenever arrays lose at most their last element |
| `RoundTrip.ScalarSource` | core/crates/core/src/diff.rs:527-529 | a scalar at the root never turns into a container |
| `RoundTrip.EmptyKeyInvariant` | core/crates/core/src/diff.rs:412-414 | for any two containers, what comes out has under an empty top-level key the old value, a scalar, or nothing |
| `RoundTrip.ApplyInvertsDiff` | core/crates/core/src/diff.rs:259-316 | applying the diff gives the target exactly when the pair is restorable, for all pairs whose arrays lose at most their last element and gain only scalars or only containers |
| `DiffLaw.StructuralDiff` | core/crates/core/src/diff.rs:197-257 | the diff of two trees is the diff of their leaf maps |
| `DiffLaw.FlatUnique` | core/crates/core/src/diff/flatten.rs:22-26 | a tree has one leaf map |
| `DiffLaw.DiffThenApply` | core/crates/core/src/diff.rs:197-316 | diff, then apply: the second tree comes out if and only if the pair is restorable |
| `DiffLaw.MergedDiff` | core/crates/core/src/diff.rs:217-220 | the diff does not depend on the leaves at ignored paths, but for the ignored count |
| `DiffLaw.DiffIgnoring` | core/crates/core/src/diff.rs:197-316 | with ignored paths that differ: the tree with the leaves of the target, and those of the first tree at ignored paths, comes out if and only if that pair is restorable |
| `FullTrees.FullTreesAgree` | core/crates/core/src/diff.rs:404-463 | without empty containers, the containers agree exactly when the target has arrays where arrays of the first tree stay |
| `DiffLaw.FullTreesRoundTrip` | core/crates/core/src/diff.rs:197-316 | without empty containers and empty top-level keys, the target comes out if and only if it has arrays exactly where arrays stay: a new array never comes out |
| `DiffLaw.PlainObjectsRoundTrip` | core/crates/core/src/diff.rs:197-316 | object trees without empty containers and empty top-level keys always round-trip, through scalar-to-object changes too |
| `DiffLaw.ApplyStructuralDiff` | core/crates/core/src/diff.rs:197-316 | diff and apply as one run, for any two trees: the laws above hold of what it returns, with and without ignored differences |
| `DiffLaw.LeafChangesRoundTrip` | core/crates/core/src/diff.rs:197-316 | trees of one shape, arrays included, round-trip exactly when nothing below an empty top-level key differs |
| `DiffLaw.EmptiedContainerIsLost` | core/crates/core/src/diff/flatten.rs:30-41 | a container below an object that the target keeps but empties is never restored |
| `Shrinking.DecimalOrder` | core/crates/core/src/diff.rs:597-598 | shortest first, then by text, orders array indices as numbers, so roots of one array are removed from the front |
| `Shrinking.RemoveKeepsWay` | core/crates/core/src/diff.rs:525-566 | a removal elsewhere leaves the way to an array as it is, and one of its elements makes it one shorter |
| `Shrinking.SecondIsMissed` | core/crates/core/src/diff.rs:553-558 | once another element is removed, removing the last index of an array fails |
| `DiffLaw.ShrunkArrayFails` | core/crates/core/src/diff.rs:553-558 | an array that stays, reached through arrays that lose nothing, but loses its last element and another one makes apply fail |
| `Lists.ListsRoundTrip` | core/crates/core/src/diff.rs:197-316 | for lists of scalars, the second comes out if and only if it is at most one element shorter |
| `Canonical.SortedFind` | core/crates/core/src/canonical_json.rs:64-68 | sorting members with distinct keys gives strict key order and loses, adds and changes none |
| `Canonical.CanonObject` | core/crates/core/src/canonical_json.rs:63-70 | a canonical object has strictly sorted keys and finds the canonical child under each |
| `Canonical.SameNumberIsSameCanon` | core/crates/core/src/canonical_json.rs:72-96 | two numbers have one canonical form exactly when equal, or a whole float and an integer of magnitude at most 2^53 of one value |
| `Canonical.CanonDecidesSame` | core/crates/core/src/canonical_json.rs:61-99 | two documents have one canonical form exactly when they differ in member order and number spelling only |
| `Canonical.CanonIsSame` | core/crates/core/src/canonical_json.rs:61-99 | the canonical form is well-formed and says the same as the document |
| `Canonical.CanonIdempotent` | core/crates/core/src/canonical_json.rs:61-99 | canonicalising twice is canonicalising once |
| `Canonical.CanonNumberExactly` | core/crates/core/src/canonical_json.rs:72-96 | a number stays exactly when it is no whole float of magnitude at most 2^53, integers of any size included; otherwise it becomes that integer |
| `Canonical.CanonIsCanonical` | core/crates/core/src/canonical_json.rs:61-99 | the canonical form has strictly sorted members at every level and no float that could be written as a safe integer |
| `Canonical.CanonicalStays` | core/crates/core/src/canonical_json.rs:61-99 | a document of that form is left exactly as it is |
| `Canonical.CanonExactly` | core/crates/core/src/canonical_json.rs:61-99 | the canonical form is the one canonical document that says the same |
| `CanonicalDiff.DiffCaddyValues` | core/crates/core/src/diff.rs:340-385 | both sides are canonicalised and then diffed |
| `CanonicalDiff.TreeExactly` | core/crates/core/src/diff.rs:340-342 | the tree that is diffed has what the document says: scalars, elements in order, each member under its key |
| `CanonicalDiff.CanonValueDecidesSame` | core/crates/core/src/canonical_json.rs:61-99 | the canonical trees are equal exactly when the documents say the same |
| `CanonicalDiff.SameHasNoDiff` | core/crates/core/src/diff.rs:334-342 | documents that say the same have an empty diff, whatever is ignored |
| `CanonicalDiff.EmptyDiffIffSame` | core/crates/core/src/diff.rs:340-385 | for plain objects and no ignored path, the diff is empty exactly when the documents say the same |
| `Redactor.RedactedKind` | core/crates/core/src/audit/redactor.rs:157-196 | at every path: the old node outside secrets, the marker at a topmost secret, nothing below it |
| `Redactor.RedactionReveals` | core/crates/core/src/audit/redactor.rs:157-211 | two inputs give one output exactly when they agree outside secrets and in the markers of topmost secrets |
| `Redactor.MarkerTells` | core/crates/core/src/audit/redactor.rs:198-211 | a marker is starred, at most 15 characters long, and equal to another exactly when the hash prefixes are |
| `Redactor.MarkerExactly` | core/crates/core/src/audit/redactor.rs:198-211 | three stars, then the first twelve characters of the hash of a string, or all of a shorter hash; three stars only for anything else |
| `Redactor.SaturatingExactly` | core/crates/core/src/audit/redactor.rs:170-174 | counting stops at 2^32 - 1 |
| `Redactor.DepthExceededExactly` | core/crates/core/src/audit/redactor.rs:164-168 | the depth limit is hit exactly when some node at depth 65 has no secret above it |
| `Redactor.WalkPassesCheck` | core/crates/core/src/audit/redactor.rs:213-258 | whatever the walk lets through passes the self-check, for every secret predicate and hasher |
| `Redactor.CleanExactly` | core/crates/core/src/audit/redactor.rs:215-258 | the check accepts exactly the trees that are not too deep and show no secret |
| `Redactor.ShowsExactly` | core/crates/core/src/audit/redactor.rs:223-232 | a secret shows when a node that is secret, with no secret above, is not starred |
| `Redactor.TopSecretsExactly` | core/crates/core/src/audit/redactor.rs:170-174 | the counted sites are exactly the present nodes that are secret with no secret above |
| `Redactor.Walk` | core/crates/core/src/audit/redactor.rs:157-196 | error exactly when too deep; otherwise the redacted node, and the count raised by its topmost secrets, saturating at 2^32 - 1 |
| `Redactor.WalkObject` | core/crates/core/src/audit/redactor.rs:177-184 | the loop over fields redacts each and keeps the running count |
| `Redactor.WalkArray` | core/crates/core/src/audit/redactor.rs:185-192 | the loop over elements redacts each and keeps the running count |
| `Redactor.SelfCheck` | core/crates/core/src/audit/redactor.rs:215-258 | succeeds exactly when no secret shows and the tree is not too deep; the error names one of the two that is the case |
| `Redactor.Redact` | core/crates/core/src/audit/redactor.rs:109-118 | fails for depth only, never for plaintext; value and saturated site count are determined |
| `Redactor.RedactDiff` | core/crates/core/src/audit/redactor.rs:129-150 | an object is redacted part by part from the root, with the saturated sum of sites; anything else as one tree |
| `ApplyStore.Store.TryInsertLock` | core/crates/adapters/src/storage_sqlite/locks.rs:330-382 | one transaction: the row is inserted exactly when there is none |
| `ApplyStore.Store.DeleteLock` | core/crates/adapters/src/storage_sqlite/locks.rs:88-91 | the row goes only if it carries the given pid |
| `ApplyStore.Store.AcquireApplyLock` | core/crates/adapters/src/storage_sqlite/locks.rs:222-311 | without interference: refused exactly when a process seen alive holds the row, which then stays; otherwise the row is ours |
| `ApplyStore.Store.AdvanceConfigVersionIfEq` | core/crates/adapters/src/storage_sqlite/snapshots.rs:64-127 | advances by one exactly when the expected version is current, the instance row exists and the snapshot is stored with the next version |
| `LockSafety.RowUntouched` | core/crates/adapters/src/storage_sqlite/locks.rs:285-290 | no step of one task touches the row of another live holder |
| `LockSafety.NewHolderFoundNone` | core/crates/adapters/src/storage_sqlite/locks.rs:341-365 | a task becomes a holder only by inserting where no row was |
| `LockSafety.VisibleIsExclusive` | core/crates/adapters/src/storage_sqlite/locks.rs:202-311 | in every run at most one live task holds the lock, and the row carries its pid |
| `LockSafety.SlowReaperIsHarmless` | core/crates/adapters/src/storage_sqlite/locks.rs:283-292 | a delete by a slow reaper never removes a live holder's row |
| `LockSafety.UnseenHolderIsRobbed` | core/crates/adapters/src/storage_sqlite/locks.rs:183-200 | a task whose probe cannot see a live holder's process takes the lock from it |
| `LockSafety.ExclusiveIffVisible` | core/crates/adapters/src/storage_sqlite/locks.rs:183-311 | mutual exclusion holds in all runs exactly when each task's probe sees the processes of all other tasks |
| `LockSafety.StaleRowRecovers` | core/crates/adapters/src/storage_sqlite/locks.rs:283-311 | the row of a dead process is replaced by the next task that tries alone |
| `LockSafety.LostReleaseLocksOut` | core/crates/adapters/src/storage_sqlite/locks.rs:82-94 | if the delete of a release is lost, nobody takes the lock again until the releasing process ends |
| `LockProgress.ReleaseGivesBack` | core/crates/adapters/src/storage_sqlite/locks.rs:82-160 | in every run, a delete that takes effect at the end of an apply, or after a panic, leaves no row; the result stays what it was |
| `LockProgress.PanicGivesBack` | core/crates/adapters/src/storage_sqlite/locks.rs:97-160 | a panic in the middle of an apply, and the delete after it: the row goes, there is no result, and pointer and configuration stay |
| `LockProgress.LoneApplySucceeds` | core/crates/adapters/src/applier_caddy.rs:475-622 | an apply that starts alone with the lock free, its version current and its snapshot stored ends with success: pointer one higher, Caddy running the snapshot, no row |
| `LockProgress.NextGetsLock` | core/crates/adapters/src/applier_caddy.rs:618-622 | after it, another task that starts gets the lock |
| `LockProgress.InsertThenApply` | core/crates/adapters/src/storage_sqlite/snapshots.rs:85-105 | inserting a snapshot one version above the pointer and applying it alone succeeds |
| `LockProgress.FailedApplyEnds` | core/crates/adapters/src/applier_caddy.rs:493-622 | whatever stage fails, the lock comes back, the caller is told which kind of failure, and only what took effect before stays |
| `LockProgress.UnstoredSnapshotFails` | core/crates/adapters/src/storage_sqlite/snapshots.rs:85-105 | a snapshot not stored with the next version is loaded, but the pointer stays and the answer is an integrity error |
| `LockProgress.StaleJobConflicts` | core/crates/adapters/src/applier_caddy.rs:493-502 | a job whose version is not current is told both versions before anything is loaded, and releases |
| `LockProgress.HeldIsRefused` | core/crates/adapters/src/storage_sqlite/locks.rs:271-274 | a row of a process seen alive is left alone and its pid reported |
| `LockProgress.LoserReports` | core/crates/adapters/src/storage_sqlite/locks.rs:300-310 | a task that loses the second race reports the pid in the row, or -1 |
| `LockProgress.VanishedRowIsRetried` | core/crates/adapters/src/storage_sqlite/locks.rs:247-256 | a row gone when it is looked up is tried for again |
| `LockProgress.FailedAskingEnds` | core/crates/adapters/src/storage_sqlite/locks.rs:239-299 | a failing statement while asking for the lock ends with a storage error and grants nothing |
| `PointerSafety.OnlyHolderWrites` | core/crates/adapters/src/applier_caddy.rs:488-492 | only a live holder changes the applied pointer or the configuration Caddy runs |
| `PointerSafety.AdvanceNeverConflicts` | core/crates/adapters/src/applier_caddy.rs:554-560 | the version read at step 0 is still current at the advance: no conflict, success exactly when the next snapshot is stored |
| `PointerSafety.SuccessIsRunning` | core/crates/adapters/src/applier_caddy.rs:543-560 | when an apply succeeds, Caddy runs the snapshot it applied |
| `PointerSafety.SuccessPassedAllStages` | core/crates/adapters/src/applier_caddy.rs:493-613 | an apply that succeeds has read, prepared, loaded, verified and advanced, in this order, since it started |
| `PointerSafety.PointerStep` | core/crates/adapters/src/sqlite_storage.rs:1125-1164 | one event moves the pointer exactly when it ends an apply with success or loses the answer of its commit, and then by one |
| `PointerSafety.PointerCountsApplies` | core/crates/adapters/src/storage_sqlite/snapshots.rs:64-127 | over any run the pointer is its start plus the number of such events, so it never decreases |
| `PointerSafety.PointerNamesOne` | core/crates/adapters/src/storage_sqlite/snapshots.rs:85-105 | after any run the pointer is 0 or the version of exactly one stored snapshot, and no snapshot is lost |
| `PointerSafety.SuccessReportsPointer` | core/crates/adapters/src/applier_caddy.rs:607-613 | a success reports the pointer's version if the snapshot handed in is the stored one |
| `Snapshots.InsertKeepsValid` | core/crates/adapters/src/sqlite_storage.rs:295-429 | every insertion keeps: ids are hashes, versions strictly increase, parents are earlier rows; old rows stay |
| `Snapshots.RunKeepsRows` | core/crates/adapters/src/sqlite_storage.rs:295-429 | the same over any run of insertions |
| `Snapshots.RepeatIsNoOp` | core/crates/adapters/src/sqlite_storage.rs:317-346 | inserting an accepted snapshot again succeeds and changes nothing, whatever came in between |
| `Snapshots.NoCollision` | core/crates/adapters/src/sqlite_storage.rs:330-334 | with an injective hash the collision error never happens |
| `Snapshots.InsertExactly` | core/crates/adapters/src/sqlite_storage.rs:295-429 | a snapshot that validates is appended exactly when no row has its id, its parent is none or some row's, and its version exceeds every row's; accepted without change exactly when it is there already; otherwise the first failing check is the answer |
| `Snapshots.LineageIsChain` | core/crates/adapters/src/sqlite_storage.rs:722-749 | following parents from a stored snapshot leads through strictly smaller versions to a root |
| `Snapshots.TruncationDropsLeaf` | core/crates/adapters/src/sqlite_storage.rs:761-773 | a truncated chain never contains the snapshot it was asked for |
| `Snapshots.SnapshotStore.InsertSnapshot` | core/crates/adapters/src/sqlite_storage.rs:635-641 | the table and answer after validation and insertion are those of `Snapshots.InsertExactly`, with the invariant of the table kept |
| `Snapshots.SnapshotStore.InsertSnapshotInner` | core/crates/adapters/src/sqlite_storage.rs:295-429 | deduplication, parent check, version check, insertion, in that order and atomically |
| `Snapshots.SnapshotStore.GetParentChain` | core/crates/adapters/src/sqlite_storage.rs:707-774 | error exactly above depth 256; truncated exactly when the lineage is longer than asked; otherwise the whole root-to-leaf lineage |
| `Snapshots.SnapshotStore.VisitChain` | core/crates/adapters/src/sqlite_storage.rs:722-755 | the recursive query visits the newest `depthLimit + 1` rows of the lineage |
| `AuditChain.RunLinked` | core/crates/adapters/src/sqlite_storage.rs:832-868 | in any run each row carries the hash of the latest row before it, the first the seed, and rows stay |
| `AuditChain.FailuresLeaveNoTrace` | core/crates/adapters/src/sqlite_storage.rs:870-916 | a run with failed transactions ends like the run without them |
| `AuditChain.RecordExactly` | core/crates/adapters/src/sqlite_storage.rs:795-917 | a transaction that works with an unused id appends its event, with the seed on an empty table and else the hash of a row none comes after; any other changes nothing |
| `AuditChain.BeforeExactly` | core/crates/adapters/src/sqlite_storage.rs:834-849 | the order of the lookup: by time, then by id |
| `AuditChain.LastIsLatest` | core/crates/adapters/src/sqlite_storage.rs:834-849 | the row looked up is a row after which none comes in the order of timestamp and id |
| `AuditChain.ChainedIffInOrder` | core/crates/adapters/src/sqlite_storage.rs:832-917 | in insertion order the chain is unbroken exactly when all rows but the newest arrived in strictly increasing order |
| `AuditChain.SortedChainIffInOrder` | core/crates/core/src/storage/helpers.rs:125-136 | read in timestamp and id order, the chain verifies exactly when all rows arrived in that order |
| `AuditChain.Unforked` | core/crates/adapters/src/sqlite_storage.rs:806-816 | an unbroken chain has no two rows with one predecessor |
| `AuditChain.VerifyAuditChain` | core/crates/core/src/storage/helpers.rs:137-150 | intact exactly when chained; otherwise the first broken row with the expected and the stored hash |
| `AuditChain.AuditLog.RecordAuditEvent` | core/crates/adapters/src/sqlite_storage.rs:795-917 | one transaction appends one row linked to the latest, or changes nothing |
| `AuditTail.LikeLiteral` | core/crates/adapters/src/sqlite_storage.rs:940-956 | an escaped literal in a LIKE pattern matches itself, up to ASCII case, and nothing else |
| `AuditTail.PatternMatchesGlob` | core/crates/adapters/src/sqlite_storage.rs:935-957 | the pattern built from a kind glob matches exactly what the glob means, up to ASCII case |
| `AuditTail.GlobIsExactInLowerCase` | core/crates/core/src/storage.rs:24-28 | without capitals: a trailing star matches by prefix, anything else by equality |
| `AuditTail.SelectExactly` | core/crates/adapters/src/sqlite_storage.rs:616-630 | the selection is the matching rows, each once, in strictly descending id order |
| `AuditTail.MatchesExactly` | core/crates/adapters/src/sqlite_storage.rs:616-630 | a row is selected exactly when it lies in the half-open time span, has the correlation and actor id asked for, a kind the glob means, and an id before the cursor |
| `AuditTail.LettersMatchExactly` | core/crates/adapters/src/sqlite_storage.rs:627 | LIKE ignores the case of ASCII letters only |
| `AuditTail.EffectiveLimitExactly` | core/crates/adapters/src/sqlite_storage.rs:924-931 | 100 rows if none are asked for, otherwise what is asked for up to 1000 |
| `AuditTail.TailExactly` | core/crates/adapters/src/sqlite_storage.rs:919-984 | a page holds wanted rows only, newest first, leaves out older ones only, and is as long as the limit allows |
| `AuditTail.CursorSkips` | core/crates/adapters/src/sqlite_storage.rs:628-630 | a cursor at a selected row selects exactly what follows it |
| `AuditTail.PagingIsComplete` | core/crates/adapters/src/sqlite_storage.rs:919-984 | page after page at any limits, until an empty page, lists every matching row once in descending id order |
| `Drift.DriftIsAudited` | core/crates/adapters/src/drift.rs:321-352 | in any run with failures and crashes, every drift row has an earlier audit row with its correlation id |
| `Drift.NoDuplicateInEpoch` | core/crates/adapters/src/drift.rs:302-358 | as long as nothing is resolved, no new row repeats the hash of the latest unresolved row, through failures, crashes and restarts |
| `Drift.EpochBegins` | core/crates/adapters/src/drift.rs:427-439 | the first row after a resolution, or a start that read storage, puts the cell in step with storage again |
| `Drift.RecordedIsLatest` | core/crates/adapters/src/drift.rs:302-358 | after a recording without failure the drift is the latest unresolved row, new or known |
| `Drift.UnsyncedRepeats` | core/crates/adapters/src/drift.rs:415-416 | clearing the cell, or a start that failed to read storage, lets the same hash in once more |
| `Drift.EpochIsDedup` | core/crates/adapters/src/drift.rs:302-358 | the new rows of an epoch are exactly the landed detections with adjacent repetitions removed |
| `Drift.RecordWrites` | core/crates/adapters/src/drift.rs:302-358 | what a record writes, in order, for every failure: audit row, drift row with the values of the event, cell |
| `Drift.KnownHashIsSkipped` | core/crates/adapters/src/drift.rs:304-319 | the hash in the cell is skipped without any write |
| `Drift.ResolveExactly` | core/crates/adapters/src/sqlite_storage.rs:1064-1100 | a resolution marks exactly the rows with its correlation id and changes nothing else |
| `Drift.ResolutionDoes` | core/crates/adapters/src/drift.rs:366-419 | a whole resolution audits first, marks the rows, clears the cell, and lets the next detection in |
| `Drift.LatestExactly` | core/crates/adapters/src/sqlite_storage.rs:1034-1041 | the latest unresolved row is unresolved with no later unresolved one, and there is none exactly when all are resolved |
| `Drift.RestartReads` | core/crates/adapters/src/drift.rs:427-439 | a start takes over the latest unresolved hash, if it can be read, and writes nothing |
| `Drift.DriftRecorder.RecordDrift` | core/crates/adapters/src/drift.rs:302-358 | audit first, then the row, then the cell; a failure leaves the later ones untouched |
| `Drift.DriftRecorder.MarkResolved` | core/crates/adapters/src/drift.rs:366-419 | audit, resolve the row, clear the cell, stopping at the first failure |
| `Drift.DriftRecorder.InitFromStorage` | core/crates/adapters/src/drift.rs:427-439 | the cell takes the hash of the latest unresolved row, or stays empty |
| `Mutation.PointerNamesSpot` | core/crates/core/src/mutation/apply.rs:128-140 | the pointer in a change list names one place, whatever characters the ids contain |
| `Mutation.PointersAre` | core/crates/core/src/mutation/apply.rs:128-206 | the pointers of the change list, written out |
| `Mutation.ApplyMutation` | core/crates/core/src/mutation/apply.rs:33-77 | checks in their order, then version plus one and the old state with the reported changes replayed |
| `MutationEffects.ApplyDoes` | core/crates/core/src/mutation/apply.rs:33-77 | accepted exactly when version, checks, overflow bound and target allow; then the new state is the old one with what the variant says and nothing else changed, the report names what stood and what stands there, and the version is one higher; otherwise the first failing check is the error |
| `MutationEffects.ReplayDoes` | core/crates/core/src/mutation/apply.rs:84-126 | per variant, entry by entry and field by field: creations, patches, deletions, attachments, imports with the last of equal ids winning |
| `MutationEffects.ChangesIfTarget` | core/crates/core/src/mutation/apply.rs:213-278 | a variant fails exactly when its route, upstream or attachment is missing, or it is never applied here, with the error of that case |
| `Mutation.Draft.ApplyVariant` | core/crates/core/src/mutation/apply.rs:84-126 | every variant updates the draft to the old state with its reported changes replayed, or fails |
| `Mutation.Draft.ApplyRoutePatch` | core/crates/core/src/mutation/apply.rs:380-422 | a patched route replaces the old one; missing routes are refused |
| `Mutation.Draft.ApplyUpstreamPatch` | core/crates/core/src/mutation/apply.rs:425-458 | a patched upstream replaces the old one; missing upstreams are refused |
| `Mutation.Draft.SetAttachment` | core/crates/core/src/mutation/apply.rs:190-278 | the before-value of an attachment change is that of the old state |
| `Mutation.Draft.ApplySetGlobalConfig` | core/crates/core/src/mutation/apply.rs:280-307 | fields named by the patch are set, and a change is reported exactly when the configuration differs |
| `Mutation.Draft.ApplySetTlsConfig` | core/crates/core/src/mutation/apply.rs:309-340 | fields named by the patch are set, and a change is reported exactly when the configuration differs |
| `Mutation.Draft.ApplyImportCaddyfile` | core/crates/core/src/mutation/apply.rs:347-377 | upstreams first, then routes, one creation each |
| `Mutation.OverlayRoute` | core/crates/core/src/mutation/apply.rs:394-414 | the fields of a patch overwrite those of a route one by one |
| `Mutation.UndoRestores` | core/crates/core/src/mutation/apply.rs:79-126 | taking the reported changes back restores the old state, for every mutation, exactly when what it creates was not there |
| `Mutation.PatchesCompose` | core/crates/core/src/mutation/apply.rs:380-416 | two patches amount to one with the later winning field by field; id and times stay |
| `Mutation.VersionCountsAccepted` | core/crates/core/src/mutation/apply.rs:38-63 | over any run the version counts the accepted mutations, which expected consecutive versions, each once |
| `Password.FiveMore` | core/crates/adapters/src/auth/bootstrap.rs:63-76 | the shifts across byte boundaries extend the number formed by the leading bits by one base-32 digit |
| `Password.DisjointBits` | core/crates/adapters/src/auth/bootstrap.rs:72-74 | the two halves joined by the bitwise or have no bit in common |
| `Password.EncodePassword` | core/crates/adapters/src/auth/bootstrap.rs:53-81 | for any number of bytes: at most 24 letters spelling the base-32 digits of the leading bits, no index out of bounds |
| `Password.CharsExactly` | core/crates/adapters/src/auth/bootstrap.rs:53-62 | as many letters as the bits fill, but never more than 24 |
| `Password.DigitsAreTopBits` | core/crates/adapters/src/auth/bootstrap.rs:53-81 | any number of digits, read in base 32, is the number formed by as many leading bits |
| `Password.PasswordIsBaseConversion` | core/crates/adapters/src/auth/bootstrap.rs:53-81 | the 24 characters are the first 15 bytes as a base-256 number |
| `Password.SamePassword` | core/crates/adapters/src/auth/bootstrap.rs:49-81 | two seeds give one password exactly when their first 15 bytes agree |
| `KeyFile.ParseEntries` | core/crates/adapters/src/secrets_local/file.rs:42-74 | the loop over the line iterator returns what the lines say: blank lines skipped between entries, the first error reported |
| `KeyFile.NewestIsNewest` | core/crates/adapters/src/secrets_local/file.rs:137-143 | the entry chosen has the highest version, and is the last with it |
| `KeyFile.FirstLines` | core/crates/adapters/src/secrets_local/file.rs:42-74 | what the first lines of any file lead to: blank ones skipped, a pair read, or the first fault told |
| `KeyFile.LineIsCut` | core/crates/adapters/src/secrets_local/file.rs:44 | lines end at a newline, with a carriage return before it or not |
| `KeyFile.FileRoundTrip` | core/crates/adapters/src/secrets_local/file.rs:42-74 | the text written for n keys parses to versions 1 to n in order with their keys |
| `KeyFile.LoadReturnsNewest` | core/crates/adapters/src/secrets_local/file.rs:105-169 | loading returns the newest key and keeps the file, or creates it with the generated key |
| `KeyFile.RotateAppends` | core/crates/adapters/src/secrets_local/file.rs:172-209 | rotating appends the key under the old maximum plus one |
| `KeyFile.LoadExactly` | core/crates/adapters/src/secrets_local/file.rs:105-169 | for any content: a file that is there is kept, its newest key returned or the fault told; an absent one is created |
| `KeyFile.RotateExactly` | core/crates/adapters/src/secrets_local/file.rs:172-209 | for any content: a file that does not parse is kept; otherwise the new key is appended under a version one above all others |
| `KeyFile.RotationsRoundTrip` | core/crates/adapters/src/secrets_local/file.rs:105-209 | after creation and any rotations the file parses to versions 1, 2, ... in order and loading returns the newest key |
| `KeyFile.FileBackend.LoadOrGenerate` | core/crates/adapters/src/secrets_local/file.rs:105-169 | file and answer for any content, malformed ones included |
| `KeyFile.FileBackend.Rotate` | core/crates/adapters/src/secrets_local/file.rs:172-209 | file and answer for any content, malformed ones included |
| `RateLimit.LoginRateLimiter.Check` | core/crates/adapters/src/auth/rate_limit.rs:54-65 | blocked exactly before the deadline, with the remaining seconds, at least one |
| `RateLimit.LoginRateLimiter.RecordFailure` | core/crates/adapters/src/auth/rate_limit.rs:68-86 | one more failure, a new deadline from the fifth on, and an eviction at every hundredth |
| `RateLimit.LoginRateLimiter.RecordSuccess` | core/crates/adapters/src/auth/rate_limit.rs:89-91 | the bucket of the address goes |
| `RateLimit.LoginRateLimiter.EvictStale` | core/crates/adapters/src/auth/rate_limit.rs:97-100 | exactly the buckets with a deadline after the cutoff stay |
| `RateLimit.FailureExactly` | core/crates/adapters/src/auth/rate_limit.rs:68-86 | one more failure for the address, a deadline from the fifth on; every hundredth drops exactly the others whose deadline is 300 seconds past or more |
| `RateLimit.BackoffExactly` | core/crates/adapters/src/auth/rate_limit.rs:70-77 | two seconds after the fifth failure, doubling up to a minute from the tenth on |
| `RateLimit.EvictedExactly` | core/crates/adapters/src/auth/rate_limit.rs:97-100 | exactly the buckets with a later deadline stay, as they are |
| `RateLimit.EvictionInvisible` | core/crates/adapters/src/auth/rate_limit.rs:93-100 | eviction changes no answer at or after its cutoff |
| `RateLimit.NoEarlyAdmission` | core/crates/adapters/src/auth/rate_limit.rs:54-100 | in any run, all addresses and evictions included, no address is admitted before the deadline its failures earned |
| `RateLimit.OwnBucket` | core/crates/adapters/src/auth/rate_limit.rs:68-86 | a bucket counts the failures in a row, whatever its own lazy eviction removes |
| `RateLimit.FailuresAreSpaced` | core/crates/adapters/src/auth/rate_limit.rs:71-78 | after the n-th failure in a row the next admitted one is min(2^(n-4), 60) seconds later or more |
| `RateLimit.AdmittedExactly` | core/crates/adapters/src/auth/rate_limit.rs:54-78 | a further failure is admitted exactly when the back-off earned so far is over |
| `RateLimit.FailuresBounded` | core/crates/adapters/src/auth/rate_limit.rs:54-78 | more than nine failures in a row need 62 seconds, and at most 10 + (T - 62) / 60 fit into T seconds |
| `RateLimit.NineInHalfAMinute` | core/crates/adapters/src/auth/rate_limit.rs:1-4 | nine failures are admitted within 30 seconds, more than the five a minute of the module comment |

## Left out

- HTTP handlers, cookies, auth middleware, the OpenAPI document, CLI, web UI, FFI and build tasks: plumbing.
- Decoding a value back into `DesiredState`: `apply_diff` ends at the JSON tree here, so a result that does not decode counts as a result.
- Rewriting a tree through mutable references: `pointer_set`, `pointer_remove` and `ensure_parent` are functions that return the changed tree; aliasing cannot arise in the original, where the tree is owned.
- The payload strings of errors, and the kind names in them.
- Bytes against characters: strings are sequences of characters, so the mixed counts in the prefix slicing and the byte-wise prefix tests coincide, as they do for ASCII; the hash prefix and the LIKE matching count characters.
- Machine bounds: an array index parses without the bound of `usize`; `ignored_count`, failure counts, key versions and version arithmetic do not overflow, except where the code saturates or checks (redaction sites, the mutation version).
- Floats are real numbers; NaN and infinities cannot occur in a JSON number.
- DiffLaw.DiffThenApply: arrays that stay and lose an element other than their last, or gain scalars and containers at once, are excluded. If such an array, reached through arrays that lose nothing, also loses its last element, apply fails (`DiffLaw.ShrunkArrayFails`); otherwise elements shift, or nulls get in the way, and whether the target comes out by chance depends on the values.
- DiffLaw.DiffIgnoring: pairs for which no tree has the leaves of the target and, at ignored paths, those of the first tree are excluded.
- Which paths are ignored, and which are secret: arbitrary predicates on pointers.
- `classify` and `summarise_diff`: counting entries by the pattern of their path.
- SHA-256, Argon2, base64, AEAD and keychain: functions; injectivity is assumed only where a lemma says so.
- SQLite: `BEGIN IMMEDIATE` to `COMMIT` is one step that works, fails, or takes effect and reports failure; a connection left inside a transaction by a failed commit is not modelled. The unique index on drift correlation ids is not modelled.
- Process ids are not reused; a request to Caddy that times out takes effect at once or never; edits of Caddy's configuration by others are not modelled.
- PointerSafety.AdvanceNeverConflicts: says nothing about which callers insert the next snapshot before applying; the mutation, reapply and rollback handlers are not modelled.
- The parsing, rendering and capability steps of an apply are one step that works or fails; audit rows, the TLS observer and tracing of `apply` are not modelled.
- Kind vocabulary and kind patterns of audit rows: part of whether an insertion works.
- Mutation.ApplyMutation: the capability check and the pre-conditions are arbitrary functions; referential integrity is not claimed. Serialised values in change lists stand for themselves, and the path of a change is the place it names.
- The audit event chosen for a mutation: a finite table.
- Drift.DriftRecorder.RecordDrift: the diff, its redaction and its summary are not part of the event; `tick_once` is a guard, a comparison as in `CanonicalDiff`, and a hash.
- KeyFile.FileBackend.Rotate: file modes, I/O errors and a version beyond 2^32 - 1 are not modelled.
- DashMap locking, including the eviction inside `record_failure` while an entry is held; tokio scheduling; configuration.
