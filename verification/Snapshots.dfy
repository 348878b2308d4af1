/** The append-only snapshot table and the lineage of a snapshot. */
module Snapshots {
  import opened Wrappers

  type SnapshotId = string
  type Hash = string -> string

  const INTENT_MAX_BYTES := 4 * 1024
  const MAX_PARENT_CHAIN_DEPTH := 256

  /** `record` stands for the columns that only describe the snapshot. */
  datatype Snapshot = Snapshot(id: SnapshotId, parent: Option<SnapshotId>, version: int, body: string, intent: seq<bv8>, record: string)

  datatype StorageError =
    | Integrity
    | SnapshotHashCollision
    | SnapshotParentNotFound
    | SnapshotVersionNotMonotonic(attempted: int, currentMax: int)

  datatype ParentChain = ParentChain(snapshots: seq<Snapshot>, truncated: bool)

  /** The rows of the table in insertion order. */
  type Table = seq<Snapshot>

  function Row(rows: Table, id: SnapshotId): Option<nat> {
    if rows == [] then None
    else if rows[|rows| - 1].id == id then Some(|rows| - 1)
    else Row(rows[..|rows| - 1], id)
  }

  /** `MAX(config_version)`, NULL on the empty table. */
  function MaxVersion(rows: Table): Option<int> {
    if rows == [] then None
    else
      var last := rows[|rows| - 1].version;
      match MaxVersion(rows[..|rows| - 1])
      case None => Some(last)
      case Some(max) => Some(if max < last then last else max)
  }

  function Validate(hash: Hash, s: Snapshot): Result<(), StorageError> {
    if hash(s.body) != s.id then Err(Integrity)
    else if |s.intent| > INTENT_MAX_BYTES then Err(Integrity)
    else Ok(())
  }

  /** The outcome of inserting `s`: deduplication, parent, monotonic version, in that order. */
  function Admit(rows: Table, s: Snapshot): Result<bool, StorageError> {
    match Row(rows, s.id)
    case Some(i) =>
      Row1(rows, s.id);
      if rows[i].body != s.body then Err(SnapshotHashCollision)
      else if rows[i].version != s.version then Err(Integrity)
      else Ok(false)
    case None =>
      if s.parent.Some? && Row(rows, s.parent.value).None? then Err(SnapshotParentNotFound)
      else if MaxVersion(rows).Some? && s.version <= MaxVersion(rows).value then
        Err(SnapshotVersionNotMonotonic(s.version, MaxVersion(rows).value))
      else Ok(true)
  }

  lemma {:induction false} Row1(rows: Table, id: SnapshotId)
    ensures match Row(rows, id)
      case Some(i) => i < |rows| && rows[i].id == id
      case None => forall i :: 0 <= i < |rows| ==> rows[i].id != id
  {
    if rows != [] { Row1(rows[..|rows| - 1], id); }
  }

  function Insert(hash: Hash, rows: Table, s: Snapshot): (Table, Result<SnapshotId, StorageError>) {
    if Validate(hash, s).Err? then (rows, Err(Validate(hash, s).error))
    else
      match Admit(rows, s)
      case Err(e) => (rows, Err(e))
      case Ok(isNew) => (if isNew then rows + [s] else rows, Ok(s.id))
  }

  // What every insertion keeps.

  /** Content-addressed, versions growing, every parent an earlier row. */
  ghost predicate Valid(hash: Hash, rows: Table) {
    && (forall i :: 0 <= i < |rows| ==> rows[i].id == hash(rows[i].body) && |rows[i].intent| <= INTENT_MAX_BYTES)
    && (forall i, j :: 0 <= i < j < |rows| ==> rows[i].version < rows[j].version && rows[i].id != rows[j].id)
    && (forall i :: 0 <= i < |rows| && rows[i].parent.Some? ==> Row(rows[..i], rows[i].parent.value).Some?)
  }

  lemma {:induction false} MaxIsLast(hash: Hash, rows: Table)
    requires Valid(hash, rows)
    ensures MaxVersion(rows) == if rows == [] then None else Some(rows[|rows| - 1].version)
  {
    if rows != [] {
      ValidPrefix(hash, rows, |rows| - 1);
      MaxIsLast(hash, rows[..|rows| - 1]);
    }
  }

  lemma ValidPrefix(hash: Hash, rows: Table, n: nat)
    requires Valid(hash, rows) && n <= |rows|
    ensures Valid(hash, rows[..n])
  {
    forall i | 0 <= i < n ensures rows[..n][..i] == rows[..i] {
    }
  }

  lemma AppendKeepsValid(hash: Hash, rows: Table, s: Snapshot)
    requires Valid(hash, rows) && Validate(hash, s).Ok? && Admit(rows, s) == Ok(true)
    ensures Valid(hash, rows + [s])
  {
    MaxIsLast(hash, rows);
    Row1(rows, s.id);
    var after := rows + [s];
    forall i | 0 <= i <= |rows| ensures after[..i] == rows[..i] {
    }
    assert rows[..|rows|] == rows;
  }

  lemma InsertKeepsValid(hash: Hash, rows: Table, s: Snapshot)
    requires Valid(hash, rows)
    ensures Valid(hash, Insert(hash, rows, s).0) && rows <= Insert(hash, rows, s).0
  {
    if Validate(hash, s).Ok? && Admit(rows, s) == Ok(true) { AppendKeepsValid(hash, rows, s); }
  }

  function InsertAll(hash: Hash, rows: Table, ss: seq<Snapshot>): Table
    decreases |ss|
  {
    if ss == [] then rows else InsertAll(hash, Insert(hash, rows, ss[0]).0, ss[1..])
  }

  /** Over any run the table stays valid and old rows stay what and where they are. */
  lemma {:induction false} RunKeepsRows(hash: Hash, rows: Table, ss: seq<Snapshot>)
    requires Valid(hash, rows)
    ensures Valid(hash, InsertAll(hash, rows, ss)) && rows <= InsertAll(hash, rows, ss)
    decreases |ss|
  {
    if ss != [] {
      InsertKeepsValid(hash, rows, ss[0]);
      RunKeepsRows(hash, Insert(hash, rows, ss[0]).0, ss[1..]);
    }
  }

  lemma {:induction false} RowStays(hash: Hash, rows: Table, more: Table, id: SnapshotId)
    requires Valid(hash, more) && rows <= more && Row(rows, id).Some?
    ensures Row(more, id) == Row(rows, id)
    decreases |more|
  {
    Row1(rows, id);
    Row1(more, id);
  }

  /** Once a snapshot was accepted, inserting it again changes nothing and is accepted, whatever came in between. */
  lemma RepeatIsNoOp(hash: Hash, rows: Table, s: Snapshot, between: seq<Snapshot>)
    requires Valid(hash, rows) && Insert(hash, rows, s).1.Ok?
    ensures var later := InsertAll(hash, Insert(hash, rows, s).0, between);
      Insert(hash, later, s) == (later, Ok(s.id))
  {
    var after := Insert(hash, rows, s).0;
    InsertKeepsValid(hash, rows, s);
    RunKeepsRows(hash, after, between);
    Row1(rows, s.id);
    assert Row(after, s.id).Some?;
    RowStays(hash, after, InsertAll(hash, after, between), s.id);
  }

  /** With an injective hash the collision error never happens. */
  lemma NoCollision(hash: Hash, rows: Table, s: Snapshot)
    requires Valid(hash, rows) && forall x, y :: hash(x) == hash(y) ==> x == y
    ensures Insert(hash, rows, s).1 != Err(SnapshotHashCollision)
  {
    Row1(rows, s.id);
  }

  // Exactly when an insertion is accepted.

  ghost predicate HasId(rows: Table, id: SnapshotId) {
    exists i :: 0 <= i < |rows| && rows[i].id == id
  }

  /** The snapshot's id is that of its body, and its intent is no longer than 4 KiB. */
  predicate Sound(hash: Hash, s: Snapshot) {
    s.id == hash(s.body) && |s.intent| <= 4096
  }

  /** Some row has the snapshot's id, body and version: it is there already. */
  ghost predicate IsStored(rows: Table, s: Snapshot) {
    exists i :: 0 <= i < |rows| && rows[i].id == s.id && rows[i].body == s.body && rows[i].version == s.version
  }

  ghost predicate ParentKnown(rows: Table, s: Snapshot) {
    s.parent.Some? ==> HasId(rows, s.parent.value)
  }

  ghost predicate Newer(rows: Table, s: Snapshot) {
    forall i :: 0 <= i < |rows| ==> rows[i].version < s.version
  }

  ghost predicate IsMaximum(rows: Table, max: int) {
    (exists i :: 0 <= i < |rows| && rows[i].version == max) && forall i :: 0 <= i < |rows| ==> rows[i].version <= max
  }

  /** Why a snapshot is refused: the first check that fails. */
  ghost predicate RefusedFor(hash: Hash, rows: Table, s: Snapshot, e: StorageError) {
    if !Sound(hash, s) then e == Integrity
    else if HasId(rows, s.id) then
      exists i :: 0 <= i < |rows| && rows[i].id == s.id && e == if rows[i].body != s.body then SnapshotHashCollision else Integrity
    else if !ParentKnown(rows, s) then e == SnapshotParentNotFound
    else e.SnapshotVersionNotMonotonic? && e.attempted == s.version && IsMaximum(rows, e.currentMax)
  }

  /** What an insertion makes of the table, and what it answers. */
  ghost predicate Inserted(hash: Hash, rows: Table, s: Snapshot, after: Table, r: Result<SnapshotId, StorageError>) {
    if Sound(hash, s) && IsStored(rows, s) then after == rows && r == Ok(s.id)
    else if Sound(hash, s) && !HasId(rows, s.id) && ParentKnown(rows, s) && Newer(rows, s) then
      after == rows + [s] && r == Ok(s.id)
    else after == rows && r.Err? && RefusedFor(hash, rows, s, r.error)
  }

  lemma RowIfId(rows: Table, id: SnapshotId)
    ensures Row(rows, id).Some? <==> HasId(rows, id)
  {
    Row1(rows, id);
  }

  lemma {:induction false} MaxIsMaximum(rows: Table)
    ensures match MaxVersion(rows)
      case Some(max) => IsMaximum(rows, max)
      case None => rows == []
  {
    if rows != [] {
      var init := rows[..|rows| - 1];
      MaxIsMaximum(init);
      if MaxVersion(init).Some? {
        var i :| 0 <= i < |init| && init[i].version == MaxVersion(init).value;
        assert rows[i] == init[i];
      }
      assert forall i :: 0 <= i < |init| ==> rows[i] == init[i];
    }
  }

  lemma OnlyRow(hash: Hash, rows: Table, s: Snapshot)
    requires Valid(hash, rows) && Row(rows, s.id).Some?
    ensures Row(rows, s.id).value < |rows|
    ensures var row := rows[Row(rows, s.id).value];
      row.id == s.id && (IsStored(rows, s) <==> row.body == s.body && row.version == s.version)
  {
    Row1(rows, s.id);
  }

  /**
   * A snapshot that validates is appended exactly when no row has its id, its parent is none or some
   * row's, and its version is greater than every row's; it is accepted without a change exactly when
   * it is there already; otherwise nothing changes and the first failing check is the answer.
   */
  lemma InsertExactly(hash: Hash, rows: Table, s: Snapshot)
    requires Valid(hash, rows)
    ensures Inserted(hash, rows, s, Insert(hash, rows, s).0, Insert(hash, rows, s).1)
  {
    RowIfId(rows, s.id);
    if Row(rows, s.id).Some? { OnlyRow(hash, rows, s); }
    if s.parent.Some? { RowIfId(rows, s.parent.value); }
    MaxIsMaximum(rows);
    if MaxVersion(rows).Some? {
      var i :| 0 <= i < |rows| && rows[i].version == MaxVersion(rows).value;
      assert s.version <= MaxVersion(rows).value ==> !Newer(rows, s);
    }
  }

  // Lineage.

  /** The ancestors of a snapshot, root first, itself last; nothing for an unknown id. */
  function Lineage(rows: Table, id: SnapshotId): seq<Snapshot>
    decreases |rows|
  {
    match Row(rows, id)
    case None => []
    case Some(i) =>
      Row1(rows, id);
      (match rows[i].parent
       case None => []
       case Some(p) => Lineage(rows[..i], p)) + [rows[i]]
  }

  lemma {:induction false} RowInPrefix(hash: Hash, rows: Table, n: nat, id: SnapshotId)
    requires Valid(hash, rows) && n <= |rows| && Row(rows[..n], id).Some?
    ensures Row(rows, id) == Row(rows[..n], id)
  {
    Row1(rows, id);
    Row1(rows[..n], id);
  }

  /** Later rows do not change a lineage. */
  lemma {:induction false} LineageStays(hash: Hash, rows: Table, n: nat, id: SnapshotId)
    requires Valid(hash, rows) && n <= |rows| && Row(rows[..n], id).Some?
    ensures Lineage(rows, id) == Lineage(rows[..n], id)
  {
    RowInPrefix(hash, rows, n, id);
    Row1(rows[..n], id);
    var i := Row(rows, id).value;
    assert rows[..n][..i] == rows[..i];
  }

  /** A chain of parent links that starts at a root and ends at `id`. */
  ghost predicate IsChain(chain: seq<Snapshot>, id: SnapshotId) {
    && chain != []
    && chain[0].parent.None?
    && chain[|chain| - 1].id == id
    && (forall i :: 0 <= i < |chain| - 1 ==> chain[i + 1].parent == Some(chain[i].id))
    && (forall i :: 0 <= i < |chain| - 1 ==> chain[i].version < chain[i + 1].version)
  }

  /** Parent links never cycle: they lead to a root through smaller and smaller versions. */
  lemma {:induction false} LineageIsChain(hash: Hash, rows: Table, id: SnapshotId)
    requires Valid(hash, rows) && Row(rows, id).Some?
    ensures IsChain(Lineage(rows, id), id)
    ensures forall s :: s in Lineage(rows, id) ==> s in rows
    decreases |rows|
  {
    Row1(rows, id);
    var i := Row(rows, id).value;
    if rows[i].parent.Some? {
      ValidPrefix(hash, rows, i);
      LineageIsChain(hash, rows[..i], rows[i].parent.value);
      var above := Lineage(rows[..i], rows[i].parent.value);
      assert above[|above| - 1] in rows[..i];
    }
  }

  /** One step up: the lineage of a row is the lineage of its parent and the row. */
  lemma LineageStep(hash: Hash, rows: Table, id: SnapshotId)
    requires Valid(hash, rows) && Row(rows, id).Some?
    ensures Row(rows, id).value < |rows|
    ensures var s := rows[Row(rows, id).value];
      Lineage(rows, id) == (if s.parent.Some? then Lineage(rows, s.parent.value) else []) + [s]
      && (s.parent.Some? ==> Row(rows, s.parent.value).Some?)
  {
    Row1(rows, id);
    var i := Row(rows, id).value;
    if rows[i].parent.Some? {
      LineageStays(hash, rows, i, rows[i].parent.value);
      RowInPrefix(hash, rows, i, rows[i].parent.value);
    }
  }

  function Above(rows: Table, next: Option<SnapshotId>): seq<Snapshot> {
    if next.Some? then Lineage(rows, next.value) else []
  }

  lemma AboveStep(hash: Hash, rows: Table, id: SnapshotId, visited: seq<Snapshot>)
    requires Valid(hash, rows) && Row(rows, id).Some?
    ensures Row(rows, id).value < |rows|
    ensures var s := rows[Row(rows, id).value]; Lineage(rows, id) + visited == Above(rows, s.parent) + ([s] + visited)
  {
    LineageStep(hash, rows, id);
    var s := rows[Row(rows, id).value];
    assert Lineage(rows, id) == Above(rows, s.parent) + [s];
    Associative(Above(rows, s.parent), [s], visited);
  }

  lemma Associative(a: seq<Snapshot>, b: seq<Snapshot>, c: seq<Snapshot>)
    ensures a + b + c == a + (b + c)
  {
  }

  lemma TakeNewest(above: seq<Snapshot>, visited: seq<Snapshot>)
    ensures Newest(above + visited, |visited|) == visited
  {
  }

  lemma {:induction false} ChainIncreases(chain: seq<Snapshot>, i: nat, j: nat)
    requires forall k :: 0 <= k < |chain| - 1 ==> chain[k].version < chain[k + 1].version
    requires i < j < |chain|
    ensures chain[i].version < chain[j].version
    decreases j - i
  {
    if i + 1 < j { ChainIncreases(chain, i + 1, j); }
  }

  /** A truncated chain does not contain the snapshot it was asked for. */
  lemma TruncationDropsLeaf(hash: Hash, rows: Table, leaf: SnapshotId, maxDepth: nat)
    requires Valid(hash, rows) && |Lineage(rows, leaf)| > maxDepth
    ensures forall s :: s in Newest(Lineage(rows, leaf), maxDepth + 2)[..maxDepth] ==> s.id != leaf
  {
    LineageIsChain(hash, rows, leaf);
    var chain, kept := Lineage(rows, leaf), Newest(Lineage(rows, leaf), maxDepth + 2)[..maxDepth];
    forall i | 0 <= i < |kept| ensures kept[i].id != leaf {
      var k := if |chain| <= maxDepth + 2 then i else |chain| - (maxDepth + 2) + i;
      assert kept[i] == chain[k];
      ChainIncreases(chain, k, |chain| - 1);
      OneRowPerId(hash, rows, chain[k], chain[|chain| - 1]);
    }
  }

  lemma OneRowPerId(hash: Hash, rows: Table, s: Snapshot, t: Snapshot)
    requires Valid(hash, rows) && s in rows && t in rows && s.version < t.version
    ensures s.id != t.id
  {
    var i :| 0 <= i < |rows| && rows[i] == s;
    var j :| 0 <= j < |rows| && rows[j] == t;
    assert i < j || j < i;
  }

  /** The store: one table, changed by insertion only. */
  class SnapshotStore {
    const hash: Hash
    var rows: Table

    constructor (hash: Hash)
      ensures this.hash == hash && rows == [] && Valid(hash, rows)
    {
      this.hash, rows := hash, [];
    }

    method InsertSnapshot(s: Snapshot) returns (r: Result<SnapshotId, StorageError>)
      requires Valid(hash, rows)
      modifies this`rows
      ensures Valid(hash, rows) && old(rows) <= rows
      ensures (rows, r) == Insert(hash, old(rows), s)
      ensures Inserted(hash, old(rows), s, rows, r)
    {
      InsertKeepsValid(hash, rows, s);
      InsertExactly(hash, rows, s);
      var valid := Validate(hash, s);
      if valid.Err? {
        return Err(valid.error);
      }
      r := InsertSnapshotInner(s);
    }

    method InsertSnapshotInner(s: Snapshot) returns (r: Result<SnapshotId, StorageError>)
      modifies this`rows
      ensures (rows, r) == match Admit(old(rows), s)
        case Err(e) => (old(rows), Err(e))
        case Ok(isNew) => (if isNew then old(rows) + [s] else old(rows), Ok(s.id))
    {
      var existing := Row(rows, s.id);
      Row1(rows, s.id);
      if existing.Some? {
        if rows[existing.value].body != s.body {
          return Err(SnapshotHashCollision);
        }
        if rows[existing.value].version != s.version {
          return Err(Integrity);
        }
        return Ok(s.id);
      }
      if s.parent.Some? && Row(rows, s.parent.value).None? {
        return Err(SnapshotParentNotFound);
      }
      var currentMax := MaxVersion(rows);
      if currentMax.Some? && s.version <= currentMax.value {
        return Err(SnapshotVersionNotMonotonic(s.version, currentMax.value));
      }
      rows := rows + [s];
      r := Ok(s.id);
    }

    /**
     * The chain is truncated exactly when it is longer than asked for; otherwise it is the whole
     * lineage, root first. A truncated chain holds the oldest of the rows the query visits, the
     * last `maxDepth + 2` of the lineage.
     */
    method GetParentChain(leaf: SnapshotId, maxDepth: nat) returns (r: Result<ParentChain, StorageError>)
      requires Valid(hash, rows)
      ensures r.Ok? <==> maxDepth <= 256
      ensures r.Ok? ==> (r.value.truncated <==> |Lineage(rows, leaf)| > maxDepth)
      ensures r.Ok? && !r.value.truncated ==> r.value.snapshots == Lineage(rows, leaf)
      ensures r.Ok? && r.value.truncated ==>
        r.value.snapshots == Newest(Lineage(rows, leaf), maxDepth + 2)[..maxDepth]
    {
      if maxDepth > MAX_PARENT_CHAIN_DEPTH {
        return Err(Integrity);
      }
      var depthLimit := maxDepth + 1;
      var visited := VisitChain(leaf, depthLimit);
      var truncated := |visited| > maxDepth;
      r := Ok(ParentChain(if truncated then visited[..maxDepth] else visited, truncated));
    }

    /** The recursive query: the leaf at depth 0, and parents while the depth is below the limit. */
    method VisitChain(leaf: SnapshotId, depthLimit: nat) returns (visited: seq<Snapshot>)
      requires Valid(hash, rows)
      ensures visited == Newest(Lineage(rows, leaf), depthLimit + 1)
    {
      visited := [];
      var next := Some(leaf);
      while next.Some? && |visited| <= depthLimit
        invariant |visited| <= depthLimit + 1
        invariant Lineage(rows, leaf) == Above(rows, next) + visited
        decreases depthLimit + 1 - |visited|, next.Some?
      {
        var row := Row(rows, next.value);
        Row1(rows, next.value);
        if row.None? {
          assert Above(rows, next) == Above(rows, None);
          next := None;
        } else {
          AboveStep(hash, rows, next.value, visited);
          visited := [rows[row.value]] + visited;
          next := rows[row.value].parent;
        }
      }
      TakeNewest(Above(rows, next), visited);
      if next.None? { assert Above(rows, next) + visited == visited; }
    }
  }

  /** The last `n` of a chain, or all of it. */
  function Newest(chain: seq<Snapshot>, n: nat): seq<Snapshot> {
    if |chain| <= n then chain else chain[|chain| - n..]
  }
}
