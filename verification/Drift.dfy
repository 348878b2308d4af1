/** Recording drift: one audit row and one drift row per new running state, across failures and crashes. */
module Drift {
  import opened Wrappers

  datatype DriftEvent = DriftEvent(correlationId: string, detectedAt: int, runningHash: string)

  datatype Row = Row(correlationId: string, detectedAt: int, runningHash: string, resolved: bool)

  /** The writes in the order they were committed. */
  datatype Write = DetectionAudited(id: string) | DriftRecorded(id: string) | ResolutionAudited(id: string)

  /** `cell` is the deduplication hash held in memory; everything else is stored. */
  datatype State = State(cell: Option<string>, rows: seq<Row>, journal: seq<Write>, down: bool)

  datatype RecordLuck = Works | AuditFails | DriftFails | CrashAfterAudit | CrashAfterDrift

  datatype Event =
    | Record(event: DriftEvent, luck: RecordLuck)
    | AuditResolution(id: string)
    | UpdateRow(id: string)
    | ResetCell
    | Crash
    | Restart(initWorks: bool)

  /** The latest unresolved row by detection time. */
  function LatestUnresolved(rows: seq<Row>): Option<Row> {
    if rows == [] then None
    else
      var r := rows[|rows| - 1];
      var before := LatestUnresolved(rows[..|rows| - 1]);
      if r.resolved then before
      else if before.None? || before.value.detectedAt < r.detectedAt then Some(r)
      else before
  }

  function LatestHash(rows: seq<Row>): Option<string> {
    match LatestUnresolved(rows)
    case None => None
    case Some(r) => Some(r.runningHash)
  }

  function Resolve(rows: seq<Row>, id: string): seq<Row> {
    seq(|rows|, i requires 0 <= i < |rows| =>
      if rows[i].correlationId == id then rows[i].(resolved := true) else rows[i])
  }

  function NewRow(e: DriftEvent): Row {
    Row(e.correlationId, e.detectedAt, e.runningHash, false)
  }

  function RecordStep(s: State, e: DriftEvent, luck: RecordLuck): State {
    if s.cell == Some(e.runningHash) then s
    else
      var audited := s.journal + [DetectionAudited(e.correlationId)];
      var recorded := audited + [DriftRecorded(e.correlationId)];
      match luck
      case AuditFails => s
      case DriftFails => s.(journal := audited)
      case CrashAfterAudit => s.(journal := audited, cell := None, down := true)
      case CrashAfterDrift => s.(journal := recorded, rows := s.rows + [NewRow(e)], cell := None, down := true)
      case Works => s.(journal := recorded, rows := s.rows + [NewRow(e)], cell := Some(e.runningHash))
  }

  function Step(s: State, e: Event): State {
    if s.down then
      match e
      case Restart(initWorks) => s.(down := false, cell := if initWorks then LatestHash(s.rows) else None)
      case _ => s
    else
      match e
      case Record(event, luck) => RecordStep(s, event, luck)
      case AuditResolution(id) => s.(journal := s.journal + [ResolutionAudited(id)])
      case UpdateRow(id) => s.(rows := Resolve(s.rows, id))
      case ResetCell => s.(cell := None)
      case Crash => s.(cell := None, down := true)
      case Restart(_) => s
  }

  function Exec(s: State, events: seq<Event>): State
    decreases |events|
  {
    if events == [] then s else Step(Exec(s, events[..|events| - 1]), events[|events| - 1])
  }

  const Fresh := State(None, [], [], false)

  // What single steps do.

  /** A resolution marks exactly the rows with its correlation id, and changes nothing else. */
  lemma ResolveExactly(rows: seq<Row>, id: string, i: nat)
    requires i < |rows|
    ensures |Resolve(rows, id)| == |rows|
    ensures var r, n := rows[i], Resolve(rows, id)[i];
      && (n.resolved <==> r.resolved || r.correlationId == id)
      && n.correlationId == r.correlationId && n.detectedAt == r.detectedAt && n.runningHash == r.runningHash
  {
  }

  /** The row is unresolved, and no unresolved row was detected later. */
  ghost predicate IsLatest(rows: seq<Row>, r: Row) {
    && r in rows && !r.resolved
    && forall i :: 0 <= i < |rows| && !rows[i].resolved ==> rows[i].detectedAt <= r.detectedAt
  }

  /** The latest unresolved row is one, and there is none exactly when all rows are resolved. */
  lemma {:induction false} LatestExactly(rows: seq<Row>)
    ensures match LatestUnresolved(rows)
      case Some(r) => IsLatest(rows, r)
      case None => forall i :: 0 <= i < |rows| ==> rows[i].resolved
  {
    if rows != [] {
      var init := rows[..|rows| - 1];
      LatestExactly(init);
      assert forall i :: 0 <= i < |init| ==> rows[i] == init[i];
    }
  }

  /** A hash that is in the cell already is skipped: nothing is written for it. */
  lemma KnownHashIsSkipped(s: State, e: DriftEvent, luck: RecordLuck)
    requires s.cell == Some(e.runningHash)
    ensures Step(s, Record(e, luck)) == s
  {
  }

  /** What a record writes, in this order: the audit row, the drift row, the cell; a failure ends it. */
  lemma RecordWrites(s: State, e: DriftEvent, luck: RecordLuck)
    requires !s.down && s.cell != Some(e.runningHash)
    ensures var n := Step(s, Record(e, luck)); var id := e.correlationId;
      && n.journal == s.journal + (match luck
           case AuditFails => []
           case DriftFails => [DetectionAudited(id)]
           case CrashAfterAudit => [DetectionAudited(id)]
           case _ => [DetectionAudited(id), DriftRecorded(id)])
    ensures var n := Step(s, Record(e, luck));
      if luck.Works? || luck.CrashAfterDrift? then
        |n.rows| == |s.rows| + 1 && s.rows <= n.rows
        && var row := n.rows[|s.rows|];
           row.correlationId == e.correlationId && row.detectedAt == e.detectedAt && row.runningHash == e.runningHash && !row.resolved
      else n.rows == s.rows
    ensures var n := Step(s, Record(e, luck));
      && n.cell == (match luck
           case Works => Some(e.runningHash)
           case AuditFails => s.cell
           case DriftFails => s.cell
           case _ => None)
      && (n.down <==> luck.CrashAfterAudit? || luck.CrashAfterDrift?)
  {
    assert s.journal + [DetectionAudited(e.correlationId)] + [DriftRecorded(e.correlationId)] ==
      s.journal + [DetectionAudited(e.correlationId), DriftRecorded(e.correlationId)];
  }

  /** A whole resolution: audited first, then the rows, then the cell is cleared, so the same drift is recorded again. */
  lemma ResolutionDoes(s: State, id: string, e: DriftEvent)
    requires !s.down
    ensures var n := Exec(s, [AuditResolution(id), UpdateRow(id), ResetCell]);
      && n.journal == s.journal + [ResolutionAudited(id)] && n.rows == Resolve(s.rows, id) && n.cell == None && !n.down
      && |Step(n, Record(e, Works)).rows| == |s.rows| + 1
  {
    var events := [AuditResolution(id), UpdateRow(id), ResetCell];
    assert events[..2] == [AuditResolution(id), UpdateRow(id)] && events[..2][..1] == [AuditResolution(id)];
    assert [AuditResolution(id)][..0] == [] && Exec(s, []) == s;
    assert Exec(s, events[..2][..1]) == s.(journal := s.journal + [ResolutionAudited(id)]);
  }

  /** A start reads the latest unresolved hash into the cell, or nothing, and writes nothing. */
  lemma RestartReads(s: State, initWorks: bool)
    requires s.down
    ensures var n := Step(s, Restart(initWorks));
      && n.rows == s.rows && n.journal == s.journal && !n.down
      && (if initWorks && exists i :: 0 <= i < |s.rows| && !s.rows[i].resolved
          then exists r :: IsLatest(s.rows, r) && n.cell == Some(r.runningHash)
          else n.cell == None)
  {
    LatestExactly(s.rows);
  }

  // Audit first.

  /** Every recorded drift has its detection audited earlier. */
  ghost predicate AuditedFirst(journal: seq<Write>) {
    forall i :: 0 <= i < |journal| && journal[i].DriftRecorded? ==>
      exists j :: 0 <= j < i && journal[j] == DetectionAudited(journal[i].id)
  }

  ghost predicate RowsJournaled(s: State) {
    forall i :: 0 <= i < |s.rows| ==> DriftRecorded(s.rows[i].correlationId) in s.journal
  }

  lemma AppendAudit(journal: seq<Write>, w: Write)
    requires AuditedFirst(journal)
    requires w.DriftRecorded? ==> journal != [] && journal[|journal| - 1] == DetectionAudited(w.id)
    ensures AuditedFirst(journal + [w])
  {
    var after := journal + [w];
    forall i | 0 <= i < |after| && after[i].DriftRecorded?
      ensures exists j :: 0 <= j < i && after[j] == DetectionAudited(after[i].id)
    {
      if i < |journal| {
        var j :| 0 <= j < i && journal[j] == DetectionAudited(journal[i].id);
        assert after[j] == journal[j];
      } else {
        assert after[i - 1] == DetectionAudited(w.id);
      }
    }
  }

  lemma StepAudited(s: State, e: Event)
    requires AuditedFirst(s.journal)
    ensures AuditedFirst(Step(s, e).journal) && s.journal <= Step(s, e).journal
  {
    if !s.down {
      if e.Record? {
        AppendAudit(s.journal, DetectionAudited(e.event.correlationId));
        AppendAudit(s.journal + [DetectionAudited(e.event.correlationId)], DriftRecorded(e.event.correlationId));
      } else if e.AuditResolution? {
        AppendAudit(s.journal, ResolutionAudited(e.id));
      }
    }
  }

  lemma StepJournaled(s: State, e: Event)
    requires RowsJournaled(s)
    ensures RowsJournaled(Step(s, e))
  {
    var n := Step(s, e);
    forall i | 0 <= i < |n.rows| ensures DriftRecorded(n.rows[i].correlationId) in n.journal {
      if i < |s.rows| { assert DriftRecorded(s.rows[i].correlationId) in s.journal; }
    }
  }

  /** Whatever fails or crashes, every drift row has an earlier audit row with its correlation id. */
  lemma {:induction false} DriftIsAudited(events: seq<Event>)
    ensures AuditedFirst(Exec(Fresh, events).journal) && RowsJournaled(Exec(Fresh, events))
    decreases |events|
  {
    if events != [] {
      DriftIsAudited(events[..|events| - 1]);
      StepAudited(Exec(Fresh, events[..|events| - 1]), events[|events| - 1]);
      StepJournaled(Exec(Fresh, events[..|events| - 1]), events[|events| - 1]);
    }
  }

  // No duplicates.

  ghost predicate Increasing(rows: seq<Row>) {
    forall i, j :: 0 <= i < j < |rows| ==> rows[i].detectedAt < rows[j].detectedAt
  }

  /** Detection times grow from event to event. */
  ghost predicate Timely(s: State, e: Event) {
    e.Record? ==> forall i :: 0 <= i < |s.rows| ==> s.rows[i].detectedAt < e.event.detectedAt
  }

  ghost predicate AllTimely(s: State, events: seq<Event>)
    decreases |events|
  {
    events == [] || (AllTimely(s, events[..|events| - 1]) && Timely(Exec(s, events[..|events| - 1]), events[|events| - 1]))
  }

  /** The cell holds the hash of the latest unresolved row. */
  ghost predicate Synced(s: State) {
    !s.down ==> s.cell == LatestHash(s.rows)
  }

  /** Nothing in the event resolves a row, clears the cell, or starts without reading storage. */
  predicate WithinEpoch(e: Event) {
    !e.UpdateRow? && !e.ResetCell? && e != Restart(false)
  }

  lemma {:induction false} LatestIsRow(rows: seq<Row>)
    ensures LatestUnresolved(rows).Some? ==> LatestUnresolved(rows).value in rows
  {
    if rows != [] { LatestIsRow(rows[..|rows| - 1]); }
  }

  lemma AppendIsLatest(rows: seq<Row>, e: DriftEvent)
    requires forall i :: 0 <= i < |rows| ==> rows[i].detectedAt < e.detectedAt
    ensures LatestHash(rows + [NewRow(e)]) == Some(e.runningHash)
  {
    LatestIsRow(rows);
    assert (rows + [NewRow(e)])[..|rows|] == rows;
  }

  lemma StepSynced(s: State, e: Event)
    requires Synced(s) && WithinEpoch(e) && Timely(s, e)
    ensures Synced(Step(s, e))
  {
    if e.Record? { AppendIsLatest(s.rows, e.event); }
  }

  /** The event writes a drift row. */
  predicate Appends(s: State, e: Event) {
    |Step(s, e).rows| > |s.rows|
  }

  /** As long as nothing is resolved, a new drift row never repeats the hash of the latest unresolved row. */
  lemma {:induction false} NoDuplicateInEpoch(s: State, events: seq<Event>, e: Event)
    requires Synced(s) && AllTimely(s, events) && forall x :: x in events ==> WithinEpoch(x)
    ensures Synced(Exec(s, events))
    ensures Appends(Exec(s, events), e) ==> e.Record? && LatestHash(Exec(s, events).rows) != Some(e.event.runningHash)
    decreases |events|
  {
    if events != [] {
      var init, last := events[..|events| - 1], events[|events| - 1];
      assert forall x :: x in init ==> x in events;
      assert last in events;
      NoDuplicateInEpoch(s, init, last);
      StepSynced(Exec(s, init), last);
    }
  }

  /** The first row after a resolution, or after a start that read storage, begins such an epoch. */
  lemma EpochBegins(s: State, e: Event)
    requires Timely(s, e)
    ensures Appends(s, e) ==> Synced(Step(s, e))
    ensures s.down && e == Restart(true) ==> Synced(Step(s, e))
  {
    if e.Record? { AppendIsLatest(s.rows, e.event); }
  }

  /** Recording without failure leaves the drift as the latest unresolved row, whether it is new or known. */
  lemma RecordedIsLatest(s: State, e: DriftEvent)
    requires Synced(s) && !s.down && Timely(s, Record(e, Works))
    ensures LatestHash(Step(s, Record(e, Works)).rows) == Some(e.runningHash)
  {
    AppendIsLatest(s.rows, e);
  }

  /** Clearing the cell, or a start that could not read storage, lets the same hash in once more. */
  lemma UnsyncedRepeats(e: DriftEvent, f: DriftEvent, forget: seq<Event>)
    requires f.runningHash == e.runningHash && e.detectedAt < f.detectedAt
    requires forget == [ResetCell] || forget == [Crash, Restart(false)]
    ensures var s := Exec(Fresh, [Record(e, Works)] + forget);
      LatestHash(s.rows) == Some(f.runningHash) && Appends(s, Record(f, Works))
  {
    var first := Step(Fresh, Record(e, Works));
    assert Exec(Fresh, []) == Fresh;
    assert [Record(e, Works)][..0] == [];
    assert Exec(Fresh, [Record(e, Works)]) == first;
    AppendIsLatest([], e);
    assert [] + [NewRow(e)] == first.rows;
    var events := [Record(e, Works)] + forget;
    if forget == [ResetCell] {
      assert events[..1] == [Record(e, Works)];
    } else {
      assert events[..2][..1] == [Record(e, Works)];
      assert Exec(Fresh, events[..2]) == first.(cell := None, down := true);
    }
  }

  // The rows of an epoch.

  /** Hashes with adjacent repetitions removed, `prev` being the one before. */
  function Dedup(prev: Option<string>, hashes: seq<string>): seq<string>
    decreases |hashes|
  {
    if hashes == [] then []
    else if prev == Some(hashes[0]) then Dedup(prev, hashes[1..])
    else [hashes[0]] + Dedup(Some(hashes[0]), hashes[1..])
  }

  function Hashes(rows: seq<Row>): seq<string> {
    seq(|rows|, i requires 0 <= i < |rows| => rows[i].runningHash)
  }

  predicate Lands(luck: RecordLuck) {
    luck.Works? || luck.CrashAfterDrift?
  }

  /** The hashes of the detections that reached the drift table, or would have. */
  function Landed(s: State, events: seq<Event>): seq<string>
    decreases |events|
  {
    if events == [] then []
    else
      var init, last := events[..|events| - 1], events[|events| - 1];
      Landed(s, init) +
      if last.Record? && Lands(last.luck) && !Exec(s, init).down then [last.event.runningHash] else []
  }

  function LastOr(prev: Option<string>, hashes: seq<string>): Option<string> {
    if hashes == [] then prev else Some(hashes[|hashes| - 1])
  }

  lemma {:induction false} DedupAppend(prev: Option<string>, hashes: seq<string>, h: string)
    ensures LastOr(prev, Dedup(prev, hashes)) == LastOr(prev, hashes)
    ensures Dedup(prev, hashes + [h]) == Dedup(prev, hashes) + if LastOr(prev, hashes) == Some(h) then [] else [h]
    decreases |hashes|
  {
    if hashes == [] {
      assert [] + [h] == [h] && [h][1..] == [];
    } else {
      assert (hashes + [h])[1..] == hashes[1..] + [h];
      var next := if prev == Some(hashes[0]) then prev else Some(hashes[0]);
      DedupAppend(next, hashes[1..], h);
    }
  }

  /**
   * Within an epoch the new drift rows are exactly the landed detections with adjacent repetitions
   * removed, through all failed writes, crashes and restarts.
   */
  lemma {:induction false} EpochIsDedup(s: State, events: seq<Event>)
    requires !s.down && Synced(s) && AllTimely(s, events) && forall x :: x in events ==> WithinEpoch(x)
    ensures var n := Exec(s, events);
      Hashes(n.rows) == Hashes(s.rows) + Dedup(LatestHash(s.rows), Landed(s, events))
      && LatestHash(n.rows) == LastOr(LatestHash(s.rows), Landed(s, events))
    decreases |events|
  {
    var prev := LatestHash(s.rows);
    if events == [] {
      assert Hashes(s.rows) + [] == Hashes(s.rows);
    } else {
      var init, last := events[..|events| - 1], events[|events| - 1];
      assert forall x :: x in init ==> x in events;
      assert last in events;
      EpochIsDedup(s, init);
      NoDuplicateInEpoch(s, init, last);
      EpochStep(s, init, last);
    }
  }

  lemma EpochStep(s: State, init: seq<Event>, last: Event)
    requires WithinEpoch(last) && Synced(Exec(s, init)) && Timely(Exec(s, init), last)
    requires var m := Exec(s, init);
      Hashes(m.rows) == Hashes(s.rows) + Dedup(LatestHash(s.rows), Landed(s, init))
      && LatestHash(m.rows) == LastOr(LatestHash(s.rows), Landed(s, init))
    ensures var n := Step(Exec(s, init), last);
      Hashes(n.rows) == Hashes(s.rows) + Dedup(LatestHash(s.rows), Landed(s, init + [last]))
      && LatestHash(n.rows) == LastOr(LatestHash(s.rows), Landed(s, init + [last]))
  {
    var prev, m := LatestHash(s.rows), Exec(s, init);
    assert (init + [last])[..|init|] == init;
    if last.Record? && Lands(last.luck) && !m.down {
      var h := last.event.runningHash;
      assert Landed(s, init + [last]) == Landed(s, init) + [h];
      DedupAppend(prev, Landed(s, init), h);
      LandedStep(m, last.event, last.luck);
      Joined(Hashes(s.rows), Dedup(prev, Landed(s, init)), h);
    } else {
      assert Landed(s, init + [last]) == Landed(s, init) + [];
      assert Landed(s, init) + [] == Landed(s, init);
      assert Step(m, last).rows == m.rows;
    }
  }

  /** A detection that lands adds its row, unless its hash is the latest already. */
  lemma LandedRows(m: State, e: DriftEvent, luck: RecordLuck)
    requires !m.down && Synced(m) && Lands(luck)
    ensures Step(m, Record(e, luck)).rows == if LatestHash(m.rows) == Some(e.runningHash) then m.rows else m.rows + [NewRow(e)]
  {
  }

  lemma HashesAppend(rows: seq<Row>, r: Row)
    ensures Hashes(rows + [r]) == Hashes(rows) + [r.runningHash]
  {
  }

  lemma LandedStep(m: State, e: DriftEvent, luck: RecordLuck)
    requires !m.down && Synced(m) && Timely(m, Record(e, luck)) && Lands(luck)
    ensures var n := Step(m, Record(e, luck));
      && Hashes(n.rows) == Hashes(m.rows) + (if LatestHash(m.rows) == Some(e.runningHash) then [] else [e.runningHash])
      && LatestHash(n.rows) == Some(e.runningHash)
  {
    LandedRows(m, e, luck);
    if LatestHash(m.rows) == Some(e.runningHash) {
      assert Hashes(m.rows) + [] == Hashes(m.rows);
    } else {
      HashesAppend(m.rows, NewRow(e));
      AppendIsLatest(m.rows, e);
    }
  }

  lemma Joined(a: seq<string>, b: seq<string>, h: string)
    ensures a + b + [h] == a + (b + [h]) && a + b + [] == a + (b + [])
  {
  }

  /** The recorder: the memory cell and the two tables it writes. */
  class DriftRecorder {
    var cell: Option<string>
    var rows: seq<Row>
    var journal: seq<Write>

    constructor ()
      ensures Now() == Fresh
    {
      cell, rows, journal := None, [], [];
    }

    ghost function Now(): State
      reads this
    {
      State(cell, rows, journal, false)
    }

    method RecordDrift(event: DriftEvent, auditWorks: bool, driftWorks: bool) returns (ok: bool)
      modifies this
      ensures Now() == RecordStep(old(Now()), event, if !auditWorks then AuditFails else if !driftWorks then DriftFails else Works)
      ensures ok <==> old(cell) == Some(event.runningHash) || (auditWorks && driftWorks)
      ensures ok ==> cell == Some(event.runningHash)
    {
      if cell == Some(event.runningHash) {
        return true;
      }
      if !auditWorks {
        return false;
      }
      journal := journal + [DetectionAudited(event.correlationId)];
      if !driftWorks {
        return false;
      }
      rows := rows + [NewRow(event)];
      journal := journal + [DriftRecorded(event.correlationId)];
      cell := Some(event.runningHash);
      ok := true;
    }

    method MarkResolved(id: string, auditWorks: bool, updateWorks: bool) returns (ok: bool)
      modifies this
      ensures ok <==> auditWorks && updateWorks
      ensures Now() == Exec(old(Now()),
        if !auditWorks then [] else if !updateWorks then [AuditResolution(id)]
        else [AuditResolution(id), UpdateRow(id), ResetCell])
    {
      ghost var s := Now();
      assert Exec(s, []) == s;
      if !auditWorks {
        return false;
      }
      journal := journal + [ResolutionAudited(id)];
      assert [AuditResolution(id)][..0] == [] && Exec(s, [AuditResolution(id)]) == Now();
      if !updateWorks {
        return false;
      }
      rows := Resolve(rows, id);
      assert [AuditResolution(id), UpdateRow(id)][..1] == [AuditResolution(id)];
      assert Exec(s, [AuditResolution(id), UpdateRow(id)]) == Now();
      cell := None;
      assert [AuditResolution(id), UpdateRow(id), ResetCell][..2] == [AuditResolution(id), UpdateRow(id)];
      ok := true;
    }

    /** On startup, with an empty cell, the cell takes the hash of the latest unresolved row. */
    method InitFromStorage(works: bool)
      requires cell == None
      modifies this`cell
      ensures Now() == Step(old(Now()).(down := true), Restart(works))
    {
      if works {
        var existing := LatestUnresolved(rows);
        if existing.Some? {
          cell := Some(existing.value.runningHash);
        }
      }
    }
  }
}
