/**
 * Processes racing to apply snapshots: the advisory-lock row, the reaping of stale rows, and the
 * steps of one apply under the lock. One caddy instance; every step is one database statement, one
 * transaction, or one call to Caddy, so any interleaving of tasks is a sequence of events.
 */
module ApplyProtocol {
  import opened Wrappers

  type Pid = int
  type TaskId = nat
  type SnapshotId = string

  datatype SnapshotRow = SnapshotRow(id: SnapshotId, version: int)

  datatype CasError = OptimisticConflict(observed: int, expected: int) | Integrity

  datatype Job = Job(snapshot: SnapshotId, version: int, expected: int)

  datatype Outcome =
    | AlreadyHeld(pid: Pid)
    | StorageFailed
    | Conflicted(stale: int, current: int)
    | Rejected
    | CasFailed(e: CasError)
    | Succeeded(snapshot: SnapshotId, version: int)

  datatype Stage = ReadVersion | Prepare | Load | Verify | Advance

  datatype Pc =
    | TryInsert
    | LookUp
    | Probe(seen: Pid)
    | Reap(stale: Pid)
    | Retry
    | LookAgain
    | Applying(stage: Stage)
    | Releasing(result: Outcome)
    | Unwinding
    | Returned(outcome: Option<Outcome>)

  datatype Task = Task(pc: Pc, job: Job)

  /** Which process each task runs in, and which processes can be seen alive from which. */
  datatype Processes = Processes(owner: map<TaskId, Pid>, sees: (Pid, Pid) -> bool)

  datatype State = State(
    alive: set<Pid>,
    tasks: map<TaskId, Task>,
    row: Option<Pid>,
    applied: Option<int>,
    snapshots: set<SnapshotRow>,
    running: Option<SnapshotId>)

  /** A statement works, fails without effect, or takes effect and is reported as failed. */
  datatype Luck = Works | FailsBefore | FailsAfter

  datatype Event =
    | Start(t: TaskId, job: Job)
    | Run(t: TaskId, luck: Luck)
    | Panic(t: TaskId)
    | Crash(pid: Pid)
    | InsertSnapshot(snapshot: SnapshotRow)

  // The statements.

  function InsertRow(row: Option<Pid>, pid: Pid): (Option<Pid>, bool) {
    if row.None? then (Some(pid), true) else (row, false)
  }

  function DeleteRow(row: Option<Pid>, pid: Pid): Option<Pid> {
    if row == Some(pid) then None else row
  }

  /** A missing instance row reads as version 0. */
  function CurrentVersion(applied: Option<int>): int {
    if applied.Some? then applied.value else 0
  }

  function CasAdvance(applied: Option<int>, snapshots: set<SnapshotRow>, expected: int, id: SnapshotId)
    : (Option<int>, Result<int, CasError>)
  {
    if CurrentVersion(applied) != expected then
      (applied, Err(OptimisticConflict(CurrentVersion(applied), expected)))
    else if SnapshotRow(id, expected + 1) !in snapshots then (applied, Err(Integrity))
    else if applied.None? then (applied, Err(Integrity))
    else (Some(expected + 1), Ok(expected + 1))
  }

  // One step of a task.

  function WithTask(s: State, t: TaskId, pc: Pc): State
    requires t in s.tasks
  {
    s.(tasks := s.tasks[t := s.tasks[t].(pc := pc)])
  }

  function Failing(o: Outcome): Pc {
    Returned(Some(o))
  }

  /** The insert of `try_insert_lock`, then `won` or `lost`. */
  function InsertStep(s: State, t: TaskId, pid: Pid, luck: Luck, lost: Pc): State
    requires t in s.tasks
  {
    var (row, won) := InsertRow(s.row, pid);
    if luck.FailsBefore? then WithTask(s, t, Failing(StorageFailed))
    else if !won then WithTask(s, t, lost)
    else WithTask(s.(row := row), t, if luck.Works? then Applying(ReadVersion) else Failing(StorageFailed))
  }

  function ProbeStep(c: Processes, s: State, t: TaskId, pid: Pid, seen: Pid): State
    requires t in s.tasks
  {
    WithTask(s, t, if seen in s.alive && c.sees(pid, seen) then Failing(AlreadyHeld(seen)) else Reap(seen))
  }

  function LookStep(s: State, t: TaskId, luck: Luck): State
    requires t in s.tasks
  {
    WithTask(s, t,
      if !luck.Works? then Failing(StorageFailed) else if s.row.None? then Retry else Probe(s.row.value))
  }

  function LookAgainStep(s: State, t: TaskId, luck: Luck): State
    requires t in s.tasks
  {
    WithTask(s, t, Failing(
      if !luck.Works? then StorageFailed else AlreadyHeld(if s.row.Some? then s.row.value else -1)))
  }

  function ReapStep(s: State, t: TaskId, stale: Pid, luck: Luck): State
    requires t in s.tasks
  {
    if luck.FailsBefore? then WithTask(s, t, Failing(StorageFailed))
    else WithTask(s.(row := DeleteRow(s.row, stale)), t, if luck.Works? then Retry else Failing(StorageFailed))
  }

  /** `release`, or the detached delete after a panic: errors are ignored. */
  function DeleteStep(s: State, t: TaskId, pid: Pid, luck: Luck, next: Pc): State
    requires t in s.tasks
  {
    WithTask(if luck.FailsBefore? then s else s.(row := DeleteRow(s.row, pid)), t, next)
  }

  function ApplyStep(s: State, t: TaskId, stage: Stage, luck: Luck): State
    requires t in s.tasks
  {
    var job := s.tasks[t].job;
    match stage
    case ReadVersion =>
      WithTask(s, t,
        if !luck.Works? then Releasing(StorageFailed)
        else if CurrentVersion(s.applied) != job.expected then
          Releasing(Conflicted(job.expected, CurrentVersion(s.applied)))
        else Applying(Prepare))
    case Prepare => WithTask(s, t, if luck.Works? then Applying(Load) else Releasing(Rejected))
    case Load =>
      var loaded := if luck.FailsBefore? then s else s.(running := Some(job.snapshot));
      WithTask(loaded, t, if luck.Works? then Applying(Verify) else Releasing(Rejected))
    case Verify => WithTask(s, t, if luck.Works? then Applying(Advance) else Releasing(Rejected))
    case Advance =>
      if luck.FailsBefore? then WithTask(s, t, Releasing(StorageFailed))
      else
        var (applied, r) := CasAdvance(s.applied, s.snapshots, job.expected, job.snapshot);
        WithTask(s.(applied := applied), t, Releasing(
          match r
          case Err(e) => CasFailed(e)
          case Ok(_) => if luck.Works? then Succeeded(job.snapshot, job.version) else StorageFailed))
  }

  function RunStep(c: Processes, s: State, t: TaskId, luck: Luck): State
    requires t in s.tasks && t in c.owner
  {
    var pid := c.owner[t];
    match s.tasks[t].pc
    case TryInsert => InsertStep(s, t, pid, luck, LookUp)
    case LookUp => LookStep(s, t, luck)
    case Probe(seen) => ProbeStep(c, s, t, pid, seen)
    case Reap(stale) => ReapStep(s, t, stale, luck)
    case Retry => InsertStep(s, t, pid, luck, LookAgain)
    case LookAgain => LookAgainStep(s, t, luck)
    case Applying(stage) => ApplyStep(s, t, stage, luck)
    case Releasing(result) => DeleteStep(s, t, pid, luck, Returned(Some(result)))
    case Unwinding => DeleteStep(s, t, pid, luck, Returned(None))
    case Returned(_) => s
  }

  predicate Live(c: Processes, s: State, t: TaskId) {
    t in s.tasks && t in c.owner && c.owner[t] in s.alive
  }

  /** Snapshot versions only grow: the gate of `insert_snapshot`. */
  predicate Insertable(s: State, r: SnapshotRow) {
    forall x :: x in s.snapshots ==> x.version < r.version && x.id != r.id
  }

  /** What an event does; an event that is not possible does nothing. */
  function Step(c: Processes, s: State, e: Event): State {
    match e
    case Start(t, job) =>
      if Live(c, s, t) && s.tasks[t].pc.Returned? then s.(tasks := s.tasks[t := Task(TryInsert, job)]) else s
    case Run(t, luck) => if Live(c, s, t) then RunStep(c, s, t, luck) else s
    case Panic(t) =>
      if Live(c, s, t) && s.tasks[t].pc.Applying? then WithTask(s, t, Unwinding) else s
    case Crash(pid) => s.(alive := s.alive - {pid})
    case InsertSnapshot(r) => if Insertable(s, r) then s.(snapshots := s.snapshots + {r}) else s
  }

  /** The state after a sequence of events. */
  function Exec(c: Processes, s: State, events: seq<Event>): State
    decreases |events|
  {
    if events == [] then s
    else Step(c, Exec(c, s, events[..|events| - 1]), events[|events| - 1])
  }

  /** All processes run, no task is under way, and the applied pointer names 0 or a stored snapshot. */
  ghost predicate Init(c: Processes, s: State) {
    && c.owner.Keys == s.tasks.Keys
    && (forall t :: t in s.tasks ==> s.tasks[t].pc.Returned? && c.owner[t] in s.alive)
    && PointerNamesSnapshot(s)
    && OneRowPerVersion(s)
  }

  ghost predicate PointerNamesSnapshot(s: State) {
    CurrentVersion(s.applied) == 0 || exists id :: SnapshotRow(id, CurrentVersion(s.applied)) in s.snapshots
  }

  ghost predicate OneRowPerVersion(s: State) {
    forall x, y :: x in s.snapshots && y in s.snapshots && (x.version == y.version || x.id == y.id) ==> x == y
  }

  /** The task is between taking the lock and giving it back. */
  predicate Holds(s: State, t: TaskId) {
    t in s.tasks && (s.tasks[t].pc.Applying? || s.tasks[t].pc.Releasing?)
  }
}

/** The same statements as the database executes them, one transaction a call. */
module ApplyStore {
  import opened Wrappers
  import opened ApplyProtocol

  class Store {
    var row: Option<Pid>
    var applied: Option<int>
    var snapshots: set<SnapshotRow>

    constructor (applied: Option<int>)
      ensures row == None && this.applied == applied && snapshots == {}
    {
      row, this.applied, snapshots := None, applied, {};
    }

    method TryInsertLock(pid: Pid) returns (inserted: bool)
      modifies this`row
      ensures (row, inserted) == InsertRow(old(row), pid)
      ensures inserted <==> old(row) == None
      ensures row == if inserted then Some(pid) else old(row)
    {
      inserted := row.None?;
      if inserted {
        row := Some(pid);
      }
    }

    method DeleteLock(pid: Pid)
      modifies this`row
      ensures row == DeleteRow(old(row), pid)
      ensures row != Some(pid)
      ensures old(row) != Some(pid) ==> row == old(row)
    {
      if row == Some(pid) {
        row := None;
      }
    }

    /**
     * `acquire_apply_lock` when nobody interferes between its statements: a row held by a process
     * that is seen alive is left alone and reported, anything else is replaced.
     */
    method AcquireApplyLock(pid: Pid, processAlive: Pid -> bool) returns (r: Result<(), Pid>)
      modifies this`row
      ensures r.Ok? <==> old(row).None? || !processAlive(old(row).value)
      ensures r.Ok? ==> row == Some(pid)
      ensures r.Err? ==> row == old(row) == Some(r.error)
    {
      var first := TryInsertLock(pid);
      if first {
        return Ok(());
      }
      var stale := row.value;
      if processAlive(stale) {
        return Err(stale);
      }
      DeleteLock(stale);
      var second := TryInsertLock(pid);
      assert second;
      r := Ok(());
    }

    method AdvanceConfigVersionIfEq(expected: int, id: SnapshotId) returns (r: Result<int, CasError>)
      modifies this`applied
      ensures (applied, r) == CasAdvance(old(applied), snapshots, expected, id)
      ensures r.Ok? <==> CurrentVersion(old(applied)) == expected && old(applied).Some? && SnapshotRow(id, expected + 1) in snapshots
      ensures CurrentVersion(old(applied)) != expected ==> r == Err(OptimisticConflict(CurrentVersion(old(applied)), expected))
      ensures r.Err? && CurrentVersion(old(applied)) == expected ==> r == Err(Integrity)
      ensures if r.Ok? then applied == Some(r.value) && r.value == CurrentVersion(old(applied)) + 1 else applied == old(applied)
    {
      var observed := if applied.Some? then applied.value else 0;
      if observed != expected {
        return Err(OptimisticConflict(observed, expected));
      }
      if SnapshotRow(id, expected + 1) !in snapshots {
        return Err(Integrity);
      }
      if applied.None? {
        return Err(Integrity);
      }
      applied := Some(expected + 1);
      r := Ok(expected + 1);
    }
  }
}
