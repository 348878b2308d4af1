/** What the apply protocol achieves: the lock comes back, an undisturbed apply succeeds, and every other end is told. */
module LockProgress {
  import opened Wrappers
  import opened ApplyProtocol
  import opened LockSafety
  import opened PointerSafety

  // Giving the lock back.

  /** Only the position of `t` has changed. */
  predicate Moved(s: State, n: State, t: TaskId, pc: Pc)
    requires t in s.tasks
  {
    n.tasks == s.tasks[t := Task(pc, s.tasks[t].job)]
  }

  /** The position a delete leads to: the result of the apply, or none after a panic. */
  function AfterRelease(pc: Pc): Pc {
    if pc.Releasing? then Returned(Some(pc.result)) else Returned(None)
  }

  /**
   * In every run, a delete that takes effect, at the end of an apply or after a panic, leaves no row
   * behind, whatever the result was; nothing else changes.
   */
  lemma ReleaseGivesBack(c: Processes, s: State, events: seq<Event>, t: TaskId, luck: Luck)
    requires Init(c, s) && AllVisible(c) && !luck.FailsBefore?
    requires var m := Exec(c, s, events); Live(c, m, t) && (m.tasks[t].pc.Releasing? || m.tasks[t].pc.Unwinding?)
    ensures var m := Exec(c, s, events); var n := Step(c, m, Run(t, luck));
      && n.row == None && Moved(m, n, t, AfterRelease(m.tasks[t].pc))
      && n.applied == m.applied && n.running == m.running && n.snapshots == m.snapshots && n.alive == m.alive
  {
    ExecInv(c, s, events);
    assert HasRow(Exec(c, s, events), t);
  }

  // Events that are not steps of a task.

  /** A task starts only when it is idle in a live process; what it was told before is gone. */
  lemma StartExactly(c: Processes, s: State, t: TaskId, job: Job)
    ensures var n := Step(c, s, Start(t, job));
      if t in s.tasks && t in c.owner && c.owner[t] in s.alive && s.tasks[t].pc.Returned? then
        n == s.(tasks := s.tasks[t := Task(TryInsert, job)])
      else n == s
  {
  }

  /** A crash ends one process and leaves everything in the database, the row of its lock included. */
  lemma CrashExactly(c: Processes, s: State, p: Pid)
    ensures var n := Step(c, s, Crash(p));
      n == s.(alive := n.alive) && forall q :: q in n.alive <==> q in s.alive && q != p
  {
  }

  /** A panic in the middle of an apply, and the delete that follows: the lock comes back without a result. */
  lemma PanicGivesBack(c: Processes, s: State, t: TaskId)
    requires Live(c, s, t) && s.tasks[t].pc.Applying? && s.row == Some(c.owner[t])
    ensures var n := Exec(c, s, [Panic(t), Run(t, Works)]);
      && n.row == None && Moved(s, n, t, Returned(None))
      && n.applied == s.applied && n.running == s.running && n.snapshots == s.snapshots
  {
    ExecThree(c, s, Panic(t), Run(t, Works), Run(t, Works));
  }

  // An apply that nobody disturbs.

  /** `t` starts the job, and then makes `k` steps that all work. */
  function Undisturbed(t: TaskId, job: Job, k: nat): seq<Event> {
    [Start(t, job)] + seq(k, _ => Run(t, Works))
  }

  lemma {:induction false} OneStepMore(c: Processes, s: State, t: TaskId, job: Job, k: nat)
    ensures Exec(c, s, Undisturbed(t, job, k + 1)) == Step(c, Exec(c, s, Undisturbed(t, job, k)), Run(t, Works))
    ensures Exec(c, s, Undisturbed(t, job, 0)) == Step(c, s, Start(t, job))
  {
    assert Undisturbed(t, job, k + 1) == Undisturbed(t, job, k) + [Run(t, Works)];
    ExecAppend(c, s, Undisturbed(t, job, k), Run(t, Works));
    assert Undisturbed(t, job, 0) == [] + [Start(t, job)];
    ExecAppend(c, s, [], Start(t, job));
  }

  /** A live task that may start, a free lock, and the version it expects in the table. */
  predicate Ready(c: Processes, s: State, t: TaskId, job: Job) {
    Live(c, s, t) && s.tasks[t].pc.Returned? && s.row == None && CurrentVersion(s.applied) == job.expected
  }

  /** The instance is known, and the snapshot stored with the next version. */
  predicate Stored(s: State, job: Job) {
    s.applied.Some? && SnapshotRow(job.snapshot, job.expected + 1) in s.snapshots
  }

  /** At the given stage of an undisturbed apply, the row is taken, and Caddy runs the snapshot once it is loaded. */
  predicate AtStage(c: Processes, s: State, n: State, t: TaskId, job: Job, stage: Stage)
    requires t in c.owner
  {
    n == s.(
      tasks := s.tasks[t := Task(Applying(stage), job)],
      row := Some(c.owner[t]),
      running := if stage.Verify? || stage.Advance? then Some(job.snapshot) else s.running)
  }

  /** The stage before, for those that have one. */
  function Before(stage: Stage): Stage {
    match stage
    case ReadVersion => ReadVersion
    case Prepare => ReadVersion
    case Load => Prepare
    case Verify => Load
    case Advance => Verify
  }

  lemma StageWorks(c: Processes, s: State, n: State, t: TaskId, job: Job, stage: Stage)
    requires Ready(c, s, t, job) && !stage.ReadVersion? && AtStage(c, s, n, t, job, Before(stage))
    ensures AtStage(c, s, Step(c, n, Run(t, Works)), t, job, stage)
  {
    assert Live(c, n, t);
  }

  lemma {:induction false} ReachesStage(c: Processes, s: State, t: TaskId, job: Job, stage: Stage)
    requires Ready(c, s, t, job)
    ensures AtStage(c, s, Exec(c, s, Undisturbed(t, job, StageIndex(stage) + 1)), t, job, stage)
    decreases StageIndex(stage)
  {
    if stage.ReadVersion? {
      TakesLock(c, s, t, job);
    } else {
      ReachesStage(c, s, t, job, Before(stage));
      OneStepMore(c, s, t, job, StageIndex(stage));
      StageWorks(c, s, Exec(c, s, Undisturbed(t, job, StageIndex(stage))), t, job, stage);
    }
  }

  /** With no row in the table, a task that starts gets the lock with its first statement. */
  lemma TakesLock(c: Processes, s: State, t: TaskId, job: Job)
    requires Live(c, s, t) && s.tasks[t].pc.Returned? && s.row == None
    ensures AtStage(c, s, Exec(c, s, Undisturbed(t, job, 1)), t, job, ReadVersion)
  {
    OneStepMore(c, s, t, job, 0);
  }

  /** The apply ended with `o`, the row is gone, and the pointer and Caddy are as given. */
  predicate Ended(s: State, n: State, t: TaskId, job: Job, o: Outcome, applied: Option<int>, running: Option<SnapshotId>) {
    n == s.(tasks := s.tasks[t := Task(Returned(Some(o)), job)], row := None, applied := applied, running := running)
  }

  lemma AdvanceThenRelease(c: Processes, s: State, n: State, t: TaskId, job: Job)
    requires Ready(c, s, t, job) && AtStage(c, s, n, t, job, Advance)
    ensures var end := Step(c, Step(c, n, Run(t, Works)), Run(t, Works));
      if Stored(s, job) then
        Ended(s, end, t, job, Succeeded(job.snapshot, job.version), Some(job.expected + 1), Some(job.snapshot))
      else
        Ended(s, end, t, job, CasFailed(Integrity), s.applied, Some(job.snapshot))
  {
    assert Live(c, n, t);
  }

  lemma LastTwoSteps(c: Processes, s: State, t: TaskId, job: Job)
    requires Ready(c, s, t, job)
    ensures var n := Exec(c, s, Undisturbed(t, job, 5));
      AtStage(c, s, n, t, job, Advance)
      && Exec(c, s, Undisturbed(t, job, 7)) == Step(c, Step(c, n, Run(t, Works)), Run(t, Works))
  {
    ReachesStage(c, s, t, job, Advance);
    OneStepMore(c, s, t, job, 5);
    OneStepMore(c, s, t, job, 6);
  }

  /**
   * An apply that starts alone, with the lock free, its version current and its snapshot stored,
   * ends with success: the pointer is one higher, Caddy runs the snapshot, and the lock is free again.
   */
  lemma LoneApplySucceeds(c: Processes, s: State, t: TaskId, job: Job)
    requires Ready(c, s, t, job) && Stored(s, job)
    ensures Ended(s, Exec(c, s, Undisturbed(t, job, 7)), t, job,
      Succeeded(job.snapshot, job.version), Some(CurrentVersion(s.applied) + 1), Some(job.snapshot))
  {
    LastTwoSteps(c, s, t, job);
    AdvanceThenRelease(c, s, Exec(c, s, Undisturbed(t, job, 5)), t, job);
  }

  /** After it, another task that starts gets the lock. */
  lemma NextGetsLock(c: Processes, s: State, t: TaskId, job: Job, u: TaskId, next: Job)
    requires Ready(c, s, t, job) && Stored(s, job) && Live(c, s, u) && s.tasks[u].pc.Returned?
    ensures var n := Exec(c, s, Undisturbed(t, job, 7) + Undisturbed(u, next, 1));
      Holds(n, u) && n.row == Some(c.owner[u])
  {
    LoneApplySucceeds(c, s, t, job);
    ExecConcat(c, s, Undisturbed(t, job, 7), Undisturbed(u, next, 1));
    TakesLock(c, Exec(c, s, Undisturbed(t, job, 7)), u, next);
  }

  /** A new snapshot one version above the pointer, inserted first, makes the apply succeed. */
  lemma InsertThenApply(c: Processes, s: State, t: TaskId, job: Job)
    requires Ready(c, s, t, job) && s.applied.Some?
    requires forall x :: x in s.snapshots ==> x.version <= job.expected && x.id != job.snapshot
    ensures var r := SnapshotRow(job.snapshot, job.expected + 1); var n := Exec(c, s, [InsertSnapshot(r)] + Undisturbed(t, job, 7));
      && t in n.tasks && n.tasks[t].pc == Returned(Some(Succeeded(job.snapshot, job.version)))
      && n.applied == Some(job.expected + 1) && n.running == Some(job.snapshot) && n.row == None
      && n.snapshots == s.snapshots + {r}
  {
    var r := SnapshotRow(job.snapshot, job.expected + 1);
    ExecConcat(c, s, [InsertSnapshot(r)], Undisturbed(t, job, 7));
    ExecThree(c, s, InsertSnapshot(r), InsertSnapshot(r), InsertSnapshot(r));
    LoneApplySucceeds(c, s.(snapshots := s.snapshots + {r}), t, job);
  }

  predicate Newest(s: State, r: SnapshotRow) {
    forall y :: y in s.snapshots ==> y.version < r.version && y.id != r.id
  }

  /** Inserting stores the row exactly when it is newer than all others, and changes nothing else. */
  lemma InsertStores(c: Processes, s: State, r: SnapshotRow)
    ensures var n := Step(c, s, InsertSnapshot(r));
      && n == s.(snapshots := n.snapshots)
      && (forall x :: x in n.snapshots <==> (x in s.snapshots || (x == r && Newest(s, r))))
  {
  }

  // An apply that fails.

  /** `t` reaches the stage undisturbed, meets the given luck there, and then releases. */
  function FailingAt(t: TaskId, job: Job, stage: Stage, luck: Luck): seq<Event> {
    Undisturbed(t, job, StageIndex(stage) + 1) + [Run(t, luck), Run(t, Works)]
  }

  lemma LastTwo(c: Processes, s: State, t: TaskId, job: Job, stage: Stage, luck: Luck)
    requires Ready(c, s, t, job)
    ensures var m := Exec(c, s, Undisturbed(t, job, StageIndex(stage) + 1));
      && AtStage(c, s, m, t, job, stage)
      && Exec(c, s, FailingAt(t, job, stage, luck)) == Step(c, Step(c, m, Run(t, luck)), Run(t, Works))
  {
    ReachesStage(c, s, t, job, stage);
    var way := Undisturbed(t, job, StageIndex(stage) + 1);
    ExecConcat(c, s, way, [Run(t, luck), Run(t, Works)]);
    ExecThree(c, Exec(c, s, way), Run(t, luck), Run(t, Works), Run(t, Works));
  }

  /** Whatever fails, the lock comes back, the caller is told, and only what took effect before stays. */
  lemma FailedApplyEnds(c: Processes, s: State, t: TaskId, job: Job, stage: Stage, luck: Luck)
    requires Ready(c, s, t, job) && !luck.Works?
    ensures var n := Exec(c, s, FailingAt(t, job, stage, luck));
      match stage
      case ReadVersion => Ended(s, n, t, job, StorageFailed, s.applied, s.running)
      case Prepare => Ended(s, n, t, job, Rejected, s.applied, s.running)
      case Load => Ended(s, n, t, job, Rejected, s.applied, if luck.FailsAfter? then Some(job.snapshot) else s.running)
      case Verify => Ended(s, n, t, job, Rejected, s.applied, Some(job.snapshot))
      case Advance =>
        if luck.FailsAfter? && !Stored(s, job) then Ended(s, n, t, job, CasFailed(Integrity), s.applied, Some(job.snapshot))
        else
          Ended(s, n, t, job, StorageFailed,
            if luck.FailsAfter? then Some(job.expected + 1) else s.applied, Some(job.snapshot))
  {
    LastTwo(c, s, t, job, stage, luck);
  }

  /** A snapshot that is not stored with the next version is loaded, but the pointer stays. */
  lemma UnstoredSnapshotFails(c: Processes, s: State, t: TaskId, job: Job)
    requires Ready(c, s, t, job) && !Stored(s, job)
    ensures Ended(s, Exec(c, s, Undisturbed(t, job, 7)), t, job, CasFailed(Integrity), s.applied, Some(job.snapshot))
  {
    LastTwoSteps(c, s, t, job);
    AdvanceThenRelease(c, s, Exec(c, s, Undisturbed(t, job, 5)), t, job);
  }

  /** A job whose version is no longer current is told both versions, before anything is loaded. */
  lemma StaleJobConflicts(c: Processes, s: State, t: TaskId, job: Job)
    requires Live(c, s, t) && s.tasks[t].pc.Returned? && s.row == None && CurrentVersion(s.applied) != job.expected
    ensures Ended(s, Exec(c, s, Undisturbed(t, job, 3)), t, job,
      Conflicted(job.expected, CurrentVersion(s.applied)), s.applied, s.running)
  {
    TakesLock(c, s, t, job);
    OneStepMore(c, s, t, job, 1);
    OneStepMore(c, s, t, job, 2);
    ConflictThenRelease(c, s, Exec(c, s, Undisturbed(t, job, 1)), t, job);
  }

  lemma ConflictThenRelease(c: Processes, s: State, n: State, t: TaskId, job: Job)
    requires Live(c, s, t) && AtStage(c, s, n, t, job, ReadVersion) && CurrentVersion(s.applied) != job.expected
    ensures Ended(s, Step(c, Step(c, n, Run(t, Works)), Run(t, Works)), t, job,
      Conflicted(job.expected, CurrentVersion(s.applied)), s.applied, s.running)
  {
    assert Live(c, n, t);
  }

  // Tasks that do not get the lock.

  /** A row of a process seen alive is left alone, and its pid reported. */
  lemma HeldIsRefused(c: Processes, s: State, t: TaskId, job: Job, p: Pid)
    requires Live(c, s, t) && s.tasks[t].pc.Returned? && s.row == Some(p) && p in s.alive && c.sees(c.owner[t], p)
    ensures Exec(c, s, Undisturbed(t, job, 3)) == s.(tasks := s.tasks[t := Task(Returned(Some(AlreadyHeld(p))), job)])
  {
    OneStepMore(c, s, t, job, 0);
    OneStepMore(c, s, t, job, 1);
    OneStepMore(c, s, t, job, 2);
  }

  /** A task that loses the second race reports who has the row then, or -1 if nobody has. */
  lemma LoserReports(c: Processes, s: State, t: TaskId)
    requires Live(c, s, t)
    ensures s.tasks[t].pc.LookAgain? ==> var n := Step(c, s, Run(t, Works));
      Moved(s, n, t, Returned(Some(AlreadyHeld(match s.row case Some(p) => p case None => -1)))) && n.row == s.row
  {
  }

  /** A row that is gone when it is looked up is tried for again. */
  lemma VanishedRowIsRetried(c: Processes, s: State, t: TaskId)
    requires Live(c, s, t) && s.tasks[t].pc.LookUp? && s.row.None?
    ensures var n := Exec(c, s, [Run(t, Works), Run(t, Works)]); Holds(n, t) && n.row == Some(c.owner[t])
  {
    ExecThree(c, s, Run(t, Works), Run(t, Works), Run(t, Works));
  }

  /** The task is asking for the lock, by a statement that can fail. */
  predicate Asking(pc: Pc) {
    pc.TryInsert? || pc.LookUp? || pc.Reap? || pc.Retry? || pc.LookAgain?
  }

  /** What a statement of a task that asks leaves in the table, if it fails. */
  function RowLeft(s: State, pc: Pc, pid: Pid, luck: Luck): Option<Pid> {
    if luck.FailsAfter? && (pc.TryInsert? || pc.Retry?) then Some(pid)
    else if luck.FailsAfter? && pc.Reap? && s.row == Some(pc.stale) then None
    else s.row
  }

  /** An insert that finds a row has nothing to commit: the row is looked up next. */
  lemma FoundRowIsLookedUp(c: Processes, s: State, t: TaskId, luck: Luck)
    requires Live(c, s, t) && s.row.Some? && !luck.FailsBefore?
    ensures s.tasks[t].pc.TryInsert? ==> Moved(s, Step(c, s, Run(t, luck)), t, LookUp)
    ensures s.tasks[t].pc.Retry? ==> Moved(s, Step(c, s, Run(t, luck)), t, LookAgain)
    ensures s.tasks[t].pc.TryInsert? || s.tasks[t].pc.Retry? ==> Step(c, s, Run(t, luck)).row == s.row
  {
  }

  /**
   * A failing statement ends the asking with a storage error and grants nothing. An insert that
   * took effect leaves its row behind, a reaping that took effect has removed its row.
   */
  lemma FailedAskingEnds(c: Processes, s: State, t: TaskId, luck: Luck)
    requires Live(c, s, t) && Asking(s.tasks[t].pc) && !luck.Works?
    requires luck.FailsAfter? && (s.tasks[t].pc.TryInsert? || s.tasks[t].pc.Retry?) ==> s.row.None?
    ensures var n, pc := Step(c, s, Run(t, luck)), s.tasks[t].pc;
      && Moved(s, n, t, Returned(Some(StorageFailed)))
      && n.row == RowLeft(s, pc, c.owner[t], luck)
      && n.applied == s.applied && n.running == s.running
  {
  }
}
