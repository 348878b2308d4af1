/** What the applied-version pointer does over whole runs of the apply protocol. */
module PointerSafety {
  import opened Wrappers
  import opened ApplyProtocol
  import opened LockSafety

  // Under the lock, what was read stays true.

  /** The task is past the version check and has not advanced the pointer yet. */
  predicate Checked(s: State, t: TaskId) {
    t in s.tasks && s.tasks[t].pc.Applying? && !s.tasks[t].pc.stage.ReadVersion?
  }

  /** The task has loaded its snapshot, or has just succeeded with it. */
  predicate Loaded(s: State, t: TaskId) {
    t in s.tasks && (
      || (s.tasks[t].pc.Applying? && (s.tasks[t].pc.stage.Verify? || s.tasks[t].pc.stage.Advance?))
      || (s.tasks[t].pc.Releasing? && s.tasks[t].pc.result.Succeeded?))
  }

  ghost predicate Current(c: Processes, s: State) {
    forall t :: Live(c, s, t) ==>
      && (Checked(s, t) ==> CurrentVersion(s.applied) == s.tasks[t].job.expected)
      && (Loaded(s, t) ==> s.running == Some(s.tasks[t].job.snapshot))
  }

  /** Only a live holder changes the pointer or what Caddy runs. */
  lemma OnlyHolderWrites(c: Processes, s: State, e: Event)
    ensures var n := Step(c, s, e);
      (n.applied == s.applied && n.running == s.running) || (e.Run? && Live(c, s, e.t) && Holds(s, e.t))
  {
  }

  lemma OwnStepCurrent(c: Processes, s: State, t: TaskId, luck: Luck)
    requires Current(c, s) && Live(c, s, t)
    ensures var n := RunStep(c, s, t, luck);
      && (Checked(n, t) ==> CurrentVersion(n.applied) == n.tasks[t].job.expected)
      && (Loaded(n, t) ==> n.running == Some(n.tasks[t].job.snapshot))
  {
  }

  lemma StepCurrent(c: Processes, s: State, e: Event)
    requires Inv(c, s) && Current(c, s)
    ensures Current(c, Step(c, s, e))
  {
    var n := Step(c, s, e);
    forall t | Live(c, n, t)
      ensures Checked(n, t) ==> CurrentVersion(n.applied) == n.tasks[t].job.expected
      ensures Loaded(n, t) ==> n.running == Some(n.tasks[t].job.snapshot)
    {
      assert Live(c, s, t);
      if e.Run? && e.t == t {
        OwnStepCurrent(c, s, t, e.luck);
      } else {
        OthersStepCurrent(c, s, e, t);
      }
    }
  }

  lemma OthersStepCurrent(c: Processes, s: State, e: Event, t: TaskId)
    requires Inv(c, s) && Current(c, s) && Live(c, s, t) && !(e.Run? && e.t == t)
    ensures var n := Step(c, s, e);
      && (Checked(n, t) ==> CurrentVersion(n.applied) == n.tasks[t].job.expected)
      && (Loaded(n, t) ==> n.running == Some(n.tasks[t].job.snapshot))
  {
    var n := Step(c, s, e);
    OnlyHolderWrites(c, s, e);
    if e.Run? && Live(c, s, e.t) {
      NewHolderFoundNone(c, s, e.t, e.luck);
      assert !(HasRow(s, t) && HasRow(s, e.t));
    }
    assert Checked(n, t) ==> Checked(s, t) && n.tasks[t] == s.tasks[t];
    assert Loaded(n, t) ==> Loaded(s, t) && n.tasks[t] == s.tasks[t];
  }

  lemma {:induction false} ExecCurrent(c: Processes, s: State, events: seq<Event>)
    requires Init(c, s) && AllVisible(c)
    ensures Current(c, Exec(c, s, events))
    decreases |events|
  {
    if events != [] {
      var before := events[..|events| - 1];
      ExecCurrent(c, s, before);
      ExecInv(c, s, before);
      StepCurrent(c, Exec(c, s, before), events[|events| - 1]);
    }
  }

  /**
   * The version read at the start of an apply is still current at the advance, so the advance never
   * reports a conflict; it succeeds exactly when the snapshot is stored with the next version.
   */
  lemma AdvanceNeverConflicts(c: Processes, s: State, events: seq<Event>, t: TaskId)
    requires Init(c, s) && AllVisible(c)
    requires var m := Exec(c, s, events); Live(c, m, t) && m.tasks[t].pc == Applying(Advance)
    ensures var m := Exec(c, s, events);
      var job := m.tasks[t].job;
      var stored := m.applied.Some? && SnapshotRow(job.snapshot, job.expected + 1) in m.snapshots;
      Step(c, m, Run(t, Works)).tasks[t].pc ==
        Releasing(if stored then Succeeded(job.snapshot, job.version) else CasFailed(Integrity))
  {
    ExecCurrent(c, s, events);
  }

  /** When an apply succeeds, Caddy runs the snapshot whose version the pointer moves to. */
  lemma SuccessIsRunning(c: Processes, s: State, events: seq<Event>, t: TaskId)
    requires Init(c, s) && AllVisible(c)
    requires var m := Exec(c, s, events); Live(c, m, t) && m.tasks[t].pc.Releasing? && m.tasks[t].pc.result.Succeeded?
    ensures var m := Exec(c, s, events); m.running == Some(m.tasks[t].job.snapshot)
  {
    ExecCurrent(c, s, events);
  }

  // The pointer, whoever can see whom.

  /** The event ends an apply with success. */
  predicate Succeeds(c: Processes, s: State, e: Event) {
    && e.Run? && Live(c, s, e.t) && s.tasks[e.t].pc == Applying(Advance)
    && Step(c, s, e).tasks[e.t].pc.Releasing? && Step(c, s, e).tasks[e.t].pc.result.Succeeded?
  }

  /** The advance is committed, but its commit is reported as failed. */
  predicate Unreported(c: Processes, s: State, e: Event) {
    && e.Run? && e.luck.FailsAfter? && Live(c, s, e.t) && s.tasks[e.t].pc == Applying(Advance)
    && CasAdvance(s.applied, s.snapshots, s.tasks[e.t].job.expected, s.tasks[e.t].job.snapshot).1.Ok?
  }

  /** The pointer moves exactly when an apply succeeds or loses its commit's answer, and then by one. */
  lemma PointerStep(c: Processes, s: State, e: Event)
    ensures CurrentVersion(Step(c, s, e).applied) ==
      CurrentVersion(s.applied) + if Succeeds(c, s, e) || Unreported(c, s, e) then 1 else 0
    ensures Step(c, s, e).applied != s.applied <==> Succeeds(c, s, e) || Unreported(c, s, e)
  {
  }

  function Advances(c: Processes, s: State, events: seq<Event>): nat
    decreases |events|
  {
    if events == [] then 0
    else
      var before, e := events[..|events| - 1], events[|events| - 1];
      var m := Exec(c, s, before);
      Advances(c, s, before) + if Succeeds(c, m, e) || Unreported(c, m, e) then 1 else 0
  }

  /** Over a run the pointer counts the successful applies. */
  lemma {:induction false} PointerCountsApplies(c: Processes, s: State, events: seq<Event>)
    ensures CurrentVersion(Exec(c, s, events).applied) == CurrentVersion(s.applied) + Advances(c, s, events)
    decreases |events|
  {
    if events != [] {
      PointerCountsApplies(c, s, events[..|events| - 1]);
      PointerStep(c, Exec(c, s, events[..|events| - 1]), events[|events| - 1]);
    }
  }

  lemma StepNamesSnapshot(c: Processes, s: State, e: Event)
    requires PointerNamesSnapshot(s) && OneRowPerVersion(s)
    ensures PointerNamesSnapshot(Step(c, s, e)) && OneRowPerVersion(Step(c, s, e))
    ensures s.snapshots <= Step(c, s, e).snapshots
  {
    var n := Step(c, s, e);
    if n.applied != s.applied {
      PointerStep(c, s, e);
      var job := s.tasks[e.t].job;
      assert SnapshotRow(job.snapshot, job.expected + 1) in n.snapshots;
    } else if CurrentVersion(s.applied) != 0 {
      var id :| SnapshotRow(id, CurrentVersion(s.applied)) in s.snapshots;
      assert SnapshotRow(id, CurrentVersion(n.applied)) in n.snapshots;
    }
  }

  /** After any run the applied version is 0 or that of exactly one stored snapshot. */
  lemma {:induction false} PointerNamesOne(c: Processes, s: State, events: seq<Event>)
    requires Init(c, s)
    ensures var n := Exec(c, s, events);
      && PointerNamesSnapshot(n) && OneRowPerVersion(n) && s.snapshots <= n.snapshots
    decreases |events|
  {
    if events != [] {
      PointerNamesOne(c, s, events[..|events| - 1]);
      StepNamesSnapshot(c, Exec(c, s, events[..|events| - 1]), events[|events| - 1]);
    }
  }

  /** A success reports the version the pointer now has, if the snapshot handed in is the stored one. */
  lemma SuccessReportsPointer(c: Processes, s: State, events: seq<Event>, e: Event)
    requires Init(c, s)
    requires var m := Exec(c, s, events);
      Succeeds(c, m, e) && SnapshotRow(m.tasks[e.t].job.snapshot, m.tasks[e.t].job.version) in m.snapshots
    ensures var m := Exec(c, s, events); var n := Step(c, m, e);
      n.tasks[e.t].pc.result.version == CurrentVersion(n.applied)
  {
    PointerNamesOne(c, s, events);
  }

  // No stage of an apply is skipped.

  const STAGES := [ReadVersion, Prepare, Load, Verify, Advance]

  function StageIndex(stage: Stage): nat {
    match stage
    case ReadVersion => 0
    case Prepare => 1
    case Load => 2
    case Verify => 3
    case Advance => 4
  }

  /** The stages the task passed, with the step working, since it last started. */
  function Passed(c: Processes, s: State, events: seq<Event>, t: TaskId): seq<Stage>
    decreases |events|
  {
    if events == [] then []
    else PassedBy(c, Exec(c, s, events[..|events| - 1]), events[|events| - 1], t, Passed(c, s, events[..|events| - 1], t))
  }

  function PassedBy(c: Processes, s: State, e: Event, t: TaskId, before: seq<Stage>): seq<Stage> {
    if !Live(c, s, t) then before
    else if e.Start? && e.t == t && s.tasks[t].pc.Returned? then []
    else if e.Run? && e.t == t && e.luck.Works? && s.tasks[t].pc.Applying? then before + [s.tasks[t].pc.stage]
    else before
  }

  /** What the position of a task says about the stages behind it. */
  ghost predicate PassedSoFar(pc: Pc, passed: seq<Stage>) {
    match pc
    case TryInsert => passed == []
    case LookUp => passed == []
    case Probe(_) => passed == []
    case Reap(_) => passed == []
    case Retry => passed == []
    case LookAgain => passed == []
    case Applying(stage) => passed == STAGES[..StageIndex(stage)]
    case Releasing(result) => result.Succeeded? ==> passed == STAGES
    case _ => true
  }

  lemma StepPasses(c: Processes, s: State, t: TaskId, luck: Luck, passed: seq<Stage>)
    requires Live(c, s, t) && PassedSoFar(s.tasks[t].pc, passed)
    ensures var pc := s.tasks[t].pc;
      PassedSoFar(RunStep(c, s, t, luck).tasks[t].pc, if luck.Works? && pc.Applying? then passed + [pc.stage] else passed)
  {
    if s.tasks[t].pc.Applying? {
      var k := StageIndex(s.tasks[t].pc.stage);
      assert STAGES[..k] + [STAGES[k]] == STAGES[..k + 1];
      assert STAGES[..5] == STAGES;
    }
  }

  lemma EventPasses(c: Processes, s: State, e: Event, t: TaskId, passed: seq<Stage>)
    requires t in s.tasks && PassedSoFar(s.tasks[t].pc, passed)
    ensures t in Step(c, s, e).tasks && PassedSoFar(Step(c, s, e).tasks[t].pc, PassedBy(c, s, e, t, passed))
  {
    if e.Run? && Live(c, s, e.t) {
      if e.t == t { StepPasses(c, s, t, e.luck, passed); } else { NewHolderFoundNone(c, s, e.t, e.luck); }
    }
  }

  /** An apply that ends with success has read, prepared, loaded, verified and advanced, in this order, since it started. */
  lemma {:induction false} SuccessPassedAllStages(c: Processes, s: State, events: seq<Event>, t: TaskId)
    requires Init(c, s) && t in s.tasks
    ensures var m := Exec(c, s, events); t in m.tasks && PassedSoFar(m.tasks[t].pc, Passed(c, s, events, t))
    ensures var m := Exec(c, s, events);
      m.tasks[t].pc.Releasing? && m.tasks[t].pc.result.Succeeded? ==> Passed(c, s, events, t) == STAGES
    decreases |events|
  {
    if events != [] {
      var init, e := events[..|events| - 1], events[|events| - 1];
      SuccessPassedAllStages(c, s, init, t);
      EventPasses(c, Exec(c, s, init), e, t, Passed(c, s, init, t));
    }
  }
}
