/** At most one live holder, in every interleaving, exactly when the processes can see each other alive. */
module LockSafety {
  import opened Wrappers
  import opened ApplyProtocol

  /** A live holder is the only one, and the row carries its pid. */
  ghost predicate Exclusive(c: Processes, s: State) {
    forall t :: Live(c, s, t) && Holds(s, t) ==> s.row == Some(c.owner[t]) && OnlyHolder(c, s, t)
  }

  ghost predicate OnlyHolder(c: Processes, s: State, t: TaskId) {
    forall u :: Live(c, s, u) && Holds(s, u) ==> u == t
  }

  /** The liveness probe of any task sees the process of any other task. */
  ghost predicate AllVisible(c: Processes) {
    forall t, u :: t in c.owner && u in c.owner && t != u ==> c.sees(c.owner[t], c.owner[u])
  }

  /** The task's row is still in the table: it holds the lock, or died holding it and its delete is pending. */
  predicate HasRow(s: State, t: TaskId) {
    Holds(s, t) || (t in s.tasks && s.tasks[t].pc.Unwinding?)
  }

  /** Whatever is about to be reaped is dead, or was not seen. */
  ghost predicate ReapsForCause(c: Processes, s: State) {
    forall t :: Live(c, s, t) && s.tasks[t].pc.Reap? ==>
      s.tasks[t].pc.stale !in s.alive || !c.sees(c.owner[t], s.tasks[t].pc.stale)
  }

  ghost predicate RowsKept(c: Processes, s: State) {
    forall t :: Live(c, s, t) && HasRow(s, t) ==> s.row == Some(c.owner[t])
  }

  ghost predicate OneRowHolder(c: Processes, s: State) {
    forall t, u :: Live(c, s, t) && HasRow(s, t) && Live(c, s, u) && HasRow(s, u) ==> t == u
  }

  ghost predicate Inv(c: Processes, s: State) {
    c.owner.Keys == s.tasks.Keys && ReapsForCause(c, s) && RowsKept(c, s) && OneRowHolder(c, s)
  }

  lemma InitInv(c: Processes, s: State)
    requires Init(c, s)
    ensures Inv(c, s)
  {
  }

  lemma StepReapsForCause(c: Processes, s: State, e: Event)
    requires c.owner.Keys == s.tasks.Keys && ReapsForCause(c, s)
    ensures c.owner.Keys == Step(c, s, e).tasks.Keys && ReapsForCause(c, Step(c, s, e))
  {
  }

  /** No step of a task touches the row of another live holder. */
  lemma RowUntouched(c: Processes, s: State, t: TaskId, luck: Luck, u: TaskId)
    requires Inv(c, s) && AllVisible(c) && Live(c, s, t) && Live(c, s, u) && HasRow(s, u) && t != u
    ensures RunStep(c, s, t, luck).row == s.row
  {
  }

  /** A task that newly has a row found none before. */
  lemma NewHolderFoundNone(c: Processes, s: State, t: TaskId, luck: Luck)
    requires Live(c, s, t)
    ensures var n := RunStep(c, s, t, luck);
      HasRow(n, t) && !HasRow(s, t) ==> s.row == None && n.row == Some(c.owner[t])
    ensures var n := RunStep(c, s, t, luck);
      HasRow(n, t) && HasRow(s, t) ==> n.row == s.row
    ensures forall u :: u != t && u in s.tasks ==> RunStep(c, s, t, luck).tasks[u] == s.tasks[u]
  {
  }

  lemma RunInv(c: Processes, s: State, t: TaskId, luck: Luck)
    requires Inv(c, s) && AllVisible(c) && Live(c, s, t)
    ensures Inv(c, RunStep(c, s, t, luck))
  {
    var n := RunStep(c, s, t, luck);
    StepReapsForCause(c, s, Run(t, luck));
    NewHolderFoundNone(c, s, t, luck);
    forall u | Live(c, n, u) && HasRow(n, u) && u != t
      ensures Live(c, s, u) && HasRow(s, u) && n.row == s.row == Some(c.owner[u])
    {
      RowUntouched(c, s, t, luck, u);
    }
    RowHoldersAgree(c, s, n, t);
  }

  lemma RowHoldersAgree(c: Processes, s: State, n: State, t: TaskId)
    requires RowsKept(c, s) && OneRowHolder(c, s)
    requires forall u :: Live(c, n, u) && HasRow(n, u) && u != t ==>
      Live(c, s, u) && HasRow(s, u) && n.row == s.row == Some(c.owner[u])
    requires Live(c, n, t) && HasRow(n, t) ==>
      n.row == Some(c.owner[t]) && (s.row == None || (Live(c, s, t) && HasRow(s, t)))
    ensures RowsKept(c, n) && OneRowHolder(c, n)
  {
  }

  lemma StepInv(c: Processes, s: State, e: Event)
    requires Inv(c, s) && AllVisible(c)
    ensures Inv(c, Step(c, s, e))
  {
    if e.Run? && Live(c, s, e.t) {
      RunInv(c, s, e.t, e.luck);
    } else {
      StepReapsForCause(c, s, e);
      OtherStepsKeepRows(c, s, e);
    }
  }

  lemma OtherStepsKeepRows(c: Processes, s: State, e: Event)
    requires Inv(c, s) && (e.Run? ==> !Live(c, s, e.t))
    ensures var n := Step(c, s, e);
      n.row == s.row && n.alive <= s.alive && forall t :: t in n.tasks && HasRow(n, t) ==> HasRow(s, t)
    ensures RowsKept(c, Step(c, s, e)) && OneRowHolder(c, Step(c, s, e))
  {
  }

  lemma {:induction false} ExecInv(c: Processes, s: State, events: seq<Event>)
    requires Init(c, s) && AllVisible(c)
    ensures Inv(c, Exec(c, s, events))
    decreases |events|
  {
    if events == [] {
      InitInv(c, s);
    } else {
      var before := events[..|events| - 1];
      ExecInv(c, s, before);
      StepInv(c, Exec(c, s, before), events[|events| - 1]);
    }
  }

  /** Mutual exclusion, over every run. */
  lemma VisibleIsExclusive(c: Processes, s: State, events: seq<Event>)
    requires Init(c, s) && AllVisible(c)
    ensures Exclusive(c, Exec(c, s, events))
  {
    ExecInv(c, s, events);
  }

  /** However late the delete of a reaper comes, it does not take away a live holder's row. */
  lemma SlowReaperIsHarmless(c: Processes, s: State, events: seq<Event>, t: TaskId, luck: Luck, u: TaskId)
    requires Init(c, s) && AllVisible(c)
    requires var m := Exec(c, s, events); Live(c, m, t) && m.tasks[t].pc.Reap? && Live(c, m, u) && Holds(m, u)
    ensures var m := Exec(c, s, events); Step(c, m, Run(t, luck)).row == m.row == Some(c.owner[u])
  {
    ExecInv(c, s, events);
    RowUntouched(c, Exec(c, s, events), t, luck, u);
  }

  // The converse: two tasks, one of which cannot see the other's process.

  function AllIdle(c: Processes): State {
    State(c.owner.Values, map t | t in c.owner :: Task(Returned(None), Job("", 0, 0)), None, None, {}, None)
  }

  lemma AllIdleInit(c: Processes)
    ensures Init(c, AllIdle(c))
  {
  }

  lemma ExecAppend(c: Processes, s: State, events: seq<Event>, e: Event)
    ensures Exec(c, s, events + [e]) == Step(c, Exec(c, s, events), e)
  {
    assert (events + [e])[..|events|] == events;
  }

  /** `u` takes the lock; `t` finds the row, and starts over what it takes for a stale one. */
  function Overtake(t: TaskId, u: TaskId): seq<Event> {
    [Start(u, Job("", 0, 0)), Run(u, Works), Start(t, Job("", 0, 0))] +
    [Run(t, Works), Run(t, Works), Run(t, Works)] + [Run(t, Works), Run(t, Works)]
  }

  lemma {:induction false} ExecConcat(c: Processes, s: State, a: seq<Event>, b: seq<Event>)
    ensures Exec(c, s, a + b) == Exec(c, Exec(c, s, a), b)
    decreases |b|
  {
    if b == [] {
      assert a + b == a;
    } else {
      assert (a + b)[..|a + b| - 1] == a + b[..|b| - 1];
      ExecConcat(c, s, a, b[..|b| - 1]);
    }
  }

  lemma ExecThree(c: Processes, s: State, e: Event, f: Event, g: Event)
    ensures Exec(c, s, [e, f, g]) == Step(c, Step(c, Step(c, s, e), f), g)
    ensures Exec(c, s, [e, f]) == Step(c, Step(c, s, e), f)
    ensures Exec(c, s, [e]) == Step(c, s, e)
  {
    assert [e, f, g][..2] == [e, f] && [e, f][..1] == [e] && [e][..0] == [];
    assert Exec(c, s, []) == s;
    assert Exec(c, s, [e]) == Step(c, s, e);
    assert Exec(c, s, [e, f]) == Step(c, Exec(c, s, [e]), f);
  }

  lemma FirstTakesLock(c: Processes, s: State, t: TaskId, u: TaskId)
    requires c.owner.Keys == s.tasks.Keys && Live(c, s, t) && Live(c, s, u) && t != u
    requires s.row == None && s.tasks[t].pc.Returned? && s.tasks[u].pc.Returned?
    ensures var n := Exec(c, s, Overtake(t, u)[..3]);
      n.alive == s.alive && n.row == Some(c.owner[u]) && n.tasks.Keys == s.tasks.Keys
      && n.tasks[u].pc == Applying(ReadVersion) && n.tasks[t].pc == TryInsert
  {
    var job := Job("", 0, 0);
    assert Overtake(t, u)[..3] == [Start(u, job), Run(u, Works), Start(t, job)];
    ExecThree(c, s, Start(u, job), Run(u, Works), Start(t, job));
  }

  lemma SecondMisjudges(c: Processes, s: State, t: TaskId, p: Pid)
    requires Live(c, s, t) && s.row == Some(p) && s.tasks[t].pc == TryInsert && !(p in s.alive && c.sees(c.owner[t], p))
    ensures var n := Exec(c, s, [Run(t, Works), Run(t, Works), Run(t, Works)]);
      n == WithTask(s, t, Reap(p))
  {
    ExecThree(c, s, Run(t, Works), Run(t, Works), Run(t, Works));
    assert Step(c, s, Run(t, Works)) == WithTask(s, t, LookUp);
    assert Step(c, WithTask(s, t, LookUp), Run(t, Works)) == WithTask(s, t, Probe(p));
    assert Step(c, WithTask(s, t, Probe(p)), Run(t, Works)) == WithTask(s, t, Reap(p));
  }

  lemma SecondTakesLock(c: Processes, s: State, t: TaskId, p: Pid)
    requires Live(c, s, t) && s.row == Some(p) && s.tasks[t].pc == Reap(p)
    ensures var n := Exec(c, s, [Run(t, Works), Run(t, Works)]);
      n == WithTask(s, t, Applying(ReadVersion)).(row := Some(c.owner[t]))
  {
    ExecThree(c, s, Run(t, Works), Run(t, Works), Run(t, Works));
    var m := WithTask(s, t, Retry).(row := None);
    assert Step(c, s, Run(t, Works)) == m;
    assert Step(c, m, Run(t, Works)) == WithTask(m, t, Applying(ReadVersion)).(row := Some(c.owner[t]));
  }

  /** A task that cannot see a live holder's process takes the lock from it. */
  lemma UnseenHolderIsRobbed(c: Processes, t: TaskId, u: TaskId)
    requires t in c.owner && u in c.owner && t != u && !c.sees(c.owner[t], c.owner[u])
    ensures !Exclusive(c, Exec(c, AllIdle(c), Overtake(t, u)))
  {
    var s := AllIdle(c);
    var taken := Exec(c, s, Overtake(t, u)[..3]);
    FirstTakesLock(c, s, t, u);
    var p, run := c.owner[u], Run(t, Works);
    SecondMisjudges(c, taken, t, p);
    var judged := WithTask(taken, t, Reap(p));
    SecondTakesLock(c, judged, t, p);
    ExecConcat(c, s, Overtake(t, u)[..3], [run, run, run]);
    ExecConcat(c, s, Overtake(t, u)[..3] + [run, run, run], [run, run]);
    assert Overtake(t, u) == Overtake(t, u)[..3] + [run, run, run] + [run, run];
    var end := WithTask(judged, t, Applying(ReadVersion)).(row := Some(c.owner[t]));
    assert Live(c, end, t) && Holds(end, t) && Live(c, end, u) && Holds(end, u);
  }

  /**
   * The lock excludes in every run from every initial state exactly when each task's probe sees the
   * processes of all the others.
   */
  lemma ExclusiveIffVisible(c: Processes)
    ensures (forall s: State, events: seq<Event> :: Init(c, s) ==> Exclusive(c, Exec(c, s, events))) <==> AllVisible(c)
  {
    if AllVisible(c) {
      forall s: State, events: seq<Event> | Init(c, s) ensures Exclusive(c, Exec(c, s, events)) {
        VisibleIsExclusive(c, s, events);
      }
    } else {
      var t, u :| t in c.owner && u in c.owner && t != u && !c.sees(c.owner[t], c.owner[u]);
      AllIdleInit(c);
      UnseenHolderIsRobbed(c, t, u);
    }
  }

  // Rows nobody holds any more.

  /** A row left behind by a dead process is replaced by the next task that tries alone. */
  lemma StaleRowRecovers(c: Processes, s: State, t: TaskId, p: Pid)
    requires Live(c, s, t) && s.row == Some(p) && s.tasks[t].pc == TryInsert && p !in s.alive
    ensures var run := Run(t, Works);
      var n := Exec(c, s, [run, run, run] + [run, run]); Holds(n, t) && n.row == Some(c.owner[t])
  {
    var run := Run(t, Works);
    SecondMisjudges(c, s, t, p);
    SecondTakesLock(c, WithTask(s, t, Reap(p)), t, p);
    ExecConcat(c, s, [run, run, run], [run, run]);
  }

  /** Nobody has the row, yet it names a live process: the delete of its release was lost. */
  ghost predicate Orphaned(c: Processes, s: State, p: Pid) {
    && c.owner.Keys == s.tasks.Keys
    && s.row == Some(p) && p in s.alive
    && (forall t :: Live(c, s, t) ==> !HasRow(s, t))
    && (forall t :: Live(c, s, t) ==> s.tasks[t].pc != Reap(p))
  }

  lemma OrphanStep(c: Processes, s: State, e: Event, p: Pid)
    requires Orphaned(c, s, p) && e != Crash(p) && forall t :: t in c.owner ==> c.sees(c.owner[t], p)
    ensures Orphaned(c, Step(c, s, e), p)
  {
    var n := Step(c, s, e);
    forall t | Live(c, n, t) ensures !HasRow(n, t) && n.tasks[t].pc != Reap(p) && n.row == s.row {
      assert Live(c, s, t);
      if e.Run? && Live(c, s, e.t) { OrphanRun(c, s, e.t, e.luck, p); }
    }
    if e.Run? && Live(c, s, e.t) { OrphanRun(c, s, e.t, e.luck, p); }
  }

  lemma OrphanRun(c: Processes, s: State, t: TaskId, luck: Luck, p: Pid)
    requires Orphaned(c, s, p) && Live(c, s, t) && c.sees(c.owner[t], p)
    ensures var n := RunStep(c, s, t, luck);
      n.row == s.row && n.alive == s.alive && !HasRow(n, t) && n.tasks[t].pc != Reap(p)
      && n.tasks.Keys == s.tasks.Keys
      && forall u :: u in s.tasks && u != t ==> n.tasks[u] == s.tasks[u]
  {
    assert !HasRow(s, t) && s.tasks[t].pc != Reap(p);
  }

  lemma {:induction false} OrphanStays(c: Processes, s: State, events: seq<Event>, p: Pid)
    requires Orphaned(c, s, p) && Crash(p) !in events && forall t :: t in c.owner ==> c.sees(c.owner[t], p)
    ensures Orphaned(c, Exec(c, s, events), p)
    decreases |events|
  {
    if events != [] {
      OrphanStays(c, s, events[..|events| - 1], p);
      OrphanStep(c, Exec(c, s, events[..|events| - 1]), events[|events| - 1], p);
    }
  }

  lemma LostReleaseOrphans(c: Processes, s: State, t: TaskId)
    requires Inv(c, s) && Live(c, s, t) && s.tasks[t].pc.Releasing?
    requires forall u :: u in c.owner ==> c.sees(c.owner[u], c.owner[t])
    ensures Orphaned(c, Step(c, s, Run(t, FailsBefore)), c.owner[t])
  {
    var n := Step(c, s, Run(t, FailsBefore));
    assert HasRow(s, t);
    forall u | Live(c, n, u) ensures !HasRow(n, u) {
      assert Live(c, s, u);
    }
  }

  /**
   * If the delete of a release is lost, nobody takes the lock again, in any run, until the
   * process that held it ends: not even that process itself.
   */
  lemma LostReleaseLocksOut(c: Processes, s: State, before: seq<Event>, t: TaskId, after: seq<Event>)
    requires Init(c, s) && AllVisible(c) && t in c.owner && forall u :: u in c.owner ==> c.sees(c.owner[u], c.owner[t])
    requires var m := Exec(c, s, before); Live(c, m, t) && m.tasks[t].pc.Releasing?
    requires Crash(c.owner[t]) !in after
    ensures var n := Exec(c, s, before + [Run(t, FailsBefore)] + after);
      n.row == Some(c.owner[t]) && forall u :: Live(c, n, u) ==> !Holds(n, u)
  {
    var m := Exec(c, s, before);
    ExecInv(c, s, before);
    ExecAppend(c, s, before, Run(t, FailsBefore));
    var lost := Step(c, m, Run(t, FailsBefore));
    LostReleaseOrphans(c, m, t);
    OrphanStays(c, lost, after, c.owner[t]);
    ExecConcat(c, s, before + [Run(t, FailsBefore)], after);
  }
}
