/** Handing tasks to an event loop. Other threads push under the lock and then wake the poller;
    code on the loop thread may push without waking it. One step per critical section or
    wakeup, any number of threads. */
module EventLoop {
  import opened Runs

  const MAX_ROUNDS := 8

  /** `quiet` tasks come from a thread other than the loop's that asked for no wakeup. */
  datatype Task = Task(id: nat, quiet: bool)

  /** Where the loop thread is. `Handling` covers descriptor events and timers. */
  datatype Phase =
    | AtTop
    | Polling
    | Handling
    | Swapping(round: nat)
    | Running(round: nat)
    | Checking
    | SelfWaking
    | Exited

  /** `tasks` is what the current round has swapped out, `token` an undrained wakeup, and
      `waking` the other threads between their change and their wakeup. `added` and `ran` are
      histories. */
  datatype Loop = Loop(
    pending: seq<Task>,
    tasks: seq<Task>,
    token: bool,
    stop: bool,
    waking: set<nat>,
    phase: Phase,
    added: seq<Task>,
    ran: seq<Task>
  )

  datatype Step =
    | Push(p: nat, id: nat, wake: bool)
    | Stop(p: nat)
    | Wake(p: nat)
    | LocalPush(local: nat)
    | LocalStop
    | LocalWake
    | Drain
    | Advance(pollFails: bool)

  function Start(): Loop {
    Loop([], [], false, false, {}, AtTop, [], [])
  }

  /** The loop thread runs user code: handlers, timer callbacks, tasks. */
  predicate InUserCode(phase: Phase) {
    phase.Handling? || phase.Running?
  }

  predicate Enabled(s: Loop, step: Step) {
    match step
    case Push(p, _, _) => p !in s.waking
    case Stop(p) => p !in s.waking
    case Wake(p) => p in s.waking
    case LocalPush(_) => InUserCode(s.phase)
    case LocalStop => InUserCode(s.phase)
    case LocalWake => InUserCode(s.phase)
    case Drain => s.phase.Handling?
    case Advance(_) => !s.phase.Exited?
  }

  function Apply(s: Loop, step: Step): Loop {
    match step
    case Push(p, id, wake) =>
      s.(pending := s.pending + [Task(id, !wake)], added := s.added + [Task(id, !wake)],
         waking := if wake then s.waking + {p} else s.waking)
    case Stop(p) => s.(stop := true, waking := s.waking + {p})
    case Wake(p) => s.(token := true, waking := s.waking - {p})
    case LocalPush(id) =>
      s.(pending := s.pending + [Task(id, false)], added := s.added + [Task(id, false)])
    case LocalStop => s.(stop := true)
    case LocalWake => s.(token := true)
    case Drain => s.(token := false)
    case Advance(pollFails) => Onward(s, pollFails)
  }

  /** The loop thread's next step. */
  function Onward(s: Loop, pollFails: bool): Loop {
    match s.phase
    case AtTop => s.(phase := if s.stop then Exited else Polling)
    case Polling => s.(phase := if pollFails then Exited else Handling)
    case Handling => s.(phase := Swapping(0))
    case Swapping(round) =>
      s.(tasks := s.pending, pending := [], phase := if s.pending == [] then AtTop else Running(round))
    case Running(round) =>
      if s.tasks != [] then s.(ran := s.ran + [s.tasks[0]], tasks := s.tasks[1..])
      else s.(phase := if round + 1 < MAX_ROUNDS then Swapping(round + 1) else Checking)
    case Checking => s.(phase := if s.pending == [] then AtTop else SelfWaking)
    case SelfWaking => s.(token := true, phase := AtTop)
    case Exited => s
  }

  /** Every task that was added has run, is in the current round or is pending, in the order
      in which the tasks were added. */
  ghost predicate InOrder(s: Loop) {
    && s.added == s.ran + s.tasks + s.pending
    && (s.tasks != [] ==> s.phase.Running?)
  }

  /** Something is on its way that makes the next poll return at once. */
  predicate Alarmed(s: Loop) {
    s.token || s.waking != {}
  }

  predicate AllQuiet(tasks: seq<Task>) {
    forall i :: 0 <= i < |tasks| ==> tasks[i].quiet
  }

  /** On the way to the poller and inside it, work and a request to stop are announced; only
      quiet tasks are not. */
  ghost predicate NotForgotten(s: Loop) {
    && (s.phase.AtTop? || s.phase.Polling? ==> AllQuiet(s.pending) || Alarmed(s))
    && (s.phase.Polling? ==> s.stop ==> Alarmed(s))
  }

  lemma StepInOrder(s: Loop, step: Step)
    requires InOrder(s) && Enabled(s, step)
    ensures InOrder(Apply(s, step))
  {
    match step
    case Push(_, id, wake) =>
      var task := Task(id, !wake);
      assert s.added + [task] == s.ran + s.tasks + (s.pending + [task]);
    case LocalPush(id) =>
      var task := Task(id, false);
      assert s.added + [task] == s.ran + s.tasks + (s.pending + [task]);
    case Advance(_) =>
      if s.tasks != [] {
        assert s.ran + s.tasks == s.ran + [s.tasks[0]] + s.tasks[1..];
      }
    case _ =>
  }

  lemma StepNotForgotten(s: Loop, step: Step)
    requires NotForgotten(s) && Enabled(s, step)
    ensures NotForgotten(Apply(s, step))
  {
    if (step.Push? && step.wake) || step.Stop? {
      assert step.p in Apply(s, step).waking;
    }
  }

  /** The effect of a run of steps. */
  function Exec(s: Loop, steps: seq<Step>): Run<Loop> {
    if steps == [] then Reached(s)
    else
      var n := |steps| - 1;
      var before := Exec(s, steps[..n]);
      if before.Reached? && Enabled(before.state, steps[n]) then Reached(Apply(before.state, steps[n]))
      else Illegal
  }

  lemma {:induction false} ReachableInv(steps: seq<Step>)
    requires Exec(Start(), steps).Reached?
    ensures InOrder(Exec(Start(), steps).state) && NotForgotten(Exec(Start(), steps).state)
    decreases |steps|
  {
    if steps != [] {
      hide InOrder, NotForgotten, Apply, Enabled;
      var n := |steps| - 1;
      ReachableInv(steps[..n]);
      StepInOrder(Exec(Start(), steps[..n]).state, steps[n]);
      StepNotForgotten(Exec(Start(), steps[..n]).state, steps[n]);
    }
  }

  /** The loop never sleeps on work: in every interleaving, when it is at the poller with a
      task pending that was pushed on the loop thread or with a wakeup, or with a stop requested,
      a wakeup is there or a thread is about to deliver one. If neither is, every pending task
      is a quiet one. */
  lemma {:induction false} NeverSleepsOnWork(steps: seq<Step>)
    requires Exec(Start(), steps).Reached?
    ensures var s := Exec(Start(), steps).state;
      s.phase.Polling? && !s.token && s.waking == {} ==>
        !s.stop && forall i :: 0 <= i < |s.pending| ==> s.pending[i].quiet
  {
    ReachableInv(steps);
  }

  /** Between two visits to the poller there are at most MAX_ROUNDS rounds of tasks, and the loop
      ends only when it was asked to stop or the poller failed. */
  ghost predicate Bounded(s: Loop) {
    s.phase.Swapping? || s.phase.Running? ==> s.phase.round < MAX_ROUNDS
  }

  lemma {:induction false} RoundsAreBounded(steps: seq<Step>)
    requires Exec(Start(), steps).Reached?
    ensures var s := Exec(Start(), steps).state;
      && Bounded(s)
      && (s.phase.Exited? ==> s.stop || exists i :: 0 <= i < |steps| && steps[i] == Advance(true))
    decreases |steps|
  {
    if steps != [] {
      var n := |steps| - 1;
      RoundsAreBounded(steps[..n]);
      var before := Exec(Start(), steps[..n]).state;
      if i :| 0 <= i < n && steps[..n][i] == Advance(true) {
        assert steps[i] == Advance(true);
      }
      assert steps[n] == Advance(true) ==> 0 <= n < |steps|;
    }
  }

  /** Tasks run exactly once and in the order in which they were added. */
  lemma {:induction false} RunInOrder(steps: seq<Step>)
    requires Exec(Start(), steps).Reached?
    ensures var s := Exec(Start(), steps).state;
      s.ran <= s.added && (s.pending == [] && s.tasks == [] ==> s.ran == s.added)
  {
    ReachableInv(steps);
  }

  /** No thread other than the loop's leaves the wakeup out. */
  predicate AllWake(steps: seq<Step>) {
    forall i :: 0 <= i < |steps| && steps[i].Push? ==> steps[i].wake
  }

  lemma {:induction false} NoQuietTask(steps: seq<Step>)
    requires Exec(Start(), steps).Reached? && AllWake(steps)
    ensures forall i :: 0 <= i < |Exec(Start(), steps).state.added| ==> !Exec(Start(), steps).state.added[i].quiet
    decreases |steps|
  {
    if steps != [] {
      var n := |steps| - 1;
      assert steps[..n][..n] == steps[..n] && AllWake(steps[..n]);
      NoQuietTask(steps[..n]);
    }
  }

  /** Nothing at all is pending at an unalarmed poller when every push from outside asks for
      its wakeup. */
  lemma {:induction false} NeverSleepsIfAllWake(steps: seq<Step>)
    requires Exec(Start(), steps).Reached? && AllWake(steps)
    ensures var s := Exec(Start(), steps).state;
      s.phase.Polling? && !s.token && s.waking == {} ==> s.pending == []
  {
    hide Exec;
    ReachableInv(steps);
    var s := Exec(Start(), steps).state;
    assert s.pending != [] ==> s.added[|s.ran + s.tasks|] == s.pending[0];
    NoQuietTask(steps);
  }

  /** And that is needed: whenever the loop sleeps unalarmed, one push from outside without a
      wakeup leaves it asleep on the task. */
  lemma QuietPushSleeps(steps: seq<Step>, p: nat, id: nat)
    requires Exec(Start(), steps).Reached?
    requires var s := Exec(Start(), steps).state; s.phase.Polling? && !s.token && s.waking == {}
    ensures var run := Exec(Start(), steps + [Push(p, id, false)]);
      && run.Reached? && run.state.phase.Polling?
      && run.state.pending != [] && !run.state.token && run.state.waking == {}
  {
    var more := steps + [Push(p, id, false)];
    assert more[..|more| - 1] == steps;
  }

  /** The loop does get there: it sleeps unalarmed right after it has started. */
  lemma SleepsAtFirst()
    ensures var run := Exec(Start(), [Advance(false)]);
      run.Reached? && run.state.phase.Polling? && !run.state.token && run.state.waking == {}
  {
    assert [Advance(false)][..0] == [];
    assert Exec(Start(), []) == Reached(Start());
  }

  // ---------------------------------------------------------------------------------------
  // One trip of the loop
  // ---------------------------------------------------------------------------------------

  /** How far a trip that left the poller at `s` has come: the tasks added by then are pending
      until the first swap, and in a round or done after it. */
  ghost predicate OnTrip(s: Loop, t: Loop) {
    && s.added <= t.added
    && (t.phase.Handling? || (t.phase.Swapping? && t.phase.round == 0)
        || s.added <= t.ran + t.tasks)
  }

  lemma StepOnTrip(s: Loop, t: Loop, step: Step)
    requires OnTrip(s, t) && InOrder(t) && Enabled(t, step)
    ensures OnTrip(s, Apply(t, step))
  {
    if step.Advance? {
      OnwardOnTrip(s, t, step.pollFails);
    } else {
      var u := Apply(t, step);
      assert t.added <= u.added;
      assert u.ran == t.ran && u.tasks == t.tasks && u.phase == t.phase;
    }
  }

  lemma OnwardOnTrip(s: Loop, t: Loop, pollFails: bool)
    requires OnTrip(s, t) && InOrder(t)
    ensures OnTrip(s, Onward(t, pollFails))
  {
    var u := Onward(t, pollFails);
    assert u.added == t.added;
    if t.phase.Running? && t.tasks != [] {
      assert u.ran + u.tasks == t.ran + t.tasks;
    } else if t.phase.Swapping? {
      assert u.ran + u.tasks == t.added;
    } else {
      assert u.ran == t.ran && u.tasks == t.tasks;
    }
  }

  /** One trip from the poller back to the poller runs every task that had been added when it
      set out, however many tasks are added meanwhile. */
  lemma {:induction false} TripRunsAll(s: Loop, steps: seq<Step>)
    requires InOrder(s) && s.phase.Handling? && Exec(s, steps).Reached?
    ensures var t := Exec(s, steps).state;
      && InOrder(t) && OnTrip(s, t)
      && (t.phase.AtTop? || t.phase.Polling? ==> s.added <= t.ran)
    decreases |steps|
  {
    if steps != [] {
      hide Apply, Enabled;
      var n := |steps| - 1;
      TripRunsAll(s, steps[..n]);
      var t := Exec(s, steps[..n]).state;
      StepInOrder(t, steps[n]);
      StepOnTrip(s, t, steps[n]);
    }
  }
}
