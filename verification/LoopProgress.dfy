/** Tasks get done: the loop thread, together with the threads that still owe it a wakeup, runs
    every task that was announced to it, even if the poller returns for nothing but a wakeup. */
module LoopProgress {
  import opened Runs
  import opened EventLoop

  /** A wakeup that is owed, or a step of the loop thread that does not need the poller to return
      without one. */
  predicate Prompt(s: Loop, step: Step) {
    step.Wake? || (step == Advance(false) && (s.phase.Polling? ==> s.token))
  }

  /** A run of such steps from `s` to `t`. */
  ghost predicate PromptRun(s: Loop, steps: seq<Step>, t: Loop)
    decreases |steps|
  {
    if steps == [] then s == t
    else Enabled(s, steps[0]) && Prompt(s, steps[0]) && PromptRun(Apply(s, steps[0]), steps[1..], t)
  }

  lemma {:induction false} ExecFirst(s: Loop, step: Step, more: seq<Step>)
    requires Enabled(s, step)
    ensures Exec(s, [step] + more) == Exec(Apply(s, step), more)
    decreases |more|
  {
    hide Enabled, Apply;
    var all := [step] + more;
    if more == [] {
      assert all[..0] == [];
      assert Exec(s, all[..0]) == Reached(s);
    } else {
      var n := |more| - 1;
      assert all[..|all| - 1] == [step] + more[..n] && all[|all| - 1] == more[n];
      ExecFirst(s, step, more[..n]);
    }
  }

  /** Such a run is one of the interleavings. */
  lemma {:induction false} PromptIsRun(s: Loop, steps: seq<Step>, t: Loop)
    requires PromptRun(s, steps, t)
    ensures Exec(s, steps) == Reached(t)
    decreases |steps|
  {
    hide Enabled, Apply;
    if steps != [] {
      PromptIsRun(Apply(s, steps[0]), steps[1..], t);
      ExecFirst(s, steps[0], steps[1..]);
      assert steps == [steps[0]] + steps[1..];
    }
  }

  /** Every task that is not quiet has run. */
  ghost predicate Served(s: Loop) {
    AllQuiet(s.tasks) && AllQuiet(s.pending)
  }

  /** How far the loop thread is from running the next task. */
  function Stage(s: Loop): nat {
    match s.phase
    case Running(_) => if s.tasks != [] then 0 else 8
    case Swapping(_) => 1
    case Handling => 2
    case Polling => if s.token then 3 else 4
    case AtTop => 5
    case SelfWaking => 6
    case Checking => 7
    case Exited => 0
  }

  /** Neither stopped nor ended by a failing poller. */
  predicate Going(s: Loop) {
    !s.stop && !s.phase.Exited?
  }

  /** The next step: the loop thread's, or a wakeup it sleeps for. */
  lemma NextStep(s: Loop) returns (step: Step)
    requires InOrder(s) && NotForgotten(s) && Going(s) && !Served(s)
    ensures Enabled(s, step) && Prompt(s, step)
    ensures var t := Apply(s, step);
      && Going(t) && t.added == s.added
      && (|t.tasks| + |t.pending| < |s.tasks| + |s.pending|
          || (|t.tasks| + |t.pending| == |s.tasks| + |s.pending| && Stage(t) < Stage(s)))
  {
    if s.phase.Polling? && !s.token {
      var p :| p in s.waking;
      step := Wake(p);
    } else {
      step := Advance(false);
    }
  }

  lemma {:induction false} ServesAll(s: Loop) returns (more: seq<Step>, t: Loop)
    requires InOrder(s) && NotForgotten(s) && Going(s)
    ensures PromptRun(s, more, t) && t.added == s.added && InOrder(t) && Served(t)
    decreases |s.tasks| + |s.pending|, Stage(s)
  {
    hide InOrder, NotForgotten, Enabled, Apply, Served, Prompt;
    if Served(s) {
      more, t := [], s;
    } else {
      var step := NextStep(s);
      StepInOrder(s, step);
      StepNotForgotten(s, step);
      var rest;
      rest, t := ServesAll(Apply(s, step));
      more := [step] + rest;
      assert more[1..] == rest;
    }
  }

  /** From every reachable state in which the loop is going, finitely many steps of the loop
      thread and wakeups that are owed run every task added by then, except quiet ones; the
      poller need not return for any other reason. */
  lemma EveryTaskRuns(steps: seq<Step>, s: Loop) returns (more: seq<Step>, t: Loop)
    requires Exec(Start(), steps) == Reached(s) && Going(s)
    ensures PromptRun(s, more, t) && Exec(s, more) == Reached(t) && t.added == s.added
    ensures t.ran <= s.added
    ensures forall i :: |t.ran| <= i < |s.added| ==> s.added[i].quiet
  {
    ReachableInv(steps);
    hide Exec, PromptRun, Going, NotForgotten;
    more, t := ServesAll(s);
    PromptIsRun(s, more, t);
    OnlyQuietLeft(t);
  }

  lemma OnlyQuietLeft(t: Loop)
    requires InOrder(t) && Served(t)
    ensures t.ran <= t.added && forall i :: |t.ran| <= i < |t.added| ==> t.added[i].quiet
  {
    var left := t.tasks + t.pending;
    assert AllQuiet(left);
    assert t.added == t.ran + left;
    assert forall i :: |t.ran| <= i < |t.added| ==> t.added[i] == left[i - |t.ran|];
  }

  // A stop request ends the loop.

  /** How far a loop that is to stop is from its end, between two tasks. */
  function StopStage(s: Loop): nat {
    match s.phase
    case Exited => 0
    case AtTop => 1
    case SelfWaking => 2
    case Checking => 3
    case Swapping(_) => 4
    case Running(_) => if s.tasks != [] then 0 else 5
    case Handling => 6
    case Polling => if s.token then 7 else 8
  }

  lemma NextStopStep(s: Loop) returns (step: Step)
    requires InOrder(s) && NotForgotten(s) && s.stop && !s.phase.Exited?
    ensures Enabled(s, step) && Prompt(s, step)
    ensures var t := Apply(s, step);
      && t.stop
      && (|t.tasks| + |t.pending| < |s.tasks| + |s.pending|
          || (|t.tasks| + |t.pending| == |s.tasks| + |s.pending| && StopStage(t) < StopStage(s)))
  {
    if s.phase.Polling? && !s.token {
      var p :| p in s.waking;
      step := Wake(p);
    } else {
      step := Advance(false);
    }
  }

  lemma {:induction false} RunsOut(s: Loop) returns (more: seq<Step>, t: Loop)
    requires InOrder(s) && NotForgotten(s) && s.stop
    ensures PromptRun(s, more, t) && t.phase.Exited?
    decreases |s.tasks| + |s.pending|, StopStage(s)
  {
    hide InOrder, NotForgotten, Enabled, Apply, Prompt;
    if s.phase.Exited? {
      more, t := [], s;
    } else {
      var step := NextStopStep(s);
      StepInOrder(s, step);
      StepNotForgotten(s, step);
      var rest;
      rest, t := RunsOut(Apply(s, step));
      more := [step] + rest;
      assert more[1..] == rest;
    }
  }

  /** From every reachable state in which a stop has been requested, finitely many steps of the
      loop thread and owed wakeups end the loop. */
  lemma StopEndsLoop(steps: seq<Step>, s: Loop) returns (more: seq<Step>, t: Loop)
    requires Exec(Start(), steps) == Reached(s) && s.stop
    ensures PromptRun(s, more, t) && Exec(s, more) == Reached(t) && t.phase.Exited?
  {
    ReachableInv(steps);
    hide Exec, PromptRun, NotForgotten;
    more, t := RunsOut(s);
    PromptIsRun(s, more, t);
  }

  // From a request to its end.

  lemma ReachesOne(steps: seq<Step>, s: Loop, step: Step)
    requires Exec(Start(), steps) == Reached(s) && Enabled(s, step)
    ensures Exec(Start(), steps + [step]) == Reached(Apply(s, step))
  {
    hide Enabled, Apply;
    assert (steps + [step])[..|steps + [step]| - 1] == steps;
  }

  /** Asking the loop to stop, from another thread or from its own, ends it. */
  lemma StopRequestEnds(steps: seq<Step>, s: Loop, step: Step) returns (more: seq<Step>, t: Loop)
    requires Exec(Start(), steps) == Reached(s) && Enabled(s, step) && (step.Stop? || step.LocalStop?)
    ensures PromptRun(Apply(s, step), more, t) && t.phase.Exited?
  {
    ReachesOne(steps, s, step);
    assert Apply(s, step).stop;
    hide Exec, PromptRun, Apply, Enabled;
    more, t := StopEndsLoop(steps + [step], Apply(s, step));
  }

  /** A task that is pushed, with a wakeup from another thread or on the loop's own, runs, behind
      every task that was added before. */
  lemma PushedRuns(steps: seq<Step>, s: Loop, step: Step) returns (more: seq<Step>, t: Loop)
    requires Exec(Start(), steps) == Reached(s) && Enabled(s, step) && Going(s)
    requires (step.Push? && step.wake) || step.LocalPush?
    ensures PromptRun(Apply(s, step), more, t)
    ensures t.ran == s.added + [Task(if step.Push? then step.id else step.local, false)]
  {
    ReachesOne(steps, s, step);
    var u := Apply(s, step);
    var task := Task(if step.Push? then step.id else step.local, false);
    assert Going(u) && u.added == s.added + [task];
    hide Exec, PromptRun, Apply, Enabled, Going;
    assert u.added[|s.added|] == task;
    more, t := EveryTaskRuns(steps + [step], u);
  }

  /** A loop with nothing to do comes to rest: a trip that drains the token ends at the poller with
      no reason to return. */
  lemma ComesToRest(s: Loop)
    requires s.phase.Polling? && s.pending == [] && s.tasks == [] && s.waking == {} && !s.stop
    ensures var trip := [Advance(false)] + [Drain] + [Advance(false)] + [Advance(false)] + [Advance(false)];
      var run := Exec(s, trip);
      && run.Reached? && run.state == s.(token := false)
  {
    var a, d := Advance(false), Drain;
    assert Exec(s, []) == Reached(s);
    var u := s.(phase := Handling);
    assert Apply(s, a) == u;
    ExecLast(s, [], s, a);
    assert [] + [a] == [a];
    ExecLast(s, [a], u, d);
    ExecLast(s, [a] + [d], u.(token := false), a);
    ExecLast(s, [a] + [d] + [a], u.(token := false, phase := Swapping(0)), a);
    ExecLast(s, [a] + [d] + [a] + [a], u.(token := false, phase := AtTop), a);
  }

  lemma ExecLast(s: Loop, steps: seq<Step>, t: Loop, step: Step)
    requires Exec(s, steps) == Reached(t) && Enabled(t, step)
    ensures Exec(s, steps + [step]) == Reached(Apply(t, step))
  {
    hide Enabled, Apply;
    assert (steps + [step])[..|steps + [step]| - 1] == steps;
  }

  // Rounds of a trip.

  /** The round that the loop is in, by the number of rounds it has begun since the poller. */
  predicate InRound(t: Loop, begun: nat) {
    match t.phase
    case Handling => begun == 0
    case Swapping(round) => begun == round < MAX_ROUNDS
    case Running(round) => begun == round + 1 <= MAX_ROUNDS
    case Checking => begun == MAX_ROUNDS
    case SelfWaking => begun == MAX_ROUNDS
    case _ => true
  }

  /** How many rounds a run begins. */
  function Begun(s: Loop, steps: seq<Step>): nat {
    if steps == [] then 0
    else
      var n := |steps| - 1;
      var before := Exec(s, steps[..n]);
      Begun(s, steps[..n])
      + (if before.Reached? && before.state.phase.Swapping? && before.state.pending != [] && steps[n].Advance?
         then 1 else 0)
  }

  ghost predicate NoTop(s: Loop, steps: seq<Step>) {
    forall i :: 0 <= i <= |steps| ==>
      Exec(s, steps[..i]).Reached? ==> !Exec(s, steps[..i]).state.phase.AtTop?
  }

  /** On its way back to the poller the loop gives up on tasks that are pending only after all of
      its rounds: it comes to the final check having begun exactly MAX_ROUNDS of them. */
  lemma {:induction false} AllRoundsAreUsed(s: Loop, steps: seq<Step>)
    requires s.phase.Handling? && Exec(s, steps).Reached? && NoTop(s, steps)
    ensures InRound(Exec(s, steps).state, Begun(s, steps))
    ensures !Exec(s, steps).state.phase.Polling?
    decreases |steps|
  {
    if steps != [] {
      var n := |steps| - 1;
      assert NoTop(s, steps[..n]) by {
        forall i | 0 <= i <= n
          ensures Exec(s, steps[..n][..i]).Reached? ==> !Exec(s, steps[..n][..i]).state.phase.AtTop?
        {
          assert steps[..n][..i] == steps[..i];
        }
      }
      AllRoundsAreUsed(s, steps[..n]);
      assert steps[..n + 1] == steps;
      NextRound(Exec(s, steps[..n]).state, steps[n], Begun(s, steps[..n]));
    }
  }

  lemma NextRound(t: Loop, step: Step, begun: nat)
    requires InRound(t, begun) && Enabled(t, step) && !t.phase.AtTop? && !t.phase.Polling?
    requires !Apply(t, step).phase.AtTop?
    ensures !Apply(t, step).phase.Polling?
    ensures InRound(Apply(t, step),
                    begun + if t.phase.Swapping? && t.pending != [] && step.Advance? then 1 else 0)
  {
  }
}
