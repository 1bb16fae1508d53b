/** Calls come to an end: whatever the other parties do not do, the steps of a call's own timer,
    finishers and caller complete it. */
module RpcProgress {
  import opened Runs
  import opened RpcGate

  /** Steps that need neither the sender nor the network nor another call. */
  predicate OwnStep(step: Step, c: nat) {
    match step
    case Finish(d, _) => d == c
    case TimerStep(d) => d == c
    case WaiterStep(d) => d == c
    case _ => false
  }

  predicate OwnSteps(steps: seq<Step>, c: nat) {
    forall i :: 0 <= i < |steps| ==> OwnStep(steps[i], c)
  }

  lemma Extend(steps: seq<Step>, s: System, step: Step)
    requires Exec(steps) == Reached(s) && Enabled(s, step)
    ensures Exec(steps + [step]) == Reached(Apply(s, step))
  {
    hide Enabled, Apply;
    assert (steps + [step])[..|steps + [step]| - 1] == steps;
  }

  lemma Chain(steps: seq<Step>, step: Step, more: seq<Step>, c: nat)
    requires OwnStep(step, c) && OwnSteps(more, c)
    ensures steps + [step] + more == steps + ([step] + more) && OwnSteps([step] + more, c)
  {
  }

  /** How far a holder of the gate is from having run the closure. */
  function Remaining(pc: FinishPc): nat {
    match pc
    case DropTimer => 4
    case DropRead => 3
    case WriteResult => 2
    case RunDone => 1
    case _ => 0
  }

  lemma FinishOnce(s: System, c: nat, who: Party)
    requires c in s.calls && (At(s.calls[c].parties, who).AtCas? || Remaining(At(s.calls[c].parties, who)) > 0)
    ensures Enabled(s, Finish(c, who)) && c in Apply(s, Finish(c, who)).calls
    ensures var next := Apply(s, Finish(c, who)).calls[c];
      && next == FinishNext(s.calls[c], who) && next.waiter == s.calls[c].waiter
      && At(next.parties, who) == NextPc(At(s.calls[c].parties, who), s.calls[c].finished)
  {
    FinishMoves(s.calls[c], who);
    FinishAdvances(s.calls[c], who);
    hide FinishNext;
  }

  /** Whoever has passed the gate completes the call. */
  lemma {:induction false} HolderCompletes(steps: seq<Step>, s: System, c: nat, who: Party)
    returns (more: seq<Step>, t: System)
    requires Exec(steps) == Reached(s) && c in s.calls && Holds(At(s.calls[c].parties, who))
    ensures OwnSteps(more, c) && Exec(steps + more) == Reached(t)
    ensures c in t.calls && At(t.calls[c].parties, who).Won? && t.calls[c].waiter == s.calls[c].waiter
    decreases Remaining(At(s.calls[c].parties, who))
  {
    hide Exec, Enabled, Apply, At;
    if At(s.calls[c].parties, who).Won? {
      more, t := [], s;
      assert steps + [] == steps;
    } else {
      var step := Finish(c, who);
      FinishOnce(s, c, who);
      Extend(steps, s, step);
      more, t := HolderCompletes(steps + [step], Apply(s, step), c, who);
      Chain(steps, step, more, c);
      more := [step] + more;
    }
  }

  /** The first to come to an open gate passes it. */
  lemma FirstCompletes(steps: seq<Step>, s: System, c: nat, who: Party)
    returns (more: seq<Step>, t: System)
    requires Exec(steps) == Reached(s) && c in s.calls
    requires At(s.calls[c].parties, who).AtCas? && !s.calls[c].finished
    ensures OwnSteps(more, c) && Exec(steps + more) == Reached(t)
    ensures c in t.calls && At(t.calls[c].parties, who).Won? && t.calls[c].waiter == s.calls[c].waiter
  {
    hide Exec, Enabled, Apply, At;
    var step := Finish(c, who);
    FinishOnce(s, c, who);
    Extend(steps, s, step);
    more, t := HolderCompletes(steps + [step], Apply(s, step), c, who);
    Chain(steps, step, more, c);
    more := [step] + more;
  }

  /** How far a live timer is from coming to the gate. */
  function TimerDistance(timer: TimerState): nat {
    if timer.Armed? then 2 else if timer.Collected? then 1 else 0
  }

  lemma TimerOnce(s: System, c: nat)
    requires c in s.calls && TimerDistance(s.calls[c].timer) > 0 && !s.calls[c].cancelled
    ensures Enabled(s, TimerStep(c)) && c in Apply(s, TimerStep(c)).calls
    ensures var call, next := s.calls[c], Apply(s, TimerStep(c)).calls[c];
      && next.finished == call.finished && next.cancelled == call.cancelled && next.waiter == call.waiter
      && (if call.timer.Armed? then next.timer.Collected? else At(next.parties, Timer).AtCas?)
  {
  }

  /** A timer that is armed and not cancelled comes to the gate and completes the call. */
  lemma {:induction false} TimerCompletes(steps: seq<Step>, s: System, c: nat)
    returns (more: seq<Step>, t: System)
    requires Exec(steps) == Reached(s) && c in s.calls && !s.calls[c].finished && !s.calls[c].cancelled
    requires TimerDistance(s.calls[c].timer) > 0
    ensures OwnSteps(more, c) && Exec(steps + more) == Reached(t)
    ensures c in t.calls && At(t.calls[c].parties, Timer).Won? && t.calls[c].waiter == s.calls[c].waiter
    decreases TimerDistance(s.calls[c].timer)
  {
    hide Exec, Enabled, Apply, At;
    var step := TimerStep(c);
    TimerOnce(s, c);
    Extend(steps, s, step);
    if s.calls[c].timer.Armed? {
      more, t := TimerCompletes(steps + [step], Apply(s, step), c);
    } else {
      more, t := FirstCompletes(steps + [step], Apply(s, step), c, Timer);
    }
    Chain(steps, step, more, c);
    more := [step] + more;
  }

  /** From every reachable state, a call that was set up or is already being finished completes
      by steps of its own. */
  lemma Completes(steps: seq<Step>, s: System, c: nat) returns (more: seq<Step>, t: System)
    requires Exec(steps) == Reached(s) && c in s.calls && (Started(s.calls[c]) || s.calls[c].finished)
    ensures OwnSteps(more, c) && Exec(steps + more) == Reached(t)
    ensures c in t.calls && t.calls[c].writes == 1 && t.calls[c].dones == 1
    ensures t.calls[c].waiter == s.calls[c].waiter
  {
    ReachableInv(steps);
    var call := s.calls[c];
    assert CallInv(call);
    hide Exec, SystemInv, WaiterInv, At;
    ghost var who: Party;
    if call.finished {
      who :| Holds(At(call.parties, who));
      more, t := HolderCompletes(steps, s, c, who);
    } else if At(call.parties, Timer).AtCas? {
      who := Timer;
      more, t := FirstCompletes(steps, s, c, Timer);
    } else {
      who := Timer;
      more, t := TimerCompletes(steps, s, c);
    }
    WonMeansDone(steps + more, t, c, who);
  }

  lemma WonMeansDone(steps: seq<Step>, t: System, c: nat, who: Party)
    requires Exec(steps) == Reached(t) && c in t.calls && At(t.calls[c].parties, who).Won?
    ensures t.calls[c].writes == 1 && t.calls[c].dones == 1 && t.calls[c].finished
  {
    ReachableInv(steps);
    assert CallInv(t.calls[c]);
    hide Exec, SystemInv, SenderInv, WaiterInv, At;
    assert Holds(At(t.calls[c].parties, who));
  }

  /** A response completes the call it is for: from every reachable state in which a call listens,
      its response is delivered to it, and by steps of its own the responder finishes it. */
  lemma ResponseCompletes(steps: seq<Step>, s: System, c: nat) returns (more: seq<Step>, t: System)
    requires Exec(steps) == Reached(s) && c in s.calls && Listening(s.calls[c]) && !s.stopped
    ensures OwnSteps(more, c) && Exec(steps + [Deliver(s.calls[c].msgId)] + more) == Reached(t)
    ensures c in t.calls && At(t.calls[c].parties, Responder).Won?
    ensures t.calls[c].writes == 1 && t.calls[c].dones == 1
  {
    var step := Deliver(s.calls[c].msgId);
    CallbacksAreExact(steps, s);
    assert Enabled(s, step);
    var u := Apply(s, step);
    EnterMoves(s.calls[c], Responder, AtCas);
    assert c in u.calls && u.calls[c] == Enter(s.calls[c], Responder, AtCas);
    Extend(steps, s, step);
    hide Exec, Apply, Enabled, At;
    more, t := FirstCompletes(steps + [step], u, c, Responder);
    WonMeansDone(steps + [step] + more, t, c, Responder);
  }

  /** So does a failure to set up or to connect: the sender finishes the call with its error. */
  lemma FailureCompletes(steps: seq<Step>, s: System, c: nat) returns (more: seq<Step>, t: System)
    requires Exec(steps) == Reached(s) && c in s.calls && !s.calls[c].finished
    requires s.calls[c].sender.Setup? || s.calls[c].sender.Connecting?
    ensures OwnSteps(more, c) && Exec(steps + [SenderStep(c, true)] + more) == Reached(t)
    ensures c in t.calls && At(t.calls[c].parties, Sender).Won?
    ensures t.calls[c].writes == 1 && t.calls[c].dones == 1
  {
    var step := SenderStep(c, true);
    assert Enabled(s, step);
    var u := Apply(s, step);
    EnterMoves(s.calls[c], Sender, AtCas);
    assert c in u.calls && u.calls[c].parties == Enter(s.calls[c], Sender, AtCas).parties;
    assert !u.calls[c].finished;
    Extend(steps, s, step);
    hide Exec, Apply, Enabled, At;
    more, t := FirstCompletes(steps + [step], u, c, Sender);
    WonMeansDone(steps + [step] + more, t, c, Sender);
  }

  /** How far an undisturbed sender is from sending the request. */
  function SendDistance(pc: SenderPc): nat {
    match pc
    case Setup => 8
    case MakeTimer => 7
    case ArmTimer => 6
    case Connecting => 5
    case Check => 4
    case Register => 3
    case Recheck => 2
    case Send => 1
    case _ => 0
  }

  predicate SenderSteps(steps: seq<Step>, c: nat) {
    forall i :: 0 <= i < |steps| ==> steps[i] == SenderStep(c, false)
  }

  lemma SenderOnce(s: System, c: nat)
    requires c in s.calls && SendDistance(s.calls[c].sender) > 0 && !s.calls[c].finished
    ensures var step := SenderStep(c, false);
      && Enabled(s, step) && c in Apply(s, step).calls
      && var next := Apply(s, step).calls[c];
      && !next.finished && SendDistance(next.sender) < SendDistance(s.calls[c].sender)
      && next.sends == s.calls[c].sends + (if s.calls[c].sender.Send? then 1 else 0)
      && (SendDistance(next.sender) == 0 ==> s.calls[c].sender.Send?)
  {
    hide At;
  }

  /** A request is sent: as long as nobody finishes the call, the sender's own steps get there. */
  lemma {:induction false} RequestIsSent(steps: seq<Step>, s: System, c: nat)
    returns (more: seq<Step>, t: System)
    requires Exec(steps) == Reached(s) && c in s.calls && !s.calls[c].finished
    requires SendDistance(s.calls[c].sender) > 0
    ensures SenderSteps(more, c) && Exec(steps + more) == Reached(t)
    ensures c in t.calls && t.calls[c].sends == s.calls[c].sends + 1
    decreases SendDistance(s.calls[c].sender)
  {
    hide Exec, Enabled, Apply;
    var step := SenderStep(c, false);
    SenderOnce(s, c);
    Extend(steps, s, step);
    var u := Apply(s, step);
    if SendDistance(u.calls[c].sender) == 0 {
      more, t := [step], u;
    } else {
      more, t := RequestIsSent(steps + [step], u, c);
      assert steps + [step] + more == steps + ([step] + more);
      more := [step] + more;
    }
  }

  /** How far a blocking caller is from returning. */
  function WaitDistance(call: Call): nat {
    match call.waiter
    case Waiting => 1
    case Claiming => if At(call.parties, Waiter).AtCas? then 3 else 2
    case WaitDone => 1
    case _ => 0
  }

  /** The caller's next step once the call is done. */
  function WaiterTurn(call: Call, c: nat): Step {
    if call.waiter.Claiming? && At(call.parties, Waiter).AtCas? then Finish(c, Waiter) else WaiterStep(c)
  }

  /** A caller that still claims the gate has lost or won it, or is about to lose it. */
  lemma ClaimIsDecided(call: Call)
    requires GateInv(call) && WaiterInv(call) && call.waiter.Claiming? && call.dones == 1
    ensures At(call.parties, Waiter).AtCas? || At(call.parties, Waiter).Won? || At(call.parties, Waiter).Lost?
    ensures call.finished
  {
    hide At;
    var who :| At(call.parties, who).Won?;
    assert Holds(At(call.parties, who));
  }

  /** The caller loses a gate that is closed. */
  lemma WaiterLoses(s: System, c: nat)
    requires c in s.calls && s.calls[c].finished && s.calls[c].dones == 1
    requires s.calls[c].waiter.Claiming? && At(s.calls[c].parties, Waiter).AtCas?
    ensures Enabled(s, Finish(c, Waiter)) && c in Apply(s, Finish(c, Waiter)).calls
    ensures var next := Apply(s, Finish(c, Waiter)).calls[c];
      next.dones == 1 && next.waiter.Claiming? && WaitDistance(next) == 2
  {
    FinishOnce(s, c, Waiter);
    FinishCounts(s.calls[c], Waiter);
    hide FinishNext, Enabled, Apply, At;
  }

  /** Otherwise the caller moves on by itself. */
  lemma WaiterMoves(s: System, c: nat)
    requires c in s.calls && s.calls[c].dones == 1 && WaitDistance(s.calls[c]) > 0
    requires s.calls[c].waiter.Claiming? ==>
      At(s.calls[c].parties, Waiter).Won? || At(s.calls[c].parties, Waiter).Lost?
    ensures Enabled(s, WaiterStep(c)) && c in Apply(s, WaiterStep(c)).calls
    ensures var next := Apply(s, WaiterStep(c)).calls[c];
      next.dones == 1 && !next.waiter.NotWaiting? && WaitDistance(next) < WaitDistance(s.calls[c])
  {
    hide At;
  }

  lemma WaiterOnce(s: System, c: nat)
    requires c in s.calls && GateInv(s.calls[c]) && WaiterInv(s.calls[c]) && s.calls[c].dones == 1
    requires WaitDistance(s.calls[c]) > 0
    ensures var step := WaiterTurn(s.calls[c], c);
      && OwnStep(step, c) && Enabled(s, step) && c in Apply(s, step).calls
      && var next := Apply(s, step).calls[c];
      && next.dones == 1 && !next.waiter.NotWaiting? && WaitDistance(next) < WaitDistance(s.calls[c])
  {
    hide Enabled, Apply, GateInv, WaiterInv, At;
    var call := s.calls[c];
    if call.waiter.Claiming? {
      ClaimIsDecided(call);
    }
    if WaiterTurn(call, c).Finish? {
      WaiterLoses(s, c);
    } else {
      WaiterMoves(s, c);
    }
  }

  lemma {:induction false} WaiterReturns(steps: seq<Step>, s: System, c: nat)
    returns (more: seq<Step>, t: System)
    requires Exec(steps) == Reached(s) && c in s.calls
    requires s.calls[c].dones == 1 && !s.calls[c].waiter.NotWaiting?
    ensures OwnSteps(more, c) && Exec(steps + more) == Reached(t)
    ensures c in t.calls && t.calls[c].waiter.Returned?
    decreases WaitDistance(s.calls[c])
  {
    ReachableInv(steps);
    assert CallInv(s.calls[c]);
    hide Exec, Enabled, Apply, At, SystemInv, GateInv, SenderInv, WaiterInv;
    if s.calls[c].waiter.Returned? {
      more, t := [], s;
      assert steps + [] == steps;
    } else {
      var step := WaiterTurn(s.calls[c], c);
      WaiterOnce(s, c);
      Extend(steps, s, step);
      more, t := WaiterReturns(steps + [step], Apply(s, step), c);
      Chain(steps, step, more, c);
      more := [step] + more;
    }
  }

  /** A blocking caller returns: from every reachable state in which it waits, steps of its own
      call bring it back, with the result written. */
  lemma CallerReturns(steps: seq<Step>, s: System, c: nat) returns (more: seq<Step>, t: System)
    requires Exec(steps) == Reached(s) && c in s.calls && !s.calls[c].waiter.NotWaiting?
    ensures OwnSteps(more, c) && Exec(steps + more) == Reached(t)
    ensures c in t.calls && t.calls[c].waiter.Returned? && t.calls[c].writes == 1
  {
    hide *;
    WaitingIsCovered(steps, s, c);
    var first, u := Completes(steps, s, c);
    var second;
    second, t := WaiterReturns(steps + first, u, c);
    more := first + second;
    Joined(steps, first, second, c);
    ReturnedMeansWritten(steps + more, t, c);
  }

  lemma Joined(steps: seq<Step>, first: seq<Step>, second: seq<Step>, c: nat)
    requires OwnSteps(first, c) && OwnSteps(second, c)
    ensures OwnSteps(first + second, c) && steps + (first + second) == steps + first + second
  {
  }

  /** A call whose caller waits was set up or is being finished. */
  lemma WaitingIsCovered(steps: seq<Step>, s: System, c: nat)
    requires Exec(steps) == Reached(s) && c in s.calls && !s.calls[c].waiter.NotWaiting?
    ensures Started(s.calls[c]) || s.calls[c].finished
  {
    ReachableInv(steps);
    assert CallInv(s.calls[c]);
    AlwaysCovered(steps, s, c);
    hide Exec, SystemInv, GateInv, SenderInv, HasReturned, Started, Covered, At;
  }

  lemma ReturnedMeansWritten(steps: seq<Step>, t: System, c: nat)
    requires Exec(steps) == Reached(t) && c in t.calls && t.calls[c].waiter.Returned?
    ensures t.calls[c].writes == 1
  {
    ReachableInv(steps);
    assert CallInv(t.calls[c]);
    CompletesOnce(steps, t, c);
    hide Exec, SystemInv, GateInv, SenderInv, At;
  }

  /** A blocking call as a whole: once `callMethodInternal` has returned, the caller begins to wait
      and by steps of its own call returns with the result written. */
  lemma BlockingCallReturns(steps: seq<Step>, s: System, c: nat) returns (more: seq<Step>, t: System)
    requires Exec(steps) == Reached(s) && c in s.calls && s.calls[c].waiter.NotWaiting? && HasReturned(s.calls[c])
    ensures OwnSteps(more, c) && Exec(steps + [StartWait(c)] + more) == Reached(t)
    ensures c in t.calls && t.calls[c].waiter.Returned? && t.calls[c].writes == 1
  {
    var step := StartWait(c);
    assert Enabled(s, step);
    Extend(steps, s, step);
    var u := Apply(s, step);
    assert c in u.calls && u.calls[c].waiter.Waiting?;
    hide Exec, Apply, Enabled, HasReturned;
    more, t := CallerReturns(steps + [step], u, c);
  }

  /** A caller whose time is up finishes the call itself, if nobody has come to the gate before. */
  lemma TimeOutCompletes(steps: seq<Step>, s: System, c: nat) returns (more: seq<Step>, t: System)
    requires Exec(steps) == Reached(s) && c in s.calls && s.calls[c].waiter.Waiting? && !s.calls[c].finished
    ensures OwnSteps(more, c) && Exec(steps + [TimeOut(c)] + more) == Reached(t)
    ensures c in t.calls && At(t.calls[c].parties, Waiter).Won? && t.calls[c].waiter.Returned?
  {
    var step := TimeOut(c);
    UnfinishedIsNotDone(steps, s, c);
    assert Enabled(s, step);
    Extend(steps, s, step);
    var u := Apply(s, step);
    EnterMoves(s.calls[c], Waiter, AtCas);
    assert c in u.calls && u.calls[c] == Enter(s.calls[c], Waiter, AtCas).(waiter := Claiming);
    hide Exec, Apply, Enabled, At;
    var first, v := FirstCompletes(steps + [step], u, c, Waiter);
    var last := WaiterStep(c);
    ClaimantReturns(v, c);
    Extend(steps + [step] + first, v, last);
    t := Apply(v, last);
    assert steps + [step] + (first + [last]) == steps + [step] + first + [last];
    more := first + [last];
  }

  lemma UnfinishedIsNotDone(steps: seq<Step>, s: System, c: nat)
    requires Exec(steps) == Reached(s) && c in s.calls && !s.calls[c].finished
    ensures s.calls[c].dones == 0
  {
    CompletesOnce(steps, s, c);
  }

  lemma ClaimantReturns(v: System, c: nat)
    requires c in v.calls && v.calls[c].waiter.Claiming? && At(v.calls[c].parties, Waiter).Won?
    ensures Enabled(v, WaiterStep(c)) && c in Apply(v, WaiterStep(c)).calls
    ensures var next := Apply(v, WaiterStep(c)).calls[c];
      next.waiter.Returned? && At(next.parties, Waiter).Won?
  {
  }
}
