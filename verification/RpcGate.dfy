/** The completion of an RPC call. The response, the deadline timer, a failing sender and a
    blocking caller that gives up race to finish the call through one compare-and-swap,
    while the sender registers for the response, looks again and sends. One step per atomic
    operation; any number of calls share the table of response callbacks. */
module RpcGate {
  import opened Runs

  /** Who may try to finish a call. */
  datatype Party = Sender | Responder | Timer | Waiter

  /** Where a party is inside `finishRpc`: at the compare-and-swap, then, having won it, at
      deleting the timer, at removing the response callback, at writing the result and at
      running the closure. */
  datatype FinishPc = Off | AtCas | DropTimer | DropRead | WriteResult | RunDone | Won | Lost

  /** Where the sender is inside `callMethodInternal` and the connect callback. */
  datatype SenderPc =
    | Setup
    | MakeTimer
    | ArmTimer
    | Connecting
    | Check
    | Register
    | Recheck
    | Unregister
    | Send
    | Failing(early: bool)
    | Gone

  datatype TimerState = NoTimer | Created | Armed | Collected | Spent

  /** Where a blocking caller is after `callMethodInternal` has returned to it. */
  datatype WaiterPc = NotWaiting | Waiting | Claiming | WaitDone | Returned

  /** `writes` counts executions of a result-writing function, `dones` runs of the closure and
      `sends` requests handed to the connection. */
  datatype Call = Call(
    msgId: nat,
    pooled: bool,
    finished: bool,
    sender: SenderPc,
    hasId: bool,
    timer: TimerState,
    cancelled: bool,
    parties: map<Party, FinishPc>,
    waiter: WaiterPc,
    writes: nat,
    dones: nat,
    sends: nat
  )

  /** `table` maps message identifiers to the calls whose response callbacks they select;
      `stopped` records that the client was stopped, which empties the table. */
  datatype System = System(calls: map<nat, Call>, table: map<nat, nat>, stopped: bool)

  datatype Step =
    | Begin(c: nat, msgId: nat, pooled: bool)
    | SenderStep(c: nat, fails: bool)
    | Finish(c: nat, who: Party)
    | TimerStep(c: nat)
    | Deliver(msgId: nat)
    | StartWait(c: nat)
    | TimeOut(c: nat)
    | WaiterStep(c: nat)
    | StopClient

  function At(parties: map<Party, FinishPc>, who: Party): FinishPc {
    if who in parties then parties[who] else Off
  }

  predicate Holds(pc: FinishPc) {
    pc.DropTimer? || pc.DropRead? || pc.WriteResult? || pc.RunDone? || pc.Won?
  }

  /** Sender and finisher are both through with the call. */
  ghost predicate Through(call: Call) {
    call.finished && call.sender.Gone? && SomeoneWon(call.parties)
  }

  /** `callMethodInternal` has returned. */
  predicate HasReturned(call: Call) {
    || call.sender.Gone?
    || (!call.pooled && !call.sender.Setup? && !call.sender.MakeTimer? && !call.sender.ArmTimer?
        && call.sender != Failing(true))
  }

  ghost predicate Enabled(s: System, step: Step) {
    match step
    case Begin(c, msgId, _) =>
      c !in s.calls && forall d :: d in s.calls && s.calls[d].msgId == msgId ==> Through(s.calls[d])
    case SenderStep(c, fails) =>
      c in s.calls && !s.calls[c].sender.Gone?
      && (fails ==> s.calls[c].sender.Setup? || s.calls[c].sender.Connecting?)
      && (s.calls[c].sender.Failing? ==>
            At(s.calls[c].parties, Sender).Won? || At(s.calls[c].parties, Sender).Lost?)
    case Finish(c, who) =>
      c in s.calls && (At(s.calls[c].parties, who).AtCas?
        || (Holds(At(s.calls[c].parties, who)) && !At(s.calls[c].parties, who).Won?))
    case TimerStep(c) => c in s.calls && (s.calls[c].timer.Armed? || s.calls[c].timer.Collected?)
    case Deliver(_) => true
    case StartWait(c) => c in s.calls && s.calls[c].waiter.NotWaiting? && HasReturned(s.calls[c])
    case TimeOut(c) => c in s.calls && s.calls[c].waiter.Waiting? && s.calls[c].dones == 0
    case WaiterStep(c) =>
      c in s.calls
      && (match s.calls[c].waiter
          case Waiting => s.calls[c].dones > 0
          case Claiming => At(s.calls[c].parties, Waiter).Won? || At(s.calls[c].parties, Waiter).Lost?
          case WaitDone => s.calls[c].dones > 0
          case _ => false)
    case StopClient => true
  }

  function Enter(call: Call, who: Party, pc: FinishPc): Call {
    call.(parties := call.parties[who := pc])
  }

  /** The sender's next operation on its own call. */
  function SenderNext(call: Call, fails: bool): (next: Call)
    ensures next.msgId == call.msgId && next.writes == call.writes && next.dones == call.dones
  {
    match call.sender
    case Setup =>
      if fails then Enter(call, Sender, AtCas).(sender := Failing(true))
      else call.(hasId := true, sender := MakeTimer)
    case MakeTimer => call.(timer := Created, sender := ArmTimer)
    case ArmTimer =>
      call.(timer := if call.cancelled then call.timer else Armed,
            sender := if call.pooled then Check else Connecting)
    case Connecting =>
      if fails then Enter(call, Sender, AtCas).(sender := Failing(false)) else call.(sender := Check)
    case Check => call.(sender := if call.finished then Gone else Register)
    case Register => call.(sender := Recheck)
    case Recheck => call.(sender := if call.finished then Unregister else Send)
    case Unregister => call.(sender := Gone)
    case Send => call.(sends := call.sends + 1, sender := Gone)
    case Failing(_) => call.(sender := Gone)
    case Gone => call
  }

  /** The next operation of a party inside `finishRpc`. */
  function FinishNext(call: Call, who: Party): (next: Call)
    ensures next.msgId == call.msgId && next.writes >= call.writes && next.dones >= call.dones
  {
    var pc := At(call.parties, who);
    Enter(call, who, NextPc(pc, call.finished)).(
      finished := call.finished || pc.AtCas?,
      cancelled := call.cancelled || (pc.DropTimer? && !call.timer.NoTimer?),
      writes := if pc.WriteResult? then call.writes + 1 else call.writes,
      dones := if pc.RunDone? then call.dones + 1 else call.dones)
  }

  /** The next place of a party inside `finishRpc`. */
  function NextPc(pc: FinishPc, finished: bool): FinishPc {
    match pc
    case AtCas => if finished then Lost else DropTimer
    case DropTimer => DropRead
    case DropRead => WriteResult
    case WriteResult => RunDone
    case RunDone => Won
    case _ => pc
  }

  /** The timer is collected when it expires, and its callback runs unless it was cancelled. */
  function TimerNext(call: Call): (next: Call)
    ensures next.msgId == call.msgId && next.writes == call.writes && next.dones == call.dones
  {
    match call.timer
    case Armed => call.(timer := if call.cancelled then Spent else Collected)
    case Collected =>
      if call.cancelled then call.(timer := Spent)
      else Enter(call, Timer, AtCas).(timer := Spent)
    case _ => call
  }

  function WaiterNext(call: Call): (next: Call)
    ensures next.msgId == call.msgId && next.writes == call.writes && next.dones == call.dones
  {
    match call.waiter
    case Waiting => call.(waiter := Returned)
    case Claiming => call.(waiter := if At(call.parties, Waiter).Won? then Returned else WaitDone)
    case WaitDone => call.(waiter := Returned)
    case _ => call
  }

  function TableAfterSender(s: System, c: nat): map<nat, nat>
    requires c in s.calls
  {
    var call := s.calls[c];
    if call.sender.Register? then s.table[call.msgId := c]
    else if call.sender.Unregister? then s.table - {call.msgId}
    else s.table
  }

  function TableAfterFinish(s: System, c: nat, who: Party): map<nat, nat>
    requires c in s.calls
  {
    var call := s.calls[c];
    if At(call.parties, who).DropRead? && call.hasId then s.table - {call.msgId} else s.table
  }

  ghost function Apply(s: System, step: Step): System
    requires Enabled(s, step)
  {
    match step
    case Begin(c, msgId, pooled) =>
      s.(calls := s.calls[c := Call(msgId, pooled, false, Setup, false, NoTimer, false, map[],
                                    NotWaiting, 0, 0, 0)])
    case SenderStep(c, fails) =>
      System(s.calls[c := SenderNext(s.calls[c], fails)], TableAfterSender(s, c), s.stopped)
    case Finish(c, who) =>
      System(s.calls[c := FinishNext(s.calls[c], who)], TableAfterFinish(s, c, who), s.stopped)
    case TimerStep(c) => s.(calls := s.calls[c := TimerNext(s.calls[c])])
    case Deliver(msgId) =>
      if msgId !in s.table || s.table[msgId] !in s.calls then s
      else
        var c := s.table[msgId];
        System(s.calls[c := Enter(s.calls[c], Responder, AtCas)], s.table - {msgId}, s.stopped)
    case StartWait(c) => s.(calls := s.calls[c := s.calls[c].(waiter := Waiting)])
    case TimeOut(c) =>
      s.(calls := s.calls[c := Enter(s.calls[c], Waiter, AtCas).(waiter := Claiming)])
    case WaiterStep(c) => s.(calls := s.calls[c := WaiterNext(s.calls[c])])
    case StopClient => s.(table := map[], stopped := true)
  }

  // ---------------------------------------------------------------------------------------
  // The invariant of one call
  // ---------------------------------------------------------------------------------------

  ghost predicate SomeoneHolds(parties: map<Party, FinishPc>) {
    exists who :: Holds(At(parties, who))
  }

  ghost predicate SomeoneWrote(parties: map<Party, FinishPc>) {
    exists who :: At(parties, who).RunDone? || At(parties, who).Won?
  }

  ghost predicate SomeoneWon(parties: map<Party, FinishPc>) {
    exists who :: At(parties, who).Won?
  }

  /** The gate lets exactly one party through, which writes once and completes once. */
  ghost predicate GateInv(call: Call) {
    && (call.finished <==> SomeoneHolds(call.parties))
    && (forall x, y :: Holds(At(call.parties, x)) && Holds(At(call.parties, y)) ==> x == y)
    && call.writes == (if SomeoneWrote(call.parties) then 1 else 0)
    && call.dones == (if SomeoneWon(call.parties) then 1 else 0)
    && (forall who :: At(call.parties, who).Lost? ==> call.finished)
  }

  predicate BeforeArm(pc: SenderPc) {
    pc.Setup? || pc.MakeTimer? || pc.ArmTimer?
  }

  /** A call whose set-up is complete. */
  predicate Started(call: Call) {
    !BeforeArm(call.sender) && call.sender != Failing(true) && call.hasId
  }

  /** The call is finished, or its timer is still going to finish it. */
  predicate Covered(call: Call) {
    || call.finished
    || ((call.timer.Armed? || call.timer.Collected?) && !call.cancelled)
    || At(call.parties, Timer).AtCas?
  }

  /** The sender has put its response callback into the table. */
  predicate Registered(pc: SenderPc) {
    pc.Recheck? || pc.Unregister? || pc.Send? || pc.Gone?
  }

  ghost predicate SenderInv(call: Call) {
    && (BeforeArm(call.sender) ==> !call.finished && forall who :: At(call.parties, who).Off?)
    && (BeforeArm(call.sender) ==> call.timer.NoTimer? || call.timer.Created?)
    && (call.hasId ==> !call.sender.Setup? && call.sender != Failing(true))
    && (!call.hasId ==> call.sender.Setup? || call.sender == Failing(true) || call.sender.Gone?)
    && (call.timer.NoTimer? <==> call.sender.MakeTimer? || !call.hasId)
    && (call.timer.Created? ==> call.sender.ArmTimer?)
    && (call.cancelled ==> call.finished)
    && (At(call.parties, Sender).Off? || call.sender.Failing? || call.sender.Gone?)
    && (call.sender.Failing? ==> !At(call.parties, Sender).Off?)
    && (At(call.parties, Timer).Off? || call.timer.Spent?)
    && (At(call.parties, Responder).Off? || Registered(call.sender))
    && (!BeforeArm(call.sender) && !call.hasId ==> !At(call.parties, Sender).Off?)
    && (call.sender.Gone? && !call.hasId ==> call.finished)
    && (call.sender.Unregister? ==> call.finished)
    && (Started(call) ==> Covered(call))
    && SendInv(call)
    && TimerDropped(call)
  }

  /** The request is sent at most once, by the sender's last step, and left out only when the call
      is finished. */
  predicate SendInv(call: Call) {
    && call.sends <= 1
    && (call.sends == 1 ==> call.sender.Gone?)
    && (call.sender.Gone? && call.sends == 0 ==> call.finished)
  }

  predicate PastTimer(pc: FinishPc) {
    pc.DropRead? || pc.WriteResult? || pc.RunDone? || pc.Won?
  }

  /** Whoever has passed the gate and dealt with the timer has cancelled it, if there was one. */
  ghost predicate TimerDropped(call: Call) {
    forall who :: PastTimer(At(call.parties, who)) ==> call.timer.NoTimer? || call.cancelled
  }

  ghost predicate WaiterInv(call: Call) {
    && (call.waiter.NotWaiting? || call.waiter.Waiting? ==> At(call.parties, Waiter).Off?)
    && (!call.waiter.NotWaiting? ==> HasReturned(call))
    && (call.waiter.Claiming? ==> !At(call.parties, Waiter).Off?)
    && (call.waiter.WaitDone? ==> At(call.parties, Waiter).Lost?)
    && (call.waiter.Returned? ==> call.dones == 1)
  }

  ghost predicate CallInv(call: Call) {
    GateInv(call) && SenderInv(call) && WaiterInv(call)
  }

  // ---------------------------------------------------------------------------------------
  // The steps of one call
  // ---------------------------------------------------------------------------------------

  /** Entering `finishRpc` changes nothing for the gate. */
  lemma EnterKeepsGate(call: Call, who: Party)
    requires GateInv(call) && At(call.parties, who).Off?
    ensures GateInv(Enter(call, who, AtCas))
  {
    var next := Enter(call, who, AtCas);
    assert forall x :: x != who ==> At(next.parties, x) == At(call.parties, x);
    SameWitnesses(call, next, who);
  }

  /** A change at a party that stays outside the gate leaves its witnesses alone. */
  lemma SameWitnesses(a: Call, b: Call, who: Party)
    requires forall x :: x != who ==> At(b.parties, x) == At(a.parties, x)
    requires !Holds(At(a.parties, who)) && !Holds(At(b.parties, who))
    ensures SomeoneHolds(a.parties) == SomeoneHolds(b.parties)
    ensures SomeoneWrote(a.parties) == SomeoneWrote(b.parties)
    ensures SomeoneWon(a.parties) == SomeoneWon(b.parties)
  {
    if SomeoneHolds(a.parties) {
      var x :| Holds(At(a.parties, x));
      assert Holds(At(b.parties, x));
    }
    if SomeoneHolds(b.parties) {
      var x :| Holds(At(b.parties, x));
      assert Holds(At(a.parties, x));
    }
    if SomeoneWrote(a.parties) {
      var x :| At(a.parties, x).RunDone? || At(a.parties, x).Won?;
      assert At(b.parties, x).RunDone? || At(b.parties, x).Won?;
    }
    if SomeoneWrote(b.parties) {
      var x :| At(b.parties, x).RunDone? || At(b.parties, x).Won?;
      assert At(a.parties, x).RunDone? || At(a.parties, x).Won?;
    }
    if SomeoneWon(a.parties) {
      var x :| At(a.parties, x).Won?;
      assert At(b.parties, x).Won?;
    }
    if SomeoneWon(b.parties) {
      var x :| At(b.parties, x).Won?;
      assert At(a.parties, x).Won?;
    }
  }

  lemma EnterMoves(call: Call, who: Party, pc: FinishPc)
    ensures At(Enter(call, who, pc).parties, who) == pc
    ensures forall x :: x != who ==> At(Enter(call, who, pc).parties, x) == At(call.parties, x)
  {
  }

  lemma FinishMoves(call: Call, who: Party)
    ensures var next := FinishNext(call, who);
      && At(next.parties, who) == NextPc(At(call.parties, who), call.finished)
      && (forall x :: x != who ==> At(next.parties, x) == At(call.parties, x))
  {
    hide At;
    EnterMoves(call, who, NextPc(At(call.parties, who), call.finished));
  }

  /** Inside `finishRpc`: the first to swap the flag goes through alone. */
  lemma FinishKeepsGate(call: Call, who: Party)
    requires GateInv(call)
    ensures GateInv(FinishNext(call, who))
  {
    hide At;
    var pc, next := At(call.parties, who), FinishNext(call, who);
    FinishMoves(call, who);
    if pc.AtCas? && call.finished {
      LoserKeepsGate(call, next, who);
    } else if pc.AtCas? || Holds(pc) {
      hide FinishNext;
      assert !Holds(pc) ==> forall x :: !Holds(At(call.parties, x));
      WinnerKeepsGate(next, who) by {
        hide SomeoneHolds, SomeoneWrote, SomeoneWon;
        if Holds(pc) {
          OnlyHolder(call, who);
        } else {
          NoHolder(call);
        }
        FinishCounts(call, who);
      }
    }
  }

  lemma LoserKeepsGate(call: Call, next: Call, who: Party)
    requires GateInv(call) && call.finished && !Holds(At(call.parties, who))
    requires next == call.(parties := next.parties) && At(next.parties, who).Lost?
    requires forall x :: x != who ==> At(next.parties, x) == At(call.parties, x)
    ensures GateInv(next)
  {
    hide At;
    SameWitnesses(call, next, who);
  }

  lemma FinishCounts(call: Call, who: Party)
    ensures var pc, next := At(call.parties, who), FinishNext(call, who);
      && next.writes == call.writes + (if pc.WriteResult? then 1 else 0)
      && next.dones == call.dones + (if pc.RunDone? then 1 else 0)
      && next.finished == (call.finished || pc.AtCas?)
  {
    hide At;
  }

  lemma NoHolder(call: Call)
    requires forall x :: !Holds(At(call.parties, x))
    ensures !SomeoneWrote(call.parties) && !SomeoneWon(call.parties)
  {
    hide At;
    assert forall x :: At(call.parties, x).RunDone? || At(call.parties, x).Won? ==> Holds(At(call.parties, x));
  }

  lemma WinnerKeepsGate(call: Call, who: Party)
    requires Holds(At(call.parties, who)) && call.finished
    requires forall x :: x != who ==> !Holds(At(call.parties, x))
    requires forall x :: At(call.parties, x).Lost? ==> call.finished
    requires call.writes == if At(call.parties, who).RunDone? || At(call.parties, who).Won? then 1 else 0
    requires call.dones == if At(call.parties, who).Won? then 1 else 0
    ensures GateInv(call)
  {
    hide At;
    OnlyHolder(call, who);
  }

  lemma OnlyHolder(call: Call, who: Party)
    requires Holds(At(call.parties, who))
    requires forall x :: x != who ==> !Holds(At(call.parties, x))
    ensures SomeoneHolds(call.parties)
    ensures SomeoneWrote(call.parties) == (At(call.parties, who).RunDone? || At(call.parties, who).Won?)
    ensures SomeoneWon(call.parties) == At(call.parties, who).Won?
  {
    if SomeoneWrote(call.parties) {
      var x :| At(call.parties, x).RunDone? || At(call.parties, x).Won?;
      assert Holds(At(call.parties, x));
    }
    if SomeoneWon(call.parties) {
      var x :| At(call.parties, x).Won?;
      assert Holds(At(call.parties, x));
    }
  }

  /** What a step inside `finishRpc` may change. */
  ghost predicate Advances(call: Call, next: Call, who: Party) {
    && next.sender == call.sender && next.hasId == call.hasId && next.timer == call.timer
    && next.pooled == call.pooled && next.waiter == call.waiter && next.msgId == call.msgId
    && (forall x :: x != who ==> At(next.parties, x) == At(call.parties, x))
    && !At(call.parties, who).Off? && !At(next.parties, who).Off?
    && (At(call.parties, who).Lost? ==> At(next.parties, who).Lost?)
    && (call.finished ==> next.finished)
    && (At(call.parties, who).AtCas? ==> next.finished)
    && (next.cancelled ==> call.cancelled || Holds(At(call.parties, who)))
    && (call.cancelled ==> next.cancelled) && next.sends == call.sends
    && (PastTimer(At(next.parties, who)) ==>
          PastTimer(At(call.parties, who)) || call.timer.NoTimer? || next.cancelled)
    && (next.dones == call.dones || At(call.parties, who).RunDone?)
  }

  lemma FinishAdvances(call: Call, who: Party)
    requires !At(call.parties, who).Off?
    ensures Advances(call, FinishNext(call, who), who)
  {
    hide At;
    FinishMoves(call, who);
  }

  lemma FinishKeepsSender(call: Call, next: Call, who: Party)
    requires SenderInv(call) && Advances(call, next, who)
    requires Holds(At(call.parties, who)) ==> call.finished
    ensures SenderInv(next)
  {
    hide At, Holds;
  }

  lemma NotDoneYet(call: Call, who: Party)
    requires GateInv(call) && At(call.parties, who).RunDone?
    ensures call.dones == 0
  {
    OnlyHolder(call, who);
  }

  lemma FinishKeepsWaiter(call: Call, next: Call, who: Party)
    requires WaiterInv(call) && Advances(call, next, who)
    requires At(call.parties, who).RunDone? ==> call.dones == 0
    ensures WaiterInv(next)
  {
    hide At, Holds;
  }

  lemma FinishKeeps(call: Call, who: Party)
    requires CallInv(call) && !At(call.parties, who).Off?
    ensures CallInv(FinishNext(call, who))
  {
    FinishKeepsGate(call, who);
    FinishAdvances(call, who);
    if At(call.parties, who).RunDone? {
      NotDoneYet(call, who);
    }
    assert Holds(At(call.parties, who)) ==> call.finished;
    hide GateInv, SenderInv, WaiterInv, Advances, FinishNext;
    FinishKeepsSender(call, FinishNext(call, who), who);
    FinishKeepsWaiter(call, FinishNext(call, who), who);
  }

  lemma SenderFails(call: Call)
    requires CallInv(call) && (call.sender.Setup? || call.sender.Connecting?)
    ensures CallInv(SenderNext(call, true))
  {
    EnterKeepsGate(call, Sender);
    hide SomeoneHolds, SomeoneWrote, SomeoneWon;
    var next := SenderNext(call, true);
    assert forall x :: x != Sender ==> At(next.parties, x) == At(call.parties, x);
  }

  lemma SenderMovesEarly(call: Call)
    requires SenderInv(call) && (BeforeArm(call.sender) || call.sender.Connecting?)
    ensures SenderInv(SenderNext(call, false))
  {
    hide At;
  }

  lemma SenderMovesLate(call: Call)
    requires SenderInv(call) && !BeforeArm(call.sender) && !call.sender.Connecting?
    requires call.sender.Failing? ==> call.finished
    ensures SenderInv(SenderNext(call, false))
  {
    hide At;
  }

  lemma SenderFrame(call: Call)
    ensures var next := SenderNext(call, false);
      && next.parties == call.parties && next.finished == call.finished
      && next.writes == call.writes && next.dones == call.dones
      && next.waiter == call.waiter && (HasReturned(call) ==> HasReturned(next))
  {
  }

  lemma SenderMoves(call: Call)
    requires CallInv(call) && !call.sender.Gone?
    requires call.sender.Failing? ==> call.finished
    ensures CallInv(SenderNext(call, false))
  {
    SenderFrame(call);
    hide SomeoneHolds, SomeoneWrote, SomeoneWon, At, Holds, SenderInv, SenderNext, HasReturned;
    if BeforeArm(call.sender) || call.sender.Connecting? {
      SenderMovesEarly(call);
    } else {
      SenderMovesLate(call);
    }
  }

  lemma SenderKeeps(call: Call, fails: bool)
    requires CallInv(call) && !call.sender.Gone?
    requires fails ==> call.sender.Setup? || call.sender.Connecting?
    requires call.sender.Failing? ==> At(call.parties, Sender).Won? || At(call.parties, Sender).Lost?
    ensures CallInv(SenderNext(call, fails))
  {
    if fails {
      SenderFails(call);
    } else {
      if At(call.parties, Sender).Won? {
        assert Holds(At(call.parties, Sender));
      }
      SenderMoves(call);
    }
  }

  lemma TimerKeeps(call: Call)
    requires CallInv(call) && (call.timer.Armed? || call.timer.Collected?)
    ensures CallInv(TimerNext(call))
  {
    var next := TimerNext(call);
    if call.timer.Collected? && !call.cancelled {
      EnterKeepsGate(call, Timer);
      hide SomeoneHolds, SomeoneWrote, SomeoneWon;
      assert forall x :: x != Timer ==> At(next.parties, x) == At(call.parties, x);
    }
  }

  lemma ResponderKeeps(call: Call)
    requires CallInv(call) && Registered(call.sender) && At(call.parties, Responder).Off?
    ensures CallInv(Enter(call, Responder, AtCas))
  {
    EnterKeepsGate(call, Responder);
    hide SomeoneHolds, SomeoneWrote, SomeoneWon;
    var next := Enter(call, Responder, AtCas);
    assert forall x :: x != Responder ==> At(next.parties, x) == At(call.parties, x);
  }

  lemma TimeOutKeeps(call: Call)
    requires CallInv(call) && call.waiter.Waiting?
    ensures CallInv(Enter(call, Waiter, AtCas).(waiter := Claiming))
  {
    EnterKeepsGate(call, Waiter);
    hide SomeoneHolds, SomeoneWrote, SomeoneWon;
    var next := Enter(call, Waiter, AtCas).(waiter := Claiming);
    assert forall x :: x != Waiter ==> At(next.parties, x) == At(call.parties, x);
  }

  lemma WaiterKeeps(call: Call)
    requires CallInv(call)
    requires call.waiter.Waiting? || call.waiter.WaitDone? ==> call.dones > 0
    requires call.waiter.Claiming? ==> At(call.parties, Waiter).Won? || At(call.parties, Waiter).Lost?
    ensures CallInv(WaiterNext(call))
  {
    if At(call.parties, Waiter).Won? {
      assert SomeoneWon(call.parties);
    }
    hide SomeoneHolds, SomeoneWrote;
  }

  // ---------------------------------------------------------------------------------------
  // All calls and the table
  // ---------------------------------------------------------------------------------------

  /** The finisher has not yet reached the removal of the response callback. */
  ghost predicate ReadStillDue(parties: map<Party, FinishPc>) {
    forall who :: Holds(At(parties, who)) ==> At(parties, who).DropTimer? || At(parties, who).DropRead?
  }

  /** A callback in the table belongs to a registered call that is still waiting for it, or
      that someone is about to take out. */
  ghost predicate EntryInv(call: Call) {
    && Registered(call.sender) && call.hasId && At(call.parties, Responder).Off?
    && (ReadStillDue(call.parties) || call.sender.Recheck? || call.sender.Unregister?)
  }

  ghost predicate TableInv(s: System) {
    forall id :: id in s.table ==>
      var c := s.table[id];
      c in s.calls && s.calls[c].msgId == id && EntryInv(s.calls[c])
  }

  ghost predicate UniqueIds(s: System) {
    forall c, d :: c in s.calls && d in s.calls && c != d && s.calls[c].msgId == s.calls[d].msgId ==>
      Through(s.calls[c]) || Through(s.calls[d])
  }

  /** A registered call that nothing has finished or answered can still be answered. */
  predicate Listening(call: Call) {
    Registered(call.sender) && call.hasId && !call.finished && At(call.parties, Responder).Off?
  }

  ghost predicate NoLostCallback(s: System) {
    forall c :: c in s.calls && Listening(s.calls[c]) ==>
      s.stopped || (s.calls[c].msgId in s.table && s.table[s.calls[c].msgId] == c)
  }

  ghost predicate SystemInv(s: System) {
    && (forall c :: c in s.calls ==> CallInv(s.calls[c]))
    && TableInv(s)
    && UniqueIds(s)
    && NoLostCallback(s)
  }

  /** A call that is through has no callback in the table. */
  lemma ThroughHasNoEntry(s: System, id: nat)
    requires TableInv(s) && id in s.table && GateInv(s.calls[s.table[id]])
    ensures !Through(s.calls[s.table[id]])
  {
    var call := s.calls[s.table[id]];
    if Through(call) {
      var who :| At(call.parties, who).Won?;
      assert Holds(At(call.parties, who));
    }
  }

  /** The table after a step of call `c`: untouched, or changed at that call's identifier. */
  predicate TableStep(s: System, c: nat, next: Call, table: map<nat, nat>)
    requires c in s.calls
  {
    || table == s.table
    || (table == s.table - {next.msgId} && !Listening(next))
    || table == s.table[next.msgId := c]
  }

  lemma UpdateKeepsTable(s: System, c: nat, next: Call, table: map<nat, nat>)
    requires TableInv(s) && c in s.calls && next.msgId == s.calls[c].msgId
    requires TableStep(s, c, next, table)
    requires next.msgId in table && table[next.msgId] == c ==> EntryInv(next)
    ensures TableInv(System(s.calls[c := next], table, s.stopped))
  {
    hide EntryInv, Listening;
    var t := System(s.calls[c := next], table, s.stopped);
    forall id | id in t.table
      ensures t.table[id] in t.calls && t.calls[t.table[id]].msgId == id && EntryInv(t.calls[t.table[id]])
    {
      if t.table[id] == c {
        assert id == next.msgId;
      }
    }
  }

  lemma UpdateKeepsCallbacks(s: System, c: nat, next: Call, table: map<nat, nat>)
    requires NoLostCallback(s) && UniqueIds(s) && c in s.calls && next.msgId == s.calls[c].msgId
    requires TableStep(s, c, next, table)
    requires table == s.table || !Through(s.calls[c])
    requires Listening(next) ==> Listening(s.calls[c]) || table == s.table[next.msgId := c]
    ensures NoLostCallback(System(s.calls[c := next], table, s.stopped))
  {
    hide Through, Listening;
    var t := System(s.calls[c := next], table, s.stopped);
    forall d | d in t.calls && Listening(t.calls[d])
      ensures t.stopped || (t.calls[d].msgId in t.table && t.table[t.calls[d].msgId] == d)
    {
      if d != c && t.calls[d].msgId == next.msgId {
        ListeningIsNotThrough(s.calls[d]);
      }
    }
  }

  lemma ListeningIsNotThrough(call: Call)
    requires Listening(call)
    ensures !Through(call)
  {
  }

  lemma UpdateKeepsIds(s: System, c: nat, next: Call, table: map<nat, nat>)
    requires UniqueIds(s) && c in s.calls && next.msgId == s.calls[c].msgId
    requires Through(s.calls[c]) ==> Through(next)
    ensures UniqueIds(System(s.calls[c := next], table, s.stopped))
  {
    hide Through;
  }

  /** A step of one call, which may change the table at its own identifier, keeps the
      invariant of the whole system. */
  lemma UpdateKeeps(s: System, c: nat, next: Call, table: map<nat, nat>)
    requires SystemInv(s) && c in s.calls && CallInv(next) && next.msgId == s.calls[c].msgId
    requires Through(s.calls[c]) ==> Through(next)
    requires TableStep(s, c, next, table)
    requires next.msgId in table && table[next.msgId] == c ==> EntryInv(next)
    requires table == s.table || !Through(s.calls[c])
    requires Listening(next) ==> Listening(s.calls[c]) || table == s.table[next.msgId := c]
    ensures SystemInv(System(s.calls[c := next], table, s.stopped))
  {
    hide CallInv, EntryInv, Through, Listening, TableInv, UniqueIds, NoLostCallback, TableStep;
    UpdateKeepsTable(s, c, next, table);
    UpdateKeepsIds(s, c, next, table);
    UpdateKeepsCallbacks(s, c, next, table);
  }

  // The conditions of UpdateKeeps, step by step.

  lemma StillThrough(call: Call, next: Call, who: Party)
    requires GateInv(call) && Through(call)
    requires next.finished && next.sender == call.sender
    requires forall x :: x != who ==> At(next.parties, x) == At(call.parties, x)
    requires At(call.parties, who).Won? ==> At(next.parties, who).Won?
    ensures Through(next)
  {
    var x :| At(call.parties, x).Won?;
    assert At(next.parties, x).Won?;
  }

  /** Before its last step the sender is not through with the call. */
  lemma SenderNotThrough(call: Call, fails: bool)
    requires !call.sender.Gone?
    ensures SenderNext(call, fails).msgId == call.msgId && !Through(call)
  {
  }

  lemma SenderEntryInv(call: Call, fails: bool)
    requires GateInv(call) && SenderInv(call) && !call.sender.Gone?
    requires fails ==> call.sender.Setup? || call.sender.Connecting?
    ensures EntryInv(call) && !call.sender.Unregister? ==> EntryInv(SenderNext(call, fails))
    ensures call.sender.Register? ==> EntryInv(SenderNext(call, fails))
  {
    hide SomeoneWrote, SomeoneWon, Holds, At;
  }

  lemma SenderListening(call: Call, fails: bool)
    requires SenderInv(call) && !call.sender.Gone? && (call.sender.Failing? ==> call.finished)
    requires fails ==> call.sender.Setup? || call.sender.Connecting?
    ensures var next := SenderNext(call, fails);
      && (Listening(next) ==> Listening(call) || call.sender.Register?)
      && (call.sender.Unregister? ==> !Listening(next))
  {
  }

  lemma SenderStepKeeps(s: System, c: nat, fails: bool)
    requires SystemInv(s) && Enabled(s, SenderStep(c, fails))
    ensures SystemInv(Apply(s, SenderStep(c, fails)))
  {
    var call := s.calls[c];
    assert call.sender.Failing? ==> call.finished by {
      assert CallInv(call);
      if At(call.parties, Sender).Won? {
        assert Holds(At(call.parties, Sender));
      }
    }
    SenderKeeps(call, fails);
    SenderNotThrough(call, fails);
    SenderEntryInv(call, fails);
    SenderListening(call, fails);
    hide CallInv, EntryInv, SenderNext, Listening, Through, UniqueIds, NoLostCallback;
    UpdateKeeps(s, c, SenderNext(call, fails), TableAfterSender(s, c));
  }

  lemma FinishEntryInv(call: Call, who: Party)
    requires CallInv(call) && !At(call.parties, who).Off? && !At(call.parties, who).Won?
    ensures var next := FinishNext(call, who);
      && next.msgId == call.msgId && (Through(call) ==> Through(next))
      && (EntryInv(call) && !At(call.parties, who).DropRead? ==> EntryInv(next))
      && (EntryInv(call) ==> call.hasId)
      && (Listening(next) ==> Listening(call))
      && (At(call.parties, who).DropRead? ==> !Listening(next) && !Through(call))
  {
    FinishAdvances(call, who);
    var pc, next := At(call.parties, who), FinishNext(call, who);
    if Through(call) {
      StillThrough(call, next, who);
    }
    if Holds(pc) {
      OnlyHolder(call, who);
    }
    hide GateInv, SenderInv, WaiterInv, SomeoneHolds, SomeoneWrote;
  }

  lemma FinishStepKeeps(s: System, c: nat, who: Party)
    requires SystemInv(s) && Enabled(s, Finish(c, who))
    ensures SystemInv(Apply(s, Finish(c, who)))
  {
    var call := s.calls[c];
    FinishKeeps(call, who);
    FinishEntryInv(call, who);
    EntryOf(s, c);
    var t := Apply(s, Finish(c, who));
    assert t == System(s.calls[c := FinishNext(call, who)], TableAfterFinish(s, c, who), s.stopped);
    hide CallInv, EntryInv, FinishNext, Listening, Through, SystemInv, At, Holds, Enabled, Apply;
    UpdateKeeps(s, c, FinishNext(call, who), TableAfterFinish(s, c, who));
  }

  lemma EntryOf(s: System, c: nat)
    requires SystemInv(s) && c in s.calls
    ensures s.calls[c].msgId in s.table && s.table[s.calls[c].msgId] == c ==> EntryInv(s.calls[c])
  {
    hide CallInv, EntryInv, UniqueIds, NoLostCallback;
  }

  /** A party that was outside `finishRpc` comes to its gate. */
  lemma EnterEntryInv(call: Call, next: Call, who: Party)
    requires GateInv(call) && At(call.parties, who).Off? && next.parties == call.parties[who := AtCas]
    requires next.sender == call.sender && next.finished == call.finished && next.hasId == call.hasId
    ensures Through(call) ==> Through(next)
    ensures EntryInv(call) && who != Responder ==> EntryInv(next)
    ensures Listening(next) ==> Listening(call)
    ensures who == Responder ==> !Listening(next)
  {
    assert forall x :: x != who ==> At(next.parties, x) == At(call.parties, x);
    if Through(call) {
      StillThrough(call, next, who);
    }
    hide GateInv;
  }

  lemma TimerStepKeeps(s: System, c: nat)
    requires SystemInv(s) && Enabled(s, TimerStep(c))
    ensures SystemInv(Apply(s, TimerStep(c)))
  {
    var call := s.calls[c];
    TimerKeeps(call);
    if call.timer.Collected? && !call.cancelled {
      EnterEntryInv(call, TimerNext(call), Timer);
    }
    hide CallInv, UniqueIds, NoLostCallback;
    UpdateKeeps(s, c, TimerNext(call), s.table);
  }

  lemma DeliverReady(s: System, msgId: nat)
    requires SystemInv(s) && msgId in s.table
    ensures var c := s.table[msgId];
      && c in s.calls && s.calls[c].msgId == msgId && CallInv(s.calls[c])
      && EntryInv(s.calls[c]) && !Through(s.calls[c])
  {
    hide CallInv, EntryInv, Through, UniqueIds, NoLostCallback, Listening;
    var call := s.calls[s.table[msgId]];
    assert CallInv(call);
    GateOf(call);
    ThroughHasNoEntry(s, msgId);
  }

  lemma GateOf(call: Call)
    requires CallInv(call)
    ensures GateInv(call) && SenderInv(call) && WaiterInv(call)
  {
  }

  lemma DeliverKeeps(s: System, msgId: nat)
    requires SystemInv(s)
    ensures SystemInv(Apply(s, Deliver(msgId)))
  {
    if msgId in s.table {
      hide SystemInv;
      DeliverReady(s, msgId);
      var c := s.table[msgId];
      ResponderKeeps(s.calls[c]);
      var next := Enter(s.calls[c], Responder, AtCas);
      EnterEntryInv(s.calls[c], next, Responder);
      hide CallInv, EntryInv, Listening, Through;
      UpdateKeeps(s, c, next, s.table - {msgId});
    }
  }

  lemma TimeOutStepKeeps(s: System, c: nat)
    requires SystemInv(s) && Enabled(s, TimeOut(c))
    ensures SystemInv(Apply(s, TimeOut(c)))
  {
    var call := s.calls[c];
    var next := Enter(call, Waiter, AtCas).(waiter := Claiming);
    TimeOutKeeps(call);
    EnterEntryInv(call, next, Waiter);
    hide CallInv, EntryInv, Listening, Through, UniqueIds, NoLostCallback;
    UpdateKeeps(s, c, next, s.table);
  }

  /** A change to the waiter's program counter alone. */
  lemma WaiterOnly(s: System, c: nat, next: Call)
    requires SystemInv(s) && c in s.calls && CallInv(next)
    requires next == s.calls[c].(waiter := next.waiter)
    ensures SystemInv(s.(calls := s.calls[c := next]))
  {
    hide CallInv, UniqueIds, NoLostCallback, ReadStillDue, At, SomeoneWon;
    UpdateKeeps(s, c, next, s.table);
  }

  lemma WaiterStepKeeps(s: System, c: nat, step: Step)
    requires SystemInv(s) && Enabled(s, step) && (step == StartWait(c) || step == WaiterStep(c))
    ensures SystemInv(Apply(s, step))
  {
    var call := s.calls[c];
    assert CallInv(call);
    hide SystemInv, GateInv, SenderInv;
    var next := if step.StartWait? then call.(waiter := Waiting) else WaiterNext(call);
    if step.WaiterStep? {
      WaiterKeeps(call);
    } else {
      StartWaitKeeps(call);
    }
    hide CallInv, HasReturned;
    WaiterOnly(s, c, next);
  }

  lemma StartWaitKeeps(call: Call)
    requires CallInv(call) && call.waiter.NotWaiting? && HasReturned(call)
    ensures CallInv(call.(waiter := Waiting))
  {
    hide SomeoneHolds, SomeoneWrote, SomeoneWon, Holds, At;
  }

  lemma FreshCall(call: Call)
    requires call == Call(call.msgId, call.pooled, false, Setup, false, NoTimer, false, map[],
                          NotWaiting, 0, 0, 0)
    ensures CallInv(call) && !Listening(call)
  {
    assert forall who :: At(call.parties, who).Off?;
  }

  /** A new call that does not listen yet changes nothing for the others. */
  lemma NewCallKeeps(s: System, c: nat, call: Call)
    requires c !in s.calls && !Listening(call)
    ensures TableInv(s) ==> TableInv(s.(calls := s.calls[c := call]))
    ensures NoLostCallback(s) ==> NoLostCallback(s.(calls := s.calls[c := call]))
  {
    hide EntryInv, Listening;
  }

  lemma NewCallIds(s: System, c: nat, call: Call)
    requires c !in s.calls && UniqueIds(s)
    requires forall d :: d in s.calls && s.calls[d].msgId == call.msgId ==> Through(s.calls[d])
    ensures UniqueIds(s.(calls := s.calls[c := call]))
  {
    hide Through;
  }

  lemma BeginKeeps(s: System, c: nat, msgId: nat, pooled: bool)
    requires SystemInv(s) && Enabled(s, Begin(c, msgId, pooled))
    ensures SystemInv(Apply(s, Begin(c, msgId, pooled)))
  {
    var t := Apply(s, Begin(c, msgId, pooled));
    FreshCall(t.calls[c]);
    hide CallInv, Through, Listening, TableInv, NoLostCallback, UniqueIds;
    NewCallKeeps(s, c, t.calls[c]);
    NewCallIds(s, c, t.calls[c]);
  }

  lemma StepPreserves(s: System, step: Step)
    requires SystemInv(s) && Enabled(s, step)
    ensures SystemInv(Apply(s, step))
  {
    match step {
      case Begin(c, msgId, pooled) => BeginKeeps(s, c, msgId, pooled);
      case SenderStep(c, fails) => SenderStepKeeps(s, c, fails);
      case Finish(c, who) => FinishStepKeeps(s, c, who);
      case TimerStep(c) => TimerStepKeeps(s, c);
      case Deliver(msgId) => DeliverKeeps(s, msgId);
      case StartWait(c) => WaiterStepKeeps(s, c, step);
      case TimeOut(c) => TimeOutStepKeeps(s, c);
      case WaiterStep(c) => WaiterStepKeeps(s, c, step);
      case StopClient =>
    }
    hide Enabled, CallInv, EntryInv, Through, Listening;
  }

  // ---------------------------------------------------------------------------------------
  // All interleavings
  // ---------------------------------------------------------------------------------------

  ghost function Exec(steps: seq<Step>): Run<System> {
    if steps == [] then Reached(System(map[], map[], false))
    else
      var n := |steps| - 1;
      var before := Exec(steps[..n]);
      if before.Reached? && Enabled(before.state, steps[n]) then Reached(Apply(before.state, steps[n]))
      else Illegal
  }

  lemma {:induction false} ReachableInv(steps: seq<Step>)
    requires Exec(steps).Reached?
    ensures SystemInv(Exec(steps).state)
  {
    if steps != [] {
      hide SystemInv, Enabled, Apply;
      var n := |steps| - 1;
      ReachableInv(steps[..n]);
      StepPreserves(Exec(steps[..n]).state, steps[n]);
    }
  }

  /** In every interleaving the result of a call is written at most once and its closure runs
      at most once, after the write; both have happened as soon as sender and finisher are
      through. */
  lemma {:induction false} CompletesOnce(steps: seq<Step>, s: System, c: nat)
    requires Exec(steps) == Reached(s) && c in s.calls
    ensures s.calls[c].dones <= s.calls[c].writes <= 1
    ensures s.calls[c].writes == 1 ==> s.calls[c].finished
    ensures Through(s.calls[c]) ==> s.calls[c].dones == 1
  {
    ReachableInv(steps);
    var call := s.calls[c];
    assert CallInv(call);
    hide SenderInv, WaiterInv, SystemInv;
    if SomeoneWon(call.parties) {
      var x :| At(call.parties, x).Won?;
      assert SomeoneWrote(call.parties);
    }
    if SomeoneWrote(call.parties) {
      var x :| At(call.parties, x).RunDone? || At(call.parties, x).Won?;
      assert Holds(At(call.parties, x));
    }
  }

  /** No call is forgotten: once set up, it is finished or its timer will finish it. */
  lemma {:induction false} AlwaysCovered(steps: seq<Step>, s: System, c: nat)
    requires Exec(steps) == Reached(s) && c in s.calls
    ensures Started(s.calls[c]) ==> Covered(s.calls[c])
    ensures HasReturned(s.calls[c]) && !s.calls[c].finished ==> Started(s.calls[c])
  {
    ReachableInv(steps);
    assert CallInv(s.calls[c]);
    hide GateInv, WaiterInv, SystemInv, At;
  }

  /** The request of a call is sent at most once, after the set-up, and it is left out only if the
      call was finished first; once sender and finisher are through, the timer is cancelled. */
  lemma {:induction false} SentAtMostOnce(steps: seq<Step>, s: System, c: nat)
    requires Exec(steps) == Reached(s) && c in s.calls
    ensures s.calls[c].sends <= 1
    ensures s.calls[c].sends == 1 ==> s.calls[c].sender.Gone?
    ensures s.calls[c].sender.Gone? && s.calls[c].sends == 0 ==> s.calls[c].finished
    ensures Through(s.calls[c]) ==> s.calls[c].timer.NoTimer? || s.calls[c].cancelled
  {
    ReachableInv(steps);
    var call := s.calls[c];
    assert CallInv(call);
    hide GateInv, WaiterInv, SystemInv, At, Covered, Exec;
    if Through(call) {
      var who :| At(call.parties, who).Won?;
      assert PastTimer(At(call.parties, who));
    }
  }

  /** No callback is left behind by a call that is through, and none is lost that a response
      could still be for. */
  lemma {:induction false} CallbacksAreExact(steps: seq<Step>, s: System)
    requires Exec(steps) == Reached(s)
    ensures forall id :: id in s.table ==>
      s.table[id] in s.calls && s.calls[s.table[id]].msgId == id && !Through(s.calls[s.table[id]])
    ensures forall c :: c in s.calls && Listening(s.calls[c]) && !s.stopped ==>
      s.calls[c].msgId in s.table && s.table[s.calls[c].msgId] == c
  {
    ReachableInv(steps);
    forall id | id in s.table ensures !Through(s.calls[s.table[id]]) {
      assert CallInv(s.calls[s.table[id]]);
      ThroughHasNoEntry(s, id);
    }
    hide CallInv, EntryInv;
  }

  /** Once a blocking call has returned, the result has been written and the closure has run,
      and from then on no step of any party writes the result again. */
  lemma {:induction false} NoWriteAfterReturn(steps: seq<Step>, later: seq<Step>, s: System, t: System, c: nat)
    requires Exec(steps) == Reached(s) && Exec(steps + later) == Reached(t)
    requires c in s.calls && s.calls[c].waiter.Returned?
    ensures s.calls[c].writes == 1 && s.calls[c].dones == 1
    ensures c in t.calls && t.calls[c].writes == 1
  {
    ReachableInv(steps);
    assert CallInv(s.calls[c]);
    CompletesOnce(steps, s, c);
    WritesOnlyGrow(steps, later, c);
    CompletesOnce(steps + later, t, c);
    hide SystemInv, CallInv;
  }

  lemma WritesGrow(s: System, step: Step, c: nat)
    requires Enabled(s, step) && c in s.calls
    ensures c in Apply(s, step).calls && s.calls[c].writes <= Apply(s, step).calls[c].writes
  {
    hide Through, At, SenderNext, FinishNext, TimerNext, WaiterNext;
  }

  lemma {:induction false} WritesOnlyGrow(steps: seq<Step>, later: seq<Step>, c: nat)
    requires Exec(steps).Reached? && Exec(steps + later).Reached? && c in Exec(steps).state.calls
    ensures c in Exec(steps + later).state.calls
    ensures Exec(steps).state.calls[c].writes <= Exec(steps + later).state.calls[c].writes
    decreases |later|
  {
    if later == [] {
      assert steps + later == steps;
    } else {
      hide Enabled, Apply;
      var n := |later| - 1;
      assert (steps + later)[..|steps + later| - 1] == steps + later[..n];
      WritesOnlyGrow(steps, later[..n], c);
      WritesGrow(Exec(steps + later[..n]).state, later[n], c);
    }
  }

  /** A sender that finds the call finished before it registers leaves, and the table with it. */
  lemma FinishedIsNotRegistered(s: System, c: nat)
    requires c in s.calls && s.calls[c].sender.Check? && s.calls[c].finished
    ensures Enabled(s, SenderStep(c, false))
    ensures var t := Apply(s, SenderStep(c, false));
      t.table == s.table && t.calls[c] == s.calls[c].(sender := Gone)
  {
  }

  /** A stopped client answers nobody: a response that comes then changes nothing. */
  lemma StoppedAnswersNobody(s: System, msgId: nat)
    ensures var t := Apply(s, StopClient);
      t.calls == s.calls && Apply(t, Deliver(msgId)) == t
  {
  }
}
