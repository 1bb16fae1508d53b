/** Sending from other threads: producers push to the queue and one of them, chosen by a
    compare-and-swap on a flag, schedules a drain on the loop thread. One step per atomic
    operation of `send` and of `drainWriteQueue`, over the steps of the queue itself. */
module WritePath {
  import opened Runs
  import opened MpscQueue

  const ROUNDS := 3
  const BATCH := 256

  datatype Connection = NotConnected | Connected | HalfClosing | Closed

  /** Where a producer is inside `send`. */
  datatype SendPc = Outside | Pushing | AtCas | AtSchedule

  /** Where the loop thread is inside `drainWriteQueue`. */
  datatype DrainPc =
    | Asleep
    | Draining(round: nat, taken: nat)
    | EndRound(round: nat)
    | Clearing
    | Recheck
    | ReCas
    | ReSchedule

  /** `flag` says that a drain is on its way and `tasks` counts the drains waiting in the
      loop's queue. `batch` holds what the current round collected and `sent` what was handed
      to the connection; `steady` records that the connection was never seen to leave the
      connected state. */
  datatype World<M> = World(
    q: State<M>,
    flag: bool,
    tasks: nat,
    senders: map<nat, SendPc>,
    drain: DrainPc,
    conn: Connection,
    steady: bool,
    batch: seq<M>,
    sent: seq<M>
  )

  datatype Action<M> =
    | Begin(p: nat, id: nat, m: M)
    | Push(p: nat)
    | TryCas(p: nat)
    | Schedule(p: nat)
    | LoopStep
    | SetConnection(conn: Connection)

  function Start<M>(): World<M> {
    World(Init(), false, 0, map[], Asleep, Connected, true, [], [])
  }

  function PcOf(senders: map<nat, SendPc>, p: nat): SendPc {
    if p in senders then senders[p] else Outside
  }

  predicate Accepting(conn: Connection) {
    conn != HalfClosing && conn != Closed
  }

  predicate Can<M>(w: World<M>, a: Action<M>) {
    match a
    case Begin(p, id, m) =>
      PcOf(w.senders, p).Outside? && Accepting(w.conn) && Enabled(w.q, Prepare(p, id, m))
    case Push(p) => PcOf(w.senders, p).Pushing? && (Enabled(w.q, Exchange(p)) || Enabled(w.q, Link(p)))
    case TryCas(p) => PcOf(w.senders, p).AtCas?
    case Schedule(p) => PcOf(w.senders, p).AtSchedule?
    case LoopStep => w.drain != Asleep || w.tasks > 0
    case SetConnection(_) => true
  }

  /** The consumer's own test: the head is the stub and nothing is linked behind it. */
  predicate Empty<M>(q: State<M>) {
    q.head == Stub && (Stub in q.next ==> q.next[Stub] == Null)
  }

  function DrainStep<M>(w: World<M>): World<M> {
    match w.drain
    case Asleep => if w.tasks > 0 then w.(tasks := w.tasks - 1, drain := Draining(0, 0)) else w
    case Draining(round, taken) =>
      if w.q.consumer.Returned? then
        var h := w.q.consumer.h;
        w.(q := Apply(w.q, Free),
           batch := if w.conn == Connected && h in w.q.data then w.batch + [w.q.data[h]] else w.batch,
           drain := if taken + 1 < BATCH then Draining(round, taken + 1) else EndRound(round))
      else
        var q := Apply(w.q, Pop);
        w.(q := q, drain := if q.consumer.Resting? then EndRound(round) else w.drain)
    case EndRound(round) =>
      w.(sent := w.sent + w.batch, batch := [],
         drain := if round + 1 < ROUNDS then Draining(round + 1, 0) else Clearing)
    case Clearing => w.(flag := false, drain := Recheck)
    case Recheck => w.(drain := if Empty(w.q) then Asleep else ReCas)
    case ReCas => if w.flag then w.(drain := Asleep) else w.(flag := true, drain := ReSchedule)
    case ReSchedule => w.(tasks := w.tasks + 1, drain := Asleep)
  }

  function Act<M>(w: World<M>, a: Action<M>): World<M>
    requires Can(w, a)
  {
    match a
    case Begin(p, id, m) =>
      w.(q := Apply(w.q, Prepare(p, id, m)), senders := w.senders[p := Pushing])
    case Push(p) =>
      if Enabled(w.q, Exchange(p)) then w.(q := Apply(w.q, Exchange(p)))
      else w.(q := Apply(w.q, Link(p)), senders := w.senders[p := AtCas])
    case TryCas(p) =>
      w.(flag := true, senders := w.senders[p := if w.flag then Outside else AtSchedule])
    case Schedule(p) =>
      w.(tasks := w.tasks + 1, senders := w.senders[p := Outside])
    case LoopStep => DrainStep(w)
    case SetConnection(conn) => w.(conn := conn, steady := w.steady && conn == Connected)
  }

  // ---------------------------------------------------------------------------------------
  // The invariant
  // ---------------------------------------------------------------------------------------

  /** The drain in progress still answers for the flag. */
  predicate DrainHolds(d: DrainPc) {
    d.Draining? || d.EndRound? || d.Clearing? || d.ReSchedule?
  }

  /** The flag is up exactly while one drain is waiting, being scheduled or running. */
  ghost predicate TokenInv<M>(w: World<M>) {
    && w.tasks <= 1
    && (DrainHolds(w.drain) ==> w.tasks == 0)
    && (forall p :: PcOf(w.senders, p).AtSchedule? ==> w.tasks == 0 && !DrainHolds(w.drain))
    && (forall p, r :: PcOf(w.senders, p).AtSchedule? && PcOf(w.senders, r).AtSchedule? ==> p == r)
    && (w.flag <==> w.tasks == 1 || DrainHolds(w.drain) || Scheduling(w.senders))
  }

  ghost predicate Scheduling(senders: map<nat, SendPc>) {
    exists p :: PcOf(senders, p).AtSchedule?
  }

  /** Producer `p` has exchanged the tail and has not reached its compare-and-swap yet. */
  predicate WillTry<M>(w: World<M>, p: nat) {
    PcOf(w.senders, p).AtCas? || At(w.q.producers, p).Linking?
  }

  ghost predicate SomeoneWillTry<M>(w: World<M>) {
    exists p :: WillTry(w, p)
  }

  /** A message in the queue has a drain coming, or someone who will see to it. */
  ghost predicate NoLostDrain<M>(w: World<M>) {
    w.q.exchanged != w.q.popped ==>
      w.flag || w.drain.Recheck? || w.drain.ReCas? || SomeoneWillTry(w)
  }

  ghost predicate LocalInv<M>(w: World<M>) {
    && (forall p :: PcOf(w.senders, p).Pushing? <==> !At(w.q.producers, p).Idle?)
    && (!w.drain.Draining? ==> w.q.consumer.Resting?)
  }

  /** On a steady connection the messages popped are those handed over, in order. */
  ghost predicate OutputInv<M>(w: World<M>) {
    && (w.steady ==> w.conn == Connected)
    && (w.q.consumer.Returned? ==>
         var h := w.q.consumer.h;
         && h in w.q.data && w.q.popped != [] && w.q.popped[|w.q.popped| - 1] == w.q.data[h]
         && (w.steady ==> w.sent + w.batch == w.q.popped[..|w.q.popped| - 1]))
    && (!w.q.consumer.Returned? && w.steady ==> w.sent + w.batch == w.q.popped)
    && (!w.drain.Draining? && !w.drain.EndRound? ==> w.batch == [])
  }

  ghost predicate WorldInv<M>(w: World<M>, c: seq<Node>) {
    Inv(w.q, c) && TokenInv(w) && LocalInv(w) && OutputInv(w) && NoLostDrain(w)
  }

  // ---------------------------------------------------------------------------------------
  // Preservation
  // ---------------------------------------------------------------------------------------

  ghost function ChainAfter<M>(w: World<M>, a: Action<M>, c: seq<Node>): seq<Node>
    requires Can(w, a)
  {
    match a
    case Push(p) =>
      if Enabled(w.q, Exchange(p)) then NextChain(w.q, Exchange(p), c) else NextChain(w.q, Link(p), c)
    case LoopStep =>
      if w.drain.Draining? && !w.q.consumer.Returned? then NextChain(w.q, MpscQueue.Pop, c) else c
    case _ => c
  }

  /** The queue only ever takes queue steps. */
  lemma QueueInvKept<M>(w: World<M>, a: Action<M>, c: seq<Node>)
    requires Inv(w.q, c) && Can(w, a)
    ensures Inv(Act(w, a).q, ChainAfter(w, a, c))
  {
    hide Inv, Apply;
    match a
    case Begin(p, id, m) => StepPreserves(w.q, Prepare(p, id, m), c);
    case Push(p) =>
      if Enabled(w.q, Exchange(p)) {
        StepPreserves(w.q, Exchange(p), c);
      } else {
        StepPreserves(w.q, Link(p), c);
      }
    case TryCas(p) =>
    case Schedule(p) =>
    case LoopStep =>
      if w.drain.Draining? {
        if w.q.consumer.Returned? {
          StepPreserves(w.q, Free, c);
        } else {
          StepPreserves(w.q, Pop, c);
        }
      }
    case SetConnection(_) =>
  }

  /** What taking a node changes, and what it leaves alone. */
  ghost predicate PopFrame<M>(q: State<M>, t: State<M>) {
    && t.producers == q.producers && t.exchanged == q.exchanged && t.data == q.data
    && (if t.consumer.Returned? then
          t.consumer.h in t.data && t.popped == q.popped + [t.data[t.consumer.h]]
        else t.popped == q.popped)
  }

  lemma TakeFrame<M>(q: State<M>, h: Node, next: Ptr, otherwise: Consumer)
    requires !q.consumer.Returned? && !otherwise.Returned?
    ensures PopFrame(q, Take(q, h, next, otherwise))
  {
  }

  lemma PopChanges<M>(q: State<M>)
    requires !q.consumer.Returned?
    ensures PopFrame(q, Apply(q, Pop))
  {
    hide Take;
    match q.consumer
    case Resting =>
      if q.head in q.next && q.head.Msg? {
        TakeFrame(q, q.head, q.next[q.head], LoadTail(q.head));
      }
    case Second(h) =>
      if h in q.next {
        TakeFrame(q, h, q.next[h], LoadTail(h));
      }
    case Reload(h) =>
      if h in q.next {
        TakeFrame(q, h, q.next[h], Resting);
      }
    case _ =>
  }

  lemma LocalByPush<M>(w: World<M>, p: nat)
    requires LocalInv(w) && Can(w, Push(p)) && !Act(w, Push(p)).q.fault
    ensures LocalInv(Act(w, Push(p)))
  {
    hide Act;
    var v := Act(w, Push(p));
    OthersKeep(w, Push(p));
    PushMoves(w, p);
  }

  /** A push stays a push until its link is made. */
  lemma PushMoves<M>(w: World<M>, p: nat)
    requires Can(w, Push(p)) && !Act(w, Push(p)).q.fault
    ensures var v := Act(w, Push(p));
      && (PcOf(v.senders, p).Pushing? <==> !At(v.q.producers, p).Idle?)
      && (forall r :: r != p ==> PcOf(v.senders, r) == PcOf(w.senders, r))
      && (forall r :: r != p ==> At(v.q.producers, r) == At(w.q.producers, r))
  {
    hide DrainStep, PopStep;
  }

  lemma LocalBySender<M>(w: World<M>, a: Action<M>)
    requires LocalInv(w) && Can(w, a) && (a.Begin? || a.TryCas? || a.Schedule?)
    ensures LocalInv(Act(w, a))
  {
    hide DrainStep, PopStep;
    var v := Act(w, a);
    assert forall r :: r != a.p ==> PcOf(v.senders, r) == PcOf(w.senders, r);
    assert forall r :: r != a.p ==> At(v.q.producers, r) == At(w.q.producers, r);
  }

  lemma LocalByLoop<M>(w: World<M>)
    requires LocalInv(w) && Can(w, LoopStep)
    ensures LocalInv(Act(w, LoopStep))
  {
    hide PopStep, At, PcOf;
    if w.drain.Draining? && !w.q.consumer.Returned? {
      PopChanges(w.q);
    }
  }

  lemma TokenBySender<M>(w: World<M>, a: Action<M>)
    requires TokenInv(w) && Can(w, a) && (a.Begin? || a.Push? || a.TryCas? || a.Schedule?)
    ensures TokenInv(Act(w, a))
  {
    hide Apply, DrainStep, Enabled;
    var v := Act(w, a);
    assert forall r :: r != a.p ==> PcOf(v.senders, r) == PcOf(w.senders, r);
    assert a.TryCas? && !w.flag ==> PcOf(v.senders, a.p).AtSchedule?;
    if Scheduling(w.senders) && !a.Schedule? {
      var r :| PcOf(w.senders, r).AtSchedule?;
      assert PcOf(v.senders, r).AtSchedule?;
    }
  }

  lemma TokenByLoop<M>(w: World<M>)
    requires TokenInv(w) && Can(w, LoopStep)
    ensures TokenInv(Act(w, LoopStep))
  {
    hide Apply, PcOf;
  }

  lemma OutputByPop<M>(w: World<M>)
    requires OutputInv(w) && w.drain.Draining? && !w.q.consumer.Returned?
    ensures OutputInv(Act(w, LoopStep))
  {
    hide PopStep;
    PopChanges(w.q);
    var t := Apply(w.q, Pop);
    if t.consumer.Returned? {
      assert t.popped[..|t.popped| - 1] == w.q.popped;
    }
  }

  lemma OutputByLoop<M>(w: World<M>)
    requires OutputInv(w) && LocalInv(w) && Can(w, LoopStep)
    ensures OutputInv(Act(w, LoopStep))
  {
    hide PopStep, At, PcOf;
    if w.drain.Draining? && w.q.consumer.Returned? {
      var n := |w.q.popped| - 1;
      assert w.q.popped == w.q.popped[..n] + [w.q.popped[n]];
      assert w.sent + (w.batch + [w.q.popped[n]]) == (w.sent + w.batch) + [w.q.popped[n]];
    } else if w.drain.Draining? {
      OutputByPop(w);
    } else {
      assert w.sent + w.batch + [] == w.sent + w.batch;
    }
  }

  lemma OthersKeep<M>(w: World<M>, a: Action<M>)
    requires Can(w, a) && !a.LoopStep?
    ensures var v := Act(w, a);
      && v.q.consumer == w.q.consumer && v.q.popped == w.q.popped
      && v.sent == w.sent && v.batch == w.batch && v.drain == w.drain
      && (v.steady ==> w.steady && (v.conn == w.conn || v.conn == Connected))
  {
    hide DrainStep, PopStep, At, PcOf, Apply;
    match a
    case Begin(p, id, m) => ProducersKeep(w.q, Prepare(p, id, m));
    case Push(p) =>
      if Enabled(w.q, Exchange(p)) {
        ProducersKeep(w.q, Exchange(p));
      } else {
        ProducersKeep(w.q, Link(p));
      }
    case _ =>
  }

  /** The steps of a push leave the consumer alone. */
  lemma ProducersKeep<M>(q: State<M>, step: Step<M>)
    requires Enabled(q, step) && (step.Prepare? || step.Exchange? || step.Link?)
    ensures Apply(q, step).consumer == q.consumer && Apply(q, step).popped == q.popped
  {
  }

  lemma OthersKeepData<M>(w: World<M>, a: Action<M>, h: Node)
    requires Can(w, a) && !a.LoopStep? && h in w.q.next && h in w.q.data
    ensures h in Act(w, a).q.data && Act(w, a).q.data[h] == w.q.data[h]
  {
    hide DrainStep, PopStep, At, PcOf;
  }

  lemma OutputByOther<M>(w: World<M>, a: Action<M>)
    requires OutputInv(w) && Can(w, a) && !a.LoopStep?
    requires w.q.consumer.Returned? ==> w.q.consumer.h in w.q.next
    ensures OutputInv(Act(w, a))
  {
    hide Act, Can;
    OthersKeep(w, a);
    if w.q.consumer.Returned? {
      OthersKeepData(w, a, w.q.consumer.h);
    }
  }

  // No drain is lost.

  /** If the consumer finds the queue empty while a message is in it, a producer has yet to
      link that message. */
  lemma EmptyMeansPending<M>(q: State<M>, c: seq<Node>)
    requires Inv(q, c) && q.consumer.Resting? && Empty(q) && q.exchanged != q.popped
    ensures exists p :: At(q.producers, p).Linking?
  {
    assert |c| == 1 ==> c == [Stub] && Payload(q.data, c) == [];
    assert q.next[c[0]] == Null && Owed(q, c[0], c[1]);
  }

  lemma NoLostByPush<M>(w: World<M>, p: nat)
    requires Can(w, Push(p)) && !Act(w, Push(p)).q.fault
    ensures NoLostDrain(Act(w, Push(p)))
  {
    hide DrainStep, PopStep;
    assert WillTry(Act(w, Push(p)), p);
  }

  lemma NoLostBySender<M>(w: World<M>, a: Action<M>)
    requires NoLostDrain(w) && LocalInv(w) && Can(w, a) && (a.Begin? || a.TryCas? || a.Schedule?)
    ensures NoLostDrain(Act(w, a))
  {
    hide DrainStep, PopStep;
    var v := Act(w, a);
    if SomeoneWillTry(w) && !a.TryCas? {
      var r :| WillTry(w, r);
      assert r != a.p && WillTry(v, r);
    }
  }

  lemma NoLostByRecheck<M>(w: World<M>, c: seq<Node>)
    requires Inv(w.q, c) && LocalInv(w) && w.drain.Recheck?
    ensures NoLostDrain(Act(w, LoopStep))
  {
    var v := Act(w, LoopStep);
    if Empty(w.q) && w.q.exchanged != w.q.popped {
      EmptyMeansPending(w.q, c);
      hide Inv, LocalInv;
      var p :| At(w.q.producers, p).Linking?;
      assert WillTry(v, p);
    }
  }

  /** A drain that answers for the flag has it up, and one that does not does not lower it. */
  lemma NoLostByLoop<M>(w: World<M>, c: seq<Node>)
    requires Inv(w.q, c) && LocalInv(w) && TokenInv(w) && NoLostDrain(w) && Can(w, LoopStep)
    ensures NoLostDrain(Act(w, LoopStep))
  {
    if w.drain.Recheck? {
      NoLostByRecheck(w, c);
    } else {
      hide Inv, LocalInv, PopStep, PcOf, WillTry;
      assert w.drain.ReCas? || w.flag;
      assert w.drain.Clearing? || Act(w, LoopStep).flag;
    }
  }

  /** Every step of every party keeps the whole invariant. */
  lemma ActionPreserves<M>(w: World<M>, a: Action<M>, c: seq<Node>)
    requires WorldInv(w, c) && Can(w, a)
    ensures WorldInv(Act(w, a), ChainAfter(w, a, c))
  {
    QueueInvKept(w, a, c);
    hide ChainInv, ProducersInv, TokenInv, LocalInv, OutputInv, NoLostDrain, Act, Can, ChainAfter;
    if a.LoopStep? {
      LocalByLoop(w);
      TokenByLoop(w);
      OutputByLoop(w);
      NoLostByLoop(w, c);
    } else if a.SetConnection? {
      OutputByOther(w, a);
      SetConnectionKept(w, a);
    } else {
      TokenBySender(w, a);
      OutputByOther(w, a);
      if a.Push? {
        LocalByPush(w, a.p);
        NoLostByPush(w, a.p);
      } else {
        LocalBySender(w, a);
        NoLostBySender(w, a);
      }
    }
  }

  lemma SetConnectionKept<M>(w: World<M>, a: Action<M>)
    requires a.SetConnection? && Can(w, a)
    requires LocalInv(w) && TokenInv(w) && NoLostDrain(w)
    ensures LocalInv(Act(w, a)) && TokenInv(Act(w, a)) && NoLostDrain(Act(w, a))
  {
    var v := Act(w, a);
    if SomeoneWillTry(w) {
      var p :| WillTry(w, p);
      assert WillTry(v, p);
    }
  }

  // ---------------------------------------------------------------------------------------
  // All interleavings
  // ---------------------------------------------------------------------------------------

  function Exec<M>(actions: seq<Action<M>>): Run<World<M>> {
    if actions == [] then Reached(Start())
    else
      var n := |actions| - 1;
      var before := Exec(actions[..n]);
      if before.Reached? && Can(before.state, actions[n]) then Reached(Act(before.state, actions[n]))
      else Illegal
  }

  lemma StartInv<M>()
    ensures WorldInv<M>(Start(), [Stub])
  {
    assert Payload<M>(map[], [Stub]) == [];
  }

  lemma {:induction false} ReachableWorld<M>(actions: seq<Action<M>>) returns (c: seq<Node>)
    requires Exec(actions).Reached?
    ensures WorldInv(Exec(actions).state, c)
    decreases |actions|
  {
    hide WorldInv, Act, Can;
    if actions == [] {
      StartInv<M>();
      c := [Stub];
    } else {
      var n := |actions| - 1;
      var b := ReachableWorld(actions[..n]);
      ActionPreserves(Exec(actions[..n]).state, actions[n], b);
      c := ChainAfter(Exec(actions[..n]).state, actions[n], b);
    }
  }

  /** No message waits in the queue unless a drain is scheduled, being scheduled or running,
      or the drain is in its recheck, or a producer has yet to try the flag. And there is
      never more than one drain. */
  lemma {:induction false} DrainIsComing<M>(actions: seq<Action<M>>, w: World<M>)
    requires Exec(actions) == Reached(w)
    ensures w.q.exchanged != w.q.popped ==>
      || w.tasks == 1 || DrainHolds(w.drain) || Scheduling(w.senders)
      || w.drain.Recheck? || w.drain.ReCas? || SomeoneWillTry(w)
    ensures w.tasks + (if DrainHolds(w.drain) then 1 else 0) <= 1
    ensures !w.q.fault
  {
    var c := ReachableWorld(actions);
  }

  /** Nobody is inside `send`. */
  ghost predicate NoSender<M>(w: World<M>) {
    forall p :: PcOf(w.senders, p).Outside?
  }

  /** When all is quiet, everything pushed has been popped, in order; and if the connection
      stayed connected, everything has been handed over, in the order of the exchanges. */
  lemma {:induction false} QuietMeansDelivered<M>(actions: seq<Action<M>>, w: World<M>)
    requires Exec(actions) == Reached(w)
    requires w.drain.Asleep? && w.tasks == 0 && NoSender(w)
    ensures w.q.popped == w.q.exchanged
    ensures w.steady ==> w.sent == w.q.exchanged
  {
    var c := ReachableWorld(actions);
    assert w.sent + [] == w.sent;
    assert forall p :: WillTry(w, p) ==> !PcOf(w.senders, p).Outside?;
    assert !SomeoneWillTry(w) && !Scheduling(w.senders);
    hide Inv;
  }

  // ---------------------------------------------------------------------------------------
  // A message on its way
  // ---------------------------------------------------------------------------------------

  lemma ActOne<M>(actions: seq<Action<M>>, w: World<M>, a: Action<M>)
    requires Exec(actions) == Reached(w) && Can(w, a)
    ensures Exec(actions + [a]) == Reached(Act(w, a))
  {
    hide Can, Act;
    assert (actions + [a])[..|actions + [a]| - 1] == actions;
  }

  /** The two steps of a push of its own message by a producer that was outside. */
  lemma PushTwice<M>(w: World<M>, p: nat, id: nat, m: M)
    requires PcOf(w.senders, p).Outside? && At(w.q.producers, p).Idle? && Accepting(w.conn)
    requires Msg(id) !in w.q.next && w.q.tail in w.q.next
    ensures Can(w, Begin(p, id, m))
    ensures var x := Act(w, Begin(p, id, m));
      && Can(x, Push(p))
      && var y := Act(x, Push(p));
      && Can(y, Push(p)) && y.q.exchanged == w.q.exchanged + [m]
      && var z := Act(y, Push(p));
      && z.q.exchanged == y.q.exchanged && PcOf(z.senders, p).AtCas? && z.flag == w.flag
      && z.conn == w.conn && z.steady == w.steady
      && (forall r :: r != p ==> PcOf(z.senders, r) == PcOf(w.senders, r))
  {
    hide DrainStep, PopStep;
  }

  /** A message that is sent while the connection accepts it is queued: the producer's own steps
      put it behind everything exchanged before and bring it out of `send`. */
  lemma SendIsQueued<M>(actions: seq<Action<M>>, w: World<M>, p: nat, id: nat, m: M)
    returns (more: seq<Action<M>>, v: World<M>)
    requires Exec(actions) == Reached(w) && PcOf(w.senders, p).Outside?
    requires (w.conn == Connected || w.conn == NotConnected) && Msg(id) !in w.q.next
    ensures Exec(actions + more) == Reached(v) && v.q.exchanged == w.q.exchanged + [m]
    ensures PcOf(v.senders, p).Outside? && (forall r :: r != p ==> PcOf(v.senders, r) == PcOf(w.senders, r))
    ensures v.conn == w.conn && v.steady == w.steady
  {
    hide *;
    var first, z := PushIsQueued(actions, w, p, id, m);
    var rest;
    rest, v := SendEnds(actions + first, z, p);
    more := first + rest;
    Regroup(actions, first, rest);
  }

  lemma Regroup<T>(a: seq<T>, b: seq<T>, c: seq<T>)
    ensures a + (b + c) == a + b + c
  {
  }

  lemma PushIsQueued<M>(actions: seq<Action<M>>, w: World<M>, p: nat, id: nat, m: M)
    returns (more: seq<Action<M>>, z: World<M>)
    requires Exec(actions) == Reached(w) && PcOf(w.senders, p).Outside?
    requires (w.conn == Connected || w.conn == NotConnected) && Msg(id) !in w.q.next
    ensures Exec(actions + more) == Reached(z) && z.q.exchanged == w.q.exchanged + [m]
    ensures PcOf(z.senders, p).AtCas? && z.conn == w.conn && z.steady == w.steady
    ensures forall r :: r != p ==> PcOf(z.senders, r) == PcOf(w.senders, r)
  {
    OutsideIsIdle(actions, w, p);
    PushTwice(w, p, id, m);
    hide Exec, Act, Can, At, PcOf;
    var begin, push := Begin(p, id, m), Action<M>.Push(p);
    var x := Act(w, begin);
    var y := Act(x, push);
    z := Act(y, push);
    ActOne(actions, w, begin);
    ActOne(actions + [begin], x, push);
    ActOne(actions + [begin] + [push], y, push);
    more := [begin] + [push] + [push];
    assert actions + more == actions + [begin] + [push] + [push];
  }

  /** From its compare-and-swap a producer comes out of `send`. */
  lemma SendEnds<M>(actions: seq<Action<M>>, z: World<M>, p: nat) returns (more: seq<Action<M>>, v: World<M>)
    requires Exec(actions) == Reached(z) && PcOf(z.senders, p).AtCas?
    ensures Exec(actions + more) == Reached(v) && v.q == z.q && v.conn == z.conn && v.steady == z.steady
    ensures PcOf(v.senders, p).Outside? && (forall r :: r != p ==> PcOf(v.senders, r) == PcOf(z.senders, r))
  {
    LeavesSend(z, p);
    hide Exec, Act, Can, PcOf;
    var tryCas, schedule := TryCas(p), Schedule(p);
    ActOne(actions, z, tryCas);
    v := Act(z, tryCas);
    more := [tryCas];
    if !z.flag {
      ActOne(actions + [tryCas], v, schedule);
      v := Act(v, schedule);
      assert actions + ([tryCas] + [schedule]) == actions + [tryCas] + [schedule];
      more := [tryCas] + [schedule];
    }
  }

  lemma OutsideIsIdle<M>(actions: seq<Action<M>>, w: World<M>, p: nat)
    requires Exec(actions) == Reached(w) && PcOf(w.senders, p).Outside?
    ensures At(w.q.producers, p).Idle? && w.q.tail in w.q.next
  {
    var c := ReachableWorld(actions);
    hide TokenInv, OutputInv, NoLostDrain, Exec, ProducersInv, ConsumerInv, Payload;
    assert c[|c| - 1] in w.q.next;
  }

  /** The compare-and-swap, and the scheduling for the one that wins it. */
  lemma LeavesSend<M>(z: World<M>, p: nat)
    requires PcOf(z.senders, p).AtCas?
    ensures Can(z, TryCas(p))
    ensures var v := Act(z, TryCas(p));
      && v.q == z.q && v.conn == z.conn && v.steady == z.steady
      && (forall r :: r != p ==> PcOf(v.senders, r) == PcOf(z.senders, r))
      && (z.flag ==> PcOf(v.senders, p).Outside?)
      && (!z.flag ==>
            && Can(v, Schedule(p))
            && var u := Act(v, Schedule(p));
            && u.q == z.q && u.conn == z.conn && u.steady == z.steady && PcOf(u.senders, p).Outside?
            && forall r :: r != p ==> PcOf(u.senders, r) == PcOf(z.senders, r))
  {
    hide DrainStep, PopStep;
  }

  /** Once a connection is closing or closed, no producer can begin. */
  lemma ClosedRefuses<M>(w: World<M>, conn: Connection, p: nat, id: nat, m: M)
    requires conn == HalfClosing || conn == Closed
    ensures !Can(Act(w, SetConnection(conn)), Begin(p, id, m))
  {
  }

  /** One drain takes at most ROUNDS batches of at most BATCH messages. */
  predicate Bounded(d: DrainPc) {
    match d
    case Draining(round, taken) => round < ROUNDS && taken < BATCH
    case EndRound(round) => round < ROUNDS
    case _ => true
  }

  lemma {:induction false} DrainIsBounded<M>(actions: seq<Action<M>>, w: World<M>)
    requires Exec(actions) == Reached(w)
    ensures Bounded(w.drain)
    decreases |actions|
  {
    if actions != [] {
      var n := |actions| - 1;
      var before := Exec(actions[..n]).state;
      DrainIsBounded(actions[..n], before);
      if actions[n].LoopStep? {
        hide PopStep, Apply;
      } else {
        OthersKeep(before, actions[n]);
        hide Act, Can;
      }
    }
  }

  /** A drain clears the flag only after its third round, and a round ends only when pop has
      answered nothing or when it has taken 256 messages. */
  lemma DrainUsesItsRounds<M>(w: World<M>)
    requires Can(w, LoopStep) && Bounded(w.drain)
    ensures Act(w, LoopStep).drain.Clearing? ==> w.drain == EndRound(2)
    ensures w.drain.Draining? && Act(w, LoopStep).drain.EndRound? ==>
      && Act(w, LoopStep).drain.round == w.drain.round
      && (if w.q.consumer.Returned? then w.drain.taken >= 255
          else Act(w, LoopStep).q.consumer.Resting? && Act(w, LoopStep).q.popped == w.q.popped)
    ensures w.drain.EndRound? && w.drain.round < 2 ==> Act(w, LoopStep).drain == Draining(w.drain.round + 1, 0)
  {
    if w.drain.Draining? && !w.q.consumer.Returned? {
      PopChanges(w.q);
      hide PopStep;
    }
  }
}
