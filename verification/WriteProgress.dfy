/** Progress of the write path: once the producers are quiet, the loop thread on its own
    empties the queue in finitely many steps, whatever state the race left behind. */
module WriteProgress {
  import opened MpscQueue
  import opened WritePath
  import Runs

  ghost predicate NoDebts<M>(q: State<M>) {
    forall p :: At(q.producers, p).Idle?
  }

  ghost function Pending<M>(q: State<M>, c: seq<Node>): nat
    requires Inv(q, c)
  {
    |Payload(q.data, c)|
  }

  // ---------------------------------------------------------------------------------------
  // One pop step without producers
  // ---------------------------------------------------------------------------------------

  /** Without producers every edge is linked, except one the consumer is about to link. */
  lemma HeadLinked<M>(q: State<M>, c: seq<Node>)
    requires ChainInv(q, c) && NoDebts(q) && !q.consumer.LinkStub? && |c| > 1
    ensures q.next[q.head] == Ref(c[1])
  {
    assert c[0] == q.head;
    assert !OwedByProducer(q.producers, c[0], c[1]);
  }

  lemma {:induction false} NoPayload<M>(data: map<Node, M>, c: seq<Node>)
    requires Payload(data, c) == []
    ensures forall i :: 0 <= i < |c| ==> c[i].Msg? ==> c[i] !in data
  {
    if c != [] {
      NoPayload(data, c[..|c| - 1]);
    }
  }

  /** An empty queue is the stub alone, at rest. */
  lemma NothingPending<M>(q: State<M>, c: seq<Node>)
    requires Inv(q, c) && Pending(q, c) == 0
    ensures c == [Stub] && (q.consumer.Resting? || q.consumer.Returned?)
    ensures q.head == Stub && q.next[Stub] == Null
  {
    assert forall i :: 0 < i < |c| ==> c[i] != c[0];
    NoPayload(q.data, c);
    assert c[0] == Stub;
    assert |c| == 1;
  }

  /** The one answer that is wrong in hindsight: the consumer has decided that a push is in
      the way, and the push has completed since. */
  predicate Tainted<M>(q: State<M>) {
    q.consumer.LoadTail? && q.consumer.h != q.tail
  }

  function PopStage(consumer: Consumer): nat {
    match consumer
    case Resting => 7
    case Second(_) => 6
    case LoadTail(_) => 5
    case ClearStub(_) => 4
    case SwapStub(_) => 3
    case LinkStub(_, _) => 2
    case Reload(_) => 1
    case Returned(_) => 0
  }

  /** With messages waiting and no producer, a pop moves on towards returning one; it answers
      "nothing" only out of the tainted state, which it then leaves for good. */
  lemma PopProgress<M>(q: State<M>, c: seq<Node>)
    requires Inv(q, c) && NoDebts(q) && !q.consumer.Returned? && Pending(q, c) > 0
    ensures var t := Apply(q, Pop);
      && !Tainted(t)
      && (if Tainted(q) then t.consumer.Resting? && t.popped == q.popped
          else if t.consumer.Returned? then t.popped != q.popped
          else !t.consumer.Resting? && PopStage(t.consumer) < PopStage(q.consumer)
               && t.popped == q.popped)
  {
    hide ProducersInv, Payload;
    if |c| > 1 && !q.consumer.LinkStub? {
      HeadLinked(q, c);
    } else if |c| == 1 && q.head == Stub {
      assert c == [Stub];
      StubHasNoPayload(q.data);
    }
  }

  lemma StubHasNoPayload<M>(data: map<Node, M>)
    ensures Payload(data, [Stub]) == []
  {
  }

  // ---------------------------------------------------------------------------------------
  // One step of the loop thread
  // ---------------------------------------------------------------------------------------

  /** How far the loop thread is from the next message, while there is one. */
  function BusyStage<M>(w: World<M>): nat {
    match w.drain
    case Draining(_, _) => if w.q.consumer.Returned? then 21 else PopStage(w.q.consumer)
    case EndRound(_) => 20
    case Clearing => 19
    case Recheck => 18
    case ReCas => 17
    case ReSchedule => 16
    case Asleep => 15
  }

  /** How far it is from going to sleep, when there is none. */
  function IdleStage<M>(w: World<M>): nat {
    200 * w.tasks + match w.drain
    case ReCas => 301
    case ReSchedule => 300
    case Draining(round, _) =>
      (if round < 3 then 10 * (3 - round) else 0) + (if w.q.consumer.Returned? then 8 else 7)
    case EndRound(round) => (if round < 3 then 10 * (3 - round) else 0) + 6
    case Clearing => 5
    case Recheck => 4
    case Asleep => 0
  }

  function Stage<M>(w: World<M>, pending: nat): nat {
    if pending > 0 then BusyStage(w) else IdleStage(w)
  }

  lemma QuietFacts<M>(w: World<M>)
    requires LocalInv(w) && TokenInv(w) && NoSender(w)
    ensures NoDebts(w.q) && !Scheduling(w.senders) && !SomeoneWillTry(w)
    ensures w.flag <==> w.tasks == 1 || DrainHolds(w.drain)
  {
    forall p ensures At(w.q.producers, p).Idle? && !WillTry(w, p) {
      assert PcOf(w.senders, p).Outside?;
    }
  }

  /** What is left after a step, counted in messages. */
  lemma PendingCount<M>(q: State<M>, c: seq<Node>)
    requires Inv(q, c)
    ensures Pending(q, c) == |q.exchanged| - |q.popped|
  {
  }

  lemma BusyPop<M>(w: World<M>, c: seq<Node>, d: seq<Node>)
    requires WorldInv(w, c) && NoSender(w) && w.drain.Draining? && !w.q.consumer.Returned?
    requires Inv(Act(w, LoopStep).q, d) && Pending(w.q, c) > 0
    ensures var v := Act(w, LoopStep);
      || Pending(v.q, d) < Pending(w.q, c)
      || (Pending(v.q, d) == Pending(w.q, c) && Tainted(w.q) && !Tainted(v.q))
      || (Pending(v.q, d) == Pending(w.q, c) && !Tainted(w.q) && !Tainted(v.q)
          && BusyStage(v) < BusyStage(w))
  {
    hide Inv, PopStep, TokenInv, LocalInv, OutputInv, NoLostDrain;
    QuietFacts(w);
    PopProgress(w.q, c);
    PopChanges(w.q);
    PendingCount(w.q, c);
    PendingCount(Act(w, LoopStep).q, d);
  }

  /** The order in which the loop thread's steps go down: messages waiting, then the tainted
      answer, then the stage. */
  ghost predicate Below<M>(v: World<M>, d: seq<Node>, w: World<M>, c: seq<Node>)
    requires Inv(v.q, d) && Inv(w.q, c)
  {
    var m, n := Pending(v.q, d), Pending(w.q, c);
    || m < n
    || (m == n && Tainted(w.q) && !Tainted(v.q))
    || (m == n && Tainted(w.q) == Tainted(v.q) && Stage(v, m) < Stage(w, n))
  }

  lemma BusyOther<M>(w: World<M>, c: seq<Node>)
    requires WorldInv(w, c) && NoSender(w) && Pending(w.q, c) > 0
    requires !w.drain.Draining? || w.q.consumer.Returned?
    ensures Can(w, LoopStep) && BusyStage(Act(w, LoopStep)) < BusyStage(w)
  {
    QuietFacts(w);
    PendingCount(w.q, c);
    if w.drain.Recheck? {
      RecheckFinds(w, c);
    }
    hide Inv, PopStep, OutputInv, PcOf, At, Empty, Pending;
  }

  /** With no producer about, a message that waits is seen by the recheck. */
  lemma RecheckFinds<M>(w: World<M>, c: seq<Node>)
    requires WorldInv(w, c) && NoSender(w) && Pending(w.q, c) > 0 && w.drain.Recheck?
    ensures !Empty(w.q)
  {
    QuietFacts(w);
    PendingCount(w.q, c);
    if Empty(w.q) {
      EmptyMeansPending(w.q, c);
    }
    hide Inv, TokenInv, OutputInv, NoLostDrain;
  }

  lemma IdleStep<M>(w: World<M>, c: seq<Node>)
    requires WorldInv(w, c) && NoSender(w) && Pending(w.q, c) == 0 && Can(w, LoopStep)
    ensures IdleStage(Act(w, LoopStep)) < IdleStage(w)
  {
    QuietFacts(w);
    NothingPending(w.q, c);
    hide Inv, OutputInv, PcOf, At, NoLostDrain;
  }

  /** Without senders every step of the loop thread goes down in that order, and while a
      message waits there is such a step. */
  lemma LoopProgress<M>(w: World<M>, c: seq<Node>)
    requires WorldInv(w, c) && NoSender(w)
    ensures Pending(w.q, c) > 0 ==> Can(w, LoopStep)
    ensures Can(w, LoopStep) ==>
      && WorldInv(Act(w, LoopStep), ChainAfter(w, LoopStep, c))
      && NoSender(Act(w, LoopStep))
      && Below(Act(w, LoopStep), ChainAfter(w, LoopStep, c), w, c)
  {
    if Pending(w.q, c) > 0 && (!w.drain.Draining? || w.q.consumer.Returned?) {
      BusyOther(w, c);
    }
    if Can(w, LoopStep) {
      var v, d := Act(w, LoopStep), ChainAfter(w, LoopStep, c);
      ActionPreserves(w, LoopStep, c);
      SendersUntouched(w);
      if Pending(w.q, c) == 0 {
        IdleStep(w, c);
        NothingPending(w.q, c);
        SamePending(w, c, d);
      } else if w.drain.Draining? && !w.q.consumer.Returned? {
        BusyPop(w, c, d);
      } else {
        SamePending(w, c, d);
      }
    }
    hide Inv, PopStep, TokenInv, LocalInv, OutputInv, NoLostDrain, Act, ChainAfter, BusyStage, IdleStage;
  }

  lemma SendersUntouched<M>(w: World<M>)
    requires Can(w, LoopStep)
    ensures Act(w, LoopStep).senders == w.senders
  {
    hide Apply;
  }

  /** Steps other than a successful pop leave the number of waiting messages alone. */
  lemma SamePending<M>(w: World<M>, c: seq<Node>, d: seq<Node>)
    requires WorldInv(w, c) && Can(w, LoopStep) && Inv(Act(w, LoopStep).q, d)
    requires !w.drain.Draining? || w.q.consumer.Returned? || Pending(w.q, c) == 0
    ensures Pending(Act(w, LoopStep).q, d) == Pending(w.q, c)
    ensures Tainted(Act(w, LoopStep).q) == Tainted(w.q)
  {
    hide TokenInv, OutputInv, NoLostDrain, PcOf, At, Payload, ChainInv, ProducersInv, ConsumerInv;
    PendingCount(w.q, c);
    PendingCount(Act(w, LoopStep).q, d);
    if Pending(w.q, c) == 0 {
      NothingPending(w.q, c);
    }
  }

  /** The loop thread, left alone. */
  function LoopAlone<M>(w: World<M>, n: nat): World<M>
    decreases n
  {
    if n == 0 || !Can(w, LoopStep) then w else LoopAlone(Act(w, LoopStep), n - 1)
  }

  lemma AsleepIsEmpty<M>(w: World<M>, c: seq<Node>)
    requires WorldInv(w, c) && NoSender(w) && !Can(w, LoopStep)
    ensures w.drain.Asleep? && w.tasks == 0 && w.q.popped == w.q.exchanged
    ensures w.steady ==> w.sent == w.q.exchanged
  {
    LoopProgress(w, c);
    assert w.q.exchanged == w.q.popped + [];
    assert w.sent + [] == w.sent;
  }

  /** The loop thread exchanges nothing and leaves the connection alone. */
  lemma LoopAddsNothing<M>(w: World<M>)
    requires Can(w, LoopStep)
    ensures Act(w, LoopStep).q.exchanged == w.q.exchanged && Act(w, LoopStep).steady == w.steady
  {
    if w.drain.Draining? && !w.q.consumer.Returned? {
      PopChanges(w.q);
      hide PopStep;
    }
  }

  /** If the producers stop, the loop thread goes to sleep after finitely many steps of its
      own, with every message popped. */
  lemma {:induction false} Settles<M>(w: World<M>, c: seq<Node>) returns (n: nat)
    requires WorldInv(w, c) && NoSender(w)
    ensures var v := LoopAlone(w, n);
      && v.drain.Asleep? && v.tasks == 0 && v.q.popped == v.q.exchanged
      && (v.steady ==> v.sent == v.q.exchanged)
      && v.q.exchanged == w.q.exchanged && v.steady == w.steady
    decreases Pending(w.q, c), Tainted(w.q), Stage(w, Pending(w.q, c))
  {
    hide Act, ChainAfter, Inv, TokenInv, LocalInv, OutputInv, NoLostDrain, NoSender, Can,
         Stage, Tainted, Pending;
    if Can(w, LoopStep) {
      LoopProgress(w, c);
      LoopAddsNothing(w);
      var k := Settles(Act(w, LoopStep), ChainAfter(w, LoopStep, c));
      n := k + 1;
    } else {
      AsleepIsEmpty(w, c);
      n := 0;
    }
  }

  /** From every reachable state, once the producers are outside `send`, the loop thread
      alone delivers everything in finitely many steps. */
  lemma {:induction false} EventuallyDelivered<M>(actions: seq<Action<M>>, w: World<M>)
    requires WritePath.Exec(actions) == Runs.Reached(w) && NoSender(w)
    ensures exists n: nat :: var v := LoopAlone(w, n);
      && v.drain.Asleep? && v.tasks == 0 && v.q.popped == v.q.exchanged
      && (v.steady ==> v.sent == v.q.exchanged)
  {
    var c := ReachableWorld(actions);
    var n := Settles(w, c);
  }

  /** A message sent on a connection that stays connected is delivered, behind everything sent
      before: from every reachable state with the producers outside, the sender's own steps and
      then the loop thread's hand it over. */
  lemma SentIsDelivered<M>(actions: seq<Action<M>>, w: World<M>, p: nat, id: nat, m: M)
    returns (more: seq<Action<M>>, v: World<M>, n: nat)
    requires WritePath.Exec(actions) == Runs.Reached(w) && NoSender(w) && w.steady
    requires Msg(id) !in w.q.next
    ensures WritePath.Exec(actions + more) == Runs.Reached(v)
    ensures LoopAlone(v, n).drain.Asleep? && LoopAlone(v, n).sent == w.q.exchanged + [m]
  {
    var c := ReachableWorld(actions);
    assert w.conn == Connected;
    more, v := SendIsQueued(actions, w, p, id, m);
    var d := ReachableWorld(actions + more);
    assert NoSender(v);
    hide WorldInv, NoSender, WritePath.Exec;
    n := Settles(v, d);
  }
}
