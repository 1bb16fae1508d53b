/** What a round of callbacks files: repeated events go back on the wheel, unless they were
    cancelled, with the interval counted from when they ran. */
module TimerRounds {
  import opened TimingWheels

  /** The turns from `i` on that end with filing their event again. */
  function Refiled(expired: seq<EventId>, i: nat, around: Around, dead: set<EventId>,
                   repeating: set<EventId>): (turns: seq<nat>)
    requires i <= |expired|
    ensures forall k :: 0 <= k < |turns| ==> i <= turns[k] < |expired|
    decreases |expired| - i
  {
    if i == |expired| then []
    else
      var e, now := expired[i], dead + CancelledBy(around.before(i));
      if e in now then Refiled(expired, i + 1, around, now, repeating)
      else
        var rest := Refiled(expired, i + 1, around, dead + CancelledIn(around, i), repeating);
        if e in repeating && !CancelledMeanwhile(around, i, e) then [i] + rest else rest
  }

  /** The event of turn `i` is cancelled while its callback runs, or until it is looked at again. */
  predicate CancelledMeanwhile(around: Around, i: nat, e: EventId) {
    e in CancelledBy(around.during(i)) || e in CancelledBy(around.between(i))
  }

  lemma RefiledStep(expired: seq<EventId>, i: nat, around: Around, dead: set<EventId>, repeating: set<EventId>)
    returns (after: set<EventId>)
    requires i < |expired|
    ensures var e := expired[i];
      var runs := e !in dead + CancelledBy(around.before(i));
      && Turns(expired, i, around, dead)
         == (if runs then [i] else []) + Turns(expired, i + 1, around, after)
      && Refiled(expired, i, around, dead, repeating)
         == (if runs && e in repeating && !CancelledMeanwhile(around, i, e) then [i] else [])
          + Refiled(expired, i + 1, around, after, repeating)
  {
    var now := dead + CancelledBy(around.before(i));
    after := if expired[i] in now then now else dead + CancelledIn(around, i);
    assert [] + Turns(expired, i + 1, around, after) == Turns(expired, i + 1, around, after);
    assert [] + Refiled(expired, i + 1, around, after, repeating)
        == Refiled(expired, i + 1, around, after, repeating);
  }

  /** An event is filed again after its turn if and only if it ran, repeats and was not cancelled
      while it ran or until it was looked at again. */
  lemma {:induction false} RefiledExactly(expired: seq<EventId>, i: nat, around: Around,
                                          dead: set<EventId>, repeating: set<EventId>, k: nat)
    requires i <= k < |expired|
    ensures k in Refiled(expired, i, around, dead, repeating) <==>
      && k in Turns(expired, i, around, dead) && expired[k] in repeating
      && !CancelledMeanwhile(around, k, expired[k])
    decreases |expired| - i
  {
    var after := RefiledStep(expired, i, around, dead, repeating);
    var turns, files := Turns(expired, i + 1, around, after), Refiled(expired, i + 1, around, after, repeating);
    hide Turns, Refiled, CancelledBy;
    if k == i {
      assert k !in turns && k !in files;
    } else {
      RefiledExactly(expired, i + 1, around, after, repeating, k);
    }
  }

  /** The events that operations file. */
  function FilesIn(ops: seq<Op>): multiset<EventId> {
    if ops == [] then multiset{}
    else (if ops[0].File? then multiset{ops[0].event} else multiset{}) + FilesIn(ops[1..])
  }

  lemma {:induction false} FilesConcat(a: seq<Op>, b: seq<Op>)
    ensures FilesIn(a + b) == FilesIn(a) + FilesIn(b)
    decreases |a|
  {
    if a == [] {
      assert a + b == b;
    } else {
      assert (a + b)[1..] == a[1..] + b;
      FilesConcat(a[1..], b);
    }
  }

  /** What other threads and the callbacks do in the turns from `i` on. */
  function Scripts(expired: seq<EventId>, i: nat, around: Around, dead: set<EventId>): seq<Op>
    requires i <= |expired|
    decreases |expired| - i
  {
    if i == |expired| then []
    else
      var now := dead + CancelledBy(around.before(i));
      if expired[i] in now then around.before(i) + Scripts(expired, i + 1, around, now)
      else TurnScript(around, i) + Scripts(expired, i + 1, around, dead + CancelledIn(around, i))
  }

  function TurnScript(around: Around, i: nat): seq<Op> {
    around.before(i) + around.during(i) + around.between(i) + around.late(i)
  }

  lemma TurnFiles(e: EventId, i: nat, around: Around, dead: set<EventId>, repeating: set<EventId>)
    ensures FilesIn(TurnOps(e, i, around, dead, repeating))
         == FilesIn(TurnScript(around, i)) + FilesIn(Refiling(e, i, around, dead, repeating))
  {
    var before, during, between, late := around.before(i), around.during(i), around.between(i), around.late(i);
    var reset, refiling := [Reset(e, around.clock(i).reset)], Refiling(e, i, around, dead, repeating);
    FilesConcat(before, during);
    FilesConcat(before + during, reset);
    FilesConcat(before + during + reset, between);
    FilesConcat(before + during + reset + between, late);
    FilesConcat(before + during + reset + between + late, refiling);
    FilesConcat(before + during, between);
    FilesConcat(before + during + between, late);
    NoFiles(reset[0]);
    hide FilesIn, Refiling;
  }

  lemma NoFiles(op: Op)
    requires !op.File?
    ensures FilesIn([op]) == multiset{}
  {
    assert [op][1..] == [];
  }

  lemma OneFile(op: Op)
    requires op.File?
    ensures FilesIn([op]) == multiset{op.event}
  {
    assert [op][1..] == [];
  }

  lemma RefilingFiles(e: EventId, i: nat, around: Around, dead: set<EventId>, repeating: set<EventId>)
    requires e !in dead + CancelledBy(around.before(i))
    ensures FilesIn(Refiling(e, i, around, dead, repeating))
         == if e in repeating && !CancelledMeanwhile(around, i, e) then multiset{e} else multiset{}
  {
    OneFile(File(e, around.clock(i).start, around.clock(i).file));
  }

  lemma EventsOf(expired: seq<EventId>, i: nat, rest: seq<nat>)
    requires i < |expired| && forall k :: 0 <= k < |rest| ==> rest[k] < |expired|
    ensures multiset(EventsAt(expired, [i] + rest)) == multiset{expired[i]} + multiset(EventsAt(expired, rest))
  {
    assert EventsAt(expired, [i] + rest) == [expired[i]] + EventsAt(expired, rest);
  }

  /** A round files what its scripts file, and the events of the turns that end with filing. */
  lemma {:induction false} FilingsOfRound(expired: seq<EventId>, i: nat, around: Around,
                                          dead: set<EventId>, repeating: set<EventId>)
    requires i <= |expired|
    ensures FilesIn(Callbacks(expired, i, around, dead, repeating))
         == FilesIn(Scripts(expired, i, around, dead))
          + multiset(EventsAt(expired, Refiled(expired, i, around, dead, repeating)))
    decreases |expired| - i
  {
    if i < |expired| {
      var e, now := expired[i], dead + CancelledBy(around.before(i));
      if e in now {
        FilingsOfRound(expired, i + 1, around, now, repeating);
        FilesConcat(around.before(i), Callbacks(expired, i + 1, around, now, repeating));
        FilesConcat(around.before(i), Scripts(expired, i + 1, around, now));
      } else {
        FilingsOfTurn(expired, i, around, dead, repeating);
      }
    } else {
      assert EventsAt(expired, []) == [];
    }
  }

  lemma {:induction false} FilingsOfTurn(expired: seq<EventId>, i: nat, around: Around,
                                         dead: set<EventId>, repeating: set<EventId>)
    requires i < |expired| && expired[i] !in dead + CancelledBy(around.before(i))
    ensures FilesIn(Callbacks(expired, i, around, dead, repeating))
         == FilesIn(Scripts(expired, i, around, dead))
          + multiset(EventsAt(expired, Refiled(expired, i, around, dead, repeating)))
    decreases |expired| - i, 0
  {
    var e, after := expired[i], dead + CancelledIn(around, i);
    var rest := Refiled(expired, i + 1, around, after, repeating);
    FilingsOfRound(expired, i + 1, around, after, repeating);
    FilesConcat(TurnOps(e, i, around, dead, repeating), Callbacks(expired, i + 1, around, after, repeating));
    FilesConcat(TurnScript(around, i), Scripts(expired, i + 1, around, after));
    TurnFiles(e, i, around, dead, repeating);
    RefilingFiles(e, i, around, dead, repeating);
    EventsOf(expired, i, rest);
    hide FilesIn, TurnOps, TurnScript, Refiling, EventsAt, CancelledBy;
  }

  // ---------------------------------------------------------------------------------------
  // Rounds in which nobody else does anything
  // ---------------------------------------------------------------------------------------

  ghost predicate Quiet(around: Around) {
    forall i: nat ::
      around.before(i) == [] && around.during(i) == [] && around.between(i) == [] && around.late(i) == []
  }

  /** In such a round the turn of a repeated event sets its arrival time to the interval from now
      and files it there; that of any other event leaves the wheel as it is. */
  lemma QuietTurn(p: Plain, e: EventId, i: nat, around: Around, dead: set<EventId>)
    requires Quiet(around) && e !in dead && Wanted(p, e)
    ensures var clock := around.clock(i);
      ApplyAll(p, TurnOps(e, i, around, dead, RepeatingIn(p.events)))
      == if p.events[e].repeated then
           var moved := p.events[e].(arriveTime := clock.reset + p.events[e].interval);
           Filed(Started(p.(events := p.events[e := moved]), clock.start), e, clock.file)
         else p
  {
    hide Filed, Started, Insert, Without;
    var clock := around.clock(i);
    var refiling := Refiling(e, i, around, dead, RepeatingIn(p.events));
    TurnParts(p, e, i, around, dead, RepeatingIn(p.events));
    var q := Apply(p, Reset(e, clock.reset));
    ApplyNone(p);
    ApplyNone(q);
    assert refiling == if p.events[e].repeated then [File(e, clock.start, clock.file)] else [];
    ApplyOne(q, File(e, clock.start, clock.file));
    hide ApplyAll;
  }

  lemma {:induction false} QuietScripts(expired: seq<EventId>, i: nat, around: Around, dead: set<EventId>)
    requires i <= |expired| && Quiet(around)
    ensures Scripts(expired, i, around, dead) == []
    decreases |expired| - i
  {
    if i < |expired| {
      QuietScripts(expired, i + 1, around, dead + CancelledBy(around.before(i)));
      QuietScripts(expired, i + 1, around, dead + CancelledIn(around, i));
    }
  }

  lemma {:induction false} QuietTurns(expired: seq<EventId>, i: nat, around: Around, dead: set<EventId>,
                                      repeating: set<EventId>, k: nat)
    requires i <= k < |expired| && Quiet(around) && forall j :: 0 <= j < |expired| ==> expired[j] !in dead
    ensures k in Turns(expired, i, around, dead)
    ensures k in Refiled(expired, i, around, dead, repeating) <==> expired[k] in repeating
  {
    RefiledExactly(expired, i, around, dead, repeating, k);
    RunsUnlessCancelled(expired, i, around, dead, k);
    NobodyCancels(around);
    hide Turns, Refiled, CancelledBy, CancelledIn;
  }

  lemma NobodyCancels(around: Around)
    requires Quiet(around)
    ensures forall i: nat :: CancelledBy(around.before(i)) == {} && CancelledBy(around.during(i)) == {}
    ensures forall i: nat :: CancelledBy(around.between(i)) == {} && CancelledIn(around, i) == {}
  {
    assert CancelledBy([]) == {};
  }

  predicate PlainOps(ops: seq<Op>, repeating: set<EventId>) {
    forall i :: 0 <= i < |ops| ==> ops[i].Reset? || (ops[i].File? && ops[i].event in repeating)
  }

  lemma {:induction false} QuietOps(expired: seq<EventId>, i: nat, around: Around, dead: set<EventId>,
                                    repeating: set<EventId>)
    requires i <= |expired| && Quiet(around)
    ensures PlainOps(Callbacks(expired, i, around, dead, repeating), repeating)
    decreases |expired| - i
  {
    if i < |expired| {
      QuietOps(expired, i + 1, around, dead + CancelledBy(around.before(i)), repeating);
      QuietOps(expired, i + 1, around, dead + CancelledIn(around, i), repeating);
      var ops := TurnOps(expired[i], i, around, dead, repeating);
      assert ops == [Reset(expired[i], around.clock(i).reset)] + Refiling(expired[i], i, around, dead, repeating);
    }
  }

  lemma ApplyKeepsKeys(p: Plain, op: Op)
    ensures Apply(p, op).events.Keys == p.events.Keys
  {
    hide Insert, Without, DueBy, NotDueBy;
  }

  lemma {:induction false} PlainFilings(p: Plain, ops: seq<Op>, repeating: set<EventId>)
    requires PlainOps(ops, repeating) && repeating <= p.events.Keys
    ensures AllFilings(p, ops) == FilesIn(ops) && AllLeaving(p, ops) == multiset{}
    decreases |ops|
  {
    hide Apply;
    if ops != [] {
      ApplyKeepsKeys(p, ops[0]);
      PlainFilings(Apply(p, ops[0]), ops[1..], repeating);
    }
  }

  /** The repeating events of a list, from `i` on, as often as they are in it. */
  function Repeats(expired: seq<EventId>, i: nat, repeating: set<EventId>): multiset<EventId>
    requires i <= |expired|
    decreases |expired| - i
  {
    if i == |expired| then multiset{}
    else (if expired[i] in repeating then multiset{expired[i]} else multiset{}) + Repeats(expired, i + 1, repeating)
  }

  lemma {:induction false} QuietRefiled(expired: seq<EventId>, i: nat, around: Around, dead: set<EventId>,
                                        repeating: set<EventId>)
    requires i <= |expired| && Quiet(around) && forall j :: 0 <= j < |expired| ==> expired[j] !in dead
    ensures multiset(EventsAt(expired, Refiled(expired, i, around, dead, repeating)))
         == Repeats(expired, i, repeating)
    decreases |expired| - i
  {
    if i < |expired| {
      hide Refiled, EventsAt, Quiet;
      QuietStep(expired, i, around, dead, repeating);
      QuietRefiled(expired, i + 1, around, dead, repeating);
      EventsOf(expired, i, Refiled(expired, i + 1, around, dead, repeating));
    } else {
      assert EventsAt(expired, []) == [];
    }
  }

  lemma QuietStep(expired: seq<EventId>, i: nat, around: Around, dead: set<EventId>, repeating: set<EventId>)
    requires i < |expired| && Quiet(around) && expired[i] !in dead
    ensures var rest := Refiled(expired, i + 1, around, dead, repeating);
      Refiled(expired, i, around, dead, repeating) == if expired[i] in repeating then [i] + rest else rest
  {
    NobodyCancels(around);
    hide Quiet, CancelledBy, CancelledIn;
    assert dead + {} == dead;
  }

  lemma ExpiredIsLive(p: Plain, now: int)
    ensures forall j :: 0 <= j < |Expired(p, now)| ==> Expired(p, now)[j] !in DeadIn(p.events)
  {
    hide DeadIn, DueBy, Ids, Live;
    LiveExact(Ids(DueBy(p.near, now)), DeadIn(p.events));
    LiveExact(Ids(DueBy(p.overflow, now)), DeadIn(p.events));
  }

  /** After a round in which nobody else does anything, every event that was collected has run,
      and what is on the wheel is what the collection left and each repeating event that ran. */
  lemma QuietRound(p: Plain, now: int, around: Around)
    requires Quiet(around)
    ensures var expired, repeating := Expired(p, now), RepeatingIn(p.events);
      var q := Apply(p, Op.Collect(now));
      && (forall k :: 0 <= k < |expired| ==> k in Turns(expired, 0, around, DeadIn(p.events)))
      && Waiting(ApplyAll(q, Callbacks(expired, 0, around, DeadIn(p.events), repeating)))
         == Waiting(q) + Repeats(expired, 0, repeating)
  {
    var expired, dead, repeating := Expired(p, now), DeadIn(p.events), RepeatingIn(p.events);
    var q := Apply(p, Op.Collect(now));
    ExpiredIsLive(p, now);
    CollectKeepsEvents(p, now);
    hide *;
    forall k | 0 <= k < |expired|
      ensures k in Turns(expired, 0, around, dead)
    {
      QuietTurns(expired, 0, around, dead, repeating, k);
    }
    QuietFilings(q, expired, around, dead);
  }

  lemma CollectKeepsEvents(p: Plain, now: int)
    ensures Apply(p, Op.Collect(now)).events == p.events
  {
    hide DueBy, NotDueBy, Turned;
  }

  lemma RepeatingAreKnown(events: map<EventId, TimerEvent>)
    ensures RepeatingIn(events) <= events.Keys
  {
  }

  lemma QuietFilings(q: Plain, expired: seq<EventId>, around: Around, dead: set<EventId>)
    requires Quiet(around) && forall j :: 0 <= j < |expired| ==> expired[j] !in dead
    ensures var repeating := RepeatingIn(q.events);
      Waiting(ApplyAll(q, Callbacks(expired, 0, around, dead, repeating)))
      == Waiting(q) + Repeats(expired, 0, repeating)
  {
    hide *;
    var repeating := RepeatingIn(q.events);
    var ops := Callbacks(expired, 0, around, dead, repeating);
    RepeatingAreKnown(q.events);
    QuietOps(expired, 0, around, dead, repeating);
    PlainFilings(q, ops, repeating);
    EachFilingOnce(q, ops);
    FilingsOfRound(expired, 0, around, dead, repeating);
    QuietScripts(expired, 0, around, dead);
    QuietRefiled(expired, 0, around, dead, repeating);
    NoneFiled();
    assert Waiting(ApplyAll(q, ops)) + multiset{} == Waiting(ApplyAll(q, ops));
    assert multiset{} + Repeats(expired, 0, repeating) == Repeats(expired, 0, repeating);
  }

  lemma NoneFiled()
    ensures FilesIn([]) == multiset{}
  {
  }
}
