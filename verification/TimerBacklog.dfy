/** Cancelled timers and the overflow map. Cancelling looks for an event under its present
    arrival time and erases one entry, so that cancelled events do not pile up there; this module
    says exactly when that works. */
module TimerBacklog {
  import opened TimingWheels

  /** Every entry is filed under its event's arrival time, and no event is filed twice. */
  ghost predicate Tidy(overflow: seq<(int, EventId)>, events: map<EventId, TimerEvent>) {
    (forall x :: x in overflow ==> InPlace(x, events)) && Distinct(multiset(Ids(overflow)))
  }

  predicate InPlace(entry: (int, EventId), events: map<EventId, TimerEvent>) {
    entry.1 in events && entry.0 == events[entry.1].arriveTime
  }

  ghost predicate Distinct(ids: multiset<EventId>) {
    forall e :: ids[e] <= 1
  }

  /** The events in the map that are cancelled are among `marking`. */
  ghost predicate OnlyDeadIn(overflow: seq<(int, EventId)>, dead: set<EventId>, marking: set<EventId>) {
    forall e :: Listed(overflow, e) && e in dead ==> e in marking
  }

  /** No cancelled event is in the map, except those whose cancelling has not come to the erasing
      yet. */
  ghost predicate Clean(p: Plain, marking: set<EventId>) {
    Tidy(p.overflow, p.events) && OnlyDeadIn(p.overflow, DeadIn(p.events), marking)
  }

  /** The events between marking and erasing. */
  function Marking(marking: set<EventId>, op: Op): set<EventId> {
    match op
    case Mark(e) => marking + {e}
    case Erase(e) => marking - {e}
    case _ => marking
  }

  predicate Listed(overflow: seq<(int, EventId)>, e: EventId) {
    e in Ids(overflow)
  }

  /** What the caller of an operation has to see to: an event that goes to the map is not there
      already and has not been cancelled, and the arrival time of one that is there stays. */
  predicate Careful(p: Plain, op: Op, marking: set<EventId>) {
    match op
    case File(e, _, now) =>
      e in p.events && p.events[e].arriveTime - now > L1_RANGE ==>
        !Listed(p.overflow, e) && (p.events[e].cancelled ==> e in marking)
    case Reset(e, now) =>
      Wanted(p, e) && p.events[e].repeated && Listed(p.overflow, e) ==>
        now + p.events[e].interval == p.events[e].arriveTime
    case _ => true
  }

  // ---------------------------------------------------------------------------------------
  // Each operation
  // ---------------------------------------------------------------------------------------

  lemma {:induction false} InsertHolds(s: seq<(int, EventId)>, key: int, e: EventId)
    ensures forall x :: x in Insert(s, key, e) <==> x in s || x == (key, e)
  {
    if s != [] && s[0].0 <= key {
      InsertHolds(s[1..], key, e);
      assert s == [s[0]] + s[1..];
    }
  }

  lemma ListedCount(s: seq<(int, EventId)>, e: EventId)
    ensures Listed(s, e) <==> multiset(Ids(s))[e] > 0
  {
  }

  lemma InsertListed(s: seq<(int, EventId)>, key: int, e: EventId, x: EventId)
    ensures Listed(Insert(s, key, e), x) <==> Listed(s, x) || x == e
  {
    hide Insert;
    IdsInsert(s, key, e);
    ListedCount(s, x);
    ListedCount(Insert(s, key, e), x);
    hide Listed;
  }

  lemma TidyInsert(s: seq<(int, EventId)>, events: map<EventId, TimerEvent>, e: EventId)
    requires Tidy(s, events) && e in events
    ensures Tidy(Insert(s, events[e].arriveTime, e), events) <==> !Listed(s, e)
  {
    hide Insert;
    var key := events[e].arriveTime;
    InsertHolds(s, key, e);
    IdsInsert(s, key, e);
    ListedCount(s, e);
    hide Ids, Listed;
    assert multiset(Ids(Insert(s, key, e)))[e] == multiset(Ids(s))[e] + 1;
  }

  lemma DeadInsert(s: seq<(int, EventId)>, key: int, e: EventId, dead: set<EventId>, marking: set<EventId>)
    requires OnlyDeadIn(s, dead, marking)
    ensures OnlyDeadIn(Insert(s, key, e), dead, marking) <==> (e in dead ==> e in marking)
  {
    hide Insert, Listed;
    forall x
      ensures Listed(Insert(s, key, e), x) <==> Listed(s, x) || x == e
    {
      InsertListed(s, key, e, x);
    }
  }

  lemma {:induction false} WithoutWithin(s: seq<(int, EventId)>, key: int, e: EventId)
    ensures forall x :: x in Without(s, key, e) ==> x in s
  {
    if s != [] {
      WithoutWithin(s[1..], key, e);
    }
  }

  lemma EntryOf(s: seq<(int, EventId)>, e: EventId)
    requires Listed(s, e)
    ensures exists x :: x in s && x.1 == e
  {
    var i :| 0 <= i < |s| && Ids(s)[i] == e;
    assert s[i] in s;
  }

  lemma DistinctWithin(all: multiset<EventId>, part: multiset<EventId>)
    requires Distinct(all) && part <= all
    ensures Distinct(part)
  {
    forall e
      ensures part[e] <= 1
    {
      assert all[e] <= 1;
    }
  }

  /** In a tidy map, erasing an event leaves no entry of it and the others as they were. */
  lemma TidyErase(s: seq<(int, EventId)>, events: map<EventId, TimerEvent>, e: EventId)
    requires Tidy(s, events) && e in events
    ensures var t := Without(s, events[e].arriveTime, e);
      Tidy(t, events) && forall x :: Listed(t, x) <==> Listed(s, x) && x != e
  {
    hide Without, Listed;
    var key := events[e].arriveTime;
    var t := Without(s, key, e);
    WithoutWithin(s, key, e);
    IdsWithout(s, key, e);
    DistinctWithin(multiset(Ids(s)), multiset(Ids(t)));
    if Listed(s, e) {
      EntryOf(s, e);
    }
    forall x
      ensures Listed(t, x) <==> Listed(s, x) && x != e
    {
      ListedCount(s, x);
      ListedCount(t, x);
    }
    hide Ids;
  }

  lemma TidySuffix(s: seq<(int, EventId)>, events: map<EventId, TimerEvent>, now: int,
                   dead: set<EventId>, marking: set<EventId>)
    requires Tidy(s, events) && OnlyDeadIn(s, dead, marking)
    ensures Tidy(NotDueBy(s, now), events) && OnlyDeadIn(NotDueBy(s, now), dead, marking)
  {
    var t := NotDueBy(s, now);
    assert forall x :: x in t ==> x in s;
    IdsSplit(s, now);
    DistinctWithin(multiset(Ids(s)), multiset(Ids(t)));
    hide DueBy, NotDueBy, Listed, Distinct;
    forall x
      ensures Listed(t, x) ==> Listed(s, x)
    {
      ListedCount(s, x);
      ListedCount(t, x);
    }
    hide Ids;
  }

  lemma FileClean(p: Plain, e: EventId, clock: int, now: int, marking: set<EventId>)
    requires Clean(p, marking)
    ensures Clean(Apply(p, File(e, clock, now)), marking) <==> Careful(p, File(e, clock, now), marking)
  {
    hide Insert, Tidy, OnlyDeadIn;
    if e in p.events {
      TidyInsert(p.overflow, p.events, e);
      DeadInsert(p.overflow, p.events[e].arriveTime, e, DeadIn(p.events), marking);
    }
  }

  lemma ResetClean(p: Plain, e: EventId, now: int, marking: set<EventId>)
    requires Clean(p, marking)
    ensures Clean(Apply(p, Reset(e, now)), marking) <==> Careful(p, Reset(e, now), marking)
  {
    hide Insert, Without;
    var q := Apply(p, Reset(e, now));
    assert DeadIn(q.events) == DeadIn(p.events);
    assert forall x: (int, EventId) :: x.1 != e ==> InPlace(x, q.events) == InPlace(x, p.events);
    if Listed(p.overflow, e) {
      EntryOf(p.overflow, e);
    } else {
      assert forall i :: 0 <= i < |p.overflow| ==> Ids(p.overflow)[i] == p.overflow[i].1;
    }
    hide DeadIn, Ids, Distinct;
  }

  lemma MarkClean(p: Plain, e: EventId, marking: set<EventId>)
    requires Clean(p, marking)
    ensures Clean(Apply(p, Mark(e)), marking + {e})
  {
    var q := Apply(p, Mark(e));
    assert forall x :: x in q.events ==> x in p.events && q.events[x].arriveTime == p.events[x].arriveTime;
    assert forall x :: x in DeadIn(q.events) ==> x in DeadIn(p.events) || x == e;
    hide Apply, DeadIn;
  }

  lemma EraseClean(p: Plain, e: EventId, marking: set<EventId>)
    requires Clean(p, marking)
    ensures Clean(Apply(p, Erase(e)), marking - {e})
  {
    hide Without, Insert;
    if e in p.events {
      TidyErase(p.overflow, p.events, e);
      hide Tidy, Listed;
    } else {
      NotListed(p, e);
    }
  }

  /** What a tidy map lists, the wheel knows. */
  lemma NotListed(p: Plain, e: EventId)
    requires Tidy(p.overflow, p.events) && e !in p.events
    ensures !Listed(p.overflow, e)
  {
    if Listed(p.overflow, e) {
      EntryOf(p.overflow, e);
    }
  }

  /** A map that is clean stays clean under an operation if and only if its caller is careful. */
  lemma StepClean(p: Plain, op: Op, marking: set<EventId>)
    requires Clean(p, marking)
    ensures Clean(Apply(p, op), Marking(marking, op)) <==> Careful(p, op, marking)
  {
    match op
    case Mark(e) => MarkClean(p, e, marking);
    case Erase(e) => EraseClean(p, e, marking);
    case File(e, clock, now) => FileClean(p, e, clock, now, marking);
    case Reset(e, now) => ResetClean(p, e, now, marking);
    case Collect(now) =>
      hide Turned, DeadIn, NotDueBy, Tidy, OnlyDeadIn;
      TidySuffix(p.overflow, p.events, now, DeadIn(p.events), marking);
  }

  // ---------------------------------------------------------------------------------------
  // Every run
  // ---------------------------------------------------------------------------------------

  ghost predicate CarefulRun(p: Plain, ops: seq<Op>, marking: set<EventId>)
    decreases |ops|
  {
    ops == [] || (Careful(p, ops[0], marking) && CarefulRun(Apply(p, ops[0]), ops[1..], Marking(marking, ops[0])))
  }

  function MarkingAfter(marking: set<EventId>, ops: seq<Op>): set<EventId>
    decreases |ops|
  {
    if ops == [] then marking else MarkingAfter(Marking(marking, ops[0]), ops[1..])
  }

  /** Over every run of careful operations no cancelled event is left in the overflow map, except
      those that are just being cancelled. */
  lemma {:induction false} NoBacklog(p: Plain, ops: seq<Op>, marking: set<EventId>)
    requires Clean(p, marking) && CarefulRun(p, ops, marking)
    ensures Clean(ApplyAll(p, ops), MarkingAfter(marking, ops))
    decreases |ops|
  {
    hide Clean, Careful, Apply, Marking;
    if ops != [] {
      StepClean(p, ops[0], marking);
      NoBacklog(Apply(p, ops[0]), ops[1..], Marking(marking, ops[0]));
    }
  }

  /** Cancelling takes an event out of the map if and only if it is there at most once and, if
      so, under its arrival time. */
  lemma CancelExactly(p: Plain, e: EventId)
    requires e in p.events
    ensures !Listed(Apply(Apply(p, Mark(e)), Erase(e)).overflow, e) <==>
      multiset(Ids(p.overflow))[e] == if (p.events[e].arriveTime, e) in p.overflow then 1 else 0
  {
    hide Without, Ids;
    IdsWithout(p.overflow, p.events[e].arriveTime, e);
    var t := Without(p.overflow, p.events[e].arriveTime, e);
    assert e in Ids(t) <==> multiset(Ids(t))[e] > 0;
  }

  // The careless runs: each leaves a cancelled event in the map.

  /** Filing a far event twice. */
  lemma FiledTwiceStays(p: Plain, e: EventId, clock: int, now: int)
    requires e in p.events && p.events[e].arriveTime - now > L1_RANGE
    ensures var filed := Apply(Apply(p, File(e, clock, now)), File(e, clock, now));
      Listed(Apply(Apply(filed, Mark(e)), Erase(e)).overflow, e)
  {
    hide Insert, Ids, Without;
    var key := p.events[e].arriveTime;
    var once := Insert(p.overflow, key, e);
    IdsInsert(p.overflow, key, e);
    IdsInsert(once, key, e);
    var filed := Apply(Apply(p, File(e, clock, now)), File(e, clock, now));
    assert filed.overflow == Insert(once, key, e) && filed.events == p.events;
    CancelExactly(filed, e);
    assert multiset(Ids(filed.overflow))[e] >= 2;
    hide Apply;
  }

  lemma {:induction false} WithoutKeeps(s: seq<(int, EventId)>, key: int, e: EventId, x: (int, EventId))
    requires x in s && x != (key, e)
    ensures x in Without(s, key, e)
  {
    if s[0] != (key, e) && x != s[0] {
      assert x in s[1..];
      WithoutKeeps(s[1..], key, e, x);
    }
  }

  /** Moving the arrival time of an event that is filed. */
  lemma MovedStays(p: Plain, e: EventId, old_: int)
    requires e in p.events && (old_, e) in p.overflow && old_ != p.events[e].arriveTime
    ensures Listed(Apply(Apply(p, Mark(e)), Erase(e)).overflow, e)
  {
    hide Without;
    var t := Without(p.overflow, p.events[e].arriveTime, e);
    WithoutKeeps(p.overflow, p.events[e].arriveTime, e, (old_, e));
    var i :| 0 <= i < |t| && t[i] == (old_, e);
    assert Ids(t)[i] == e;
  }

  /** Filing a far event, having looked at the mark before it was set. */
  lemma LateFilingStays(p: Plain, e: EventId, clock: int, now: int)
    requires e in p.events && p.events[e].arriveTime - now > L1_RANGE
    ensures var q := Apply(Apply(Apply(p, Mark(e)), Erase(e)), File(e, clock, now));
      Listed(q.overflow, e) && e in DeadIn(q.events)
  {
    hide Insert, Ids, Without;
    var key := p.events[e].arriveTime;
    IdsInsert(Without(p.overflow, key, e), key, e);
    assert e in multiset(Ids(Insert(Without(p.overflow, key, e), key, e)));
  }
}
