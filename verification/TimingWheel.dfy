/** The timing wheel: 256 slots of 10 ms each for near deadlines and an ordered overflow map
    for the others. The steady clock is a parameter of every operation that reads it. */
module TimingWheels {
  import opened Common

  const TICK_MS := 10
  const SLOTS := 256
  const L1_RANGE := SLOTS * TICK_MS

  // ---------------------------------------------------------------------------------------
  // The plain view of the wheel: deadlines in the order in which they fall due
  // ---------------------------------------------------------------------------------------

  /** The entries of one slot, with the instant at which they fall due. */
  function Tag<E>(slot: seq<E>, due: int): (s: seq<(int, E)>)
    ensures |s| == |slot| && forall i :: 0 <= i < |s| ==> s[i] == (due, slot[i])
  {
    seq(|slot|, i requires 0 <= i < |slot| => (due, slot[i]))
  }

  /** When the slot `j` places after the cursor falls due. */
  function DueAt(lastTick: int, j: nat): int {
    lastTick + TICK_MS * (j + 1)
  }

  /** The slots in the order in which the cursor will reach them. */
  function Upcoming<E>(l1: seq<seq<E>>, cursor: nat): (u: seq<seq<E>>)
    requires |l1| == SLOTS && cursor < SLOTS
    ensures |u| == SLOTS
    ensures forall j :: 0 <= j < SLOTS ==> u[j] == l1[(cursor + j) % SLOTS]
  {
    l1[cursor..] + l1[..cursor]
  }

  /** The deadlines in a list of slots, the first of which falls due at `due`. */
  function TagAll<E>(slots: seq<seq<E>>, due: int): seq<(int, E)>
    decreases |slots|
  {
    if slots == [] then [] else Tag(slots[0], due) + TagAll(slots[1..], due + TICK_MS)
  }

  /** All deadlines on the wheel. */
  function Deadlines<E>(l1: seq<seq<E>>, cursor: nat, lastTick: int): seq<(int, E)>
    requires |l1| == SLOTS && cursor < SLOTS
  {
    TagAll(Upcoming(l1, cursor), lastTick + TICK_MS)
  }

  ghost predicate AllBy<E>(s: seq<(int, E)>, t: int) {
    forall i :: 0 <= i < |s| ==> s[i].0 <= t
  }

  ghost predicate AllAfter<E>(s: seq<(int, E)>, t: int) {
    forall i :: 0 <= i < |s| ==> t < s[i].0
  }

  lemma {:induction false} TagAllConcat<E>(a: seq<seq<E>>, b: seq<seq<E>>, due: int)
    ensures TagAll(a + b, due) == TagAll(a, due) + TagAll(b, due + TICK_MS * |a|)
    decreases |a|
  {
    if a == [] {
      assert a + b == b;
    } else {
      assert (a + b)[1..] == a[1..] + b;
      TagAllConcat(a[1..], b, due + TICK_MS);
    }
  }

  lemma {:induction false} TagAllRange<E>(slots: seq<seq<E>>, due: int)
    ensures AllAfter(TagAll(slots, due), due - 1)
    ensures AllBy(TagAll(slots, due), due + TICK_MS * (|slots| - 1))
    decreases |slots|
  {
    if slots != [] {
      TagAllRange(slots[1..], due + TICK_MS);
    }
  }

  /** One tick clears the slot at the cursor and moves on: the rest stays due when it was. */
  lemma Tick<E>(l1: seq<seq<E>>, cursor: nat, lastTick: int)
    requires |l1| == SLOTS && cursor < SLOTS
    ensures Deadlines(l1, cursor, lastTick)
         == Tag(l1[cursor], lastTick + TICK_MS)
          + Deadlines(l1[cursor := []], (cursor + 1) % SLOTS, lastTick + TICK_MS)
  {
    var u := Upcoming(l1, cursor);
    assert Upcoming(l1[cursor := []], (cursor + 1) % SLOTS) == u[1..] + [[]];
    TagAllConcat(u[1..], [[]], lastTick + TICK_MS + TICK_MS);
    var last: seq<seq<E>> := [[]];
    assert last[1..] == [];
    assert TagAll(last, lastTick + TICK_MS + TICK_MS + TICK_MS * |u[1..]|) == [];
  }

  lemma UpcomingInsert<E>(l1: seq<seq<E>>, cursor: nat, e: E, k: nat)
    requires |l1| == SLOTS && cursor < SLOTS && k < SLOTS
    ensures var i, u := (cursor + k) % SLOTS, Upcoming(l1, cursor);
      Upcoming(l1[i := l1[i] + [e]], cursor) == u[..k] + ([u[k] + [e]] + u[k + 1..])
  {
    var i, u := (cursor + k) % SLOTS, Upcoming(l1, cursor);
    var v := Upcoming(l1[i := l1[i] + [e]], cursor);
    assert i == if cursor + k < SLOTS then cursor + k else cursor + k - SLOTS;
    assert v == u[k := u[k] + [e]];
  }

  lemma TagInsert<E>(front: seq<seq<E>>, slot: seq<E>, back: seq<seq<E>>, first: int, e: E)
    returns (before: seq<(int, E)>, after: seq<(int, E)>)
    ensures var due := first + TICK_MS * |front|;
      && TagAll(front + ([slot] + back), first) == before + after
      && TagAll(front + ([slot + [e]] + back), first) == before + [(due, e)] + after
      && AllBy(before, due) && AllAfter(after, due)
  {
    var due := first + TICK_MS * |front|;
    TagAllConcat(front, [slot] + back, first);
    TagAllConcat(front, [slot + [e]] + back, first);
    TagAllRange(front, first);
    TagAllRange(back, due + TICK_MS);
    before := TagAll(front, first) + Tag(slot, due);
    after := TagAll(back, due + TICK_MS);
    assert ([slot] + back)[1..] == back && ([slot + [e]] + back)[1..] == back;
    assert Tag(slot + [e], due) == Tag(slot, due) + [(due, e)];
  }

  /** A near timer with a positive delay, added while the wheel lags the clock by `lag` ms,
      falls due at most `lag` ms before and at most `9 - lag` ms after its deadline. */
  lemma TimingBounds(lastTick: int, now: int, delay: int)
    requires 0 < delay <= L1_RANGE
    ensures var lag := now - lastTick;
      var k := (delay - 1) / TICK_MS;
      && 0 <= k < SLOTS
      && -lag <= DueAt(lastTick, k) - (now + delay) <= TICK_MS - 1 - lag
  {
  }

  // ---------------------------------------------------------------------------------------
  // The overflow map
  // ---------------------------------------------------------------------------------------

  ghost predicate Sorted<E>(s: seq<(int, E)>) {
    forall i, j :: 0 <= i < j < |s| ==> s[i].0 <= s[j].0
  }

  /** Insertion into the ordered multimap: behind every entry with the same key. */
  function Insert<E>(s: seq<(int, E)>, key: int, e: E): (r: seq<(int, E)>)
    ensures |r| == |s| + 1
  {
    if s == [] || key < s[0].0 then [(key, e)] + s else [s[0]] + Insert(s[1..], key, e)
  }

  lemma {:induction false} InsertKeepsOrder<E>(s: seq<(int, E)>, key: int, e: E)
    requires Sorted(s)
    ensures Sorted(Insert(s, key, e))
  {
    if s != [] && s[0].0 <= key {
      InsertKeepsOrder(s[1..], key, e);
      InsertLower(s[1..], key, e, s[0].0);
    }
  }

  lemma {:induction false} InsertLower<E>(s: seq<(int, E)>, key: int, e: E, low: int)
    requires low <= key && forall i :: 0 <= i < |s| ==> low <= s[i].0
    ensures forall i :: 0 <= i <= |s| ==> low <= Insert(s, key, e)[i].0
  {
    if s != [] && s[0].0 <= key {
      InsertLower(s[1..], key, e, low);
    }
  }

  lemma {:induction false} InsertBetween<E>(before: seq<(int, E)>, after: seq<(int, E)>, key: int, e: E)
    requires AllBy(before, key) && AllAfter(after, key)
    ensures Insert(before + after, key, e) == before + [(key, e)] + after
    decreases |before|
  {
    var s := before + after;
    if before == [] {
      assert s == after;
    } else {
      assert s[1..] == before[1..] + after;
      InsertBetween(before[1..], after, key, e);
      assert before == [before[0]] + before[1..];
    }
  }

  /** Putting an event `k` places after the cursor is inserting its due time into the
      deadlines. */
  lemma InsertAt<E>(l1: seq<seq<E>>, cursor: nat, lastTick: int, e: E, k: nat)
    requires |l1| == SLOTS && cursor < SLOTS && k < SLOTS
    ensures var i := (cursor + k) % SLOTS;
      Deadlines(l1[i := l1[i] + [e]], cursor, lastTick)
      == Insert(Deadlines(l1, cursor, lastTick), DueAt(lastTick, k), e)
  {
    var u := Upcoming(l1, cursor);
    UpcomingInsert(l1, cursor, e, k);
    assert u == u[..k] + ([u[k]] + u[k + 1..]);
    var before, after := TagInsert(u[..k], u[k], u[k + 1..], lastTick + TICK_MS, e);
    InsertBetween(before, after, DueAt(lastTick, k), e);
  }

  lemma {:induction false} TagAllSorted<E>(slots: seq<seq<E>>, due: int)
    ensures Sorted(TagAll(slots, due))
    decreases |slots|
  {
    if slots != [] {
      TagAllSorted(slots[1..], due + TICK_MS);
      TagAllRange(slots[1..], due + TICK_MS);
    }
  }

  /** The entries due by `t`, and the others; both lists of deadlines are ordered. */
  function DueBy<E>(s: seq<(int, E)>, t: int): (r: seq<(int, E)>)
    ensures |r| <= |s| && r == s[..|r|] && AllBy(r, t)
    ensures |r| < |s| ==> t < s[|r|].0
  {
    if s == [] || t < s[0].0 then [] else [s[0]] + DueBy(s[1..], t)
  }

  function NotDueBy<E>(s: seq<(int, E)>, t: int): seq<(int, E)> {
    s[|DueBy(s, t)|..]
  }

  /** On an ordered list, DueBy and NotDueBy split off exactly the entries due by `t`. */
  lemma SplitExact<E>(s: seq<(int, E)>, t: int)
    requires Sorted(s)
    ensures DueBy(s, t) + NotDueBy(s, t) == s
    ensures AllBy(DueBy(s, t), t) && AllAfter(NotDueBy(s, t), t)
  {
    var n := |DueBy(s, t)|;
    hide DueBy;
    forall i | 0 <= i < |s| - n
      ensures t < s[n..][i].0
    {
      assert s[n].0 <= s[n + i].0;
    }
  }

  lemma SplitUnique<E>(s: seq<(int, E)>, a: seq<(int, E)>, b: seq<(int, E)>, t: int)
    requires s == a + b && AllBy(a, t) && AllAfter(b, t)
    ensures DueBy(s, t) == a && NotDueBy(s, t) == b
  {
    var n := |DueBy(s, t)|;
    assert forall i :: 0 <= i < |a| ==> s[i] == a[i];
    assert b != [] ==> s[|a|] == b[0];
    assert forall i :: 0 <= i < n ==> DueBy(s, t)[i] == s[i];
    assert |a| <= n;
    assert n <= |a|;
  }

  lemma {:induction false} TagAllAt<E>(slots: seq<seq<E>>, due: int, j: nat, e: E)
    requires j < |slots|
    ensures (due + TICK_MS * j, e) in TagAll(slots, due) <==> e in slots[j]
    decreases |slots|
  {
    var head, tail := Tag(slots[0], due), TagAll(slots[1..], due + TICK_MS);
    TagAllRange(slots[1..], due + TICK_MS);
    if j == 0 {
      TagHas(slots[0], due, e);
      assert (due, e) !in tail;
    } else {
      TagAllAt(slots[1..], due + TICK_MS, j - 1, e);
      assert (due + TICK_MS * j, e) !in head;
    }
  }

  lemma TagHas<E>(slot: seq<E>, due: int, e: E)
    ensures (due, e) in Tag(slot, due) <==> e in slot
  {
    forall i | 0 <= i < |slot|
      ensures (due, slot[i]) in Tag(slot, due)
    {
      assert Tag(slot, due)[i] == (due, slot[i]);
    }
  }

  /** The deadlines say of each slot when it falls due: an entry is in the slot `j` places
      after the cursor exactly if it is due at that slot's time. */
  lemma SlotDue<E>(l1: seq<seq<E>>, cursor: nat, lastTick: int, j: nat, e: E)
    requires |l1| == SLOTS && cursor < SLOTS && j < SLOTS
    ensures e in l1[(cursor + j) % SLOTS] <==> (DueAt(lastTick, j), e) in Deadlines(l1, cursor, lastTick)
  {
    TagAllAt(Upcoming(l1, cursor), lastTick + TICK_MS, j, e);
    assert DueAt(lastTick, j) == lastTick + TICK_MS + TICK_MS * j;
  }

  lemma {:induction false} TagAllLater(slots: seq<seq<EventId>>, due: int, shift: int)
    ensures TagAll(slots, due + shift) == Later(TagAll(slots, due), shift)
    decreases |slots|
  {
    if slots != [] {
      TagAllLater(slots[1..], due + TICK_MS, shift);
      assert due + shift + TICK_MS == due + TICK_MS + shift;
      var head, tail := Tag(slots[0], due), TagAll(slots[1..], due + TICK_MS);
      assert Later(head + tail, shift) == Later(head, shift) + Later(tail, shift);
      assert Tag(slots[0], due + shift) == Later(head, shift);
    }
  }

  lemma DeadlinesLater(l1: seq<seq<EventId>>, cursor: nat, lastTick: int, shift: int)
    requires |l1| == SLOTS && cursor < SLOTS
    ensures Deadlines(l1, cursor, lastTick + shift) == Later(Deadlines(l1, cursor, lastTick), shift)
  {
    TagAllLater(Upcoming(l1, cursor), lastTick + TICK_MS, shift);
    assert lastTick + TICK_MS + shift == lastTick + shift + TICK_MS;
  }

  lemma {:induction false} EmptySlots<E>(slots: seq<seq<E>>, due: int, later: int)
    ensures (forall i :: 0 <= i < |slots| ==> slots[i] == []) ==> TagAll(slots, due) == []
    ensures TagAll(slots, due) == [] ==> TagAll(slots, later) == []
    decreases |slots|
  {
    if slots != [] {
      EmptySlots(slots[1..], due + TICK_MS, later + TICK_MS);
      assert TagAll(slots, due) == [] ==> |Tag(slots[0], due)| == 0;
    }
  }

  // ---------------------------------------------------------------------------------------
  // The wheel itself
  // ---------------------------------------------------------------------------------------

  type EventId = nat

  datatype TimerEvent = TimerEvent(arriveTime: int, interval: int, repeated: bool, cancelled: bool)

  /** The events that have not been cancelled, in order; `dead` are the cancelled ones. */
  function Live(slot: seq<EventId>, dead: set<EventId>): (r: seq<EventId>) {
    if slot == [] then []
    else
      var n := |slot| - 1;
      Live(slot[..n], dead) + (if slot[n] in dead then [] else [slot[n]])
  }

  function Ids(s: seq<(int, EventId)>): (r: seq<EventId>)
    ensures |r| == |s| && forall i :: 0 <= i < |s| ==> r[i] == s[i].1
  {
    seq(|s|, i requires 0 <= i < |s| => s[i].1)
  }

  lemma {:induction false} LiveConcat(a: seq<EventId>, b: seq<EventId>, dead: set<EventId>)
    ensures Live(a + b, dead) == Live(a, dead) + Live(b, dead)
    decreases |b|
  {
    if b == [] {
      assert a + b == a;
    } else {
      var n := |b| - 1;
      assert (a + b)[..|a + b| - 1] == a + b[..n];
      LiveConcat(a, b[..n], dead);
    }
  }

  lemma {:induction false} LiveExact(slot: seq<EventId>, dead: set<EventId>)
    ensures multiset(Live(slot, dead)) <= multiset(slot)
    ensures forall e :: e in Live(slot, dead) <==> e in slot && e !in dead
  {
    if slot != [] {
      var n := |slot| - 1;
      LiveExact(slot[..n], dead);
      assert slot == slot[..n] + [slot[n]];
    }
  }

  // ---------------------------------------------------------------------------------------
  // The plain timer queue that the wheel implements
  // ---------------------------------------------------------------------------------------

  /** Two ordered lists of deadlines, the time of the last tick, and the events. */
  datatype Plain = Plain(lastTick: int, near: seq<(int, EventId)>, overflow: seq<(int, EventId)>,
                         events: map<EventId, TimerEvent>)

  function DeadIn(events: map<EventId, TimerEvent>): set<EventId> {
    set e | e in events && events[e].cancelled
  }

  function Later(s: seq<(int, EventId)>, shift: int): (r: seq<(int, EventId)>)
    ensures |r| == |s| && Ids(r) == Ids(s)
  {
    seq(|s|, i requires 0 <= i < |s| => (s[i].0 + shift, s[i].1))
  }

  /** The first reading of the clock starts the wheel. */
  function Started(p: Plain, clock: int): Plain {
    if p.lastTick == 0 then p.(lastTick := clock, near := Later(p.near, clock)) else p
  }

  /** Files an event under its arrival time, read against the clock `now`: a deadline within
      the range of the wheel is rounded to a tick, any other is kept exactly. */
  function Filed(p: Plain, e: EventId, now: int): Plain
    requires e in p.events
  {
    var arrival := p.events[e].arriveTime;
    var delay := if arrival <= now then TICK_MS else arrival - now;
    if delay <= L1_RANGE then
      TimingBounds(p.lastTick, now, delay);
      p.(near := Insert(p.near, DueAt(p.lastTick, (delay - 1) / TICK_MS), e))
    else p.(overflow := Insert(p.overflow, arrival, e))
  }

  /** A near timer with a positive delay, filed while the wheel lags the clock by `lag` ms,
      falls due at most `lag` ms before and at most `9 - lag` ms after its deadline; a far one
      is kept at its deadline. */
  lemma FiledOnTime(p: Plain, e: EventId, now: int) returns (due: int)
    requires e in p.events && now < p.events[e].arriveTime
    ensures var arrival, lag, q := p.events[e].arriveTime, now - p.lastTick, Filed(p, e, now);
      if arrival - now <= L1_RANGE then
        && q == p.(near := Insert(p.near, due, e))
        && -lag <= due - arrival <= TICK_MS - 1 - lag
      else q == p.(overflow := Insert(p.overflow, arrival, e))
  {
    hide Insert;
    var delay := p.events[e].arriveTime - now;
    due := DueAt(p.lastTick, (delay - 1) / TICK_MS);
    if delay <= L1_RANGE {
      TimingBounds(p.lastTick, now, delay);
    }
  }

  /** The atomic steps of the operations: marking an event as cancelled, erasing it from the
      overflow map, filing it, giving it a new arrival time, and collecting. Cancelling is
      marking, then erasing; adding is filing, after a look at the mark. */
  datatype Op =
    | Mark(event: EventId)
    | Erase(event: EventId)
    | File(event: EventId, clock: int, now: int)
    | Reset(event: EventId, now: int)
    | Collect(now: int)

  predicate Wanted(p: Plain, e: EventId) {
    e in p.events && !p.events[e].cancelled
  }

  function Apply(p: Plain, op: Op): Plain {
    match op
    case Mark(e) =>
      if e !in p.events then p else p.(events := p.events[e := p.events[e].(cancelled := true)])
    case Erase(e) =>
      if e !in p.events then p else p.(overflow := Without(p.overflow, p.events[e].arriveTime, e))
    case File(e, clock, now) =>
      if e !in p.events then p else Filed(Started(p, clock), e, now)
    case Reset(e, now) =>
      if !Wanted(p, e) || !p.events[e].repeated then p
      else p.(events := p.events[e := p.events[e].(arriveTime := now + p.events[e].interval)])
    case Collect(now) =>
      if p.lastTick == 0 then Started(p, now)
      else p.(lastTick := Turned(p.lastTick, now), near := NotDueBy(p.near, now), overflow := NotDueBy(p.overflow, now))
  }

  /** The last whole tick by `now`; a gap of more than a full turn resets the clock. */
  function Turned(lastTick: int, now: int): (t: int)
    ensures lastTick <= now ==> 0 <= now - t < TICK_MS
    ensures now <= lastTick ==> t == lastTick
    ensures now - lastTick < (SLOTS + 1) * TICK_MS ==> (t - lastTick) % TICK_MS == 0
    ensures now - lastTick >= (SLOTS + 1) * TICK_MS ==> t == now
  {
    if now <= lastTick then lastTick
    else if (now - lastTick) / TICK_MS > SLOTS then now
    else lastTick + (now - lastTick) / TICK_MS * TICK_MS
  }

  /** What a collection returns. */
  function Expired(p: Plain, now: int): seq<EventId> {
    if p.lastTick == 0 then []
    else Live(Ids(DueBy(p.near, now)), DeadIn(p.events)) + Live(Ids(DueBy(p.overflow, now)), DeadIn(p.events))
  }

  class TimingWheel {
    var l1: array<seq<EventId>>
    var overflow: seq<(int, EventId)>
    var cursor: nat
    var lastTick: int
    var events: map<EventId, TimerEvent>

    /** The cancelled events; an event keeps its flag wherever it is filed. */
    function Dead(): (dead: set<EventId>)
      reads this`events
    {
      DeadIn(events)
    }

    ghost predicate Valid()
      reads this
    {
      l1.Length == SLOTS && cursor < SLOTS && Sorted(overflow)
    }

    /** The near deadlines, in the order in which they fall due. */
    ghost function Near(): (s: seq<(int, EventId)>)
      requires l1.Length == SLOTS && cursor < SLOTS
      reads this`l1, this`cursor, this`lastTick, l1
      ensures Sorted(s)
    {
      TagAllSorted(Upcoming(l1[..], cursor), lastTick + TICK_MS);
      Deadlines(l1[..], cursor, lastTick)
    }

    /** The timer queue that the wheel stands for. */
    ghost function Value(): Plain
      requires Valid()
      reads this, l1
    {
      Plain(lastTick, Near(), overflow, events)
    }

    constructor ()
      ensures Valid() && fresh(l1) && Value() == Plain(0, [], [], map[])
    {
      l1 := new seq<EventId>[SLOTS](_ => []);
      overflow, cursor, lastTick, events := [], 0, 0, map[];
      new;
      EmptySlots(Upcoming(l1[..], 0), TICK_MS, TICK_MS);
    }

    method PutNear(event: EventId, ticksAhead: nat)
      requires Valid() && ticksAhead < SLOTS
      modifies l1
      ensures Valid() && Near() == Insert(old(Near()), DueAt(lastTick, ticksAhead), event)
    {
      hide Insert, Deadlines, Sorted, DueAt;
      var idx := (cursor + ticksAhead) % SLOTS;
      ghost var slots := l1[..];
      InsertAt(slots, cursor, lastTick, event, ticksAhead);
      l1[idx] := l1[idx] + [event];
      assert l1[..] == slots[idx := slots[idx] + [event]];
    }

    method Schedule(event: EventId, now: int)
      requires Valid() && event in events
      modifies this`overflow, l1
      ensures Valid() && Value() == Filed(old(Value()), event, now)
    {
      hide Insert, Deadlines, Sorted, DueAt, DueBy, Ids, TagAll, Upcoming;
      var arrival := events[event].arriveTime;
      var delay := arrival - now;
      if delay <= 0 {
        delay := TICK_MS;
        arrival := now + delay;
      }
      if delay <= L1_RANGE {
        TimingBounds(lastTick, now, delay);
        var ticksAhead := (delay - 1) / TICK_MS;
        hide TICK_MS, SLOTS;
        PutNear(event, ticksAhead);
      } else {
        InsertKeepsOrder(overflow, arrival, event);
        overflow := Insert(overflow, arrival, event);
      }
    }

    /** Makes an event known to the wheel. */
    method Register(event: EventId, fields: TimerEvent)
      requires Valid() && event !in events
      modifies this`events
      ensures Valid() && Value() == old(Value()).(events := old(events)[event := fields])
    {
      hide Sorted, Deadlines;
      events := events[event := fields];
    }

    /** An event that is not marked is filed. */
    method AddEvent(event: EventId, clock: int, now: int)
      requires Valid() && event in events
      modifies this`overflow, this`lastTick, l1
      ensures Valid()
      ensures Value() == if events[event].cancelled then old(Value()) else Apply(old(Value()), File(event, clock, now))
    {
      hide Apply, Sorted, Deadlines;
      if !events[event].cancelled {
        FileEvent(event, clock, now);
      }
    }

    /** The part of adding that holds the lock. The clock is read once to start the wheel and
        once more to schedule. */
    method FileEvent(event: EventId, clock: int, now: int)
      requires Valid() && event in events
      modifies this`overflow, this`lastTick, l1
      ensures Valid() && Value() == Apply(old(Value()), File(event, clock, now))
    {
      hide Insert, Deadlines, Sorted, Filed;
      if lastTick == 0 {
        DeadlinesLater(l1[..], cursor, 0, clock);
        lastTick := clock;
      }
      Schedule(event, now);
    }

    /** Moves the wheel on by `ticks` slots and returns the live events it passed. */
    method Turn(ticks: nat, ghost base: int) returns (expired: seq<EventId>, ghost passed: seq<(int, EventId)>)
      requires Valid() && ticks <= SLOTS
      modifies this`cursor, l1
      ensures Valid()
      ensures old(Deadlines(l1[..], cursor, base))
           == passed + Deadlines(l1[..], cursor, base + TICK_MS * ticks)
      ensures AllBy(passed, base + TICK_MS * ticks)
      ensures expired == Live(Ids(passed), Dead())
      ensures ticks == 0 ==> passed == []
    {
      LiveEmpty(Dead());
      hide Deadlines, Sorted, Live, Ids, Dead, Tag;
      expired, passed := [], [];
      for t := 0 to ticks
        invariant Valid()
        invariant old(Deadlines(l1[..], cursor, base))
               == passed + Deadlines(l1[..], cursor, base + TICK_MS * t)
        invariant AllBy(passed, base + TICK_MS * t)
        invariant expired == Live(Ids(passed), Dead()) && (t == 0 ==> passed == [])
      {
        ghost var slots, at := l1[..], base + TICK_MS * t;
        var slot := l1[cursor];
        Tick(slots, cursor, at);
        TurnOne(passed, slot, at + TICK_MS, Dead());
        passed := passed + Tag(slot, at + TICK_MS);
        expired := expired + Live(slot, Dead());
        l1[cursor] := Live(slot, Dead());
        l1[cursor] := [];
        assert l1[..] == slots[cursor := []];
        cursor := (cursor + 1) % SLOTS;
      }
    }

    /** Collects what has expired by `now`: exactly the near events due by then and the
        overflow events that arrive by then, each once, except the cancelled ones. The very
        first call only starts the clock. */
    method Collect(now: int) returns (expired: seq<EventId>)
      requires Valid()
      modifies this`cursor, this`lastTick, this`overflow, l1
      ensures Valid()
      ensures Value() == Apply(old(Value()), Op.Collect(now)) && expired == Expired(old(Value()), now)
    {
      hide Live, DeadIn, DueBy, NotDueBy, Deadlines, Sorted, Ids, Turned;
      if lastTick == 0 {
        DeadlinesLater(l1[..], cursor, 0, now);
        lastTick := now;
        return [];
      }
      var near := CollectNear(now);
      var far := CollectOverflow(now);
      expired := near + far;
    }

    /** Ticks that have passed since the last time are made up for; after a large gap the
        whole wheel is passed once and the clock is set. */
    method CollectNear(now: int) returns (expired: seq<EventId>)
      requires Valid() && lastTick != 0
      modifies this`cursor, this`lastTick, l1
      ensures Valid() && Near() == NotDueBy(old(Near()), now)
      ensures expired == Live(Ids(DueBy(old(Near()), now)), Dead())
      ensures lastTick == Turned(old(lastTick), now)
    {
      hide Sorted, DueBy, NotDueBy, Live, Ids, DeadIn, Deadlines, AllBy;
      ghost var near, base := Near(), lastTick;
      NearRange(l1[..], cursor, base);
      var elapsed := now - lastTick;
      if elapsed < 0 {
        elapsed := 0;
      }
      var ticks := elapsed / TICK_MS;
      if ticks > SLOTS {
        ticks := SLOTS;
        lastTick := now;
      } else {
        lastTick := lastTick + ticks * TICK_MS;
      }
      ghost var passed;
      expired, passed := Turn(ticks, base);
      TurnIsExact(near, passed, l1[..], cursor, base, ticks, now, lastTick);
    }

    method CollectOverflow(now: int) returns (expired: seq<EventId>)
      requires Valid()
      modifies this`overflow
      ensures Valid() && overflow == NotDueBy(old(overflow), now)
      ensures expired == Live(Ids(DueBy(old(overflow), now)), Dead())
    {
      LiveEmpty(Dead());
      hide Live, Dead;
      ghost var waiting, n := overflow, 0;
      assert waiting[..n] == [];
      expired := [];
      while overflow != [] && overflow[0].0 <= now
        invariant n <= |waiting| && overflow == waiting[n..]
        invariant AllBy(waiting[..n], now)
        invariant expired == Live(Ids(waiting[..n]), Dead())
        decreases |overflow|
      {
        var event := overflow[0].1;
        assert waiting[..n + 1] == waiting[..n] + Tag([event], overflow[0].0);
        TurnOne(waiting[..n], [event], overflow[0].0, Dead());
        LiveOne(event, Dead());
        if event !in Dead() {
          expired := expired + [event];
        }
        overflow := overflow[1..];
        n := n + 1;
      }
      assert waiting == waiting[..n] + waiting[n..];
      SplitUnique(waiting, waiting[..n], waiting[n..], now);
    }

    /** Marks an event as cancelled and takes it out of the overflow map, where it is looked for
        under its arrival time; on the wheel it stays until its slot is reached. */
    method CancelEvent(event: EventId)
      requires Valid() && event in events
      modifies this`events, this`overflow
      ensures Valid() && events.Keys == old(events.Keys) && Dead() == old(Dead()) + {event}
      ensures Value() == Apply(Apply(old(Value()), Mark(event)), Erase(event))
    {
      hide Apply, DeadIn, Sorted, Deadlines;
      MarkEvent(event);
      EraseEvent(event);
    }

    method MarkEvent(event: EventId)
      requires Valid() && event in events
      modifies this`events
      ensures Valid() && events.Keys == old(events.Keys)
      ensures Dead() == old(Dead()) + {event} && Repeating() == old(Repeating())
      ensures Value() == Apply(old(Value()), Mark(event))
    {
      hide Sorted, Deadlines;
      events := events[event := events[event].(cancelled := true)];
    }

    /** The part of cancelling that holds the lock. */
    method EraseEvent(event: EventId)
      requires Valid() && event in events
      modifies this`overflow
      ensures Valid() && Value() == Apply(old(Value()), Erase(event))
    {
      hide Sorted, Deadlines, Without;
      EraseOverflow(events[event].arriveTime, event);
    }

    /** Walks through the entries with the given key for the one of the event. */
    method EraseOverflow(arrival: int, event: EventId)
      requires Valid()
      modifies this`overflow
      ensures Valid() && overflow == Without(old(overflow), arrival, event)
    {
      hide Without;
      ghost var was := overflow;
      var i := 0;
      while i < |overflow| && overflow[i].0 <= arrival
        invariant i <= |was| && overflow == was
        invariant forall j :: 0 <= j < i ==> was[j] != (arrival, event)
      {
        if overflow[i] == (arrival, event) {
          WithoutAt(was, arrival, event, i);
          RemovalKeepsOrder(was, i);
          overflow := overflow[..i] + overflow[i + 1..];
          return;
        }
        i := i + 1;
      }
      WithoutAbsent(was, arrival, event, i);
    }

    /** Milliseconds until the next entry leaves, or nothing when the wheel is idle. The answer
        is exact, in that nothing leaves at any earlier instant and something leaves at that
        one, if and only if `AnswersExactly` holds. */
    method MsUntilNextExpire(now: int) returns (next: Option<int>)
      requires Valid()
      ensures next == Announced(Near(), overflow, lastTick, now)
      ensures next.None? <==> Near() == [] && overflow == []
      ensures lastTick != 0 && next.Some? ==>
        (ExactWait(Near(), overflow, now, next.value) <==> AnswersExactly(Near(), overflow, lastTick, now))
    {
      hide TagAll, Upcoming, Deadlines, ExactWait, AnswersExactly, Sorted, DueBy, Slack;
      next := NearWait(now);
      if overflow != [] {
        var wait := if overflow[0].0 < now then 0 else overflow[0].0 - now;
        next := if next.Some? && next.value < wait then next else Some(wait);
      }
      if lastTick != 0 && next.Some? {
        ExactlyWhen(Near(), overflow, lastTick, now);
      }
    }

    /** The part of the answer that comes from the wheel. */
    method NearWait(now: int) returns (next: Option<int>)
      requires Valid()
      ensures next.None? <==> Near() == []
      ensures next.Some? ==> next.value == Near()[0].0 - now + Slack(lastTick, now) > 0
    {
      hide Deadlines, Sorted;
      next := None;
      var elapsed := if lastTick == 0 || now < lastTick then 0 else now - lastTick;
      var untilNextTick := TICK_MS - (if elapsed < TICK_MS then elapsed else TICK_MS);
      if untilNextTick < 1 {
        untilNextTick := 1;
      }
      var i := FirstOccupied();
      if i < SLOTS {
        next := Some(untilNextTick + i * TICK_MS);
      }
    }

    /** How far the cursor is from the slot of the first deadline. */
    method FirstOccupied() returns (i: nat)
      requires Valid()
      ensures i <= SLOTS && (Near() == [] <==> i == SLOTS)
      ensures i < SLOTS ==> Near()[0].0 == DueAt(lastTick, i)
    {
      i := 0;
      while i < SLOTS && |l1[(cursor + i) % SLOTS]| == 0
        invariant i <= SLOTS
        invariant forall j :: 0 <= j < i ==> Upcoming(l1[..], cursor)[j] == []
      {
        i := i + 1;
      }
      FirstDeadline(Upcoming(l1[..], cursor), lastTick + TICK_MS, i);
    }

    /** The events that are filed again when they have run. */
    function Repeating(): (r: set<EventId>)
      reads this`events
      ensures r <= events.Keys
    {
      RepeatingIn(events)
    }

    /** Advances the wheel and runs what has expired, one callback after the other, while the
        operations of `around` happen; a repeated event that is still wanted is given a new
        arrival time and filed again. */
    method FireExpired(now: int, around: Around) returns (ran: seq<EventId>)
      requires Valid() && Known(around, events.Keys)
      modifies this`cursor, this`lastTick, this`overflow, this`events, l1
      ensures Valid() && events.Keys == old(events.Keys)
      ensures var expired := Expired(old(Value()), now);
        && ran == EventsAt(expired, Turns(expired, 0, around, old(Dead())))
        && Value() == ApplyAll(Apply(old(Value()), Op.Collect(now)),
                               Callbacks(expired, 0, around, old(Dead()), old(Repeating())))
    {
      hide Apply, ApplyAll, Expired, DeadIn, RepeatingIn, Deadlines, Sorted, Turns, Callbacks, EventsAt;
      var expired := Collect(now);
      ran := RunCallbacks(expired, around);
    }

    method RunCallbacks(expired: seq<EventId>, around: Around) returns (ran: seq<EventId>)
      requires Valid() && Known(around, events.Keys)
      modifies this`lastTick, this`overflow, this`events, l1
      ensures Valid() && events.Keys == old(events.Keys)
      ensures ran == EventsAt(expired, Turns(expired, 0, around, old(Dead())))
      ensures Value() == ApplyAll(old(Value()), Callbacks(expired, 0, around, old(Dead()), old(Repeating())))
    {
      hide Apply, ApplyAll, Sorted, Deadlines, Turns, Valid, Callbacks, Value, Dead, Repeating, EventsAt;
      ran := [];
      for i := 0 to |expired|
        invariant Valid() && events.Keys == old(events.Keys) && Repeating() == old(Repeating())
        invariant ran + EventsAt(expired, Turns(expired, i, around, Dead()))
               == EventsAt(expired, Turns(expired, 0, around, old(Dead())))
        invariant ApplyAll(Value(), Callbacks(expired, i, around, Dead(), Repeating()))
               == ApplyAll(old(Value()), Callbacks(expired, 0, around, old(Dead()), old(Repeating())))
      {
        TurnsStep(ran, expired, i, around, Dead());
        CallbacksStep(Value(), expired, i, around, Dead(), Repeating());
        var runs := TakeTurn(expired[i], i, around);
        if runs {
          ran := ran + [expired[i]];
        }
      }
      NoTurns(Value(), expired, around, Dead(), Repeating());
    }

    /** One turn: unless it has been cancelled by now, the event runs and is filed again. */
    method TakeTurn(e: EventId, i: nat, around: Around) returns (runs: bool)
      requires Valid() && Known(around, events.Keys)
      modifies this`lastTick, this`overflow, this`events, l1
      ensures Valid() && events.Keys == old(events.Keys) && Repeating() == old(Repeating())
      ensures runs <==> e !in old(Dead()) + CancelledBy(around.before(i))
      ensures Dead() == old(Dead()) + (if runs then CancelledIn(around, i) else CancelledBy(around.before(i)))
      ensures Value() == ApplyAll(old(Value()), if runs then TurnOps(e, i, around, old(Dead()), old(Repeating()))
                                                else around.before(i))
    {
      hide Apply, ApplyAll, Sorted, Deadlines, Valid, DeadIn, Value, RepeatingIn, CancelledBy, TurnOps;
      ghost var start := Value();
      RunScript(around.before(i));
      runs := e !in Dead();
      if runs {
        RunScript(around.during(i));
        ResetArrival(e, around.clock(i).reset);
        RunScript(around.between(i));
        FileAgain(e, i, around, old(Dead()));
        TurnParts(start, e, i, around, old(Dead()), old(Repeating()));
      }
    }

    /** Adding again: a look at the mark, and the filing some time later. */
    method FileAgain(e: EventId, i: nat, around: Around, ghost dead: set<EventId>)
      requires Valid() && Known(around, events.Keys)
      requires Dead() == dead + CancelledBy(around.before(i)) + CancelledBy(around.during(i))
                       + CancelledBy(around.between(i))
      modifies this`lastTick, this`overflow, this`events, l1
      ensures Valid() && events.Keys == old(events.Keys) && Repeating() == old(Repeating())
      ensures Dead() == old(Dead()) + CancelledBy(around.late(i))
      ensures Value() == ApplyAll(ApplyAll(old(Value()), around.late(i)), Refiling(e, i, around, dead, Repeating()))
    {
      hide Apply, ApplyAll, Sorted, Deadlines, Valid, DeadIn, Value, RepeatingIn, CancelledBy;
      var files := e in Repeating() && e !in Dead();
      RunScript(around.late(i));
      ApplyNone(Value());
      if files {
        ApplyOne(Value(), File(e, around.clock(i).start, around.clock(i).file));
        FileEvent(e, around.clock(i).start, around.clock(i).file);
      }
    }

    /** What other threads and a callback do to the wheel. */
    method RunScript(list: seq<Op>)
      requires Valid() && AllAllowed(list, events.Keys)
      modifies this`lastTick, this`overflow, this`events, l1
      ensures Valid() && events.Keys == old(events.Keys) && Repeating() == old(Repeating())
      ensures Dead() == old(Dead()) + CancelledBy(list)
      ensures Value() == ApplyAll(old(Value()), list)
    {
      hide Sorted, Deadlines, DeadIn, RepeatingIn, Apply;
      for i := 0 to |list|
        invariant Valid() && events.Keys == old(events.Keys) && Repeating() == old(Repeating())
        invariant Dead() == old(Dead()) + CancelledBy(list[..i])
        invariant ApplyAll(Value(), list[i..]) == ApplyAll(old(Value()), list)
      {
        assert list[i..][0] == list[i] && list[i..][1..] == list[i + 1..];
        CancelledByOne(list, i);
        match list[i]
        case Mark(event) => MarkEvent(event);
        case Erase(event) => EraseEvent(event);
        case File(event, clock, now) => FileEvent(event, clock, now);
      }
      assert list[..|list|] == list;
    }

    method ResetArrival(e: EventId, now: int)
      requires Valid()
      modifies this`events
      ensures Valid() && events.Keys == old(events.Keys)
      ensures Dead() == old(Dead()) && Repeating() == old(Repeating())
      ensures Value() == Apply(old(Value()), Reset(e, now))
    {
      if e in events && events[e].repeated && !events[e].cancelled {
        hide Deadlines, Sorted, Filed;
        events := events[e := events[e].(arriveTime := now + events[e].interval)];
      }
    }
  }

  function RepeatingIn(events: map<EventId, TimerEvent>): set<EventId> {
    set e | e in events && events[e].repeated
  }

  /** The readings of the clock for a new arrival time, to start the wheel and to file. */
  datatype Readings = Readings(reset: int, start: int, file: int)

  /** What happens around the callbacks, per turn: operations of other threads before the turn's
      event is looked at, operations of the callback and of other threads while it runs, and
      operations of other threads after the new arrival time is set and after the last look at
      the mark. */
  datatype Around = Around(
    before: nat -> seq<Op>,
    during: nat -> seq<Op>,
    between: nat -> seq<Op>,
    late: nat -> seq<Op>,
    clock: nat -> Readings
  )

  /** Other threads and callbacks cancel and add events that the wheel knows. */
  predicate Allowed(op: Op, known: set<EventId>) {
    (op.Mark? || op.Erase? || op.File?) && op.event in known
  }

  predicate AllAllowed(list: seq<Op>, known: set<EventId>) {
    forall i :: 0 <= i < |list| ==> Allowed(list[i], known)
  }

  ghost predicate Known(around: Around, known: set<EventId>) {
    forall i: nat ::
      && AllAllowed(around.before(i), known)
      && AllAllowed(around.during(i), known)
      && AllAllowed(around.between(i), known)
      && AllAllowed(around.late(i), known)
  }

  function CancelledBy(list: seq<Op>): set<EventId> {
    set op | op in list && op.Mark? :: op.event
  }

  lemma CancelledByOne(list: seq<Op>, i: nat)
    requires i < |list|
    ensures CancelledBy(list[..i + 1])
         == CancelledBy(list[..i]) + if list[i].Mark? then {list[i].event} else {}
  {
    assert list[..i + 1] == list[..i] + [list[i]];
  }

  /** What is cancelled in the course of a turn that runs. */
  function CancelledIn(around: Around, i: nat): set<EventId> {
    CancelledBy(around.before(i)) + CancelledBy(around.during(i))
    + CancelledBy(around.between(i)) + CancelledBy(around.late(i))
  }

  /** Which turns from `i` on run: those whose event has not been cancelled before. */
  function Turns(expired: seq<EventId>, i: nat, around: Around, dead: set<EventId>): (turns: seq<nat>)
    requires i <= |expired|
    ensures forall k :: 0 <= k < |turns| ==> i <= turns[k] < |expired|
    decreases |expired| - i
  {
    if i == |expired| then []
    else if expired[i] in dead + CancelledBy(around.before(i)) then
      Turns(expired, i + 1, around, dead + CancelledBy(around.before(i)))
    else [i] + Turns(expired, i + 1, around, dead + CancelledIn(around, i))
  }

  /** The events of the given turns. */
  function EventsAt(expired: seq<EventId>, turns: seq<nat>): (r: seq<EventId>)
    requires forall k :: 0 <= k < |turns| ==> turns[k] < |expired|
    ensures |r| == |turns| && forall k :: 0 <= k < |turns| ==> r[k] == expired[turns[k]]
  {
    seq(|turns|, k requires 0 <= k < |turns| => expired[turns[k]])
  }

  // What is on the wheel is what was filed and has not left it

  function Waiting(p: Plain): multiset<EventId> {
    multiset(Ids(p.near)) + multiset(Ids(p.overflow))
  }

  /** The filings that an operation makes. */
  function Filings(p: Plain, op: Op): multiset<EventId> {
    if op.File? && op.event in p.events then multiset{op.event} else multiset{}
  }

  /** The filings that an operation takes off the wheel, wanted or not. */
  function Leaving(p: Plain, op: Op): multiset<EventId> {
    match op
    case Erase(e) =>
      if e in p.events && (p.events[e].arriveTime, e) in p.overflow then multiset{e} else multiset{}
    case Collect(now) =>
      if p.lastTick == 0 then multiset{}
      else multiset(Ids(DueBy(p.near, now))) + multiset(Ids(DueBy(p.overflow, now)))
    case _ => multiset{}
  }

  /** What an operation hands to the callbacks. */
  function Handed(p: Plain, op: Op): multiset<EventId> {
    if op.Collect? then multiset(Expired(p, op.now)) else multiset{}
  }

  function AllFilings(p: Plain, ops: seq<Op>): multiset<EventId>
    decreases |ops|
  {
    if ops == [] then multiset{} else Filings(p, ops[0]) + AllFilings(Apply(p, ops[0]), ops[1..])
  }

  function AllLeaving(p: Plain, ops: seq<Op>): multiset<EventId>
    decreases |ops|
  {
    if ops == [] then multiset{} else Leaving(p, ops[0]) + AllLeaving(Apply(p, ops[0]), ops[1..])
  }

  function AllHanded(p: Plain, ops: seq<Op>): multiset<EventId>
    decreases |ops|
  {
    if ops == [] then multiset{} else Handed(p, ops[0]) + AllHanded(Apply(p, ops[0]), ops[1..])
  }

  lemma IdsCons(x: (int, EventId), s: seq<(int, EventId)>)
    ensures multiset(Ids([x] + s)) == multiset{x.1} + multiset(Ids(s))
  {
    assert Ids([x] + s) == [x.1] + Ids(s);
  }

  lemma {:induction false} IdsInsert(s: seq<(int, EventId)>, key: int, e: EventId)
    ensures multiset(Ids(Insert(s, key, e))) == multiset(Ids(s)) + multiset{e}
  {
    hide Ids;
    if s == [] || key < s[0].0 {
      IdsCons((key, e), s);
    } else {
      IdsInsert(s[1..], key, e);
      IdsCons(s[0], Insert(s[1..], key, e));
      IdsCons(s[0], s[1..]);
      assert s == [s[0]] + s[1..];
    }
  }

  lemma {:induction false} IdsWithout(s: seq<(int, EventId)>, key: int, e: EventId)
    ensures multiset(Ids(s))
         == multiset(Ids(Without(s, key, e))) + if (key, e) in s then multiset{e} else multiset{}
  {
    hide Ids;
    if s != [] {
      IdsCons(s[0], s[1..]);
      assert s == [s[0]] + s[1..];
      if s[0] != (key, e) {
        IdsWithout(s[1..], key, e);
        IdsCons(s[0], Without(s[1..], key, e));
        assert (key, e) in s <==> (key, e) in s[1..];
      }
    }
  }

  lemma IdsSplit(s: seq<(int, EventId)>, t: int)
    ensures multiset(Ids(s)) == multiset(Ids(DueBy(s, t))) + multiset(Ids(NotDueBy(s, t)))
  {
    assert Ids(s) == Ids(DueBy(s, t)) + Ids(NotDueBy(s, t));
  }

  lemma FiledConserves(p: Plain, e: EventId, now: int)
    requires e in p.events
    ensures Waiting(Filed(p, e, now)) == Waiting(p) + multiset{e}
  {
    hide Insert;
    var arrival := p.events[e].arriveTime;
    var delay := if arrival <= now then TICK_MS else arrival - now;
    IdsInsert(p.near, DueAt(p.lastTick, (delay - 1) / TICK_MS), e);
    IdsInsert(p.overflow, arrival, e);
  }

  lemma EraseConserves(p: Plain, e: EventId)
    ensures Waiting(Apply(p, Erase(e))) + Leaving(p, Erase(e)) == Waiting(p)
  {
    hide Filed, Without, Ids;
    if e in p.events {
      IdsWithout(p.overflow, p.events[e].arriveTime, e);
    }
  }

  lemma CollectConserves(p: Plain, now: int)
    ensures Waiting(Apply(p, Op.Collect(now))) + Leaving(p, Op.Collect(now)) == Waiting(p)
    ensures Handed(p, Op.Collect(now)) <= Leaving(p, Op.Collect(now))
  {
    hide Filed, DueBy, NotDueBy, Turned, Live;
    IdsSplit(p.near, now);
    IdsSplit(p.overflow, now);
    LiveExact(Ids(DueBy(p.near, now)), DeadIn(p.events));
    LiveExact(Ids(DueBy(p.overflow, now)), DeadIn(p.events));
  }

  lemma FileConserves(p: Plain, op: Op)
    requires op.Mark? || op.File? || op.Reset?
    ensures Waiting(Apply(p, op)) == Waiting(p) + Filings(p, op)
  {
    hide Filed, Ids, DueAt, DueBy, Without;
    if op.File? && op.event in p.events {
      FiledConserves(Started(p, op.clock), op.event, op.now);
    }
  }

  lemma StepConserves(p: Plain, op: Op)
    ensures Waiting(Apply(p, op)) + Leaving(p, op) == Waiting(p) + Filings(p, op)
    ensures Handed(p, op) <= Leaving(p, op)
  {
    hide Apply, Expired, Waiting;
    match op
    case Erase(e) => EraseConserves(p, e);
    case Collect(now) => CollectConserves(p, now);
    case _ => FileConserves(p, op);
  }

  lemma Balance<E>(w: multiset<E>, w': multiset<E>, w'': multiset<E>, f: multiset<E>, f': multiset<E>,
                   l: multiset<E>, l': multiset<E>)
    requires w' + l == w + f && w'' + l' == w' + f'
    ensures w'' + (l + l') == w + (f + f')
  {
    calc {
      w'' + (l + l');
      (w'' + l') + l;
      (w' + f') + l;
      (w' + l) + f';
      w + (f + f');
    }
  }

  /** Over every run of the wheel each filing of an event is still waiting or has left, and it
      is handed to the callbacks at most once. */
  lemma {:induction false} EachFilingOnce(p: Plain, ops: seq<Op>)
    ensures Waiting(ApplyAll(p, ops)) + AllLeaving(p, ops) == Waiting(p) + AllFilings(p, ops)
    ensures AllHanded(p, ops) <= AllLeaving(p, ops)
    decreases |ops|
  {
    hide Waiting, Leaving, Filings, Handed, Apply;
    if ops != [] {
      var q, rest := Apply(p, ops[0]), ops[1..];
      StepConserves(p, ops[0]);
      EachFilingOnce(q, rest);
      Balance(Waiting(p), Waiting(q), Waiting(ApplyAll(q, rest)), Filings(p, ops[0]), AllFilings(q, rest),
              Leaving(p, ops[0]), AllLeaving(q, rest));
    }
  }

  /** What a collection hands over: exactly the events, not cancelled, that have a near
      deadline by `now` or arrive by `now`; every deadline that stays is later. */
  lemma CollectsExactly(p: Plain, now: int)
    requires p.lastTick != 0 && Sorted(p.near) && Sorted(p.overflow)
    ensures forall e :: e in Expired(p, now) <==>
      e !in DeadIn(p.events) && ((exists due :: due <= now && (due, e) in p.near)
                                 || (exists due :: due <= now && (due, e) in p.overflow))
    ensures var q := Apply(p, Op.Collect(now)); AllAfter(q.near, now) && AllAfter(q.overflow, now)
  {
    hide Live, Turned, DeadIn, Sorted, DueBy, NotDueBy, Ids;
    SplitExact(p.near, now);
    SplitExact(p.overflow, now);
    DueExactly(p.near, now);
    DueExactly(p.overflow, now);
    LiveExact(Ids(DueBy(p.near, now)), DeadIn(p.events));
    LiveExact(Ids(DueBy(p.overflow, now)), DeadIn(p.events));
  }

  lemma DueExactly(s: seq<(int, EventId)>, t: int)
    requires Sorted(s)
    ensures forall e :: e in Ids(DueBy(s, t)) <==> exists due :: due <= t && (due, e) in s
  {
    SplitExact(s, t);
    hide DueBy, NotDueBy;
    forall e
      ensures e in Ids(DueBy(s, t)) <==> exists due :: due <= t && (due, e) in s
    {
      if e in Ids(DueBy(s, t)) {
        var i :| 0 <= i < |Ids(DueBy(s, t))| && Ids(DueBy(s, t))[i] == e;
        assert DueBy(s, t)[i] in DueBy(s, t) + NotDueBy(s, t);
        assert DueBy(s, t)[i] == (DueBy(s, t)[i].0, e);
      }
      if due :| due <= t && (due, e) in s {
        assert (due, e) in DueBy(s, t) + NotDueBy(s, t);
        assert (due, e) !in NotDueBy(s, t);
        var i :| 0 <= i < |DueBy(s, t)| && DueBy(s, t)[i] == (due, e);
        assert Ids(DueBy(s, t))[i] == e;
      }
    }
  }

  /** What a turn that runs does to the wheel: it ends with the filing, if the event repeats and
      was not cancelled at the last look. */
  function TurnOps(e: EventId, i: nat, around: Around, dead: set<EventId>, repeating: set<EventId>): seq<Op> {
    around.before(i) + around.during(i) + [Reset(e, around.clock(i).reset)] + around.between(i) + around.late(i)
    + Refiling(e, i, around, dead, repeating)
  }

  function Refiling(e: EventId, i: nat, around: Around, dead: set<EventId>, repeating: set<EventId>): seq<Op> {
    var seen := dead + CancelledBy(around.before(i)) + CancelledBy(around.during(i)) + CancelledBy(around.between(i));
    if e in repeating && e !in seen then [File(e, around.clock(i).start, around.clock(i).file)] else []
  }

  /** What the turns from `i` on do to the wheel. */
  function Callbacks(expired: seq<EventId>, i: nat, around: Around, dead: set<EventId>,
                     repeating: set<EventId>): seq<Op>
    requires i <= |expired|
    decreases |expired| - i
  {
    if i == |expired| then []
    else if expired[i] in dead + CancelledBy(around.before(i)) then
      around.before(i) + Callbacks(expired, i + 1, around, dead + CancelledBy(around.before(i)), repeating)
    else
      TurnOps(expired[i], i, around, dead, repeating)
      + Callbacks(expired, i + 1, around, dead + CancelledIn(around, i), repeating)
  }

  function ApplyAll(p: Plain, ops: seq<Op>): Plain
    decreases |ops|
  {
    if ops == [] then p else ApplyAll(Apply(p, ops[0]), ops[1..])
  }

  lemma {:induction false} ApplyConcat(p: Plain, a: seq<Op>, b: seq<Op>)
    ensures ApplyAll(p, a + b) == ApplyAll(ApplyAll(p, a), b)
    decreases |a|
  {
    if a == [] {
      assert a + b == b;
    } else {
      assert (a + b)[1..] == a[1..] + b;
      ApplyConcat(Apply(p, a[0]), a[1..], b);
    }
  }

  lemma TurnParts(p: Plain, e: EventId, i: nat, around: Around, dead: set<EventId>, repeating: set<EventId>)
    ensures var a := ApplyAll(ApplyAll(p, around.before(i)), around.during(i));
      var b := ApplyAll(Apply(a, Reset(e, around.clock(i).reset)), around.between(i));
      var c := ApplyAll(b, around.late(i));
      ApplyAll(p, TurnOps(e, i, around, dead, repeating))
      == ApplyAll(c, Refiling(e, i, around, dead, repeating))
  {
    hide Apply, Refiling;
    var reset, refiling := [Reset(e, around.clock(i).reset)], Refiling(e, i, around, dead, repeating);
    var a := around.before(i) + around.during(i);
    var b := a + reset + around.between(i);
    ApplyConcat(p, around.before(i), around.during(i));
    ApplyConcat(p, a, reset);
    ApplyConcat(p, a + reset, around.between(i));
    ApplyConcat(p, b, around.late(i));
    ApplyConcat(p, b + around.late(i), refiling);
    ApplyOne(ApplyAll(p, a), reset[0]);
  }

  lemma ApplyOne(p: Plain, op: Op)
    ensures ApplyAll(p, [op]) == Apply(p, op)
  {
    assert [op][1..] == [];
  }

  lemma ApplyNone(p: Plain)
    ensures ApplyAll(p, []) == p
  {
  }

  lemma CallbacksStep(p: Plain, expired: seq<EventId>, i: nat, around: Around, dead: set<EventId>,
                      repeating: set<EventId>)
    requires i < |expired|
    ensures var e := expired[i];
      ApplyAll(p, Callbacks(expired, i, around, dead, repeating))
      == if e in dead + CancelledBy(around.before(i)) then
           ApplyAll(ApplyAll(p, around.before(i)),
                    Callbacks(expired, i + 1, around, dead + CancelledBy(around.before(i)), repeating))
         else
           ApplyAll(ApplyAll(p, TurnOps(e, i, around, dead, repeating)),
                    Callbacks(expired, i + 1, around, dead + CancelledIn(around, i), repeating))
  {
    hide Apply, TurnOps;
    if expired[i] in dead + CancelledBy(around.before(i)) {
      ApplyConcat(p, around.before(i),
                  Callbacks(expired, i + 1, around, dead + CancelledBy(around.before(i)), repeating));
    } else {
      ApplyConcat(p, TurnOps(expired[i], i, around, dead, repeating),
                  Callbacks(expired, i + 1, around, dead + CancelledIn(around, i), repeating));
    }
  }

  lemma NoTurns(p: Plain, expired: seq<EventId>, around: Around, dead: set<EventId>, repeating: set<EventId>)
    ensures EventsAt(expired, Turns(expired, |expired|, around, dead)) == []
    ensures ApplyAll(p, Callbacks(expired, |expired|, around, dead, repeating)) == p
  {
  }

  lemma TurnsStep(ran: seq<EventId>, expired: seq<EventId>, i: nat, around: Around, dead: set<EventId>)
    requires i < |expired|
    ensures var e := expired[i];
      ran + EventsAt(expired, Turns(expired, i, around, dead))
      == if e in dead + CancelledBy(around.before(i)) then
           ran + EventsAt(expired, Turns(expired, i + 1, around, dead + CancelledBy(around.before(i))))
         else
           ran + [e] + EventsAt(expired, Turns(expired, i + 1, around, dead + CancelledIn(around, i)))
  {
    var rest := Turns(expired, i + 1, around, dead + CancelledIn(around, i));
    assert EventsAt(expired, [i] + rest) == [expired[i]] + EventsAt(expired, rest);
  }

  ghost predicate Ascending(s: seq<nat>) {
    forall k, l :: 0 <= k < l < |s| ==> s[k] < s[l]
  }

  /** Turns run in order, each at most once. */
  lemma {:induction false} TurnsAscend(expired: seq<EventId>, i: nat, around: Around, dead: set<EventId>)
    requires i <= |expired|
    ensures Ascending(Turns(expired, i, around, dead))
    decreases |expired| - i
  {
    if i < |expired| {
      var now := dead + CancelledBy(around.before(i));
      var after := if expired[i] !in now then dead + CancelledIn(around, i) else now;
      var rest := Turns(expired, i + 1, around, after);
      var turns := Turns(expired, i, around, dead);
      TurnsAscend(expired, i + 1, around, after);
      assert turns == if expired[i] !in now then [i] + rest else rest;
    }
  }

  /** The cancellations that turn `k` sees: those from before, those made ahead of any turn up to
      its own, and those made in the course of a turn that ran. */
  ghost predicate CancelledFor(expired: seq<EventId>, i: nat, around: Around, dead: set<EventId>, k: nat)
    requires i <= k < |expired|
  {
    || expired[k] in dead
    || (exists l :: i <= l <= k && expired[k] in CancelledBy(around.before(l)))
    || (exists l :: i <= l < k && l in Turns(expired, i, around, dead) && expired[k] in CancelledIn(around, l))
  }

  /** An event runs at its turn if and only if nobody cancelled it before: not a callback of the
      same round and not another thread. */
  lemma {:induction false} RunsUnlessCancelled(expired: seq<EventId>, i: nat, around: Around,
                                               dead: set<EventId>, k: nat)
    requires i <= k < |expired|
    ensures k in Turns(expired, i, around, dead) <==> !CancelledFor(expired, i, around, dead, k)
    decreases |expired| - i
  {
    var now := dead + CancelledBy(around.before(i));
    var runs := expired[i] !in now;
    var after := if runs then dead + CancelledIn(around, i) else now;
    var rest := Turns(expired, i + 1, around, after);
    assert Turns(expired, i, around, dead) == if runs then [i] + rest else rest;
    TurnsAscend(expired, i + 1, around, after);
    if k == i {
      assert k !in rest;
    } else {
      RunsUnlessCancelled(expired, i + 1, around, after, k);
      CancelledLater(expired, i, around, dead, k);
    }
  }

  lemma CancelledLater(expired: seq<EventId>, i: nat, around: Around, dead: set<EventId>, k: nat)
    requires i < k < |expired|
    ensures var now := dead + CancelledBy(around.before(i));
      var after := if expired[i] !in now then dead + CancelledIn(around, i) else now;
      CancelledFor(expired, i, around, dead, k) <==> CancelledFor(expired, i + 1, around, after, k)
  {
    var now := dead + CancelledBy(around.before(i));
    var after := if expired[i] !in now then dead + CancelledIn(around, i) else now;
    var all, rest := Turns(expired, i, around, dead), Turns(expired, i + 1, around, after);
    TurnsAscend(expired, i + 1, around, after);
    assert all == if expired[i] !in now then [i] + rest else rest;
    assert forall l :: l > i ==> (l in all <==> l in rest);
    assert i in all <==> expired[i] !in now;
    hide Turns, CancelledBy;
  }

  /** Nothing leaves either list before `wait` has passed, and something leaves then. */
  ghost predicate ExactWait<E>(near: seq<(int, E)>, overflow: seq<(int, E)>, now: int, wait: int) {
    && wait >= 0
    && (forall t :: now <= t < now + wait ==> DueBy(near, t) == [] && DueBy(overflow, t) == [])
    && (DueBy(near, now + wait) != [] || DueBy(overflow, now + wait) != [])
  }

  /** By how much the answer for a near entry is too large: within one tick of the last turn
      not at all; later by the lag beyond nine milliseconds; and it is too small when the clock
      is behind the wheel. */
  function Slack(lastTick: int, now: int): int {
    if lastTick == 0 || now < lastTick then now - lastTick
    else if now - lastTick < TICK_MS then 0
    else now - lastTick - (TICK_MS - 1)
  }

  /** The answer, from the two lists of deadlines. */
  function Announced<E>(near: seq<(int, E)>, overflow: seq<(int, E)>, lastTick: int, now: int): Option<int> {
    if near == [] && overflow == [] then None
    else if overflow == [] then Some(near[0].0 - now + Slack(lastTick, now))
    else
      var far := if overflow[0].0 < now then 0 else overflow[0].0 - now;
      if near != [] && near[0].0 - now + Slack(lastTick, now) < far then Some(near[0].0 - now + Slack(lastTick, now))
      else Some(far)
  }

  /** Without near entries the answer is exact, and also when the wheel neither lags by a tick
      nor runs ahead of the clock; otherwise the overflow map has to come first. */
  predicate AnswersExactly<E>(near: seq<(int, E)>, overflow: seq<(int, E)>, lastTick: int, now: int) {
    || near == []
    || 0 <= now - lastTick < TICK_MS
    || (overflow != [] && overflow[0].0 <= now)
    || (overflow != [] && overflow[0].0 <= near[0].0 + (if now < lastTick then now - lastTick else 0))
  }

  lemma FirstDue<E>(s: seq<(int, E)>, t: int)
    ensures DueBy(s, t) != [] <==> s != [] && s[0].0 <= t
  {
  }

  /** The first deadline of either list. */
  function FirstOf<E>(near: seq<(int, E)>, overflow: seq<(int, E)>): int
    requires near != [] || overflow != []
  {
    if near == [] || (overflow != [] && overflow[0].0 < near[0].0) then overflow[0].0 else near[0].0
  }

  /** Waiting exactly means waiting for the first deadline of either list, or not at all if it
      has passed. */
  lemma ExactMeansFirst<E>(near: seq<(int, E)>, overflow: seq<(int, E)>, now: int, wait: int)
    requires near != [] || overflow != []
    ensures var first := FirstOf(near, overflow);
      ExactWait(near, overflow, now, wait) <==> wait == if first < now then 0 else first - now
  {
    hide DueBy;
    forall t
      ensures DueBy(near, t) != [] <==> near != [] && near[0].0 <= t
      ensures DueBy(overflow, t) != [] <==> overflow != [] && overflow[0].0 <= t
    {
      FirstDue(near, t);
      FirstDue(overflow, t);
    }
    var first := FirstOf(near, overflow);
    var due := if first < now then 0 else first - now;
    assert DueBy(near, now + due) != [] || DueBy(overflow, now + due) != [];
  }

  /** When the answer is exact, for a wheel that has started; entries on the wheel fall due
      after its last tick. */
  lemma ExactlyWhen<E>(near: seq<(int, E)>, overflow: seq<(int, E)>, lastTick: int, now: int)
    requires lastTick != 0 && (near != [] || overflow != [])
    requires near != [] ==> near[0].0 - now + Slack(lastTick, now) > 0
    ensures ExactWait(near, overflow, now, Announced(near, overflow, lastTick, now).value)
      <==> AnswersExactly(near, overflow, lastTick, now)
  {
    hide ExactWait;
    ExactMeansFirst(near, overflow, now, Announced(near, overflow, lastTick, now).value);
  }

  /** A wheel that lags by 15 ms announces an entry that is overdue for the next millisecond. */
  lemma LaggingIsLate<E>(e: E)
    ensures Announced([(110, e)], [], 100, 115) == Some(1)
    ensures !ExactWait([(110, e)], [], 115, 1)
  {
    hide ExactWait;
    ExactlyWhen([(110, e)], [], 100, 115);
  }

  /** The list without the first entry `(key, e)`, if there is one. */
  function Without<E(==)>(s: seq<(int, E)>, key: int, e: E): seq<(int, E)> {
    if s == [] then [] else if s[0] == (key, e) then s[1..] else [s[0]] + Without(s[1..], key, e)
  }

  lemma {:induction false} WithoutAt<E>(s: seq<(int, E)>, key: int, e: E, i: nat)
    requires i < |s| && s[i] == (key, e) && forall j :: 0 <= j < i ==> s[j] != (key, e)
    ensures Without(s, key, e) == s[..i] + s[i + 1..]
  {
    if i > 0 {
      WithoutAt(s[1..], key, e, i - 1);
      assert s[..i] + s[i + 1..] == [s[0]] + (s[1..][..i - 1] + s[1..][i..]);
    }
  }

  lemma RemovalKeepsOrder<E>(s: seq<(int, E)>, i: nat)
    requires i < |s| && Sorted(s)
    ensures Sorted(s[..i] + s[i + 1..])
  {
  }

  lemma {:induction false} WithoutAbsent<E>(s: seq<(int, E)>, key: int, e: E, i: nat)
    requires i <= |s| && Sorted(s) && (forall j :: 0 <= j < i ==> s[j] != (key, e))
    requires i < |s| ==> key < s[i].0
    ensures Without(s, key, e) == s
  {
    if s != [] {
      if i > 0 {
        WithoutAbsent(s[1..], key, e, i - 1);
      } else {
        WithoutAbsent(s[1..], key, e, 0);
      }
    }
  }

  /** The first deadline is that of the first occupied slot. */
  lemma {:induction false} FirstDeadline<E>(slots: seq<seq<E>>, due: int, i: nat)
    requires i <= |slots| && (forall j :: 0 <= j < i ==> slots[j] == []) && (i < |slots| ==> slots[i] != [])
    ensures TagAll(slots, due) == [] <==> i == |slots|
    ensures i < |slots| ==> TagAll(slots, due)[0].0 == due + TICK_MS * i
    decreases |slots|
  {
    if slots != [] && i > 0 {
      FirstDeadline(slots[1..], due + TICK_MS, i - 1);
    }
  }

  lemma TurnOne(passed: seq<(int, EventId)>, slot: seq<EventId>, due: int, dead: set<EventId>)
    ensures Live(Ids(passed + Tag(slot, due)), dead) == Live(Ids(passed), dead) + Live(slot, dead)
  {
    LiveConcat(Ids(passed), slot, dead);
    assert Ids(passed + Tag(slot, due)) == Ids(passed) + slot;
  }

  lemma LiveEmpty(dead: set<EventId>)
    ensures Live(Ids([]), dead) == []
  {
  }

  lemma LiveOne(e: EventId, dead: set<EventId>)
    ensures Live([e], dead) == if e in dead then [] else [e]
  {
    assert [e][..0] == [];
  }

  /** After a full turn nothing is left, whatever the clock is set to. */
  lemma FullTurn<E>(near: seq<(int, E)>, passed: seq<(int, E)>, l1: seq<seq<E>>, cursor: nat,
                    base: int, lastTick: int)
    requires |l1| == SLOTS && cursor < SLOTS && AllBy(near, base + L1_RANGE)
    requires near == passed + Deadlines(l1, cursor, base + L1_RANGE)
    ensures Deadlines(l1, cursor, base + L1_RANGE) == [] && Deadlines(l1, cursor, lastTick) == []
    ensures AllAfter(Deadlines(l1, cursor, base + L1_RANGE), lastTick)
  {
    var rest := Deadlines(l1, cursor, base + L1_RANGE);
    assert rest != [] ==> near[|passed|] == rest[0];
    TagAllRange(Upcoming(l1, cursor), base + L1_RANGE + TICK_MS);
    EmptySlots(Upcoming(l1, cursor), base + L1_RANGE + TICK_MS, lastTick + TICK_MS);
  }

  /** What a turn passes is what is due by `now`, on the ordinary path and after a large gap. */
  lemma TurnIsExact<E>(near: seq<(int, E)>, passed: seq<(int, E)>, l1: seq<seq<E>>, cursor: nat,
                       base: int, ticks: nat, now: int, lastTick: int)
    requires |l1| == SLOTS && cursor < SLOTS
    requires near == passed + Deadlines(l1, cursor, base + TICK_MS * ticks)
    requires AllBy(passed, base + TICK_MS * ticks) && AllBy(near, base + L1_RANGE)
    requires ticks == 0 ==> passed == []
    requires var all := (if now < base then 0 else now - base) / TICK_MS;
      if all > SLOTS then ticks == SLOTS && lastTick == now
      else ticks == all && lastTick == base + ticks * TICK_MS
    ensures passed == DueBy(near, now) && Deadlines(l1, cursor, lastTick) == NotDueBy(near, now)
  {
    hide Deadlines, DueBy, NotDueBy, AllBy, AllAfter;
    var at := base + TICK_MS * ticks;
    var rest := Deadlines(l1, cursor, at);
    RestIsLater(l1, cursor, at);
    if lastTick == at {
      Widen(passed, rest, at, at + TICK_MS - 1, now);
    } else {
      FullTurn(near, passed, l1, cursor, base, lastTick);
      Widen(passed, rest, at, now, now);
    }
    SplitUnique(near, passed, rest, now);
  }

  lemma NearRange<E>(l1: seq<seq<E>>, cursor: nat, at: int)
    requires |l1| == SLOTS && cursor < SLOTS
    ensures AllBy(Deadlines(l1, cursor, at), at + L1_RANGE)
  {
    TagAllRange(Upcoming(l1, cursor), at + TICK_MS);
  }

  lemma RestIsLater<E>(l1: seq<seq<E>>, cursor: nat, at: int)
    requires |l1| == SLOTS && cursor < SLOTS
    ensures AllAfter(Deadlines(l1, cursor, at), at + TICK_MS - 1)
  {
    TagAllRange(Upcoming(l1, cursor), at + TICK_MS);
  }

  lemma Widen<E>(a: seq<(int, E)>, b: seq<(int, E)>, low: int, high: int, t: int)
    requires AllBy(a, low) && AllAfter(b, high) && (a == [] || low <= t) && t <= high
    ensures AllBy(a, t) && AllAfter(b, t)
  {
  }
}
