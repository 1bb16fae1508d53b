/** The bounded ring between one logging thread and the writer. Every cell carries a sequence
    number that says whose turn it is. One step per access to shared memory. */
module SpscRing {
  import opened Common
  import opened Runs
  import PowerOfTwo

  /** The logging thread: a claimed cell is filled, then published. */
  datatype Producer<+T> = Idle | Claimed | Filled(value: T)

  /** The writer: it has seen a published cell, then moved its content out. */
  datatype Consumer<+T> = Resting | Seen | Moved(value: T)

  /** `published` and `received` are histories. */
  datatype Ring<T> = Ring(
    cap: nat,
    sequence: seq<nat>,
    storage: seq<Option<T>>,
    pos: nat,
    producer: Producer<T>,
    dq: nat,
    consumer: Consumer<T>,
    published: seq<T>,
    received: seq<T>
  )

  datatype Step<T> = TryClaim | Fill(value: T) | Publish | TryDequeue | Move | Release

  /** The constructor, with a capacity already rounded up. */
  function Init<T>(cap: nat): Ring<T> {
    Ring(cap, seq(cap, i requires 0 <= i < cap => i), seq(cap, _ => None), 0, Idle, 0, Resting, [], [])
  }

  function Slot(i: nat, cap: nat): (k: nat)
    requires cap > 0
    ensures k < cap
  {
    i % cap
  }

  /** Shape that every step keeps. */
  predicate Sized<T>(s: Ring<T>) {
    s.cap > 0 && |s.sequence| == s.cap && |s.storage| == s.cap && (s.producer.Idle? || s.pos > 0)
  }

  /** The test of `tryClaim`. */
  predicate ClaimFails<T>(s: Ring<T>)
    requires Sized(s)
  {
    s.sequence[Slot(s.pos, s.cap)] < s.pos
  }

  /** The test of `tryDequeue`. */
  predicate DequeueFails<T>(s: Ring<T>)
    requires Sized(s)
  {
    s.sequence[Slot(s.dq, s.cap)] < s.dq + 1
  }

  /** `empty`. */
  predicate LooksEmpty<T>(s: Ring<T>)
    requires Sized(s)
  {
    s.sequence[Slot(s.dq, s.cap)] != s.dq + 1
  }

  predicate Enabled<T>(s: Ring<T>, step: Step<T>) {
    Sized(s) &&
    match step
    case TryClaim => s.producer.Idle?
    case Fill(_) => s.producer.Claimed?
    case Publish => s.producer.Filled?
    case TryDequeue => s.consumer.Resting?
    case Move => s.consumer.Seen? && s.storage[Slot(s.dq, s.cap)].Some?
    case Release => s.consumer.Moved?
  }

  function Apply<T>(s: Ring<T>, step: Step<T>): Ring<T>
    requires Enabled(s, step)
  {
    match step
    case TryClaim => if ClaimFails(s) then s else s.(pos := s.pos + 1, producer := Claimed)
    case Fill(v) => s.(storage := s.storage[Slot(s.pos - 1, s.cap) := Some(v)], producer := Filled(v))
    case Publish =>
      s.(sequence := s.sequence[Slot(s.pos - 1, s.cap) := s.pos], producer := Idle,
         published := s.published + [s.producer.value])
    case TryDequeue => if DequeueFails(s) then s else s.(consumer := Seen)
    case Move =>
      var k := Slot(s.dq, s.cap);
      s.(storage := s.storage[k := None], consumer := Moved(s.storage[k].value))
    case Release =>
      s.(sequence := s.sequence[Slot(s.dq, s.cap) := s.dq + s.cap], dq := s.dq + 1, consumer := Resting,
         received := s.received + [s.consumer.value])
  }

  // ---------------------------------------------------------------------------------------
  // The invariant
  // ---------------------------------------------------------------------------------------

  ghost predicate Counts<T>(s: Ring<T>) {
    && Sized(s) && s.cap >= 2
    && |s.received| == s.dq <= |s.published| <= s.pos <= s.dq + s.cap
    && s.pos == |s.published| + (if s.producer.Idle? then 0 else 1)
    && (s.consumer.Resting? || s.dq < |s.published|)
    && s.received == s.published[..s.dq]
  }

  /** Published cells carry the number after theirs, all the others their next turn. */
  ghost predicate Numbered<T>(s: Ring<T>)
    requires Sized(s)
  {
    && (forall i: nat :: s.dq <= i < |s.published| ==> s.sequence[Slot(i, s.cap)] == i + 1)
    && (forall i: nat :: |s.published| <= i < s.dq + s.cap ==> s.sequence[Slot(i, s.cap)] == i)
  }

  /** Published cells hold what was published until it is moved out. */
  ghost predicate Stored<T>(s: Ring<T>)
    requires Sized(s) && s.dq <= |s.published|
  {
    && (forall i: nat :: (if s.consumer.Moved? then s.dq + 1 else s.dq) <= i < |s.published| ==>
          s.storage[Slot(i, s.cap)] == Some(s.published[i]))
    && (s.consumer.Moved? ==> s.dq < |s.published| && s.consumer.value == s.published[s.dq])
    && (s.producer.Filled? ==> s.storage[Slot(s.pos - 1, s.cap)] == Some(s.producer.value))
  }

  ghost predicate Inv<T>(s: Ring<T>) {
    Counts(s) && Numbered(s) && Stored(s)
  }

  lemma SlotUnique(i: nat, q: int, r: nat, cap: nat)
    requires r < cap && i == q * cap + r
    ensures Slot(i, cap) == r
  {
    var d := q - i / cap;
    assert i == i / cap * cap + i % cap;
    assert d * cap == i % cap - r;
    assert d > 0 ==> d * cap >= cap;
    assert d < 0 ==> d * cap <= -1 * cap;
  }

  lemma SlotsDiffer(i: nat, j: nat, cap: nat)
    requires cap > 0 && i < j < i + cap
    ensures Slot(i, cap) != Slot(j, cap)
  {
    var r := i % cap;
    assert i == i / cap * cap + r;
    var k := r + (j - i);
    if k < cap {
      SlotUnique(j, i / cap, k, cap);
    } else {
      assert j == (i / cap + 1) * cap + (k - cap);
      SlotUnique(j, i / cap + 1, k - cap, cap);
    }
  }

  lemma SlotAgain(i: nat, cap: nat)
    requires cap > 0
    ensures Slot(i + cap, cap) == Slot(i, cap)
  {
    assert i == i / cap * cap + i % cap;
    assert i + cap == (i / cap + 1) * cap + i % cap;
    SlotUnique(i + cap, i / cap + 1, i % cap, cap);
  }

  lemma InitInv<T>(cap: nat)
    requires cap >= 2
    ensures Inv(Init<T>(cap))
  {
    forall i: nat | i < cap
      ensures Slot(i, cap) == i
    {
      SlotUnique(i, 0, i, cap);
    }
    hide Slot;
  }

  /** Within the window of cells that are in use or free, slots are distinct. */
  lemma Window(cap: nat, low: nat, at: nat)
    requires cap > 0 && low <= at < low + cap
    ensures forall i: nat :: low <= i < low + cap && i != at ==> Slot(i, cap) != Slot(at, cap)
  {
    forall i: nat | low <= i < low + cap && i != at
      ensures Slot(i, cap) != Slot(at, cap)
    {
      if i < at {
        SlotsDiffer(i, at, cap);
      } else {
        SlotsDiffer(at, i, cap);
      }
    }
  }

  /** The constructor rounds the wanted capacity up to a power of two of at least two and numbers
      the cells. That establishes the invariant exactly up to a capacity of 2^63; beyond it the
      rounding wraps and leaves a ring without cells. */
  method Construct<T>(wanted: nat) returns (ring: Ring<T>)
    requires wanted < 2 * PowerOfTwo.TOP
    ensures ring == Init(ring.cap)
    ensures Inv(ring) <==> wanted <= PowerOfTwo.TOP
    ensures wanted <= PowerOfTwo.TOP ==> wanted <= ring.cap && PowerOfTwo.IsPow2(ring.cap)
    ensures wanted > PowerOfTwo.TOP ==> ring.cap == 0
  {
    var n := PowerOfTwo.NextPow2(if wanted < 2 then 2 else wanted);
    var sequence: seq<nat> := [];
    for i := 0 to n
      invariant |sequence| == i && forall j :: 0 <= j < i ==> sequence[j] == j
    {
      sequence := sequence + [i];
    }
    if n >= 2 {
      InitInv<T>(n);
    }
    ring := Init<T>(n).(sequence := sequence);
    assert sequence == Init<T>(n).sequence;
  }

  /** A claim fails exactly when `cap` entries are outstanding. */
  lemma ClaimExact<T>(s: Ring<T>)
    requires Counts(s) && Numbered(s) && s.producer.Idle?
    ensures ClaimFails(s) <==> s.pos - s.dq == s.cap
  {
    if s.pos == s.dq + s.cap {
      SlotAgain(s.dq, s.cap);
    }
  }

  /** A dequeue fails, and `empty` answers yes, exactly when nothing published is unread. */
  lemma DequeueExact<T>(s: Ring<T>)
    requires Counts(s) && Numbered(s)
    ensures DequeueFails(s) <==> s.dq == |s.published|
    ensures LooksEmpty(s) <==> s.dq == |s.published|
  {
  }

  lemma StepCounts<T>(s: Ring<T>, step: Step<T>)
    requires Inv(s) && Enabled(s, step)
    ensures Counts(Apply(s, step))
  {
    hide Slot;
    match step
    case TryClaim => ClaimExact(s);
    case TryDequeue => DequeueExact(s);
    case Release => assert s.published[..s.dq + 1] == s.published[..s.dq] + [s.published[s.dq]];
    case _ =>
  }

  lemma StepNumbered<T>(s: Ring<T>, step: Step<T>)
    requires Counts(s) && Numbered(s) && Enabled(s, step)
    ensures Numbered(Apply(s, step))
  {
    hide Slot;
    match step
    case Publish => Window(s.cap, s.dq, s.pos - 1);
    case Release =>
      Window(s.cap, s.dq, s.dq);
      SlotAgain(s.dq, s.cap);
    case _ =>
  }

  lemma StepStored<T>(s: Ring<T>, step: Step<T>)
    requires Counts(s) && Stored(s) && Enabled(s, step)
    requires Counts(Apply(s, step))
    ensures Stored(Apply(s, step))
  {
    hide Slot;
    match step
    case Fill(v) => Window(s.cap, s.dq, s.pos - 1);
    case Move => Window(s.cap, s.dq, s.dq);
    case _ =>
  }

  lemma StepPreserves<T>(s: Ring<T>, step: Step<T>)
    requires Inv(s) && Enabled(s, step)
    ensures Inv(Apply(s, step))
  {
    hide Numbered, Stored;
    StepCounts(s, step);
    StepNumbered(s, step);
    StepStored(s, step);
  }

  // ---------------------------------------------------------------------------------------
  // Every interleaving
  // ---------------------------------------------------------------------------------------

  function Exec<T>(cap: nat, steps: seq<Step<T>>): Run<Ring<T>> {
    if steps == [] then Reached(Init(cap))
    else
      var n := |steps| - 1;
      var before := Exec(cap, steps[..n]);
      if before.Reached? && Enabled(before.state, steps[n]) then Reached(Apply(before.state, steps[n]))
      else Illegal
  }

  lemma {:induction false} ReachableInv<T>(cap: nat, steps: seq<Step<T>>)
    requires cap >= 2 && Exec(cap, steps).Reached?
    ensures Inv(Exec(cap, steps).state) && Exec(cap, steps).state.cap == cap
    decreases |steps|
  {
    hide Inv;
    if steps == [] {
      InitInv<T>(cap);
    } else {
      var n := |steps| - 1;
      ReachableInv(cap, steps[..n]);
      StepPreserves(Exec(cap, steps[..n]).state, steps[n]);
    }
  }

  /** The ring is a bounded queue: what was received is what was published, in order, and at
      most `cap` entries are outstanding; a claim is refused exactly at that bound and a
      dequeue exactly when nothing is waiting. */
  lemma {:induction false} BoundedFifo<T>(cap: nat, steps: seq<Step<T>>)
    requires cap >= 2 && Exec(cap, steps).Reached?
    ensures var s := Exec(cap, steps).state;
      && Sized(s)
      && s.received <= s.published && |s.published| - |s.received| <= cap
      && (s.producer.Idle? ==> (ClaimFails(s) <==> |s.published| - |s.received| == cap))
      && (DequeueFails(s) <==> s.received == s.published)
      && (LooksEmpty(s) <==> s.received == s.published)
  {
    ReachableInv(cap, steps);
    var s := Exec(cap, steps).state;
    DequeueExact(s);
    if s.producer.Idle? {
      ClaimExact(s);
    }
  }

  /** The writer always finds content in the cell it has seen: it never reads a cell that is
      not published. And what it has moved out is the next entry in line. */
  lemma {:induction false} ReadsOnlyPublished<T>(cap: nat, steps: seq<Step<T>>)
    requires cap >= 2 && Exec(cap, steps).Reached?
    ensures var s := Exec(cap, steps).state;
      && Sized(s)
      && (!s.consumer.Resting? ==> |s.received| < |s.published|)
      && (s.consumer.Seen? ==> s.storage[Slot(s.dq, s.cap)] == Some(s.published[|s.received|]))
      && (s.consumer.Moved? ==> s.consumer.value == s.published[|s.received|])
  {
    ReachableInv(cap, steps);
  }

  /** The cell that the producer is working on never holds an unread entry. */
  lemma {:induction false} NoUnreadOverwritten<T>(cap: nat, steps: seq<Step<T>>, i: nat)
    requires cap >= 2 && Exec(cap, steps).Reached?
    requires var s := Exec(cap, steps).state; |s.received| <= i < |s.published|
    ensures var s := Exec(cap, steps).state;
      !s.producer.Idle? ==> s.pos > 0 && Slot(s.pos - 1, cap) != Slot(i, cap)
  {
    hide Slot, Numbered, Stored;
    ReachableInv(cap, steps);
    var s := Exec(cap, steps).state;
    if !s.producer.Idle? {
      Window(cap, s.dq, s.pos - 1);
    }
  }

  /** With a single cell the number of a published cell is also that of a free one: the next
      claim takes a cell that has not been read. */
  lemma SingleCellOverwrites<T>(v: T)
    ensures var s := Exec(1, [TryClaim, Fill(v), Publish]);
      s.Reached? && Sized(s.state) && |s.state.published| - |s.state.received| == 1 && !ClaimFails(s.state)
  {
    var a: seq<Step<T>> := [TryClaim];
    var b := a + [Fill(v)];
    var c := b + [Publish];
    assert c == [TryClaim, Fill(v), Publish];
    assert a[..0] == [] && b[..1] == a && c[..2] == b;
    assert Exec(1, a[..0]) == Reached(Init(1));
    assert Exec(1, a).Reached?;
    assert Exec(1, b).Reached?;
  }

  // ---------------------------------------------------------------------------------------
  // An entry on its way
  // ---------------------------------------------------------------------------------------

  lemma ExecOne<T>(cap: nat, steps: seq<Step<T>>, step: Step<T>)
    requires Exec(cap, steps).Reached? && Enabled(Exec(cap, steps).state, step)
    ensures Exec(cap, steps + [step]) == Reached(Apply(Exec(cap, steps).state, step))
  {
    hide Enabled, Apply;
    assert (steps + [step])[..|steps + [step]| - 1] == steps;
  }

  /** With room in the ring, the producer's three steps publish an entry. */
  lemma EntryIsPublished<T>(cap: nat, steps: seq<Step<T>>, v: T)
    requires cap >= 2 && Exec(cap, steps).Reached? && Exec(cap, steps).state.producer.Idle?
    requires |Exec(cap, steps).state.published| - |Exec(cap, steps).state.received| < cap
    ensures var run := Exec(cap, steps + [TryClaim] + [Fill(v)] + [Publish]);
      run.Reached? && run.state.published == Exec(cap, steps).state.published + [v] && run.state.producer.Idle?
  {
    ReachableInv(cap, steps);
    var s := Exec(cap, steps).state;
    ClaimExact(s);
    hide Exec, Numbered, Stored, Slot;
    ExecOne(cap, steps, TryClaim);
    ExecOne(cap, steps + [TryClaim], Fill(v));
    ExecOne(cap, steps + [TryClaim] + [Fill(v)], Publish);
  }

  /** With an entry unread, the writer's three steps receive the next one in line. */
  lemma EntryIsReceived<T>(cap: nat, steps: seq<Step<T>>)
    requires cap >= 2 && Exec(cap, steps).Reached? && Exec(cap, steps).state.consumer.Resting?
    requires |Exec(cap, steps).state.received| < |Exec(cap, steps).state.published|
    ensures var s, run := Exec(cap, steps).state, Exec(cap, steps + [TryDequeue] + [Move] + [Release]);
      run.Reached? && run.state.received == s.received + [s.published[|s.received|]] && run.state.consumer.Resting?
  {
    ReachableInv(cap, steps);
    var s := Exec(cap, steps).state;
    DequeueExact(s);
    assert s.storage[Slot(s.dq, s.cap)] == Some(s.published[s.dq]);
    ReceiveSteps(s, s.published[s.dq]);
    hide Exec, Inv, Enabled, Apply;
    ExecOne(cap, steps, TryDequeue);
    ExecOne(cap, steps + [TryDequeue], Move);
    ExecOne(cap, steps + [TryDequeue] + [Move], Release);
  }

  lemma ReceiveSteps<T>(s: Ring<T>, v: T)
    requires Sized(s) && s.consumer.Resting? && !DequeueFails(s) && s.storage[Slot(s.dq, s.cap)] == Some(v)
    ensures Enabled(s, TryDequeue)
    ensures var a := Apply(s, TryDequeue);
      && Enabled(a, Move)
      && var b := Apply(a, Move);
      && Enabled(b, Release)
      && var c := Apply(b, Release);
      c.received == s.received + [v] && c.consumer.Resting?
  {
    hide Slot;
  }
}
