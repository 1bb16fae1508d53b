/** The pool of client connections. An acquire holds the lock twice, and connects in between
    without it; a shutdown may begin at any point. One step per critical section or counter
    update, any number of threads. Addresses, loops and threads are numbered. */
module ConnectionPool {
  import opened Common
  import opened Runs

  datatype Client = Client(id: nat, loop: nat)

  /** A thread inside `acquire`: connecting, or with a connection that has been counted, or
      about to undo the count because the pool was shut down. */
  datatype Acquire =
    | Outside
    | Connecting(addr: nat, loop: nat)
    | Counted(addr: nat, client: Client)
    | Undoing(client: Client)

  /** `rest` are the clients that the shutdown has still to take off the books. */
  datatype Shutdown = Open | Stopping(rest: seq<Client>) | Down

  /** `served` records, per address, the clients handed out from the pool. */
  datatype Pool = Pool(
    limit: nat,
    clients: seq<seq<Client>>,
    turn: seq<nat>,
    counts: seq<int>,
    shutdown: Shutdown,
    threads: seq<Acquire>,
    served: seq<seq<Client>>
  )

  datatype Step =
    | Begin(p: nat, addr: nat, alive: set<Client>, loop: Option<nat>)
    | ConnectFails(p: nat)
    | Increment(p: nat, id: nat)
    | Resolve(p: nat)
    | Undo(p: nat)
    | ShutdownBegins
    | ShutdownNext
    | ShutdownEnds

  function Start(limit: nat, addrs: nat, loops: nat, threads: nat): Pool {
    Pool(limit, seq(addrs, _ => []), seq(addrs, _ => 0), seq(loops, _ => 0), Open,
         seq(threads, _ => Outside), seq(addrs, _ => []))
  }

  // ---------------------------------------------------------------------------------------
  // Looking for a healthy connection
  // ---------------------------------------------------------------------------------------

  /** The first healthy client among the `left` ones that follow in the rotation. */
  function Find(vec: seq<Client>, idx: nat, left: nat, alive: set<Client>): Option<nat>
    requires idx < |vec|
    decreases left
  {
    if left == 0 then None
    else if vec[idx] in alive then Some(idx)
    else Find(vec, Next(idx, |vec|), left - 1, alive)
  }

  function Next(idx: nat, n: nat): (r: nat)
    requires idx < n
    ensures r == if idx + 1 < n then idx + 1 else 0
  {
    (idx + 1) % n
  }

  /** `k` places further in the rotation. */
  function Ahead(idx: nat, k: nat, n: nat): (r: nat)
    requires idx < n
    ensures r < n
    decreases k
  {
    if k == 0 then idx else Ahead(Next(idx, n), k - 1, n)
  }

  /** What is found is healthy and the first such client in the rotation. */
  lemma {:induction false} FindFirst(vec: seq<Client>, idx: nat, left: nat, alive: set<Client>) returns (k: nat)
    requires idx < |vec|
    ensures k <= left
    ensures forall i: nat :: i < k ==> vec[Ahead(idx, i, |vec|)] !in alive
    ensures match Find(vec, idx, left, alive)
      case Some(at) => k < left && at == Ahead(idx, k, |vec|) && vec[at] in alive
      case None => k == left
    decreases left
  {
    if left == 0 || vec[idx] in alive {
      k := 0;
    } else {
      var next := Next(idx, |vec|);
      k := FindFirst(vec, next, left - 1, alive);
      forall i: nat | i < k + 1
        ensures vec[Ahead(idx, i, |vec|)] !in alive
      {
        assert i > 0 ==> Ahead(idx, i, |vec|) == Ahead(next, i - 1, |vec|);
      }
      k := k + 1;
    }
  }

  lemma {:induction false} AheadIs(idx: nat, k: nat, n: nat)
    requires idx < n && idx + k < 2 * n
    ensures Ahead(idx, k, n) == if idx + k < n then idx + k else idx + k - n
    decreases k
  {
    hide Next;
    if k > 0 {
      AheadIs(Next(idx, n), k - 1, n);
    }
  }

  /** A whole turn of the rotation finds a healthy client if the pool has one. */
  lemma FindsAnyHealthy(vec: seq<Client>, idx: nat, alive: set<Client>)
    requires idx < |vec|
    ensures Find(vec, idx, |vec|, alive).None? <==> forall c :: c in vec ==> c !in alive
  {
    var k := FindFirst(vec, idx, |vec|, alive);
    if k == |vec| {
      forall j | 0 <= j < |vec|
        ensures vec[j] !in alive
      {
        var i := if idx <= j then j - idx else j + |vec| - idx;
        AheadIs(idx, i, |vec|);
        assert vec[Ahead(idx, i, |vec|)] !in alive;
      }
    } else {
      assert vec[Ahead(idx, k, |vec|)] in alive;
    }
  }

  /** The scan over a full pool: from the slot whose turn it is, once around. */
  method Scan(vec: seq<Client>, turn: nat, alive: set<Client>) returns (found: Option<nat>, next: nat)
    requires vec != []
    ensures found == Find(vec, turn % |vec|, |vec|, alive)
    ensures found.Some? ==> found.value < |vec| && next == Next(found.value, |vec|)
    ensures found.None? ==> next == turn % |vec|
  {
    var idx := turn % |vec|;
    ghost var start := idx;
    for checked := 0 to |vec|
      invariant idx < |vec| && idx == Ahead(start, checked, |vec|)
      invariant Find(vec, start, |vec|, alive) == Find(vec, idx, |vec| - checked, alive)
    {
      var at := idx;
      AheadNext(start, checked, |vec|);
      idx := Next(idx, |vec|);
      if vec[at] in alive {
        return Some(at), idx;
      }
    }
    AheadIs(start, |vec|, |vec|);
    return None, idx;
  }

  lemma {:induction false} AheadNext(idx: nat, k: nat, n: nat)
    requires idx < n
    ensures Ahead(idx, k + 1, n) == Next(Ahead(idx, k, n), n)
    decreases k
  {
    if k > 0 {
      AheadNext(Next(idx, n), k - 1, n);
    }
  }

  // ---------------------------------------------------------------------------------------
  // Choosing a loop
  // ---------------------------------------------------------------------------------------

  const SIZE_MAX := 0xFFFF_FFFF_FFFF_FFFF

  /** The least loaded loop other than `own`, the earliest of them; `own` may be none. */
  ghost predicate LeastLoaded(counts: seq<nat>, own: Option<nat>, best: nat) {
    && best < |counts| && own != Some(best)
    && (forall i :: 0 <= i < |counts| && own != Some(i) ==> counts[best] <= counts[i])
    && (forall i :: 0 <= i < best && own != Some(i) ==> counts[best] < counts[i])
  }

  method PickLoop(counts: seq<nat>) returns (best: Option<nat>)
    requires forall i :: 0 <= i < |counts| ==> counts[i] <= SIZE_MAX
    ensures best.None? <==> |counts| == 0
    ensures best.Some? ==> LeastLoaded(counts, None, best.value)
  {
    if |counts| == 0 {
      return None;
    }
    var bestIdx, bestCount: nat := 0, SIZE_MAX;
    for i := 0 to |counts|
      invariant bestIdx < |counts| && (bestIdx < i || bestIdx == 0)
      invariant forall j :: 0 <= j < i ==> bestCount <= counts[j]
      invariant forall j :: 0 <= j < bestIdx ==> counts[bestIdx] < counts[j]
      invariant bestCount == if bestIdx < i && counts[bestIdx] < SIZE_MAX then counts[bestIdx] else SIZE_MAX
      invariant bestCount == SIZE_MAX ==> bestIdx == 0
    {
      if counts[i] < bestCount {
        bestCount, bestIdx := counts[i], i;
      }
    }
    return Some(bestIdx);
  }

  /** An acquire never waits for the loop it runs on. */
  method ChooseLoop(counts: seq<nat>, own: Option<nat>) returns (loop: Option<nat>)
    requires forall i :: 0 <= i < |counts| ==> counts[i] <= SIZE_MAX
    ensures loop.Some? ==> LeastLoaded(counts, own, loop.value)
    ensures loop.None? <==>
      || |counts| == 0
      || (own.Some? && LeastLoaded(counts, None, own.value)
          && forall i :: 0 <= i < |counts| && own != Some(i) ==> counts[i] == SIZE_MAX)
  {
    loop := PickLoop(counts);
    if loop.Some? && loop == own {
      var alternative: Option<nat>, bestCount: nat := None, SIZE_MAX;
      for i := 0 to |counts|
        invariant alternative.None? <==> bestCount == SIZE_MAX
        invariant alternative.Some? ==>
          && alternative.value < i && alternative != own && counts[alternative.value] == bestCount
          && forall j :: 0 <= j < alternative.value && own != Some(j) ==> bestCount < counts[j]
        invariant forall j :: 0 <= j < i && own != Some(j) ==> bestCount <= counts[j]
      {
        if own != Some(i) && counts[i] < bestCount {
          bestCount, alternative := counts[i], Some(i);
        }
      }
      loop := alternative;
    }
  }

  // ---------------------------------------------------------------------------------------
  // The steps
  // ---------------------------------------------------------------------------------------

  predicate Sized(s: Pool) {
    && |s.turn| == |s.clients| == |s.served| && s.limit >= 1
    && (forall a :: 0 <= a < |s.clients| ==> InRange(s.clients[a], |s.counts|))
    && (forall p :: 0 <= p < |s.threads| ==> ThreadInRange(s.threads[p], |s.clients|, |s.counts|))
    && (s.shutdown.Stopping? ==> InRange(s.shutdown.rest, |s.counts|))
  }

  predicate InRange(clients: seq<Client>, loops: nat) {
    forall i :: 0 <= i < |clients| ==> clients[i].loop < loops
  }

  predicate ThreadInRange(t: Acquire, addrs: nat, loops: nat) {
    match t
    case Outside => true
    case Connecting(a, l) => a < addrs && l < loops
    case Counted(a, c) => a < addrs && c.loop < loops
    case Undoing(c) => c.loop < loops
  }

  predicate Enabled(s: Pool, step: Step) {
    Sized(s) &&
    match step
    case Begin(p, addr, _, loop) =>
      p < |s.threads| && s.threads[p].Outside? && addr < |s.clients| && (loop.Some? ==> loop.value < |s.counts|)
    case ConnectFails(p) => p < |s.threads| && s.threads[p].Connecting?
    case Increment(p, _) => p < |s.threads| && s.threads[p].Connecting?
    case Resolve(p) => p < |s.threads| && s.threads[p].Counted?
    case Undo(p) => p < |s.threads| && s.threads[p].Undoing?
    case ShutdownBegins => true
    case ShutdownNext => s.shutdown.Stopping? && s.shutdown.rest != []
    case ShutdownEnds => s.shutdown.Stopping? && s.shutdown.rest == []
  }

  function Plus(counts: seq<int>, loop: nat, d: int): (r: seq<int>)
    requires loop < |counts|
    ensures |r| == |counts|
  {
    counts[loop := counts[loop] + d]
  }

  /** Takes clients off the books, one after the other. */
  function Evict(counts: seq<int>, clients: seq<Client>): (r: seq<int>)
    requires InRange(clients, |counts|)
    ensures |r| == |counts|
    decreases |clients|
  {
    if clients == [] then counts else Evict(Plus(counts, clients[0].loop, -1), clients[1..])
  }

  function AllClients(clients: seq<seq<Client>>): seq<Client> {
    if clients == [] then [] else clients[0] + AllClients(clients[1..])
  }

  /** Hands out the pooled client at `at`; its successor is next. */
  function Serve(s: Pool, addr: nat, at: nat): Pool
    requires |s.turn| == |s.clients| == |s.served| && addr < |s.clients| && at < |s.clients[addr]|
  {
    s.(turn := s.turn[addr := Next(at, |s.clients[addr]|)],
       served := s.served[addr := s.served[addr] + [s.clients[addr][at]]])
  }

  /** No healthy connection: a full pool of dead ones is emptied, and the thread goes on to
      connect unless there is no loop for it. */
  function Renew(s: Pool, p: nat, addr: nat, loop: Option<nat>): Pool
    requires Sized(s) && p < |s.threads| && addr < |s.clients|
  {
    var vec := s.clients[addr];
    var cleaned :=
      if |vec| < s.limit then s
      else s.(counts := Evict(s.counts, vec), clients := s.clients[addr := []], turn := s.turn[addr := 0]);
    if loop.None? then cleaned
    else cleaned.(threads := s.threads[p := Connecting(addr, loop.value)])
  }

  function Apply(s: Pool, step: Step): Pool
    requires Enabled(s, step)
  {
    match step
    case Begin(p, addr, alive, loop) =>
      if !s.shutdown.Open? then s
      else
        var vec := s.clients[addr];
        if |vec| >= s.limit then
          match Find(vec, s.turn[addr] % |vec|, |vec|, alive)
          case Some(at) => FindInRange(vec, s.turn[addr] % |vec|, |vec|, alive); Serve(s, addr, at)
          case None => Renew(s, p, addr, loop)
        else Renew(s, p, addr, loop)
    case ConnectFails(p) => s.(threads := s.threads[p := Outside])
    case Increment(p, id) =>
      var t := s.threads[p];
      s.(counts := Plus(s.counts, t.loop, 1), threads := s.threads[p := Counted(t.addr, Client(id, t.loop))])
    case Resolve(p) =>
      var t := s.threads[p];
      var vec := s.clients[t.addr];
      if !s.shutdown.Open? then s.(threads := s.threads[p := Undoing(t.client)])
      else if |vec| < s.limit then
        s.(clients := s.clients[t.addr := vec + [t.client]], threads := s.threads[p := Outside])
      else
        Serve(s, t.addr, s.turn[t.addr] % |vec|).(counts := Plus(s.counts, t.client.loop, -1),
                                                  threads := s.threads[p := Outside])
    case Undo(p) =>
      s.(counts := Plus(s.counts, s.threads[p].client.loop, -1), threads := s.threads[p := Outside])
    case ShutdownBegins =>
      if !s.shutdown.Open? then s else s.(shutdown := Stopping(AllClients(s.clients)))
    case ShutdownNext =>
      s.(counts := Plus(s.counts, s.shutdown.rest[0].loop, -1), shutdown := Stopping(s.shutdown.rest[1..]))
    case ShutdownEnds =>
      s.(shutdown := Down, clients := seq(|s.clients|, _ => []), turn := seq(|s.turn|, _ => 0))
  }

  lemma {:induction false} FindInRange(vec: seq<Client>, idx: nat, left: nat, alive: set<Client>)
    requires idx < |vec|
    ensures var r := Find(vec, idx, left, alive); r.Some? ==> r.value < |vec| && vec[r.value] in alive
    decreases left
  {
    if left > 0 && vec[idx] !in alive {
      FindInRange(vec, Next(idx, |vec|), left - 1, alive);
    }
  }

  // ---------------------------------------------------------------------------------------
  // The books
  // ---------------------------------------------------------------------------------------

  /** How many of the clients are on a loop. */
  function On(clients: seq<Client>, loop: nat): nat {
    if clients == [] then 0 else (if clients[0].loop == loop then 1 else 0) + On(clients[1..], loop)
  }

  function Holds(t: Acquire, loop: nat): nat {
    if (t.Counted? || t.Undoing?) && t.client.loop == loop then 1 else 0
  }

  /** How many threads are between counting a connection on a loop and resolving it. */
  function InFlight(threads: seq<Acquire>, loop: nat): nat {
    if threads == [] then 0 else Holds(threads[0], loop) + InFlight(threads[1..], loop)
  }

  /** The clients that are still on the books. */
  function OnBooks(s: Pool): seq<Client> {
    match s.shutdown
    case Open => AllClients(s.clients)
    case Stopping(rest) => rest
    case Down => []
  }

  ghost predicate Balanced(s: Pool) {
    forall l :: 0 <= l < |s.counts| ==> s.counts[l] == On(OnBooks(s), l) + InFlight(s.threads, l)
  }

  ghost predicate WithinLimit(s: Pool) {
    forall a :: 0 <= a < |s.clients| ==> |s.clients[a]| <= s.limit
  }

  ghost predicate Inv(s: Pool) {
    Sized(s) && Balanced(s) && WithinLimit(s)
  }

  lemma {:induction false} OnConcat(a: seq<Client>, b: seq<Client>, loop: nat)
    ensures On(a + b, loop) == On(a, loop) + On(b, loop)
    decreases |a|
  {
    if a == [] {
      assert a + b == b;
    } else {
      assert (a + b)[1..] == a[1..] + b;
      OnConcat(a[1..], b, loop);
    }
  }

  lemma {:induction false} OnUpdate(clients: seq<seq<Client>>, a: nat, vec: seq<Client>, loop: nat)
    requires a < |clients|
    ensures On(AllClients(clients[a := vec]), loop) + On(clients[a], loop)
         == On(AllClients(clients), loop) + On(vec, loop)
    decreases |clients|
  {
    var changed := clients[a := vec];
    OnConcat(clients[0], AllClients(clients[1..]), loop);
    OnConcat(changed[0], AllClients(changed[1..]), loop);
    if a == 0 {
      assert changed[1..] == clients[1..];
    } else {
      assert changed[1..] == clients[1..][a - 1 := vec];
      OnUpdate(clients[1..], a - 1, vec, loop);
    }
  }

  lemma {:induction false} InFlightUpdate(threads: seq<Acquire>, p: nat, t: Acquire, loop: nat)
    requires p < |threads|
    ensures InFlight(threads[p := t], loop) + Holds(threads[p], loop) == InFlight(threads, loop) + Holds(t, loop)
  {
    var changed := threads[p := t];
    if p == 0 {
      assert changed[1..] == threads[1..];
    } else {
      assert changed[1..] == threads[1..][p - 1 := t];
      InFlightUpdate(threads[1..], p - 1, t, loop);
    }
  }

  lemma {:induction false} EvictCounts(counts: seq<int>, clients: seq<Client>, loop: nat)
    requires InRange(clients, |counts|) && loop < |counts|
    ensures Evict(counts, clients)[loop] == counts[loop] - On(clients, loop)
    decreases |clients|
  {
    if clients != [] {
      EvictCounts(Plus(counts, clients[0].loop, -1), clients[1..], loop);
    }
  }

  lemma {:induction false} AllInRange(clients: seq<seq<Client>>, loops: nat)
    requires forall a :: 0 <= a < |clients| ==> InRange(clients[a], loops)
    ensures InRange(AllClients(clients), loops)
  {
    if clients != [] {
      AllInRange(clients[1..], loops);
    }
  }

  lemma {:induction false} NothingOn(clients: seq<seq<Client>>, loop: nat)
    requires forall a :: 0 <= a < |clients| ==> clients[a] == []
    ensures On(AllClients(clients), loop) == 0
  {
    if clients != [] {
      NothingOn(clients[1..], loop);
      assert clients[0] + AllClients(clients[1..]) == AllClients(clients[1..]);
    }
  }

  lemma {:induction false} NobodyInside(threads: seq<Acquire>, loop: nat)
    requires forall p :: 0 <= p < |threads| ==> threads[p].Outside?
    ensures InFlight(threads, loop) == 0
  {
    if threads != [] {
      NobodyInside(threads[1..], loop);
    }
  }

  lemma StepSized(s: Pool, step: Step)
    requires Enabled(s, step)
    ensures Sized(Apply(s, step))
  {
    hide Evict, On, InFlight, Find, AllClients;
    AllInRange(s.clients, |s.counts|);
  }

  lemma StepWithinLimit(s: Pool, step: Step)
    requires Enabled(s, step) && WithinLimit(s)
    ensures WithinLimit(Apply(s, step))
  {
    hide Evict, On, InFlight, Find, AllClients;
  }

  lemma RenewBalanced(s: Pool, p: nat, addr: nat, loop: Option<nat>)
    requires Sized(s) && Balanced(s) && s.shutdown.Open?
    requires p < |s.threads| && s.threads[p].Outside? && addr < |s.clients|
    ensures Balanced(Renew(s, p, addr, loop))
  {
    hide Evict, On, InFlight, AllClients;
    var t := Renew(s, p, addr, loop);
    forall l | 0 <= l < |s.counts|
      ensures t.counts[l] == On(OnBooks(t), l) + InFlight(t.threads, l)
    {
      OnUpdate(s.clients, addr, [], l);
      Empty(l);
      EvictCounts(s.counts, s.clients[addr], l);
      if loop.Some? {
        InFlightUpdate(s.threads, p, Connecting(addr, loop.value), l);
      }
    }
  }

  lemma Empty(loop: nat)
    ensures On([], loop) == 0
  {
  }

  lemma ResolveBalanced(s: Pool, p: nat)
    requires Enabled(s, Resolve(p)) && Balanced(s)
    ensures Balanced(Apply(s, Resolve(p)))
  {
    hide Evict, On, InFlight, AllClients;
    var c, t := s.threads[p].client, Apply(s, Resolve(p));
    forall l | 0 <= l < |s.counts|
      ensures t.counts[l] == On(OnBooks(t), l) + InFlight(t.threads, l)
    {
      InFlightUpdate(s.threads, p, t.threads[p], l);
      var addr := s.threads[p].addr;
      OnUpdate(s.clients, addr, s.clients[addr] + [c], l);
      OnConcat(s.clients[addr], [c], l);
      OnOne(c, l);
    }
  }

  lemma OnOne(c: Client, loop: nat)
    ensures On([c], loop) == if c.loop == loop then 1 else 0
  {
    Empty(loop);
    assert [c][1..] == [];
  }

  lemma ThreadBalanced(s: Pool, step: Step)
    requires step.ConnectFails? || step.Increment? || step.Undo?
    requires Enabled(s, step) && Balanced(s)
    ensures Balanced(Apply(s, step))
  {
    hide Evict, On, InFlight, AllClients;
    var t := Apply(s, step);
    forall l | 0 <= l < |s.counts|
      ensures t.counts[l] == On(OnBooks(t), l) + InFlight(t.threads, l)
    {
      InFlightUpdate(s.threads, step.p, t.threads[step.p], l);
    }
  }

  lemma ShutdownBalanced(s: Pool, step: Step)
    requires step.ShutdownBegins? || step.ShutdownNext? || step.ShutdownEnds?
    requires Enabled(s, step) && Balanced(s)
    ensures Balanced(Apply(s, step))
  {
    hide InFlight, AllClients, Evict;
    var t := Apply(s, step);
    assert t.threads == s.threads;
  }

  lemma StepBalanced(s: Pool, step: Step)
    requires Enabled(s, step) && Balanced(s)
    ensures Balanced(Apply(s, step))
  {
    match step
    case Begin(p, addr, alive, loop) =>
      hide Evict, On, InFlight, Find, AllClients, Renew;
      if s.shutdown.Open? {
        RenewBalanced(s, p, addr, loop);
      }
    case Resolve(p) => ResolveBalanced(s, p);
    case _ =>
      if step.ShutdownBegins? || step.ShutdownNext? || step.ShutdownEnds? {
        ShutdownBalanced(s, step);
      } else {
        ThreadBalanced(s, step);
      }
  }

  lemma StepPreserves(s: Pool, step: Step)
    requires Inv(s) && Enabled(s, step)
    ensures Inv(Apply(s, step))
  {
    StepSized(s, step);
    StepBalanced(s, step);
    StepWithinLimit(s, step);
  }

  lemma StartInv(limit: nat, addrs: nat, loops: nat, threads: nat)
    requires limit >= 1
    ensures Inv(Start(limit, addrs, loops, threads))
  {
    var s := Start(limit, addrs, loops, threads);
    forall l | 0 <= l < loops
      ensures On(OnBooks(s), l) + InFlight(s.threads, l) == 0
    {
      NothingOn(s.clients, l);
      NobodyInside(s.threads, l);
    }
  }

  // ---------------------------------------------------------------------------------------
  // Every interleaving
  // ---------------------------------------------------------------------------------------

  function Exec(s: Pool, steps: seq<Step>): Run<Pool> {
    if steps == [] then Reached(s)
    else
      var n := |steps| - 1;
      var before := Exec(s, steps[..n]);
      if before.Reached? && Enabled(before.state, steps[n]) then Reached(Apply(before.state, steps[n]))
      else Illegal
  }

  lemma {:induction false} RunPreserves(s: Pool, steps: seq<Step>)
    requires Inv(s) && Exec(s, steps).Reached?
    ensures Inv(Exec(s, steps).state)
    decreases |steps|
  {
    hide Inv, Apply, Enabled;
    if steps != [] {
      var n := |steps| - 1;
      RunPreserves(s, steps[..n]);
      StepPreserves(Exec(s, steps[..n]).state, steps[n]);
    }
  }

  /** In every interleaving the count of a loop is the number of its clients on the books plus
      the acquires that have counted a connection and not resolved it; it is never negative,
      and no address has more connections than allowed. */
  lemma {:induction false} Accounting(limit: nat, addrs: nat, loops: nat, threads: nat, steps: seq<Step>)
    requires limit >= 1 && Exec(Start(limit, addrs, loops, threads), steps).Reached?
    ensures var s := Exec(Start(limit, addrs, loops, threads), steps).state;
      && (forall l :: 0 <= l < |s.counts| ==>
            s.counts[l] == On(OnBooks(s), l) + InFlight(s.threads, l) && s.counts[l] >= 0)
      && (forall a :: 0 <= a < |s.clients| ==> |s.clients[a]| <= s.limit)
  {
    hide Exec, On, InFlight;
    StartInv(limit, addrs, loops, threads);
    RunPreserves(Start(limit, addrs, loops, threads), steps);
  }

  /** When the shutdown has ended and no thread is left inside an acquire, nothing is counted. */
  lemma {:induction false} AllReturned(limit: nat, addrs: nat, loops: nat, threads: nat, steps: seq<Step>)
    requires limit >= 1 && Exec(Start(limit, addrs, loops, threads), steps).Reached?
    ensures var s := Exec(Start(limit, addrs, loops, threads), steps).state;
      s.shutdown.Down? && (forall p :: 0 <= p < |s.threads| ==> s.threads[p].Outside?) ==>
        forall l :: 0 <= l < |s.counts| ==> s.counts[l] == 0
  {
    hide Exec, On, InFlight;
    Accounting(limit, addrs, loops, threads, steps);
    var s := Exec(Start(limit, addrs, loops, threads), steps).state;
    if s.shutdown.Down? && forall p :: 0 <= p < |s.threads| ==> s.threads[p].Outside? {
      forall l | 0 <= l < |s.counts|
        ensures s.counts[l] == 0
      {
        Empty(l);
        NobodyInside(s.threads, l);
      }
    }
  }

  // ---------------------------------------------------------------------------------------
  // What an acquire does
  // ---------------------------------------------------------------------------------------

  /** Nothing is handed out from a pool that is not full, or after the shutdown has begun. */
  lemma ServedOnlyWhenFull(s: Pool, step: Step, a: nat)
    requires Inv(s) && Enabled(s, step) && a < |s.served|
    ensures Apply(s, step).served[a] != s.served[a] ==> s.shutdown.Open? && |s.clients[a]| == s.limit
  {
    hide Evict, On, InFlight, Find, AllClients, Balanced;
  }

  /** An acquire on a full pool gets the first healthy client from the current turn on, and the
      one behind it is next. */
  lemma HealthyIsServed(s: Pool, p: nat, a: nat, alive: set<Client>, loop: Option<nat>) returns (k: nat)
    requires Sized(s) && Enabled(s, Begin(p, a, alive, loop)) && s.shutdown.Open?
    requires |s.clients[a]| == s.limit && exists c :: c in s.clients[a] && c in alive
    ensures var vec, t := s.clients[a], Apply(s, Begin(p, a, alive, loop));
      var at := Ahead(s.turn[a] % |vec|, k, |vec|);
      && vec[at] in alive && (forall i: nat :: i < k ==> vec[Ahead(s.turn[a] % |vec|, i, |vec|)] !in alive)
      && t == s.(served := s.served[a := s.served[a] + [vec[at]]], turn := s.turn[a := Next(at, |vec|)])
  {
    hide Evict, On, InFlight, Ahead, Next, AllClients, InRange;
    var vec := s.clients[a];
    FindsAnyHealthy(vec, s.turn[a] % |vec|, alive);
    k := FindFirst(vec, s.turn[a] % |vec|, |vec|, alive);
    hide Find;
  }

  /** A full pool of dead clients is emptied and taken off the books, and its turn starts over; a
      pool with room is left alone. Either way the thread goes on to connect, if it has a loop. */
  lemma NoHealthyConnects(s: Pool, p: nat, a: nat, alive: set<Client>, loop: Option<nat>)
    requires Sized(s) && Enabled(s, Begin(p, a, alive, loop)) && s.shutdown.Open?
    requires |s.clients[a]| < s.limit || forall c :: c in s.clients[a] ==> c !in alive
    ensures var t := Apply(s, Begin(p, a, alive, loop));
      && t.threads == (if loop.Some? then s.threads[p := Connecting(a, loop.value)] else s.threads)
      && t.served == s.served && t.shutdown == s.shutdown
      && (if |s.clients[a]| < s.limit then
            t.clients == s.clients && t.turn == s.turn && t.counts == s.counts
          else
            && t.clients == s.clients[a := []] && t.turn == s.turn[a := 0]
            && forall l :: 0 <= l < |s.counts| ==> t.counts[l] == s.counts[l] - On(s.clients[a], l))
  {
    hide Evict, On, InFlight, AllClients;
    var vec := s.clients[a];
    if |vec| >= s.limit {
      FindsAnyHealthy(vec, s.turn[a] % |vec|, alive);
      forall l | 0 <= l < |s.counts|
        ensures Evict(s.counts, vec)[l] == s.counts[l] - On(vec, l)
      {
        EvictCounts(s.counts, vec, l);
      }
    }
    hide Find;
  }

  /** After the shutdown has begun an acquire gets nothing and changes nothing. */
  lemma ShutGivesNothing(s: Pool, p: nat, a: nat, alive: set<Client>, loop: Option<nat>)
    requires Enabled(s, Begin(p, a, alive, loop)) && !s.shutdown.Open?
    ensures Apply(s, Begin(p, a, alive, loop)) == s
  {
  }

  /** A connection that was opened joins the pool if there is room; if the pool was filled
      meanwhile it is given up for the client whose turn it is; and after a shutdown it is given
      up for nothing. */
  lemma ResolveOutcome(s: Pool, p: nat)
    requires Sized(s) && Enabled(s, Resolve(p))
    ensures var a, c, t := s.threads[p].addr, s.threads[p].client, Apply(s, Resolve(p));
      if !s.shutdown.Open? then t == s.(threads := s.threads[p := Undoing(c)])
      else if |s.clients[a]| < s.limit then
        t == s.(clients := s.clients[a := s.clients[a] + [c]], threads := s.threads[p := Outside])
      else
        var at := s.turn[a] % |s.clients[a]|;
        && t.clients == s.clients && t.threads == s.threads[p := Outside]
        && t.served == s.served[a := s.served[a] + [s.clients[a][at]]]
        && t.turn == s.turn[a := Next(at, |s.clients[a]|)]
        && t.counts == s.counts[c.loop := s.counts[c.loop] - 1]
  {
  }

  /** A connection attempt that fails changes nothing but the thread that made it. */
  lemma FailureChangesNothing(s: Pool, p: nat)
    requires Enabled(s, ConnectFails(p))
    ensures Apply(s, ConnectFails(p)) == s.(threads := s.threads[p := Outside])
  {
  }

  /** When the shutdown has ended the pools are empty, and stay so. */
  lemma {:induction false} DownIsEmpty(limit: nat, addrs: nat, loops: nat, threads: nat, steps: seq<Step>)
    requires limit >= 1 && Exec(Start(limit, addrs, loops, threads), steps).Reached?
    ensures var s := Exec(Start(limit, addrs, loops, threads), steps).state;
      s.shutdown.Down? ==> forall a :: 0 <= a < |s.clients| ==> s.clients[a] == []
    decreases |steps|
  {
    if steps != [] {
      var n := |steps| - 1;
      DownIsEmpty(limit, addrs, loops, threads, steps[..n]);
      hide Evict, On, InFlight, Find, AllClients, Start;
    }
  }

  lemma ExecOne(s: Pool, steps: seq<Step>, step: Step)
    requires Exec(s, steps).Reached? && Enabled(Exec(s, steps).state, step)
    ensures Exec(s, steps + [step]) == Reached(Apply(Exec(s, steps).state, step))
  {
    hide Enabled, Apply;
    assert (steps + [step])[..|steps + [step]| - 1] == steps;
  }

  /** A pool below its limit grows by one connection with every acquire that connects, even if all
      its clients are healthy. */
  lemma Grows(s: Pool, p: nat, a: nat, alive: set<Client>, loop: nat, id: nat)
    requires Inv(s) && s.shutdown.Open? && p < |s.threads| && s.threads[p].Outside?
    requires a < |s.clients| && loop < |s.counts| && |s.clients[a]| < s.limit
    ensures var run := Exec(s, [Begin(p, a, alive, Some(loop))] + [Increment(p, id)] + [Resolve(p)]);
      && run.Reached? && Inv(run.state)
      && run.state.clients == s.clients[a := s.clients[a] + [Client(id, loop)]]
      && run.state.threads == s.threads && run.state.shutdown.Open? && run.state.limit == s.limit
      && |run.state.counts| == |s.counts|
  {
    var begin, increment, resolve := Begin(p, a, alive, Some(loop)), Increment(p, id), Resolve(p);
    NoHealthyConnects(s, p, a, alive, Some(loop));
    var t := Apply(s, begin);
    StepPreserves(s, begin);
    StepPreserves(t, increment);
    var u := Apply(t, increment);
    StepPreserves(u, resolve);
    ResolveOutcome(u, p);
    assert Exec(s, []) == Reached(s);
    hide Inv, Apply, Exec;
    ExecOne(s, [], begin);
    assert [] + [begin] == [begin];
    ExecOne(s, [begin], increment);
    ExecOne(s, [begin] + [increment], resolve);
    assert s.threads[p := Connecting(a, loop)][p := Counted(a, Client(id, loop))][p := Outside] == s.threads;
  }

  // ---------------------------------------------------------------------------------------
  // Rotation
  // ---------------------------------------------------------------------------------------

  /** The step leaves the pool of `addr` in service: no shutdown, and an acquire that looks at
      it finds every client healthy. */
  predicate Healthy(s: Pool, step: Step, addr: nat)
    requires addr < |s.clients|
  {
    && !step.ShutdownBegins?
    && (step.Begin? && step.addr == addr ==> forall c :: c in s.clients[addr] ==> c in step.alive)
  }

  ghost predicate HealthyRun(s: Pool, steps: seq<Step>, addr: nat)
    decreases |steps|
  {
    steps == [] ||
    var n := |steps| - 1;
    && HealthyRun(s, steps[..n], addr)
    && (Exec(s, steps[..n]).Reached? ==>
          addr < |Exec(s, steps[..n]).state.clients| && Healthy(Exec(s, steps[..n]).state, steps[n], addr))
  }

  /** The next `k` clients in the rotation. */
  function Rotation(vec: seq<Client>, idx: nat, k: nat): (r: seq<Client>)
    requires idx < |vec|
    ensures |r| == k
  {
    seq(k, i requires 0 <= i < k => vec[Ahead(idx, i, |vec|)])
  }

  /** A full pool, in service, that has served `k` clients in strict rotation since `s`. */
  ghost predicate InRotation(s: Pool, t: Pool, addr: nat, k: nat)
    requires addr < |s.clients| == |s.turn| == |s.served| && s.clients[addr] != []
  {
    && t.shutdown.Open? && t.limit == s.limit
    && |t.clients| == |t.turn| == |t.served| == |s.clients|
    && t.clients[addr] == s.clients[addr]
    && var n := |s.clients[addr]|;
    && t.turn[addr] % n == Ahead(s.turn[addr] % n, k, n)
    && t.served[addr] == s.served[addr] + Rotation(s.clients[addr], s.turn[addr] % n, k)
  }

  lemma ServeRotates(s: Pool, t: Pool, addr: nat, k: nat)
    requires addr < |s.clients| == |s.turn| == |s.served| && s.clients[addr] != []
    requires InRotation(s, t, addr, k)
    ensures InRotation(s, Serve(t, addr, t.turn[addr] % |s.clients[addr]|), addr, k + 1)
  {
    var vec := s.clients[addr];
    var n, start := |vec|, s.turn[addr] % |vec|;
    AheadNext(start, k, n);
    var u := Serve(t, addr, t.turn[addr] % n);
    assert u.turn[addr] == Ahead(start, k + 1, n);
    Small(u.turn[addr], n);
    assert Rotation(vec, start, k + 1) == Rotation(vec, start, k) + [vec[Ahead(start, k, n)]];
  }

  lemma Small(i: nat, n: nat)
    requires i < n
    ensures i % n == i
  {
  }

  lemma StepRotates(s: Pool, t: Pool, addr: nat, k: nat, step: Step) returns (k': nat)
    requires Sized(s) && addr < |s.clients| && |s.clients[addr]| == s.limit
    requires InRotation(s, t, addr, k) && Enabled(t, step) && Healthy(t, step, addr)
    ensures k <= k' && InRotation(s, Apply(t, step), addr, k')
  {
    hide InRange, Rotation, Ahead, Evict, On, InFlight, AllClients;
    k' := k;
    var vec := s.clients[addr];
    if step.Begin? && step.addr == addr {
      assert vec[t.turn[addr] % |vec|] in step.alive;
      ServeRotates(s, t, addr, k);
      k' := k + 1;
    } else if step.Resolve? && t.threads[step.p].addr == addr {
      ServeRotates(s, t, addr, k);
      k' := k + 1;
    }
  }

  /** A full healthy pool is served in strict rotation, whatever the other threads do. */
  lemma {:induction false} StrictRotation(s: Pool, steps: seq<Step>, addr: nat) returns (k: nat)
    requires Sized(s) && s.shutdown.Open? && addr < |s.clients| && |s.clients[addr]| == s.limit
    requires Exec(s, steps).Reached? && HealthyRun(s, steps, addr)
    ensures InRotation(s, Exec(s, steps).state, addr, k)
    decreases |steps|
  {
    if steps == [] {
      k := 0;
      assert s.served[addr] + Rotation(s.clients[addr], s.turn[addr] % |s.clients[addr]|, 0) == s.served[addr];
    } else {
      hide InRotation, Apply, Enabled, Healthy, Sized;
      var n := |steps| - 1;
      k := StrictRotation(s, steps[..n], addr);
      k := StepRotates(s, Exec(s, steps[..n]).state, addr, k, steps[n]);
    }
  }
}
