/** The intrusive multi-producer single-consumer queue, one step per atomic operation. Any
    number of producers push in two steps (exchange the tail, then link the predecessor)
    while the single consumer works through the several steps of a pop. Memory is explicit:
    nodes are allocated, freed and reused, and touching a freed node is a fault. */
module MpscQueue {
  import opened Runs

  datatype Node = Stub | Msg(id: nat)

  datatype Ptr = Null | Ref(node: Node)

  /** Where a producer is inside push. */
  datatype Phase =
    | Idle
    | Ready(node: Node)
    | Linking(node: Node, prev: Node)

  /** Where the consumer is inside pop; `h` is its local copy of the head. */
  datatype Consumer =
    | Resting
    | Second(h: Node)
    | LoadTail(h: Node)
    | ClearStub(h: Node)
    | SwapStub(h: Node)
    | LinkStub(h: Node, prev: Node)
    | Reload(h: Node)
    | Returned(h: Node)

  /** `next` holds the allocated nodes. `exchanged` and `popped` record the messages in the
      order of the tail exchanges and in the order in which pop returned them. */
  datatype State<M> = State(
    next: map<Node, Ptr>,
    data: map<Node, M>,
    head: Node,
    tail: Node,
    producers: map<nat, Phase>,
    consumer: Consumer,
    exchanged: seq<M>,
    popped: seq<M>,
    fault: bool
  )

  datatype Step<M> =
    | Prepare(p: nat, id: nat, m: M)
    | Exchange(p: nat)
    | Link(p: nat)
    | Pop
    | Free

  function Init<M>(): State<M> {
    State(map[Stub := Null], map[], Stub, Stub, map[], Resting, [], [], false)
  }

  function At(producers: map<nat, Phase>, p: nat): Phase {
    if p in producers then producers[p] else Idle
  }

  predicate Enabled<M>(s: State<M>, step: Step<M>) {
    match step
    case Prepare(p, id, _) => At(s.producers, p).Idle? && Msg(id) !in s.next
    case Exchange(p) => At(s.producers, p).Ready?
    case Link(p) => At(s.producers, p).Linking?
    case Pop => !s.consumer.Returned?
    case Free => s.consumer.Returned?
  }

  /** Stores into the next field of a node. */
  function Store<M>(s: State<M>, n: Node, value: Ptr): State<M> {
    if n in s.next then s.(next := s.next[n := value]) else s.(fault := true)
  }

  /** With `next` loaded from the head `h`: take `h` if it has a successor. */
  function Take<M>(s: State<M>, h: Node, next: Ptr, otherwise: Consumer): State<M> {
    if next.Null? then s.(consumer := otherwise)
    else if h !in s.data then s.(fault := true)
    else s.(head := next.node, consumer := Returned(h), popped := s.popped + [s.data[h]])
  }

  function PopStep<M>(s: State<M>): State<M> {
    match s.consumer
    case Resting =>
      var h := s.head;
      if h !in s.next then s.(fault := true)
      else if h.Msg? then Take(s, h, s.next[h], LoadTail(h))
      else if s.next[h].Null? then s
      else s.(head := s.next[h].node, consumer := Second(s.next[h].node))
    case Second(h) =>
      if h !in s.next then s.(fault := true) else Take(s, h, s.next[h], LoadTail(h))
    case LoadTail(h) =>
      s.(consumer := if h != s.tail then Resting else ClearStub(h))
    case ClearStub(h) =>
      Store(s, Stub, Null).(consumer := SwapStub(h))
    case SwapStub(h) =>
      s.(tail := Stub, consumer := LinkStub(h, s.tail))
    case LinkStub(h, prev) =>
      Store(s, prev, Ref(Stub)).(consumer := Reload(h))
    case Reload(h) =>
      if h !in s.next then s.(fault := true) else Take(s, h, s.next[h], Resting)
    case Returned(_) => s
  }

  function Apply<M>(s: State<M>, step: Step<M>): State<M>
    requires Enabled(s, step)
  {
    match step
    case Prepare(p, id, m) =>
      s.(next := s.next[Msg(id) := Null], data := s.data[Msg(id) := m],
         producers := s.producers[p := Ready(Msg(id))])
    case Exchange(p) =>
      var n := At(s.producers, p).node;
      if n !in s.data then s.(fault := true)
      else s.(tail := n, producers := s.producers[p := Linking(n, s.tail)],
              exchanged := s.exchanged + [s.data[n]])
    case Link(p) =>
      var ph := At(s.producers, p);
      Store(s, ph.prev, Ref(ph.node)).(producers := s.producers[p := Idle])
    case Pop => PopStep(s)
    case Free =>
      s.(next := s.next - {s.consumer.h}, data := s.data - {s.consumer.h}, consumer := Resting)
  }

  // ---------------------------------------------------------------------------------------
  // The invariant: a chain of nodes from head to tail
  // ---------------------------------------------------------------------------------------

  /** A write to the edge from `a` to `b` that some party has yet to make. */
  ghost predicate OwedByProducer(producers: map<nat, Phase>, a: Node, b: Node) {
    exists p :: At(producers, p) == Linking(b, a)
  }

  ghost predicate Owed<M>(s: State<M>, a: Node, b: Node) {
    || OwedByProducer(s.producers, a, b)
    || (s.consumer.LinkStub? && s.consumer.prev == a && b == Stub)
  }

  ghost predicate Adjacent(c: seq<Node>, a: Node, b: Node) {
    exists i {:trigger c[i]} :: 0 <= i < |c| - 1 && c[i] == a && c[i + 1] == b
  }

  ghost predicate Allocated<M>(s: State<M>, c: seq<Node>) {
    forall i :: 0 <= i < |c| ==> c[i] in s.next
  }

  ghost predicate ChainInv<M>(s: State<M>, c: seq<Node>) {
    && 0 < |c| && c[0] == s.head && c[|c| - 1] == s.tail
    && (forall i, j :: 0 <= i < j < |c| ==> c[i] != c[j])
    && Stub in s.next
    && Allocated(s, c)
    && (forall i :: 0 <= i < |c| && c[i].Msg? ==> c[i] in s.data)
    && s.next[s.tail] == Null
    && (forall i {:trigger c[i]} :: 0 <= i < |c| - 1 ==>
         || s.next[c[i]] == Ref(c[i + 1])
         || (s.next[c[i]] == Null && Owed(s, c[i], c[i + 1])))
  }

  ghost predicate ProducersInv<M>(s: State<M>, c: seq<Node>)
    requires Allocated(s, c)
  {
    && (forall p :: At(s.producers, p).Ready? ==>
         var n := At(s.producers, p).node;
         n.Msg? && n !in c && n in s.data && n in s.next && s.next[n] == Null)
    && (forall p :: At(s.producers, p).Linking? ==>
         var n, prev := At(s.producers, p).node, At(s.producers, p).prev;
         n.Msg? && n in c && prev in c && Adjacent(c, prev, n) && s.next[prev] == Null)
    && (forall p, q :: p != q && !At(s.producers, p).Idle? && !At(s.producers, q).Idle? ==>
         At(s.producers, p).node != At(s.producers, q).node)
  }

  ghost predicate ConsumerInv<M>(s: State<M>, c: seq<Node>)
    requires Allocated(s, c)
  {
    match s.consumer
    case Resting => true
    case Second(h) => h.Msg? && s.head == h
    case LoadTail(h) => h.Msg? && s.head == h
    case ClearStub(h) => h.Msg? && s.head == h && Stub !in c
    case SwapStub(h) => h.Msg? && s.head == h && Stub !in c && Stub in s.next && s.next[Stub] == Null
    case LinkStub(h, prev) =>
      && h.Msg? && s.head == h && Stub in c && prev in c && Adjacent(c, prev, Stub)
      && s.next[prev] == Null
    case Reload(h) => h.Msg? && s.head == h && |c| > 1
    case Returned(h) =>
      h.Msg? && h !in c && h in s.next && forall p :: !At(s.producers, p).Idle? ==> At(s.producers, p).node != h
  }

  /** The messages of the chain. */
  ghost function Payload<M>(data: map<Node, M>, c: seq<Node>): seq<M> {
    if c == [] then []
    else
      var n := c[|c| - 1];
      Payload(data, c[..|c| - 1]) + (if n.Msg? && n in data then [data[n]] else [])
  }

  ghost predicate Inv<M>(s: State<M>, c: seq<Node>) {
    && !s.fault
    && ChainInv(s, c)
    && ProducersInv(s, c)
    && ConsumerInv(s, c)
    && s.exchanged == s.popped + Payload(s.data, c)
  }

  /** How a step moves the chain. */
  ghost function NextChain<M>(s: State<M>, step: Step<M>, c: seq<Node>): seq<Node>
    requires Enabled(s, step)
  {
    if step.Exchange? then c + [At(s.producers, step.p).node]
    else if step.Pop? && s.consumer.SwapStub? then c + [Stub]
    else if step.Pop? && Apply(s, step).head != s.head && c != [] then c[1..]
    else c
  }

  // ---------------------------------------------------------------------------------------
  // Preservation
  // ---------------------------------------------------------------------------------------

  lemma {:induction false} PayloadFrame<M>(a: map<Node, M>, b: map<Node, M>, c: seq<Node>)
    requires forall i :: 0 <= i < |c| ==>
      (c[i] in a <==> c[i] in b) && (c[i] in a ==> a[c[i]] == b[c[i]])
    ensures Payload(a, c) == Payload(b, c)
  {
    if c != [] {
      PayloadFrame(a, b, c[..|c| - 1]);
    }
  }

  lemma {:induction false} PayloadDropFirst<M>(data: map<Node, M>, c: seq<Node>)
    requires c != []
    ensures Payload(data, c)
         == (if c[0].Msg? && c[0] in data then [data[c[0]]] else []) + Payload(data, c[1..])
  {
    var n := |c| - 1;
    if n > 0 {
      PayloadDropFirst(data, c[..n]);
      assert c[1..][..n - 1] == c[..n][1..];
    }
  }

  /** A step of producer `p` alone leaves the debts of the others as they were. */
  lemma DebtsOfOthers<M>(s: State<M>, t: State<M>, p: nat)
    requires t.consumer == s.consumer && forall q :: q != p ==> At(t.producers, q) == At(s.producers, q)
    ensures forall a, b :: Owed(s, a, b) && At(s.producers, p) != Linking(b, a) ==> Owed(t, a, b)
  {
    forall a, b | Owed(s, a, b) && At(s.producers, p) != Linking(b, a) ensures Owed(t, a, b) {
      if q :| At(s.producers, q) == Linking(b, a) {
        assert At(t.producers, q) == Linking(b, a);
      }
    }
  }

  lemma PrepareParts<M>(s: State<M>, p: nat, id: nat, m: M, c: seq<Node>)
    requires Inv(s, c) && Enabled(s, Prepare(p, id, m))
    ensures ProducersInv(Apply(s, Prepare(p, id, m)), c)
    ensures ConsumerInv(Apply(s, Prepare(p, id, m)), c)
  {
    hide Owed, Adjacent, Payload;
    var t := Apply(s, Prepare(p, id, m));
    assert forall q :: q != p ==> At(t.producers, q) == At(s.producers, q);
    assert At(t.producers, p) == Ready(Msg(id));
  }

  lemma PreparePreserves<M>(s: State<M>, p: nat, id: nat, m: M, c: seq<Node>)
    requires Inv(s, c) && Enabled(s, Prepare(p, id, m))
    ensures Inv(Apply(s, Prepare(p, id, m)), c)
  {
    var t := Apply(s, Prepare(p, id, m));
    PrepareParts(s, p, id, m, c);
    hide ProducersInv, ConsumerInv;
    assert ChainInv(t, c) by {
      assert forall q :: q != p ==> At(t.producers, q) == At(s.producers, q);
      DebtsOfOthers(s, t, p);
      hide Owed;
    }
    PayloadFrame(s.data, t.data, c);
  }

  lemma AdjacentAppend(c: seq<Node>, n: Node)
    ensures forall a, b :: Adjacent(c, a, b) ==> Adjacent(c + [n], a, b)
    ensures c != [] ==> Adjacent(c + [n], c[|c| - 1], n)
  {
    var d := c + [n];
    forall a, b | Adjacent(c, a, b) ensures Adjacent(d, a, b) {
      var i :| 0 <= i < |c| - 1 && c[i] == a && c[i + 1] == b;
      assert d[i] == a && d[i + 1] == b;
    }
    if c != [] {
      assert d[|c| - 1] == c[|c| - 1] && d[|c|] == n;
    }
  }

  lemma ExchangeChain<M>(s: State<M>, p: nat, c: seq<Node>)
    requires Inv(s, c) && Enabled(s, Exchange(p))
    ensures ChainInv(Apply(s, Exchange(p)), c + [At(s.producers, p).node])
  {
    var n := At(s.producers, p).node;
    var t, d := Apply(s, Exchange(p)), c + [n];
    assert forall q :: q != p ==> At(t.producers, q) == At(s.producers, q);
    DebtsOfOthers(s, t, p);
    assert At(t.producers, p) == Linking(n, s.tail);
    forall i | 0 <= i < |d| - 1
      ensures t.next[d[i]] == Ref(d[i + 1]) || (t.next[d[i]] == Null && Owed(t, d[i], d[i + 1]))
    {
      if i < |c| - 1 {
        assert d[i] == c[i] && d[i + 1] == c[i + 1];
      }
    }
  }

  lemma ExchangeParts<M>(s: State<M>, p: nat, c: seq<Node>)
    requires Inv(s, c) && Enabled(s, Exchange(p))
    ensures ProducersInv(Apply(s, Exchange(p)), c + [At(s.producers, p).node])
    ensures ConsumerInv(Apply(s, Exchange(p)), c + [At(s.producers, p).node])
  {
    var n := At(s.producers, p).node;
    var t := Apply(s, Exchange(p));
    AdjacentAppend(c, n);
    hide Owed, Adjacent, Payload;
    assert forall q :: q != p ==> At(t.producers, q) == At(s.producers, q);
    assert At(t.producers, p) == Linking(n, s.tail);
  }

  lemma ExchangePreserves<M>(s: State<M>, p: nat, c: seq<Node>)
    requires Inv(s, c) && Enabled(s, Exchange(p))
    ensures Inv(Apply(s, Exchange(p)), c + [At(s.producers, p).node])
  {
    ExchangeChain(s, p, c);
    ExchangeParts(s, p, c);
    assert (c + [At(s.producers, p).node])[..|c|] == c;
    hide ChainInv, ConsumerInv;
  }

  /** In a chain without repetitions a node has one predecessor and one successor. */
  lemma AdjacentUnique(c: seq<Node>, a: Node, b: Node, i: nat)
    requires (forall i, j :: 0 <= i < j < |c| ==> c[i] != c[j]) && Adjacent(c, a, b) && i < |c|
    ensures c[i] == a ==> i < |c| - 1 && c[i + 1] == b
    ensures c[i] == b ==> i > 0 && c[i - 1] == a
  {
    var k :| 0 <= k < |c| - 1 && c[k] == a && c[k + 1] == b;
  }

  lemma LinkChain<M>(s: State<M>, p: nat, c: seq<Node>)
    requires Inv(s, c) && Enabled(s, Link(p))
    ensures ChainInv(Apply(s, Link(p)), c)
  {
    var n, prev := At(s.producers, p).node, At(s.producers, p).prev;
    var t := Apply(s, Link(p));
    assert forall q :: q != p ==> At(t.producers, q) == At(s.producers, q);
    DebtsOfOthers(s, t, p);
    hide Owed;
    forall i | 0 <= i < |c| - 1
      ensures t.next[c[i]] == Ref(c[i + 1]) || (t.next[c[i]] == Null && Owed(t, c[i], c[i + 1]))
    {
      AdjacentUnique(c, prev, n, i);
    }
    AdjacentUnique(c, prev, n, |c| - 1);
  }

  /** Only one party at a time owes the edge that leaves `prev`. */
  lemma OneDebtor<M>(s: State<M>, p: nat, c: seq<Node>)
    requires Inv(s, c) && At(s.producers, p).Linking?
    ensures forall q :: q != p && At(s.producers, q).Linking? ==>
      At(s.producers, q).prev != At(s.producers, p).prev
    ensures s.consumer.LinkStub? ==> s.consumer.prev != At(s.producers, p).prev
  {
    var n, prev := At(s.producers, p).node, At(s.producers, p).prev;
    var k :| 0 <= k < |c| - 1 && c[k] == prev && c[k + 1] == n;
    hide Owed, Adjacent, Payload;
    forall q | q != p && At(s.producers, q).Linking? ensures At(s.producers, q).prev != prev {
      AdjacentUnique(c, At(s.producers, q).prev, At(s.producers, q).node, k);
    }
    if s.consumer.LinkStub? {
      AdjacentUnique(c, s.consumer.prev, Stub, k);
    }
  }

  lemma LinkParts<M>(s: State<M>, p: nat, c: seq<Node>)
    requires Inv(s, c) && Enabled(s, Link(p))
    ensures ProducersInv(Apply(s, Link(p)), c)
    ensures ConsumerInv(Apply(s, Link(p)), c)
  {
    LinkProducers(s, p, c);
    LinkConsumer(s, p, c);
  }

  /** What a link writes. */
  lemma LinkWrites<M>(s: State<M>, p: nat, c: seq<Node>)
    requires Inv(s, c) && Enabled(s, Link(p))
    ensures var ph, t := At(s.producers, p), Apply(s, Link(p));
      && ph.prev in s.next && t.next == s.next[ph.prev := Ref(ph.node)]
      && t.data == s.data && t.head == s.head && t.consumer == s.consumer
      && At(t.producers, p).Idle? && (forall q :: q != p ==> At(t.producers, q) == At(s.producers, q))
  {
    hide Owed, Adjacent, Payload, ConsumerInv, OwedByProducer;
  }

  lemma LinkProducers<M>(s: State<M>, p: nat, c: seq<Node>)
    requires Inv(s, c) && Enabled(s, Link(p))
    ensures Allocated(Apply(s, Link(p)), c) && ProducersInv(Apply(s, Link(p)), c)
  {
    OneDebtor(s, p, c);
    LinkWrites(s, p, c);
    hide Owed, OwedByProducer, Adjacent, Payload, ConsumerInv, At, Apply, Enabled;
  }

  lemma LinkConsumer<M>(s: State<M>, p: nat, c: seq<Node>)
    requires Inv(s, c) && Enabled(s, Link(p))
    ensures Allocated(Apply(s, Link(p)), c) && ConsumerInv(Apply(s, Link(p)), c)
  {
    OneDebtor(s, p, c);
    LinkWrites(s, p, c);
    hide Owed, OwedByProducer, Adjacent, Payload, At, Apply, Enabled;
  }

  lemma LinkPreserves<M>(s: State<M>, p: nat, c: seq<Node>)
    requires Inv(s, c) && Enabled(s, Link(p))
    ensures Inv(Apply(s, Link(p)), c)
  {
    LinkChain(s, p, c);
    LinkParts(s, p, c);
    hide ChainInv, ConsumerInv;
  }

  // The consumer's steps.

  /** Dropping the first node of a chain whose first edge is linked. */
  lemma DropFirst<M>(s: State<M>, c: seq<Node>)
    requires ChainInv(s, c) && ProducersInv(s, c) && s.next[s.head].Ref? && !s.consumer.LinkStub?
    ensures |c| > 1 && s.next[s.head] == Ref(c[1]) && s.head !in c[1..]
    ensures forall p :: At(s.producers, p).Linking? ==>
      At(s.producers, p).node != s.head && At(s.producers, p).prev != s.head
      && Adjacent(c[1..], At(s.producers, p).prev, At(s.producers, p).node)
  {
    assert s.next[c[0]] != Null;
    forall p | At(s.producers, p).Linking?
      ensures At(s.producers, p).node != s.head && At(s.producers, p).prev != s.head
      ensures Adjacent(c[1..], At(s.producers, p).prev, At(s.producers, p).node)
    {
      var a, b := At(s.producers, p).prev, At(s.producers, p).node;
      var k :| 0 <= k < |c| - 1 && c[k] == a && c[k + 1] == b;
      assert k != 0;
      assert c[1..][k - 1] == a && c[1..][k] == b;
    }
  }

  lemma DropFirstChain<M>(s: State<M>, t: State<M>, c: seq<Node>)
    requires ChainInv(s, c) && ProducersInv(s, c) && s.next[s.head].Ref? && !s.consumer.LinkStub?
    requires t.next == s.next && t.data == s.data && t.producers == s.producers
    requires t.tail == s.tail && s.next[s.head] == Ref(t.head)
    ensures ChainInv(t, c[1..])
    ensures ProducersInv(t, c[1..])
  {
    DropFirst(s, c);
    var d := c[1..];
    forall i | 0 <= i < |d| - 1
      ensures t.next[d[i]] == Ref(d[i + 1]) || (t.next[d[i]] == Null && Owed(t, d[i], d[i + 1]))
    {
      assert d[i] == c[i + 1] && d[i + 1] == c[i + 1 + 1];
    }
  }

  /** Taking the head off the queue, from any of the three places where pop does so. */
  lemma TakePreserves<M>(s: State<M>, h: Node, otherwise: Consumer, c: seq<Node>)
    requires Inv(s, c) && s.head == h && h.Msg? && !s.consumer.LinkStub? && s.next[h].Ref?
    ensures Take(s, h, s.next[h], otherwise).head != s.head
    ensures Inv(Take(s, h, s.next[h], otherwise), c[1..])
  {
    var t := Take(s, h, s.next[h], otherwise);
    DropFirst(s, c);
    DropFirstChain(s, t, c);
    PayloadDropFirst(s.data, c);
    assert s.popped + ([s.data[h]] + Payload(s.data, c[1..])) == t.popped + Payload(s.data, c[1..]);
  }

  /** The consumer passes over the stub. */
  lemma SkipStubPreserves<M>(s: State<M>, c: seq<Node>)
    requires Inv(s, c) && s.consumer.Resting? && s.head == Stub && s.next[Stub].Ref?
    ensures Apply(s, Pop).head != s.head
    ensures Inv(Apply(s, Pop), c[1..])
  {
    var t := Apply(s, Pop);
    DropFirst(s, c);
    DropFirstChain(s, t, c);
    PayloadDropFirst(s.data, c);
    assert c[1] in c[1..] by {
      assert c[1..][0] == c[1];
    }
    assert [] + Payload(s.data, c[1..]) == Payload(s.data, c[1..]);
  }

  /** The consumer pushes the stub: clears it, swaps it in, and links it. */
  lemma SwapStubChain<M>(s: State<M>, c: seq<Node>)
    requires Inv(s, c) && s.consumer.SwapStub?
    ensures ChainInv(Apply(s, Pop), c + [Stub])
  {
    var t, d := Apply(s, Pop), c + [Stub];
    forall i | 0 <= i < |d| - 1
      ensures t.next[d[i]] == Ref(d[i + 1]) || (t.next[d[i]] == Null && Owed(t, d[i], d[i + 1]))
    {
      if i < |c| - 1 {
        assert d[i] == c[i] && d[i + 1] == c[i + 1];
      }
    }
  }

  lemma SwapStubPreserves<M>(s: State<M>, c: seq<Node>)
    requires Inv(s, c) && s.consumer.SwapStub?
    ensures Apply(s, Pop).head == s.head
    ensures Inv(Apply(s, Pop), c + [Stub])
  {
    var t, d := Apply(s, Pop), c + [Stub];
    SwapStubChain(s, c);
    SwapStubParts(s, c);
    assert d[..|c|] == c;
    assert Payload(s.data, c) + [] == Payload(s.data, c);
    hide ChainInv, ProducersInv, ConsumerInv, Allocated;
  }

  lemma SwapStubParts<M>(s: State<M>, c: seq<Node>)
    requires Inv(s, c) && s.consumer.SwapStub?
    ensures Allocated(Apply(s, Pop), c + [Stub])
    ensures ProducersInv(Apply(s, Pop), c + [Stub]) && ConsumerInv(Apply(s, Pop), c + [Stub])
  {
    AdjacentAppend(c, Stub);
    hide Owed, Adjacent, Payload;
  }

  lemma LinkStubChain<M>(s: State<M>, c: seq<Node>)
    requires Inv(s, c) && s.consumer.LinkStub?
    ensures ChainInv(Apply(s, Pop), c)
  {
    var t, prev := Apply(s, Pop), s.consumer.prev;
    forall i | 0 <= i < |c| - 1
      ensures t.next[c[i]] == Ref(c[i + 1]) || (t.next[c[i]] == Null && Owed(t, c[i], c[i + 1]))
    {
      AdjacentUnique(c, prev, Stub, i);
    }
    AdjacentUnique(c, prev, Stub, |c| - 1);
  }

  lemma LinkStubParts<M>(s: State<M>, c: seq<Node>)
    requires Inv(s, c) && s.consumer.LinkStub?
    ensures ProducersInv(Apply(s, Pop), c) && ConsumerInv(Apply(s, Pop), c)
  {
    var t, prev := Apply(s, Pop), s.consumer.prev;
    var k :| 0 <= k < |c| - 1 && c[k] == prev && c[k + 1] == Stub;
    hide Owed, Adjacent, Payload;
    forall q | At(t.producers, q).Linking? ensures At(t.producers, q).prev != prev {
      AdjacentUnique(c, At(s.producers, q).prev, At(s.producers, q).node, k);
    }
  }

  lemma LinkStubPreserves<M>(s: State<M>, c: seq<Node>)
    requires Inv(s, c) && s.consumer.LinkStub?
    ensures Apply(s, Pop).head == s.head
    ensures Inv(Apply(s, Pop), c)
  {
    LinkStubChain(s, c);
    LinkStubParts(s, c);
    hide ChainInv, ProducersInv, Payload;
  }

  /** Steps that leave the chain alone: an empty answer, the loads that find nothing, and
      clearing the stub, which is outside the chain at that point. */
  lemma QuietPopPreserves<M>(s: State<M>, t: State<M>, c: seq<Node>)
    requires Inv(s, c) && !s.consumer.LinkStub? && !t.consumer.LinkStub?
    requires t == s.(next := t.next, consumer := t.consumer)
    requires t.next == s.next || (Stub !in c && t.next == s.next[Stub := Null])
    requires ConsumerInv(t, c)
    ensures Inv(t, c)
  {
    hide OwedByProducer, Adjacent, Payload;
    assert Allocated(t, c);
  }

  lemma PopPreserves<M>(s: State<M>, c: seq<Node>)
    requires Inv(s, c) && Enabled(s, Pop)
    ensures Inv(Apply(s, Pop), NextChain(s, Pop, c))
  {
    var t := Apply(s, Pop);
    match s.consumer {
      case Resting =>
        if s.head == Stub {
          if s.next[Stub].Ref? {
            SkipStubPreserves(s, c);
          }
        } else if s.next[s.head].Ref? {
          TakePreserves(s, s.head, LoadTail(s.head), c);
        } else {
          QuietPopPreserves(s, t, c);
        }
      case Second(h) =>
        if s.next[h].Ref? {
          TakePreserves(s, h, LoadTail(h), c);
        } else {
          QuietPopPreserves(s, t, c);
        }
      case LoadTail(h) =>
        assert h == s.tail ==> |c| == 1;
        QuietPopPreserves(s, t, c);
      case ClearStub(h) =>
        QuietPopPreserves(s, t, c);
      case SwapStub(h) =>
        SwapStubPreserves(s, c);
      case LinkStub(h, prev) =>
        LinkStubPreserves(s, c);
      case Reload(h) =>
        if s.next[h].Ref? {
          TakePreserves(s, h, Resting, c);
        } else {
          QuietPopPreserves(s, t, c);
        }
    }
  }

  lemma FreePreserves<M>(s: State<M>, c: seq<Node>)
    requires Inv(s, c) && Enabled(s, Free)
    ensures Inv(Apply(s, Free), c)
  {
    FreeChain(s, c);
    FreeParts(s, c);
    PayloadFrame(s.data, Apply(s, Free).data, c);
    hide ChainInv, ProducersInv, ConsumerInv;
  }

  /** The returned node is not in the chain. */
  lemma FreeChain<M>(s: State<M>, c: seq<Node>)
    requires Inv(s, c) && Enabled(s, Free)
    ensures ChainInv(Apply(s, Free), c)
    ensures forall i :: 0 <= i < |c| ==>
      (c[i] in s.data <==> c[i] in Apply(s, Free).data)
      && (c[i] in s.data ==> s.data[c[i]] == Apply(s, Free).data[c[i]])
  {
    hide OwedByProducer, Adjacent, Payload, ProducersInv;
    assert s.consumer.h !in c;
  }

  /** No producer has the returned node in hand. */
  lemma FreeParts<M>(s: State<M>, c: seq<Node>)
    requires Inv(s, c) && Enabled(s, Free)
    ensures Allocated(Apply(s, Free), c)
    ensures ProducersInv(Apply(s, Free), c) && ConsumerInv(Apply(s, Free), c)
  {
    hide OwedByProducer, Owed, Adjacent, Payload, At;
    assert s.consumer.h !in c;
  }

  /** Every step keeps the invariant. */
  lemma StepPreserves<M>(s: State<M>, step: Step<M>, c: seq<Node>)
    requires Inv(s, c) && Enabled(s, step)
    ensures Inv(Apply(s, step), NextChain(s, step, c))
  {
    hide ChainInv, ProducersInv, ConsumerInv, PopStep;
    match step
    case Prepare(p, id, m) => PreparePreserves(s, p, id, m, c);
    case Exchange(p) => ExchangePreserves(s, p, c);
    case Link(p) => LinkPreserves(s, p, c);
    case Pop => PopPreserves(s, c);
    case Free => FreePreserves(s, c);
  }

  // ---------------------------------------------------------------------------------------
  // All interleavings
  // ---------------------------------------------------------------------------------------

  /** What an interleaving of pushes and pops leads to, if each of its steps was possible. */
  function Exec<M>(steps: seq<Step<M>>): Run<State<M>> {
    if steps == [] then Reached(Init())
    else
      var n := |steps| - 1;
      var before := Exec(steps[..n]);
      if before.Reached? && Enabled(before.state, steps[n]) then Reached(Apply(before.state, steps[n]))
      else Illegal
  }

  lemma {:induction false} ReachableInv<M>(steps: seq<Step<M>>) returns (c: seq<Node>)
    requires Exec(steps).Reached?
    ensures Inv(Exec(steps).state, c)
    decreases |steps|
  {
    if steps == [] {
      c := [Stub];
      assert Payload(Exec(steps).state.data, c) == [];
    } else {
      var n := |steps| - 1;
      var b := ReachableInv(steps[..n]);
      var before := Exec(steps[..n]).state;
      StepPreserves(before, steps[n], b);
      c := NextChain(before, steps[n], b);
    }
  }

  /** First in, first out, in every interleaving: what pop returned, followed by what is still
      on the way from head to tail, is the order of the tail exchanges. No step touched a
      freed node, and no node, the stub included, is in the chain twice. */
  lemma {:induction false} Fifo<M>(steps: seq<Step<M>>, s: State<M>)
    requires Exec(steps) == Reached(s)
    ensures !s.fault
    ensures exists c: seq<Node> ::
      && c != [] && c[0] == s.head && c[|c| - 1] == s.tail && ChainInv(s, c)
      && (forall i, j :: 0 <= i < j < |c| ==> c[i] != c[j])
      && s.exchanged == s.popped + Payload(s.data, c)
  {
    var c := ReachableInv(steps);
  }

  /** A node that pop has returned is nobody's business any more: no producer is going to
      write to it or to make it reachable, so it can be freed and reused at once. */
  lemma {:induction false} ReturnedNodeIsPrivate<M>(steps: seq<Step<M>>, s: State<M>)
    requires Exec(steps) == Reached(s) && s.consumer.Returned?
    ensures s.consumer.h.Msg? && s.head != s.consumer.h && s.tail != s.consumer.h
    ensures forall p :: !At(s.producers, p).Idle? ==> At(s.producers, p).node != s.consumer.h
    ensures forall p :: At(s.producers, p).Linking? ==> At(s.producers, p).prev != s.consumer.h
  {
    var c := ReachableInv(steps);
  }
}
