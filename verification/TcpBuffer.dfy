/** The connection buffer: bytes waiting between a read and a write index inside a storage
    block that is compacted or grown on demand. */
module TcpBuffers {
  import opened Bits
  import opened Common

  const PREPEND_SIZE := 8
  const MAX_BUFFER_SIZE := 64 * 1024 * 1024

  /** Whether room for `len` more bytes can be made, given how many bytes are readable, how
      many are writable behind them and how many lie in front of them. */
  predicate Fits(readable: nat, writable: nat, prependable: nat, len: nat) {
    && readable + len <= MAX_BUFFER_SIZE
    && (len <= writable
        || len + PREPEND_SIZE <= writable + prependable
        || readable + len <= MAX_BUFFER_SIZE - PREPEND_SIZE)
  }

  class TcpBuffer {
    var buffer: array<byte>
    var readIndex: nat
    var writeIndex: nat

    ghost predicate Valid()
      reads this
    {
      PREPEND_SIZE <= readIndex <= writeIndex <= buffer.Length
    }

    /** The bytes in the queue that the buffer implements, oldest first. */
    ghost function Contents(): (s: seq<byte>)
      requires Valid()
      reads this, buffer
    {
      buffer[readIndex..writeIndex]
    }

    function ReadAble(): nat
      requires Valid()
      reads this
    {
      writeIndex - readIndex
    }

    function WriteAble(): nat
      requires Valid()
      reads this
    {
      buffer.Length - writeIndex
    }

    constructor (size: nat)
      ensures Valid() && fresh(buffer) && Contents() == [] && buffer.Length == PREPEND_SIZE + size
    {
      buffer := new byte[PREPEND_SIZE + size](_ => 0);
      readIndex, writeIndex := PREPEND_SIZE, PREPEND_SIZE;
    }

    /** Moves the readable bytes to the front of the storage block. */
    method Compact()
      requires Valid()
      modifies this`readIndex, this`writeIndex, buffer
      ensures Valid() && readIndex == PREPEND_SIZE
      ensures Contents() == old(Contents())
    {
      var readable := buffer[readIndex..writeIndex];
      forall i | 0 <= i < |readable| {
        buffer[PREPEND_SIZE + i] := readable[i];
      }
      readIndex := PREPEND_SIZE;
      writeIndex := readIndex + |readable|;
    }

    /** Replaces the storage block by one of the given size, with the readable bytes at its
        front. */
    method Reallocate(size: nat)
      requires Valid() && PREPEND_SIZE + ReadAble() <= size
      modifies this
      ensures Valid() && fresh(buffer) && buffer.Length == size && readIndex == PREPEND_SIZE
      ensures Contents() == old(Contents())
    {
      var readable := buffer[readIndex..writeIndex];
      var tmp := new byte[size](_ => 0);
      forall i | 0 <= i < |readable| {
        tmp[PREPEND_SIZE + i] := readable[i];
      }
      buffer := tmp;
      readIndex := PREPEND_SIZE;
      writeIndex := readIndex + |readable|;
    }

    method EnsureWritable(len: nat) returns (ok: bool)
      requires Valid()
      modifies this, buffer
      ensures Valid() && Contents() == old(Contents())
      ensures ok == old(Fits(ReadAble(), WriteAble(), readIndex, len))
      ensures ok ==> len <= WriteAble()
      ensures !ok ==> unchanged(this) && unchanged(old(buffer))
      ensures buffer == old(buffer) || (fresh(buffer) && buffer.Length <= MAX_BUFFER_SIZE)
    {
      if len > MAX_BUFFER_SIZE || ReadAble() > MAX_BUFFER_SIZE - len {
        return false;
      }
      if WriteAble() < len {
        ok := MakeSpace(len);
      } else {
        ok := true;
      }
    }

    method MakeSpace(len: nat) returns (ok: bool)
      requires Valid()
      modifies this, buffer
      ensures Valid() && Contents() == old(Contents())
      ensures ok == old(len == 0 || len + PREPEND_SIZE <= WriteAble() + readIndex
                        || ReadAble() + len <= MAX_BUFFER_SIZE - PREPEND_SIZE)
      ensures ok ==> len <= WriteAble()
      ensures !ok ==> unchanged(this) && unchanged(old(buffer))
      ensures buffer == old(buffer) || (fresh(buffer) && buffer.Length <= MAX_BUFFER_SIZE)
      ensures buffer != old(buffer) <==> ok && len > 0 && old(WriteAble() + readIndex) < len + PREPEND_SIZE
      ensures buffer != old(buffer) ==>
        buffer.Length == Max(old(ReadAble()) + len + PREPEND_SIZE, Min(2 * old(buffer).Length, MAX_BUFFER_SIZE))
    {
      if len == 0 {
        return true;
      }
      if WriteAble() + readIndex >= len + PREPEND_SIZE {
        Compact();
        return true;
      }
      var readable := ReadAble();
      if readable > MAX_BUFFER_SIZE - PREPEND_SIZE || len > MAX_BUFFER_SIZE - PREPEND_SIZE - readable {
        return false;
      }
      var required := PREPEND_SIZE + readable + len;
      var newSize := Max(required, Min(buffer.Length * 2, MAX_BUFFER_SIZE));
      if newSize > MAX_BUFFER_SIZE {
        return false;
      }
      Compact();
      Reallocate(newSize);
      ok := WriteAble() >= len;
    }

    method Append(data: seq<byte>) returns (ok: bool)
      requires Valid()
      modifies this, buffer
      ensures Valid()
      ensures ok == old(data == [] || Fits(ReadAble(), WriteAble(), readIndex, |data|))
      ensures Contents() == if ok then old(Contents()) + data else old(Contents())
      ensures !ok ==> unchanged(this) && unchanged(old(buffer))
      ensures !ok ==> |Contents()| + |data| > MAX_BUFFER_SIZE - PREPEND_SIZE
      ensures buffer == old(buffer) || (fresh(buffer) && buffer.Length <= MAX_BUFFER_SIZE)
    {
      if |data| == 0 {
        return true;
      }
      ok := EnsureWritable(|data|);
      if ok {
        CopyIn(data);
      }
    }

    method CopyIn(data: seq<byte>)
      requires Valid() && |data| <= WriteAble()
      modifies this`writeIndex, buffer
      ensures Valid() && Contents() == old(Contents()) + data
    {
      forall i | 0 <= i < |data| {
        buffer[writeIndex + i] := data[i];
      }
      writeIndex := writeIndex + |data|;
    }

    method Consume(len: nat)
      requires Valid()
      modifies this`readIndex, this`writeIndex
      ensures Valid()
      ensures Contents() == old(Contents())[Min(len, old(ReadAble()))..]
    {
      if len < ReadAble() {
        readIndex := readIndex + len;
      } else {
        readIndex, writeIndex := PREPEND_SIZE, PREPEND_SIZE;
      }
    }

    method Retrieve(len: nat) returns (result: seq<byte>)
      requires Valid()
      modifies this`readIndex, this`writeIndex
      ensures Valid()
      ensures |result| == Min(len, old(ReadAble()))
      ensures result + Contents() == old(Contents())
    {
      var actual := Min(len, ReadAble());
      result := buffer[readIndex..readIndex + actual];
      ghost var was := Contents();
      assert result == was[..actual];
      Consume(actual);
      Rejoin(was, actual);
    }

    /** Writes straight into the storage block behind the readable bytes. */
    method WriteDirect(data: seq<byte>)
      requires Valid() && |data| <= WriteAble()
      modifies buffer
      ensures Contents() == old(Contents()) && buffer[writeIndex..writeIndex + |data|] == data
    {
      forall i | 0 <= i < |data| {
        buffer[writeIndex + i] := data[i];
      }
    }

    /** After writing directly behind the readable bytes, makes them readable; never past the
        end of the storage block. */
    method MoveWriteIndex(size: nat)
      requires Valid()
      modifies this`writeIndex
      ensures Valid()
      ensures Contents() == old(Contents())
                          + buffer[old(writeIndex)..old(writeIndex) + Min(size, old(WriteAble()))]
    {
      writeIndex := writeIndex + Min(size, WriteAble());
    }

    method ResizeBuffer(newSize: nat)
      requires Valid() && PREPEND_SIZE + ReadAble() <= newSize
      modifies this
      ensures Valid() && fresh(buffer) && buffer.Length == newSize
      ensures Contents() == old(Contents())
    {
      Reallocate(newSize);
    }

    method AdjustBuffer()
      requires Valid()
      modifies this`readIndex, this`writeIndex, buffer
      ensures Valid() && Contents() == old(Contents())
      ensures readIndex == PREPEND_SIZE || readIndex <= ReadAble() / 2
    {
      if readIndex > PREPEND_SIZE && readIndex > ReadAble() / 2 {
        Compact();
      }
    }

    method Shrink(reserve: nat)
      requires Valid()
      modifies this
      ensures Valid() && fresh(buffer) && Contents() == old(Contents())
      ensures WriteAble() == reserve && readIndex == PREPEND_SIZE
    {
      Reallocate(PREPEND_SIZE + ReadAble() + reserve);
    }
  }

  lemma Rejoin<T>(s: seq<T>, k: nat)
    requires k <= |s|
    ensures s[..k] + s[k..] == s
  {
  }

  // ---------------------------------------------------------------------------------------
  // Whole runs
  // ---------------------------------------------------------------------------------------

  datatype Op =
    | Append(data: seq<byte>)
    | WriteDirect(data: seq<byte>)
    | Consume(len: nat)
    | Retrieve(len: nat)
    | Adjust
    | Shrink(reserve: nat)
    | Resize(extra: nat)

  /** What an operation answers: whether the buffer had room, and the bytes it hands out. */
  datatype Reply = Reply(accepted: bool, bytes: seq<byte>)

  /** The byte queue that the buffer stands for. */
  function QueueStep(queue: seq<byte>, op: Op, reply: Reply): seq<byte> {
    match op
    case Append(data) => if reply.accepted then queue + data else queue
    case WriteDirect(data) => if reply.accepted then queue + data else queue
    case Consume(len) => queue[Min(len, |queue|)..]
    case Retrieve(len) => queue[Min(len, |queue|)..]
    case Adjust => queue
    case Shrink(_) => queue
    case Resize(_) => queue
  }

  /** The answers that a queue may give: refusals only when the bytes would not fit into the
      largest storage block with its prepend area, acceptance only within the limit, and the
      bytes from the front. */
  ghost predicate Answers(queue: seq<byte>, op: Op, reply: Reply) {
    match op
    case Append(data) =>
      && reply.bytes == []
      && (!reply.accepted ==> |queue| + |data| > MAX_BUFFER_SIZE - PREPEND_SIZE)
      && (reply.accepted ==> data == [] || |queue| + |data| <= MAX_BUFFER_SIZE)
    case WriteDirect(data) =>
      && reply.bytes == []
      && (!reply.accepted ==> |queue| + |data| > MAX_BUFFER_SIZE - PREPEND_SIZE)
      && (reply.accepted ==> |queue| + |data| <= MAX_BUFFER_SIZE)
    case Retrieve(len) => reply == Reply(true, queue[..Min(len, |queue|)])
    case _ => reply == Reply(true, [])
  }

  function QueueRun(queue: seq<byte>, ops: seq<Op>, replies: seq<Reply>): seq<byte>
    requires |ops| == |replies|
  {
    if ops == [] then queue
    else
      var n := |ops| - 1;
      QueueStep(QueueRun(queue, ops[..n], replies[..n]), ops[n], replies[n])
  }

  /** The bytes that an operation puts in and takes out. */
  function PutIn(op: Op, reply: Reply): seq<byte> {
    if (op.Append? || op.WriteDirect?) && reply.accepted then op.data else []
  }

  function TakenOut(queue: seq<byte>, op: Op): seq<byte> {
    if op.Consume? || op.Retrieve? then queue[..Min(op.len, |queue|)] else []
  }

  function AllPutIn(ops: seq<Op>, replies: seq<Reply>): seq<byte>
    requires |ops| == |replies|
  {
    if ops == [] then []
    else
      var n := |ops| - 1;
      AllPutIn(ops[..n], replies[..n]) + PutIn(ops[n], replies[n])
  }

  function AllTakenOut(queue: seq<byte>, ops: seq<Op>, replies: seq<Reply>): seq<byte>
    requires |ops| == |replies|
  {
    if ops == [] then []
    else
      var n := |ops| - 1;
      AllTakenOut(queue, ops[..n], replies[..n]) + TakenOut(QueueRun(queue, ops[..n], replies[..n]), ops[n])
  }

  /** Over every run, what went in comes out or is still there, byte for byte and in order. */
  lemma {:induction false} NothingLost(queue: seq<byte>, ops: seq<Op>, replies: seq<Reply>)
    requires |ops| == |replies|
    ensures queue + AllPutIn(ops, replies) == AllTakenOut(queue, ops, replies) + QueueRun(queue, ops, replies)
    decreases |ops|
  {
    if ops == [] {
      assert queue + [] == [] + queue;
    } else {
      var n := |ops| - 1;
      var before := QueueRun(queue, ops[..n], replies[..n]);
      NothingLost(queue, ops[..n], replies[..n]);
      StepLosesNothing(before, ops[n], replies[n]);
      Regroup(queue, AllPutIn(ops[..n], replies[..n]), PutIn(ops[n], replies[n]),
              AllTakenOut(queue, ops[..n], replies[..n]), before,
              TakenOut(before, ops[n]), QueueStep(before, ops[n], replies[n]));
    }
  }

  lemma StepLosesNothing(queue: seq<byte>, op: Op, reply: Reply)
    ensures queue + PutIn(op, reply) == TakenOut(queue, op) + QueueStep(queue, op, reply)
  {
  }

  lemma Regroup<T>(a: seq<T>, b: seq<T>, c: seq<T>, x: seq<T>, y: seq<T>, z: seq<T>, w: seq<T>)
    requires a + b == x + y && y + c == z + w
    ensures a + (b + c) == x + z + w
  {
    assert a + (b + c) == a + b + c == x + (y + c) == x + (z + w);
  }

  /** Asks for room, writes straight into the storage block and moves the write index. */
  method WriteBehind(b: TcpBuffer, data: seq<byte>) returns (ok: bool)
    requires b.Valid()
    modifies b, b.buffer
    ensures b.Valid() && (b.buffer == old(b.buffer) || fresh(b.buffer))
    ensures b.Contents() == if ok then old(b.Contents()) + data else old(b.Contents())
    ensures !ok ==> |b.Contents()| + |data| > MAX_BUFFER_SIZE - PREPEND_SIZE
    ensures ok ==> |b.Contents()| <= MAX_BUFFER_SIZE
  {
    ok := b.EnsureWritable(|data|);
    if ok {
      b.WriteDirect(data);
      b.MoveWriteIndex(|data|);
    }
  }

  method Perform(b: TcpBuffer, op: Op) returns (reply: Reply)
    requires b.Valid()
    modifies b, b.buffer
    ensures b.Valid() && (b.buffer == old(b.buffer) || fresh(b.buffer))
    ensures b.Contents() == QueueStep(old(b.Contents()), op, reply)
    ensures Answers(old(b.Contents()), op, reply)
  {
    reply := Reply(true, []);
    match op
    case Append(data) =>
      var ok := b.Append(data);
      reply := Reply(ok, []);
    case WriteDirect(data) =>
      var ok := WriteBehind(b, data);
      reply := Reply(ok, []);
    case Consume(len) =>
      b.Consume(len);
    case Retrieve(len) =>
      ghost var was := b.Contents();
      var bytes := b.Retrieve(len);
      assert was[..|bytes|] == bytes && was[|bytes|..] == b.Contents();
      reply := Reply(true, bytes);
    case Adjust =>
      b.AdjustBuffer();
    case Shrink(reserve) =>
      b.Shrink(reserve);
    case Resize(extra) =>
      b.ResizeBuffer(PREPEND_SIZE + b.ReadAble() + extra);
  }

  /** Every run of operations on a buffer does to its contents what it does to a queue, and
      gives the answers of one. */
  method PerformAll(b: TcpBuffer, ops: seq<Op>) returns (replies: seq<Reply>)
    requires b.Valid()
    modifies b, b.buffer
    ensures b.Valid() && |replies| == |ops|
    ensures b.Contents() == QueueRun(old(b.Contents()), ops, replies)
    ensures forall i :: 0 <= i < |ops| ==>
      Answers(QueueRun(old(b.Contents()), ops[..i], replies[..i]), ops[i], replies[i])
  {
    hide Answers, QueueStep, QueueRun;
    NothingRun(b.Contents());
    assert ops[..0] == [];
    replies := [];
    ghost var start := b.Contents();
    for i := 0 to |ops|
      invariant b.Valid() && |replies| == i
      invariant b.buffer == old(b.buffer) || fresh(b.buffer)
      invariant b.Contents() == QueueRun(start, ops[..i], replies)
      invariant AllAnswered(start, ops[..i], replies)
    {
      var reply := Perform(b, ops[i]);
      RunStep(start, ops, replies, i, reply);
      replies := replies + [reply];
    }
    assert ops[..|ops|] == ops;
    EachAnswered(start, ops, replies);
  }

  ghost predicate AllAnswered(start: seq<byte>, ops: seq<Op>, replies: seq<Reply>)
    requires |ops| == |replies|
  {
    ops == [] ||
    var n := |ops| - 1;
    && AllAnswered(start, ops[..n], replies[..n])
    && Answers(QueueRun(start, ops[..n], replies[..n]), ops[n], replies[n])
  }

  lemma NothingRun(start: seq<byte>)
    ensures QueueRun(start, [], []) == start
  {
  }

  lemma RunStep(start: seq<byte>, ops: seq<Op>, replies: seq<Reply>, i: nat, reply: Reply)
    requires |replies| == i < |ops|
    ensures var queue := QueueRun(start, ops[..i], replies);
      && QueueRun(start, ops[..i + 1], replies + [reply]) == QueueStep(queue, ops[i], reply)
      && (AllAnswered(start, ops[..i], replies) && Answers(queue, ops[i], reply) ==>
            AllAnswered(start, ops[..i + 1], replies + [reply]))
  {
    hide Answers, QueueStep;
    assert ops[..i + 1][..i] == ops[..i] && (replies + [reply])[..i] == replies;
  }

  lemma {:induction false} EachAnswered(start: seq<byte>, ops: seq<Op>, replies: seq<Reply>)
    requires |ops| == |replies| && AllAnswered(start, ops, replies)
    ensures forall i :: 0 <= i < |ops| ==> Answers(QueueRun(start, ops[..i], replies[..i]), ops[i], replies[i])
    decreases |ops|
  {
    hide Answers, QueueRun;
    if ops != [] {
      var n := |ops| - 1;
      EachAnswered(start, ops[..n], replies[..n]);
      forall i | 0 <= i < n
        ensures Answers(QueueRun(start, ops[..i], replies[..i]), ops[i], replies[i])
      {
        assert ops[..n][..i] == ops[..i] && replies[..n][..i] == replies[..i];
        assert ops[..n][i] == ops[i] && replies[..n][i] == replies[i];
      }
    }
  }
}
