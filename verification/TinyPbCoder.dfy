/** The TinyPB coder at work on connection buffers. */
module TinyPbCoder {
  import opened Bits
  import opened Common
  import opened TcpBuffers
  import opened TinyPb
  import TinyPbStream
  import Crc

  // ---------------------------------------------------------------------------------------
  // Decoding
  // ---------------------------------------------------------------------------------------

  /** Decodes what is readable, in place. */
  method Decode(b: TcpBuffer) returns (messages: seq<Message>, fatal: bool)
    requires b.Valid()
    modifies b`readIndex, b`writeIndex
    ensures b.Valid()
    ensures TinyPbStream.Decoded(messages, fatal, b.Contents())
         == TinyPbStream.Decode(old(b.Contents()))
  {
    hide TinyPbStream.Turn, TinyPbStream.Decode;
    messages, fatal := [], false;
    ghost var all := TinyPbStream.Decode(b.Contents());
    assert TinyPbStream.After([], all).messages == all.messages;
    while b.ReadAble() > 0
      invariant b.Valid() && !fatal
      invariant all == TinyPbStream.After(messages, TinyPbStream.Decode(b.Contents()))
      decreases b.ReadAble()
    {
      var data := b.buffer[b.readIndex..b.writeIndex];
      TinyPbStream.DecodeTurn(messages, data);
      var o := TinyPbStream.Turn(data);
      b.Consume(o.used);
      match o
      case Drop(_) =>
      case Wait(_) =>
        return;
      case Bad(_) =>
        fatal := true;
        return;
      case Good(_, m) =>
        messages := messages + [m];
    }
    TinyPbStream.DecodeNothing(messages);
    assert b.Contents() == [];
  }

  // ---------------------------------------------------------------------------------------
  // Encoding
  // ---------------------------------------------------------------------------------------

  /** Copies bytes to offset `p` and returns the offset behind them. */
  method AppendTo(buf: array<byte>, p: nat, data: seq<byte>) returns (q: nat)
    requires p + |data| <= buf.Length
    modifies buf
    ensures q == p + |data|
    ensures buf[..p] == old(buf[..p]) && buf[p..q] == data
  {
    forall i | 0 <= i < |data| {
      buf[p + i] := data[i];
    }
    q := p + |data|;
  }

  /** Writes the fields of a frame one after the other behind the readable bytes. */
  method WriteFrame(buf: array<byte>, start: nat, m: Message) returns (end: nat, checksum: int32)
    requires m.msgId != [] && InLimit(m) && start + PacketSize(m) <= buf.Length
    modifies buf
    ensures end == start + |Frame(m)|
    ensures buf[..start] == old(buf[..start]) && buf[start..end] == Frame(m)
    ensures checksum == Checksum(Body(m))
  {
    hide Checksum, WriteInt32;
    ghost var front := buf[..start];
    var p := AppendTo(buf, start, [PB_START] + WriteInt32(PacketSize(m)));
    ghost var done := buf[start..p];
    assert buf[..p] == front + done;
    p, done := AppendMore(buf, start, p, front, done, WriteInt32(|m.msgId|));
    p, done := AppendMore(buf, start, p, front, done, m.msgId);
    p, done := AppendMore(buf, start, p, front, done, WriteInt32(|m.methodName|));
    p, done := AppendMore(buf, start, p, front, done, m.methodName);
    p, done := AppendMore(buf, start, p, front, done, WriteInt32(m.errCode));
    p, done := AppendMore(buf, start, p, front, done, WriteInt32(|m.errInfo|));
    p, done := AppendMore(buf, start, p, front, done, m.errInfo);
    p, done := AppendMore(buf, start, p, front, done, m.pbData);
    assert done == Body(m);
    checksum := CalculateChecksum(buf[start..p]);
    p, done := AppendMore(buf, start, p, front, done, WriteInt32(checksum));
    p, done := AppendMore(buf, start, p, front, done, [PB_END]);
    end := p;
  }

  /** The checksum as the coder computes it. */
  method CalculateChecksum(data: seq<byte>) returns (checksum: int32)
    ensures checksum == Checksum(data)
  {
    hide Crc.Crc;
    var crc := Crc.Calculate(data, Crc.CRC_32);
    checksum := Signed(Crc.Value(crc));
  }

  /** Extends the bytes `done`, written since `start`, by `data`. */
  method AppendMore(buf: array<byte>, ghost start: nat, p: nat,
                    ghost front: seq<byte>, ghost done: seq<byte>, data: seq<byte>)
    returns (q: nat, ghost now: seq<byte>)
    requires start <= p && p + |data| <= buf.Length
    requires buf[..p] == front + done && |front| == start
    modifies buf
    ensures q == p + |data| && now == done + data && buf[..q] == front + now
    ensures buf[..start] == front && buf[start..q] == now
  {
    q := AppendTo(buf, p, data);
    now := done + data;
    assert buf[..q] == buf[..p] + buf[p..q];
    assert buf[..start] == buf[..q][..start] && buf[start..q] == buf[..q][start..];
  }

  /** The frames of the first messages; a message of another protocol has none. */
  function Frames(messages: seq<Option<Message>>): seq<byte>
    requires forall m <- messages :: m.Some? ==> InLimit(m.value)
  {
    if messages == [] then [] else
    var last := messages[|messages| - 1];
    Frames(messages[..|messages| - 1]) + (if last.Some? then Frame(last.value) else [])
  }

  lemma NoFrames()
    ensures Frames([]) == []
  {
  }

  lemma FramesStep(messages: seq<Option<Message>>, i: nat)
    requires i < |messages| && forall m <- messages[..i + 1] :: m.Some? ==> InLimit(m.value)
    ensures Frames(messages[..i + 1])
         == Frames(messages[..i]) + (if messages[i].Some? then Frame(messages[i].value) else [])
  {
    hide Frame, InLimit;
    assert messages[..i + 1][..i] == messages[..i];
  }

  /** Encodes a batch of messages, in order, behind what the buffer holds. Messages of another
      protocol are skipped. On failure the frames already written stay in the buffer, and the
      message that failed is too large or does not fit. */
  method Encode(messages: array<Option<Message>>, out: TcpBuffer) returns (ok: bool, ghost count: nat)
    requires out.Valid()
    modifies messages, out, out.buffer
    ensures out.Valid() && count <= messages.Length && (ok <==> count == messages.Length)
    ensures forall i :: 0 <= i < count && old(messages[i]).Some? ==>
      InLimit(old(messages[i]).value) && messages[i] == Some(Stamped(old(messages[i]).value))
    ensures forall i :: 0 <= i < count && old(messages[i]).None? ==> messages[i].None?
    ensures forall i :: count < i < messages.Length ==> messages[i] == old(messages[i])
    ensures out.Contents() == old(out.Contents()) + Frames(old(messages[..])[..count])
    ensures !ok ==> old(messages[count]).Some? && messages[count] == Some(WithId(old(messages[count]).value))
    ensures !ok ==> var n := PacketSize(WithId(old(messages[count]).value));
      n > MAX_PACKET_SIZE || |out.Contents()| + n > MAX_BUFFER_SIZE - PREPEND_SIZE
  {
    hide Frame, Frames, Stamped, InLimit, PacketSize, WithId;
    ghost var given := messages[..];
    count := 0;
    NoFrames();
    assert given[..0] == [];
    for i := 0 to messages.Length
      invariant out.Valid() && (out.buffer == old(out.buffer) || fresh(out.buffer))
      invariant count == i
      invariant forall j :: 0 <= j < i && given[j].Some? ==>
        InLimit(given[j].value) && messages[j] == Some(Stamped(given[j].value))
      invariant forall j :: 0 <= j < i && given[j].None? ==> messages[j].None?
      invariant forall j :: i <= j < messages.Length ==> messages[j] == given[j]
      invariant out.Contents() == old(out.Contents()) + Frames(given[..i])
    {
      ok := EncodeAt(messages, i, out);
      if !ok {
        return;
      }
      FramesStep(given, i);
      count := i + 1;
    }
    assert given[..messages.Length] == given;
    ok := true;
  }

  /** Encodes the message at `i`, if it is one of this protocol. */
  method EncodeAt(messages: array<Option<Message>>, i: nat, out: TcpBuffer) returns (ok: bool)
    requires out.Valid() && i < messages.Length
    modifies messages, out, out.buffer
    ensures out.Valid() && (out.buffer == old(out.buffer) || fresh(out.buffer))
    ensures forall j :: 0 <= j < messages.Length && j != i ==> messages[j] == old(messages[j])
    ensures old(messages[i]).None? ==> ok && messages[i].None? && out.Contents() == old(out.Contents())
    ensures ok && old(messages[i]).Some? ==>
      var m := old(messages[i]).value;
      InLimit(m) && messages[i] == Some(Stamped(m)) && out.Contents() == old(out.Contents()) + Frame(m)
    ensures !ok ==>
      && old(messages[i]).Some? && messages[i] == Some(WithId(old(messages[i]).value))
      && out.Contents() == old(out.Contents())
      && var n := PacketSize(messages[i].value);
      n > MAX_PACKET_SIZE || |out.Contents()| + n > MAX_BUFFER_SIZE - PREPEND_SIZE
  {
    hide Frame, Stamped, InLimit, PacketSize, WithId;
    ok := true;
    if messages[i].Some? {
      var m;
      ok, m := EncodeOne(messages[i].value, out);
      messages[i] := Some(m);
    }
  }

  method WriteInto(w: Message, out: TcpBuffer) returns (end: nat, checksum: int32)
    requires out.Valid() && w.msgId != [] && InLimit(w) && PacketSize(w) <= out.WriteAble()
    modifies out.buffer
    ensures out.Contents() == old(out.Contents())
    ensures end == out.writeIndex + |Frame(w)| && out.buffer[out.writeIndex..end] == Frame(w)
    ensures checksum == Checksum(Body(w))
  {
    hide Frame, Body, Checksum;
    end, checksum := WriteFrame(out.buffer, out.writeIndex, w);
    assert out.Contents() == out.buffer[..out.writeIndex][out.readIndex..];
    assert old(out.Contents()) == old(out.buffer[..out.writeIndex])[out.readIndex..];
  }

  /** Encodes one message and returns it as it is then: with an identifier, and when it was
      written also with its lengths and its checksum. */
  method EncodeOne(given: Message, out: TcpBuffer) returns (ok: bool, m: Message)
    requires out.Valid()
    modifies out, out.buffer
    ensures out.Valid() && (out.buffer == old(out.buffer) || fresh(out.buffer))
    ensures ok ==> InLimit(given) && m == Stamped(given) && out.Contents() == old(out.Contents()) + Frame(given)
    ensures !ok ==> m == WithId(given) && out.Contents() == old(out.Contents())
    ensures !ok ==> var n := PacketSize(WithId(given));
      n > MAX_PACKET_SIZE || |out.Contents()| + n > MAX_BUFFER_SIZE - PREPEND_SIZE
  {
    hide Body, Checksum, WriteInt32;
    m := WithId(given);
    var packetSize := PacketSize(m);
    if packetSize > MAX_PACKET_SIZE || packetSize > 0x7FFF_FFFF {
      return false, m;
    }
    ok := out.EnsureWritable(packetSize);
    if ok {
      var end, checksum := WriteInto(m, out);
      out.MoveWriteIndex(packetSize);
      m := m.(pkLen := packetSize, msgIdLen := |m.msgId|, methodNameLen := |m.methodName|,
              errInfoLen := |m.errInfo|, checkSum := checksum, parseSuccess := true);
    }
  }

  // ---------------------------------------------------------------------------------------
  // Encoding on one side, decoding on the other
  // ---------------------------------------------------------------------------------------

  function Sent(messages: seq<Option<Message>>): seq<Message>
    requires forall m <- messages :: m.Some? ==> InLimit(m.value)
  {
    if messages == [] then [] else
    var last := messages[|messages| - 1];
    Sent(messages[..|messages| - 1]) + (if last.Some? then [Stamped(last.value)] else [])
  }

  lemma DecodeOneFrame(m: Message)
    requires InLimit(m)
    ensures TinyPbStream.Decode(Frame(m)) == TinyPbStream.Decoded([Stamped(m)], false, [])
  {
    hide Frame, Stamped, TinyPbStream.Turn;
    TinyPbStream.TurnPrinted(m, []);
    assert Frame(m) + [] == Frame(m);
  }

  /** What a batch puts on the wire, cut into any reads, decodes to the batch as encoding left
      it, without a fatal verdict and without a leftover. */
  lemma {:induction false} BatchRoundTrip(messages: seq<Option<Message>>, chunks: seq<seq<byte>>)
    requires forall m <- messages :: m.Some? ==> InLimit(m.value)
    requires TinyPbStream.Flatten(chunks) == Frames(messages)
    ensures TinyPbStream.DecodeChunks(chunks) == TinyPbStream.Decoded(Sent(messages), false, [])
    decreases |messages|
  {
    TinyPbStream.ChunkingIrrelevant(chunks);
    if messages != [] {
      var n := |messages| - 1;
      var front := Frames(messages[..n]);
      assert TinyPbStream.Flatten([front]) == front;
      BatchRoundTrip(messages[..n], [front]);
      TinyPbStream.ChunkingIrrelevant([front]);
      if messages[n].Some? {
        var f := Frame(messages[n].value);
        TinyPbStream.CutIndependence(front, f);
        DecodeOneFrame(messages[n].value);
        assert [] + f == f;
      } else {
        assert front + [] == front;
        assert Sent(messages[..n]) + [] == Sent(messages[..n]);
      }
    }
  }
}
