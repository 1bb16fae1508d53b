/** The TinyPB frame format, as functions on byte sequences: what a message is printed as,
    what a stream of bytes is decoded to, and how the two relate. */
module TinyPb {
  import opened Bits
  import opened Common
  import Crc

  const PB_START: byte := 0x02
  const PB_END: byte := 0x03
  const HEADER_SIZE := 26
  const MAX_PACKET_SIZE := 1024 * 1024

  /** "default_msg_id" */
  const DEFAULT_MSG_ID: seq<byte> :=
    [100, 101, 102, 97, 117, 108, 116, 95, 109, 115, 103, 95, 105, 100]

  type int32 = x: int | -0x8000_0000 <= x < 0x8000_0000

  datatype Message = Message(
    msgId: seq<byte>,
    methodName: seq<byte>,
    errCode: int32,
    errInfo: seq<byte>,
    pbData: seq<byte>,
    pkLen: int32,
    msgIdLen: int32,
    methodNameLen: int32,
    errInfoLen: int32,
    checkSum: int32,
    parseSuccess: bool
  )

  // ---------------------------------------------------------------------------------------
  // Integers in network byte order
  // ---------------------------------------------------------------------------------------

  function Signed(u: int): int32
    requires 0 <= u < 0x1_0000_0000
  {
    if u < 0x8000_0000 then u else u - 0x1_0000_0000
  }

  function Unsigned(v: int32): (u: int)
    ensures 0 <= u < 0x1_0000_0000
  {
    if v < 0 then v + 0x1_0000_0000 else v
  }

  function WriteInt32(v: int32): (s: seq<byte>)
    ensures |s| == 4
  {
    var u := Unsigned(v);
    var high := u / 0x1_0000;
    var low := u % 0x1_0000;
    [high / 0x100, high % 0x100, low / 0x100, low % 0x100]
  }

  function ReadInt32(s: seq<byte>): int32
    requires |s| == 4
  {
    var high := s[0] as int * 0x100 + s[1] as int;
    var low := s[2] as int * 0x100 + s[3] as int;
    Signed(high * 0x1_0000 + low)
  }

  lemma ReadWriteInt32(v: int32)
    ensures ReadInt32(WriteInt32(v)) == v
  {
  }

  lemma RecomposeBytes(high: int, low: int)
    requires 0 <= low < 0x100
    ensures (high * 0x100 + low) / 0x100 == high && (high * 0x100 + low) % 0x100 == low
  {
  }

  lemma RecomposeHalves(high: int, low: int)
    requires 0 <= low < 0x1_0000
    ensures (high * 0x1_0000 + low) / 0x1_0000 == high && (high * 0x1_0000 + low) % 0x1_0000 == low
  {
  }

  lemma WriteReadInt32(s: seq<byte>)
    requires |s| == 4
    ensures WriteInt32(ReadInt32(s)) == s
  {
    var high := s[0] as int * 0x100 + s[1] as int;
    var low := s[2] as int * 0x100 + s[3] as int;
    RecomposeBytes(s[0], s[1]);
    RecomposeBytes(s[2], s[3]);
    RecomposeHalves(high, low);
    assert Unsigned(ReadInt32(s)) == high * 0x1_0000 + low;
  }

  function Checksum(data: seq<byte>): int32 {
    Signed(Crc.Value(Crc.Crc(data, Crc.CRC_32)))
  }

  // ---------------------------------------------------------------------------------------
  // Printing
  // ---------------------------------------------------------------------------------------

  function PacketSize(m: Message): nat {
    HEADER_SIZE + |m.msgId| + |m.methodName| + |m.errInfo| + |m.pbData|
  }

  function WithId(m: Message): Message {
    if m.msgId == [] then m.(msgId := DEFAULT_MSG_ID) else m
  }

  predicate InLimit(m: Message) {
    PacketSize(WithId(m)) <= MAX_PACKET_SIZE
  }

  function Body(m: Message): (s: seq<byte>)
    requires PacketSize(m) <= MAX_PACKET_SIZE
    ensures |s| == PacketSize(m) - 5
  {
    [PB_START] + WriteInt32(PacketSize(m)) +
    WriteInt32(|m.msgId|) + m.msgId +
    WriteInt32(|m.methodName|) + m.methodName +
    WriteInt32(m.errCode) +
    WriteInt32(|m.errInfo|) + m.errInfo +
    m.pbData
  }

  /** The message with its derived fields set. */
  function Derived(m: Message): Message
    requires PacketSize(m) <= MAX_PACKET_SIZE
  {
    m.(pkLen := PacketSize(m), msgIdLen := |m.msgId|, methodNameLen := |m.methodName|,
       errInfoLen := |m.errInfo|, checkSum := Checksum(Body(m)), parseSuccess := true)
  }

  /** The frame of a message as it is, even one without an identifier. */
  function Wire(m: Message): (s: seq<byte>)
    requires PacketSize(m) <= MAX_PACKET_SIZE
    ensures |s| == PacketSize(m)
  {
    Body(m) + WriteInt32(Checksum(Body(m))) + [PB_END]
  }

  /** The message as encoding leaves it: with an identifier, and with the derived fields set. */
  function Stamped(m: Message): Message
    requires InLimit(m)
  {
    Derived(WithId(m))
  }

  /** The frame that encoding writes. */
  function Frame(m: Message): (s: seq<byte>)
    requires InLimit(m)
    ensures |s| == PacketSize(WithId(m))
  {
    Wire(WithId(m))
  }

  // ---------------------------------------------------------------------------------------
  // Parsing one complete frame
  // ---------------------------------------------------------------------------------------

  /** The length field at `at`, if it and the field it announces lie before `end`. */
  function ReadLength(f: seq<byte>, at: nat, end: nat): (r: Option<nat>)
    requires at <= end <= |f|
    ensures r.Some? ==> at + 4 + r.value <= end
  {
    if end - at < 4 then None
    else
      var value := ReadInt32(f[at..at + 4]);
      if value < 0 || value > end - (at + 4) then None else Some(value)
  }

  /** A start byte, a length field that counts the whole frame, and an end byte. */
  predicate Framed(f: seq<byte>) {
    && HEADER_SIZE <= |f| <= MAX_PACKET_SIZE
    && f[0] == PB_START
    && ReadInt32(f[1..5]) == |f|
    && f[|f| - 1] == PB_END
  }

  function Parse(f: seq<byte>): Option<Message>
    requires HEADER_SIZE <= |f| <= MAX_PACKET_SIZE
  {
    var end := |f| - 1;
    var idLen := ReadLength(f, 5, end);
    if idLen.None? then None else
    var a := 9 + idLen.value;
    var methodLen := ReadLength(f, a, end);
    if methodLen.None? then None else
    var b := a + 4 + methodLen.value;
    if end - b < 4 then None else
    var infoLen := ReadLength(f, b + 4, end);
    if infoLen.None? then None else
    var c := b + 8 + infoLen.value;
    if end - c < 4 || ReadInt32(f[end - 4..end]) != Checksum(f[..end - 4]) then None else
    Some(Message(
      f[9..a], f[a + 4..b], ReadInt32(f[b..b + 4]), f[b + 8..c], f[c..end - 4],
      |f|, idLen.value, methodLen.value, infoLen.value, ReadInt32(f[end - 4..end]), true))
  }

  /** Cuts a frame at the field boundaries: `Pieces` glued together is the frame. */
  function Glue(start: seq<byte>, pk: seq<byte>, w1: seq<byte>, id: seq<byte>, w2: seq<byte>,
                method_: seq<byte>, err: seq<byte>, w3: seq<byte>, info: seq<byte>,
                pb: seq<byte>, sum: seq<byte>, stop: seq<byte>): seq<byte> {
    start + pk + w1 + id + w2 + method_ + err + w3 + info + pb + sum + stop
  }

  lemma GlueParts(start: seq<byte>, pk: seq<byte>, w1: seq<byte>, id: seq<byte>, w2: seq<byte>,
                  method_: seq<byte>, err: seq<byte>, w3: seq<byte>, info: seq<byte>,
                  pb: seq<byte>, sum: seq<byte>, stop: seq<byte>, f: seq<byte>)
    requires |start| == 1 && |pk| == |w1| == |w2| == |err| == |w3| == |sum| == 4 && |stop| == 1
    requires f == Glue(start, pk, w1, id, w2, method_, err, w3, info, pb, sum, stop)
    ensures |f| == 26 + |id| + |method_| + |info| + |pb|
    ensures f[..1] == start && f[1..5] == pk && f[5..9] == w1 && f[9..9 + |id|] == id
    ensures var a := 9 + |id|; f[a..a + 4] == w2 && f[a + 4..a + 4 + |method_|] == method_
    ensures var b := 13 + |id| + |method_|;
      f[b..b + 4] == err && f[b + 4..b + 8] == w3 && f[b + 8..b + 8 + |info|] == info
    ensures var c := 21 + |id| + |method_| + |info|;
      f[c..|f| - 5] == pb && f[|f| - 5..|f| - 1] == sum && f[|f| - 1..] == stop
  {
  }

  /** Where the fields of a frame lie. */
  lemma FrameParts(m: Message, f: seq<byte>)
    requires PacketSize(m) <= MAX_PACKET_SIZE && f == Wire(m)
    ensures |f| == PacketSize(m) && f[0] == PB_START && f[|f| - 1] == PB_END
    ensures f[1..5] == WriteInt32(|f|) && f[5..9] == WriteInt32(|m.msgId|)
    ensures var a := 9 + |m.msgId|;
      && f[9..a] == m.msgId && f[a..a + 4] == WriteInt32(|m.methodName|)
      && var b := a + 4 + |m.methodName|;
      && f[a + 4..b] == m.methodName && f[b..b + 4] == WriteInt32(m.errCode)
      && f[b + 4..b + 8] == WriteInt32(|m.errInfo|)
      && var c := b + 8 + |m.errInfo|;
      && f[b + 8..c] == m.errInfo && f[c..|f| - 5] == m.pbData
      && f[..|f| - 5] == Body(m) && f[|f| - 5..|f| - 1] == WriteInt32(Checksum(Body(m)))
  {
    hide Checksum, WriteInt32;
    var sum := WriteInt32(Checksum(Body(m)));
    var pk, w1 := WriteInt32(PacketSize(m)), WriteInt32(|m.msgId|);
    var w2, w3 := WriteInt32(|m.methodName|), WriteInt32(|m.errInfo|);
    GlueParts([PB_START], pk, w1, m.msgId, w2, m.methodName, WriteInt32(m.errCode),
              w3, m.errInfo, m.pbData, sum, [PB_END], f);
    assert f[0] == f[..1][0] && f[|f| - 1] == f[|f| - 1..][0];
  }

  lemma LengthField(f: seq<byte>, at: nat, end: nat, n: nat)
    requires at + 4 + n <= end <= |f| && n <= MAX_PACKET_SIZE
    requires f[at..at + 4] == WriteInt32(n)
    ensures ReadLength(f, at, end) == Some(n)
  {
    ReadWriteInt32(n);
  }

  lemma FrameReads(m: Message, f: seq<byte>)
    requires PacketSize(m) <= MAX_PACKET_SIZE && f == Wire(m)
    ensures |f| == PacketSize(m) && Framed(f)
    ensures var end := |f| - 1;
      var a := 9 + |m.msgId|;
      var b := a + 4 + |m.methodName|;
      var c := b + 8 + |m.errInfo|;
      && ReadLength(f, 5, end) == Some(|m.msgId|)
      && ReadLength(f, a, end) == Some(|m.methodName|)
      && ReadInt32(f[b..b + 4]) == m.errCode
      && ReadLength(f, b + 4, end) == Some(|m.errInfo|)
      && f[9..a] == m.msgId && f[a + 4..b] == m.methodName && f[b + 8..c] == m.errInfo
      && f[c..end - 4] == m.pbData && f[..end - 4] == Body(m)
      && ReadInt32(f[end - 4..end]) == Checksum(Body(m))
  {
    hide Checksum, WriteInt32, Body;
    FrameParts(m, f);
    LengthField(f, 5, |f| - 1, |m.msgId|);
    LengthField(f, 9 + |m.msgId|, |f| - 1, |m.methodName|);
    LengthField(f, 17 + |m.msgId| + |m.methodName|, |f| - 1, |m.errInfo|);
    ReadWriteInt32(PacketSize(m));
    ReadWriteInt32(m.errCode);
    ReadWriteInt32(Checksum(Body(m)));
  }

  /** The frame of every message within the limit is accepted and parses back to the message,
      with its derived fields; the identifier may be empty. */
  lemma ParseWire(m: Message)
    requires PacketSize(m) <= MAX_PACKET_SIZE
    ensures Framed(Wire(m)) && Parse(Wire(m)) == Some(Derived(m))
  {
    hide Checksum, ReadInt32, WriteInt32, ReadLength, Body;
    FrameReads(m, Wire(m));
  }

  /** A printed frame parses back to the message, with its derived fields. */
  lemma ParsePrinted(m: Message)
    requires InLimit(m)
    ensures Framed(Frame(m)) && Parse(Frame(m)) == Some(Stamped(m))
  {
    hide Wire, Derived, Parse, Framed;
    ParseWire(WithId(m));
  }

  /** Cutting a sequence at field boundaries and gluing the pieces gives it back. */
  lemma CutAndGlue(f: seq<byte>, a: nat, b: nat, c: nat)
    requires 9 <= a && a + 4 <= b && b + 8 <= c <= |f| - 5
    ensures f[..|f| - 5] + f[|f| - 5..|f| - 1] + f[|f| - 1..] == f
    ensures f[..|f| - 5] == f[..1] + f[1..5] + f[5..9] + f[9..a] + f[a..a + 4] + f[a + 4..b]
                          + f[b..b + 4] + f[b + 4..b + 8] + f[b + 8..c] + f[c..|f| - 5]
  {
    assert f[..9] == f[..1] + f[1..5] + f[5..9];
    assert f[..b] == f[..9] + f[9..a] + f[a..a + 4] + f[a + 4..b];
    assert f[..c] == f[..b] + f[b..b + 4] + f[b + 4..b + 8] + f[b + 8..c];
  }

  lemma LengthWritten(f: seq<byte>, at: nat, end: nat)
    requires at <= end <= |f| && ReadLength(f, at, end).Some?
    ensures ReadLength(f, at, end).value < 0x8000_0000
    ensures WriteInt32(ReadLength(f, at, end).value) == f[at..at + 4]
  {
    WriteReadInt32(f[at..at + 4]);
  }

  /** Where the fields of an accepted frame were read, and what their lengths say. */
  lemma ParsedFields(f: seq<byte>)
    requires Framed(f) && Parse(f).Some?
    ensures var m, n := Parse(f).value, |f|;
      var a := 9 + |m.msgId|;
      var b := a + 4 + |m.methodName|;
      var c := b + 8 + |m.errInfo|;
      && c <= n - 5 && PacketSize(m) == n
      && f[9..a] == m.msgId && f[a + 4..b] == m.methodName
      && f[b + 8..c] == m.errInfo && f[c..n - 5] == m.pbData
      && f[5..9] == WriteInt32(|m.msgId|) && f[a..a + 4] == WriteInt32(|m.methodName|)
      && f[b..b + 4] == WriteInt32(m.errCode) && f[b + 4..b + 8] == WriteInt32(|m.errInfo|)
  {
    hide Checksum, ReadInt32, WriteInt32;
    var m, end := Parse(f).value, |f| - 1;
    var a := 9 + |m.msgId|;
    var b := a + 4 + |m.methodName|;
    LengthWritten(f, 5, end);
    LengthWritten(f, a, end);
    LengthWritten(f, b + 4, end);
    WriteReadInt32(f[b..b + 4]);
  }

  /** The body of an accepted frame is the printed body of its message. */
  lemma ReprintBody(f: seq<byte>)
    requires Framed(f) && Parse(f).Some?
    ensures var m := Parse(f).value; PacketSize(m) == |f| && Body(m) == f[..|f| - 5]
  {
    hide Parse, ReadInt32, WriteInt32, Checksum, ReadLength;
    var m := Parse(f).value;
    var a := 9 + |m.msgId|;
    var b := a + 4 + |m.methodName|;
    ParsedFields(f);
    WriteReadInt32(f[1..5]);
    assert f[..1] == [PB_START];
    assert Body(m) == f[..1] + f[1..5] + f[5..9] + f[9..a] + f[a..a + 4] + f[a + 4..b]
                    + f[b..b + 4] + f[b + 4..b + 8] + f[b + 8..b + 8 + |m.errInfo|]
                    + f[b + 8 + |m.errInfo|..|f| - 5];
    CutAndGlue(f, a, b, b + 8 + |m.errInfo|);
  }

  /** An accepted frame is, byte for byte, the frame of the message read from it. It is what
      encoding that message writes if and only if the identifier is not empty, because encoding
      supplies the default identifier. */
  lemma Reprint(f: seq<byte>)
    requires Framed(f) && Parse(f).Some?
    ensures var m := Parse(f).value;
      && PacketSize(m) == |f| && f == Wire(m) && m == Derived(m)
      && (m.msgId != [] ==> InLimit(m) && Stamped(m) == m)
      && (m.msgId != [] <==> InLimit(m) && Frame(m) == f)
  {
    hide Checksum, ReadInt32, WriteInt32, ReadLength, Body;
    var m := Parse(f).value;
    ReprintBody(f);
    WriteReadInt32(f[|f| - 5..|f| - 1]);
    assert f == f[..|f| - 5] + f[|f| - 5..|f| - 1] + [PB_END];
  }

  /** The failing side exists for every message without an identifier: its frame is accepted,
      and encoding what was read writes another one. */
  lemma EmptyIdAccepted(m: Message)
    requires m.msgId == [] && PacketSize(m) <= MAX_PACKET_SIZE
    ensures var f := Wire(m);
      && Framed(f) && Parse(f).Some? && Parse(f).value.msgId == []
      && !(InLimit(Parse(f).value) && Frame(Parse(f).value) == f)
  {
    hide Wire, Parse, Framed, Frame, InLimit;
    ParseWire(m);
    Reprint(Wire(m));
  }
}
