/** Decoding a byte stream: the resynchronising loop over TinyPB frames, as a function of
    the bytes received so far. */
module TinyPbStream {
  import opened Bits
  import opened Common
  import opened TinyPb
  import TinyPbDamage
  import Crc

  // ---------------------------------------------------------------------------------------
  // One turn of the decoding loop
  // ---------------------------------------------------------------------------------------

  /** What one turn does with the readable bytes: `used` bytes are consumed, and then
      decoding resynchronises, waits for more input, fails, or has a message. */
  datatype Outcome =
    | Drop(used: nat)
    | Wait(used: nat)
    | Bad(used: nat)
    | Good(used: nat, message: Message)

  function FindStart(s: seq<byte>): (k: nat)
    ensures k <= |s|
    ensures forall i :: 0 <= i < k ==> s[i] != PB_START
    ensures k < |s| ==> s[k] == PB_START
  {
    if s == [] || s[0] == PB_START then 0 else 1 + FindStart(s[1..])
  }

  predicate ValidLength(pkLen: int) {
    HEADER_SIZE <= pkLen <= MAX_PACKET_SIZE
  }

  /** What happens at a start byte. */
  function AtStart(s: seq<byte>): (o: Outcome)
    requires s != [] && s[0] == PB_START
    ensures o.used <= |s|
    ensures !o.Wait? ==> o.used > 0
    ensures o.Wait? ==> o.used == 0
  {
    if |s| < 5 then Wait(0) else
    var pkLen := ReadInt32(s[1..5]);
    if !ValidLength(pkLen) then Drop(1)
    else if |s| < pkLen then Wait(0)
    else if s[pkLen - 1] != PB_END then Drop(1)
    else match Parse(s[..pkLen])
      case None => Bad(pkLen)
      case Some(m) => Good(pkLen, m)
  }

  function Turn(s: seq<byte>): (o: Outcome)
    requires s != []
    ensures o.used <= |s|
    ensures !o.Wait? ==> o.used > 0
  {
    var k := FindStart(s);
    if k == |s| then Wait(k) else
    var o := AtStart(s[k..]);
    o.(used := k + o.used)
  }

  datatype Decoded = Decoded(messages: seq<Message>, fatal: bool, rest: seq<byte>)

  /** What decoding returns, and which bytes it leaves in the buffer. */
  function Decode(s: seq<byte>): Decoded
    decreases |s|
  {
    if s == [] then Decoded([], false, []) else
    var o := Turn(s);
    var rest := s[o.used..];
    match o
    case Wait(_) => Decoded([], false, rest)
    case Bad(_) => Decoded([], true, rest)
    case Drop(_) => Decode(rest)
    case Good(_, m) =>
      var d := Decode(rest);
      d.(messages := [m] + d.messages)
  }

  /** A result behind messages that were decoded before. */
  function After(messages: seq<Message>, d: Decoded): Decoded {
    d.(messages := messages + d.messages)
  }

  /** One turn of the decoder. */
  lemma DecodeTurn(messages: seq<Message>, s: seq<byte>)
    requires s != []
    ensures var o := Turn(s);
      var rest := s[o.used..];
      After(messages, Decode(s)) == match o
        case Wait(_) => Decoded(messages, false, rest)
        case Bad(_) => Decoded(messages, true, rest)
        case Drop(_) => After(messages, Decode(rest))
        case Good(_, m) => After(messages + [m], Decode(rest))
  {
    hide Turn;
    var o := Turn(s);
    var d := Decode(s[o.used..]);
    match o
    case Wait(_) =>
      assert Decode(s) == Decoded([], false, s[o.used..]);
    case Bad(_) =>
      assert Decode(s) == Decoded([], true, s[o.used..]);
    case Drop(_) =>
      assert Decode(s) == d;
    case Good(_, m) =>
      assert Decode(s) == d.(messages := [m] + d.messages);
      assert messages + ([m] + d.messages) == messages + [m] + d.messages;
  }

  lemma DecodeNothing(messages: seq<Message>)
    ensures After(messages, Decode([])) == Decoded(messages, false, [])
  {
  }

  // ---------------------------------------------------------------------------------------
  // Independence of how the stream is cut
  // ---------------------------------------------------------------------------------------

  lemma {:induction false} FindStartUnique(s: seq<byte>, k: nat)
    requires k <= |s|
    requires forall i :: 0 <= i < k ==> s[i] != PB_START
    requires k < |s| ==> s[k] == PB_START
    ensures FindStart(s) == k
  {
    if s != [] && k > 0 {
      FindStartUnique(s[1..], k - 1);
    }
  }

  /** Input that is already decided stays decided when more arrives. */
  lemma TurnExtends(s: seq<byte>, t: seq<byte>)
    requires s != [] && !Turn(s).Wait?
    ensures Turn(s + t) == Turn(s)
  {
    hide Parse, ReadInt32;
    var k := FindStart(s);
    FindStartUnique(s + t, k);
    var u, v := s[k..], (s + t)[k..];
    assert v == u + t;
    assert v[1..5] == u[1..5];
    var pkLen := ReadInt32(u[1..5]);
    if ValidLength(pkLen) && pkLen <= |u| {
      assert v[..pkLen] == u[..pkLen];
    }
  }

  lemma TurnSkips(g: seq<byte>, t: seq<byte>)
    requires PB_START !in g && t != []
    ensures Turn(g + t) == Turn(t).(used := |g| + Turn(t).used)
    ensures (g + t)[Turn(g + t).used..] == t[Turn(t).used..]
  {
    hide AtStart, FindStart;
    var k := FindStart(t);
    FindStartUnique(g + t, |g| + k);
    DropFront(g, t, k);
    DropFront(g, t, Turn(t).used);
  }

  lemma DropFront<T>(g: seq<T>, t: seq<T>, j: nat)
    requires j <= |t|
    ensures (g + t)[|g| + j..] == t[j..]
  {
  }

  /** Bytes without a start byte in front of a stream are skipped. */
  lemma SkipGarbage(g: seq<byte>, t: seq<byte>)
    requires PB_START !in g
    ensures Decode(g + t) == Decode(t)
  {
    if g == [] {
      assert g + t == t;
    } else if t == [] {
      assert g + t == g;
      FindStartUnique(g, |g|);
    } else {
      hide Turn;
      TurnSkips(g, t);
    }
  }

  /** What a first decoding pass left, continued with the bytes `b`. */
  function Continue(d: Decoded, b: seq<byte>): Decoded {
    if d.fatal then d.(rest := d.rest + b)
    else
      var e := Decode(d.rest + b);
      e.(messages := d.messages + e.messages)
  }

  /** Decoding what has arrived, appending more and decoding again gives what decoding
      everything at once gives. */
  lemma {:induction false} CutIndependence(a: seq<byte>, b: seq<byte>)
    ensures Continue(Decode(a), b) == Decode(a + b)
    decreases |a|
  {
    hide Turn;
    if a == [] {
      assert a + b == b;
    } else {
      var o := Turn(a);
      var rest := a[o.used..];
      assert (a + b)[o.used..] == rest + b;
      match o {
        case Wait(_) =>
          WaitIsGarbage(a);
          SkipGarbage(a[..o.used], rest + b);
          assert a + b == a[..o.used] + (rest + b);
        case Bad(_) =>
          TurnExtends(a, b);
        case Drop(_) =>
          TurnExtends(a, b);
          CutIndependence(rest, b);
        case Good(_, m) =>
          TurnExtends(a, b);
          CutIndependence(rest, b);
          var d := Decode(rest);
          if !d.fatal {
            assert [m] + d.messages + Decode(d.rest + b).messages
                == [m] + (d.messages + Decode(d.rest + b).messages);
          }
      }
    }
  }

  lemma WaitIsGarbage(s: seq<byte>)
    requires s != [] && Turn(s).Wait?
    ensures Turn(s).used == FindStart(s) && PB_START !in s[..Turn(s).used]
  {
  }

  /** A connection decodes after each read; `chunks` are the reads. */
  function DecodeChunks(chunks: seq<seq<byte>>): Decoded {
    if chunks == [] then Decoded([], false, [])
    else Continue(DecodeChunks(chunks[..|chunks| - 1]), chunks[|chunks| - 1])
  }

  function Flatten(chunks: seq<seq<byte>>): seq<byte> {
    if chunks == [] then [] else Flatten(chunks[..|chunks| - 1]) + chunks[|chunks| - 1]
  }

  /** However a stream is cut into reads, the same messages, verdict and leftover result. */
  lemma {:induction false} ChunkingIrrelevant(chunks: seq<seq<byte>>)
    ensures DecodeChunks(chunks) == Decode(Flatten(chunks))
  {
    if chunks != [] {
      var n := |chunks| - 1;
      ChunkingIrrelevant(chunks[..n]);
      CutIndependence(Flatten(chunks[..n]), chunks[n]);
    }
  }

  // ---------------------------------------------------------------------------------------
  // What is left over
  // ---------------------------------------------------------------------------------------

  /** A frame that has begun but is not all there yet. */
  predicate Incomplete(s: seq<byte>) {
    && s != [] && s[0] == PB_START
    && (|s| < 5 || (ValidLength(ReadInt32(s[1..5])) && |s| < ReadInt32(s[1..5])))
  }

  /** A leftover that is not fatal is empty or an incomplete frame, hence under 1 MiB, and
      decoding it again without new input changes nothing. */
  lemma {:induction false} Leftover(s: seq<byte>)
    ensures var d := Decode(s);
      !d.fatal ==>
        && (d.rest == [] || Incomplete(d.rest))
        && |d.rest| < MAX_PACKET_SIZE
        && Decode(d.rest) == Decoded([], false, d.rest)
    decreases |s|
  {
    if s != [] {
      var o := Turn(s);
      if o.Wait? {
        var rest := s[o.used..];
        if rest != [] {
          FindStartUnique(rest, 0);
          assert rest[0..] == rest;
        }
      } else {
        Leftover(s[o.used..]);
      }
    }
  }

  // ---------------------------------------------------------------------------------------
  // Where the decoder stops, and what it skips
  // ---------------------------------------------------------------------------------------

  /** A frame begins at `i`, or may turn out to begin there when more bytes arrive. */
  predicate Candidate(s: seq<byte>, i: nat)
    requires i < |s|
  {
    s[i] == PB_START &&
    (|s| - i < 5 ||
     var n := ReadInt32(s[i + 1..i + 5]);
     ValidLength(n) && (|s| - i < n || s[i + n - 1] == PB_END))
  }

  predicate NoneBefore(s: seq<byte>, c: nat)
    requires c <= |s|
  {
    forall i :: 0 <= i < c ==> !Candidate(s, i)
  }

  lemma CandidateLater(s: seq<byte>, m: nat, i: nat)
    requires m + i < |s|
    ensures Candidate(s[m..], i) <==> Candidate(s, m + i)
  {
    var u := s[m..];
    assert u[i] == s[m + i];
    if |u| - i >= 5 {
      assert u[i + 1..i + 5] == s[m + i + 1..m + i + 5];
      var n := ReadInt32(u[i + 1..i + 5]);
      if ValidLength(n) && n <= |u| - i {
        assert u[i + n - 1] == s[m + i + n - 1];
      }
    }
  }

  /** A start byte that is no candidate is dropped, alone. */
  lemma DropsOne(u: seq<byte>)
    requires u != [] && u[0] == PB_START
    ensures Candidate(u, 0) <==> !AtStart(u).Drop?
    ensures AtStart(u).Drop? ==> AtStart(u).used == 1
  {
    hide Parse, ReadInt32;
  }

  lemma StrayStart(s: seq<byte>)
    requires s != [] && FindStart(s) < |s|
    ensures Candidate(s, FindStart(s)) <==> !Turn(s).Drop?
    ensures Turn(s).Drop? ==> Turn(s).used == FindStart(s) + 1
  {
    hide Candidate, AtStart;
    var k := FindStart(s);
    CandidateLater(s, k, 0);
    DropsOne(s[k..]);
  }

  /** Bytes at which no frame can begin are skipped, stray start bytes among them. */
  lemma {:induction false} SkipNoise(s: seq<byte>, c: nat)
    requires c <= |s| && NoneBefore(s, c)
    ensures Decode(s) == Decode(s[c..])
    decreases |s|
  {
    hide Turn, Candidate, Decode, FindStart;
    var k := FindStart(s);
    if c == 0 {
      assert s[0..] == s;
    } else if k >= c {
      assert s == s[..c] + s[c..];
      SkipGarbage(s[..c], s[c..]);
    } else {
      StrayIsDropped(s);
      var rest := s[k + 1..];
      forall i | 0 <= i < c - (k + 1)
        ensures !Candidate(rest, i)
      {
        CandidateLater(s, k + 1, i);
      }
      SkipNoise(rest, c - (k + 1));
      assert rest[c - (k + 1)..] == s[c..];
    }
  }

  lemma StrayIsDropped(s: seq<byte>)
    requires FindStart(s) < |s| && !Candidate(s, FindStart(s))
    ensures Decode(s) == Decode(s[FindStart(s) + 1..])
  {
    hide Turn, Candidate, FindStart, Decode, After;
    StrayStart(s);
    DecodeTurn([], s);
    AfterNothing(Decode(s));
    AfterNothing(Decode(s[FindStart(s) + 1..]));
  }

  /** What becomes of a stream at whose front a frame can begin: an incomplete frame is kept, a
      complete one is taken off, with its message or with a fatal verdict, and decoding goes on
      behind it. */
  function FromCandidate(u: seq<byte>): Decoded
    requires u != [] && Candidate(u, 0)
  {
    if |u| < 5 || |u| < ReadInt32(u[1..5]) then Decoded([], false, u)
    else
      var n := ReadInt32(u[1..5]);
      match Parse(u[..n])
      case None => Decoded([], true, u[n..])
      case Some(m) => After([m], Decode(u[n..]))
  }

  lemma AtCandidate(u: seq<byte>)
    requires u != [] && Candidate(u, 0)
    ensures Decode(u) == FromCandidate(u)
  {
    hide Parse, ReadInt32;
    FindStartUnique(u, 0);
    assert u[0..] == u;
    var o := Turn(u);
    assert o == AtStart(u);
    assert o == if |u| < 5 || |u| < ReadInt32(u[1..5]) then Wait(0)
      else
        var n := ReadInt32(u[1..5]);
        match Parse(u[..n])
        case None => Bad(n)
        case Some(m) => Good(n, m);
    hide Turn, AtStart, FindStart, Candidate;
  }

  /** What decoding does, by the first place where a frame can begin: the bytes before it are
      skipped. */
  lemma DecodeExactly(s: seq<byte>, c: nat)
    requires c <= |s| && NoneBefore(s, c) && (c < |s| ==> Candidate(s, c))
    ensures c == |s| ==> Decode(s) == Decoded([], false, [])
    ensures c < |s| ==> Candidate(s[c..], 0) && Decode(s) == FromCandidate(s[c..])
  {
    hide Decode, Candidate, FromCandidate, NoneBefore;
    SkipNoise(s, c);
    if c < |s| {
      CandidateLater(s, c, 0);
      AtCandidate(s[c..]);
    } else {
      assert s[c..] == [];
      DecodeNothing([]);
      AfterNothing(Decode([]));
    }
  }

  lemma AfterNothing(d: Decoded)
    ensures After([], d) == d
  {
  }

  /** No complete frame begins inside the bytes that a turn drops. */
  lemma NoFrameDropped(s: seq<byte>, i: nat, n: nat)
    requires s != [] && Turn(s).Drop? && i < Turn(s).used && i + n <= |s|
    ensures !Framed(s[i..i + n])
  {
    hide Parse, ReadInt32;
    var k := FindStart(s);
    StrayStart(s);
    var f := s[i..i + n];
    if i == k && 5 <= n {
      TinyPbDamage.SliceOfSlice(s, i, i + n, i + 1, i + 5);
    }
  }

  // ---------------------------------------------------------------------------------------
  // Printing and decoding are inverse
  // ---------------------------------------------------------------------------------------

  /** Framed messages on a stream, each after some bytes that cannot begin a frame. */
  function Print(noise: seq<seq<byte>>, messages: seq<Message>): seq<byte>
    requires |noise| == |messages| && forall m <- messages :: InLimit(m)
  {
    if messages == [] then [] else
    noise[0] + (Frame(messages[0]) + Print(noise[1..], messages[1..]))
  }

  function StampAll(messages: seq<Message>): (r: seq<Message>)
    requires forall m <- messages :: InLimit(m)
    ensures |r| == |messages|
    ensures forall i :: 0 <= i < |r| ==> r[i] == Stamped(messages[i])
  {
    if messages == [] then [] else [Stamped(messages[0])] + StampAll(messages[1..])
  }

  /** The frame of a message at the front of a stream is taken off it in one turn, even if the
      message has no identifier. */
  lemma TurnWire(m: Message, t: seq<byte>)
    requires PacketSize(m) <= MAX_PACKET_SIZE
    ensures Turn(Wire(m) + t) == Good(|Wire(m)|, Derived(m))
  {
    hide Parse, Wire, Derived;
    var f := Wire(m);
    ParseWire(m);
    var s := f + t;
    FindStartUnique(s, 0);
    assert s[0..] == s && s[1..5] == f[1..5] && s[..|f|] == f;
  }

  lemma TurnPrinted(m: Message, t: seq<byte>)
    requires InLimit(m)
    ensures Turn(Frame(m) + t) == Good(|Frame(m)|, Stamped(m))
  {
    hide Turn, Wire, Derived;
    TurnWire(WithId(m), t);
  }

  /** Nothing in the noise can be taken for the beginning of a frame. */
  ghost predicate Harmless(noise: seq<seq<byte>>, messages: seq<Message>)
    requires |noise| == |messages| && forall m <- messages :: InLimit(m)
  {
    messages == [] ||
    (NoneBefore(Print(noise, messages), |noise[0]|) && Harmless(noise[1..], messages[1..]))
  }

  /** Every printed list of messages, with harmless noise before any of them, decodes to exactly
      that list and leaves nothing. */
  lemma {:induction false} DecodePrinted(noise: seq<seq<byte>>, messages: seq<Message>)
    requires |noise| == |messages| && forall m <- messages :: InLimit(m)
    requires Harmless(noise, messages)
    ensures Decode(Print(noise, messages)) == Decoded(StampAll(messages), false, [])
    decreases |messages|
  {
    hide Turn, Frame, Stamped, NoneBefore;
    if messages != [] {
      var f, t := Frame(messages[0]), Print(noise[1..], messages[1..]);
      var s := Print(noise, messages);
      SkipNoise(s, |noise[0]|);
      assert s[|noise[0]|..] == f + t;
      TurnPrinted(messages[0], t);
      assert (f + t)[|f|..] == t;
      DecodePrinted(noise[1..], messages[1..]);
    }
  }

  /** Noise without start bytes is harmless. */
  lemma {:induction false} NoStartIsHarmless(noise: seq<seq<byte>>, messages: seq<Message>)
    requires |noise| == |messages| && forall m <- messages :: InLimit(m)
    requires forall g <- noise :: PB_START !in g
    ensures Harmless(noise, messages)
    decreases |messages|
  {
    hide Frame, InLimit;
    if messages != [] {
      NoStartIsHarmless(noise[1..], messages[1..]);
      var s := Print(noise, messages);
      forall i | 0 <= i < |noise[0]|
        ensures !Candidate(s, i)
      {
        assert noise[0] in noise && noise[0][i] in noise[0] && s[i] == noise[0][i];
      }
    }
  }

  /** A stray start byte in front of a frame is harmless: behind it the frame's own first bytes
      stand where a length would, and they are no valid length. */
  lemma StrayByteBeforeFrame(m: Message, t: seq<byte>)
    requires InLimit(m)
    ensures Decode([PB_START] + (Frame(m) + t)) == After([Stamped(m)], Decode(t))
  {
    hide Parse, Frame, Stamped;
    var f := Frame(m);
    var s := [PB_START] + (f + t);
    ParsePrinted(m);
    assert s[1..5] == f[0..4];
    LengthOfStart(f);
    assert !Candidate(s, 0);
    SkipNoise(s, 1);
    assert s[1..] == f + t;
    TurnPrinted(m, t);
    DecodeTurn([], f + t);
    assert (f + t)[|f|..] == t;
    assert After([], Decode(f + t)).messages == Decode(f + t).messages;
    assert [] + [Stamped(m)] == [Stamped(m)];
  }

  lemma LengthOfStart(f: seq<byte>)
    requires |f| >= 4 && f[0] == PB_START
    ensures ReadInt32(f[0..4]) >= 0x200_0000
  {
  }

  /** What a turn accepts is noise and then one frame, from which the message was parsed. */
  lemma AcceptedFrame(s: seq<byte>) returns (f: seq<byte>)
    requires s != [] && Turn(s).Good?
    ensures var o, k := Turn(s), FindStart(s);
      && k < o.used && PB_START !in s[..k] && s[..o.used] == s[..k] + f
      && Framed(f) && Parse(f) == Some(o.message)
  {
    hide Parse, ReadInt32;
    var k := FindStart(s);
    var u := s[k..];
    f := u[..ReadInt32(u[1..5])];
    assert f[1..5] == u[1..5];
  }

  /** Conversely, what a turn accepts is noise followed by the frame of the message it returns;
      and that is what encoding the message writes exactly when it carries an identifier. */
  lemma AcceptedIsPrinted(s: seq<byte>)
    requires s != [] && Turn(s).Good?
    ensures var o, k := Turn(s), FindStart(s);
      && k < o.used && PB_START !in s[..k]
      && PacketSize(o.message) <= MAX_PACKET_SIZE && s[..o.used] == s[..k] + Wire(o.message)
      && (o.message.msgId != [] <==> InLimit(o.message) && s[..o.used] == s[..k] + Frame(o.message))
  {
    hide Parse, Framed, Frame, Wire, Turn, Derived, Stamped, PacketSize, InLimit;
    var f := AcceptedFrame(s);
    Reprint(f);
    FramedSize(f);
    var o, k := Turn(s), FindStart(s);
    if InLimit(o.message) && s[..o.used] == s[..k] + Frame(o.message) {
      SameTail(s[..k], f, Frame(o.message));
    }
  }

  lemma FramedSize(f: seq<byte>)
    requires Framed(f)
    ensures |f| <= MAX_PACKET_SIZE
  {
  }

  lemma SameTail<T>(a: seq<T>, b: seq<T>, c: seq<T>)
    requires a + b == a + c
    ensures b == c
  {
    assert (a + b)[|a|..] == b && (a + c)[|a|..] == c;
  }

  /** Changing bits of a printed frame within 32 consecutive ones between its length field and
      its checksum is detected: the connection gets a fatal verdict and no message. */
  lemma CorruptionIsFatal(m: Message, g: seq<byte>, i: nat, n: nat, t: seq<byte>)
    requires InLimit(m) && |g| == |Frame(m)|
    requires n <= 32 && 40 <= i && i + n <= 8 * (|g| - 5)
    requires Crc.Burst(Crc.BitsOf(Frame(m)), Crc.BitsOf(g), i, n)
    ensures Decode(g + t) == Decoded([], true, t)
  {
    hide Parse, Frame, Turn, Crc.Burst, Crc.BitsOf;
    TinyPbDamage.CorruptionRejected(m, g, i, n);
    BadTurn(g, t);
    assert (g + t)[|g|..] == t;
  }

  /** In particular changing one to four consecutive bytes is. */
  lemma ChangedRunIsFatal(m: Message, g: seq<byte>, i: nat, k: nat, t: seq<byte>)
    requires InLimit(m) && |g| == |Frame(m)| && g != Frame(m)
    requires k <= 4 && 5 <= i && i + k <= |g| - 5
    requires g[..i] == Frame(m)[..i] && g[i + k..] == Frame(m)[i + k..]
    ensures Decode(g + t) == Decoded([], true, t)
  {
    hide Frame, Decode, Crc.Burst, Crc.BitsOf;
    TinyPbDamage.RunIsBurst(Frame(m), g, i, k);
    CorruptionIsFatal(m, g, 8 * i, 8 * k, t);
  }

  lemma BadTurn(g: seq<byte>, t: seq<byte>)
    requires Framed(g) && Parse(g).None?
    ensures Turn(g + t) == Bad(|g|)
  {
    hide Parse;
    var s := g + t;
    FindStartUnique(s, 0);
    assert s[0..] == s && s[1..5] == g[1..5] && s[..|g|] == g;
  }
}
