/** Damaged frames: which changes of a printed frame its checksum detects, and which not. */
module TinyPbDamage {
  import opened Bits
  import opened Common
  import opened TinyPb
  import Crc
  import BlindSpot

  /** The checksum field agrees with the body. */
  predicate Intact(f: seq<byte>)
    requires |f| >= 5
  {
    ReadInt32(f[|f| - 5..|f| - 1]) == Checksum(f[..|f| - 5])
  }

  lemma ParseChecks(f: seq<byte>)
    requires HEADER_SIZE <= |f| <= MAX_PACKET_SIZE && Parse(f).Some?
    ensures Intact(f)
  {
  }

  lemma ChecksumBurst(a: seq<byte>, b: seq<byte>, i: nat, n: nat)
    requires n <= 32 && Crc.Burst(Crc.BitsOf(a), Crc.BitsOf(b), i, n)
    ensures Checksum(a) != Checksum(b)
  {
    hide Crc.Crc;
    assert Crc.CRC_32.polynomial[0];
    Crc.BurstDetected(Crc.CRC_32, a, b, i, n);
  }

  lemma Middle<T>(s: seq<T>, a: seq<T>, b: seq<T>, c: seq<T>)
    requires s == a + b + c
    ensures s[|a|..|a| + |b|] == b
  {
  }

  /** The bits of a part of a string. */
  lemma BitsOfSlice(f: seq<byte>, a: nat, b: nat)
    requires a <= b <= |f|
    ensures Crc.BitsOf(f[a..b]) == Crc.BitsOf(f)[8 * a..8 * b]
  {
    hide Crc.BitsOf;
    assert f == f[..a] + f[a..b] + f[b..];
    Crc.BitsOfConcat(f[..a], f[a..b]);
    Crc.BitsOfConcat(f[..a] + f[a..b], f[b..]);
    Middle(Crc.BitsOf(f), Crc.BitsOf(f[..a]), Crc.BitsOf(f[a..b]), Crc.BitsOf(f[b..]));
  }

  lemma SliceOfTail<T>(s: seq<T>, j: nat, a: nat, b: nat)
    requires j <= a <= b <= |s|
    ensures s[a..b] == s[j..][a - j..b - j]
  {
  }

  lemma BitsOutsideBurst(s: seq<bool>, t: seq<bool>, i: nat, n: nat, a: nat, b: nat)
    requires Crc.Burst(s, t, i, n) && a <= b <= |s| && (b <= i || i + n <= a)
    ensures s[a..b] == t[a..b]
  {
    if b <= i {
      assert s[a..b] == s[..i][a..b] && t[a..b] == t[..i][a..b];
    } else {
      SliceOfTail(s, i + n, a, b);
      SliceOfTail(t, i + n, a, b);
    }
  }

  /** Bytes outside of a burst are as they were. */
  lemma OutsideBurst(f: seq<byte>, g: seq<byte>, i: nat, n: nat, a: nat, b: nat)
    requires Crc.Burst(Crc.BitsOf(f), Crc.BitsOf(g), i, n) && |f| == |g|
    requires a <= b <= |f| && (8 * b <= i || i + n <= 8 * a)
    ensures f[a..b] == g[a..b]
  {
    hide Crc.BitsOf, Crc.Burst;
    BitsOutsideBurst(Crc.BitsOf(f), Crc.BitsOf(g), i, n, 8 * a, 8 * b);
    BitsOfSlice(f, a, b);
    BitsOfSlice(g, a, b);
    if f[a..b] != g[a..b] {
      Crc.BitsOfInjective(f[a..b], g[a..b]);
    }
  }

  lemma BurstPrefix(s: seq<bool>, t: seq<bool>, i: nat, n: nat, end: nat)
    requires Crc.Burst(s, t, i, n) && i + n <= end <= |s|
    ensures Crc.Burst(s[..end], t[..end], i, n)
  {
    var after := s[i + n..];
    assert s == s[..end] + s[end..] && t == t[..end] + t[end..];
    assert s[end..] == after[end - (i + n)..] && t[end..] == after[end - (i + n)..];
    assert s[..end][i + n..] == after[..end - (i + n)] && t[..end][i + n..] == after[..end - (i + n)];
    assert s[..end][..i] == s[..i] && t[..end][..i] == t[..i];
  }

  lemma BurstInBody(f: seq<byte>, g: seq<byte>, i: nat, n: nat)
    requires |f| == |g| >= 5 && i + n <= 8 * (|f| - 5) && Crc.Burst(Crc.BitsOf(f), Crc.BitsOf(g), i, n)
    ensures Crc.Burst(Crc.BitsOf(f[..|f| - 5]), Crc.BitsOf(g[..|f| - 5]), i, n)
  {
    hide Crc.BitsOf, Crc.Burst;
    var s, t, body := Crc.BitsOf(f), Crc.BitsOf(g), |f| - 5;
    BitsOfSlice(f, 0, body);
    BitsOfSlice(g, 0, body);
    assert f[0..body] == f[..body] && g[0..body] == g[..body];
    assert s[0..8 * body] == s[..8 * body] && t[0..8 * body] == t[..8 * body];
    BurstPrefix(s, t, i, n, 8 * body);
  }

  /** Changing bits of a printed frame within 32 consecutive ones, anywhere between the length
      field and the checksum, makes the frame unparsable. */
  lemma CorruptionRejected(m: Message, g: seq<byte>, i: nat, n: nat)
    requires InLimit(m) && |g| == |Frame(m)|
    requires n <= 32 && 40 <= i && i + n <= 8 * (|g| - 5)
    requires Crc.Burst(Crc.BitsOf(Frame(m)), Crc.BitsOf(g), i, n)
    ensures Framed(g) && Parse(g).None?
  {
    hide Parse, Checksum, ReadInt32, Frame, Crc.BitsOf, Crc.Burst, Intact;
    var f, end := Frame(m), |g| - 5;
    ParsePrinted(m);
    ParseChecks(f);
    OutsideBurst(f, g, i, n, 0, 5);
    OutsideBurst(f, g, i, n, end, |g|);
    SameEnds(f, g);
    BurstInBody(f, g, i, n);
    ChecksumBurst(f[..end], g[..end], i, n);
    NotIntact(f, g);
    if Parse(g).Some? {
      ParseChecks(g);
    }
  }

  /** The header and the last five bytes decide whether a frame is delimited, and which checksum
      it carries. */
  lemma SameEnds(f: seq<byte>, g: seq<byte>)
    requires |f| == |g| >= HEADER_SIZE && f[0..5] == g[0..5] && f[|g| - 5..|g|] == g[|g| - 5..|g|]
    ensures f[0] == g[0] && f[1..5] == g[1..5]
    ensures f[|g| - 5..|g| - 1] == g[|g| - 5..|g| - 1] && f[|g| - 1] == g[|g| - 1]
  {
    var end := |g| - 5;
    SliceOfSlice(f, 0, 5, 1, 5);
    SliceOfSlice(g, 0, 5, 1, 5);
    SliceOfSlice(f, end, |g|, end, |g| - 1);
    SliceOfSlice(g, end, |g|, end, |g| - 1);
    assert f[0] == f[0..5][0] && g[0] == g[0..5][0];
    assert f[|g| - 1] == f[end..|g|][4] && g[|g| - 1] == g[end..|g|][4];
  }

  lemma SliceOfSlice<T>(s: seq<T>, a: nat, b: nat, c: nat, d: nat)
    requires a <= c <= d <= b <= |s|
    ensures s[a..b][c - a..d - a] == s[c..d]
  {
    forall i | 0 <= i < d - c
      ensures s[a..b][c - a..d - a][i] == s[c..d][i]
    {
      assert s[a..b][c - a + i] == s[c + i];
    }
  }

  lemma NotIntact(f: seq<byte>, g: seq<byte>)
    requires |f| == |g| >= 5 && Intact(f) && f[|g| - 5..|g| - 1] == g[|g| - 5..|g| - 1]
    requires Checksum(f[..|g| - 5]) != Checksum(g[..|g| - 5])
    ensures !Intact(g)
  {
  }

  /** Changing nothing but the checksum field is always detected. */
  lemma SumCorruptionRejected(m: Message, g: seq<byte>)
    requires InLimit(m) && |g| == |Frame(m)| && g != Frame(m)
    requires g[..|g| - 5] == Frame(m)[..|g| - 5] && g[|g| - 1] == PB_END
    ensures Framed(g) && Parse(g).None?
  {
    hide Parse, Checksum, ReadInt32, Frame, Intact;
    var f, end := Frame(m), |g| - 5;
    ParsePrinted(m);
    ParseChecks(f);
    SliceOfSlice(f, 0, end, 1, 5);
    SliceOfSlice(g, 0, end, 1, 5);
    assert f[0..end] == f[..end] && g[0..end] == g[..end] && f[0] == f[..end][0] && g[0] == g[..end][0];
    OtherSum(f, g);
    if Parse(g).Some? {
      ParseChecks(g);
    }
  }

  lemma OtherSum(f: seq<byte>, g: seq<byte>)
    requires |f| == |g| >= 5 && f != g && Intact(f)
    requires f[..|g| - 5] == g[..|g| - 5] && f[|g| - 1] == g[|g| - 1]
    ensures !Intact(g)
  {
    hide Checksum, ReadInt32, WriteInt32;
    var end := |g| - 5;
    assert f == f[..end] + f[end..|g| - 1] + [f[|g| - 1]] && g == g[..end] + g[end..|g| - 1] + [g[|g| - 1]];
    WriteReadInt32(f[end..|g| - 1]);
    WriteReadInt32(g[end..|g| - 1]);
  }

  /** A run of up to four changed bytes is such a change. */
  lemma RunIsBurst(f: seq<byte>, g: seq<byte>, i: nat, k: nat)
    requires |g| == |f| && i + k <= |f| && g[..i] == f[..i] && g[i + k..] == f[i + k..] && g != f
    ensures Crc.Burst(Crc.BitsOf(f), Crc.BitsOf(g), 8 * i, 8 * k)
  {
    hide Crc.BitsOf;
    var s, t := Crc.BitsOf(f), Crc.BitsOf(g);
    SameAround(f, g, 0, i);
    SameAround(f, g, i + k, |f|);
    assert s[..8 * i] == s[8 * 0..8 * i] && t[..8 * i] == t[8 * 0..8 * i];
    assert s[8 * i + 8 * k..] == s[8 * (i + k)..8 * |f|] && t[8 * i + 8 * k..] == t[8 * (i + k)..8 * |f|];
    Crc.BitsOfInjective(f, g);
  }

  lemma SameAround(f: seq<byte>, g: seq<byte>, a: nat, b: nat)
    requires a <= b <= |f| == |g| && (b == |f| || a == 0)
    requires if a == 0 then g[..b] == f[..b] else g[a..] == f[a..]
    ensures Crc.BitsOf(f)[8 * a..8 * b] == Crc.BitsOf(g)[8 * a..8 * b]
  {
    hide Crc.BitsOf;
    assert f[a..b] == g[a..b] by {
      assert a == 0 ==> f[a..b] == f[..b] && g[a..b] == g[..b];
      assert a != 0 ==> f[a..b] == f[a..] && g[a..b] == g[a..];
    }
    BitsOfSlice(f, a, b);
    BitsOfSlice(g, a, b);
  }

  /** The checksum field as a word. */
  function SumWord(f: seq<byte>): Crc.Word
    requires |f| >= 5
  {
    ToBits(Unsigned(ReadInt32(f[|f| - 5..|f| - 1])), 32)
  }

  lemma IntactWord(f: seq<byte>)
    requires |f| >= 5
    ensures Intact(f) <==> SumWord(f) == Crc.Crc(f[..|f| - 5], Crc.CRC_32)
  {
    hide Crc.Crc, ToBits, FromBits, Pow2;
    var w, u := Crc.Crc(f[..|f| - 5], Crc.CRC_32), Unsigned(ReadInt32(f[|f| - 5..|f| - 1]));
    Pow2Of32();
    FromToBits(u, 32);
    FromToBits(Crc.Value(w), 32);
  }

  /** Which changes go unnoticed: exactly those in which the checksum field changes by the
      remainder of the change of the body. */
  lemma UnnoticedExactly(f: seq<byte>, g: seq<byte>)
    requires |f| == |g| >= 5 && Intact(f)
    ensures Intact(g) <==>
      Crc.Xor(SumWord(f), SumWord(g))
      == Crc.BitRemainder(Crc.Reflected(Crc.CRC_32.polynomial), Zeros(32),
                          Crc.XorBits(Crc.BitsOf(f[..|f| - 5]), Crc.BitsOf(g[..|f| - 5])))
  {
    hide Intact, SumWord, Crc.Crc, Crc.BitRemainder, Crc.BitsOf;
    var a, b := f[..|f| - 5], g[..|f| - 5];
    IntactWord(f);
    IntactWord(g);
    Crc.Syndrome(Crc.CRC_32, a, b);
    var x, y, z := Crc.Crc(a, Crc.CRC_32), Crc.Crc(b, Crc.CRC_32), SumWord(g);
    assert Crc.Xor(x, Crc.Xor(x, y)) == y && Crc.Xor(x, Crc.Xor(x, z)) == z;
  }

  // The checksum is written with its high byte first, while the division takes the low bits of
  // each byte first; a change on both sides of the border can therefore cancel out.

  /** A byte with some bits turned over. */
  function Turned(b: byte, mask: seq<bool>): (r: byte)
    requires |mask| == 8
    ensures ToBits(r, 8) == Crc.XorBits(ToBits(b, 8), mask)
  {
    var bits := Crc.XorBits(ToBits(b, 8), mask);
    ToFromBits(bits);
    Pow2Of8();
    FromBits(bits)
  }

  /** The two changed bytes. */
  function TurnFirst(b: byte): byte {
    Turned(b, BlindSpot.Change()[..8])
  }

  function TurnSecond(b: byte): byte {
    Turned(b, BlindSpot.Change()[8..])
  }

  function TurnTail(pb: seq<byte>): (r: seq<byte>)
    requires |pb| >= 2
    ensures |r| == |pb|
  {
    pb[..|pb| - 2] + [TurnFirst(pb[|pb| - 2]), TurnSecond(pb[|pb| - 1])]
  }

  /** The message with the last two payload bytes changed by 0x61 and 0xD8. */
  function Tampered(m: Message): Message
    requires |m.pbData| >= 2
  {
    m.(pbData := TurnTail(m.pbData))
  }

  /** Two strings that differ by the unseen change of their last two bytes. */
  ghost predicate Twins(a: seq<byte>, b: seq<byte>) {
    && |a| == |b| >= 2 && a[..|a| - 2] == b[..|a| - 2]
    && b[|a| - 2] == TurnFirst(a[|a| - 2]) && b[|a| - 1] == TurnSecond(a[|a| - 1])
  }

  lemma {:induction false} ZerosVanish(poly: Crc.Word, n: nat)
    ensures Crc.BitRemainder(poly, Zeros(32), Zeros(n)) == Zeros(32)
  {
    if n > 0 {
      assert Zeros(n)[..n - 1] == Zeros(n - 1);
      ZerosVanish(poly, n - 1);
      var w: Crc.Word := Crc.Xor(Zeros(32), Crc.Pad([false]));
      assert w == Zeros(32);
      assert Crc.BitStep(poly, w) == Zeros(32);
    }
  }

  /** A change of the last two bytes only, as a change of bits. */
  lemma TailChange(a: seq<byte>, b: seq<byte>)
    requires Twins(a, b)
    ensures Crc.XorBits(Crc.BitsOf(a), Crc.BitsOf(b)) == Zeros(8 * (|a| - 2)) + BlindSpot.Change()
  {
    hide ToBits, BlindSpot.Change, Turned;
    var k, change := |a| - 2, BlindSpot.Change();
    TailBits(a);
    TailBits(b);
    var x, y := ToBits(a[k], 8), ToBits(a[k + 1], 8);
    assert ToBits(b[k], 8) == Crc.XorBits(x, change[..8]) && ToBits(b[k + 1], 8) == Crc.XorBits(y, change[8..]);
    Cancel(Crc.BitsOf(a[..k]), x, y, change);
  }

  lemma TailBits(a: seq<byte>)
    requires |a| >= 2
    ensures Crc.BitsOf(a) == Crc.BitsOf(a[..|a| - 2]) + (ToBits(a[|a| - 2], 8) + ToBits(a[|a| - 1], 8))
  {
    hide ToBits, Crc.BitsOf;
    var k := |a| - 2;
    assert a == a[..k] + [a[k], a[k + 1]];
    Crc.BitsOfConcat(a[..k], [a[k], a[k + 1]]);
    TwoBytes(a[k], a[k + 1]);
  }

  lemma TwoBytes(x: byte, y: byte)
    ensures Crc.BitsOf([x, y]) == ToBits(x, 8) + ToBits(y, 8)
  {
    hide ToBits;
    var pair: seq<byte> := [x, y];
    assert pair[1..] == [y] && pair[1..][1..] == [];
  }

  lemma Cancel(p: seq<bool>, x: seq<bool>, y: seq<bool>, change: seq<bool>)
    requires |x| == |y| == 8 && |change| == 16
    ensures Crc.XorBits(p + (x + y), p + (Crc.XorBits(x, change[..8]) + Crc.XorBits(y, change[8..])))
         == Zeros(|p|) + change
  {
  }

  /** The CRCs of the two bodies agree in their lower half. */
  lemma SameLowerHalf(a: seq<byte>, b: seq<byte>)
    requires Twins(a, b)
    ensures Crc.Crc(a, Crc.CRC_32)[..16] == Crc.Crc(b, Crc.CRC_32)[..16]
  {
    hide Crc.Crc, Crc.BitRemainder, Crc.BitsOf, Crc.Xor, TurnFirst, TurnSecond;
    hide BlindSpot.Change, BlindSpot.InUnseen, BlindSpot.InShown;
    var poly, n := Crc.Reflected(Crc.CRC_32.polynomial), 8 * (|a| - 2);
    TailChange(a, b);
    Crc.Syndrome(Crc.CRC_32, a, b);
    ZerosVanish(poly, n);
    Crc.BitRemainderConcat(poly, Zeros(32), Zeros(n), BlindSpot.Change());
    BlindSpot.LowerHalfClear();
    SameWhereClear(Crc.Crc(a, Crc.CRC_32), Crc.Crc(b, Crc.CRC_32));
  }

  lemma SameWhereClear(x: Crc.Word, y: Crc.Word)
    requires forall i :: 0 <= i < 16 ==> !Crc.Xor(x, y)[i]
    ensures x[..16] == y[..16]
  {
    forall i | 0 <= i < 16
      ensures x[i] == y[i]
    {
      assert !Crc.Xor(x, y)[i];
    }
  }

  lemma LowBytes(w: Crc.Word)
    ensures var u, low := Crc.Value(w), FromBits(w[..16]);
      u % 0x1_0000 == low && WriteInt32(Signed(u))[2..] == [low / 0x100, low % 0x100]
  {
    hide FromBits, ToBits, Pow2;
    FromBitsSplit(w, 16);
    ToFromBits(w[..16]);
    Pow2Of8();
    Pow2Plus8(8);
    RecomposeHalves(FromBits(w[16..]), FromBits(w[..16]));
  }

  /** What precedes the payload. */
  function BodyHead(m: Message): seq<byte>
    requires PacketSize(m) <= MAX_PACKET_SIZE
  {
    [PB_START] + WriteInt32(PacketSize(m)) + WriteInt32(|m.msgId|) + m.msgId
    + WriteInt32(|m.methodName|) + m.methodName + WriteInt32(m.errCode)
    + WriteInt32(|m.errInfo|) + m.errInfo
  }

  lemma BodyEndsInPayload(m: Message)
    requires PacketSize(m) <= MAX_PACKET_SIZE
    ensures Body(m) == BodyHead(m) + m.pbData
  {
    hide WriteInt32;
  }

  lemma TwinTails(front: seq<byte>, a: seq<byte>, b: seq<byte>)
    requires Twins(a, b)
    ensures Twins(front + a, front + b)
  {
    hide TurnFirst, TurnSecond;
    var k := |a| - 2;
    assert (front + a)[..|front| + k] == front + a[..k];
    assert (front + b)[..|front| + k] == front + b[..k];
  }

  lemma TamperedBody(m: Message)
    requires PacketSize(m) <= MAX_PACKET_SIZE && |m.pbData| >= 2
    ensures Twins(Body(m), Body(Tampered(m)))
  {
    hide Body, BodyHead, TurnFirst, TurnSecond;
    var t := Tampered(m);
    BodyEndsInPayload(m);
    BodyEndsInPayload(t);
    assert Twins(m.pbData, t.pbData);
    TwinTails(BodyHead(m), m.pbData, t.pbData);
    SameHead(m, t);
  }

  lemma SameHead(m: Message, t: Message)
    requires t == m.(pbData := t.pbData) && PacketSize(t) == PacketSize(m) <= MAX_PACKET_SIZE
    ensures BodyHead(m) == BodyHead(t)
  {
    hide WriteInt32;
  }

  lemma TwinsDiffer(a: seq<byte>, b: seq<byte>)
    requires Twins(a, b)
    ensures a != b
  {
    BlindSpot.ChangesFirstBit();
    var k, change := |a| - 2, BlindSpot.Change();
    assert ToBits(b[k], 8)[0] != ToBits(a[k], 8)[0];
  }

  lemma TwinSums(a: seq<byte>, b: seq<byte>)
    requires Twins(a, b)
    ensures WriteInt32(Checksum(a))[2..] == WriteInt32(Checksum(b))[2..]
  {
    hide Crc.Crc, WriteInt32, FromBits, Crc.Value;
    SameLowerHalf(a, b);
    LowBytes(Crc.Crc(a, Crc.CRC_32));
    LowBytes(Crc.Crc(b, Crc.CRC_32));
  }

  lemma GluedTwins(a: seq<byte>, b: seq<byte>, x: seq<byte>, y: seq<byte>)
    requires |a| == |b| >= 2 && |x| == |y| == 4 && a != b
    requires a[..|a| - 2] == b[..|a| - 2] && x[2..] == y[2..]
    ensures DifferAtBorder(a + x + [PB_END], b + y + [PB_END])
  {
    var f, g, n := a + x + [PB_END], b + y + [PB_END], |a| + 5;
    assert f[..n - 5] == a && g[..n - 5] == b;
    assert f[..n - 7] == a[..n - 7] && g[..n - 7] == b[..n - 7];
    assert f[n - 3..] == x[2..] + [PB_END] && g[n - 3..] == y[2..] + [PB_END];
  }

  lemma TwinFrames(m: Message, t: Message)
    requires PacketSize(m) == PacketSize(t) <= MAX_PACKET_SIZE && Twins(Body(m), Body(t))
    ensures DifferAtBorder(Wire(m), Wire(t))
  {
    hide Body, WriteInt32, Checksum, TurnFirst, TurnSecond;
    TwinSums(Body(m), Body(t));
    TwinsDiffer(Body(m), Body(t));
    GluedTwins(Body(m), Body(t), WriteInt32(Checksum(Body(m))), WriteInt32(Checksum(Body(t))));
  }

  /** Two frames that differ in four consecutive bytes only, the last two of the body and the
      first two of the checksum. */
  ghost predicate DifferAtBorder(f: seq<byte>, g: seq<byte>) {
    && |f| == |g| >= 7 && f != g
    && g[..|f| - 7] == f[..|f| - 7] && g[|f| - 3..] == f[|f| - 3..]
  }

  /** Changes across the border between body and checksum can go unnoticed: for every message
      with two bytes of payload there is another whose frame differs there only. */
  lemma StraddlingUnnoticed(m: Message)
    requires InLimit(m) && |m.pbData| >= 2
    ensures InLimit(Tampered(m)) && DifferAtBorder(Frame(m), Frame(Tampered(m)))
    ensures Framed(Frame(Tampered(m))) && Parse(Frame(Tampered(m))) == Some(Stamped(Tampered(m)))
  {
    TamperedWithId(m);
    hide *;
    TamperedBody(WithId(m));
    TwinFrames(WithId(m), WithId(Tampered(m)));
    ParsePrinted(Tampered(m));
    FramesAreWires(m);
    FramesAreWires(Tampered(m));
  }

  lemma TamperedWithId(m: Message)
    requires InLimit(m) && |m.pbData| >= 2
    ensures InLimit(Tampered(m)) && |WithId(m).pbData| >= 2
    ensures WithId(Tampered(m)) == Tampered(WithId(m))
    ensures PacketSize(WithId(Tampered(m))) == PacketSize(WithId(m)) <= MAX_PACKET_SIZE
  {
    hide TurnTail;
  }

  lemma FramesAreWires(m: Message)
    requires InLimit(m)
    ensures PacketSize(WithId(m)) <= MAX_PACKET_SIZE && Frame(m) == Wire(WithId(m))
  {
  }
}
