/** Keys on their way to and from etcd: base64 as in section 4 of RFC 4648, and the end of the
    key range that covers a prefix. */
module EtcdKeys {
  import opened Bits
  import opened Common

  const PAD: byte := 61 // '='
  const FILL: byte := 65 // 'A'

  /** The alphabet: A-Z, a-z, 0-9, + and /. */
  function Letter(v: nat): (c: byte)
    requires v < 64
  {
    if v < 26 then 65 + v
    else if v < 52 then 97 + (v - 26)
    else if v < 62 then 48 + (v - 52)
    else if v == 62 then 43
    else 47
  }

  /** The value of a letter; every other character counts as zero. */
  function Digit(c: byte): (v: nat)
    ensures v < 64
  {
    if 65 <= c < 91 then c - 65
    else if 97 <= c < 123 then 26 + (c - 97)
    else if 48 <= c < 58 then 52 + (c - 48)
    else if c == 43 then 62
    else if c == 47 then 63
    else 0
  }

  lemma DigitOfLetter(v: nat)
    requires v < 64
    ensures Digit(Letter(v)) == v && Letter(v) != PAD
  {
  }

  lemma LetterOfDigit(c: byte)
    requires Digit(c) != 0
    ensures Letter(Digit(c)) == c
  {
  }

  /** The decoding table is filled from the alphabet once. */
  method DecodeTable() returns (table: array<nat>)
    ensures fresh(table) && table.Length == 256
    ensures forall c: byte :: table[c] == Digit(c)
  {
    table := new nat[256](_ => 0);
    for v := 0 to 64
      invariant forall c: byte :: table[c] == if Digit(c) < v then Digit(c) else 0
    {
      DigitOfLetter(v);
      forall c: byte | Digit(c) == v && v != 0
        ensures c == Letter(v)
      {
        LetterOfDigit(c);
      }
      hide Letter;
      table[Letter(v)] := v;
    }
  }

  // ---------------------------------------------------------------------------------------
  // Encoding
  // ---------------------------------------------------------------------------------------

  // The four sextets of three bytes, and back; shifts and masks never overlap.

  function First(b0: byte): (v: nat)
    ensures v < 64
  {
    b0 / 4
  }

  function Second(b0: byte, b1: byte): (v: nat)
    ensures v < 64
  {
    b0 % 4 * 16 + b1 / 16
  }

  function Third(b1: byte, b2: byte): (v: nat)
    ensures v < 64
  {
    b1 % 16 * 4 + b2 / 64
  }

  function Fourth(b2: byte): (v: nat)
    ensures v < 64
  {
    b2 % 64
  }

  function Byte0(v0: nat, v1: nat): byte
    requires v0 < 64 && v1 < 64
  {
    v0 * 4 + v1 / 16
  }

  function Byte1(v1: nat, v2: nat): byte
    requires v1 < 64 && v2 < 64
  {
    v1 % 16 * 16 + v2 / 4
  }

  function Byte2(v2: nat, v3: nat): byte
    requires v2 < 64 && v3 < 64
  {
    v2 % 4 * 64 + v3
  }

  lemma Regroup(b0: byte, b1: byte, b2: byte)
    ensures Byte0(First(b0), Second(b0, b1)) == b0
    ensures Byte1(Second(b0, b1), Third(b1, b2)) == b1
    ensures Byte2(Third(b1, b2), Fourth(b2)) == b2
  {
  }

  /** Byte `i`, or zero behind the end. */
  function At(data: seq<byte>, i: nat): byte {
    if i < |data| then data[i] else 0
  }

  /** Four letters for the next one to three bytes. */
  function EncodeGroup(g: seq<byte>): (r: seq<byte>)
    requires 1 <= |g| <= 3
    ensures |r| == 4
  {
    [Letter(First(g[0])),
     Letter(Second(g[0], At(g, 1))),
     if |g| > 1 then Letter(Third(g[1], At(g, 2))) else PAD,
     if |g| > 2 then Letter(Fourth(g[2])) else PAD]
  }

  function Encode(data: seq<byte>): seq<byte> {
    if |data| == 0 then []
    else if |data| <= 3 then EncodeGroup(data)
    else EncodeGroup(data[..3]) + Encode(data[3..])
  }

  lemma EncodeStep(data: seq<byte>, i: nat)
    requires i < |data|
    ensures var end := Min(i + 3, |data|);
      Encode(data[i..]) == EncodeGroup(data[i..end]) + Encode(data[end..])
  {
    hide EncodeGroup;
    var rest := data[i..];
    if |rest| > 3 {
      assert rest[..3] == data[i..i + 3] && rest[3..] == data[i + 3..];
    } else {
      assert data[i..|data|] == rest && data[|data|..] == [];
    }
  }

  method Base64Encode(data: seq<byte>) returns (out: seq<byte>)
    ensures out == Encode(data)
  {
    hide Encode, EncodeGroup;
    out := [];
    var i := 0;
    assert data[0..] == data;
    while i < |data|
      invariant out + Encode(data[Min(i, |data|)..]) == Encode(data)
    {
      EncodeStep(data, i);
      var group := EncodeNext(data, i);
      out := out + group;
      i := i + 3;
    }
    EncodeNothing();
    assert data[|data|..] == [];
  }

  method EncodeNext(data: seq<byte>, i: nat) returns (out: seq<byte>)
    requires i < |data|
    ensures out == EncodeGroup(data[i..Min(i + 3, |data|)])
  {
    hide Letter, First, Second, Third, Fourth;
    var b0 := data[i];
    var b1 := if i + 1 < |data| then data[i + 1] else 0;
    var b2 := if i + 2 < |data| then data[i + 2] else 0;
    ghost var g := data[i..Min(i + 3, |data|)];
    assert g[0] == b0 && At(g, 1) == b1 && At(g, 2) == b2;
    out := [Letter(First(b0))];
    out := out + [Letter(Second(b0, b1))];
    out := out + [if i + 1 < |data| then Letter(Third(b1, b2)) else PAD];
    out := out + [if i + 2 < |data| then Letter(Fourth(b2)) else PAD];
  }

  lemma EncodeNothing()
    ensures Encode([]) == [] && Decode([]) == []
  {
  }

  // ---------------------------------------------------------------------------------------
  // Decoding
  // ---------------------------------------------------------------------------------------

  /** Character `i`, or 'A' behind the end. */
  function CharAt(text: seq<byte>, i: nat): byte {
    if i < |text| then text[i] else FILL
  }

  /** Up to three bytes for the next four characters, of which missing ones count as 'A'. */
  function DecodeGroup(g: seq<byte>): (r: seq<byte>)
    requires 1 <= |g| <= 4
  {
    var v1, v2 := Digit(CharAt(g, 1)), Digit(CharAt(g, 2));
    [Byte0(Digit(g[0]), v1)]
    + (if CharAt(g, 2) != PAD then [Byte1(v1, v2)] else [])
    + (if CharAt(g, 3) != PAD then [Byte2(v2, Digit(CharAt(g, 3)))] else [])
  }

  function Decode(text: seq<byte>): seq<byte> {
    if |text| == 0 then []
    else if |text| <= 4 then DecodeGroup(text)
    else DecodeGroup(text[..4]) + Decode(text[4..])
  }

  lemma DecodeStep(text: seq<byte>, i: nat)
    requires i < |text|
    ensures var end := Min(i + 4, |text|);
      Decode(text[i..]) == DecodeGroup(text[i..end]) + Decode(text[end..])
  {
    hide DecodeGroup;
    var rest := text[i..];
    if |rest| > 4 {
      assert rest[..4] == text[i..i + 4] && rest[4..] == text[i + 4..];
    } else {
      assert text[i..|text|] == rest && text[|text|..] == [];
    }
  }

  method Base64Decode(text: seq<byte>) returns (out: seq<byte>)
    ensures out == Decode(text)
  {
    hide Decode, DecodeGroup, Digit;
    var table := DecodeTable();
    out := [];
    var i := 0;
    assert text[0..] == text;
    while i < |text|
      invariant forall c: byte :: table[c] == Digit(c)
      invariant out + Decode(text[Min(i, |text|)..]) == Decode(text)
    {
      DecodeStep(text, i);
      var group := DecodeNext(table, text, i);
      out := out + group;
      i := i + 4;
    }
    EncodeNothing();
    assert text[|text|..] == [];
  }

  method DecodeNext(table: array<nat>, text: seq<byte>, i: nat) returns (out: seq<byte>)
    requires table.Length == 256 && (forall c: byte :: table[c] == Digit(c)) && i < |text|
    ensures out == DecodeGroup(text[i..Min(i + 4, |text|)])
  {
    hide Digit, Byte0, Byte1, Byte2;
    var c0 := text[i];
    var c1 := if i + 1 < |text| then text[i + 1] else FILL;
    var c2 := if i + 2 < |text| then text[i + 2] else FILL;
    var c3 := if i + 3 < |text| then text[i + 3] else FILL;
    ghost var g := text[i..Min(i + 4, |text|)];
    assert g[0] == c0 && CharAt(g, 1) == c1 && CharAt(g, 2) == c2 && CharAt(g, 3) == c3;
    var v0, v1, v2, v3 := table[c0], table[c1], table[c2], table[c3];
    out := [Byte0(v0, v1)];
    if c2 != PAD {
      out := out + [Byte1(v1, v2)];
    }
    if c3 != PAD {
      out := out + [Byte2(v2, v3)];
    }
  }

  lemma GroupRoundTrip(g: seq<byte>)
    requires 1 <= |g| <= 3
    ensures DecodeGroup(EncodeGroup(g)) == g
  {
    assert Digit(PAD) == 0;
    hide Digit, Letter, First, Second, Third, Fourth, Byte0, Byte1, Byte2;
    Regroup(g[0], At(g, 1), At(g, 2));
    DigitOfLetter(First(g[0]));
    DigitOfLetter(Second(g[0], At(g, 1)));
    DigitOfLetter(Third(At(g, 1), At(g, 2)));
    DigitOfLetter(Fourth(At(g, 2)));
    PaddedBytes(g[0], At(g, 1));
  }

  /** What the padding stands for does not matter. */
  lemma PaddedBytes(b0: byte, b1: byte)
    ensures Byte1(Second(b0, b1), Third(b1, 0)) == b1 && Byte0(First(b0), Second(b0, 0)) == b0
  {
    Regroup(b0, b1, 0);
    Regroup(b0, 0, 0);
  }

  /** Decoding undoes encoding, for every byte string. */
  lemma {:induction false} RoundTrip(data: seq<byte>)
    ensures Decode(Encode(data)) == data
  {
    hide EncodeGroup, DecodeGroup;
    if 0 < |data| <= 3 {
      GroupRoundTrip(data);
    } else if |data| > 3 {
      GroupRoundTrip(data[..3]);
      RoundTrip(data[3..]);
      EncodesMore(data[3..]);
      var text := Encode(data);
      assert text[..4] == EncodeGroup(data[..3]) && text[4..] == Encode(data[3..]);
      assert data == data[..3] + data[3..];
    }
  }

  lemma EncodesMore(data: seq<byte>)
    requires data != []
    ensures |Encode(data)| >= 4
  {
  }

  /** How many signs of padding end the encoding of `n` bytes. */
  function Padding(n: nat): nat {
    if n % 3 == 0 then 0 else 3 - n % 3
  }

  lemma GroupShape(g: seq<byte>)
    requires 1 <= |g| <= 3
    ensures forall i :: 0 <= i < 4 ==> (EncodeGroup(g)[i] == PAD <==> i >= 4 - Padding(|g|))
  {
    hide Digit, Letter, First, Second, Third, Fourth;
    DigitOfLetter(First(g[0]));
    DigitOfLetter(Second(g[0], At(g, 1)));
    DigitOfLetter(Third(At(g, 1), At(g, 2)));
    DigitOfLetter(Fourth(At(g, 2)));
  }

  /** The encoding has four characters for every three bytes begun, and padding exactly at its
      end: two signs for one last byte, one sign for two. */
  lemma {:induction false} EncodedShape(data: seq<byte>, i: nat)
    requires i < |Encode(data)|
    ensures |Encode(data)| == EncodedLength(|data|)
    ensures Encode(data)[i] == PAD <==> i >= |Encode(data)| - Padding(|data|)
  {
    hide EncodeGroup, EncodedLength, Padding;
    if 0 < |data| <= 3 {
      OneGroup(|data|);
      GroupShape(data);
    } else if |data| > 3 {
      var rest := data[3..];
      EncodesMore(rest);
      EncodedShape(rest, if i < 4 then 0 else i - 4);
      GroupShape(data[..3]);
      OneGroup(3);
      AnotherGroup(|data|);
      PaddingFits(|rest|);
      if i < 4 {
        assert Encode(data)[i] == EncodeGroup(data[..3])[i];
      } else {
        assert Encode(data)[i] == Encode(rest)[i - 4];
      }
    }
  }

  function EncodedLength(n: nat): nat {
    (n + 2) / 3 * 4
  }

  lemma OneGroup(n: nat)
    requires 0 < n <= 3
    ensures EncodedLength(n) == 4 && Padding(n) == 3 - n
  {
  }

  lemma AnotherGroup(n: nat)
    requires n > 3
    ensures EncodedLength(n) == 4 + EncodedLength(n - 3) && Padding(n) == Padding(n - 3)
  {
    ThreeMore(n - 3);
    ThreeMore(n - 1);
  }

  lemma ThreeMore(n: nat)
    ensures (n + 3) / 3 == n / 3 + 1 && (n + 3) % 3 == n % 3
  {
  }

  lemma PaddingFits(n: nat)
    requires n > 0
    ensures Padding(n) <= 2 && EncodedLength(n) >= 4
  {
  }

  // ---------------------------------------------------------------------------------------
  // What the characters stand for
  // ---------------------------------------------------------------------------------------

  /** The alphabet of section 4 of RFC 4648. */
  const ALPHABET: string := "ABCDEFGHIJKLMNOP" +
    "QRSTUVWXYZabcdef" +
    "ghijklmnopqrstuv" +
    "wxyz0123456789+/"

  lemma LetterInAlphabet(v: nat)
    requires v < 64
    ensures |ALPHABET| == 64 && Letter(v) == ALPHABET[v] as int
  {
  }

  /** Bit `k` of the data, the most significant of each byte first; zero behind the end. */
  function BitAt(data: seq<byte>, k: nat): nat {
    if k / 8 < |data| then BitOf(data[k / 8], 7 - k % 8) else 0
  }

  function BitOf(b: byte, j: nat): nat {
    b / Weight(j) % 2
  }

  function Weight(j: nat): (w: nat)
    ensures w > 0
  {
    match j
    case 0 => 1
    case 1 => 2
    case 2 => 4
    case 3 => 8
    case 4 => 16
    case 5 => 32
    case 6 => 64
    case _ => 128
  }

  /** The number formed by the six bits from bit `6 * i` on. */
  function SextetAt(data: seq<byte>, i: nat): nat {
    var k := 6 * i;
    32 * BitAt(data, k) + 16 * BitAt(data, k + 1) + 8 * BitAt(data, k + 2)
    + 4 * BitAt(data, k + 3) + 2 * BitAt(data, k + 4) + BitAt(data, k + 5)
  }

  lemma Halves(b: byte)
    ensures b == 2 * (b / 2) + b / 1 % 2 && b / 2 == 2 * (b / 4) + b / 2 % 2
  {
  }

  lemma MiddleHalves(b: byte)
    ensures b / 4 == 2 * (b / 8) + b / 4 % 2 && b / 8 == 2 * (b / 16) + b / 8 % 2
  {
  }

  lemma UpperHalves(b: byte)
    ensures b / 16 == 2 * (b / 32) + b / 16 % 2 && b / 32 == 2 * (b / 64) + b / 32 % 2
    ensures b / 64 == 2 * (b / 128) + b / 64 % 2 && b / 128 == b / 128 % 2
  {
  }

  /** The sextets of a group, by its bits. */
  lemma FirstSextet(b: byte)
    ensures First(b) == 32 * BitOf(b, 7) + 16 * BitOf(b, 6) + 8 * BitOf(b, 5)
                      + 4 * BitOf(b, 4) + 2 * BitOf(b, 3) + BitOf(b, 2)
  {
    MiddleHalves(b);
    UpperHalves(b);
  }

  lemma SecondSextet(b0: byte, b1: byte)
    ensures Second(b0, b1) == 32 * BitOf(b0, 1) + 16 * BitOf(b0, 0) + 8 * BitOf(b1, 7)
                            + 4 * BitOf(b1, 6) + 2 * BitOf(b1, 5) + BitOf(b1, 4)
  {
    Halves(b0);
    Remainders(b0);
    UpperHalves(b1);
  }

  lemma ThirdSextet(b1: byte, b2: byte)
    ensures Third(b1, b2) == 32 * BitOf(b1, 3) + 16 * BitOf(b1, 2) + 8 * BitOf(b1, 1)
                           + 4 * BitOf(b1, 0) + 2 * BitOf(b2, 7) + BitOf(b2, 6)
  {
    Halves(b1);
    MiddleHalves(b1);
    Remainders(b1);
    UpperHalves(b2);
  }

  lemma FourthSextet(b2: byte)
    ensures Fourth(b2) == 32 * BitOf(b2, 5) + 16 * BitOf(b2, 4) + 8 * BitOf(b2, 3)
                        + 4 * BitOf(b2, 2) + 2 * BitOf(b2, 1) + BitOf(b2, 0)
  {
    Halves(b2);
    MiddleHalves(b2);
    UpperHalves(b2);
    Remainders(b2);
  }

  lemma Remainders(b: byte)
    ensures b == 4 * (b / 4) + b % 4 && b == 16 * (b / 16) + b % 16 && b == 64 * (b / 64) + b % 64
  {
  }

  lemma BitIs(g: seq<byte>, k: nat)
    ensures BitAt(g, k) == BitOf(At(g, k / 8), 7 - k % 8)
  {
    ZeroBits(7 - k % 8);
  }

  lemma ZeroBits(j: nat)
    ensures BitOf(0, j) == 0
  {
  }

  /** The bits of a group. */
  lemma GroupBits(g: seq<byte>)
    ensures forall k :: 0 <= k < 8 ==> BitAt(g, k) == BitOf(At(g, 0), 7 - k)
    ensures forall k :: 8 <= k < 16 ==> BitAt(g, k) == BitOf(At(g, 1), 15 - k)
    ensures forall k :: 16 <= k < 24 ==> BitAt(g, k) == BitOf(At(g, 2), 23 - k)
  {
    hide BitOf;
    forall k: nat | k < 24
      ensures BitAt(g, k) == BitOf(At(g, k / 8), 7 - k % 8)
    {
      BitIs(g, k);
    }
    hide BitAt;
  }

  lemma GroupSextets(g: seq<byte>)
    ensures SextetAt(g, 0) == First(At(g, 0)) && SextetAt(g, 1) == Second(At(g, 0), At(g, 1))
    ensures SextetAt(g, 2) == Third(At(g, 1), At(g, 2)) && SextetAt(g, 3) == Fourth(At(g, 2))
  {
    hide First, Second, Third, Fourth, At, BitOf, BitAt;
    GroupBits(g);
    FirstSextet(At(g, 0));
    SecondSextet(At(g, 0), At(g, 1));
    ThirdSextet(At(g, 1), At(g, 2));
    FourthSextet(At(g, 2));
  }

  lemma GroupLetters(g: seq<byte>, i: nat)
    requires 1 <= |g| <= 3 && i < 4 - Padding(|g|)
    ensures SextetAt(g, i) < 64 && EncodeGroup(g)[i] == Letter(SextetAt(g, i))
  {
    hide Letter, SextetAt, First, Second, Third, Fourth;
    GroupSextets(g);
  }

  lemma SameBit(data: seq<byte>, k: nat)
    requires |data| > 3
    ensures k < 24 ==> BitAt(data, k) == BitAt(data[..3], k)
    ensures k >= 24 ==> BitAt(data, k) == BitAt(data[3..], k - 24)
  {
    if k >= 24 {
      assert (k - 24) / 8 == k / 8 - 3 && (k - 24) % 8 == k % 8;
    }
  }

  lemma SameSextet(data: seq<byte>, i: nat)
    requires |data| > 3
    ensures SextetAt(data, i) == if i < 4 then SextetAt(data[..3], i) else SextetAt(data[3..], i - 4)
  {
    hide BitAt;
    SameBit(data, 6 * i);
    SameBit(data, 6 * i + 1);
    SameBit(data, 6 * i + 2);
    SameBit(data, 6 * i + 3);
    SameBit(data, 6 * i + 4);
    SameBit(data, 6 * i + 5);
  }

  lemma {:induction false} EncodedLetters(data: seq<byte>, i: nat)
    requires i < |Encode(data)| - Padding(|data|)
    ensures SextetAt(data, i) < 64 && Encode(data)[i] == Letter(SextetAt(data, i))
    decreases |data|
  {
    hide EncodeGroup, Letter, SextetAt, Padding;
    if |data| == 0 {
      NoPadding();
    } else if |data| <= 3 {
      GroupLetters(data, i);
    } else {
      var rest := data[3..];
      EncodesMore(rest);
      AnotherGroup(|data|);
      SameSextet(data, i);
      if i < 4 {
        OneGroup(3);
        GroupLetters(data[..3], i);
      } else {
        EncodedLetters(rest, i - 4);
      }
    }
  }

  lemma NoPadding()
    ensures Padding(0) == 0
  {
  }

  /** The encoding as section 4 of RFC 4648 defines it: character `i`, before the padding, is the
      letter at the number formed by the six bits of the data from bit `6 * i` on. */
  lemma EncodedAsDefined(data: seq<byte>, i: nat)
    requires i < |Encode(data)| - Padding(|data|)
    ensures SextetAt(data, i) < |ALPHABET| == 64 && Encode(data)[i] == ALPHABET[SextetAt(data, i)] as int
  {
    hide Encode, Letter, SextetAt, Padding, ALPHABET;
    EncodedLetters(data, i);
    LetterInAlphabet(SextetAt(data, i));
  }

  // ---------------------------------------------------------------------------------------
  // Text without padding
  // ---------------------------------------------------------------------------------------

  /** A group of two characters that is read with its value `w` behind the end. */
  lemma TwoCharacters(c0: byte, c1: byte, w: nat)
    requires w == Digit(FILL) && FILL != PAD
    ensures DecodeGroup([c0, c1])
         == [Byte0(Digit(c0), Digit(c1)), Byte1(Digit(c1), w), Byte2(w, w)]
  {
    hide Digit, Byte0, Byte1, Byte2;
    var g := [c0, c1];
    assert g[0] == c0 && CharAt(g, 1) == c1 && CharAt(g, 2) == FILL && CharAt(g, 3) == FILL;
    hide CharAt;
  }

  lemma ShortOne(b0: byte)
    ensures DecodeGroup([Letter(First(b0)), Letter(Second(b0, 0))]) == [b0, 0, 0]
  {
    hide DecodeGroup, Digit, Letter, First, Second, Byte0, Byte1, Byte2;
    Digits(b0);
    TwoCharacters(Letter(First(b0)), Letter(Second(b0, 0)), 0);
  }

  lemma Digits(b0: byte)
    ensures Digit(FILL) == 0 && FILL != PAD
    ensures Digit(Letter(First(b0))) == First(b0) && Digit(Letter(Second(b0, 0))) == Second(b0, 0)
    ensures Byte0(First(b0), Second(b0, 0)) == b0 && Byte1(Second(b0, 0), 0) == 0 && Byte2(0, 0) == 0
  {
    assert Digit(FILL) == 0;
    hide Digit, Letter, First, Second, Byte0, Byte1, Byte2;
    DigitOfLetter(First(b0));
    DigitOfLetter(Second(b0, 0));
    Regroup(b0, 0, 0);
    ZeroSecond(b0);
    ZeroBoth();
  }

  lemma ShortTwo(b0: byte, b1: byte)
    ensures DecodeGroup([Letter(First(b0)), Letter(Second(b0, b1)), Letter(Third(b1, 0))]) == [b0, b1, 0]
  {
    assert Digit(FILL) == 0;
    hide Digit, Letter, First, Second, Third, Byte0, Byte1, Byte2;
    DigitOfLetter(First(b0));
    DigitOfLetter(Second(b0, b1));
    DigitOfLetter(Third(b1, 0));
    Regroup(b0, b1, 0);
    ZeroThird(b1);
  }

  lemma ShortGroup(g: seq<byte>)
    requires 1 <= |g| <= 3
    ensures DecodeGroup(EncodeGroup(g)[..4 - Padding(|g|)]) == g + seq(Padding(|g|), _ => 0)
  {
    hide DecodeGroup, Letter, First, Second, Third, Fourth;
    if |g| == 1 {
      ShortOne(g[0]);
      assert EncodeGroup(g)[..2] == [Letter(First(g[0])), Letter(Second(g[0], 0))];
      assert g + seq(2, _ => 0) == [g[0], 0, 0];
    } else if |g| == 2 {
      ShortTwo(g[0], g[1]);
      assert EncodeGroup(g)[..3] == [Letter(First(g[0])), Letter(Second(g[0], g[1])), Letter(Third(g[1], 0))];
      assert g + seq(1, _ => 0) == [g[0], g[1], 0];
    } else {
      GroupRoundTrip(g);
      assert EncodeGroup(g)[..4] == EncodeGroup(g);
    }
  }

  /** Missing characters stand for zero bits. */
  lemma ZeroSecond(b0: byte)
    ensures Byte1(Second(b0, 0), 0) == 0
  {
    assert Second(b0, 0) == 16 * (b0 % 4);
  }

  lemma ZeroThird(b1: byte)
    ensures Byte2(Third(b1, 0), 0) == 0
  {
    assert Third(b1, 0) == 4 * (b1 % 16);
  }

  lemma ZeroBoth()
    ensures Byte2(0, 0) == 0
  {
  }

  /** Text whose padding was cut off decodes to the data and one zero byte for each sign that is
      missing. */
  lemma {:induction false} UnpaddedDecodes(data: seq<byte>)
    ensures Padding(|data|) <= |Encode(data)|
    ensures Decode(Encode(data)[..|Encode(data)| - Padding(|data|)]) == data + seq(Padding(|data|), _ => 0)
    decreases |data|
  {
    hide EncodeGroup, DecodeGroup, Padding;
    if |data| == 0 {
      NoPadding();
    } else if |data| <= 3 {
      OneGroup(|data|);
      ShortGroup(data);
    } else {
      var rest := data[3..];
      var n, zeros := Padding(|data|), seq(Padding(|data|), _ => 0);
      EncodesMore(rest);
      AnotherGroup(|data|);
      PaddingFits(|rest|);
      UnpaddedDecodes(rest);
      GroupRoundTrip(data[..3]);
      var text := Encode(data)[..|Encode(data)| - n];
      assert text[..4] == EncodeGroup(data[..3]);
      assert text[4..] == Encode(rest)[..|Encode(rest)| - n];
      assert |text| > 4;
      assert data + zeros == data[..3] + (rest + zeros);
    }
  }

  // ---------------------------------------------------------------------------------------
  // Prefix ranges
  // ---------------------------------------------------------------------------------------

  /** Lexicographic order of byte strings. */
  predicate Less(a: seq<byte>, b: seq<byte>) {
    b != [] && (a == [] || a[0] < b[0] || (a[0] == b[0] && Less(a[1..], b[1..])))
  }

  predicate HasPrefix(s: seq<byte>, key: seq<byte>) {
    key <= s
  }

  /** The marker for a range without an upper end. */
  const EVERYTHING: seq<byte> := [0]

  /** What a store returns for the range from `key` to `end`. */
  predicate InRange(key: seq<byte>, end: seq<byte>, s: seq<byte>) {
    !Less(s, key) && (end == EVERYTHING || Less(s, end))
  }

  function AllMax(n: nat): (s: seq<byte>)
    ensures |s| == n
  {
    seq(n, _ => 255)
  }

  /** `key` with its last byte below 0xff incremented and the bytes after it cut off. */
  function RangeEnd(key: seq<byte>): seq<byte> {
    if key == [] then EVERYTHING
    else
      var n := |key| - 1;
      if key[n] < 255 then key[..n] + [key[n] + 1] else RangeEnd(key[..n])
  }

  /** The text that goes into the request. */
  method Base64RangeEnd(key: seq<byte>) returns (out: seq<byte>)
    ensures out == Encode(RangeEnd(key))
  {
    var i := |key| - 1;
    assert key[..i + 1] == key;
    while i >= 0
      invariant -1 <= i < |key|
      invariant RangeEnd(key) == RangeEnd(key[..i + 1])
    {
      var b: nat := key[i];
      assert key[..i + 1][..i] == key[..i];
      if b < 255 {
        var end := key[i := b + 1][..i + 1];
        assert end == key[..i] + [b + 1];
        out := Base64Encode(end);
        return;
      }
      i := i - 1;
    }
    out := Base64Encode([0]);
  }

  lemma {:induction false} MaxIsTop(n: nat, s: seq<byte>)
    ensures HasPrefix(s, AllMax(n)) <==> !Less(s, AllMax(n))
  {
    var key := AllMax(n);
    if n > 0 && s != [] {
      assert key[1..] == AllMax(n - 1);
      MaxIsTop(n - 1, s[1..]);
      assert s == [s[0]] + s[1..] && key == [key[0]] + key[1..];
    }
  }

  lemma {:induction false} PrefixBounds(front: seq<byte>, b: nat, n: nat, s: seq<byte>)
    requires b < 255
    ensures var key := front + [b] + AllMax(n);
      HasPrefix(s, key) <==> !Less(s, key) && Less(s, front + [b + 1])
    decreases |front|
  {
    var key, end := front + [b] + AllMax(n), front + [b + 1];
    if s != [] {
      assert s == [s[0]] + s[1..] && key == [key[0]] + key[1..];
      if front == [] {
        assert key[1..] == AllMax(n) && end[1..] == [];
        MaxIsTop(n, s[1..]);
      } else {
        assert key[1..] == front[1..] + [b] + AllMax(n) && end[1..] == front[1..] + [b + 1];
        PrefixBounds(front[1..], b, n, s[1..]);
      }
    }
  }

  /** A key is a string of 0xff, or it has a last byte `b` below that. */
  datatype Tail = AllMaximal(n: nat) | Below(front: seq<byte>, b: nat, n: nat)

  lemma {:induction false} Split(key: seq<byte>) returns (t: Tail)
    ensures t.AllMaximal? ==> key == AllMax(t.n) && RangeEnd(key) == EVERYTHING
    ensures t.Below? ==> t.b < 255 && key == t.front + [t.b] + AllMax(t.n) && RangeEnd(key) == t.front + [t.b + 1]
  {
    if key == [] {
      t := AllMaximal(0);
    } else {
      var n := |key| - 1;
      assert key == key[..n] + [key[n]];
      if key[n] < 255 {
        t := Below(key[..n], key[n], 0);
      } else {
        t := Split(key[..n]);
        assert AllMax(t.n + 1) == AllMax(t.n) + [255];
        t := t.(n := t.n + 1);
      }
    }
  }

  /** The range from a key to its range end holds exactly the strings that begin with it. */
  lemma RangeIsPrefix(key: seq<byte>, s: seq<byte>)
    ensures InRange(key, RangeEnd(key), s) <==> HasPrefix(s, key)
  {
    hide Less, RangeEnd;
    var t := Split(key);
    match t
    case AllMaximal(n) => MaxIsTop(n, s);
    case Below(front, b, n) =>
      PrefixBounds(front, b, n, s);
      assert RangeEnd(key)[|front|] != 0;
  }
}
