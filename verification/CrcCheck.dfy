/** CRC-32 on 32-bit machine words, and its check value. */
module CrcCheck {
  import opened Bits
  import opened Crc
  import BlindSpot

  function Mask(i: nat): bv32
    requires i < 32
  {
    match i
    case 0 => 0x1
    case 1 => 0x2
    case 2 => 0x4
    case 3 => 0x8
    case 4 => 0x10
    case 5 => 0x20
    case 6 => 0x40
    case 7 => 0x80
    case 8 => 0x100
    case 9 => 0x200
    case 10 => 0x400
    case 11 => 0x800
    case 12 => 0x1000
    case 13 => 0x2000
    case 14 => 0x4000
    case 15 => 0x8000
    case 16 => 0x10000
    case 17 => 0x20000
    case 18 => 0x40000
    case 19 => 0x80000
    case 20 => 0x100000
    case 21 => 0x200000
    case 22 => 0x400000
    case 23 => 0x800000
    case 24 => 0x1000000
    case 25 => 0x2000000
    case 26 => 0x4000000
    case 27 => 0x8000000
    case 28 => 0x10000000
    case 29 => 0x20000000
    case 30 => 0x40000000
    case _ => 0x80000000
  }

  predicate Hit(b: bv32, mask: bv32) {
    b & mask != 0
  }

  predicate Bit(b: bv32, i: nat)
    requires i < 32
  {
    Hit(b, Mask(i))
  }

  /** The bits of a machine word, least significant first. */
  function WordOf(b: bv32): (w: Word)
    ensures forall i :: 0 <= i < 32 ==> w[i] == Bit(b, i)
  {
    seq(32, i requires 0 <= i < 32 => Bit(b, i))
  }

  predicate Twice(m: bv32, n: bv32) {
    m & 0x80000000 == 0 && n == m << 1
  }

  lemma MaskNext(i: nat)
    requires i < 31
    ensures Twice(Mask(i), Mask(i + 1))
  {
    match i
    case 0 => assert Mask(0) == 0x1 && Mask(1) == 0x2;
    case 1 => assert Mask(1) == 0x2 && Mask(2) == 0x4;
    case 2 => assert Mask(2) == 0x4 && Mask(3) == 0x8;
    case 3 => assert Mask(3) == 0x8 && Mask(4) == 0x10;
    case 4 => assert Mask(4) == 0x10 && Mask(5) == 0x20;
    case 5 => assert Mask(5) == 0x20 && Mask(6) == 0x40;
    case 6 => assert Mask(6) == 0x40 && Mask(7) == 0x80;
    case 7 => assert Mask(7) == 0x80 && Mask(8) == 0x100;
    case 8 => assert Mask(8) == 0x100 && Mask(9) == 0x200;
    case 9 => assert Mask(9) == 0x200 && Mask(10) == 0x400;
    case 10 => assert Mask(10) == 0x400 && Mask(11) == 0x800;
    case 11 => assert Mask(11) == 0x800 && Mask(12) == 0x1000;
    case 12 => assert Mask(12) == 0x1000 && Mask(13) == 0x2000;
    case 13 => assert Mask(13) == 0x2000 && Mask(14) == 0x4000;
    case 14 => assert Mask(14) == 0x4000 && Mask(15) == 0x8000;
    case 15 => assert Mask(15) == 0x8000 && Mask(16) == 0x10000;
    case 16 => assert Mask(16) == 0x10000 && Mask(17) == 0x20000;
    case 17 => assert Mask(17) == 0x20000 && Mask(18) == 0x40000;
    case 18 => assert Mask(18) == 0x40000 && Mask(19) == 0x80000;
    case 19 => assert Mask(19) == 0x80000 && Mask(20) == 0x100000;
    case 20 => assert Mask(20) == 0x100000 && Mask(21) == 0x200000;
    case 21 => assert Mask(21) == 0x200000 && Mask(22) == 0x400000;
    case 22 => assert Mask(22) == 0x400000 && Mask(23) == 0x800000;
    case 23 => assert Mask(23) == 0x800000 && Mask(24) == 0x1000000;
    case 24 => assert Mask(24) == 0x1000000 && Mask(25) == 0x2000000;
    case 25 => assert Mask(25) == 0x2000000 && Mask(26) == 0x4000000;
    case 26 => assert Mask(26) == 0x4000000 && Mask(27) == 0x8000000;
    case 27 => assert Mask(27) == 0x8000000 && Mask(28) == 0x10000000;
    case 28 => assert Mask(28) == 0x10000000 && Mask(29) == 0x20000000;
    case 29 => assert Mask(29) == 0x20000000 && Mask(30) == 0x40000000;
    case _ => assert Mask(30) == 0x40000000 && Mask(31) == 0x80000000;
  }

  predicate Single(m: bv32) {
    m & (m - 1) == 0
  }

  lemma MaskSingle(i: nat)
    requires i < 32
    ensures Single(Mask(i))
  {
  }

  function Half(b: bv32): bv32 {
    b >> 1
  }

  lemma ShiftMask(b: bv32, m: bv32, n: bv32)
    requires Twice(m, n)
    ensures Hit(Half(b), m) <==> Hit(b, n)
  {
  }

  lemma XorMask(a: bv32, b: bv32, m: bv32)
    requires Single(m)
    ensures Hit(a ^ b, m) <==> Hit(a, m) != Hit(b, m)
  {
  }

  lemma ShiftTop(b: bv32)
    ensures !Bit(Half(b), 31)
  {
  }

  lemma ShiftLow(b: bv32, i: nat)
    requires i < 31
    ensures Bit(Half(b), i) == Bit(b, i + 1)
  {
    hide Mask, Half, Twice, Hit;
    MaskNext(i);
    ShiftMask(b, Mask(i), Mask(i + 1));
  }

  lemma ShiftBit(b: bv32, i: nat)
    requires i < 32
    ensures Bit(Half(b), i) == (i < 31 && Bit(b, i + 1))
  {
    hide Bit, Half;
    if i < 31 {
      ShiftLow(b, i);
    } else {
      ShiftTop(b);
    }
  }

  lemma XorBit(a: bv32, b: bv32, i: nat)
    requires i < 32
    ensures Bit(a ^ b, i) == (Bit(a, i) != Bit(b, i))
  {
    hide Mask, Single, Hit;
    MaskSingle(i);
    XorMask(a, b, Mask(i));
  }

  lemma ShiftWord(b: bv32)
    ensures WordOf(Half(b)) == ShiftRight(WordOf(b), 1)
  {
    hide Bit, Half;
    forall i | 0 <= i < 32
      ensures WordOf(Half(b))[i] == ShiftRight(WordOf(b), 1)[i]
    {
      ShiftBit(b, i);
    }
  }

  lemma XorWord(a: bv32, b: bv32)
    ensures WordOf(a ^ b) == Xor(WordOf(a), WordOf(b))
  {
    hide Bit;
    forall i | 0 <= i < 32
      ensures WordOf(a ^ b)[i] == Xor(WordOf(a), WordOf(b))[i]
    {
      XorBit(a, b, i);
    }
  }

  /** One step of the inner loop, as the machine does it. */
  function Step(x: bv32): bv32 {
    if x & 1 == 1 then Half(x) ^ 0xEDB88320 else Half(x)
  }

  function Step8(x: bv32): bv32 {
    Step(Step(Step(Step(Step(Step(Step(Step(x))))))))
  }

  lemma LowBit(x: bv32)
    ensures Bit(x, 0) <==> x & 1 == 1
  {
  }

  lemma StepWord(x: bv32)
    ensures WordOf(Step(x)) == BitStep(WordOf(0xEDB88320), WordOf(x))
  {
    hide Bit;
    LowBit(x);
    ShiftWord(x);
    XorWord(Half(x), 0xEDB88320);
  }

  function Steps(x: bv32, n: nat): bv32 {
    if n == 0 then x else Step(Steps(x, n - 1))
  }

  /** Machine steps are division steps. */
  lemma {:induction false} StepsWord(x: bv32, n: nat)
    ensures WordOf(Steps(x, n)) == BitSteps(WordOf(0xEDB88320), WordOf(x), n)
  {
    hide Step, BitStep, WordOf;
    if n > 0 {
      StepsWord(x, n - 1);
      StepWord(Steps(x, n - 1));
    }
  }

  lemma EightSteps(x: bv32)
    ensures Step8(x) == Steps(x, 8)
  {
    hide Step;
    assert Steps(x, 1) == Step(Steps(x, 0));
    assert Steps(x, 2) == Step(Steps(x, 1));
    assert Steps(x, 4) == Step(Step(Steps(x, 2)));
    assert Steps(x, 6) == Step(Step(Steps(x, 4)));
    assert Steps(x, 8) == Step(Step(Steps(x, 6)));
  }

  lemma PolyBit(i: nat)
    requires i < 32
    ensures Bit(0xEDB88320, i) == BlindSpot.InPoly(i)
  {
    match i
    case 0 => assert Mask(0) == 0x1;
    case 1 => assert Mask(1) == 0x2;
    case 2 => assert Mask(2) == 0x4;
    case 3 => assert Mask(3) == 0x8;
    case 4 => assert Mask(4) == 0x10;
    case 5 => assert Mask(5) == 0x20;
    case 6 => assert Mask(6) == 0x40;
    case 7 => assert Mask(7) == 0x80;
    case 8 => assert Mask(8) == 0x100;
    case 9 => assert Mask(9) == 0x200;
    case 10 => assert Mask(10) == 0x400;
    case 11 => assert Mask(11) == 0x800;
    case 12 => assert Mask(12) == 0x1000;
    case 13 => assert Mask(13) == 0x2000;
    case 14 => assert Mask(14) == 0x4000;
    case 15 => assert Mask(15) == 0x8000;
    case 16 => assert Mask(16) == 0x10000;
    case 17 => assert Mask(17) == 0x20000;
    case 18 => assert Mask(18) == 0x40000;
    case 19 => assert Mask(19) == 0x80000;
    case 20 => assert Mask(20) == 0x100000;
    case 21 => assert Mask(21) == 0x200000;
    case 22 => assert Mask(22) == 0x400000;
    case 23 => assert Mask(23) == 0x800000;
    case 24 => assert Mask(24) == 0x1000000;
    case 25 => assert Mask(25) == 0x2000000;
    case 26 => assert Mask(26) == 0x4000000;
    case 27 => assert Mask(27) == 0x8000000;
    case 28 => assert Mask(28) == 0x10000000;
    case 29 => assert Mask(29) == 0x20000000;
    case 30 => assert Mask(30) == 0x40000000;
    case _ => assert Mask(31) == 0x80000000;
  }

  lemma PolyWord()
    ensures Reflected(CRC_32.polynomial) == WordOf(0xEDB88320)
  {
    hide Reflected, Bit, BlindSpot.InPoly;
    BlindSpot.PolyBits();
    forall i | 0 <= i < 32
      ensures BlindSpot.Poly()[i] == WordOf(0xEDB88320)[i]
    {
      PolyBit(i);
    }
  }

  /** Adding a byte to a machine word and dividing is the byte step. */
  lemma ByteWord(r: bv32, x: bv32, b: byte, next: bv32)
    requires Widen(b) == WordOf(x) && Step8(r ^ x) == next
    ensures ByteStep(Reflected(CRC_32.polynomial), WordOf(r), b) == WordOf(next)
  {
    hide WordOf, Step8, Steps, Reflected, Widen, BitSteps;
    PolyWord();
    XorWord(r, x);
    EightSteps(r ^ x);
    StepsWord(r ^ x, 8);
  }

  /** The low bits of a machine word. */
  function ByteBits(x: bv32): (bits: seq<bool>)
    ensures |bits| == 8
  {
    [Bit(x, 0), Bit(x, 1), Bit(x, 2), Bit(x, 3), Bit(x, 4), Bit(x, 5), Bit(x, 6), Bit(x, 7)]
  }

  lemma ByteBitsAt(x: bv32, i: nat)
    requires i < 8
    ensures ByteBits(x)[i] == Bit(x, i)
  {
    hide Bit;
  }

  lemma WidenWord(b: byte, x: bv32)
    requires x & 0xFFFFFF00 == 0 && ToBits(b, 8) == ByteBits(x)
    ensures Widen(b) == WordOf(x)
  {
    hide ToBits, Bit, ByteBits;
    forall i | 0 <= i < 32
      ensures Widen(b)[i] == WordOf(x)[i]
    {
      if i < 8 {
        ByteBitsAt(x, i);
      } else {
        HighBit(x, i);
      }
    }
  }

  lemma HighBit(x: bv32, i: nat)
    requires x & 0xFFFFFF00 == 0 && 8 <= i < 32
    ensures !Bit(x, i)
  {
    HighMask(i);
    Clear(x, Mask(i));
    hide Mask;
  }

  lemma HighMask(i: nat)
    requires 8 <= i < 32
    ensures Mask(i) & 0xFF == 0
  {
  }

  lemma Clear(x: bv32, m: bv32)
    requires x & 0xFFFFFF00 == 0 && m & 0xFF == 0
    ensures !Hit(x, m)
  {
  }

  lemma Char(b: byte, x: bv32, bits: seq<bool>)
    requires x & 0xFFFFFF00 == 0 && ToBits(b, 8) == bits && ByteBits(x) == bits
    ensures Widen(b) == WordOf(x)
  {
    hide ToBits, ByteBits, WordOf, Widen;
    WidenWord(b, x);
  }

  // The digits, as numbers and as machine words.

  lemma Number00()
    ensures ToBits(0x00, 8) == [false, false, false, false, false, false, false, false]
  {
  }

  lemma Bits00()
    ensures ByteBits(0x00) == [false, false, false, false, false, false, false, false]
  {
  }

  lemma Number31()
    ensures ToBits(0x31, 8) == [true, false, false, false, true, true, false, false]
  {
  }

  lemma Bits31()
    ensures ByteBits(0x31) == [true, false, false, false, true, true, false, false]
  {
  }

  lemma Number32()
    ensures ToBits(0x32, 8) == [false, true, false, false, true, true, false, false]
  {
  }

  lemma Bits32()
    ensures ByteBits(0x32) == [false, true, false, false, true, true, false, false]
  {
  }

  lemma Number33()
    ensures ToBits(0x33, 8) == [true, true, false, false, true, true, false, false]
  {
  }

  lemma Bits33()
    ensures ByteBits(0x33) == [true, true, false, false, true, true, false, false]
  {
  }

  lemma Number34()
    ensures ToBits(0x34, 8) == [false, false, true, false, true, true, false, false]
  {
  }

  lemma Bits34()
    ensures ByteBits(0x34) == [false, false, true, false, true, true, false, false]
  {
  }

  lemma Number35()
    ensures ToBits(0x35, 8) == [true, false, true, false, true, true, false, false]
  {
  }

  lemma Bits35()
    ensures ByteBits(0x35) == [true, false, true, false, true, true, false, false]
  {
  }

  lemma Number36()
    ensures ToBits(0x36, 8) == [false, true, true, false, true, true, false, false]
  {
  }

  lemma Bits36()
    ensures ByteBits(0x36) == [false, true, true, false, true, true, false, false]
  {
  }

  lemma Number37()
    ensures ToBits(0x37, 8) == [true, true, true, false, true, true, false, false]
  {
  }

  lemma Bits37()
    ensures ByteBits(0x37) == [true, true, true, false, true, true, false, false]
  {
  }

  lemma Number38()
    ensures ToBits(0x38, 8) == [false, false, false, true, true, true, false, false]
  {
  }

  lemma Bits38()
    ensures ByteBits(0x38) == [false, false, false, true, true, true, false, false]
  {
  }

  lemma Number39()
    ensures ToBits(0x39, 8) == [true, false, false, true, true, true, false, false]
  {
  }

  lemma Bits39()
    ensures ByteBits(0x39) == [true, false, false, true, true, true, false, false]
  {
  }

  lemma Digits()
    ensures Widen(0x00) == WordOf(0x00)
    ensures Widen(0x31) == WordOf(0x31)
    ensures Widen(0x32) == WordOf(0x32)
    ensures Widen(0x33) == WordOf(0x33)
    ensures Widen(0x34) == WordOf(0x34)
    ensures Widen(0x35) == WordOf(0x35)
    ensures Widen(0x36) == WordOf(0x36)
    ensures Widen(0x37) == WordOf(0x37)
    ensures Widen(0x38) == WordOf(0x38)
    ensures Widen(0x39) == WordOf(0x39)
  {
    hide ToBits, ByteBits, WordOf, Widen;
    Number00();
    Bits00();
    Char(0x00, 0x00, [false, false, false, false, false, false, false, false]);
    Number31();
    Bits31();
    Char(0x31, 0x31, [true, false, false, false, true, true, false, false]);
    Number32();
    Bits32();
    Char(0x32, 0x32, [false, true, false, false, true, true, false, false]);
    Number33();
    Bits33();
    Char(0x33, 0x33, [true, true, false, false, true, true, false, false]);
    Number34();
    Bits34();
    Char(0x34, 0x34, [false, false, true, false, true, true, false, false]);
    Number35();
    Bits35();
    Char(0x35, 0x35, [true, false, true, false, true, true, false, false]);
    Number36();
    Bits36();
    Char(0x36, 0x36, [false, true, true, false, true, true, false, false]);
    Number37();
    Bits37();
    Char(0x37, 0x37, [true, true, true, false, true, true, false, false]);
    Number38();
    Bits38();
    Char(0x38, 0x38, [false, false, false, true, true, true, false, false]);
    Number39();
    Bits39();
    Char(0x39, 0x39, [true, false, false, true, true, true, false, false]);
  }

  lemma MachineSteps()
    ensures Step8(0xFFFFFFFF ^ 0x00) == 0x2DFD1072
    ensures Step8(0xFFFFFFFF ^ 0x31) == 0x7C231048
    ensures Step8(0x7C231048 ^ 0x32) == 0xB0ACBB32
    ensures Step8(0xB0ACBB32 ^ 0x33) == 0x77B79C2D
    ensures Step8(0x77B79C2D ^ 0x34) == 0x641C1F5C
    ensures Step8(0x641C1F5C ^ 0x35) == 0x340AC5E3
    ensures Step8(0x340AC5E3 ^ 0x36) == 0xF68D2C9E
    ensures Step8(0xF68D2C9E ^ 0x37) == 0xAFFC9660
    ensures Step8(0xAFFC9660 ^ 0x38) == 0x651F2550
    ensures Step8(0x651F2550 ^ 0x39) == 0x340BC6D9
  {
  }

  /** One more byte. */
  lemma OneMore(data: seq<byte>, r: bv32, b: byte, x: bv32, next: bv32)
    requires Remainder(Reflected(CRC_32.polynomial), Ones(), data) == WordOf(r)
    requires Widen(b) == WordOf(x) && Step8(r ^ x) == next
    ensures Remainder(Reflected(CRC_32.polynomial), Ones(), data + [b]) == WordOf(next)
  {
    hide Remainder, ByteStep, Reflected, WordOf, Widen, Step8;
    var poly := Reflected(CRC_32.polynomial);
    RemainderConcat(poly, Ones(), data, [b]);
    SingleByte(poly, Remainder(poly, Ones(), data), b);
    ByteWord(r, x, b, next);
  }

  lemma AllOnes()
    ensures Ones() == WordOf(0xFFFFFFFF)
  {
    hide Mask;
    forall i | 0 <= i < 32
      ensures Bit(0xFFFFFFFF, i)
    {
      MaskNotZero(i);
    }
    hide Bit;
  }

  lemma MaskNotZero(i: nat)
    requires i < 32
    ensures Hit(0xFFFFFFFF, Mask(i))
  {
  }

  /** The remainder of the nine digits. */
  lemma DigitsRemainder()
    ensures Remainder(Reflected(CRC_32.polynomial), Ones(), CHECK_TEXT) == WordOf(0x340BC6D9)
  {
    hide Reflected, WordOf, Widen, Step8, ByteStep;
    Digits();
    MachineSteps();
    AllOnes();
    var d0: seq<byte> := [];
    assert Remainder(Reflected(CRC_32.polynomial), Ones(), d0) == WordOf(0xFFFFFFFF);
    hide Remainder;
    OneMore(d0, 0xFFFFFFFF, 0x31, 0x31, 0x7C231048);
    var d1 := d0 + [0x31];
    OneMore(d1, 0x7C231048, 0x32, 0x32, 0xB0ACBB32);
    var d2 := d1 + [0x32];
    OneMore(d2, 0xB0ACBB32, 0x33, 0x33, 0x77B79C2D);
    var d3 := d2 + [0x33];
    OneMore(d3, 0x77B79C2D, 0x34, 0x34, 0x641C1F5C);
    var d4 := d3 + [0x34];
    OneMore(d4, 0x641C1F5C, 0x35, 0x35, 0x340AC5E3);
    var d5 := d4 + [0x35];
    OneMore(d5, 0x340AC5E3, 0x36, 0x36, 0xF68D2C9E);
    var d6 := d5 + [0x36];
    OneMore(d6, 0xF68D2C9E, 0x37, 0x37, 0xAFFC9660);
    var d7 := d6 + [0x37];
    OneMore(d7, 0xAFFC9660, 0x38, 0x38, 0x651F2550);
    var d8 := d7 + [0x38];
    OneMore(d8, 0x651F2550, 0x39, 0x39, 0x340BC6D9);
    var d9 := d8 + [0x39];
    assert CHECK_TEXT == d9;
  }

  /** "123456789" */
  const CHECK_TEXT: seq<byte> := [0x31, 0x32, 0x33, 0x34, 0x35, 0x36, 0x37, 0x38, 0x39]

  /** The check value of CRC-32: the CRC of the nine digits is 0xCBF43926. */
  lemma CheckValue()
    ensures Crc.Crc(CHECK_TEXT, CRC_32) == WordOf(0xCBF43926)
  {
    hide Reflected, WordOf, Remainder, CHECK_TEXT;
    DigitsRemainder();
    AllOnes();
    XorWord(0x340BC6D9, 0xFFFFFFFF);
  }

  /** A zero byte in front changes the CRC, whatever follows: the initial value counts. */
  lemma LeadingZeroCounts(data: seq<byte>)
    ensures Crc.Crc([0] + data, CRC_32) != Crc.Crc(data, CRC_32)
  {
    var poly, zero: seq<byte> := Reflected(CRC_32.polynomial), [0];
    ZeroMoves();
    hide Reflected, WordOf, Remainder, ByteStep, BitRemainder, BitsOf;
    RemainderConcat(poly, Ones(), zero, data);
    SingleByte(poly, Ones(), 0);
    RemainderOfBits(poly, ByteStep(poly, Ones(), 0), data);
    RemainderOfBits(poly, Ones(), data);
    RemainderInjective(poly, ByteStep(poly, Ones(), 0), Ones(), BitsOf(data));
    FinalizeInverse(Remainder(poly, Ones(), zero + data), CRC_32);
    FinalizeInverse(Remainder(poly, Ones(), data), CRC_32);
  }

  lemma ZeroMoves()
    ensures Reflected(CRC_32.polynomial)[31]
    ensures ByteStep(Reflected(CRC_32.polynomial), Ones(), 0) != Ones()
  {
    assert CRC_32.polynomial[0];
    hide ByteStep, Widen, Step8;
    Digits();
    MachineSteps();
    AllOnes();
    ByteWord(0xFFFFFFFF, 0x00, 0, 0x2DFD1072);
    assert !Bit(0x2DFD1072, 0);
  }
}
