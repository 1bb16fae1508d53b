/** A difference that the checksum of the wire format does not see where the data ends: two
    last bytes whose remainder shows in the upper half of the checksum only. */
module BlindSpot {
  import opened Bits
  import opened Crc

  // The words that occur, by their set bits.

  /** 0xEDB88320, the reflected polynomial. */
  predicate InPoly(i: int) {
    i == 5 || 8 <= i <= 9 || i == 15 || 19 <= i <= 21 || 23 <= i <= 24 || 26 <= i <= 27
    || 29 <= i <= 31
  }

  function Poly(): (w: Word)
    ensures forall i :: 0 <= i < 32 ==> w[i] == InPoly(i)
  {
    seq(32, i requires 0 <= i < 32 => InPoly(i))
  }

  /** 0x61 and 0xD8, the change. */
  predicate InUnseen(i: int) {
    i == 0 || 5 <= i <= 6 || 11 <= i <= 12 || 14 <= i <= 15
  }

  function Unseen(): (w: Word)
    ensures forall i :: 0 <= i < 32 ==> w[i] == InUnseen(i)
  {
    seq(32, i requires 0 <= i < 32 => InUnseen(i))
  }

  /** 0xF4EE0000, the remainder that the change leaves. */
  predicate InShown(i: int) {
    17 <= i <= 19 || 21 <= i <= 23 || i == 26 || 28 <= i <= 31
  }

  function Shown(): (w: Word)
    ensures forall i :: 0 <= i < 32 ==> w[i] == InShown(i)
  {
    seq(32, i requires 0 <= i < 32 => InShown(i))
  }

  // The remainder on the way, after 5, 9, 10, 12 and 15 of the sixteen steps.

  predicate InAfter5(i: int) {
    i == 0 || 4 <= i <= 7 || 9 <= i <= 11 || 15 <= i <= 17 || 19 <= i <= 20 || 22 <= i <= 23
    || 25 <= i <= 27
  }

  function After5(): (w: Word)
    ensures forall i :: 0 <= i < 32 ==> w[i] == InAfter5(i)
  {
    seq(32, i requires 0 <= i < 32 => InAfter5(i))
  }

  predicate InAfter9(i: int) {
    0 <= i <= 1 || i == 3 || i == 7 || i == 11 || i == 13 || i == 15 || i == 17 || 19 <= i <= 20
    || i == 22 || i == 24 || 26 <= i <= 28
  }

  function After9(): (w: Word)
    ensures forall i :: 0 <= i < 32 ==> w[i] == InAfter9(i)
  {
    seq(32, i requires 0 <= i < 32 => InAfter9(i))
  }

  predicate InAfter10(i: int) {
    i == 0 || i == 2 || 5 <= i <= 6 || 8 <= i <= 10 || i == 12 || 14 <= i <= 16 || i == 18
    || i == 20 || 24 <= i <= 25 || 29 <= i <= 31
  }

  function After10(): (w: Word)
    ensures forall i :: 0 <= i < 32 ==> w[i] == InAfter10(i)
  {
    seq(32, i requires 0 <= i < 32 => InAfter10(i))
  }

  predicate InAfter12(i: int) {
    i == 0 || i == 3 || i == 6 || i == 10 || 12 <= i <= 13 || i == 16 || 19 <= i <= 20
    || 25 <= i <= 27 || i == 30
  }

  function After12(): (w: Word)
    ensures forall i :: 0 <= i < 32 ==> w[i] == InAfter12(i)
  {
    seq(32, i requires 0 <= i < 32 => InAfter12(i))
  }

  predicate InAfter15(i: int) {
    i == 0 || i == 6 || 9 <= i <= 10 || i == 16 || 18 <= i <= 19 || i == 21 || i == 23 || i == 25
    || 28 <= i <= 29
  }

  function After15(): (w: Word)
    ensures forall i :: 0 <= i < 32 ==> w[i] == InAfter15(i)
  {
    seq(32, i requires 0 <= i < 32 => InAfter15(i))
  }

  lemma PolyHalves()
    ensures CRC_32_POLYNOMIAL[..16] == [true, true, true, false, true, true, false, true,
                                        true, false, true, true, true, false, false, false]
    ensures CRC_32_POLYNOMIAL[16..] == [true, false, false, false, false, false, true, true,
                                        false, false, true, false, false, false, false, false]
  {
  }

  lemma UpperHalf(w: Word)
    requires w[..16] == [true, true, true, false, true, true, false, true,
                         true, false, true, true, true, false, false, false]
    ensures forall i :: 16 <= i < 32 ==> Reflected(w)[i] == InPoly(i)
  {
    forall i | 16 <= i < 32
      ensures Reflected(w)[i] == InPoly(i)
    {
      assert w[31 - i] == w[..16][31 - i];
    }
  }

  lemma LowerHalf(w: Word)
    requires w[16..] == [true, false, false, false, false, false, true, true,
                         false, false, true, false, false, false, false, false]
    ensures forall i :: 0 <= i < 16 ==> Reflected(w)[i] == InPoly(i)
  {
    forall i | 0 <= i < 16
      ensures Reflected(w)[i] == InPoly(i)
    {
      assert w[31 - i] == w[16..][15 - i];
    }
  }

  lemma PolyBits()
    ensures Reflected(CRC_32.polynomial) == Poly()
  {
    hide CRC_32_POLYNOMIAL, InPoly;
    PolyHalves();
    LowerHalf(CRC_32_POLYNOMIAL);
    UpperHalf(CRC_32_POLYNOMIAL);
  }

  /** `n` steps of which only the first finds the low bit set. */
  ghost predicate Stretch(s: Word, t: Word, n: nat) {
    && n > 0 && s[0]
    && (forall i :: 0 <= i < 32 ==> Becomes(s, t, n, i))
    && (forall i :: 1 <= i < n && i < 32 ==> s[i] == Poly()[i - 1])
  }

  predicate Becomes(s: Word, t: Word, n: nat, i: nat)
    requires n > 0 && i < 32
  {
    t[i] <==> (i + n < 32 && s[i + n]) != (i + n <= 32 && Poly()[i + n - 1])
  }

  lemma {:induction false} StepsJoin(poly: Word, w: Word, a: nat, b: nat)
    ensures BitSteps(poly, w, a + b) == BitSteps(poly, BitSteps(poly, w, a), b)
    decreases b
  {
    if b > 0 {
      StepsJoin(poly, w, a, b - 1);
    }
  }

  lemma StretchSteps(s: Word, t: Word, n: nat)
    requires Stretch(s, t, n) && n <= 32
    ensures BitSteps(Poly(), s, n) == t
  {
    hide BitSteps, BitStep, ShiftRight, InPoly;
    var first := BitStep(Poly(), s);
    FirstStep(s, t, n);
    OneStep(Poly(), s);
    StepsJoin(Poly(), s, 1, n - 1);
    ClearBitsShiftOut(Poly(), first, n - 1);
  }

  lemma OneStep(poly: Word, w: Word)
    ensures BitSteps(poly, w, 1) == BitStep(poly, w)
  {
  }

  lemma FirstStep(s: Word, t: Word, n: nat)
    requires Stretch(s, t, n) && n <= 32
    ensures var first := BitStep(Poly(), s);
      (forall i :: 0 <= i < n - 1 ==> !first[i]) && ShiftRight(first, n - 1) == t
  {
    hide InPoly;
    var first := BitStep(Poly(), s);
    assert forall i :: 0 <= i < 32 ==> first[i] == ((i + 1 < 32 && s[i + 1]) != Poly()[i]);
    hide BitStep;
    forall i | 0 <= i < 32
      ensures ShiftRight(first, n - 1)[i] == t[i]
    {
      assert Becomes(s, t, n, i);
    }
  }

  lemma Stretch1()
    ensures Stretch(Unseen(), After5(), 5)
  {
  }

  lemma Stretch2()
    ensures Stretch(After5(), After9(), 4)
  {
  }

  lemma Stretch3()
    ensures Stretch(After9(), After10(), 1)
  {
  }

  lemma Stretch4()
    ensures Stretch(After10(), After12(), 2)
  {
  }

  lemma Stretch5()
    ensures Stretch(After12(), After15(), 3)
  {
  }

  lemma Stretch6()
    ensures Stretch(After15(), Shown(), 1)
  {
  }

  lemma AllStretches()
    ensures BitSteps(Poly(), Unseen(), 16) == Shown()
  {
    hide *;
    Stretch1();
    StretchSteps(Unseen(), After5(), 5);
    Stretch2();
    StretchSteps(After5(), After9(), 4);
    Stretch3();
    StretchSteps(After9(), After10(), 1);
    Stretch4();
    StretchSteps(After10(), After12(), 2);
    Stretch5();
    StretchSteps(After12(), After15(), 3);
    Stretch6();
    StretchSteps(After15(), Shown(), 1);
    StepsJoin(Poly(), Unseen(), 5, 4);
    StepsJoin(Poly(), Unseen(), 9, 1);
    StepsJoin(Poly(), Unseen(), 10, 2);
    StepsJoin(Poly(), Unseen(), 12, 3);
    StepsJoin(Poly(), Unseen(), 15, 1);
  }

  /** The change of the two bytes, as bits. */
  function Change(): (bits: seq<bool>)
    ensures |bits| == 16 && forall i :: 0 <= i < 16 ==> bits[i] == InUnseen(i)
  {
    Unseen()[..16]
  }

  /** Its remainder leaves the lower half of the word clear. */
  lemma LowerHalfClear()
    ensures BitRemainder(Reflected(CRC_32.polynomial), Zeros(32), Change()) == Shown()
    ensures forall i :: 0 <= i < 16 ==> !Shown()[i]
  {
    hide BitRemainder, BitSteps, InPoly;
    PolyBits();
    BitsAtOnce(Poly(), Zeros(32), Change());
    assert Xor(Zeros(32), Pad(Change())) == Unseen();
    AllStretches();
  }

  lemma ChangesFirstBit()
    ensures Change()[0]
  {
  }
}
