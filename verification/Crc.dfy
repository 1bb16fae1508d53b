/** The checksum of the wire format: a 32-bit cyclic redundancy check with reflected input,
    computed bit by bit or through a lookup table. A word is the sequence of its 32 bits,
    least significant first; at this width the masks of the original are the identity. */
module Crc {
  import opened Bits

  type Word = w: seq<bool> | |w| == 32 witness Zeros(32)

  datatype Parameters = Parameters(
    polynomial: Word,
    initialValue: Word,
    finalXor: Word,
    reflectOutput: bool
  )

  function Ones(): Word {
    seq(32, _ => true)
  }

  /** The bits of 0x04C11DB7, least significant first. */
  const CRC_32_POLYNOMIAL: Word :=
    [true, true, true, false] + [true, true, false, true] +
    [true, false, true, true] + [true, false, false, false] +
    [true, false, false, false] + [false, false, true, true] +
    [false, false, true, false] + [false, false, false, false]

  /** CRC-32, with the constants of section 8 of RFC 1952. */
  const CRC_32 := Parameters(CRC_32_POLYNOMIAL, Ones(), Ones(), true)

  /** The unsigned value of a word. */
  function Value(w: Word): (n: nat)
    ensures n < 0x1_0000_0000
    ensures ToBits(n, 32) == w
  {
    ToFromBits(w);
    Pow2Of32();
    FromBits(w)
  }

  function Xor(a: Word, b: Word): (c: Word)
    ensures forall i :: 0 <= i < 32 ==> c[i] == (a[i] != b[i])
  {
    seq(32, i requires 0 <= i < 32 => a[i] != b[i])
  }

  function ShiftRight(w: Word, k: nat): Word
    requires k <= 32
  {
    w[k..] + Zeros(k)
  }

  /** A data byte, widened to a word. */
  function Widen(b: byte): Word {
    ToBits(b, 8) + Zeros(24)
  }

  // ---------------------------------------------------------------------------------------
  // Reflection and finalisation
  // ---------------------------------------------------------------------------------------

  function Reflected(w: Word): (r: Word)
    ensures forall i :: 0 <= i < 32 ==> r[i] == w[31 - i]
  {
    seq(32, i requires 0 <= i < 32 => w[31 - i])
  }

  /** The reflecting loop moves the low bit of `value` into the low end of the result. */
  method Reflect(w: Word) returns (reversed: Word)
    ensures reversed == Reflected(w)
  {
    var value := w;
    reversed := Zeros(32);
    for i := 0 to 32
      invariant value == w[i..] + Zeros(i)
      invariant forall j :: 0 <= j < i ==> reversed[j] == w[i - 1 - j]
    {
      reversed := [value[0]] + reversed[..31];
      value := ShiftRight(value, 1);
    }
    assert reversed == Reflected(w);
  }

  function Finalize(remainder: Word, p: Parameters): Word {
    Xor(if p.reflectOutput then remainder else Reflected(remainder), p.finalXor)
  }

  function UndoFinalize(crc: Word, p: Parameters): Word {
    var c := Xor(crc, p.finalXor);
    if p.reflectOutput then c else Reflected(c)
  }

  /** Finalize and UndoFinalize are inverse to each other, in both orders. */
  lemma FinalizeInverse(w: Word, p: Parameters)
    ensures UndoFinalize(Finalize(w, p), p) == w
    ensures Finalize(UndoFinalize(w, p), p) == w
  {
    assert UndoFinalize(Finalize(w, p), p) == w;
    assert Finalize(UndoFinalize(w, p), p) == w;
  }

  // ---------------------------------------------------------------------------------------
  // The bit-by-bit remainder
  // ---------------------------------------------------------------------------------------

  /** One bit of division by the reflected polynomial `poly`. */
  function BitStep(poly: Word, r: Word): Word {
    if r[0] then Xor(ShiftRight(r, 1), poly) else ShiftRight(r, 1)
  }

  function BitSteps(poly: Word, r: Word, n: nat): Word {
    if n == 0 then r else BitStep(poly, BitSteps(poly, r, n - 1))
  }

  function ByteStep(poly: Word, r: Word, b: byte): Word {
    BitSteps(poly, Xor(r, Widen(b)), 8)
  }

  function Remainder(poly: Word, r: Word, data: seq<byte>): Word
    decreases |data|
  {
    if data == [] then r else Remainder(poly, ByteStep(poly, r, data[0]), data[1..])
  }

  method CalculateRemainder(data: seq<byte>, p: Parameters, start: Word) returns (remainder: Word)
    ensures remainder == Remainder(Reflected(p.polynomial), start, data)
  {
    var polynomial := Reflect(p.polynomial);
    remainder := start;
    for k := 0 to |data|
      invariant Remainder(polynomial, remainder, data[k..]) == Remainder(polynomial, start, data)
    {
      assert data[k..][1..] == data[k + 1..];
      ghost var mixed := Xor(remainder, Widen(data[k]));
      remainder := Xor(remainder, Widen(data[k]));
      for i := 0 to 8
        invariant remainder == BitSteps(polynomial, mixed, i)
      {
        remainder := BitStep(polynomial, remainder);
      }
    }
  }

  function Crc(data: seq<byte>, p: Parameters): Word {
    Finalize(Remainder(Reflected(p.polynomial), p.initialValue, data), p)
  }

  /** The CRC of `data`, continued from the finished CRC of what came before. */
  function CrcFrom(data: seq<byte>, p: Parameters, crc: Word): Word {
    Finalize(Remainder(Reflected(p.polynomial), UndoFinalize(crc, p), data), p)
  }

  method Calculate(data: seq<byte>, p: Parameters) returns (crc: Word)
    ensures crc == Crc(data, p)
  {
    var remainder := CalculateRemainder(data, p, p.initialValue);
    crc := Finalize(remainder, p);
  }

  lemma {:induction false} RemainderConcat(poly: Word, r: Word, a: seq<byte>, b: seq<byte>)
    ensures Remainder(poly, r, a + b) == Remainder(poly, Remainder(poly, r, a), b)
    decreases |a|
  {
    if a == [] {
      assert a + b == b;
    } else {
      assert (a + b)[1..] == a[1..] + b;
      RemainderConcat(poly, ByteStep(poly, r, a[0]), a[1..], b);
    }
  }

  /** A CRC computed in two parts is the CRC of the concatenation. */
  lemma MultiPart(a: seq<byte>, b: seq<byte>, p: Parameters)
    ensures CrcFrom(b, p, Crc(a, p)) == Crc(a + b, p)
  {
    var poly := Reflected(p.polynomial);
    FinalizeInverse(Remainder(poly, p.initialValue, a), p);
    RemainderConcat(poly, p.initialValue, a, b);
  }

  // ---------------------------------------------------------------------------------------
  // Linearity, and the lookup table
  // ---------------------------------------------------------------------------------------

  /** Division is linear over exclusive or. */
  lemma BitStepLinear(poly: Word, a: Word, b: Word)
    ensures BitStep(poly, Xor(a, b)) == Xor(BitStep(poly, a), BitStep(poly, b))
  {
    assert forall i :: 0 <= i < 32 ==>
      BitStep(poly, Xor(a, b))[i] == Xor(BitStep(poly, a), BitStep(poly, b))[i];
  }

  lemma {:induction false} BitStepsLinear(poly: Word, a: Word, b: Word, n: nat)
    ensures BitSteps(poly, Xor(a, b), n) == Xor(BitSteps(poly, a, n), BitSteps(poly, b, n))
  {
    if n > 0 {
      BitStepsLinear(poly, a, b, n - 1);
      BitStepLinear(poly, BitSteps(poly, a, n - 1), BitSteps(poly, b, n - 1));
    }
  }

  /** Low bits that are all clear are shifted out without touching the polynomial. */
  lemma {:induction false} ClearBitsShiftOut(poly: Word, w: Word, n: nat)
    requires n <= 32 && forall i :: 0 <= i < n ==> !w[i]
    ensures BitSteps(poly, w, n) == ShiftRight(w, n)
  {
    if n > 0 {
      ClearBitsShiftOut(poly, w, n - 1);
      assert ShiftRight(ShiftRight(w, n - 1), 1) == ShiftRight(w, n);
      assert !ShiftRight(w, n - 1)[0];
    }
  }

  function TableEntry(poly: Word, b: byte): Word {
    ByteStep(poly, Zeros(32), b)
  }

  function LowByte(w: Word): (b: byte)
    ensures ToBits(b, 8) == w[..8]
  {
    ToFromBits(w[..8]);
    Pow2Of8();
    FromBits(w[..8])
  }

  lemma SingleByte(poly: Word, r: Word, b: byte)
    ensures Remainder(poly, r, [b]) == ByteStep(poly, r, b)
  {
    assert [b][1..] == [];
  }

  method InitTable(p: Parameters) returns (table: array<Word>)
    ensures fresh(table) && table.Length == 256
    ensures forall b: byte :: table[b] == TableEntry(Reflected(p.polynomial), b)
  {
    hide ByteStep;
    ghost var poly := Reflected(p.polynomial);
    table := new Word[256](_ => Zeros(32));
    for b := 0 to 256
      invariant forall c: byte :: c < b ==> table[c] == TableEntry(poly, c)
    {
      var crc := CalculateRemainder([b], p, Zeros(32));
      SingleByte(poly, Zeros(32), b);
      table[b] := crc;
    }
  }

  /** One table lookup does the work of eight division steps. */
  lemma TableStep(poly: Word, r: Word, b: byte)
    ensures ByteStep(poly, r, b)
         == Xor(ShiftRight(r, 8), TableEntry(poly, LowByte(Xor(r, Widen(b)))))
  {
    hide BitSteps;
    var mixed := Xor(r, Widen(b));
    var low := Widen(LowByte(mixed));
    var high := Zeros(8) + mixed[8..];
    assert mixed == Xor(high, low);
    BitStepsLinear(poly, high, low, 8);
    ClearBitsShiftOut(poly, high, 8);
    assert ShiftRight(high, 8) == ShiftRight(r, 8);
    assert Xor(Zeros(32), low) == low;
  }

  /** The table-driven remainder equals the bit-by-bit one. */
  method TableRemainder(data: seq<byte>, table: array<Word>, ghost p: Parameters, start: Word)
    returns (remainder: Word)
    requires table.Length == 256
    requires forall b: byte :: table[b] == TableEntry(Reflected(p.polynomial), b)
    ensures remainder == Remainder(Reflected(p.polynomial), start, data)
  {
    ghost var poly := Reflected(p.polynomial);
    remainder := start;
    for k := 0 to |data|
      invariant Remainder(poly, remainder, data[k..]) == Remainder(poly, start, data)
    {
      assert data[k..][1..] == data[k + 1..];
      TableStep(poly, remainder, data[k]);
      remainder := Xor(ShiftRight(remainder, 8), table[LowByte(Xor(remainder, Widen(data[k])))]);
    }
  }

  // ---------------------------------------------------------------------------------------
  // Error detection
  // ---------------------------------------------------------------------------------------

  /** With the reflected polynomial's top bit set, the top bit of a result tells whether the
      polynomial was added, so a step can be undone. */
  lemma BitStepInjective(poly: Word, a: Word, b: Word)
    requires poly[31] && BitStep(poly, a) == BitStep(poly, b)
    ensures a == b
  {
    var x, y := BitStep(poly, a), BitStep(poly, b);
    assert a[0] == x[31] && b[0] == y[31];
    forall i | 1 <= i < 32 ensures a[i] == b[i] {
      assert x[i - 1] == y[i - 1];
    }
  }

  lemma {:induction false} BitStepsInjective(poly: Word, a: Word, b: Word, n: nat)
    requires poly[31] && BitSteps(poly, a, n) == BitSteps(poly, b, n)
    ensures a == b
  {
    if n > 0 {
      BitStepInjective(poly, BitSteps(poly, a, n - 1), BitSteps(poly, b, n - 1));
      BitStepsInjective(poly, a, b, n - 1);
    }
  }

  // The bytes as one stream of bits, least significant bit of each byte first.

  function BitsOf(data: seq<byte>): (bits: seq<bool>)
    ensures |bits| == 8 * |data|
  {
    if data == [] then [] else ToBits(data[0], 8) + BitsOf(data[1..])
  }

  /** A word that starts with the given bits. */
  function Pad(bits: seq<bool>): Word
    requires |bits| <= 32
  {
    bits + Zeros(32 - |bits|)
  }

  /** Division of a stream of bits: each is added to the remainder's low bit before a step. */
  function BitRemainder(poly: Word, r: Word, bits: seq<bool>): Word {
    if bits == [] then r
    else
      var n := |bits| - 1;
      BitStep(poly, Xor(BitRemainder(poly, r, bits[..n]), Pad([bits[n]])))
  }

  lemma {:induction false} BitRemainderConcat(poly: Word, r: Word, a: seq<bool>, b: seq<bool>)
    ensures BitRemainder(poly, r, a + b) == BitRemainder(poly, BitRemainder(poly, r, a), b)
    decreases |b|
  {
    if b == [] {
      assert a + b == a;
    } else {
      var n := |b| - 1;
      assert (a + b)[..|a + b| - 1] == a + b[..n];
      BitRemainderConcat(poly, r, a, b[..n]);
    }
  }

  /** Up to 32 bits may be added at once, before the steps, instead of one by one. */
  lemma {:induction false} BitsAtOnce(poly: Word, r: Word, bits: seq<bool>)
    requires |bits| <= 32
    ensures BitRemainder(poly, r, bits) == BitSteps(poly, Xor(r, Pad(bits)), |bits|)
    decreases |bits|
  {
    if bits == [] {
      assert Xor(r, Pad(bits)) == r;
    } else {
      var n := |bits| - 1;
      var front, last := Xor(r, Pad(bits[..n])), Zeros(n) + ([bits[n]] + Zeros(31 - n));
      BitsAtOnce(poly, r, bits[..n]);
      assert Xor(r, Pad(bits)) == Xor(front, last);
      BitStepsLinear(poly, front, last, n);
      ClearBitsShiftOut(poly, last, n);
      assert ShiftRight(last, n) == Pad([bits[n]]);
    }
  }

  /** The remainder of the bytes is that of their bits. */
  lemma {:induction false} RemainderOfBits(poly: Word, r: Word, data: seq<byte>)
    ensures Remainder(poly, r, data) == BitRemainder(poly, r, BitsOf(data))
    decreases |data|
  {
    hide BitSteps, ToBits;
    if data != [] {
      var next := ByteStep(poly, r, data[0]);
      RemainderOfBits(poly, next, data[1..]);
      BitsAtOnce(poly, r, ToBits(data[0], 8));
      BitRemainderConcat(poly, r, ToBits(data[0], 8), BitsOf(data[1..]));
    }
  }

  /** Different remainders stay different, whatever follows. */
  lemma {:induction false} RemainderInjective(poly: Word, r: Word, s: Word, bits: seq<bool>)
    requires poly[31] && r != s
    ensures BitRemainder(poly, r, bits) != BitRemainder(poly, s, bits)
    decreases |bits|
  {
    if bits != [] {
      var n := |bits| - 1;
      var x, y, w := BitRemainder(poly, r, bits[..n]), BitRemainder(poly, s, bits[..n]), Pad([bits[n]]);
      RemainderInjective(poly, r, s, bits[..n]);
      assert Xor(Xor(x, w), w) == x && Xor(Xor(y, w), w) == y;
      if BitStep(poly, Xor(x, w)) == BitStep(poly, Xor(y, w)) {
        BitStepInjective(poly, Xor(x, w), Xor(y, w));
      }
    }
  }

  /** From the same remainder, different bits lead to different remainders, up to 32 of them. */
  lemma WindowInjective(poly: Word, r: Word, a: seq<bool>, b: seq<bool>)
    requires poly[31] && |a| == |b| <= 32 && a != b
    ensures BitRemainder(poly, r, a) != BitRemainder(poly, r, b)
  {
    hide BitRemainder, BitSteps;
    BitsAtOnce(poly, r, a);
    BitsAtOnce(poly, r, b);
    var x, y := Xor(r, Pad(a)), Xor(r, Pad(b));
    assert Xor(x, r) == Pad(a) && Xor(y, r) == Pad(b);
    assert Pad(a)[..|a|] == a && Pad(b)[..|b|] == b;
    if BitSteps(poly, x, |a|) == BitSteps(poly, y, |a|) {
      BitStepsInjective(poly, x, y, |a|);
    }
  }

  /** Two streams that agree outside of `n` bits from bit `i` on, but not everywhere. */
  ghost predicate Burst(a: seq<bool>, b: seq<bool>, i: nat, n: nat) {
    && |a| == |b| && i + n <= |a| && a != b
    && a[..i] == b[..i] && a[i + n..] == b[i + n..]
  }

  /** Every change confined to 32 consecutive bits changes the CRC, for every polynomial with
      a constant term. */
  lemma BurstDetected(p: Parameters, a: seq<byte>, b: seq<byte>, i: nat, n: nat)
    requires p.polynomial[0] && n <= 32 && Burst(BitsOf(a), BitsOf(b), i, n)
    ensures Crc(a, p) != Crc(b, p)
  {
    hide BitRemainder, BitsOf, Remainder;
    var poly := Reflected(p.polynomial);
    BurstChangesRemainder(poly, p.initialValue, BitsOf(a), BitsOf(b), i, n);
    RemainderOfBits(poly, p.initialValue, a);
    RemainderOfBits(poly, p.initialValue, b);
    FinalizeInverse(Remainder(poly, p.initialValue, a), p);
    FinalizeInverse(Remainder(poly, p.initialValue, b), p);
    hide Finalize, UndoFinalize, Burst;
  }

  lemma BurstChangesRemainder(poly: Word, init: Word, s: seq<bool>, t: seq<bool>, i: nat, n: nat)
    requires poly[31] && n <= 32 && Burst(s, t, i, n)
    ensures BitRemainder(poly, init, s) != BitRemainder(poly, init, t)
  {
    hide BitRemainder;
    var r, after := BitRemainder(poly, init, s[..i]), s[i + n..];
    assert s == s[..i] + s[i..i + n] + after && t == s[..i] + t[i..i + n] + after;
    WindowInjective(poly, r, s[i..i + n], t[i..i + n]);
    RemainderInjective(poly, BitRemainder(poly, r, s[i..i + n]), BitRemainder(poly, r, t[i..i + n]), after);
    BitRemainderConcat(poly, init, s[..i], s[i..i + n]);
    BitRemainderConcat(poly, init, s[..i], t[i..i + n]);
    BitRemainderConcat(poly, init, s[..i] + s[i..i + n], after);
    BitRemainderConcat(poly, init, s[..i] + t[i..i + n], after);
  }

  lemma SameBits(a: byte, b: byte)
    requires ToBits(a, 8) == ToBits(b, 8)
    ensures a == b
  {
    hide ToBits;
    Pow2Of8();
    FromToBits(a, 8);
    FromToBits(b, 8);
  }

  lemma {:induction false} BitsOfInjective(a: seq<byte>, b: seq<byte>)
    requires |a| == |b| && a != b
    ensures BitsOf(a) != BitsOf(b)
  {
    hide ToBits;
    assert a == [a[0]] + a[1..] && b == [b[0]] + b[1..];
    assert BitsOf(a)[..8] == ToBits(a[0], 8) && BitsOf(b)[..8] == ToBits(b[0], 8);
    assert BitsOf(a)[8..] == BitsOf(a[1..]) && BitsOf(b)[8..] == BitsOf(b[1..]);
    if a[0] != b[0] {
      if ToBits(a[0], 8) == ToBits(b[0], 8) {
        SameBits(a[0], b[0]);
      }
    } else {
      BitsOfInjective(a[1..], b[1..]);
    }
  }

  lemma {:induction false} BitsOfConcat(a: seq<byte>, b: seq<byte>)
    ensures BitsOf(a + b) == BitsOf(a) + BitsOf(b)
    decreases |a|
  {
    hide ToBits;
    if a == [] {
      assert a + b == b;
    } else {
      assert (a + b)[1..] == a[1..] + b;
      BitsOfConcat(a[1..], b);
    }
  }

  // ---------------------------------------------------------------------------------------
  // Which changes go unnoticed
  // ---------------------------------------------------------------------------------------

  function XorBits(a: seq<bool>, b: seq<bool>): (c: seq<bool>)
    requires |a| == |b|
    ensures |c| == |a| && forall i :: 0 <= i < |a| ==> c[i] == (a[i] != b[i])
  {
    seq(|a|, i requires 0 <= i < |a| => a[i] != b[i])
  }

  lemma {:induction false} BitRemainderLinear(poly: Word, r: Word, s: Word, a: seq<bool>, b: seq<bool>)
    requires |a| == |b|
    ensures BitRemainder(poly, Xor(r, s), XorBits(a, b))
         == Xor(BitRemainder(poly, r, a), BitRemainder(poly, s, b))
    decreases |a|
  {
    if a != [] {
      var n := |a| - 1;
      assert XorBits(a, b)[..n] == XorBits(a[..n], b[..n]);
      BitRemainderLinear(poly, r, s, a[..n], b[..n]);
      var x, y := BitRemainder(poly, r, a[..n]), BitRemainder(poly, s, b[..n]);
      var v, w := Pad([a[n]]), Pad([b[n]]);
      assert Pad([a[n] != b[n]]) == Xor(v, w);
      assert Xor(Xor(x, y), Xor(v, w)) == Xor(Xor(x, v), Xor(y, w));
      BitStepLinear(poly, Xor(x, v), Xor(y, w));
    }
  }

  /** The difference of two CRCs depends on the difference of the data alone: it is the plain
      remainder of that difference. */
  lemma Syndrome(p: Parameters, a: seq<byte>, b: seq<byte>)
    requires |a| == |b| && p.reflectOutput
    ensures Xor(Crc(a, p), Crc(b, p))
         == BitRemainder(Reflected(p.polynomial), Zeros(32), XorBits(BitsOf(a), BitsOf(b)))
  {
    hide BitRemainder, BitsOf, Remainder;
    var poly, init := Reflected(p.polynomial), p.initialValue;
    RemainderOfBits(poly, init, a);
    RemainderOfBits(poly, init, b);
    assert Xor(init, init) == Zeros(32);
    BitRemainderLinear(poly, init, init, BitsOf(a), BitsOf(b));
    var x, y, f := Remainder(poly, init, a), Remainder(poly, init, b), p.finalXor;
    assert Xor(Xor(x, f), Xor(y, f)) == Xor(x, y);
  }

  /** The data followed by its CRC leaves the same remainder whatever the data: that of the final
      mask alone. */
  lemma Residue(p: Parameters, data: seq<byte>)
    requires p.reflectOutput
    ensures BitRemainder(Reflected(p.polynomial), p.initialValue, BitsOf(data) + Crc(data, p))
         == BitSteps(Reflected(p.polynomial), p.finalXor, 32)
  {
    hide BitRemainder, BitSteps, BitsOf, Remainder;
    var poly, crc := Reflected(p.polynomial), Crc(data, p);
    var r := Remainder(poly, p.initialValue, data);
    RemainderOfBits(poly, p.initialValue, data);
    BitRemainderConcat(poly, p.initialValue, BitsOf(data), crc);
    BitsAtOnce(poly, r, crc);
    assert Xor(r, Pad(crc)) == p.finalXor;
  }

  /** Without reflected output, the remainder is reversed before the final mask. */
  lemma UnreflectedOutput(p: Parameters, data: seq<byte>)
    ensures var plain, turned := Crc(data, p.(reflectOutput := true)), Crc(data, p.(reflectOutput := false));
      forall i :: 0 <= i < 32 ==> (turned[i] != p.finalXor[i]) == (plain[31 - i] != p.finalXor[31 - i])
  {
    hide Remainder;
  }
}
