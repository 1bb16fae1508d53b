/** The capacity of the logging ring: rounding up to a power of two by smearing bits, and the
    mask that replaces the remainder. Words are 64 bits, least significant first. */
module PowerOfTwo {
  import opened Bits

  const WIDTH := 64

  /** 2^63 */
  const TOP := 0x8000_0000_0000_0000

  ghost predicate IsPow2(n: nat) {
    exists k: nat :: n == Pow2(k)
  }

  function Shr(w: seq<bool>, k: nat): (r: seq<bool>)
    ensures |r| == |w| && forall i :: 0 <= i < |w| ==> r[i] == (i + k < |w| && w[i + k])
  {
    seq(|w|, i requires 0 <= i < |w| => i + k < |w| && w[i + k])
  }

  function Or(a: seq<bool>, b: seq<bool>): (r: seq<bool>)
    requires |a| == |b|
    ensures |r| == |a| && forall i :: 0 <= i < |a| ==> r[i] == (a[i] || b[i])
  {
    seq(|a|, i requires 0 <= i < |a| => a[i] || b[i])
  }

  function And(a: seq<bool>, b: seq<bool>): (r: seq<bool>)
    requires |a| == |b|
    ensures |r| == |a| && forall i :: 0 <= i < |a| ==> r[i] == (a[i] && b[i])
  {
    seq(|a|, i requires 0 <= i < |a| => a[i] && b[i])
  }

  function Ones(k: nat): (z: seq<bool>)
    ensures |z| == k && forall i :: 0 <= i < k ==> z[i]
  {
    seq(k, _ => true)
  }

  /** The number of bits up to the highest one that is set. */
  function BitLength(bits: seq<bool>): (n: nat)
    ensures n <= |bits|
  {
    if bits == [] then 0
    else
      var n := BitLength(bits[1..]);
      if n > 0 then n + 1 else if bits[0] then 1 else 0
  }

  lemma {:induction false} TopBit(bits: seq<bool>, i: nat)
    requires i < |bits|
    ensures BitLength(bits) <= i ==> !bits[i]
    ensures BitLength(bits) == i + 1 ==> bits[i]
  {
    if i > 0 {
      TopBit(bits[1..], i - 1);
    } else if |bits| > 1 {
      TopBit(bits[1..], 0);
    }
  }

  lemma {:induction false} LengthBounds(bits: seq<bool>)
    ensures FromBits(bits) < Pow2(BitLength(bits))
    ensures BitLength(bits) > 0 ==> Pow2(BitLength(bits) - 1) <= FromBits(bits)
  {
    if bits != [] {
      LengthBounds(bits[1..]);
    }
  }

  lemma {:induction false} OnesValue(k: nat, z: nat)
    ensures FromBits(Ones(k) + Zeros(z)) == Pow2(k) - 1
    decreases k, z
  {
    if k > 0 {
      OnesValue(k - 1, z);
      assert (Ones(k) + Zeros(z))[1..] == Ones(k - 1) + Zeros(z);
    } else if z > 0 {
      OnesValue(0, z - 1);
      assert (Ones(0) + Zeros(z))[1..] == Ones(0) + Zeros(z - 1);
    }
  }

  /** Bit `i` of `w` is set exactly if one of the `n` bits of `v` from `i` on is. */
  ghost predicate Smeared(w: seq<bool>, v: seq<bool>, n: nat) {
    |w| == |v| && forall i :: 0 <= i < |v| ==> (w[i] <==> AnySet(v, i, i + n))
  }

  ghost predicate AnySet(v: seq<bool>, low: nat, high: nat) {
    exists j :: low <= j < high && j < |v| && v[j]
  }

  lemma Join(v: seq<bool>, low: nat, mid: nat, high: nat)
    requires low <= mid <= high
    ensures AnySet(v, low, high) <==> AnySet(v, low, mid) || AnySet(v, mid, high)
  {
  }

  lemma SmearStep(w: seq<bool>, v: seq<bool>, n: nat)
    requires Smeared(w, v, n)
    ensures Smeared(Or(w, Shr(w, n)), v, 2 * n)
  {
    forall i | 0 <= i < |v|
      ensures Or(w, Shr(w, n))[i] <==> AnySet(v, i, i + 2 * n)
    {
      Join(v, i, i + n, i + 2 * n);
    }
  }

  lemma SmearedFully(w: seq<bool>, v: seq<bool>, n: nat)
    requires Smeared(w, v, n) && |v| <= n
    ensures w == Ones(BitLength(v)) + Zeros(|v| - BitLength(v))
  {
    var top := BitLength(v);
    forall i | 0 <= i < |v|
      ensures w[i] <==> i < top
    {
      if i < top {
        TopBit(v, top - 1);
        assert i <= top - 1 < i + n && v[top - 1];
      } else {
        forall j | i <= j < |v|
          ensures !v[j]
        {
          TopBit(v, j);
        }
      }
    }
  }

  /** Rounds up to the least power of two that is at least `v` and at least two. Beyond 2^63
      there is none in a word, and the result wraps to zero. */
  method NextPow2(v: nat) returns (r: nat)
    requires v < 2 * TOP
    ensures v <= TOP ==> r >= 2 && r >= v && IsPow2(r) && (r == 2 || r < 2 * v)
    ensures v > TOP ==> r == 0
  {
    hide Pow2, ToBits, FromBits, BitLength;
    if v < 2 {
      Two();
      return 2;
    }
    var w := ToBits(v - 1, WIDTH);
    ghost var n := LengthOf(v - 1);
    w := SmearAll(w);
    OnesValue(n, WIDTH - n);
    Pow2OfWidth();
    RoundedUp(v, n, WIDTH, TOP);
    r := (FromBits(w) + 1) % (2 * TOP);
  }

  lemma Two()
    ensures IsPow2(2)
  {
    assert 2 == Pow2(1);
  }

  lemma Pow2OfWidth()
    ensures Pow2(WIDTH) == 2 * TOP
  {
    hide Pow2;
    Pow2Of32();
    Pow2Plus8(32);
    Pow2Plus8(40);
    Pow2Plus8(48);
    Pow2Plus8(56);
  }

  lemma LengthOf(v: nat) returns (n: nat)
    requires v < 2 * TOP
    ensures n == BitLength(ToBits(v, WIDTH)) <= WIDTH
    ensures v < Pow2(n) && (n > 0 ==> Pow2(n - 1) <= v)
  {
    hide Pow2, ToBits, FromBits, BitLength;
    n := BitLength(ToBits(v, WIDTH));
    Pow2OfWidth();
    FromToBits(v, WIDTH);
    LengthBounds(ToBits(v, WIDTH));
  }

  method SmearAll(v: seq<bool>) returns (w: seq<bool>)
    requires |v| == WIDTH
    ensures w == Ones(BitLength(v)) + Zeros(WIDTH - BitLength(v))
  {
    hide Smeared;
    w := v;
    Unsmeared(v);
    SmearStep(w, v, 1);
    w := Or(w, Shr(w, 1));
    SmearStep(w, v, 2);
    w := Or(w, Shr(w, 2));
    SmearStep(w, v, 4);
    w := Or(w, Shr(w, 4));
    SmearStep(w, v, 8);
    w := Or(w, Shr(w, 8));
    SmearStep(w, v, 16);
    w := Or(w, Shr(w, 16));
    SmearStep(w, v, 32);
    w := Or(w, Shr(w, 32));
    SmearedFully(w, v, 64);
  }

  lemma Unsmeared(v: seq<bool>)
    ensures Smeared(v, v, 1)
  {
    forall i | 0 <= i < |v|
      ensures v[i] <==> AnySet(v, i, i + 1)
    {
      if v[i] {
        assert i <= i < i + 1 && v[i];
      }
    }
  }

  lemma {:induction false} PowersGrow(a: nat, b: nat)
    requires a <= b
    ensures Pow2(a) <= Pow2(b) && (a < b ==> 2 * Pow2(a) <= Pow2(b))
    decreases b
  {
    if a < b {
      PowersGrow(a, b - 1);
    }
  }

  lemma RoundedUp(v: nat, n: nat, width: nat, top: nat)
    requires 2 <= v < 2 * top && n <= width && Pow2(width) == 2 * top
    requires v - 1 < Pow2(n) && (n > 0 ==> Pow2(n - 1) <= v - 1)
    ensures v <= top ==> v <= Pow2(n) < 2 * v && 2 <= Pow2(n) < 2 * top && IsPow2(Pow2(n))
    ensures v > top ==> Pow2(n) == 2 * top
  {
    PowersGrow(n, width);
    if 0 < n {
      assert Pow2(n) == 2 * Pow2(n - 1);
    }
  }

  /** For a power of two, masking with its predecessor is the remainder. */
  lemma {:induction false} MaskIsRemainder(n: nat, k: nat, width: nat)
    requires k <= width
    ensures FromBits(And(ToBits(n, width), Ones(k) + Zeros(width - k))) == n % Pow2(k)
    decreases width
  {
    hide ToBits, And;
    if k == 0 {
      MaskNothing(ToBits(n, width));
      OnesValue(0, width);
    } else {
      MaskOne(n, k, width);
      MaskIsRemainder(n / 2, k - 1, width - 1);
      HalfRemainder(n, Pow2(k - 1));
    }
  }

  lemma MaskNothing(bits: seq<bool>)
    ensures And(bits, Ones(0) + Zeros(|bits|)) == Ones(0) + Zeros(|bits|)
  {
  }

  lemma MaskOne(n: nat, k: nat, width: nat)
    requires 0 < k <= width
    ensures And(ToBits(n, width), Ones(k) + Zeros(width - k))
         == [n % 2 == 1] + And(ToBits(n / 2, width - 1), Ones(k - 1) + Zeros(width - k))
  {
  }

  lemma HalfRemainder(n: nat, p: nat)
    requires p > 0
    ensures n % (2 * p) == n % 2 + 2 * (n / 2 % p)
  {
    var q, r := n / 2 / p, n / 2 % p;
    assert n / 2 == q * p + r;
    assert n == q * (2 * p) + (n % 2 + 2 * r);
    RemainderUnique(n, q, n % 2 + 2 * r, 2 * p);
  }

  lemma RemainderUnique(n: nat, q: nat, r: nat, m: nat)
    requires r < m && n == q * m + r
    ensures n % m == r
  {
    var d := q - n / m;
    assert n == n / m * m + n % m;
    assert d * m == n % m - r;
    assert d > 0 ==> d * m >= m;
    assert d < 0 ==> d * m <= -1 * m;
  }

  /** The mask used by the ring is the bit pattern of one less than its capacity. */
  lemma MaskBits(k: nat, width: nat)
    requires k <= width
    ensures ToBits(Pow2(k) - 1, width) == Ones(k) + Zeros(width - k)
  {
    OnesValue(k, width - k);
    ToFromBits(Ones(k) + Zeros(width - k));
  }

  /** `pos & (capacity - 1)` is `pos % capacity`. */
  lemma MaskedIndex(pos: nat, k: nat)
    requires k <= WIDTH
    ensures FromBits(And(ToBits(pos, WIDTH), ToBits(Pow2(k) - 1, WIDTH))) == pos % Pow2(k)
  {
    hide ToBits, FromBits, Pow2;
    MaskBits(k, WIDTH);
    MaskIsRemainder(pos, k, WIDTH);
  }
}
