/**
 * Bit sequences for the bit-packed codec. A byte contributes its 8 bits most significant
 * first; a field of w bits is read big-endian from w consecutive bits of that stream.
 */
module Bits {

  type byte = b: int | 0 <= b < 256

  function Pow2(n: nat): (r: nat)
    ensures r >= 1
  {
    if n == 0 then 1 else 2 * Pow2(n - 1)
  }

  lemma {:induction false} Pow2Monotone(a: nat, b: nat)
    requires a <= b
    ensures Pow2(a) <= Pow2(b)
  {
    if a < b {
      Pow2Monotone(a, b - 1);
    }
  }

  lemma {:induction false} Pow2Add(a: nat, b: nat)
    ensures Pow2(a + b) == Pow2(a) * Pow2(b)
  {
    if b > 0 {
      Pow2Add(a, b - 1);
    }
  }

  lemma Pow2Byte()
    ensures Pow2(8) == 256
  {
    assert Pow2(4) == 16;
    Pow2Add(4, 4);
  }

  lemma Pow2Values()
    ensures Pow2(8) == 256 && Pow2(16) == 0x1_0000 && Pow2(32) == 0x1_0000_0000
  {
    assert Pow2(4) == 16;
    Pow2Add(4, 4);
    Pow2Add(8, 8);
    Pow2Add(16, 16);
  }

  /** Euclidean division is determined by any quotient/remainder pair. */
  lemma DivModUnique(v: int, n: int, q: int, r: int)
    requires n > 0 && v == n * q + r && 0 <= r < n
    ensures v / n == q && v % n == r
  {
    var q', r' := v / n, v % n;
    assert n * (q - q') == r' - r;
    if q > q' {
      MulAtLeast(n, q - q');
    } else if q < q' {
      MulAtLeast(n, q' - q);
    }
  }

  lemma MulAtLeast(n: int, x: int)
    requires n > 0 && x >= 1
    ensures n * x >= n
  {
    assert n * x == n + n * (x - 1);
  }

  /** Splitting off the lowest bit: v's quotient and remainder by 2P, from those by 2 and by P. */
  lemma HalfSplit(v: nat, p: nat)
    requires p >= 1
    ensures v / (2 * p) == (v / 2) / p
    ensures v % (2 * p) == 2 * ((v / 2) % p) + v % 2
  {
    var q1, r1 := v / 2, v % 2;
    var q2, r2 := q1 / p, q1 % p;
    assert q1 == p * q2 + r2;
    assert v == (2 * p) * q2 + (2 * r2 + r1);
    DivModUnique(v, 2 * p, q2, 2 * r2 + r1);
  }

  /** v shifted right by j bits. */
  function ShiftRight(v: nat, j: nat): (r: nat)
    ensures r == v / Pow2(j)
  {
    if j == 0 then v
    else
      HalfSplit(v, Pow2(j - 1));
      ShiftRight(v / 2, j - 1)
  }

  /** The low k bits of v, most significant first. */
  function LowBits(v: nat, k: nat): (r: seq<bool>)
    ensures |r| == k
  {
    if k == 0 then [] else LowBits(v / 2, k - 1) + [v % 2 == 1]
  }

  /** The unsigned big-endian value of a bit sequence. */
  function BitsValue(s: seq<bool>): nat
  {
    if s == [] then 0 else 2 * BitsValue(s[..|s| - 1]) + (if s[|s| - 1] then 1 else 0)
  }

  ghost predicate AllEqual(s: seq<bool>, b: bool)
  {
    forall i :: 0 <= i < |s| ==> s[i] == b
  }

  lemma {:induction false} BitsValueBound(s: seq<bool>)
    ensures BitsValue(s) < Pow2(|s|)
  {
    if s != [] {
      BitsValueBound(s[..|s| - 1]);
    }
  }

  lemma {:induction false} BitsValueAppend(a: seq<bool>, b: seq<bool>)
    ensures BitsValue(a + b) == BitsValue(a) * Pow2(|b|) + BitsValue(b)
  {
    if b == [] {
      assert a + b == a;
    } else {
      var b' := b[..|b| - 1];
      var d := if b[|b| - 1] then 1 else 0;
      assert (a + b)[..|a + b| - 1] == a + b' && (a + b)[|a + b| - 1] == b[|b| - 1];
      assert BitsValue(a + b) == 2 * BitsValue(a + b') + d;
      BitsValueAppend(a, b');
      ShiftBit(BitsValue(a), Pow2(|b'|), BitsValue(b'), d);
    }
  }

  lemma ShiftBit(x: int, p: int, y: int, d: int)
    ensures 2 * (x * p + y) + d == x * (2 * p) + (2 * y + d)
  {
    assert 2 * (x * p) == x * (2 * p);
  }

  /** Reading the low k bits of v back gives v modulo 2^k. */
  lemma {:induction false} BitsValueOfLowBits(v: nat, k: nat)
    ensures BitsValue(LowBits(v, k)) == v % Pow2(k)
  {
    if k > 0 {
      var rest := LowBits(v / 2, k - 1);
      assert LowBits(v, k)[..k - 1] == rest;
      BitsValueOfLowBits(v / 2, k - 1);
      HalfSplit(v, Pow2(k - 1));
    }
  }

  /** LowBits only depends on v modulo 2^k. */
  lemma {:induction false} LowBitsMod(v: nat, k: nat)
    ensures LowBits(v, k) == LowBits(v % Pow2(k), k)
  {
    if k > 0 {
      var p := Pow2(k - 1);
      HalfSplit(v, p);
      var w := v % (2 * p);
      DivModUnique(w, 2, (v / 2) % p, v % 2);
      LowBitsMod(v / 2, k - 1);
    }
  }

  /** The low k bits of v are the low k-j bits of v / 2^j followed by the low j bits of v. */
  lemma {:induction false} LowBitsSplit(v: nat, k: nat, j: nat)
    requires j <= k
    ensures LowBits(v, k) == LowBits(ShiftRight(v, j), k - j) + LowBits(v, j)
  {
    if j > 0 {
      LowBitsSplit(v / 2, k - 1, j - 1);
      HalfSplit(v, Pow2(j - 1));
    }
  }

  lemma {:induction false} LowBitsOfZero(k: nat)
    ensures AllEqual(LowBits(0, k), false)
  {
    if k > 0 {
      LowBitsOfZero(k - 1);
    }
  }

  lemma {:induction false} LowBitsOfOnes(k: nat)
    ensures AllEqual(LowBits(Pow2(k) - 1, k), true)
  {
    if k > 0 {
      LowBitsOfOnes(k - 1);
      DivModUnique(Pow2(k) - 1, 2, Pow2(k - 1) - 1, 1);
    }
  }

  /** The bits of 2^k - 1 - v are those of v, each inverted. */
  lemma {:induction false} LowBitsComplement(v: nat, k: nat)
    requires v < Pow2(k)
    ensures forall i :: 0 <= i < k ==> LowBits(Pow2(k) - 1 - v, k)[i] == !LowBits(v, k)[i]
  {
    if k > 0 {
      var p := Pow2(k - 1);
      var w := Pow2(k) - 1 - v;
      DivModUnique(w, 2, p - 1 - v / 2, 1 - v % 2);
      LowBitsComplement(v / 2, k - 1);
    }
  }

  /** One bit of 2^k - 1 - v: bit i of v inverted. */
  lemma LowBitsComplementAt(v: nat, k: nat, i: nat)
    requires v < Pow2(k) && i < k
    ensures LowBits(Pow2(k) - 1 - v, k)[i] == !LowBits(v, k)[i]
  {
    LowBitsComplement(v, k);
  }

  /** The bits of a byte sequence, each byte most significant bit first. */
  function BytesBits(bs: seq<byte>): (r: seq<bool>)
    ensures |r| == 8 * |bs|
  {
    if bs == [] then [] else LowBits(bs[0], 8) + BytesBits(bs[1..])
  }

  lemma BytesBitsCons(bs: seq<byte>, k: nat)
    requires k < |bs|
    ensures BytesBits(bs[k..]) == LowBits(bs[k], 8) + BytesBits(bs[k + 1..])
  {
    assert bs[k..][1..] == bs[k + 1..];
  }

  lemma {:induction false} BytesBitsDrop(bs: seq<byte>, k: nat)
    requires k <= |bs|
    ensures BytesBits(bs)[8 * k..] == BytesBits(bs[k..])
  {
    if k > 0 {
      BytesBitsDrop(bs[1..], k - 1);
      assert bs[1..][k - 1..] == bs[k..];
    }
  }

  /** The number of significant bits of x: the least r with x < 2^r. */
  function BitLength(x: nat): (r: nat)
    ensures x < Pow2(r)
    ensures x > 0 ==> r >= 1 && Pow2(r - 1) <= x
  {
    if x == 0 then 0 else 1 + BitLength(x / 2)
  }

  lemma {:induction false} BitLengthAtMost(x: nat, n: nat)
    requires x < Pow2(n)
    ensures BitLength(x) <= n
  {
    if x > 0 {
      BitLengthAtMost(x / 2, n - 1);
    }
  }

  /**
   * Leading-zero count of a non-negative 32-bit integer (numberOfLeadingZeros);
   * it is 32 for zero.
   */
  function LeadingZeros32(x: nat): (r: nat)
    requires x < 0x1_0000_0000
    ensures r <= 32
  {
    Pow2Values();
    BitLengthAtMost(x, 32);
    32 - BitLength(x)
  }

  /**
   * Among the low k bits of v, the first k - BitLength(v) are zero and, unless v is
   * zero, the next one is set.
   */
  lemma LeadingRun(v: nat, k: nat)
    requires v < Pow2(k)
    ensures BitLength(v) <= k
    ensures AllEqual(LowBits(v, k)[..k - BitLength(v)], false)
    ensures v > 0 ==> LowBits(v, k)[k - BitLength(v)]
  {
    var n := BitLength(v);
    BitLengthAtMost(v, k);
    LowBitsSplit(v, k, n);
    DivModUnique(v, Pow2(n), 0, v);
    LowBitsOfZero(k - n);
    assert LowBits(v, k)[..k - n] == LowBits(0, k - n);
    if v > 0 {
      TopBitSet(v);
      assert LowBits(v, k)[k - n] == LowBits(v, n)[0];
    }
  }

  /** The first of the BitLength(v) low bits of a positive v is set. */
  lemma TopBitSet(v: nat)
    requires v > 0
    ensures LowBits(v, BitLength(v))[0]
  {
    var n := BitLength(v);
    var p := Pow2(n - 1);
    LowBitsSplit(v, n, n - 1);
    DivModUnique(v, p, 1, v - p);
    assert LowBits(v, n)[0] == LowBits(1, 1)[0];
  }
}
