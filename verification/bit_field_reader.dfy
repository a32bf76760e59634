/**
 * The bit-field reader: fields of bitSize bits read most significant bit first from the
 * bit stream of a byte source, with a one-byte cache (current) of which the low bitsLeft
 * bits are still unread.
 */
module BitField {
  import opened Bits
  import opened Wrappers
  import opened ByteSource
  import opened ColumnVectors

  /** Byte k of a byte sequence occupies stream bits 8k to 8k + 8. */
  lemma ByteAt(bytes: seq<byte>, k: nat)
    requires k < |bytes|
    ensures 8 * k + 8 <= |BytesBits(bytes)|
    ensures BytesBits(bytes)[8 * k..8 * k + 8] == LowBits(bytes[k], 8)
  {
    BytesBitsDrop(bytes, k);
    BytesBitsCons(bytes, k);
    var s := BytesBits(bytes);
    assert s[8 * k..8 * k + 8] == s[8 * k..][..8];
  }

  /** The two halves of LowBits(v, k) cut before its last j bits. */
  lemma SplitHalves(bits: seq<bool>, v: nat, k: nat, j: nat)
    requires j <= k && bits == LowBits(v, k)
    ensures bits[k - j..] == LowBits(v, j)
    ensures bits[..k - j] == LowBits(ShiftRight(v, j), k - j)
  {
    LowBitsSplit(v, k, j);
  }

  /** The unread low bl bits of byte p - 1 are the stream bits just before bit 8p. */
  lemma ByteTail(bytes: seq<byte>, p: int, bl: nat)
    requires 1 <= p <= |bytes| && bl <= 8
    ensures BytesBits(bytes)[8 * p - bl..8 * p] == LowBits(bytes[p - 1], bl)
  {
    ByteAt(bytes, p - 1);
    var s := BytesBits(bytes);
    SplitHalves(s[8 * (p - 1)..8 * p], bytes[p - 1], 8, bl);
    assert s[8 * p - bl..8 * p] == s[8 * (p - 1)..8 * p][8 - bl..];
  }

  /** Reading n more bits, the first n of the low bl bits of c, extends a big-endian value. */
  lemma ReadAhead(s: seq<bool>, p0: int, pos: int, c: nat, bl: nat, n: nat)
    requires 0 <= p0 <= pos && pos + bl <= |s| && n <= bl
    requires s[pos..pos + bl] == LowBits(c, bl)
    ensures BitsValue(s[p0..pos + n]) == BitsValue(s[p0..pos]) * Pow2(n) + (c / Pow2(bl - n)) % Pow2(n)
  {
    var bits := s[pos..pos + bl];
    SplitHalves(bits, c, bl, bl - n);
    assert s[pos..pos + n] == bits[..n];
    assert s[p0..pos + n] == s[p0..pos] + s[pos..pos + n];
    BitsValueAppend(s[p0..pos], s[pos..pos + n]);
    BitsValueOfLowBits(ShiftRight(c, bl - n), n);
  }

  /** The first of the low bl bits of c. */
  lemma {:induction false} FirstBit(c: nat, bl: nat)
    requires bl >= 1
    ensures LowBits(c, bl)[0] == ((c / Pow2(bl - 1)) % 2 == 1)
  {
    if bl > 1 {
      FirstBit(c / 2, bl - 1);
      HalfSplit(c, Pow2(bl - 2));
    }
  }

  /** A byte read back from its 8 bits. */
  lemma ByteValue(c: byte)
    ensures BitsValue(LowBits(c, 8)) == c
  {
    BitsValueOfLowBits(c, 8);
    Pow2Byte();
    DivModUnique(c, 256, 0, c);
  }

  /** Bits whose value modulo 2^k is 0 (or 2^k - 1) are all clear (or all set). */
  lemma UniformLowBits(c: nat, k: nat, value: bool)
    requires c % Pow2(k) == if value then Pow2(k) - 1 else 0
    ensures AllEqual(LowBits(c, k), value)
  {
    LowBitsMod(c, k);
    UniformValue(c % Pow2(k), k, value);
  }

  lemma UniformValue(m: nat, k: nat, value: bool)
    requires m == if value then Pow2(k) - 1 else 0
    ensures AllEqual(LowBits(m, k), value)
  {
    if value {
      LowBitsOfOnes(k);
    } else {
      LowBitsOfZero(k);
    }
  }

  /** A run inside a window of the stream is a run of the stream. */
  lemma RunInWindow(s: seq<bool>, pos: int, bits: seq<bool>, n: nat, value: bool)
    requires 0 <= pos && pos + |bits| <= |s| && s[pos..pos + |bits|] == bits
    requires n <= |bits| && AllEqual(bits[..n], value)
    ensures AllEqual(s[pos..pos + n], value)
  {
    assert s[pos..pos + n] == bits[..n];
  }

  /** Two adjacent runs of one value make one run. */
  lemma RunJoin(s: seq<bool>, p0: int, q: int, r: int, value: bool)
    requires 0 <= p0 <= q <= r <= |s|
    requires AllEqual(s[p0..q], value) && AllEqual(s[q..r], value)
    ensures AllEqual(s[p0..r], value)
  {
    assert s[p0..r] == s[p0..q] + s[q..r];
  }

  /**
   * The leading bits of c that equal value: as many as the leading zeros of c, or of its
   * complement when value is set.
   */
  lemma LeadingMatch(c: nat, k: nat, value: bool, v: nat)
    requires c < Pow2(k) && v == if value then Pow2(k) - 1 - c else c
    ensures BitLength(v) <= k
    ensures AllEqual(LowBits(c, k)[..k - BitLength(v)], value)
  {
    LeadingRun(v, k);
    var n := k - BitLength(v);
    forall i | 0 <= i < n
      ensures LowBits(c, k)[..n][i] == value
    {
      assert !LowBits(v, k)[..n][i];
      if value {
        LowBitsComplementAt(c, k, i);
      }
    }
  }

  /** Masking a value read from w bits to its low w bits leaves it unchanged. */
  lemma MaskKeeps(result: int, bits: seq<bool>)
    requires result == BitsValue(bits)
    ensures result % Pow2(|bits|) == result < Pow2(|bits|)
  {
    BitsValueBound(bits);
    DivModUnique(result, Pow2(|bits|), 0, result);
  }

  /** The leading bits of a byte equal to value, as many as the code counts with numberOfLeadingZeros. */
  lemma LeadingOfByte(c: int, value: bool, v: int)
    requires 0 <= c < 256 && v == if value then 0xff - c else c
    ensures 0 <= v < 0x1_0000_0000 && 0 <= LeadingZeros32(v) - 24 <= 8
    ensures AllEqual(LowBits(c, 8)[..LeadingZeros32(v) - 24], value)
  {
    Pow2Byte();
    LeadingMatch(c, 8, value, v);
  }

  /** The number of non-null rows among the flags. */
  function CountNonNull(flags: seq<bool>): (n: nat)
    ensures n <= |flags|
  {
    if flags == [] then 0 else CountNonNull(flags[..|flags| - 1]) + (if flags[|flags| - 1] then 0 else 1)
  }

  /** The bits that rows with these null flags take in the stream: width bits per non-null row. */
  function RowBits(width: nat, flags: seq<bool>): nat
  {
    if flags == [] then 0 else RowBits(width, flags[..|flags| - 1]) + (if flags[|flags| - 1] then 0 else width)
  }

  lemma {:induction false} RowBitsCount(width: nat, flags: seq<bool>)
    ensures RowBits(width, flags) == width * CountNonNull(flags)
  {
    if flags != [] {
      RowBitsCount(width, flags[..|flags| - 1]);
    }
  }

  lemma RowBitsSnoc(width: nat, flags: seq<bool>, i: nat)
    requires i < |flags|
    ensures RowBits(width, flags[..i + 1]) == RowBits(width, flags[..i]) + (if flags[i] then 0 else width)
  {
    assert flags[..i + 1][..i] == flags[..i];
  }

  /** A non-null row i and the rows before it take at most the bits of the first j rows. */
  lemma {:induction false} RowBitsPrefix(width: nat, flags: seq<bool>, i: nat, j: nat)
    requires i < j <= |flags| && !flags[i]
    ensures RowBits(width, flags[..i]) + width <= RowBits(width, flags[..j])
  {
    if j == i + 1 {
      assert flags[..j][..i] == flags[..i];
    } else {
      RowBitsPrefix(width, flags, i, j - 1);
      assert flags[..j][..j - 1] == flags[..j - 1];
    }
  }

  /** Row k holds what NextVector stores there: the null value, or the field after those of the rows before it. */
  ghost predicate RowOk(s: seq<bool>, width: nat, flags: seq<bool>, p0: int, k: int, value: int)
    requires 0 <= k < |flags|
  {
    if flags[k] then value == NULL_VALUE
    else
      var start := p0 + RowBits(width, flags[..k]);
      0 <= p0 && start + width <= |s| && value == BitsValue(s[start..start + width])
  }

  ghost predicate RowsRead(s: seq<bool>, width: nat, flags: seq<bool>, p0: int, values: seq<int>)
    requires |values| <= |flags|
  {
    forall k :: 0 <= k < |values| ==> RowOk(s, width, flags, p0, k, values[k])
  }

  /** Whether every two neighbouring rows agree in value and in null flag. */
  predicate AllRepeat(values: seq<int>, flags: seq<bool>)
    requires |values| <= |flags|
  {
    forall k :: 0 < k < |values| ==> values[k - 1] == values[k] && flags[k - 1] == flags[k]
  }

  lemma RowsReadSnoc(s: seq<bool>, width: nat, flags: seq<bool>, p0: int, values: seq<int>, value: int)
    requires |values| < |flags| && RowsRead(s, width, flags, p0, values)
    requires RowOk(s, width, flags, p0, |values|, value)
    ensures RowsRead(s, width, flags, p0, values + [value])
  {
  }

  lemma AllRepeatSnoc(values: seq<int>, flags: seq<bool>, value: int)
    requires |values| < |flags|
    ensures AllRepeat(values + [value], flags) <==>
      AllRepeat(values, flags)
      && (|values| > 0 ==> values[|values| - 1] == value && flags[|values| - 1] == flags[|values|])
  {
    var n := |values|;
    var vs := values + [value];
    if AllRepeat(values, flags) && (n > 0 ==> values[n - 1] == value && flags[n - 1] == flags[n]) {
      forall k | 0 < k < |vs| ensures vs[k - 1] == vs[k] && flags[k - 1] == flags[k] {
        if k < n {
          assert vs[k - 1] == values[k - 1] && vs[k] == values[k];
        }
      }
    }
    if AllRepeat(vs, flags) {
      forall k | 0 < k < n ensures values[k - 1] == values[k] && flags[k - 1] == flags[k] {
        assert vs[k - 1] == values[k - 1] && vs[k] == values[k];
      }
      if n > 0 {
        assert vs[n - 1] == values[n - 1] && vs[n] == value;
      }
    }
  }

  /** Whether a byte holds value in all eight bits (0xff for set bits, 0 for clear ones). */
  predicate Filled(c: int, value: bool)
  {
    if value then c == 0xff else c == 0
  }

  function Min(a: int, b: int): int
  {
    if a <= b then a else b
  }

  /** The unread bits of current as a number (current & partialBitsMask). */
  function PartialBits(current: int, bitsLeft: int): (p: nat)
    requires 0 < bitsLeft < 8 && 0 <= current
    ensures p < Pow2(bitsLeft) <= 256
  {
    Pow2Monotone(bitsLeft, 8);
    Pow2Byte();
    current % Pow2(bitsLeft)
  }

  /** Whether the unread bits of current hold both values. */
  predicate Mixed(current: int, bitsLeft: int)
    requires 0 < bitsLeft < 8 && 0 <= current
  {
    var p := PartialBits(current, bitsLeft);
    p != 0 && p != Pow2(bitsLeft) - 1
  }

  /** The leading-zero count of the unread bits, from numberOfLeadingZeros minus the prefix bits. */
  function ZeroRun(current: int, bitsLeft: int): int
    requires 0 < bitsLeft < 8 && 0 <= current
  {
    LeadingZeros32(PartialBits(current, bitsLeft)) - (32 - bitsLeft)
  }

  /** The leading-ones count of the unread bits: the same count on ~(partialBits | ~partialBitsMask). */
  function OneRun(current: int, bitsLeft: int): int
    requires 0 < bitsLeft < 8 && 0 <= current
  {
    LeadingZeros32(Pow2(bitsLeft) - 1 - PartialBits(current, bitsLeft)) - (32 - bitsLeft)
  }

  /** The leading run of p within its low k bits, and the bit that ends it. */
  lemma LeadingRunOf(p: nat, k: nat, value: bool, v: nat)
    requires 0 < v < Pow2(k) && p < Pow2(k) && v == if value then Pow2(k) - 1 - p else p
    ensures 0 <= k - BitLength(v) < k
    ensures AllEqual(LowBits(p, k)[..k - BitLength(v)], value)
    ensures LowBits(p, k)[k - BitLength(v)] != value
  {
    LeadingMatch(p, k, value, v);
    LeadingRun(v, k);
    if value {
      LowBitsComplementAt(p, k, k - BitLength(v));
    }
  }

  /**
   * ZeroRun and OneRun measure the leading run of the unread bits: exactly one of them is
   * positive, and each run stops before a differing bit.
   */
  lemma PartialRunFacts(current: int, bitsLeft: int)
    requires 0 < bitsLeft < 8 && 0 <= current && Mixed(current, bitsLeft)
    ensures var z, o, bits := ZeroRun(current, bitsLeft), OneRun(current, bitsLeft), LowBits(current, bitsLeft);
      && 0 <= z < bitsLeft && 0 <= o < bitsLeft
      && (z == 0 <==> o > 0)
      && AllEqual(bits[..z], false) && bits[z]
      && AllEqual(bits[..o], true) && !bits[o]
  {
    var p := PartialBits(current, bitsLeft);
    LowBitsMod(current, bitsLeft);
    RunsOfMixed(p, bitsLeft, ZeroRun(current, bitsLeft), OneRun(current, bitsLeft));
  }

  /** The leading runs of a k-bit value p that is neither 0 nor all ones. */
  lemma RunsOfMixed(p: nat, k: nat, z: int, o: int)
    requires 0 < p < Pow2(k) - 1 && k <= 32 && Pow2(k) <= 0x1_0000_0000
    requires z == LeadingZeros32(p) - (32 - k) && o == LeadingZeros32(Pow2(k) - 1 - p) - (32 - k)
    ensures 0 <= z < k && 0 <= o < k && (z == 0 <==> o > 0)
    ensures AllEqual(LowBits(p, k)[..z], false) && LowBits(p, k)[z]
    ensures AllEqual(LowBits(p, k)[..o], true) && !LowBits(p, k)[o]
  {
    var c := Pow2(k) - 1 - p;
    assert z == k - BitLength(p) && o == k - BitLength(c);
    LeadingRunOf(p, k, false, p);
    LeadingRunOf(p, k, true, c);
    var bits := LowBits(p, k);
    assert bits[0] <==> z == 0 by {
      if z > 0 {
        assert bits[..z][0] == bits[0];
      }
    }
    assert bits[0] <==> o > 0 by {
      if o > 0 {
        assert bits[..o][0] == bits[0];
      }
    }
  }

  /**
   * The run at the head of a partial byte whose unread bits hold both values: its value
   * (set when the bits start with a one) and its length capped at maxRunLength.
   */
  function PartialRun(current: int, bitsLeft: int, maxRunLength: int): (r: (bool, int))
    requires 0 < bitsLeft < 8 && 0 <= current && Mixed(current, bitsLeft)
    ensures r.1 <= maxRunLength && (maxRunLength > 0 ==> r.1 > 0)
    ensures r.1 < bitsLeft
    ensures r.1 > 0 ==> AllEqual(LowBits(current, bitsLeft)[..r.1], r.0)
    ensures 0 <= r.1 < maxRunLength ==> LowBits(current, bitsLeft)[r.1] != r.0
  {
    PartialRunFacts(current, bitsLeft);
    var runLength := ZeroRun(current, bitsLeft);
    var value := runLength == 0;
    (value, Min(maxRunLength, if value then OneRun(current, bitsLeft) else runLength))
  }

  /** The run as the code computes it: the value flag is set when the leading bits are zeros. */
  function PartialRunAsWritten(current: int, bitsLeft: int, maxRunLength: int): (r: (bool, int))
    requires 0 < bitsLeft < 8 && 0 <= current && Mixed(current, bitsLeft)
    ensures r.1 <= maxRunLength && r.1 < bitsLeft
  {
    PartialRunFacts(current, bitsLeft);
    var runLength := ZeroRun(current, bitsLeft);
    var value := runLength > 0;
    (value, Min(maxRunLength, if value then runLength else OneRun(current, bitsLeft)))
  }

  /** The code reports the right run length, with the value flag always inverted. */
  lemma PartialRunAsWrittenInverted(current: int, bitsLeft: int, maxRunLength: int)
    requires 0 < bitsLeft < 8 && 0 <= current && Mixed(current, bitsLeft)
    ensures PartialRunAsWritten(current, bitsLeft, maxRunLength).1 == PartialRun(current, bitsLeft, maxRunLength).1
    ensures PartialRunAsWritten(current, bitsLeft, maxRunLength).0 == !PartialRun(current, bitsLeft, maxRunLength).0
  {
    PartialRunFacts(current, bitsLeft);
  }

  /**
   * With the four unread bits 0011 the code reports a run of two set bits, where the
   * stream holds two clear ones.
   */
  lemma PartialRunCounterexample()
    ensures Mixed(3, 4)
    ensures PartialRunAsWritten(3, 4, 8) == (true, 2)
    ensures LowBits(3, 4)[..2] == [false, false]
  {
    assert Pow2(4) == 16;
    assert PartialBits(3, 4) == 3;
    assert BitLength(3) == 2;
    assert ZeroRun(3, 4) == 2;
    assert LowBits(3, 4) == LowBits(0, 2) + [true, true];
  }

  class BitFieldReader {
    /** The decoded byte source. */
    const input: ByteCursor
    /** The width of one field, in bits. */
    const bitSize: int
    const mask: int
    /** The last byte fetched. */
    var current: int
    /** How many of current's low bits are still unread. */
    var bitsLeft: int
    var lastRunValue: bool
    var lastRunLength: int

    /** The shape every state has, including the state between a seek and the byte fetch after it. */
    ghost predicate Config()
      reads this, input
    {
      && input.Valid()
      && 1 <= bitSize <= 31 && mask == Pow2(bitSize) - 1
      && 0 <= bitsLeft <= 8 && 0 <= current < 256
    }

    ghost predicate Valid()
      reads this, input
    {
      && Config()
      // the cached byte is the last byte fetched
      && (bitsLeft > 0 ==> 1 <= input.pos && current == input.bytes[input.pos - 1])
    }

    /** All bits the source will deliver. */
    ghost function Stream(): seq<bool>
    {
      BytesBits(input.bytes)
    }

    /** The number of stream bits consumed so far. */
    ghost function Position(): int
      reads this, input
    {
      8 * input.pos - bitsLeft
    }

    /** The position lies within the stream. */
    lemma PositionInStream()
      requires Valid()
      ensures 0 <= Position() <= 8 * input.pos <= |Stream()|
    {
    }

    /** The unread bits of current are the stream bits from the position to the next byte. */
    lemma CurrentBits()
      requires Valid()
      ensures 0 <= Position() <= 8 * input.pos <= |Stream()|
      ensures Stream()[Position()..8 * input.pos] == LowBits(current, bitsLeft)
    {
      if bitsLeft > 0 {
        ByteTail(input.bytes, input.pos, bitsLeft);
      }
    }

    constructor (bytes: seq<byte>, bitSize: int)
      requires 1 <= bitSize <= 31
      ensures Valid() && fresh(input)
      ensures input.bytes == bytes && Position() == 0 && bitsLeft == 0 && lastRunLength == -1
      ensures this.bitSize == bitSize && mask == Pow2(bitSize) - 1
    {
      input := new ByteCursor(bytes);
      this.bitSize := bitSize;
      mask := Pow2(bitSize) - 1;
      current := 0;
      bitsLeft := 0;
      lastRunLength := -1;
    }

    /** Fetches the next byte into current with all 8 bits unread, or fails at the end. */
    method ReadByte() returns (o: Outcome)
      requires Config()
      modifies this, input
      ensures Config()
      ensures lastRunValue == old(lastRunValue) && lastRunLength == old(lastRunLength)
      ensures old(input.pos) < |input.bytes| ==>
        o == Done && current == input.bytes[old(input.pos)] && bitsLeft == 8 && input.pos == old(input.pos) + 1
      ensures old(input.pos) == |input.bytes| ==>
        o == Failed(EndOfStream) && current == old(current) && bitsLeft == old(bitsLeft) && input.pos == old(input.pos)
      ensures o.Done? || old(Valid()) ==> Valid()
    {
      var more := input.HasNext();
      if more {
        var b := input.Next();
        current := b.value % 256;
        bitsLeft := 8;
        o := Done;
      } else {
        o := Failed(EndOfStream);
      }
    }

    /**
     * Reads the next field: the big-endian value of the next bitSize stream bits, or the
     * end-of-stream error when fewer bits remain.
     */
    method Next() returns (r: Result<int>)
      requires Valid()
      modifies this, input
      ensures Valid()
      ensures lastRunValue == old(lastRunValue) && lastRunLength == old(lastRunLength)
      ensures old(Position()) + bitSize <= |Stream()| ==>
        && r == Ok(BitsValue(Stream()[old(Position())..old(Position()) + bitSize]))
        && Position() == old(Position()) + bitSize
      ensures old(Position()) + bitSize > |Stream()| ==> r == Fail(EndOfStream)
      ensures r.Ok? ==> 0 <= r.value <= mask
    {
      ghost var p0 := Position();
      CurrentBits();
      var result := 0;
      var bitsLeftToRead := bitSize;
      while bitsLeftToRead > bitsLeft
        invariant Valid()
        invariant lastRunValue == old(lastRunValue) && lastRunLength == old(lastRunLength)
        invariant 0 < bitsLeftToRead <= bitSize
        invariant 0 <= p0 <= Position() == p0 + (bitSize - bitsLeftToRead)
        invariant result == BitsValue(Stream()[p0..Position()])
        decreases |input.bytes| - input.pos
      {
        bitsLeftToRead := bitsLeftToRead - bitsLeft;
        var o;
        o, result := TakeRestOfByte(result, p0);
        if o.Failed? {
          return Fail(EndOfStream);
        }
      }
      result := FinishField(result, bitsLeftToRead, p0);
      r := Ok(result);
    }

    /** After Next's loop: the last bitsLeftToRead bits come from current, and the mask is applied. */
    method FinishField(result: int, bitsLeftToRead: int, ghost p0: int) returns (value: int)
      requires Valid() && 0 <= bitsLeftToRead <= bitsLeft
      requires 0 <= p0 <= Position() == p0 + (bitSize - bitsLeftToRead)
      requires result == BitsValue(Stream()[p0..Position()])
      modifies this
      ensures Valid() && Position() == p0 + bitSize && input.pos == old(input.pos)
      ensures lastRunValue == old(lastRunValue) && lastRunLength == old(lastRunLength)
      ensures value == BitsValue(Stream()[p0..p0 + bitSize]) && 0 <= value <= mask
    {
      value := result;
      if bitsLeftToRead > 0 {
        value := TakeBits(value, bitsLeftToRead, p0);
      }
      PositionInStream();
      MaskKeeps(value, Stream()[p0..p0 + bitSize]);
      value := value % Pow2(bitSize);
    }

    /**
     * One round of Next's loop: the unread bits of current are appended to the value read
     * so far (result << bitsLeft | current & lowMask), then the next byte is fetched.
     */
    method TakeRestOfByte(result: int, ghost p0: int) returns (o: Outcome, next: int)
      requires Valid() && 0 <= p0 <= Position() && result == BitsValue(Stream()[p0..Position()])
      modifies this, input
      ensures Valid() && lastRunValue == old(lastRunValue) && lastRunLength == old(lastRunLength)
      ensures old(input.pos) == |input.bytes| ==> o == Failed(EndOfStream) && 8 * input.pos == |Stream()|
      ensures old(input.pos) < |input.bytes| ==>
        && o == Done && Valid() && Position() == old(Position()) + old(bitsLeft)
        && next == BitsValue(Stream()[p0..Position()])
      ensures 8 * old(input.pos) == old(Position()) + old(bitsLeft)
      ensures input.pos == old(input.pos) + (if o.Done? then 1 else 0)
    {
      CurrentBits();
      ReadAhead(Stream(), p0, Position(), current, bitsLeft, bitsLeft);
      next := result * Pow2(bitsLeft) + current % Pow2(bitsLeft);
      o := ReadByte();
    }

    /** The last step of Next: n bits off the top of the unread bits of current. */
    method TakeBits(result: int, n: int, ghost p0: int) returns (next: int)
      requires Valid() && 0 < n <= bitsLeft && 0 <= p0 <= Position() && result == BitsValue(Stream()[p0..Position()])
      modifies this
      ensures Valid() && Position() == old(Position()) + n && Position() <= |Stream()|
      ensures current == old(current) && lastRunValue == old(lastRunValue) && lastRunLength == old(lastRunLength)
      ensures next == BitsValue(Stream()[p0..Position()])
    {
      CurrentBits();
      ReadAhead(Stream(), p0, Position(), current, bitsLeft, n);
      bitsLeft := bitsLeft - n;
      next := result * Pow2(n) + (current / Pow2(bitsLeft)) % Pow2(n);
    }

    /**
     * Passes over items fields. Within current only bitsLeft moves; otherwise whole bytes
     * are skipped and the byte holding the new position is fetched, which fails when that
     * byte does not exist, even if the skip ends exactly at the end of the stream.
     */
    method Skip(items: nat) returns (o: Outcome)
      requires Valid()
      modifies this, input
      ensures Valid() || o.Failed?
      ensures lastRunValue == old(lastRunValue) && lastRunLength == old(lastRunLength)
      ensures bitSize * items <= old(bitsLeft) ==>
        && o == Done && Position() == old(Position()) + bitSize * items
        && current == old(current) && input.pos == old(input.pos)
      ensures bitSize * items > old(bitsLeft) ==>
        var totalBits := bitSize * items - old(bitsLeft);
        if old(input.pos) + totalBits / 8 < |input.bytes| then
          o == Done && Position() == old(Position()) + bitSize * items && 1 <= bitsLeft <= 8
        else
          o == Failed(EndOfStream)
    {
      var totalBits := bitSize * items;
      if bitsLeft >= totalBits {
        bitsLeft := bitsLeft - totalBits;
        o := Done;
      } else {
        totalBits := totalBits - bitsLeft;
        o := input.Skip(totalBits / 8);
        if o.Failed? {
          return;
        }
        var b := input.Next();
        if b.Fail? {
          return Failed(EndOfStream);
        }
        current := b.value;
        bitsLeft := 8 - totalBits % 8;
      }
    }

    /**
     * Moves to a recorded checkpoint: the byte source to bytePos, then consumed bits of the
     * byte there. A consumed count above 8 is rejected; zero fetches nothing.
     */
    method Seek(bytePos: nat, consumed: nat) returns (o: Outcome)
      requires Valid() && bytePos <= |input.bytes|
      modifies this, input
      ensures lastRunValue == old(lastRunValue) && lastRunLength == old(lastRunLength)
      ensures consumed > 8 ==> o == Failed(InvalidArgument) && input.pos == bytePos
      ensures consumed == 0 ==> o == Done && Valid() && bitsLeft == 0 && Position() == 8 * bytePos
      ensures 0 < consumed <= 8 ==>
        if bytePos < |input.bytes| then
          o == Done && Valid() && bitsLeft == 8 - consumed && Position() == 8 * bytePos + consumed
        else
          o == Failed(EndOfStream)
    {
      input.Seek(bytePos);
      if consumed > 8 {
        o := Failed(InvalidArgument);
      } else if consumed != 0 {
        o := ReadByte();
        if o.Done? {
          bitsLeft := 8 - consumed;
        }
      } else {
        bitsLeft := 0;
        o := Done;
      }
    }

    /** Whether the position is on a byte boundary. */
    function HasFullByte(): (r: bool)
      reads this, input
      requires Valid()
      ensures r <==> Position() % 8 == 0
    {
      bitsLeft == 8 || bitsLeft == 0
    }

    /** The next bit, without consuming it; a byte is fetched only when current is used up. */
    method PeekOneBit() returns (r: Result<int>)
      requires Valid() && bitSize == 1
      modifies this, input
      ensures Valid() && Position() == old(Position())
      ensures lastRunValue == old(lastRunValue) && lastRunLength == old(lastRunLength)
      ensures old(bitsLeft) > 0 ==> bitsLeft == old(bitsLeft) && input.pos == old(input.pos)
      ensures old(Position()) < |Stream()| ==> r == Ok(if Stream()[old(Position())] then 1 else 0)
      ensures old(Position()) == |Stream()| ==> r == Fail(EndOfStream)
    {
      CurrentBits();
      if bitsLeft == 0 {
        var o := ReadByte();
        if o.Failed? {
          return Fail(EndOfStream);
        }
      }
      CurrentBits();
      FirstBit(current, bitsLeft);
      r := Ok((current / Pow2(bitsLeft - 1)) % 2);
    }

    /** The next whole byte, without consuming it; only valid on a byte boundary. */
    method PeekFullByte() returns (r: Result<int>)
      requires Valid() && bitSize == 1 && (bitsLeft == 8 || bitsLeft == 0)
      modifies this, input
      ensures Valid() && Position() == old(Position())
      ensures lastRunValue == old(lastRunValue) && lastRunLength == old(lastRunLength)
      ensures old(Position()) + 8 <= |Stream()| ==> r == Ok(BitsValue(Stream()[old(Position())..old(Position()) + 8]))
      ensures old(Position()) + 8 > |Stream()| ==> r == Fail(EndOfStream)
      ensures r.Ok? ==> 0 <= r.value < 256
    {
      CurrentBits();
      if bitsLeft == 0 {
        var o := ReadByte();
        if o.Failed? {
          return Fail(EndOfStream);
        }
      }
      FullByte();
      r := Ok(current);
    }

    /** With a whole byte unread, the next 8 stream bits read back as current. */
    lemma FullByte()
      requires Valid() && bitsLeft == 8
      ensures Position() + 8 <= |Stream()|
      ensures BitsValue(Stream()[Position()..Position() + 8]) == current
    {
      CurrentBits();
      ByteValue(current);
    }

    /** Consumes bits of current. */
    method SkipInCurrentByte(bits: int)
      requires Valid() && 0 <= bits <= bitsLeft
      modifies this
      ensures Valid() && Position() == old(Position()) + bits && bitsLeft == old(bitsLeft) - bits
      ensures current == old(current) && lastRunValue == old(lastRunValue) && lastRunLength == old(lastRunLength)
    {
      bitsLeft := bitsLeft - bits;
    }

    /** A reported run: n bits of lastRunValue from bit p0 on. */
    ghost predicate RunFrom(p0: int, n: int)
      reads this
    {
      n > 0 ==> 0 <= p0 && p0 + n <= |Stream()| && AllEqual(Stream()[p0..p0 + n], lastRunValue)
    }

    /**
     * A reported run is as long as it should be: it is not empty, and it either reaches the
     * cap or is followed by a stream bit of the other value.
     */
    ghost predicate RunEnds(p0: int, maxRunLength: int)
      reads this
    {
      && lastRunLength > 0
      && (|| lastRunLength >= maxRunLength
          || (0 <= p0 && p0 + lastRunLength < |Stream()| && Stream()[p0 + lastRunLength] != lastRunValue))
    }

    /** A run ending at the position extends by the first n unread bits when they hold its value. */
    lemma ExtendRun(p0: int, run: int, n: int)
      requires Valid() && 0 <= p0 && 0 <= run && Position() == p0 + run && RunFrom(p0, run)
      requires 0 < n <= bitsLeft && AllEqual(LowBits(current, bitsLeft)[..n], lastRunValue)
      ensures RunFrom(p0, run + n)
    {
      CurrentBits();
      RunInWindow(Stream(), Position(), LowBits(current, bitsLeft), n, lastRunValue);
      if run > 0 {
        RunJoin(Stream(), p0, p0 + run, p0 + run + n, lastRunValue);
      }
    }

    /**
     * Looks ahead for the run starting at the position, of at most about maxRunLength bits
     * (single-bit fields only); does nothing while the last run is not used up. A run
     * confined to the unread part of current is only reported; a run reaching past it is
     * consumed.
     */
    method ReadNextRun(maxRunLength: int) returns (o: Outcome)
      requires Valid() && bitSize == 1
      modifies this, input
      ensures o.Done? ==> Valid()
      ensures o.Failed? ==> o == Failed(EndOfStream)
      ensures old(lastRunLength) > 0 ==>
        && o == Done && lastRunLength == old(lastRunLength) && lastRunValue == old(lastRunValue)
        && current == old(current) && bitsLeft == old(bitsLeft) && input.pos == old(input.pos)
      // the reported run holds: lastRunLength bits of value lastRunValue from the old position
      ensures o.Done? && old(lastRunLength) <= 0 ==>
        && (Position() == old(Position()) || Position() == old(Position()) + lastRunLength)
        && RunFrom(old(Position()), lastRunLength)
      // inside a partial byte whose unread bits differ, or when the cap fits those bits, the
      // run is positive, capped and not consumed
      ensures old(lastRunLength) <= 0 && 0 < old(bitsLeft) < 8 && maxRunLength > 0
              && (maxRunLength <= old(bitsLeft) || old(Mixed(current, bitsLeft))) ==>
        o == Done && 0 < lastRunLength <= maxRunLength && Position() == old(Position())
      // the run is as long as it should be: it stops at the cap or before a bit of the other value
      ensures o.Done? && old(lastRunLength) <= 0 && maxRunLength > 0 ==> RunEnds(old(Position()), maxRunLength)
    {
      if lastRunLength > 0 {
        return Done;
      }
      if bitsLeft == 0 {
        o := ReadByte();
        if o.Failed? {
          return;
        }
      }
      ghost var p0 := Position();
      if bitsLeft != 8 {
        var done, max, runLength;
        o, done, max, runLength := PartialByteRun(maxRunLength);
        if done {
          return;
        }
        o := ReadFullBytes(max, runLength, p0);
      } else {
        lastRunValue := current / 128 == 1;
        o := ReadFullBytes(maxRunLength, 0, p0);
      }
    }

    /**
     * The partial-byte part of ReadNextRun. Unread bits that hold both values give a run
     * inside current (done); unread bits all of one value give a run inside current when
     * maxRunLength fits in them (done), and otherwise are consumed as the start of the run,
     * and the next byte is fetched.
     */
    method PartialByteRun(maxRunLength: int) returns (o: Outcome, done: bool, max: int, runLength: int)
      requires Valid() && bitSize == 1 && 0 < bitsLeft < 8
      modifies this, input
      ensures o.Failed? ==> o == Failed(EndOfStream) && done
      ensures done && o.Done? ==> Valid() && Position() == old(Position()) && RunFrom(old(Position()), lastRunLength)
      ensures done && o.Done? && maxRunLength > 0 ==> RunEnds(old(Position()), maxRunLength)
      ensures !done ==>
        && o == Done && Valid() && bitsLeft == 8 && runLength == old(bitsLeft) && 0 < max == maxRunLength - runLength
        && Position() == old(Position()) + runLength && RunFrom(old(Position()), runLength)
      ensures maxRunLength > 0 && (maxRunLength <= old(bitsLeft) || old(Mixed(current, bitsLeft))) ==>
        done && o == Done && 0 < lastRunLength <= maxRunLength
    {
      var partialBitsMask := Pow2(bitsLeft) - 1;
      var partialBits := PartialBits(current, bitsLeft);
      if partialBits == partialBitsMask || partialBits == 0 {
        o, done, max, runLength := UniformRun(maxRunLength, partialBits == partialBitsMask);
      } else {
        MixedRun(maxRunLength);
        o, done, max, runLength := Done, true, maxRunLength, 0;
      }
    }

    /** PartialByteRun when the unread bits all hold value. */
    method UniformRun(maxRunLength: int, value: bool) returns (o: Outcome, done: bool, max: int, runLength: int)
      requires Valid() && bitSize == 1 && 0 < bitsLeft < 8
      requires PartialBits(current, bitsLeft) == if value then Pow2(bitsLeft) - 1 else 0
      modifies this, input
      ensures lastRunValue == value
      ensures o.Failed? ==> o == Failed(EndOfStream) && done
      ensures done && o.Done? ==> Valid() && Position() == old(Position()) && RunFrom(old(Position()), lastRunLength)
      ensures done && o.Done? && maxRunLength > 0 ==> RunEnds(old(Position()), maxRunLength)
      ensures !done ==>
        && o == Done && Valid() && bitsLeft == 8 && runLength == old(bitsLeft) && 0 < max == maxRunLength - runLength
        && Position() == old(Position()) + runLength && RunFrom(old(Position()), runLength)
      ensures 0 < maxRunLength <= old(bitsLeft) ==> done && o == Done && lastRunLength == maxRunLength
    {
      lastRunValue := value;
      UniformLowBits(current, bitsLeft, value);
      if maxRunLength <= bitsLeft {
        CappedRun(maxRunLength);
        return Done, true, maxRunLength, 0;
      }
      o, max, runLength := RunToByteEnd(maxRunLength);
      done := o.Failed?;
    }

    /** The whole run lies in the unread bits of current: it is reported, not consumed. */
    method CappedRun(maxRunLength: int)
      requires Valid() && 0 < bitsLeft < 8 && maxRunLength <= bitsLeft
      requires AllEqual(LowBits(current, bitsLeft), lastRunValue)
      modifies this
      ensures Valid() && Position() == old(Position()) && lastRunValue == old(lastRunValue)
      ensures lastRunLength == maxRunLength && RunFrom(Position(), lastRunLength)
      ensures maxRunLength > 0 ==> RunEnds(Position(), maxRunLength)
    {
      lastRunLength := maxRunLength;
      if maxRunLength > 0 {
        ExtendRun(Position(), 0, maxRunLength);
      }
    }

    /** The run takes all unread bits of current, and the next byte is fetched. */
    method RunToByteEnd(maxRunLength: int) returns (o: Outcome, max: int, runLength: int)
      requires Valid() && 0 < bitsLeft < 8 && bitsLeft < maxRunLength
      requires AllEqual(LowBits(current, bitsLeft), lastRunValue)
      modifies this, input
      ensures lastRunValue == old(lastRunValue)
      ensures o.Failed? ==> o == Failed(EndOfStream)
      ensures o.Done? ==>
        && Valid() && bitsLeft == 8 && runLength == old(bitsLeft) && 0 < max == maxRunLength - runLength
        && Position() == old(Position()) + runLength && RunFrom(old(Position()), runLength)
    {
      ghost var p0 := Position();
      assert LowBits(current, bitsLeft)[..bitsLeft] == LowBits(current, bitsLeft);
      ExtendRun(p0, 0, bitsLeft);
      max := maxRunLength - bitsLeft;
      runLength := bitsLeft;
      bitsLeft := 0;
      o := ReadByte();
    }

    /** PartialByteRun when the unread bits hold both values: the run is reported, not consumed. */
    method MixedRun(maxRunLength: int)
      requires Valid() && bitSize == 1 && 0 < bitsLeft < 8 && Mixed(current, bitsLeft)
      modifies this
      ensures Valid() && current == old(current) && bitsLeft == old(bitsLeft)
      ensures (lastRunValue, lastRunLength) == PartialRun(current, bitsLeft, maxRunLength)
      ensures RunFrom(Position(), lastRunLength)
      ensures maxRunLength > 0 ==> RunEnds(Position(), maxRunLength)
    {
      var run := PartialRun(current, bitsLeft, maxRunLength);
      lastRunValue := run.0;
      lastRunLength := run.1;
      if run.1 > 0 {
        ExtendRun(Position(), 0, run.1);
      }
      if 0 <= run.1 < maxRunLength {
        CurrentBits();
        assert Stream()[Position() + run.1] == LowBits(current, bitsLeft)[run.1];
      }
    }

    /**
     * The byte-at-a-time part of ReadNextRun: whole bytes of the run's value are consumed
     * while at least 8 bits of the cap remain, then the leading bits of the first other byte
     * that match the value.
     */
    method ReadFullBytes(maxRunLength: int, runLength: int, ghost p0: int) returns (o: Outcome)
      requires Valid() && bitSize == 1 && bitsLeft == 8
      requires 0 <= p0 && 0 <= runLength && Position() == p0 + runLength && RunFrom(p0, runLength)
      // a run starting here takes its value from the first bit of current
      requires runLength > 0 || lastRunValue == (current / 128 == 1)
      modifies this, input
      ensures lastRunValue == old(lastRunValue)
      ensures o.Failed? ==> o == Failed(EndOfStream)
      ensures o.Done? ==> Valid() && runLength <= lastRunLength && Position() == p0 + lastRunLength && RunFrom(p0, lastRunLength)
      ensures o.Done? && maxRunLength > 0 ==> RunEnds(p0, runLength + maxRunLength)
    {
      var max, run := maxRunLength, runLength;
      while max >= 8 && Filled(current, lastRunValue)
        invariant Valid() && bitsLeft == 8 && lastRunValue == old(lastRunValue)
        invariant runLength <= run && Position() == p0 + run && RunFrom(p0, run)
        invariant run + max == runLength + maxRunLength
        invariant run > 0 || lastRunValue == (current / 128 == 1)
        decreases |input.bytes| - input.pos
      {
        WholeByteRun(p0, run);
        run := run + 8;
        max := max - 8;
        o := ReadByte();
        if o.Failed? {
          return;
        }
      }
      EndRun(max, run, p0);
      o := Done;
    }

    /** The end of a run found on whole bytes: the leading matching bits of current join it when the cap allows. */
    method EndRun(max: int, run: int, ghost p0: int)
      requires Valid() && bitSize == 1 && bitsLeft == 8
      requires 0 <= p0 && 0 <= run && Position() == p0 + run && RunFrom(p0, run)
      modifies this
      ensures lastRunValue == old(lastRunValue) && run <= lastRunLength
      ensures Valid() && Position() == p0 + lastRunLength && RunFrom(p0, lastRunLength)
      // past the whole bytes the run stops at the cap or before a bit of the other value
      ensures && run + max > 0 && (run > 0 || lastRunValue == (old(current) / 128 == 1))
              && (max < 8 || !Filled(old(current), lastRunValue)) ==>
        RunEnds(p0, run + max)
    {
      var extraBits := 0;
      if max > 0 {
        var v := if lastRunValue then 0xff - current else current;
        extraBits := LeadingZeros32(v) - 24;
        LeadingBitsRun(p0, run, v);
        if v > 0 {
          LeadingBitsStop(v);
        } else {
          assert LeadingZeros32(v) == 32;
        }
        bitsLeft := bitsLeft - extraBits;
      }
      lastRunLength := run + extraBits;
    }

    /** A byte of all ones (or all zeros) extends a run of ones (or zeros) by 8 bits. */
    lemma WholeByteRun(p0: int, run: int)
      requires Valid() && bitsLeft == 8 && 0 <= p0 && 0 <= run && Position() == p0 + run && RunFrom(p0, run)
      requires Filled(current, lastRunValue)
      ensures RunFrom(p0, run + 8)
    {
      Pow2Byte();
      UniformLowBits(current, 8, lastRunValue);
      assert LowBits(current, 8)[..8] == LowBits(current, 8);
      ExtendRun(p0, run, 8);
    }

    /**
     * When current does not hold the run's value throughout, the bit after its leading
     * matching bits has the other value; none match when its first bit differs.
     */
    lemma LeadingBitsStop(v: int)
      requires Valid() && bitsLeft == 8 && 0 < v && v == if lastRunValue then 0xff - current else current
      ensures 0 <= LeadingZeros32(v) - 24 < 8
      ensures Position() + (LeadingZeros32(v) - 24) < |Stream()|
      ensures Stream()[Position() + (LeadingZeros32(v) - 24)] != lastRunValue
      ensures LeadingZeros32(v) - 24 == 0 ==> lastRunValue != (current / 128 == 1)
    {
      Pow2Byte();
      LeadingRunOf(current, 8, lastRunValue, v);
      CurrentBits();
      FirstBit(current, 8);
      assert Pow2(7) == 128;
    }

    /** The leading bits of current that match the run's value, as counted by the code, extend the run. */
    lemma LeadingBitsRun(p0: int, run: int, v: int)
      requires Valid() && bitsLeft == 8 && 0 <= p0 && 0 <= run && Position() == p0 + run && RunFrom(p0, run)
      requires v == if lastRunValue then 0xff - current else current
      ensures 0 <= v < 0x1_0000_0000 && 0 <= LeadingZeros32(v) - 24 <= 8
      ensures RunFrom(p0, run + (LeadingZeros32(v) - 24))
    {
      LeadingOfByte(current, lastRunValue, v);
      var n := LeadingZeros32(v) - 24;
      if n > 0 {
        ExtendRun(p0, run, n);
      }
    }

    /**
     * Reads previousLen rows into the batch: each non-null row takes the next field, each
     * null row the null value, and the batch is marked repeating exactly when every two
     * neighbouring rows agree in value and in null flag. It succeeds exactly when the
     * stream holds a field for every non-null row.
     */
    method NextVector(previous: LongColumnVector, previousLen: int) returns (o: Outcome)
      requires Valid()
      requires 0 <= previousLen <= previous.vector.Length && previousLen <= previous.isNull.Length
      modifies this, input, previous, previous.vector
      ensures previous.vector == old(previous.vector) && previous.isNull == old(previous.isNull)
      ensures previous.noNulls == old(previous.noNulls)
      ensures lastRunValue == old(lastRunValue) && lastRunLength == old(lastRunLength)
      ensures o.Done? <==> old(Position()) + RowBits(bitSize, previous.isNull[..previousLen]) <= |Stream()|
      ensures o.Failed? ==> o == Failed(EndOfStream)
      ensures o.Done? ==>
        && Valid()
        && Position() == old(Position()) + RowBits(bitSize, previous.isNull[..previousLen])
        && RowsRead(Stream(), bitSize, previous.isNull[..previousLen], old(Position()), previous.vector[..previousLen])
        && previous.vector[previousLen..] == old(previous.vector[previousLen..])
        && (previous.isRepeating <==> AllRepeat(previous.vector[..previousLen], previous.isNull[..previousLen]))
    {
      ghost var p0 := Position();
      CurrentBits();
      ghost var flags := previous.isNull[..previousLen];
      ghost var rest := previous.vector[previousLen..];
      previous.isRepeating := true;
      assert flags[..0] == [] && previous.vector[..0] == [];
      assert Progress(previous, previousLen, flags, rest, p0, 0);
      var i := 0;
      while i < previousLen
        invariant 0 <= i <= previousLen
        invariant previous.vector == old(previous.vector) && previous.isNull == old(previous.isNull)
        invariant previous.noNulls == old(previous.noNulls)
        invariant lastRunValue == old(lastRunValue) && lastRunLength == old(lastRunLength)
        invariant Progress(previous, previousLen, flags, rest, p0, i)
      {
        var ok := NextRow(previous, previousLen, i, flags, rest, p0);
        if !ok {
          return Failed(EndOfStream);
        }
        i := i + 1;
      }
      ProgressComplete(previous, previousLen, flags, rest, p0);
      o := Done;
    }

    /** After the last row, the state of NextVector is what its postcondition states. */
    lemma ProgressComplete(previous: LongColumnVector, len: int, flags: seq<bool>, rest: seq<int>, p0: int)
      requires Progress(previous, len, flags, rest, p0, len)
      ensures Valid() && flags == previous.isNull[..len]
      ensures Position() == p0 + RowBits(bitSize, flags) <= |Stream()|
      ensures RowsRead(Stream(), bitSize, flags, p0, previous.vector[..len])
      ensures previous.vector[len..] == rest
      ensures previous.isRepeating <==> AllRepeat(previous.vector[..len], flags)
    {
      assert flags[..len] == flags;
    }

    /** The state of NextVector after its first i rows. */
    ghost predicate Progress(previous: LongColumnVector, len: int, flags: seq<bool>, rest: seq<int>, p0: int, i: int)
      reads this, input, previous, previous.vector, previous.isNull
    {
      && 0 <= i <= len <= previous.vector.Length && len <= previous.isNull.Length
      && Valid() && flags == previous.isNull[..len] && 0 <= p0
      && Position() == p0 + RowBits(bitSize, flags[..i]) <= |Stream()|
      && RowsRead(Stream(), bitSize, flags, p0, previous.vector[..i])
      && previous.vector[len..] == rest
      && (previous.isRepeating <==> AllRepeat(previous.vector[..i], flags))
    }

    /** One round of NextVector's loop: row i is read, and the repeating flag cleared when it differs from row i - 1. */
    method NextRow(previous: LongColumnVector, len: int, i: int, ghost flags: seq<bool>, ghost rest: seq<int>, ghost p0: int)
      returns (ok: bool)
      requires Progress(previous, len, flags, rest, p0, i) && i < len
      modifies this, input, previous, previous.vector
      ensures previous.vector == old(previous.vector) && previous.isNull == old(previous.isNull)
      ensures previous.noNulls == old(previous.noNulls)
      ensures lastRunValue == old(lastRunValue) && lastRunLength == old(lastRunLength)
      ensures ok ==> Progress(previous, len, flags, rest, p0, i + 1)
      ensures !ok ==> p0 + RowBits(bitSize, flags) > |Stream()|
    {
      ghost var before := previous.vector[..];
      var value;
      ok, value := ReadRow(previous.vector, previous.isNull, i, flags, p0);
      if !ok {
        return;
      }
      assert previous.vector[..i + 1] == before[..i] + [value];
      assert previous.vector[len..] == before[len..];
      RowsReadSnoc(Stream(), bitSize, flags, p0, before[..i], value);
      AllRepeatSnoc(before[..i], flags, value);
      if previous.isRepeating && i > 0
         && (previous.vector[i - 1] != previous.vector[i] || previous.isNull[i - 1] != previous.isNull[i]) {
        previous.isRepeating := false;
      }
    }

    /** One row of NextVector: the null value for a null row, else the next field. */
    method ReadRow(vector: array<int>, isNull: array<bool>, i: int, ghost flags: seq<bool>, ghost p0: int)
      returns (ok: bool, value: int)
      requires Valid() && 0 <= i < |flags| <= vector.Length && |flags| <= isNull.Length && flags == isNull[..|flags|]
      requires 0 <= p0 && Position() == p0 + RowBits(bitSize, flags[..i])
      modifies this, input, vector
      ensures lastRunValue == old(lastRunValue) && lastRunLength == old(lastRunLength)
      ensures ok ==> vector[..] == old(vector[..])[i := value] && RowOk(Stream(), bitSize, flags, p0, i, value)
      ensures ok ==> Valid() && Position() == p0 + RowBits(bitSize, flags[..i + 1]) <= |Stream()|
      ensures !ok ==> p0 + RowBits(bitSize, flags) > |Stream()|
    {
      ok, value := ReadField(isNull[i], flags, i, p0);
      if ok {
        vector[i] := value;
      }
    }

    /** The value of row i: the null value for a null row, else the next field. */
    method ReadField(isNullRow: bool, ghost flags: seq<bool>, i: int, ghost p0: int) returns (ok: bool, value: int)
      requires Valid() && 0 <= i < |flags| && isNullRow == flags[i]
      requires 0 <= p0 && Position() == p0 + RowBits(bitSize, flags[..i])
      modifies this, input
      ensures lastRunValue == old(lastRunValue) && lastRunLength == old(lastRunLength)
      ensures ok ==> RowOk(Stream(), bitSize, flags, p0, i, value)
      ensures ok ==> Valid() && Position() == p0 + RowBits(bitSize, flags[..i + 1]) <= |Stream()|
      ensures !ok ==> p0 + RowBits(bitSize, flags) > |Stream()|
    {
      RowBitsSnoc(bitSize, flags, i);
      PositionInStream();
      if !isNullRow {
        var r := Next();
        if r.Fail? {
          RowBitsPrefix(bitSize, flags, i, |flags|);
          assert flags[..|flags|] == flags;
          return false, 0;
        }
        value := r.value;
      } else {
        value := NULL_VALUE;
      }
      ok := true;
      PositionInStream();
    }
  }
}
