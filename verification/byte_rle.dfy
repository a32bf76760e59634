/**
 * The byte run-length codec: the wire format of control-byte-prefixed groups, its decoder,
 * and the writer that buffers bytes and decides between literal and repeat groups.
 *
 * A control byte read as a signed 8-bit value c means: c in 0..127, the next byte repeated
 * c + 3 times; c in -128..-1, the next -c bytes verbatim.
 */
module ByteRle {
  import opened Bits
  import opened Wrappers

  const MIN_REPEAT_SIZE: int := 3
  const MAX_LITERAL_SIZE: int := 128
  const MAX_REPEAT_SIZE: int := 127 + MIN_REPEAT_SIZE

  /** The `(byte)` cast of an int: its value modulo 256. */
  function ToByte(x: int): (b: byte)
    ensures 0 <= x < 256 ==> b as int == x
    ensures -128 <= x < 0 ==> b as int == x + 256
  {
    x % 256
  }

  /** A byte read as a signed 8-bit value. */
  function Signed(c: byte): (r: int)
    ensures -128 <= r <= 127
    ensures ToByte(r) == c
  {
    if c < 128 then c else c - 256
  }

  function Repeat(b: byte, n: nat): (r: seq<byte>)
    ensures |r| == n
    ensures forall i :: 0 <= i < n ==> r[i] == b
  {
    seq(n, _ => b)
  }

  /** The length of the group a control byte starts: the control byte and its payload. */
  function GroupLength(control: byte): (k: nat)
    ensures k >= 2
  {
    var c := Signed(control);
    if c >= 0 then 2 else 1 - c
  }

  /** The bytes one whole group stands for. */
  function Expand(group: seq<byte>): seq<byte>
    requires |group| >= 1 && |group| == GroupLength(group[0])
  {
    var c := Signed(group[0]);
    if c >= 0 then Repeat(group[1], c + MIN_REPEAT_SIZE) else group[1..]
  }

  /**
   * Decodes a whole stream of groups. None stands for the end-of-stream error of a group
   * whose payload is cut short.
   */
  function Decode(s: seq<byte>): Option<seq<byte>>
    decreases |s|
  {
    if s == [] then Some([])
    else
      var k := GroupLength(s[0]);
      if |s| < k then None
      else
        var rest := Decode(s[k..]);
        if rest.None? then None else Some(Expand(s[..k]) + rest.value)
  }

  /** The group the writer emits for a run of n copies of b. */
  function RepeatGroup(b: byte, n: int): (g: seq<byte>)
    requires MIN_REPEAT_SIZE <= n <= MAX_REPEAT_SIZE
    ensures |g| == 2 && g[1] == b
    ensures 0 <= Signed(g[0]) <= 127 && Signed(g[0]) + MIN_REPEAT_SIZE == n
  {
    [ToByte(n - MIN_REPEAT_SIZE), b]
  }

  /** The group the writer emits for a literal run. */
  function LiteralGroup(lits: seq<byte>): (g: seq<byte>)
    requires 1 <= |lits| <= MAX_LITERAL_SIZE
    ensures |g| == |lits| + 1 && g[1..] == lits
    ensures -128 <= Signed(g[0]) <= -1 && Signed(g[0]) == -|lits|
  {
    [ToByte(-|lits|)] + lits
  }

  lemma RepeatGroupDecodes(b: byte, n: int)
    requires MIN_REPEAT_SIZE <= n <= MAX_REPEAT_SIZE
    ensures Decode(RepeatGroup(b, n)) == Some(Repeat(b, n))
  {
    var g := RepeatGroup(b, n);
    assert g[2..] == [] && g[..2] == g;
    assert Repeat(b, n) + [] == Repeat(b, n);
  }

  lemma LiteralGroupDecodes(lits: seq<byte>)
    requires 1 <= |lits| <= MAX_LITERAL_SIZE
    ensures Decode(LiteralGroup(lits)) == Some(lits)
  {
    var g := LiteralGroup(lits);
    assert g[1 + |lits|..] == [] && g[..1 + |lits|] == g;
    assert lits + [] == lits;
  }

  lemma ConcatAssoc(x: seq<byte>, y: seq<byte>, z: seq<byte>)
    ensures x + (y + z) == (x + y) + z
  {
  }

  /** Decoding is compositional: a stream of whole groups followed by another decodes to the concatenation. */
  lemma {:induction false} DecodeAppend(a: seq<byte>, b: seq<byte>)
    requires Decode(a).Some? && Decode(b).Some?
    ensures Decode(a + b) == Some(Decode(a).value + Decode(b).value)
    decreases |a|
  {
    if a == [] {
      assert a + b == b;
      assert Decode(a).value + Decode(b).value == Decode(b).value;
    } else {
      var k := GroupLength(a[0]);
      var ab := a + b;
      assert ab[0] == a[0] && ab[..k] == a[..k] && ab[k..] == a[k..] + b;
      DecodeAppend(a[k..], b);
      calc {
        Decode(ab);
        Some(Expand(a[..k]) + Decode(a[k..] + b).value);
        Some(Expand(a[..k]) + (Decode(a[k..]).value + Decode(b).value));
        { ConcatAssoc(Expand(a[..k]), Decode(a[k..]).value, Decode(b).value); }
        Some((Expand(a[..k]) + Decode(a[k..]).value) + Decode(b).value);
        Some(Decode(a).value + Decode(b).value);
      }
    }
  }

  lemma AppendOne(x: seq<byte>, y: seq<byte>, b: byte)
    ensures x + (y + [b]) == (x + y) + [b]
  {
  }

  lemma RunAfterLiterals(flushed: seq<byte>, kept: seq<byte>, b: byte)
    ensures flushed + kept + [b, b, b] == flushed + (kept + [b, b]) + [b]
  {
  }

  /** The writer side of the codec over an output sink holding the bytes emitted so far. */
  class RunLengthByteWriter {
    /** The bytes handed to the output stream. */
    var output: seq<byte>
    const literals: array<byte>
    var numLiterals: int
    var repeat: bool
    var tailRunLength: int
    /** Every byte passed to Write, in order. */
    ghost var written: seq<byte>

    /** The counters are within the buffer's bounds (also in the middle of Write). */
    ghost predicate Buffered()
      reads this
    {
      && literals.Length == MAX_LITERAL_SIZE
      && 0 <= numLiterals
      && (repeat ==> MIN_REPEAT_SIZE <= numLiterals <= MAX_REPEAT_SIZE)
      && (!repeat ==> numLiterals <= MAX_LITERAL_SIZE)
    }

    /** The bytes buffered but not yet emitted. */
    ghost function Pending(): (p: seq<byte>)
      reads this, literals
      requires Buffered()
    {
      if repeat then Repeat(literals[0], numLiterals) else literals[..numLiterals]
    }

    /** The group WriteValues emits for the buffered bytes. */
    ghost function PendingGroup(): seq<byte>
      reads this, literals
      requires Buffered() && numLiterals > 0
    {
      if repeat then RepeatGroup(literals[0], numLiterals) else LiteralGroup(literals[..numLiterals])
    }

    /** The bytes the emitted groups decode to. */
    ghost function Flushed(): seq<byte>
      reads this
      requires Decode(output).Some?
    {
      Decode(output).value
    }

    ghost predicate Valid()
      reads this, literals
    {
      && Buffered()
      // a full buffer or a maximal run never survives a call
      && (repeat ==> numLiterals < MAX_REPEAT_SIZE)
      && (!repeat ==> numLiterals < MAX_LITERAL_SIZE)
      // the last tailRunLength literals are equal
      && (!repeat && numLiterals > 0 ==>
            && 1 <= tailRunLength < MIN_REPEAT_SIZE
            && tailRunLength <= numLiterals
            && forall i :: numLiterals - tailRunLength <= i < numLiterals ==> literals[i] == literals[numLiterals - 1])
      && Emitted()
    }

    /** What was written is what the emitted groups decode to, followed by what is buffered. */
    ghost predicate Emitted()
      reads this, literals
      requires Buffered()
    {
      Decode(output).Some? && Flushed() + Pending() == written
    }

    constructor ()
      ensures Valid() && fresh(literals)
      ensures output == [] && written == [] && numLiterals == 0
    {
      output := [];
      literals := new byte[MAX_LITERAL_SIZE];
      numLiterals := 0;
      repeat := false;
      tailRunLength := 0;
      written := [];
    }

    /** Emits the buffered bytes as one group, if there are any, and empties the buffer. */
    method WriteValues()
      requires Buffered()
      modifies this
      ensures Buffered()
      ensures old(numLiterals) != 0 ==>
        output == old(output) + old(PendingGroup()) && numLiterals == 0 && !repeat && tailRunLength == 0
      ensures old(numLiterals) == 0 ==>
        output == old(output) && numLiterals == 0 && repeat == old(repeat) && tailRunLength == old(tailRunLength)
      ensures written == old(written)
    {
      if numLiterals != 0 {
        if repeat {
          output := output + [ToByte(numLiterals - MIN_REPEAT_SIZE)];
          output := output + literals[0..1];
        } else {
          output := output + [ToByte(-numLiterals)];
          output := output + literals[0..numLiterals];
        }
        repeat := false;
        tailRunLength := 0;
        numLiterals := 0;
      }
    }

    /** Emitting the pending group keeps the emitted stream decodable and moves the pending bytes into it. */
    lemma EmitPending(out: seq<byte>)
      requires Buffered() && numLiterals > 0 && Decode(out).Some?
      ensures Decode(out + PendingGroup()) == Some(Decode(out).value + Pending())
    {
      if repeat {
        RepeatGroupDecodes(literals[0], numLiterals);
      } else {
        LiteralGroupDecodes(literals[..numLiterals]);
      }
      DecodeAppend(out, PendingGroup());
    }

    method Flush()
      requires Valid()
      modifies this
      ensures Valid() && written == old(written)
      ensures Decode(output) == Some(written)
      ensures numLiterals == 0
      ensures old(numLiterals) != 0 ==> output == old(output) + old(PendingGroup())
      ensures old(numLiterals) == 0 ==> output == old(output)
    {
      ghost var pending := Pending();
      if numLiterals != 0 {
        ghost var group := PendingGroup();
        EmitPending(output);
        assert Decode(output + group) == Some(Flushed() + pending);
        WriteValues();
        assert output == old(output) + group;
      } else {
        WriteValues();
      }
      assert Pending() == [];
      assert Flushed() == old(Flushed()) + pending;
      assert Flushed() + Pending() == written;
    }

    method Write(value: byte)
      requires Valid()
      modifies this, literals
      ensures Valid()
      ensures written == old(written) + [value]
      // the first byte of a group starts a literal buffer
      ensures old(numLiterals) == 0 ==>
        && output == old(output) && !repeat && numLiterals == 1 && literals[0] == value && tailRunLength == 1
      // in repeat mode, a matching byte extends the run; a run of MAX_REPEAT_SIZE is emitted at once
      ensures old(repeat) && value == old(literals[0]) ==>
        if old(numLiterals) + 1 == MAX_REPEAT_SIZE then
          output == old(output) + RepeatGroup(value, MAX_REPEAT_SIZE) && numLiterals == 0
        else
          output == old(output) && repeat && numLiterals == old(numLiterals) + 1 && literals[0] == value
      // in repeat mode, a different byte emits the run and starts a literal buffer with that byte
      ensures old(repeat) && value != old(literals[0]) ==>
        && output == old(output) + RepeatGroup(old(literals[0]), old(numLiterals))
        && !repeat && numLiterals == 1 && literals[0] == value && tailRunLength == 1
      // a third consecutive equal byte in literal mode switches to repeat mode with a run of 3
      ensures old(!repeat && numLiterals > 0 && tailRunLength == MIN_REPEAT_SIZE - 1 && value == literals[numLiterals - 1]) ==>
        && repeat && numLiterals == MIN_REPEAT_SIZE && literals[0] == value
        && output == old(output) + (if old(numLiterals) == MIN_REPEAT_SIZE - 1 then []
                                    else LiteralGroup(old(literals[..numLiterals - (MIN_REPEAT_SIZE - 1)])))
      // otherwise the byte is appended to the literals; a full buffer is emitted at once
      ensures old(!repeat && numLiterals > 0) && !old(tailRunLength == MIN_REPEAT_SIZE - 1 && value == literals[numLiterals - 1]) ==>
        if old(numLiterals) + 1 == MAX_LITERAL_SIZE then
          output == old(output) + LiteralGroup(old(literals[..numLiterals]) + [value]) && numLiterals == 0
        else
          output == old(output) && !repeat && numLiterals == old(numLiterals) + 1
          && literals[..numLiterals] == old(literals[..numLiterals]) + [value]
          && tailRunLength == (if value == old(literals[numLiterals - 1]) then old(tailRunLength) + 1 else 1)
    {
      if numLiterals == 0 {
        literals[numLiterals] := value;
        numLiterals := numLiterals + 1;
        tailRunLength := 1;
        written := written + [value];
        assert Pending() == [value];
      } else if repeat {
        WriteRepeating(value);
      } else {
        WriteLiteral(value);
      }
    }

    /** The arm of Write taken while a run is buffered. */
    method WriteRepeating(value: byte)
      requires Valid() && repeat
      modifies this, literals
      ensures Valid()
      ensures written == old(written) + [value]
      ensures value == old(literals[0]) ==>
        if old(numLiterals) + 1 == MAX_REPEAT_SIZE then
          output == old(output) + RepeatGroup(value, MAX_REPEAT_SIZE) && numLiterals == 0
        else
          output == old(output) && repeat && numLiterals == old(numLiterals) + 1 && literals[0] == value
      ensures value != old(literals[0]) ==>
        && output == old(output) + RepeatGroup(old(literals[0]), old(numLiterals))
        && !repeat && numLiterals == 1 && literals[0] == value && tailRunLength == 1
    {
      ghost var flushed, before := Flushed(), Pending();
      assert written == flushed + before;
      if value == literals[0] {
        numLiterals := numLiterals + 1;
        assert Pending() == before + [value];
        AppendOne(flushed, before, value);
        if numLiterals == MAX_REPEAT_SIZE {
          EmitPending(output);
          WriteValues();
          assert Flushed() == flushed + (before + [value]);
        }
      } else {
        EmitPending(output);
        WriteValues();
        assert Flushed() == flushed + before;
        literals[numLiterals] := value;
        numLiterals := numLiterals + 1;
        tailRunLength := 1;
        assert Pending() == [value];
      }
      written := written + [value];
    }

    /** The arm of Write taken while literals are buffered. */
    method WriteLiteral(value: byte)
      requires Valid() && !repeat && numLiterals > 0
      modifies this, literals
      ensures Valid()
      ensures written == old(written) + [value]
      ensures old(tailRunLength == MIN_REPEAT_SIZE - 1 && value == literals[numLiterals - 1]) ==>
        && repeat && numLiterals == MIN_REPEAT_SIZE && literals[0] == value
        && output == old(output) + (if old(numLiterals) == MIN_REPEAT_SIZE - 1 then []
                                    else LiteralGroup(old(literals[..numLiterals - (MIN_REPEAT_SIZE - 1)])))
      ensures !old(tailRunLength == MIN_REPEAT_SIZE - 1 && value == literals[numLiterals - 1]) ==>
        if old(numLiterals) + 1 == MAX_LITERAL_SIZE then
          output == old(output) + LiteralGroup(old(literals[..numLiterals]) + [value]) && numLiterals == 0
        else
          output == old(output) && !repeat && numLiterals == old(numLiterals) + 1
          && literals[..numLiterals] == old(literals[..numLiterals]) + [value]
          && tailRunLength == (if value == old(literals[numLiterals - 1]) then old(tailRunLength) + 1 else 1)
    {
      if value == literals[numLiterals - 1] {
        tailRunLength := tailRunLength + 1;
      } else {
        tailRunLength := 1;
      }
      if tailRunLength == MIN_REPEAT_SIZE {
        StartRun(value);
      } else {
        AppendLiteral(value);
      }
    }

    /** A third equal byte turns the two equal literals before it into a run of three. */
    method StartRun(value: byte)
      requires Buffered() && Emitted() && !repeat
      requires MIN_REPEAT_SIZE - 1 <= numLiterals < MAX_LITERAL_SIZE && tailRunLength == MIN_REPEAT_SIZE
      requires literals[numLiterals - 2] == value && literals[numLiterals - 1] == value
      modifies this, literals
      ensures Valid()
      ensures written == old(written) + [value]
      ensures repeat && numLiterals == MIN_REPEAT_SIZE && literals[0] == value
      ensures output == old(output) + (if old(numLiterals) == MIN_REPEAT_SIZE - 1 then []
                                       else LiteralGroup(old(literals[..numLiterals - (MIN_REPEAT_SIZE - 1)])))
    {
      if numLiterals + 1 == MIN_REPEAT_SIZE {
        repeat := true;
        numLiterals := numLiterals + 1;
        assert Pending() == old(Pending()) + [value];
        written := written + [value];
      } else {
        EmitThenRun(value);
      }
    }

    /** StartRun when literals precede the two equal ones: those are emitted first. */
    method EmitThenRun(value: byte)
      requires Buffered() && Emitted() && !repeat
      requires MIN_REPEAT_SIZE - 1 < numLiterals < MAX_LITERAL_SIZE
      requires literals[numLiterals - 2] == value && literals[numLiterals - 1] == value
      modifies this, literals
      ensures Valid()
      ensures written == old(written) + [value]
      ensures repeat && numLiterals == MIN_REPEAT_SIZE && literals[0] == value
      ensures output == old(output) + LiteralGroup(old(literals[..numLiterals - (MIN_REPEAT_SIZE - 1)]))
    {
      ghost var flushed, before := Flushed(), literals[..numLiterals];
      assert written == flushed + before;
      numLiterals := numLiterals - (MIN_REPEAT_SIZE - 1);
      ghost var kept := literals[..numLiterals];
      assert before == kept + [value, value];
      EmitLiterals();
      BeginRepeat(value);
      written := written + [value];
      RunAfterLiterals(flushed, kept, value);
    }

    /** Emits the buffered literals as one group. */
    method EmitLiterals()
      requires Buffered() && !repeat && numLiterals > 0 && Decode(output).Some?
      modifies this
      ensures Buffered() && numLiterals == 0 && !repeat
      ensures output == old(output) + LiteralGroup(old(literals[..numLiterals]))
      ensures Decode(output) == Some(old(Flushed()) + old(literals[..numLiterals]))
      ensures written == old(written)
    {
      EmitPending(output);
      WriteValues();
    }

    /** Refills the empty buffer with a run of three copies of value. */
    method BeginRepeat(value: byte)
      requires Buffered() && numLiterals == 0
      modifies this, literals
      ensures Buffered() && repeat && numLiterals == MIN_REPEAT_SIZE && literals[0] == value
      ensures Pending() == [value, value, value]
      ensures output == old(output) && written == old(written) && tailRunLength == old(tailRunLength)
    {
      literals[0] := value;
      repeat := true;
      numLiterals := MIN_REPEAT_SIZE;
      assert Pending() == [value, value, value];
    }

    /** Any other byte in literal mode is appended; a full buffer is emitted at once. */
    method AppendLiteral(value: byte)
      requires Buffered() && Emitted() && !repeat && 0 < numLiterals < MAX_LITERAL_SIZE
      requires tailRunLength == 1 || (tailRunLength == 2 && literals[numLiterals - 1] == value)
      modifies this, literals
      ensures Valid()
      ensures written == old(written) + [value]
      ensures if old(numLiterals) + 1 == MAX_LITERAL_SIZE then
          output == old(output) + LiteralGroup(old(literals[..numLiterals]) + [value]) && numLiterals == 0
        else
          output == old(output) && !repeat && numLiterals == old(numLiterals) + 1
          && literals[..numLiterals] == old(literals[..numLiterals]) + [value]
          && tailRunLength == old(tailRunLength)
    {
      ghost var flushed, before := Flushed(), literals[..numLiterals];
      assert written == flushed + before;
      literals[numLiterals] := value;
      numLiterals := numLiterals + 1;
      assert literals[..numLiterals] == before + [value];
      AppendOne(flushed, before, value);
      if numLiterals == MAX_LITERAL_SIZE {
        EmitPending(output);
        WriteValues();
        assert Flushed() == flushed + (before + [value]);
      }
      written := written + [value];
    }

    /**
     * Records a checkpoint: the output stream's own entries, then the number of bytes
     * written but not yet emitted, so that a reader can resume inside the pending group.
     */
    method GetPosition(recorded: seq<int>, streamEntries: seq<int>) returns (positions: seq<int>)
      requires Valid()
      ensures positions == recorded + streamEntries + [|written| - |Flushed()|]
    {
      positions := recorded + streamEntries + [numLiterals];
    }
  }

  /** Five equal bytes become one run group: control 2 (a run of 2 + 3), then the byte. */
  method EncodeRunExample()
  {
    var w := new RunLengthByteWriter();
    w.Write(5);
    w.Write(5);
    assert w.numLiterals == 2 && w.tailRunLength == 2 && !w.repeat;
    w.Write(5);
    assert w.repeat && w.numLiterals == 3 && w.output == [];
    w.Write(5);
    w.Write(5);
    assert w.repeat && w.numLiterals == 5 && w.literals[0] == 5 && w.output == [];
    w.Flush();
    assert w.output == [2, 5];
    assert w.written == [5, 5, 5, 5, 5];
  }

  /** Three distinct bytes become one literal group: control -3, then the bytes. */
  method EncodeLiteralExample()
  {
    var v := new RunLengthByteWriter();
    v.Write(1);
    v.Write(2);
    assert v.literals[..v.numLiterals] == [1, 2];
    v.Write(3);
    assert v.literals[..v.numLiterals] == [1, 2, 3] && !v.repeat && v.output == [];
    v.Flush();
    assert v.output == [ToByte(-3), 1, 2, 3];
    assert Signed(v.output[0]) == -3;
  }
}
