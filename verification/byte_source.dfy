/**
 * The decoded byte source the bit-field reader draws from. Its own decoding is not part of
 * this model: it is a fixed sequence of bytes with a read position.
 */
module ByteSource {
  import opened Bits
  import opened Wrappers

  class ByteCursor {
    /** Every byte the source will deliver, in order. */
    const bytes: seq<byte>
    /** The number of bytes delivered so far. */
    var pos: nat

    ghost predicate Valid()
      reads this
    {
      pos <= |bytes|
    }

    constructor (bytes: seq<byte>)
      ensures Valid() && this.bytes == bytes && pos == 0
    {
      this.bytes := bytes;
      pos := 0;
    }

    method HasNext() returns (r: bool)
      requires Valid()
      ensures r <==> pos < |bytes|
    {
      r := pos < |bytes|;
    }

    /** Delivers the next byte, or fails at the end of the source. */
    method Next() returns (r: Result<byte>)
      requires Valid()
      modifies this
      ensures Valid()
      ensures old(pos) < |bytes| ==> r == Ok(bytes[old(pos)]) && pos == old(pos) + 1
      ensures old(pos) == |bytes| ==> r == Fail(EndOfStream) && pos == old(pos)
    {
      if pos < |bytes| {
        r := Ok(bytes[pos]);
        pos := pos + 1;
      } else {
        r := Fail(EndOfStream);
      }
    }

    /** Passes over n bytes; running off the end fails and leaves the source exhausted. */
    method Skip(n: nat) returns (o: Outcome)
      requires Valid()
      modifies this
      ensures Valid()
      ensures old(pos) + n <= |bytes| ==> o == Done && pos == old(pos) + n
      ensures old(pos) + n > |bytes| ==> o == Failed(EndOfStream) && pos == |bytes|
    {
      if pos + n <= |bytes| {
        pos := pos + n;
        o := Done;
      } else {
        pos := |bytes|;
        o := Failed(EndOfStream);
      }
    }

    /** Repositions the source at a recorded byte offset. */
    method Seek(p: nat)
      requires p <= |bytes|
      modifies this
      ensures Valid() && pos == p
    {
      pos := p;
    }
  }
}
