# OrcSharp bit fields, byte runs, integer batches and decimals — a Dafny model

This project models four pieces of the C# port of the ORC columnar file format.

- **The bit-field reader** (`BitFieldReader`) reads fields of `bitSize` bits from a byte source.
  - The byte source is the decoded output of a byte run-length reader.
  - The reader caches one byte (`current`), of which the low `bitsLeft` bits are still unread.
  - It reads fields most significant bit first, skips fields, seeks to a recorded position, and peeks at bits.
  - For single-bit fields it looks ahead for runs of equal bits (`readNextRun`).
  - It fills an integer column batch from the stream (`nextVector`).
- **The byte run-length writer** (`RunLengthByteWriter`) buffers bytes.
  - It emits them as groups: a signed control byte `c` followed by a payload.
  - For `c` in 0..127 the next byte stands for `c + 3` copies of itself.
  - For `c` in -128..-1 the next `-c` bytes are literal.
- **The integer column batch** (`LongColumnVector`) holds a value array and a null-flag array.
  - It has two flags: `noNulls` (the null flags can be ignored) and `isRepeating` (slot 0 stands for every row).
  - Its operations are copy, fill, flatten, set-element and grow.
- **The decimal value** (`HiveDecimal`) is an unbounded mantissa with a scale.
  - It supports parsing, text, addition, comparison, equality, rescaling and truncation to a 64-bit integer.

Modules:

- `Bits` (bits.dfy) defines the bit sequences everything is stated against.
  - A byte contributes its 8 bits most significant first (`BytesBits`).
  - `LowBits(v, k)` is the low `k` bits of `v`, and `BitsValue` reads a bit sequence as a big-endian number.
  - `x << k | y` with `y < 2^k` is `x * 2^k + y`, and `v & (2^k - 1)` is `v % 2^k`.
- `ByteRle` (byte_rle.dfy) holds the group format, a whole-stream decoder `Decode` and the writer class.
  - The writer's output stream is a `seq<byte>` of the bytes handed to it.
  - A ghost field `written` records every byte passed to `Write`.
  - The writer's invariant is that the emitted groups decode to `written` minus the bytes still buffered.
- `ByteSource` (byte_source.dfy) stands for the decoded byte reader the bit-field reader owns.
  - It is a fixed byte sequence with a read position.
  - How that reader decodes its own input is not part of this model.
- `BitField` (bit_field_reader.dfy) is the reader class.
  - Every operation is specified against `Stream()`, the bits of all bytes the source will deliver, and `Position()`, the number of bits consumed.
- `ColumnVectors` (long_column_vector.dfy) is the batch class over two arrays.
- `Decimal` (hive_decimal.dfy) is the decimal as a datatype. It comes with `Value`, the real number it stands for, and a text model (`Parse`, `ToString`).

Error paths are results:

- End of stream is `Failed(EndOfStream)` / `Fail(EndOfStream)`.
- An over-large seek offset is `InvalidArgument`.
- Malformed decimal text is `Format`.
- A decimal outside the 64-bit range on conversion is `Overflow`, where the C# code throws.

## Model

| member | source | states |
|---|---|---|
| Bits.BitsValueAppend | OrcSharp/BitFieldReader.cs:67-68 | shifting the value read so far left by the count of new bits and or-ing them in is reading the concatenated bits |
| Bits.BitsValueOfLowBits | OrcSharp/BitFieldReader.cs:68 | masking with 2^k - 1 keeps exactly the value of the low k bits |
| Bits.LowBitsSplit | OrcSharp/BitFieldReader.cs:76 | the low k bits of v are the low k - j bits of v >> j followed by the low j bits of v (the unsigned shift of the last step of next) |
| Bits.LeadingRun | OrcSharp/BitFieldReader.cs:121 | numberOfLeadingZeros counts a run of clear bits in the low k bits that, for a non-zero value, ends in a set bit |
| Bits.LeadingZeros32 | OrcSharp/BitFieldReader.cs:121 | the 32-bit leading-zero count is between 0 and 32 |
| ByteRle.Signed | OrcSharp/RunLengthByteWriter.cs:20-24 | a control byte read as a signed 8-bit value lies in -128..127 and converts back to the same byte |
| ByteRle.ToByte | OrcSharp/RunLengthByteWriter.cs:47-52 | the `(byte)` cast keeps a value in 0..255 and adds 256 to a value in -128..-1 |
| ByteRle.RepeatGroup | OrcSharp/RunLengthByteWriter.cs:45-49 | a run of n copies (3..130) is written as control n - 3 (0..127) and the byte |
| ByteRle.LiteralGroup | OrcSharp/RunLengthByteWriter.cs:52-53 | n literals (1..128) are written as control -n and the bytes |
| ByteRle.RepeatGroupDecodes | OrcSharp/RunLengthByteWriter.cs:20-24 | a repeat group decodes to n copies of its byte |
| ByteRle.LiteralGroupDecodes | OrcSharp/RunLengthByteWriter.cs:20-24 | a literal group decodes to its literals |
| ByteRle.DecodeAppend | OrcSharp/RunLengthByteWriter.cs:20-24 | two streams of whole groups, concatenated, decode to the concatenation of what each decodes to |
| ByteRle.RunLengthByteWriter.constructor | OrcSharp/RunLengthByteWriter.cs:31-39 | a new writer has an empty buffer, nothing emitted and nothing written |
| ByteRle.RunLengthByteWriter.WriteValues | OrcSharp/RunLengthByteWriter.cs:41-59 | a non-empty buffer is emitted as its repeat or literal group and emptied; an empty buffer emits nothing |
| ByteRle.RunLengthByteWriter.EmitPending | OrcSharp/RunLengthByteWriter.cs:41-59 | appending the emitted group keeps the output decodable and adds the buffered bytes to what it decodes to |
| ByteRle.RunLengthByteWriter.Flush | OrcSharp/RunLengthByteWriter.cs:61-65 | after a flush the output decodes to exactly every byte ever written |
| ByteRle.RunLengthByteWriter.Write | OrcSharp/RunLengthByteWriter.cs:67-126 | each of the five cases of write (first byte, run extended or emitted at 130, run broken, third equal literal starts a run, literal appended or emitted at 128), with the invariant that output plus buffer decode to everything written |
| ByteRle.RunLengthByteWriter.WriteRepeating | OrcSharp/RunLengthByteWriter.cs:74-90 | the repeat-mode cases of write |
| ByteRle.RunLengthByteWriter.WriteLiteral | OrcSharp/RunLengthByteWriter.cs:91-125 | the literal-mode cases of write |
| ByteRle.RunLengthByteWriter.StartRun | OrcSharp/RunLengthByteWriter.cs:101-116 | a third equal byte makes a run of 3, emitting the literals before the two equal ones as a group |
| ByteRle.RunLengthByteWriter.EmitThenRun | OrcSharp/RunLengthByteWriter.cs:108-115 | the literals before the two equal ones are emitted, and the buffer restarts as a run of 3 |
| ByteRle.RunLengthByteWriter.EmitLiterals | OrcSharp/RunLengthByteWriter.cs:110-111 | emitting the shortened literal buffer adds its group, and its bytes to what the output decodes to |
| ByteRle.RunLengthByteWriter.BeginRepeat | OrcSharp/RunLengthByteWriter.cs:112-114 | the empty buffer becomes a run of three copies of the byte |
| ByteRle.RunLengthByteWriter.AppendLiteral | OrcSharp/RunLengthByteWriter.cs:117-124 | a literal is appended, and a buffer that reaches 128 is emitted at once |
| ByteRle.RunLengthByteWriter.GetPosition | OrcSharp/RunLengthByteWriter.cs:128-132 | the recorded position is the stream's own entries followed by the number of written bytes not yet emitted |
| ByteSource.ByteCursor.constructor | OrcSharp/BitFieldReader.cs:38 | the byte source starts at its first byte |
| ByteSource.ByteCursor.HasNext | OrcSharp/BitFieldReader.cs:50 | true exactly when a byte remains |
| ByteSource.ByteCursor.Next | OrcSharp/BitFieldReader.cs:52 | delivers the next byte and advances, or fails at the end |
| ByteSource.ByteCursor.Skip | OrcSharp/BitFieldReader.cs:212 | passes over n bytes, or fails when fewer remain |
| ByteSource.ByteCursor.Seek | OrcSharp/BitFieldReader.cs:184 | moves to the recorded byte offset |
| BitField.ReadAhead | OrcSharp/BitFieldReader.cs:74-76 | taking the top n of the unread bits of current ((current >>> (bitsLeft - n)) & (2^n - 1)) extends the value by the next n stream bits |
| BitField.FirstBit | OrcSharp/BitFieldReader.cs:236 | (current >>> (bitsLeft - 1)) & 1 is the first unread bit |
| BitField.ByteValue | OrcSharp/BitFieldReader.cs:247 | a byte read back from its 8 bits is the byte |
| BitField.MaskKeeps | OrcSharp/BitFieldReader.cs:78 | the final & mask leaves a value read from bitSize bits unchanged |
| BitField.LeadingMatch | OrcSharp/BitFieldReader.cs:146-147 | the leading-zero count of a byte, or of its complement, is a run of clear, or set, leading bits |
| BitField.LeadingOfByte | OrcSharp/BitFieldReader.cs:146-147 | extraBits lies in 0..8 and counts leading bits of current equal to the run value |
| BitField.RowBitsCount | OrcSharp/BitFieldReader.cs:157-169 | the bits a batch takes are bitSize times its non-null rows |
| BitField.AllRepeatSnoc | OrcSharp/BitFieldReader.cs:173-178 | a batch stays repeating when a row is added exactly when it agrees with the row before it in value and null flag |
| BitField.PartialBits | OrcSharp/BitFieldReader.cs:102-103 | current & partialBitsMask is below 2^bitsLeft |
| BitField.PartialRunFacts | OrcSharp/BitFieldReader.cs:120-124 | for unread bits holding both values, the two leading-zero counts measure the leading run: exactly one is positive and each stops before a differing bit |
| BitField.RunsOfMixed | OrcSharp/BitFieldReader.cs:120-124 | the same facts for a k-bit value that is neither 0 nor all ones |
| BitField.PartialRun | OrcSharp/BitFieldReader.cs:117-126 | (corrected) the reported run is positive, capped by maxRunLength, inside the unread bits, made of equal bits, and stops at a differing bit unless capped |
| BitField.PartialRunAsWrittenInverted | OrcSharp/BitFieldReader.cs:122 | the code's run length is right, and its value flag is always the inverse of the run's value |
| BitField.PartialRunAsWritten | OrcSharp/BitFieldReader.cs:117-126 | (as written) the code's run is at most the cap and lies inside the unread bits; PartialRunAsWrittenInverted relates it to the corrected run |
| BitField.PartialRunCounterexample | OrcSharp/BitFieldReader.cs:120-124 | with unread bits 0011 the code reports a run of set bits where the stream holds two clear bits |
| BitField.BitFieldReader.constructor | OrcSharp/BitFieldReader.cs:36-41 | a new reader is at bit 0 with mask 2^bitSize - 1 and no run recorded |
| BitField.BitFieldReader.ReadByte | OrcSharp/BitFieldReader.cs:48-59 | fetches the next byte with 8 unread bits, or fails at the end leaving the state as it was |
| BitField.BitFieldReader.Next | OrcSharp/BitFieldReader.cs:61-79 | returns the big-endian value of the next bitSize stream bits and advances by bitSize, or fails exactly when fewer bits remain; the value is within the mask |
| BitField.BitFieldReader.TakeRestOfByte | OrcSharp/BitFieldReader.cs:67-70 | one loop round of next: the unread bits of current are appended and the next byte fetched |
| BitField.BitFieldReader.TakeBits | OrcSharp/BitFieldReader.cs:72-77 | the last step of next appends the next n stream bits and consumes them |
| BitField.BitFieldReader.FinishField | OrcSharp/BitFieldReader.cs:72-78 | after the loop, the field ends bitSize bits after its start and its value is within the mask |
| BitField.BitFieldReader.Skip | OrcSharp/BitFieldReader.cs:202-216 | skipping items advances by bitSize * items bits, within current or through whole bytes plus a fetched byte, and fails when that byte does not exist |
| BitField.BitFieldReader.Seek | OrcSharp/BitFieldReader.cs:182-200 | the position becomes 8 * bytePos + consumed; consumed above 8 is rejected, zero fetches nothing, and otherwise the byte must exist |
| BitField.BitFieldReader.HasFullByte | OrcSharp/BitFieldReader.cs:224-227 | true exactly when the position is on a byte boundary |
| BitField.BitFieldReader.PeekOneBit | OrcSharp/BitFieldReader.cs:229-237 | returns the next stream bit without moving the position, or fails at the end |
| BitField.BitFieldReader.PeekFullByte | OrcSharp/BitFieldReader.cs:239-248 | on a byte boundary, returns the value of the next 8 stream bits without moving the position, or fails at the end |
| BitField.BitFieldReader.FullByte | OrcSharp/BitFieldReader.cs:247 | with a whole byte unread, current is the value of the next 8 stream bits |
| BitField.BitFieldReader.SkipInCurrentByte | OrcSharp/BitFieldReader.cs:250-254 | consumes bits of current, advancing the position by as many |
| BitField.BitFieldReader.ExtendRun | OrcSharp/BitFieldReader.cs:137-150 | matching unread bits of current extend a run that ends at the position |
| BitField.BitFieldReader.ReadNextRun | OrcSharp/BitFieldReader.cs:89-152 | (corrected at line 122, see Findings) does nothing while the last run is unused. Otherwise the reported run is lastRunLength bits of lastRunValue from the old position, either only reported or consumed. For a positive cap it is not empty, and it either reaches the cap or is followed by a stream bit of the other value. Inside a partial byte it is also at most the cap and is not consumed |
| BitField.BitFieldReader.PartialByteRun | OrcSharp/BitFieldReader.cs:100-129 | the partial-byte part of readNextRun: either a run reported inside current that stops at the cap or before a differing bit, or the uniform unread bits consumed and the next byte fetched with cap left over |
| BitField.BitFieldReader.UniformRun | OrcSharp/BitFieldReader.cs:104-116 | unread bits all of one value: the run is exactly maxRunLength bits inside them when the cap fits, and otherwise they are consumed as the start of the run |
| BitField.BitFieldReader.CappedRun | OrcSharp/BitFieldReader.cs:107-111 | a run of exactly maxRunLength bits inside current is reported, not consumed |
| BitField.BitFieldReader.RunToByteEnd | OrcSharp/BitFieldReader.cs:112-115 | all unread bits join the run and the next byte is fetched |
| BitField.BitFieldReader.MixedRun | OrcSharp/BitFieldReader.cs:117-126 | unread bits holding both values: the run is the corrected PartialRun, holds in the stream, and for a positive cap is not empty and stops at the cap or before a bit of the other value |
| BitField.BitFieldReader.ReadFullBytes | OrcSharp/BitFieldReader.cs:130-151 | whole bytes of the run value are consumed while 8 bits of the cap remain, then the matching leading bits of the next byte. The run holds in the stream, and for a positive cap it reaches the cap or is followed by a bit of the other value |
| BitField.BitFieldReader.EndRun | OrcSharp/BitFieldReader.cs:144-151 | the leading matching bits of current join the run when the cap allows, and the run length is recorded. When current is not a whole byte of the run value, or the cap is under 8, the run reaches the cap or stops before a bit of the other value |
| BitField.BitFieldReader.WholeByteRun | OrcSharp/BitFieldReader.cs:137-143 | a byte 0xff (0) extends a run of ones (zeros) by 8 bits |
| BitField.BitFieldReader.LeadingBitsRun | OrcSharp/BitFieldReader.cs:144-150 | the extraBits counted by the code extend the run |
| BitField.BitFieldReader.LeadingBitsStop | OrcSharp/BitFieldReader.cs:146-149 | when current is not all of the run value, the bit after the extraBits matching bits has the other value; none match when the first bit differs |
| BitField.BitFieldReader.NextVector | OrcSharp/BitFieldReader.cs:154-180 | each non-null row gets the next field and each null row the null value 1; the batch is repeating exactly when all neighbouring rows agree in value and null flag; it fails exactly when the stream runs out |
| BitField.BitFieldReader.ProgressComplete | OrcSharp/BitFieldReader.cs:154-180 | after the last row the loop state is the postcondition of nextVector |
| BitField.BitFieldReader.NextRow | OrcSharp/BitFieldReader.cs:157-179 | one row read, with the repeating flag cleared when it differs from the row before |
| BitField.BitFieldReader.ReadRow | OrcSharp/BitFieldReader.cs:159-168 | row i of the value array is set to its null value or field, and nothing else changes |
| BitField.BitFieldReader.ReadField | OrcSharp/BitFieldReader.cs:159-168 | the value of row i: the null value, or the field after the rows before it |
| ColumnVectors.LongColumnVector.constructor | OrcSharp/External/LongColumnVector.cs:53-56 | a batch of len rows, all zero, none null |
| ColumnVectors.LongColumnVector.Fill | OrcSharp/External/LongColumnVector.cs:166-171 | slot 0 holds the value, the batch is repeating without nulls, and every row reads as the value |
| ColumnVectors.LongColumnVector.FillWithNulls | OrcSharp/External/LongColumnVector.cs:174-180 | slot 0 is the null value and null, the batch is repeating with nulls, and every row reads as null |
| ColumnVectors.LongColumnVector.CopySelected | OrcSharp/External/LongColumnVector.cs:60-108 | a repeating batch copies slot 0; otherwise the selected values, and their null flags when there are nulls; every selected row reads the same in the copy |
| ColumnVectors.LongColumnVector.CopyValues | OrcSharp/External/LongColumnVector.cs:79-90 | exactly the selected slots of the target take the source values |
| ColumnVectors.LongColumnVector.CopyNulls | OrcSharp/External/LongColumnVector.cs:95-106 | exactly the selected slots of the target take the source null flags |
| ColumnVectors.LongColumnVector.Flatten | OrcSharp/External/LongColumnVector.cs:185-207 | a repeating value is spread over exactly the selected rows and the repeating flag cleared; selected rows keep the value they stood for |
| ColumnVectors.LongColumnVector.SetElement | OrcSharp/External/LongColumnVector.cs:209-226 | the target row takes the source row's value and a cleared null flag, or a set null flag; it then reads as the source row did |
| ColumnVectors.LongColumnVector.EnsureSize | OrcSharp/External/LongColumnVector.cs:244-263 | growing allocates size slots, keeping slot 0 or every old slot under preserveData, zero elsewhere; old rows keep their values |
| Decimal.ScaleValue | OrcSharp/Types/HiveDecimal.cs:136-139 | multiplying the mantissa by 10^k at scale + k keeps the value |
| Decimal.UpdateScale | OrcSharp/Types/HiveDecimal.cs:136-139 | the rescaled decimal has the new scale and the same value |
| Decimal.Normalize | OrcSharp/Types/HiveDecimal.cs:124-134 | both operands end at the larger scale with their values unchanged |
| Decimal.SameScaleSum | OrcSharp/Types/HiveDecimal.cs:83 | at a common scale, values add as mantissas do |
| Decimal.Add | OrcSharp/Types/HiveDecimal.cs:80-84 | the sum is at the larger scale and its value is the sum of the values |
| Decimal.SameScaleOrder | OrcSharp/Types/HiveDecimal.cs:90 | at a common scale, values compare as mantissas do |
| Decimal.Equals | OrcSharp/Types/HiveDecimal.cs:174-179 | true exactly when the values are equal, whatever the scales |
| Decimal.CompareTo | OrcSharp/Types/HiveDecimal.cs:86-91 | -1, 0 or 1 as the first value is below, equal to or above the second |
| Decimal.CompareAntisymmetric | OrcSharp/Types/HiveDecimal.cs:86-91 | comparison is antisymmetric; equality is reflexive and symmetric |
| Decimal.TrailingZerosEqual | OrcSharp/Types/HiveDecimal.cs:174-179 | 1.0 and 1.00 are equal but distinct representations |
| Decimal.TruncDivIsTruncate | OrcSharp/Types/HiveDecimal.cs:149 | big-integer division truncates the quotient toward zero |
| Decimal.TruncDiv | OrcSharp/Types/HiveDecimal.cs:149 | big-integer division of a by a positive b: the quotient times b lies between a and zero, less than b away from a |
| Decimal.LongValue | OrcSharp/Types/HiveDecimal.cs:141-155 | the value truncated toward zero when it fits in 64 bits, the overflow error exactly when it does not |
| Decimal.LongValueIsTruncate | OrcSharp/Types/HiveDecimal.cs:141-155 | each of the three branches computes the value truncated toward zero |
| Decimal.NatToString | OrcSharp/Types/HiveDecimal.cs:95 | the digits spell the number, with no sign, no point and no leading zero except for zero itself |
| Decimal.IntToString | OrcSharp/Types/HiveDecimal.cs:95 | the big integer's text is non-empty, has no point, and starts with a minus sign exactly when the number is negative |
| Decimal.ParseInteger | OrcSharp/Types/HiveDecimal.cs:77 | the text is accepted exactly when it is digits, or a sign and digits, with at least one digit; anything else is a format error. An accepted text is worth its digits, negated after a minus sign |
| Decimal.ParseIntToString | OrcSharp/Types/HiveDecimal.cs:77 | an integer's text parses back to the integer |
| Decimal.IndexOf | OrcSharp/Types/HiveDecimal.cs:69 | the first occurrence of the character, or -1 exactly when there is none |
| Decimal.Parse | OrcSharp/Types/HiveDecimal.cs:66-78 | errors are format errors, scales are non-negative, and text without a point parses as an integer at scale 0 |
| Decimal.ParsePointText | OrcSharp/Types/HiveDecimal.cs:66-78 | an optional minus, digits a, a point and digits b parse as the number spelt by a and b, at scale \|b\| |
| Decimal.ParseAtPoint | OrcSharp/Types/HiveDecimal.cs:69-75 | text whose first point follows pre parses as pre and the rest together, at the scale of the rest |
| Decimal.PadDigits | OrcSharp/Types/HiveDecimal.cs:99-103 | padding with leading zeros reaches the width and keeps the value |
| Decimal.PadDigitsWidth | OrcSharp/Types/HiveDecimal.cs:99-103 | the padded digits have exactly the wanted width, or are the digits unchanged when those are longer |
| Decimal.ParseToString | OrcSharp/Types/HiveDecimal.cs:93-111 | (corrected text) the text parses back to the same decimal for scale >= 0, and to an equal value for a negative scale |
| Decimal.PointText | OrcSharp/Types/HiveDecimal.cs:96-105 | the corrected text of a positive-scale decimal is the sign, the digits before the point, the point and exactly scale digits |
| Decimal.ToString | OrcSharp/Types/HiveDecimal.cs:93-111 | (corrected) the text starts with a minus sign exactly when the mantissa is negative. For a positive scale the point is scale characters from the right; otherwise there is no point |
| Decimal.ParseToStringZeros | OrcSharp/Types/HiveDecimal.cs:106-109 | a negative-scale text parses to an equal value at scale 0 |
| Decimal.ZerosTextParse | OrcSharp/Types/HiveDecimal.cs:108 | an integer's text followed by k zeros parses as the integer times 10^k |
| Decimal.PadLeft | OrcSharp/Types/HiveDecimal.cs:101 | the padded text has the total width (or the text's own length when that is longer) and is fill characters followed by the unchanged text |
| Decimal.ToStringAsWritten | OrcSharp/Types/HiveDecimal.cs:93-111 | (as written) for a scale of at most 0 the text is the corrected text |
| Decimal.AsWrittenAgrees | OrcSharp/Types/HiveDecimal.cs:93-111 | the text as written equals the corrected text exactly when the scale is at most 0 or the mantissa has at least scale digits |
| Decimal.PadWidthCounterexample | OrcSharp/Types/HiveDecimal.cs:98-104 | 5 at scale 3 prints as ".05", which parses as 5 at scale 2, an unequal value |
| Decimal.SignCounterexample | OrcSharp/Types/HiveDecimal.cs:95-104 | -5 at scale 2 prints as ".-5" instead of "-.05"; Parse, which drops the point wherever it is, still reads it back as -5 at scale 2 |
| Decimal.SignPadCounterexample | OrcSharp/Types/HiveDecimal.cs:95-104 | -5 at scale 5 prints as ".0-5", with a zero padded in front of the sign, and Parse rejects that text as a format error |

## Left out

- BitField.BitFieldReader.constructor: requires 1 <= bitSize <= 31. The code accepts any width, but C# masks shift counts to 5 bits, so `1 << 32` is 1 and the mask would be 0. The source states that non-test code uses 1.
- BitField.BitFieldReader.ReadNextRun: no upper cap is claimed on the whole-byte path. Once the cap is positive, the code adds every leading matching bit of the next byte (up to 8), even past maxRunLength. The model follows that count.
- BitField.BitFieldReader.ReadNextRun: the Debug.Assert calls (bitSize == 1, a full byte before the byte loop) become preconditions or proved facts.
- BitField.BitFieldReader.PeekOneBit: the Debug.Assert `bitSize == 1` (line 231) becomes a precondition.
- BitField.BitFieldReader.PeekFullByte: the Debug.Asserts `bitSize == 1` and `bitsLeft == 8 || bitsLeft == 0` (lines 241-242) become preconditions.
- BitField.BitFieldReader.SkipInCurrentByte: the Debug.Assert `bitsLeft >= bits` (line 252) becomes a precondition, and so does `bits >= 0`.
- The reader's other members: `setInStream` and `ToString` (a diagnostic string) are not modelled.
- The reader's byte source: `RunLengthByteReader` is not part of this model.
  - Its decoding is replaced by the already-decoded byte sequence `ByteSource.ByteCursor`.
  - A `PositionProvider` is replaced by a byte offset and a consumed-bit count.
  - `ByteSource.ByteCursor.Skip` fails when fewer than n bytes remain, standing for the source's end-of-stream exception.
- BitField.BitFieldReader.Skip: `bitSize * items` is computed without the 64-bit range of `long`.
- BitField.BitFieldReader.Skip: items is a natural number. For a negative `long items` the code would add to `bitsLeft`, and the model does not cover that.
- BitField.BitFieldReader.Seek: the consumed-bit count is a natural number and the byte offset must lie within the source. The code would accept a negative `(int)index.getNext()` and set `bitsLeft` above 8, and the model does not cover that.
- BitField.BitFieldReader.NextVector: previousLen must fit both arrays of the batch. Beyond them C# throws IndexOutOfRangeException at line 159, which the model does not represent.
- Casts throughout are modelled on unbounded integers:
  - the reader's `(int)` casts;
  - the writer's `(byte)` casts (modulo 256);
  - the 64-bit `long` values of the batch.
- The reader's EndOfStreamException and ArgumentException and the OverflowException of the `(long)` BigInteger cast are modelled as error results. Index and argument errors that the code leaves to the runtime become preconditions; each is listed in this section under its member.
- ByteRle.RunLengthByteWriter: `PositionedOutputStream` is modelled as the sequence of bytes written to it.
  - Its `Flush` and its own position entries are not part of this model; `GetPosition` takes those entries as a parameter.
  - The class comment says "0 to 127 meaning 2 to 129 repetitions". The code (MIN_REPEAT_SIZE = 3) means 3 to 130, and the model follows the code.
- ColumnVectors.LongColumnVector.Fill: requires a non-empty value array. C# would throw IndexOutOfRangeException on slot 0, and the model does not represent that.
- ColumnVectors.LongColumnVector.FillWithNulls: requires non-empty value and null-flag arrays, for the same reason.
- ColumnVectors.LongColumnVector.Flatten: on a repeating batch, requires a non-empty array and a selection inside it. Out-of-range indices would throw in C#.
- ColumnVectors.LongColumnVector.SetElement: requires both rows to be in range. Out-of-range rows would throw in C#.
- ColumnVectors.LongColumnVector.EnsureSize: requires a non-empty array when it keeps a repeating batch. Reading slot 0 of an empty array would throw in C#.
- ColumnVectors.LongColumnVector.CopySelected: requires `output != this`. The source does not forbid copying a batch onto itself.
- ColumnVectors.LongColumnVector.CopySelected: the selection array is a `seq<int>`, and selected rows must index both arrays, where C# would throw.
- The `DoubleColumnVector` overload of `copySelected` and `stringifyValue` are not modelled.
- ColumnVectors.LongColumnVector.Flatten: the base class's `flattenPush`, `flattenRepeatingNulls` and `flattenNoNulls` are not part of this model. The null flags are left unchanged by the model.
- ColumnVectors.LongColumnVector.EnsureSize: the base class's `ensureSize`, which also grows the null flags, is not part of this model.
- The batch's other base-class members (`DEFAULT_SIZE`, the default constructor) are not modelled.
- Decimal.ParseInteger: `BigInteger.Parse` also accepts surrounding white space and culture-specific signs. The model accepts only an optional `-` or `+` followed by ASCII digits.
- HiveDecimal members not modelled:
  - `doubleValue`, because floating point is out of scope;
  - `enforcePrecisionScale`, which returns its argument unchanged;
  - `GetHashCode`;
  - the `object` overloads of `Equals` and `CompareTo`;
  - the precision and scale constants;
  - the factory methods and `scale()`/`unscaledValue()`, which become the datatype's constructor and fields.
- ByteRle.EncodeRunExample and ByteRle.EncodeLiteralExample are worked examples of the writer. Their assertions are checked, but they have no contract of their own.

## Findings

| source | as written | input that shows it | evidently intended | confidence | as-written member | corrected member |
|---|---|---|---|---|---|---|
| OrcSharp/BitFieldReader.cs:122 | `lastRunValue = (runLength > 0)`: the value is set when the unread bits start with zeros | current = 3 with 4 unread bits (0011): a run of two set bits is reported where the stream holds two clear bits | the value of the leading bit, as on the other two paths (lines 106 and 132) | not executed | BitField.PartialRunCounterexample | BitField.PartialRun |
| OrcSharp/Types/HiveDecimal.cs:98-103 | a short digit string is padded to `scale - length` characters, not to `scale` | 5 at scale 3 (0.005) prints as ".05", which parses back as 0.05 | pad to `scale` digits: ".005" | not executed | Decimal.PadWidthCounterexample | Decimal.ParseToString |
| OrcSharp/Types/HiveDecimal.cs:95-104 | the point position and the padding count the minus sign as a digit | -5 at scale 2 (-0.05) prints as ".-5": the sign follows the point, so this is not decimal text for `BigInteger.Parse`, though this class's Parse reads it back. -5 at scale 5 prints as ".0-5", which this class's Parse rejects | the sign before the point and the zeros after it: "-.05", "-.00005" | not executed | Decimal.SignCounterexample, Decimal.SignPadCounterexample | Decimal.ParseToString |
