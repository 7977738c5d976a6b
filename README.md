# KLV decode core in Dafny

This project models the decode side of a Rust reader for KLV (Key-Length-Value) metadata, as found in MISB motion-imagery streams, and proves properties of that model. It covers:

- **BER lengths** (`Ber`): the short form, and the long form `0x80 | N` followed by N big-endian bytes. This is section 8.1.3 of ITU-T X.690, the encoding that section 6.3.2 of MISB ST 0107.5 requires for lengths.
- **BER-OID tags** (`BerOid`): base-128 groups with a continuation bit, as in the sub-identifiers of section 8.19.2 of X.690. Section 6.3.1 of ST 0107.5 requires this encoding for tags.
- **Fixed-width integers** (`UnsignedInteger`, `Integer`): 1 to 16 big-endian bytes, returned in the narrowest 8/16/32/64/128-bit container the byte count fits.
- **KLV triplets** (`KlvTriplet`): `Klv::new` reads a tag and a length and skips the value. `read_value` later fetches the value from the shared cursor and puts the cursor back.
- **The universal-key scanner** (`UniversalSet`): a 16-byte window slides over the stream and records every offset where the 16-byte universal key occurs.

## How the model is built

- **The stream.** The stream is `Stream.Cursor`, a class with an immutable byte string `data` (shorter than 2^64) and a mutable `pos: U64`. It follows `std::io::Cursor`, the reader the source's own tests use:
  - a `read_exact` that runs out of bytes reports `UnexpectedEof` and leaves the position at the end of the data;
  - seeking past the end is allowed;
  - `seek_relative` refuses positions outside the u64 range.
- **Results.** Every decoder has a pure specification over the bytes at the cursor, returning `Result<Decoded<T>, Error>`: the value and the number of bytes it occupies. The imperative method that mirrors the Rust code is proved against that function with `Errors.Matches`, which says:
  - the method returns the same value or error;
  - on success the cursor moves exactly past the decoded bytes;
  - an I/O error leaves the cursor at the end of the data;
  - a decoding error moves nothing.
- **Panics.** Every `panic!`, `unwrap` or `expect` that input can reach becomes an `Error.Panic(kind)` result, so the model says which inputs abort the process.
- **Bit vectors.** `bitvec`'s bit vectors are `seq<bool>` with the most significant bit first. `load_be` is `BitsValue`, and stripping leading zeros is `Significant`.
- **The ring buffer.** The `ringbuffer` window is a 16-byte `seq` that drops its first byte and appends the new one.

Where the code and its documentation part ways, the model follows the code:

- **Zero in the long form.** A BER long form whose N bytes are all zero, such as `[0x81, 0x00]`, leaves an empty bit vector after stripping leading zeros. `load_be` of an empty slice panics, so the model yields `Panic(EmptyBitLoad)`. BER-OID has an explicit all-zero case, so there `[0x80, 0x00]` decodes to 0.
- **No sign extension.** The 9..16-byte signed path moves the first bit to bit 127 and pads with zeros. For 9..15 bytes this is not sign extension: nine `0xFF` bytes decode to `-2^127 + 2^71 - 1`, not to -1. See "## Findings".
- **No skipping in the scanner.** The scanner has no logic to skip a value after a match. Every occurrence of the key is reported, overlapping ones included.

## Model

| member | source | states |
|---|---|---|
| Stream.Cursor.ReadExact | src/klv.rs:137-138 | `read_exact` of n bytes: the next n bytes, with the position moved by n, when that many remain; otherwise `UnexpectedEof`, with the position at the end of the data |
| Stream.Cursor.ReadU8 | src/encoding/ber.rs:33 | `read_u8`: the byte at the position, with the position moved by one; at or past the end, `UnexpectedEof` with the position at the end |
| Stream.Cursor.Seek | src/klv.rs:135 | `seek(SeekFrom::Start(p))` sets the position to p, even past the end |
| Stream.Cursor.SeekRelative | src/klv.rs:67 | `seek_relative(k)` moves the position by k when the result stays in the u64 range; otherwise `InvalidInput`, with the position unchanged |
| Stream.ReadEach | src/encoding/unsigned_integer.rs:60-62 | reading `length` bytes one `read_u8` at a time gives the same bytes and final position as one `read_exact`, or `UnexpectedEof` with the position at the end |
| Ber.DecodeLongForm | src/encoding/ber.rs:71-89 | a successful long-form read consumes exactly N bytes, and they are present |
| Ber.DecodeBer | src/encoding/ber.rs:29-51 | a successful BER read consumes at least one byte and no more than remain |
| Ber.ReadBerLongForm | src/encoding/ber.rs:71-89 | the loop that extends the bit vector byte by byte, strips leading zeros and refuses more than 128 bits agrees with `DecodeLongForm`, position included |
| Ber.ReadBer | src/encoding/ber.rs:29-51 | `read_ber` agrees with `DecodeBer`: value, error and final position |
| Ber.ShortForm | src/encoding/ber.rs:33-48 | a first byte below 0x80 is the value (at most 127), and exactly one byte is consumed |
| Ber.LongForm | src/encoding/ber.rs:36-45 | for a first byte `0x80 + N` with N > 0: the read succeeds exactly when N more bytes remain and their big-endian value is nonzero and below 2^128; the value is then that number and 1 + N bytes are consumed; with too few bytes it is `UnexpectedEof` |
| Ber.LeadingZeroBytes | src/encoding/ber.rs:82-86 | adding k leading zero bytes to a long form adds k to the bytes consumed and leaves the value, or the error, unchanged |
| Ber.RoundTrip | src/encoding/ber.rs:29-89 | the shortest encoding of every u128 (short form up to 127, else the minimal long form) decodes back to it, consuming exactly the encoding, whatever follows |
| Ber.LongFormOf | src/encoding/ber.rs:36-45 | `0x80 + k` followed by k big-endian bytes (1 <= k <= 16) holding a nonzero u128 v decodes to v, consuming 1 + k bytes |
| Ber.Examples | src/encoding/ber.rs:98-101 | `[0x00]` is 0, `[0x7F]` is 127 and `[0x81, 0x80]` is 128, as the source's tests expect; `[0x81, 0x05]` is a long-form 5 |
| Ber.ErrorExamples | src/encoding/ber.rs:110-111 | `[]` and `[0x81]` are `UnexpectedEof`; `[0x80]` panics for a long form without a byte count (:41-43), and `[0x81, 0x00]` on the empty bit load |
| Ber.MaxExample | src/encoding/ber.rs:102 | `0x90` and sixteen `0xFF` bytes decode to u128::MAX in 17 bytes |
| Ber.TooLargeExample | src/encoding/ber.rs:119 | `0x91`, `0x01` and sixteen zero bytes (2^128) panic as too large |
| BerOid.ContinuationCount | src/encoding/ber_oid.rs:31-41 | the count k of leading bytes with the top bit set: all of them are continuation bytes, and byte k, when present, is the final byte |
| BerOid.DecodeBerOid | src/encoding/ber_oid.rs:25-67 | a successful BER-OID read consumes at least one byte and no more than remain |
| BerOid.ContinuationPrefix | src/encoding/ber_oid.rs:31-41 | i continuation bytes followed by a final byte fix the count of continuation bytes at i |
| BerOid.ReadBerOid | src/encoding/ber_oid.rs:25-67 | `read_ber_oid` agrees with `DecodeBerOid`: value, error and final position |
| BerOid.ReadGroups | src/encoding/ber_oid.rs:30-49 | the loop reads up to and including the first byte with its top bit clear, gathering the low seven bits of each byte; without such a byte it is `UnexpectedEof`, with the position at the end |
| BerOid.LoadTag | src/encoding/ber_oid.rs:51-66 | from the gathered bits: 0 when all are zero, a panic when more than 128 significant bits remain, otherwise their value, which is what `DecodeBerOid` yields |
| BerOid.AccumulatedTag | src/encoding/ber_oid.rs:51-66 | all-zero groups decode to 0 (both directions); otherwise more than 128 significant bits panic, and fewer give the bits' value, below 2^128 |
| BerOid.EndsAtFirstFinalByte | src/encoding/ber_oid.rs:31-41 | a decoded tag ends at the first byte without the top bit, every earlier byte has it, and the value is the base-128 value of the bytes read |
| BerOid.NoFinalByte | src/encoding/ber_oid.rs:32 | bytes that all have the top bit set, the empty input included, are `UnexpectedEof` |
| BerOid.SingleByte | src/encoding/ber_oid.rs:76-78 | a byte below 0x80 is a whole tag with its own value, one byte consumed |
| BerOid.Prefix | src/encoding/ber_oid.rs:19-20 | bytes after a tag do not change how the tag decodes |
| BerOid.ContinuationValue | src/encoding/ber_oid.rs:34-37 | the continuation bytes of the reference encoder carry exactly the groups of v |
| BerOid.EncodingShape | src/encoding/ber_oid.rs:31-41 | the shortest BER-OID encoding of v is continuation bytes and then one final byte, with base-128 value v |
| BerOid.RoundTrip | src/encoding/ber_oid.rs:25-67 | the shortest encoding of every u128 decodes back to it, consuming exactly the encoding, whatever follows |
| BerOid.Terminated | src/encoding/ber_oid.rs:31-66 | continuation bytes and then a final byte at k, with a value below 2^128, decode to that value in k + 1 bytes |
| BerOid.Examples | src/encoding/ber_oid.rs:76-90 | the source's test vectors: 0, 127, 128, 16383 and u128::MAX decode as expected; the 19-byte overflow panics; `[]` and `[0x81]` are `UnexpectedEof` |
| BerOid.TwoBytes | src/encoding/ber_oid.rs:79-80 | a continuation byte and then a final byte give 128 * (hi - 0x80) + lo |
| BerOid.MaxExample | src/encoding/ber_oid.rs:81 | `0x83`, seventeen `0xFF` bytes and `0x7F` decode to u128::MAX in 19 bytes |
| BerOid.OverflowExample | src/encoding/ber_oid.rs:98 | `0x84`, seventeen `0x80` bytes and `0x00` (2^128) panic as too large |
| UnsignedInteger.ReadUnsignedInteger | src/encoding/unsigned_integer.rs:46-69 | `read_unsigned_integer` agrees with `DecodeUnsigned`: value, error and final position; the u32 `try_into` panic is unreachable |
| UnsignedInteger.Decodes | src/encoding/unsigned_integer.rs:50-66 | a length outside 1..16 is `DecodingError("unsigned_integer")` before any read; with fewer bytes than the length it is `UnexpectedEof`; otherwise exactly `length` bytes are consumed, the value is their big-endian number (below 256^length), and the container is U8/U16/U32/U64/U128 exactly for 1 / 2 / 3-4 / 5-8 / 9-16 bytes |
| UnsignedInteger.AllOnes | src/encoding/unsigned_integer.rs:183-197 | n bytes of `0xFF` are 2^(8n) - 1, the container's maximum at 1, 2, 4, 8 and 16 bytes |
| UnsignedInteger.RoundTrip | src/encoding/unsigned_integer.rs:51-63 | every value below 256^n, written as n big-endian bytes, decodes back to it in the container for n, consuming n bytes |
| UnsignedInteger.ErrorExamples | src/encoding/unsigned_integer.rs:209-220 | the source's error vectors: `[]` and `[0x81]` with length 2 are `UnexpectedEof`; lengths 17 and 0 are `DecodingError` |
| Integer.ReadInteger | src/encoding/integer.rs:46-84 | `read_integer` agrees with `DecodeInteger`: value, error and final position; the i32 `try_into` panic is unreachable |
| Integer.ReadInt | src/encoding/integer.rs:51-58 | byteorder's signed reads: the two's complement of the next n bytes, in the signed range of 8n bits, or `UnexpectedEof` |
| Integer.MoveSignBit | src/encoding/integer.rs:63-76 | clearing the first bit, inserting zeros at the front up to 128 bits and setting the first bit again gives the first input bit, then zeros, then the other input bits |
| Integer.Relocation | src/encoding/integer.rs:69-76 | the three steps of the 9..16-byte arm compose to that relocation |
| Integer.BoundCovers | src/encoding/integer.rs:50-58 | two's complement of n bytes fits the container chosen for n, exactly at 1, 2, 4, 8 and 16 bytes |
| Integer.SignedBitsRange | src/encoding/integer.rs:78 | `load_be` into a signed integer is negative exactly when the first bit is set, and stays in the signed range of the width |
| Integer.SignedBytesBits | src/encoding/integer.rs:63 | reading the bytes' bits as two's complement gives the bytes' two's complement |
| Integer.SignedBytesRange | src/encoding/integer.rs:51-58 | two's complement of n bytes is negative exactly when the first byte is 0x80 or more, and lies in -2^(8n-1) .. 2^(8n-1) - 1 |
| Integer.RelocatedValue | src/encoding/integer.rs:63-78 | the relocated value is the bytes' unsigned value when the first bit is clear; otherwise that value with the first bit's weight removed, minus 2^127 |
| Integer.RelocatedUnsigned | src/encoding/integer.rs:73-75 | read unsigned, the relocated bits weigh the first input bit 2^127 and keep the weights of the others |
| Integer.SignedValueRange | src/encoding/integer.rs:50-79 | the decoded number is negative exactly when the first input bit is set, and fits the chosen container |
| Integer.Decodes | src/encoding/integer.rs:50-81 | a length outside 1..16 is `DecodingError("integer")` before any read; with fewer bytes than the length it is `UnexpectedEof`; otherwise exactly `length` bytes are consumed, the sign follows the first bit, and the container is I8/I16/I32/I64/I128 exactly for 1 / 2 / 3-4 / 5-8 / 9-16 bytes |
| Integer.TwosComplement | src/encoding/integer.rs:51-58 | for 1..8 bytes, and for 16, the result is the bytes' big-endian two's complement |
| Integer.SignBitMoved | src/encoding/integer.rs:63-78 | for 9..16 bytes the first input bit becomes bit 127, and the other 8n - 1 bits keep their weights |
| Integer.NineOnes | src/encoding/integer.rs:59-79 | nine `0xFF` bytes (-1 in two's complement) decode to -2^127 + 2^71 - 1; sign extension gives -1 |
| Integer.SignedBytesRoundTrip | src/encoding/integer.rs:51-58 | the two's-complement bytes of v in n bytes read back as v |
| Integer.RoundTrip | src/encoding/integer.rs:51-78 | for 1..8 and 16 bytes, every value of the width, written in two's complement, decodes back to it, consuming n bytes |
| Integer.DecodeIntegerExtended | src/encoding/integer.rs:59-79 | the corrected decode: the same errors, and for a valid length every width yields the two's complement of its bytes |
| Integer.ExtendedRoundTrip | src/encoding/integer.rs:59-79 | with sign extension every width from 1 to 16 bytes round-trips, 9..15 included |
| Integer.ExtendedAgrees | src/encoding/integer.rs:51-58 | for 1..8 and 16 bytes the corrected decode equals the source's |
| Integer.SignLost | src/encoding/integer.rs:69-76 | for 9..15 bytes the source agrees with sign extension exactly when the first bit is clear |
| Integer.Extremes | src/encoding/integer.rs:198-212 | `0x80 00…` and `0x7F FF…` of n bytes are the two's-complement minimum and maximum, and zeros are 0 |
| Integer.SignedLeading | src/encoding/integer.rs:51-58 | splitting off the leading byte: two's complement subtracts 256^n exactly when that byte has its top bit set |
| Integer.ExtremeDecodes | src/encoding/integer.rs:198-212 | at 1, 2, 4, 8 and 16 bytes the extreme patterns decode to the container's minimum, maximum and zero, whatever follows |
| Integer.ExtremeDecodesAt | src/encoding/integer.rs:198-212 | the same, for the patterns given as byte strings |
| Integer.NarrowExamples | src/encoding/integer.rs:198-206 | the source's i8, i16 and i32 test vectors |
| Integer.WideExamples | src/encoding/integer.rs:207-212 | the source's i64 and i128 test vectors |
| Integer.ErrorExamples | src/encoding/integer.rs:224-235 | the source's error vectors: `[]` and `[0x81]` with length 2 are `UnexpectedEof`; lengths 17 and 0 are `DecodingError` |
| KlvTriplet.DecodeLength | src/klv.rs:123-129 | a successful length read consumes at least one byte and no more than remain |
| KlvTriplet.ParseTriplet | src/klv.rs:60-77 | a parsed header's value starts after the cursor, no later than the end of the data, and ends within the u64 range |
| KlvTriplet.ValueOf | src/klv.rs:132-143 | the value read succeeds exactly when the length is 0 or the value lies within the data; it then holds exactly the `length` bytes from the value offset; otherwise `UnexpectedEof` |
| KlvTriplet.Klv.New | src/klv.rs:60-77 | `Klv::new` agrees with `ParseTriplet`: on success the triplet shares the cursor, holds the parsed tag, length and value offset, and the cursor sits just past the value; errors pass through, an I/O error leaving the cursor at the end |
| KlvTriplet.Klv.ReadTag | src/klv.rs:99-101 | `read_tag` agrees with the BER-OID decode: value, error and final position |
| KlvTriplet.Klv.ReadLength | src/klv.rs:123-129 | `read_length` agrees with `DecodeLength`: the BER decode, with a panic when the length does not fit a u64 |
| KlvTriplet.Klv.ReadValue | src/klv.rs:132-143 | `read_value` yields `ValueOf` the triplet; on success the cursor is back where it was; on failure it returns before the restore, leaving the cursor at the end of the data |
| KlvTriplet.ReadValueTwice | src/klv.rs:134-142 | two successive `read_value` calls give identical bytes, and the cursor ends where it started |
| KlvTriplet.ErrorsPassThrough | src/klv.rs:63-64 | a tag error, then a length error, pass through unchanged, and a length of 2^64 or more panics |
| KlvTriplet.Layout | src/klv.rs:63-75 | the tag is the BER-OID value at the cursor, the length the BER value right after it (below 2^63), and the value offset the position right after the length |
| KlvTriplet.HeaderAt | src/klv.rs:63-75 | a tag and then a length decoded at a position give exactly the header after them |
| KlvTriplet.RoundTrip | src/klv.rs:60-143 | a triplet written with the shortest encodings parses back to its tag and length wherever it sits in the stream, and its value reads back |
| KlvTriplet.TripletHeader | src/klv.rs:60-77 | the header half of the round trip |
| KlvTriplet.TripletValue | src/klv.rs:132-143 | the value half of the round trip |
| KlvTriplet.Example | src/klv.rs:60-77 | `[0x01, 0x02, 0x03, 0x04]` is tag 1, length 2, value offset 2, and the value `[0x03, 0x04]` |
| KlvTriplet.TwoTo64 | src/klv.rs:124-128 | `0x01` and eight zero bytes are 2^64 |
| KlvTriplet.LengthTooLarge | src/klv.rs:124-128 | a BER length of 2^64 panics as not fitting a u64 |
| UniversalSet.StartLocations | src/universal_set.rs:62-98 | `start_locations` returns exactly the offsets, from the cursor on, where the key sits, in increasing order, and consumes the whole stream; with fewer than 16 bytes it finds nothing |
| UniversalSet.Scan | src/universal_set.rs:72-94 | the window loop: compare, record the window's start, read one byte and slide; it ends at the first failed read, having found every offset from the window's start to the end |
| UniversalSet.BetweenStep | src/universal_set.rs:73-86 | testing one more offset appends it exactly when the key sits there |
| UniversalSet.Slide | src/universal_set.rs:88-91 | enqueuing a byte into the full window moves the window on by one byte |
| UniversalSet.Tail | src/universal_set.rs:88-93 | no key fits in the last 15 bytes, so stopping at the end of the stream misses nothing |
| UniversalSet.FoundBetween | src/universal_set.rs:73-85 | an offset is found in a range exactly when the key sits there |
| UniversalSet.Found | src/universal_set.rs:73-91 | an offset is returned exactly when it is not before the cursor and the key sits there, overlapping occurrences included |
| UniversalSet.InRange | src/universal_set.rs:78-85 | every offset found lies in the range scanned |
| UniversalSet.IncreasingBetween | src/universal_set.rs:72-94 | the offsets of a range are strictly increasing |
| UniversalSet.Increasing | src/universal_set.rs:72-94 | the returned offsets are strictly increasing, so none is reported twice |
| UniversalSet.Short | src/universal_set.rs:67-68 | fewer than 16 bytes after the cursor: no offsets |
| UniversalSet.CountBetween | src/universal_set.rs:72-94 | at most one offset per position of the range |
| UniversalSet.CountBound | src/universal_set.rs:72-94 | at most one offset per position where a whole key fits |
| UniversalSet.KeyAlone | src/universal_set.rs:114 | the key alone is found at 0 |
| UniversalSet.KeyAfterOneByte | src/universal_set.rs:115 | one byte and then the key: found at 1 |
| UniversalSet.Overlapping | src/universal_set.rs:88-91 | seventeen zero bytes hold the zero key at 0 and at 1, and both are found |

## Left out

- `src/local_set.rs` is not part of this model. It holds trait and enum declarations for the tag dictionary and a placeholder `LocalSet`, with no decoding logic.
- `src/format.rs` and `src/encoding/mod.rs` are not part of this model: they declare enums and have no behaviour.
- `read_tag_number` in `src/lib.rs` is not modelled: it only calls `read_ber_oid`.
- `UniversalSet::new` and `find_all` (`src/universal_set.rs:48-58`) are not modelled. They are unfinished and would not compile: `new` is called with the wrong number of arguments, and a lazy `map` is returned where a `Vec` is declared.
- The `read_i8`…`read_i128` and `read_u8`…`read_u128` wrappers are not modelled separately. They only forward to byteorder's big-endian reads, which `Integer.ReadInt`, `Stream.Cursor.ReadU8` and `Stream.Cursor.ReadExact` model.
- The `Read + Seek` reader is modelled only as an in-memory `std::io::Cursor`. Other readers, such as files, can fail in other ways or leave the position elsewhere after a short read.
- `Rc<RefCell<…>>` sharing is modelled by the `Klv` objects holding the same `Cursor` object. Runtime borrow failures cannot happen in this sequential code and are not modelled.
- `stream_position().unwrap()` and `seek(SeekFrom::Start(..)).unwrap()` cannot fail on a cursor, so they are modelled without an error path.
- The `vec![0; length as usize]` allocation in `read_value` is not modelled. An allocation failure for a huge length is outside the model, and so is a `usize` narrower than 64 bits.
- The `debug_assert!`s (`src/encoding/ber.rs:87`, `src/encoding/ber_oid.rs:43-47`) are not modelled: release builds do not check them.
- Panic messages and error strings beyond the kind name (`"integer"`, `"unsigned_integer"`) are not modelled. A panic is a `Panic(kind)` result, and the model does not describe a position after it.
- The `tag()` and `length()` getters are not modelled separately: they are the `tag` and `length` fields of `KlvTriplet.Klv`.
- The unreachable `checked_sub` panic in `start_locations` (`src/universal_set.rs:79-84`) is not an error path of the model. The window always ends at least 16 bytes past the start, so `Scan` proves the subtraction safe.

## Findings

| source | as written | input that shows it | evidently intended | confidence | as-written member | corrected member |
|---|---|---|---|---|---|---|
| src/encoding/integer.rs:63-78 | for 9..15 bytes the first bit is cleared, zeros are inserted in front and bit 127 is set, which keeps the other bits at their unsigned weights | nine `0xFF` bytes (-1 in two's complement) decode to -2^127 + 2^71 - 1 | the comment at :66-68 and the doc at :25-27 say the number is grown to an i128, i.e. sign extension, giving -1 | high (proved, not executed) | Integer.NineOnes | Integer.DecodeIntegerExtended |

`Integer.SignLost` shows that for 9..15 bytes the two decoders differ on every input whose first bit is set, and on no other input. `Integer.ExtendedRoundTrip` proves that the corrected decoder round-trips every width. `Integer.ExtendedAgrees` proves that it equals the source's decoder at 1..8 and 16 bytes, where the source is already right. `Integer.ReadInteger` models the code as written.
