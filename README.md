# minibit in Dafny

minibit is a small binary wire protocol for market data. A message travels in a **frame**:
- a 16-byte little-endian header: magic 0xFEED, version 1, flags, message type, sequence number, body length, two reserved bytes;
- the body;
- a 4-byte CRC-32C trailer over the header and the body.

Inside a body, fixed-width fields come first. Optional fields may follow: a presence bitmap marks which ones are there, and each is written as varbytes (a LEB128 length, then the bytes).

This project models the protocol's core in Dafny and proves properties of the model:

- **Bytes**: the little-endian integer forms the code relies on, its two's-complement casts and its in-place `copy_from_slice`. These are helpers, not source files.
- **Errors, Lib**: the error enum and the protocol constants (magic, version, minimum and maximum frame size).
- **Varint**: LEB128 encoding and decoding of u32 and u64. The specification is `Leb128` and `Decoded`. The decoder and the encoder are loops proved against it.
- **Crc32c**:
  - the software CRC-32C (polynomial 0x82F63B78, table-driven);
  - the table generator;
  - `crc32c` and `verify_crc32c`.
- **Bitmap**: the 8- and 16-bit presence bitmap, its builder and its one- or two-byte encoding.
- **Frame**: the frame header, with its flags, `validate`, `encode` and `decode`.
- **Encoder**: `FrameEncoder`, a class over a byte array with a write position, a header start and a body start. `finish_crc32c` patches the body length into the header and appends the CRC.
- **Decoder**:
  - `FrameDecoder` (header, CRC check, body, whole frame), a value over a byte string;
  - `BodyCursor`, a class whose position advances as fields are read.
- **Messages, Trade, Quote**: the two message types. Each `encode` is a method over an array. It is proved to write exactly `EncodedFrame`: the header, then the body, then the trailer. Each `decode` is a method proved equal to `DecodedFields`.

The main results:

- **Round trips**: LEB128 round-trips for u32 and u64. The header round-trips. A finished frame decodes to its own header, body and frame. A trade or quote decodes to the fields it was encoded from.
- **Corruption**: changing any trailer byte gives `CrcMismatch`.
- **Cross-type decoding**: a trade is never accepted as a quote, and a quote never as a trade.
- **Error order**: `validate` and both decoders report errors in the code's order.
- **Known vectors**: both CRC-32C test vectors the repository checks.

Integers are unbounded in Dafny. Where the code truncates a u32, the model writes it out:
- the u32 body length in `finish_crc32c` and in `put_varbytes` is taken `% 2^32`;
- `decode_u32` keeps only 32 bits of its fifth byte, so an overlong encoding of a value of 2^32 or more decodes without error to its low 32 bits (`Varint.DecodeU32Truncates`).

The usize overflow of the body cursor's `pos + n` is not modelled (see "Left out").

## Model

| member | source | states |
|---|---|---|
| Varint.Leb128 | src/varint.rs:18-36 | the encoding of a value is never empty |
| Varint.MaxBytes | src/varint.rs:9-12 | 5 bytes for a u32 and 10 for a u64: the fewest 7-bit groups that hold the width |
| Varint.Terminator | src/varint.rs:47-64 | the position of the first byte without the continuation bit: every byte before it has the bit set, and the byte there does not |
| Varint.Decoded | src/varint.rs:42-67 | a decoded value fits the width and takes 1 to MAX bytes of the input; the only errors are UnexpectedEof and Overflow |
| Varint.Leb128Shape | src/varint.rs:18-36 | every byte but the last carries the continuation bit and the last does not, so a decoder stops exactly at the end of the encoding |
| Varint.Leb128Groups | src/varint.rs:18-36 | the 7-bit groups of the encoding, read back least significant first, give the value |
| Varint.Leb128Length | src/varint.rs:9-12 | the encoding fits k bytes exactly when the value is below 2^(7k) |
| Varint.RoundTrip | src/varint.rs:129-154 | followed by any bytes, an encoding is found intact at the front and its groups give the value back |
| Varint.RoundTripU32 | src/varint.rs:129-140 | a u32 encodes in at most 5 bytes, and `decode_u32` of the encoding (with anything after it) returns the value and the encoding's length |
| Varint.RoundTripU64 | src/varint.rs:143-154 | a u64 encodes in at most 10 bytes, and `decode_u64` returns the value and the encoding's length |
| Varint.Leb128Boundaries | src/varint.rs:18-36 | values below 128 take one byte, values below 16384 take two, and larger ones take three or more |
| Varint.DecodedConsumes | src/varint.rs:42-67 | a successful decode reads 1 to MAX bytes, ending at the first byte without the continuation bit |
| Varint.DecodedEof | src/varint.rs:163-166 | UnexpectedEof exactly when the input ends, within the size limit, while every byte read still has the continuation bit |
| Varint.DecodedOverflow | src/varint.rs:52-54 | Overflow exactly when all of the first 5 (or 10) bytes carry the continuation bit and more follow |
| Varint.DecodeU32Truncates | src/varint.rs:42-67 | u32::MAX encodes as FF FF FF FF 0F; the overlong FF FF FF FF 7F also decodes to u32::MAX, because the fifth byte's high bits are dropped |
| Varint.OverlongGroups | src/varint.rs:59 | the groups of FF FF FF FF 7F amount to 2^35 - 1, so that decode really discards bits |
| Varint.Examples | src/varint.rs:157-166 | u32::MAX takes 5 bytes; a lone 0x80 is UnexpectedEof |
| Varint.DecodeLeb128 | src/varint.rs:42-67 | the shared decode loop returns exactly the specification `Decoded`: value modulo 2^width and bytes consumed, or Overflow or UnexpectedEof |
| Varint.DecodeU32 | src/varint.rs:42-67 | `decode_u32`: `Decoded` at width 32, with a u32 value and a length of 1 to 5 |
| Varint.DecodeU64 | src/varint.rs:97-122 | `decode_u64`: `Decoded` at width 64, with a u64 value and a length of 1 to 10 |
| Varint.EncodeLeb128 | src/varint.rs:18-36 | the shared encode loop writes exactly the LEB128 bytes at start and returns their count; when the buffer ends first, it has filled the buffer with a prefix of them and returns ShortBuffer |
| Varint.EncodeU32 | src/varint.rs:18-36 | `encode_u32`: the same, and the encoding needs at most 5 bytes |
| Varint.EncodeU64 | src/varint.rs:73-91 | `encode_u64`: the same, and the encoding needs at most 10 bytes |
| Crc32c.Table | src/crc32c.rs:10 | the lookup table has 256 entries |
| Crc32c.Index | src/crc32c.rs:71-73 | the table index taken from the register and a byte is below 256 |
| Crc32c.EightRounds | src/crc32c.rs:21-28 | the inner loop of the table generator performs eight shift-and-xor rounds |
| Crc32c.GenerateTable | src/crc32c.rs:13-35 | the generated table holds, at every i, eight rounds applied to i; it equals `Table()` |
| Crc32c.FoldAppend | src/crc32c.rs:67-76 | folding the register over a + b is folding over a, then over b |
| Crc32c.Crc32cSw | src/crc32c.rs:67-76 | the byte loop from 0xFFFFFFFF, inverted at the end, is the CRC-32C checksum of the data |
| Crc32c.Crc32c | src/crc32c.rs:41-57 | `crc32c` returns the checksum of the data as a u32 |
| Crc32c.VerifyCrc32c | src/crc32c.rs:61-63 | `verify_crc32c` is true exactly when the checksum equals the expected value |
| Crc32c.RegisterIsFold | src/crc32c.rs:67-76 | the register defined byte by byte equals the fold over the data |
| Crc32c.ChecksumValueIsChecksum | src/crc32c.rs:41-57 | the u32 checksum value is the bit-vector checksum |
| Crc32c.ChecksumEmpty | tests/integration_tests.rs:391 | the checksum of no bytes is 0 |
| Crc32c.TableKnownEntries | src/crc32c.rs:7-35 | table entries 0, 1, 128 and 255 have the values of the Castagnoli table; entry 128 is the polynomial |
| Crc32c.FoldFromStates | src/crc32c.rs:67-76 | a fold ends in the last of any sequence of register values in which each byte takes one value to the next |
| Crc32c.DigitsCheck | tests/integration_tests.rs:392 | the checksum of "123456789" is 0xE3069283 |
| Crc32c.FoxCheck | tests/integration_tests.rs:393-396 | the checksum of "The quick brown fox jumps over the lazy dog" is 0x22620404 |
| Bitmap.BitmapSize.Bytes | src/bitmap.rs:33-38 | one byte for an 8-bit bitmap, two for a 16-bit one |
| Bitmap.BitmapSize.MaxFields | src/bitmap.rs:42-47 | 8 or 16 fields: eight per byte |
| Bitmap.EncodedBits | src/bitmap.rs:118-135 | the encoding is as long as the size says |
| Bitmap.DecodedBits | src/bitmap.rs:139-157 | decoding succeeds exactly when enough bytes are there, reads them little-endian and reports how many it took; otherwise UnexpectedEof |
| Bitmap.DecodeEncoded | src/bitmap.rs:238-256 | bits that fit the size decode back from their encoding, along with the byte count |
| Bitmap.SetBits | src/bitmap.rs:77-83 | setting bit i sets i and keeps every other bit |
| Bitmap.ClearBit | src/bitmap.rs:87-93 | clearing bit i clears i and keeps every other bit |
| Bitmap.ZeroIffNoBit | src/bitmap.rs:112-114 | the bits are zero exactly when no field is set |
| Bitmap.IndicesMembers | src/bitmap.rs:161-163 | the set fields are listed in increasing order, each once, and their number is the count of set bits |
| Bitmap.PresenceBitmap.New | src/bitmap.rs:53-55 | a new bitmap has no field set |
| Bitmap.PresenceBitmap.FromBits | src/bitmap.rs:59-61 | the bitmap holds the given bits and size |
| Bitmap.PresenceBitmap.CountSet | src/bitmap.rs:106-108 | the count is zero exactly when the bits are zero |
| Bitmap.PresenceBitmap.IsSet | src/bitmap.rs:97-102 | a field past the bitmap's size is never set |
| Bitmap.PresenceBitmap.IsEmpty | src/bitmap.rs:112-114 | empty exactly when the count of set fields is zero |
| Bitmap.PresenceBitmap.IterSet | src/bitmap.rs:161-163 | yields exactly the set fields, in increasing order |
| Bitmap.PresenceBitmap.Set | src/bitmap.rs:77-83 | an index past the size is Overflow and changes nothing; otherwise that field becomes set and every other field is unchanged |
| Bitmap.PresenceBitmap.Clear | src/bitmap.rs:87-93 | an index past the size is Overflow and changes nothing; otherwise that field becomes clear and every other field is unchanged |
| Bitmap.PresenceBitmap.Encode | src/bitmap.rs:118-135 | a short buffer is ShortBuffer and is left alone; otherwise the encoding is written at the front and its length is returned |
| Bitmap.PresenceBitmap.Decode | src/bitmap.rs:139-157 | a new bitmap over what `DecodedBits` reads, or its UnexpectedEof |
| Bitmap.IterSetCount | src/bitmap.rs:106-108 | when no bit lies past the size, `iter_set` yields `count_set` fields |
| Bitmap.BitmapBuilder.New | src/bitmap.rs:175-179 | the builder starts from an empty bitmap |
| Bitmap.BitmapBuilder.WithField | src/bitmap.rs:183-186 | sets the field and hands the builder back, or passes on the Overflow of `set` |
| Bitmap.BitmapBuilder.Build | src/bitmap.rs:190-192 | the bitmap the builder holds, with every field set so far |
| Frame.FrameHeader.SetFlag | src/frame.rs:73-75 | the flag is set afterwards, and no field but the flags changes |
| Frame.FrameHeader.ClearFlag | src/frame.rs:79-81 | the flag is clear afterwards, and no field but the flags changes |
| Frame.FrameHeader.HasFlag | src/frame.rs:85-87 | a set flag shares a one bit with the flags, so neither is zero; a nonzero flag whose bits are all in the flags is set |
| Frame.FrameHeader.Validate | src/frame.rs:91-116 | succeeds exactly for a valid header; otherwise fails with InvalidMagic, UnsupportedVersion, FlagConflict or Overflow |
| Frame.FrameHeader.TotalSize | src/frame.rs:159-161 | the frame size is the body length plus 20 bytes of header and trailer |
| Frame.FrameHeader.Encode | src/frame.rs:120-134 | a buffer under 16 bytes is ShortBuffer and is left alone; otherwise the 16 header bytes are written at the front |
| Frame.NewHeader | src/frame.rs:60-69 | a header with the protocol's magic and version, no flags and the given fields; it validates exactly when the body length fits the maximum frame size |
| Frame.DefaultHeader | src/frame.rs:42-51 | the default header is valid |
| Frame.HeaderBytes | src/frame.rs:120-134 | 16 bytes, the reserved two of them zero |
| Frame.HeaderFront | src/frame.rs:122-128 | the fields before the body length take 10 bytes |
| Frame.DecodedHeader | src/frame.rs:138-155 | under 16 bytes is UnexpectedEof; otherwise the header the bytes hold if it validates, else the error `validate` gives |
| Frame.ValidateOrder | src/frame.rs:91-116 | `validate` reports the first failing check in the order magic, version, reserved flags, size |
| Frame.SizeBoundary | src/frame.rs:187-209 | a body of MAX_FRAME_SIZE - 20 bytes is accepted; one byte more, or MAX_FRAME_SIZE itself, is Overflow |
| Frame.FlagBitsKept | src/frame.rs:212-222 | setting or clearing a flag leaves bits outside it alone, and setting keeps every bit already set |
| Frame.SetThenClear | src/frame.rs:73-81 | setting then clearing a flag the header did not have gives the header back |
| Frame.RawOfHeaderBytes | src/frame.rs:138-155 | the fields read from the encoded bytes are the fields that were encoded |
| Frame.DecodeEncoded | src/frame.rs:169-184 | decoding an encoded header gives it back when it is valid, and its validation error otherwise |
| Frame.DecodeIgnoresReserved | src/frame.rs:138-155 | the reserved bytes 14 and 15 never change the result of decoding |
| Frame.EncodeDecoded | src/frame.rs:120-155 | a decoded header encodes back to the first 14 bytes it came from, followed by zeros |
| Encoder.Finished | src/encoder.rs:173-193 | a finished frame is the written bytes plus the 4-byte trailer |
| Encoder.Varbytes | src/encoder.rs:111-125 | varbytes are the LEB128 length followed by the bytes |
| Encoder.FrameEncoder.New | src/encoder.rs:22-29 | all offsets start at 0 |
| Encoder.FrameEncoder.Begin | src/encoder.rs:33-44 | on a buffer of 16 bytes or more, writes the header at the position and makes that position the header start; the body starts after the header. A smaller buffer is ShortBuffer and nothing changes |
| Encoder.FrameEncoder.PutU8 | src/encoder.rs:48-55 | appends the byte at the position, or ShortBuffer with nothing changed |
| Encoder.FrameEncoder.PutBytes | src/encoder.rs:129-136 | appends the bytes, or ShortBuffer with nothing changed |
| Encoder.FrameEncoder.PutU16 | src/encoder.rs:59-66 | appends 2 little-endian bytes, or ShortBuffer with nothing changed |
| Encoder.FrameEncoder.PutU32 | src/encoder.rs:70-77 | appends 4 little-endian bytes, or ShortBuffer with nothing changed |
| Encoder.FrameEncoder.PutU64 | src/encoder.rs:81-88 | appends 8 little-endian bytes, or ShortBuffer with nothing changed |
| Encoder.FrameEncoder.PutI32 | src/encoder.rs:92-94 | appends the two's-complement bits as 4 bytes |
| Encoder.FrameEncoder.PutI64 | src/encoder.rs:98-100 | appends the two's-complement bits as 8 bytes |
| Encoder.FrameEncoder.PutBitmap | src/encoder.rs:104-107 | appends the bitmap as 2 bytes |
| Encoder.FrameEncoder.PutVarbytes | src/encoder.rs:111-125 | appends the length prefix and the bytes. If the prefix does not fit, the buffer is filled with part of it and the position stays. If only the bytes do not fit, the prefix stays written and the position moves past it |
| Encoder.FrameEncoder.PutVarintU32 | src/encoder.rs:140-145 | appends the LEB128 encoding; when it does not fit, the position stays and the buffer is filled with part of it |
| Encoder.FrameEncoder.PutVarintU64 | src/encoder.rs:149-154 | the same for a u64 |
| Encoder.FrameEncoder.Position | src/encoder.rs:158-160 | the position lies inside the buffer |
| Encoder.FrameEncoder.Remaining | src/encoder.rs:164-166 | position plus remaining is the buffer length |
| Encoder.FrameEncoder.AsSlice | src/encoder.rs:205-207 | the bytes from the header start to the position |
| Encoder.FrameEncoder.FinishCrc32c | src/encoder.rs:173-193 | patches the body length (mod 2^32) into the header. It then appends the CRC-32C of the patched frame and returns the frame size. Without room for the trailer it returns ShortBuffer, with the length already patched |
| Encoder.FrameEncoder.Reset | src/encoder.rs:197-201 | all offsets back to 0 |
| Encoder.FinishedFrame | src/encoder.rs:173-193 | the bytes `finish_crc32c` leaves from the header start on are `Finished` of what was written |
| Decoder.FrameDecoder.Header | src/decoder.rs:35-37 | succeeds exactly when there are 16 bytes holding a valid header, and returns the fields they hold; a short buffer is UnexpectedEof |
| Decoder.FrameDecoder.CrcSize | src/decoder.rs:44-66 | the size the CRC check covers is at least 20, and is the header's total size when the header is valid. Under 16 bytes is UnexpectedEof; an invalid header with a length over MAX_BODY_LEN passes on the header's error, otherwise its size is still taken from len |
| Decoder.StoredCrc | src/decoder.rs:73-80 | the stored CRC is the u32 whose little-endian bytes are the 4 bytes before the frame's end |
| Decoder.FrameDecoder.VerifyCrc32c | src/decoder.rs:41-92 | succeeds exactly when the header is valid, the buffer holds the whole frame and the trailer equals the CRC-32C of header and body. Each error in its case: UnexpectedEof for under 16 bytes or a frame that is not all there; the header's error for a length over MAX_BODY_LEN; then CrcMismatch when the trailer differs; and only then the header's own validation error |
| Decoder.FrameDecoder.BodyBytes | src/decoder.rs:96-109 | the len bytes after the header, or the header's error, or UnexpectedEof when they are not all there |
| Decoder.FrameDecoder.Body | src/decoder.rs:96-109 | a new cursor at position 0 over those bytes, or their error |
| Decoder.FrameDecoder.FrameBuffer | src/decoder.rs:113-122 | a prefix of the buffer of exactly the frame's total size, or the header's error, or UnexpectedEof |
| Decoder.BodyCursor.New | src/decoder.rs:19-24 | a cursor at the start of the bytes |
| Decoder.BodyCursor.Remaining | src/decoder.rs:128-130 | position plus remaining is the body length |
| Decoder.BodyCursor.IsAtEnd | src/decoder.rs:134-136 | true exactly when nothing remains |
| Decoder.BodyCursor.PeekBytes | src/decoder.rs:277-282 | the next n bytes, or UnexpectedEof when fewer remain |
| Decoder.BodyCursor.Skip | src/decoder.rs:140-146 | advances n bytes, or UnexpectedEof with the position unchanged |
| Decoder.BodyCursor.GetU8 | src/decoder.rs:150-157 | the next byte and one step forward, or UnexpectedEof with nothing consumed |
| Decoder.BodyCursor.GetU16 | src/decoder.rs:161-169 | the next 2 bytes read little-endian, or UnexpectedEof with nothing consumed |
| Decoder.BodyCursor.GetU32 | src/decoder.rs:173-186 | the next 4 bytes read little-endian, or UnexpectedEof with nothing consumed |
| Decoder.BodyCursor.GetU64 | src/decoder.rs:190-207 | the next 8 bytes read little-endian, or UnexpectedEof with nothing consumed |
| Decoder.BodyCursor.GetI32 | src/decoder.rs:211-213 | the next 4 bytes read as two's complement |
| Decoder.BodyCursor.GetI64 | src/decoder.rs:217-219 | the next 8 bytes read as two's complement |
| Decoder.BodyCursor.GetBitmap | src/decoder.rs:223-225 | the next 2 bytes read little-endian |
| Decoder.BodyCursor.GetBytes | src/decoder.rs:248-255 | what `peek_bytes` would return, and the position moves past it on success only |
| Decoder.BodyCursor.GetVarbytes | src/decoder.rs:231-244 | a LEB128 u32 length, then that many bytes. A bad length passes on its error without moving. Too few bytes is UnexpectedEof, with the position left after the length |
| Decoder.BodyCursor.GetVarintU32 | src/decoder.rs:259-264 | `decode_u32` of the rest, and the position moves by the bytes it consumed, on success only |
| Decoder.BodyCursor.GetVarintU64 | src/decoder.rs:268-273 | `decode_u64` of the rest, and the position moves by the bytes it consumed, on success only |
| Decoder.ReadLe | src/decoder.rs:161-207 | a little-endian read succeeds exactly when w bytes remain, and moves w bytes on |
| Decoder.ReadVarbytes | src/decoder.rs:231-244 | a varbytes read returns the bytes that end where the read ends, after a length prefix of at least one byte |
| Decoder.ReadLeOf | src/decoder.rs:161-207 | reading back a little-endian value that was written gives the value |
| Decoder.ReadVarbytesOf | src/decoder.rs:231-244 | reading back varbytes that were written gives the bytes and moves past them |
| Decoder.DecodeFinished | src/decoder.rs:41-122 | a finished frame, with anything after it: the CRC check gives the header's own validation result. When the header is valid, the decoder returns it with len set to the body length, plus the body and the whole frame |
| Decoder.IntactCrc | src/decoder.rs:41-92 | when the trailer holds the CRC of what precedes it, the check reduces to the header's validation |
| Decoder.CorruptFrame | src/decoder.rs:73-84 | a trailer that differs from the CRC of what precedes it is CrcMismatch |
| Decoder.CorruptTrailer | src/decoder.rs:391-406 | changing any byte of a finished frame's trailer makes the check fail with CrcMismatch |
| Decoder.FinishedBody | src/decoder.rs:96-122 | with a valid header, the body and the whole frame come back as written |
| Messages.MessageHeader | src/messages.rs:48-51 | a message header has the protocol's magic and version and no reserved flags. It carries the presence flag exactly when optional fields are present |
| Messages.OptionalBytes | src/messages.rs:74-79 | an absent field writes nothing; a present one writes varbytes |
| Messages.ReadOptional | src/messages.rs:116-121 | an unmarked field is absent and reads nothing; a marked one is read as varbytes |
| Messages.ReadOptionalOf | src/messages.rs:116-121 | a field written by `OptionalBytes` reads back as the same field |
| Messages.PutField | src/messages.rs:74-79 | writes what `OptionalBytes` gives |
| Messages.Start | src/messages.rs:45-53 | a new encoder over the buffer with the header written at the front, or ShortBuffer |
| Messages.Finish | src/messages.rs:82 | on success, the finished frame is at the front of the buffer, with its size returned and the rest of the buffer untouched; when it does not fit, ShortBuffer |
| Messages.GetOptional | src/messages.rs:116-121 | reads a field exactly as `ReadOptional` says, and moves the cursor past it |
| Trade.Bitmap | src/messages.rs:62-69 | bit 0 marks the symbol, bit 1 the note, and no other bit is set |
| Trade.FixedPart | src/messages.rs:56-58 | the fixed fields take 20 bytes |
| Trade.OptionalPart | src/messages.rs:61-80 | nothing is written after the fixed fields exactly when both optional fields are absent |
| Trade.Body | src/messages.rs:56-80 | a body is 20 bytes, plus a 2-byte bitmap and the varbytes of the present fields when any is present |
| Trade.EncodedFrame | src/messages.rs:36-83 | the frame is header, body and trailer |
| Trade.Encode | src/messages.rs:36-83 | `trade::encode` writes exactly the frame at the front of the buffer and returns its size, leaving the rest of the buffer untouched; ShortBuffer when the frame does not fit |
| Trade.FrameOf | src/messages.rs:48-82 | the frame is the header `encode` builds and the body, finished |
| Trade.PutBody | src/messages.rs:56-80 | writes the body after the header |
| Trade.PutFixed | src/messages.rs:56-58 | writes the fixed fields |
| Trade.PutOptional | src/messages.rs:61-80 | writes the bitmap and the present fields, or nothing |
| Trade.OptionalPartIs | src/messages.rs:61-80 | with a field present, the optional part is the bitmap and then the fields |
| Trade.PutFields | src/messages.rs:73-79 | writes the present fields in order |
| Trade.ParsedFixed | src/messages.rs:105-107 | the fixed fields read successfully exactly when the body has 20 bytes; otherwise UnexpectedEof |
| Trade.ParsedOptionals | src/messages.rs:109-122 | without the flag, no optional fields are read. With it, a missing bitmap is UnexpectedEof |
| Trade.ParsedOptionalsBits | src/messages.rs:112-122 | with the flag set, a successful read has the symbol exactly when bit 0 of the bitmap is set, and the note exactly when bit 1 is |
| Trade.ParsedBody | src/messages.rs:102-124 | the fields keep the header. Without the flag, both optional fields are absent. A body under 20 bytes is UnexpectedEof |
| Trade.DecodedFields | src/messages.rs:89-125 | errors come in the code's order: the header's first, then UnsupportedMsgType, then the CRC check's. Any success has passed the CRC check and has type TRADE_V1 |
| Trade.ReadFixed | src/messages.rs:105-107 | the cursor reads give `ParsedFixed` |
| Trade.ReadOptionals | src/messages.rs:112-122 | the cursor reads give `ParsedOptionals` |
| Trade.ReadFields | src/messages.rs:102-124 | the cursor reads give `ParsedBody` |
| Trade.Decode | src/messages.rs:89-125 | `trade::decode` returns `DecodedFields` |
| Trade.FixedRoundTrip | src/messages.rs:56-58 | the fixed fields read back as written |
| Trade.OptionalRoundTrip | src/messages.rs:61-80 | the optional part reads back as the same symbol and note |
| Trade.BodyRoundTrip | src/messages.rs:105-124 | a body read under a header that agrees with it about the flag gives the encoded fields |
| Trade.RoundTrip | src/messages.rs:217-292 | decoding an encoded trade, with anything after it, gives the same fields under the encoder's header with len set |
| Trade.FrameSize | src/messages.rs:53-82 | a trade without optional fields is a 40-byte frame; a symbol adds more than 2 bytes |
| Quote.FixedPart | src/messages.rs:162-165 | the fixed fields take 25 bytes |
| Quote.Words | src/messages.rs:162-164 | the three 8-byte fields take 24 bytes |
| Quote.OptionalPart | src/messages.rs:168-172 | nothing follows the fixed fields exactly when the symbol is absent |
| Quote.Body | src/messages.rs:162-172 | a body is 25 bytes, plus the bitmap and the symbol's varbytes when it is present |
| Quote.EncodedFrame | src/messages.rs:143-175 | the frame is header, body and trailer |
| Quote.Encode | src/messages.rs:143-175 | `quote::encode` writes exactly the frame at the front and returns its size, leaving the rest of the buffer untouched; ShortBuffer when the frame does not fit |
| Quote.FrameOf | src/messages.rs:154-174 | the frame is the header `encode` builds and the body, finished |
| Quote.PutBody | src/messages.rs:162-172 | writes the body after the header |
| Quote.PutFixed | src/messages.rs:162-165 | writes the fixed fields |
| Quote.PutWords | src/messages.rs:162-164 | writes timestamp, bid and ask |
| Quote.PutOptional | src/messages.rs:168-172 | writes bitmap 1 and the symbol, or nothing |
| Quote.ParsedFixed | src/messages.rs:194-197 | the fixed fields read successfully exactly when the body has 25 bytes; otherwise UnexpectedEof |
| Quote.ParsedSymbol | src/messages.rs:199-206 | without the flag there is no symbol; with it, a missing bitmap is UnexpectedEof |
| Quote.ParsedSymbolBit | src/messages.rs:199-206 | with the flag set, a successful read has the symbol exactly when bit 0 of the bitmap is set |
| Quote.ParsedBody | src/messages.rs:191-208 | the fields keep the header. Without the flag there is no symbol. A body under 25 bytes is UnexpectedEof |
| Quote.DecodedFields | src/messages.rs:181-209 | errors come in the code's order: the header's first, then UnsupportedMsgType, then the CRC check's. Any success has passed the CRC check and has type QUOTE_V1 |
| Quote.ReadFixed | src/messages.rs:194-197 | the cursor reads give `ParsedFixed` |
| Quote.ReadSymbol | src/messages.rs:201-206 | the cursor reads give `ParsedSymbol` |
| Quote.ReadFields | src/messages.rs:191-208 | the cursor reads give `ParsedBody` |
| Quote.Decode | src/messages.rs:181-209 | `quote::decode` returns `DecodedFields` |
| Quote.FixedRoundTrip | src/messages.rs:162-165 | the fixed fields read back as written |
| Quote.OptionalRoundTrip | src/messages.rs:168-172 | the optional part reads back as the same symbol |
| Quote.BodyRoundTrip | src/messages.rs:194-208 | a body read under a header that agrees with it about the flag gives the encoded fields |
| Quote.RoundTrip | src/messages.rs:295-342 | decoding an encoded quote, with anything after it, gives the same fields under the encoder's header with len set |
| Quote.FrameSize | src/messages.rs:159-174 | a quote without a symbol is a 45-byte frame; with a symbol it is more than 47 bytes plus the symbol's length |
| Quote.TradeIsNotQuote | src/messages.rs:345-364 | a trade frame given to the quote decoder is UnsupportedMsgType |
| Quote.QuoteIsNotTrade | src/messages.rs:345-364 | a quote frame given to the trade decoder is UnsupportedMsgType |

## Left out

- CPU feature detection and the SSE4.2 and ARM CRC instructions (`crc32c_hw_x86`, `crc32c_hw_aarch64`): they depend on the machine. In the code both hardware paths are stubs that call the software path, which is modelled.
- `Error::description` and `Display`: text formatting only.
- Decoder.BodyCursor.Skip, Decoder.BodyCursor.GetBytes, Decoder.BodyCursor.PeekBytes: the usize overflow of `pos + n` is not modelled. For n near usize::MAX the code panics in a debug build; in a release build the sum wraps, so `skip` returns Ok and moves the cursor back, while `get_bytes` and `peek_bytes` panic on the slice. The model takes n unbounded and returns UnexpectedEof with the position unchanged. No decoder in the crate passes such an n.
- Zero-copy borrowing: the slices that `decode`, `get_bytes` and `get_varbytes` return become `seq` values, so lifetimes and aliasing are not modelled.
- Frame.FrameHeader.SetFlag, Frame.FrameHeader.ClearFlag: the code changes the header in place; here they are functions returning the new header, which the caller reassigns.
- Encoder.FrameEncoder.Begin: when the header runs past the end of a buffer of 16 bytes or more, the code panics on a slice index. The model requires the caller not to do this.
- Encoder.FrameEncoder.FinishCrc32c: the length patch is not bounds-checked in the code either. The model requires room for it.
- Messages.Finish, Trade.Encode, Quote.Encode: after a ShortBuffer error, the bytes written so far are not stated.
- Trade.Bitmap: `bitmap \|= 1 << field` is modelled as adding the distinct bits 1 and 2.
- Messages.FieldSet: the bit test `bitmap & (1 << field) != 0` is stated arithmetically, by halving the bitmap `field` times and taking the remainder by 2.
- Trade.ParsedFixed, Quote.ParsedFixed: the cursor's sequence of reads is stated in closed form, as one length test and then fixed offsets. `ReadFixed` is proved to match the reads.
- The CRC is not proved linear in its data, and no error-detection guarantee is stated beyond a changed trailer byte (`Decoder.CorruptTrailer`).
- The `COMPRESSED` and `ENCRYPTED` flags are declared in the code but used nowhere; the model only knows the presence-bitmap flag and the reserved mask.
- Benchmarks, `build.rs`, the example programs and the test code are not part of the model.
