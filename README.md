# Serial frame protocol of the STM32 PWM controller

This project models the byte-stuffed serial framing protocol that a PWM
controller board and its desktop terminal use to exchange commands.

A frame carries one message:

    ( SENDER RECEIVER DATA_LEN DATA CRC32 )

- The fields are big-endian.
- DATA holds at most 1268 bytes.
- CRC32 is the MPEG-2 variant of CRC-32, computed over the four leading fields padded with zeros to a multiple of four bytes.
- Every byte of the four fields and of CRC32 that is `0x1B`, `(` or `)` is sent as `0x1B` followed by `0x41`, `0x42` or `0x43`.
- The delimiters `(` and `)` therefore appear only at the two ends of a frame.

The model covers both ends of the link.

- **Device side (C++).**
  - `proto_cpp`:
    - the escape table and the constants;
    - the fixed-capacity vector `StaticVec`;
    - the ring buffer `CircularBuffer`;
    - the byte-order helpers;
    - escaping and unescaping;
    - CRC-32;
    - `Frame::serialize_into`;
    - both overloads of `Frame::deserialize_from`, from a flat span and straight out of a ring buffer.
  - The firmware's receive path:
    - `GetFrame` cuts the next frame out of the receive ring;
    - `HandlePendingCommands` answers, in order, the frames `GetFrame` returns before its first none that are addressed to the device and hold at least one word;
    - `ParseCommands` and `Split` break a payload into words;
    - `ExecuteCommand` looks the command up and checks its argument count.
  - The firmware's transmit path: `UART_puts`, the TX-complete interrupt, `SendData` and `SendString`.
- **Terminal side (Rust).**
  - The `proto` crate's `Encoding` trait, with `encode` and `decode`.
  - The crate's `Frame` methods: `serialize`, `deserialize`, `calculate_crc32`, `get_command_len`, `serialized_len` and `iter_wire`.
  - The terminal's `FrameBuilder`, which re-assembles frames from the bytes the serial port delivers.

**How the model is shaped:**
- Pure code becomes functions and lemmas.
- Code that updates state in place becomes classes with fields:
  - `StaticVec` and `CircularBuffer` keep their arrays;
  - the transmit handler keeps its ring and its `busy` flag;
  - `FrameBuilder` keeps its buffer as a sequence.
- Each method that loops is proved against a function that states its result.
- The properties are proved about those functions.

**The main results:**
- The device's frames round-trip:
  - through the flat decoder (`FrameCodec.WireRoundTrip`);
  - through the ring decoder (`RingDecode.RingRoundTrip`);
  - through `GetFrame`, with any noise before the frame (`CommandHandler.ExtractRoundTrip`).
- Decoding succeeds only on exact frame images (`FrameCodec.WireOk`, `RingDecode.RingOk`).
- A corrupted byte is caught by the checksum (`FrameCodec.CorruptedByteRejected`).
- `HandlePendingCommands` answers, in order, the frames `GetFrame` returns before its first none.
  - A frame for the device that holds a word is answered through `ExecuteCommand` (`CommandHandler.PendingAnswers`); one for another device is consumed unanswered (`CommandHandler.PendingSkips`).
  - The call ends at the first candidate that fails: an interrupted `(` (`CommandHandler.PendingInterrupted`) or a frame that does not deserialize (`CommandHandler.PendingRejected`). A whole frame behind it waits for the next call.
- Every byte `SendData` queues reaches the UART, in order (`UsartTx.TxHandler.SendData`).

The Rust half behaves differently from the C++ half in three places. The model keeps each difference as written and states it as a lemma.

- **The checksum is written unescaped.**
  - `serialize` writes CRC32 without escaping it.
  - Its output equals the device's frame exactly when no checksum byte needs escaping (`RsFrame.SerializedVsCpp`).
  - The terminal reads its own frame back exactly when no checksum byte is `0x1B`, or when the only one is the third byte and `0x41` follows it (`RsFrame.RoundTripIff`). In that one case the double decode below cancels the raw `0x1B`. A checksum ending in `0x1B` never decodes (`RsFrame.ChecksumEndingInEscapeLost`).
  - The device does not read back a frame whose checksum has a reserved byte, and refuses it outright when a checksum byte is `(` or `)` (`RsFrame.TerminalFrameRefused`, `RsFrame.RawDelimiterExample`).
  - See Findings.
- **`decode` decodes the last input byte a second time.**
  - It does so even when that byte was the second half of an escape pair.
  - The decoded output then carries one extra byte (`RsEncoding.DecodeReEmits`).
  - See Findings.
- **Leftover bytes panic.**
  - `deserialize` panics through `unreachable!` when bytes are left over after CRC32 (`RsFrame.LeftoverWhen`).
  - Combined with the double decode, the terminal panics on a device frame whose last checksum byte needs escaping (`RsFrame.DeviceFramePanics`, `SerialCom.DeviceFrameDelivered`).
  - A panic is modelled as the `Panicked` outcome.

The C++ code also has quirks, which the model keeps as written.
- An empty ring reports its capacity as its size (`CircularBuffers.RingSize`).
- `push_slice` always returns 0 (`StaticVecs.StaticVec.PushSlice`).
- `decode_bytes` ignores a full output vector (`Stuffing.DecodeBytes`).
- `deserialize_from_decoded` also refuses a data length that leaves no byte after the data (`FrameCodec.DataLengthOk`).

**Representation choices:**
- A byte is an `int` in `[0, 256)`.
- Native byte order is taken to be little-endian, as on the STM32 target and on x86.
- `deserialize_from` updates the frame it is called on. The model returns the error together with the frame as it is afterwards.
- `HAL_UART_Transmit_IT` is recorded in a ghost sequence of the bytes handed to the UART.

## Model

| member | source | states |
|---|---|---|
| FrameDefs.DataMaxSizeValue | proto_cpp/include/frame.h:29-36 | The largest payload is 1280 − 10 − 2 = 1268 bytes. |
| FrameDefs.DeserializeCode | proto_cpp/include/frame.h:38-61 | Each deserialization error has a code below 9, and only `DeserializeOk` has code 0. |
| FrameDefs.SerializeCode | proto_cpp/include/frame.h:63-71 | Each serialization error has a code below 3, and only `SerializeOk` has code 0. |
| FrameDefs.CodesInjective | proto_cpp/include/frame.h:38-71 | No two errors of either enumeration share a code. |
| FrameDefs.FrameEquals | proto_cpp/src/frame.cpp:357-364 | `operator==` holds exactly when sender, receiver and the data contents are equal. |
| FrameDefs.FindEntry | proto_cpp/src/frame.cpp:114-121 | A table scan returns a row whose searched column holds the key. It returns none only when no row holds the key. |
| FrameDefs.FindEntryFirst | proto_cpp/src/frame.cpp:114-121 | The row found is the first one holding the key, as `std::find_if` returns it. |
| FrameDefs.Substitute | proto_cpp/include/frame.h:21-27 | The escape table maps `0x1B`, `(` and `)` to `0x41`, `0x42` and `0x43`, and maps no other byte. |
| FrameDefs.Reserved | proto_cpp/include/frame.h:21-27 | Read backwards, the table maps `0x41`, `0x42` and `0x43` back to `0x1B`, `(` and `)`, and maps no other byte. |
| FrameDefs.EscapeTableInvertible | proto_cpp/include/frame.h:21-27 | Both columns of the table are duplicate-free. A byte has a substitute exactly when it is reserved. The substitute maps back to the byte, and a substitute is never itself reserved. |
| Bytes.Reverse | proto_cpp/include/bytes.h:14-16 | `std::reverse`: byte `i` of the result is byte `n-1-i` of the input. |
| Bytes.ReverseReverse | proto_cpp/include/bytes.h:42-54 | Reversing twice gives back the input, so `from_be_bytes` undoes the reversal in `to_be_bytes`. |
| Bytes.NativeBytesAt | proto_cpp/include/bytes.h:12 | `bit_cast` on a little-endian target puts digit `i` of the number in base 256 at byte `i`. |
| Bytes.FromNative | proto_cpp/include/bytes.h:53 | A byte array read back by `bit_cast` gives a number below 256^width. |
| Bytes.NativeRoundTrip | proto_cpp/include/bytes.h:53 | Reading back the bytes of `n` gives `n`. |
| Bytes.NativeOfFromNative | proto_cpp/include/bytes.h:53 | Writing out the number read from an array gives the array back. |
| Bytes.ToBeBytesAt | proto_cpp/include/bytes.h:10-24 | Byte `i` of `to_be_bytes(n)` is digit `width-1-i` of `n`, so the most significant byte comes first. |
| Bytes.ToLeBytesAt | proto_cpp/include/bytes.h:26-40 | Byte `i` of `to_le_bytes(n)` is digit `i` of `n`. |
| Bytes.LeIsReversedBe | proto_cpp/include/bytes.h:10-40 | The little-endian bytes are the big-endian bytes reversed. |
| Bytes.BeRoundTrip | proto_cpp/include/bytes.h:10-54 | `from_be_bytes(to_be_bytes(n)) == n`. |
| Bytes.LeRoundTrip | proto_cpp/include/bytes.h:26-68 | `from_le_bytes(to_le_bytes(n)) == n`. |
| Bytes.BeBytesRoundTrip | proto_cpp/include/bytes.h:10-54 | `to_be_bytes(from_be_bytes(s)) == s`, so the big-endian reading of `s` is its only preimage. |
| Bytes.SingleByte | proto_cpp/include/bytes.h:10-68 | A one-byte field is the byte itself in either byte order. |
| StaticVecs.Fit | proto_cpp/include/static_vec.h:63-70 | Pushing past capacity keeps the longest prefix that fits. |
| StaticVecs.FitAppend | proto_cpp/include/static_vec.h:37-47 | Filling a vector with `a` and then with `b` leaves the same contents as filling it with `a + b`. |
| StaticVecs.StaticVec.Span | proto_cpp/include/static_vec.h:92-98 | `span()` has `head` elements. |
| StaticVecs.StaticVec.Size | proto_cpp/include/static_vec.h:84-86 | `size()` is the length of `span()` and never exceeds the capacity. |
| StaticVecs.StaticVec.constructor | proto_cpp/include/static_vec.h:57 | A new vector is empty and has the requested capacity. |
| StaticVecs.StaticVec.Seeded | proto_cpp/include/static_vec.h:58-61 | `StaticVec(init)` holds just `init`. |
| StaticVecs.StaticVec.PushBack | proto_cpp/include/static_vec.h:63-70 | Below capacity, the value is appended and none is returned. At capacity, the value comes back and the contents are unchanged. |
| StaticVecs.StaticVec.PopBack | proto_cpp/include/static_vec.h:72-78 | Removes and returns the last element, or returns none on an empty vector. |
| StaticVecs.StaticVec.Clear | proto_cpp/include/static_vec.h:80-82 | The vector becomes empty. |
| StaticVecs.StaticVec.PushSlice | proto_cpp/include/static_vec.h:37-47 | Appends as much of the slice as fits and returns 0, whatever it appended. |
| CircularBuffers.Live | proto_cpp/include/circular_buffer.h:77-83 | The stored bytes, from `tail` up to `head`, number `(head - tail) mod SIZE`. |
| CircularBuffers.LiveElems | proto_cpp/include/circular_buffer.h:30-51 | Stored byte `k` sits at slot `(tail + k) mod SIZE`. |
| CircularBuffers.RingSize | proto_cpp/include/circular_buffer.h:77-83 | `getSize` is the number of stored bytes, except that an empty ring reports `SIZE`. |
| CircularBuffers.Next | proto_cpp/include/circular_buffer.h:31 | Advancing an index wraps around to 0 after the last slot. |
| CircularBuffers.LiveGrow | proto_cpp/include/circular_buffer.h:30-40 | When the ring is not full, advancing `head` appends the byte at the old `head` to the stored bytes. |
| CircularBuffers.LiveShrink | proto_cpp/include/circular_buffer.h:42-51 | When the ring is not empty, advancing `tail` removes exactly the first stored byte. |
| CircularBuffers.LiveEmpty | proto_cpp/include/circular_buffer.h:43 | The ring is empty exactly when `head == tail`. |
| CircularBuffers.FullAt | proto_cpp/include/circular_buffer.h:31-32 | The ring holds `SIZE - 1` bytes exactly when the next `head` would reach `tail`. |
| CircularBuffers.HeadNotLive | proto_cpp/include/circular_buffer.h:53-55 | The slot `getNextAddr` points at never holds a stored byte. |
| CircularBuffers.CircularBuffer.constructor | proto_cpp/include/circular_buffer.h:89-91 | A new ring is empty, with `head == tail == 0`. |
| CircularBuffers.CircularBuffer.PushHead | proto_cpp/include/circular_buffer.h:30-40 | When the ring is not full, the byte is appended to the stored bytes. When it is full, the byte comes back and nothing changes. |
| CircularBuffers.CircularBuffer.PopTail | proto_cpp/include/circular_buffer.h:42-51 | Returns and removes the oldest stored byte, or returns none on an empty ring. |
| CircularBuffers.CircularBuffer.NextAddr | proto_cpp/include/circular_buffer.h:53-55 | Returns the free slot at `head`, which holds no stored byte. |
| CircularBuffers.CircularBuffer.AdvanceHead | proto_cpp/include/circular_buffer.h:57-63 | `head` moves to the next slot and the byte at the old `head` is appended. On a full ring `tail` moves to its next slot too, dropping the oldest byte, so the ring is never left looking empty. |
| CircularBuffers.CircularBuffer.GetSize | proto_cpp/include/circular_buffer.h:77-83 | The number of stored bytes, or `SIZE` when the ring is empty. |
| Stuffing.StuffByte | proto_cpp/src/frame.cpp:13-26 | A reserved byte becomes two bytes starting with `0x1B`. Any other byte stays as one byte. The image never contains a delimiter. |
| Stuffing.Stuff | proto_cpp/src/frame.cpp:31-35 | Escaping at most doubles the length. |
| Stuffing.StuffNoDelimiters | proto_cpp/src/frame.cpp:13-35 | No escaped sequence contains `(` or `)`. |
| Stuffing.StuffAppend | proto_cpp/src/frame.cpp:31-35 | Escaping a concatenation concatenates the escaped parts, so fields can be escaped one at a time. |
| Stuffing.CountReserved | proto_cpp/src/frame.cpp:14-22 | The count of reserved bytes is 0 exactly when no byte is reserved. |
| Stuffing.StuffLength | proto_cpp/src/frame.cpp:13-35 | The escaped length is the input length plus the number of reserved bytes. With no reserved byte, escaping changes nothing. |
| Stuffing.DecodeByte | proto_cpp/src/frame.cpp:99-134 | The error cases of `decode_byte`: empty input and a lone `0x1B` are `UnexpectedEOF`, an unknown escape is `InvalidEscapeSequence`, and a bare delimiter is `InvalidByte`. On success it reads 1 or 2 bytes. |
| Stuffing.DecodeByteImage | proto_cpp/src/frame.cpp:99-134 | The bytes a successful `decode_byte` read are exactly the escaped image of the byte it returned. |
| Stuffing.DecodeEncodeByte | proto_cpp/src/frame.cpp:99-134 | `decode_byte` on an escaped byte followed by anything returns that byte and the length of its image. |
| Stuffing.Unstuff | proto_cpp/src/frame.cpp:140-157 | `decode_bytes` fails only with the errors of `decode_byte`. On success the input is the escaped image of the output. |
| Stuffing.UnstuffStuff | proto_cpp/src/frame.cpp:140-157 | Decoding the escaped image of any bytes succeeds and gives those bytes back. |
| Stuffing.UnstuffOkIff | proto_cpp/src/frame.cpp:140-157 | Decoding succeeds exactly on the inputs that are escaped images. |
| Stuffing.EscapedByRow | proto_cpp/src/frame.cpp:14-21 | A byte found in the table is sent as `0x1B` followed by its table entry. |
| Stuffing.NotEscaped | proto_cpp/src/frame.cpp:24-25 | A byte found in no row is sent as itself. |
| Stuffing.EncodeByte | proto_cpp/src/frame.cpp:13-26 | `encode_byte` appends the byte's escaped image to the vector, cut to its capacity. |
| Stuffing.EncodeBytes | proto_cpp/src/frame.cpp:31-35 | `encode_bytes` appends the escaped image of all the data, cut to capacity. |
| Stuffing.DecodeBytes | proto_cpp/src/frame.cpp:140-157 | Returns the error of the whole decode. Appends the bytes decoded before any error, cut to capacity, because rejected pushes are ignored. |
| Crc.ShiftStepMeaning | proto_cpp/src/frame.cpp:321-325 | One inner step shifts left, then xors in `0x04C11DB7` exactly when the top bit was set. |
| Crc.Crc32Calculate | proto_cpp/src/frame.cpp:313-329 | The loop computes `Crc32`: init `0xFFFFFFFF`, each byte xored into the top 8 bits followed by eight steps, and no final complement. |
| Crc.UnshiftShift | proto_cpp/src/frame.cpp:321-325 | One step can be undone, because the low bit shows whether the polynomial was applied. |
| Crc.ShiftsInjective | proto_cpp/src/frame.cpp:321-325 | Any number of steps maps distinct registers to distinct registers. |
| Crc.CrcUpdateInjective | proto_cpp/src/frame.cpp:318-326 | Distinct registers stay distinct after any input. |
| Crc.CrcUpdateAppend | proto_cpp/src/frame.cpp:318-326 | The checksum of `a + b` continues the checksum of `a` with `b`. |
| Crc.ByteErrorDetected | proto_cpp/src/frame.cpp:313-329 | Changing any single byte of the input changes the checksum. |
| Crc.CheckValue | proto_cpp/src/frame.cpp:313-329 | The checksum of `"123456789"` is `0x0376E6E7`, the check value of CRC-32/MPEG-2. |
| FrameCodec.LengthFieldOf | proto_cpp/src/frame.cpp:54 | DATA_LEN is the payload length as two big-endian bytes. |
| FrameCodec.FieldsAsBytes | proto_cpp/src/frame.cpp:42-61 | The unescaped fields are SENDER, RECEIVER, the payload length truncated to `uint16_t` and big-endian, then DATA. |
| FrameCodec.Padding | proto_cpp/src/frame.cpp:348-351 | The padding is the fewest zero bytes that bring the length to a multiple of 4. |
| FrameCodec.CrcInput | proto_cpp/src/frame.cpp:339-351 | The checksummed buffer is the fields followed by fewer than 4 zeros, and its length is a multiple of 4. |
| FrameCodec.ComputeCrc | proto_cpp/src/frame.cpp:331-355 | `Frame::crc32` is the CRC of the padded fields. |
| FrameCodec.Enclose | proto_cpp/src/frame.cpp:70-89 | A framed payload starts with `(`, ends with `)`, and is at most twice the payload plus 2 bytes long. |
| FrameCodec.EncloseDelimiters | proto_cpp/src/frame.cpp:70-89 | Inside a framed payload there is no `(` and no `)`. |
| FrameCodec.Wire | proto_cpp/include/frame.h:73-84 | A wire image is at least `FRAME_MIN_SIZE` bytes plus the payload length. |
| FrameCodec.WireBound | proto_cpp/src/frame.cpp:63-68 | A frame that passes the size check has a wire image of at most 2·1276 + 2 bytes. |
| FrameCodec.SerializeFields | proto_cpp/src/frame.cpp:42-61 | Appends the escaped fields, cut to capacity, and returns `SerializeOk`. |
| FrameCodec.SerializeInto | proto_cpp/src/frame.cpp:63-92 | An oversized payload gives `FrameTooLongError` and writes nothing. Otherwise it appends the wire image, cut to capacity, and returns `BufferTooSmall` exactly when the image does not fit. |
| FrameCodec.DeserializeField | proto_cpp/src/frame.cpp:165-179 | Fails with `UnexpectedEOF` exactly when too few bytes remain. Otherwise it advances by the width and returns the number whose big-endian bytes were read. |
| FrameCodec.DeserializeFromDecoded | proto_cpp/src/frame.cpp:266-311 | The method computes `FromDecoded`, the error and updated frame of `deserialize_from_decoded`. |
| FrameCodec.DeserializeFrom | proto_cpp/src/frame.cpp:181-202 | The method computes `FromWire`, the error and updated frame of the flat `deserialize_from`. |
| FrameCodec.FieldAt | proto_cpp/src/frame.cpp:165-179 | A field stored big-endian is read back as its value. |
| FrameCodec.ChecksumAt | proto_cpp/src/frame.cpp:297-303 | Reading CRC32 yields the stored value. It fails with `ExpectedEOF` when bytes follow it. |
| FrameCodec.HeaderOf | proto_cpp/src/frame.cpp:275-281 | The header of a frame's fields sets the sender and receiver and hands over the data length. |
| FrameCodec.DecodedWithChecksum | proto_cpp/src/frame.cpp:266-311 | On fields followed by a checksum and extra bytes, the result is `ExpectedEOF` if there are extra bytes, `CRC32MissMatch` if the checksum differs from the frame's CRC, and `DeserializeOk` otherwise. The frame is taken over in every case. |
| FrameCodec.DecodedRoundTrip | proto_cpp/src/frame.cpp:266-311 | The fields of a well-formed frame followed by its CRC deserialize to that frame. |
| FrameCodec.HeaderOk | proto_cpp/src/frame.cpp:275-282 | A successful parse read SENDER, RECEIVER and a 16-bit DATA_LEN from the first four bytes. |
| FrameCodec.DataLengthOk | proto_cpp/src/frame.cpp:283-295 | After a successful parse, the data length is at most 1268, the data is exactly the next DATA_LEN bytes, and exactly four bytes follow it. |
| FrameCodec.ParsedOk | proto_cpp/src/frame.cpp:266-303 | A successful parse yields a well-formed frame, and the input is exactly its fields followed by the big-endian checksum read. |
| FrameCodec.DecodedOk | proto_cpp/src/frame.cpp:266-311 | Success means the input is exactly the fields and the CRC of the frame produced. |
| FrameCodec.WireRoundTrip | proto_cpp/src/frame.cpp:181-202 | Deserializing the wire image of any well-formed frame succeeds and gives that frame. |
| FrameCodec.WireOk | proto_cpp/src/frame.cpp:181-202 | Deserialization succeeds only on the exact wire image of the frame it produces. |
| FrameCodec.EncloseOf | proto_cpp/src/frame.cpp:186-195 | Input delimited by `(` and `)` whose interior is an escaped image is the framing of that image. |
| FrameCodec.CorruptedByteRejected | proto_cpp/src/frame.cpp:305-307 | A frame whose fields differ from another's in one byte has a different CRC, so it is refused with `CRC32MissMatch` when it carries the other frame's checksum. |
| RingDecode.LastSlot | proto_cpp/src/frame.cpp:223-225 | The slot before `head`, so that the next slot is `head`. |
| RingDecode.Window | proto_cpp/src/frame.cpp:238-240 | The window holds the byte at `idx` and the byte after it, wrapping around the ring. |
| RingDecode.DeserializeFromRing | proto_cpp/src/frame.cpp:205-264 | The method computes `RingFrom`, the error and updated frame of `deserialize_from(ICircularBuffer&)`. |
| RingDecode.DecodeRing | proto_cpp/src/frame.cpp:228-256 | The decoding loop over the ring computes `Walk` from the slot after `tail`. |
| RingDecode.WalkTurn | proto_cpp/src/frame.cpp:237-256 | One turn of the loop stops on a decode error, stops with `DataTooBig` on a full output, and otherwise advances by the bytes read. |
| RingDecode.WalkLands | proto_cpp/src/frame.cpp:258-263 | When the loop ends, the bytes decoded so far are accepted if it stopped on `)`, and `UnexpectedEOF` results otherwise. |
| RingDecode.RingFromErr | proto_cpp/src/frame.cpp:205-256 | A ring that starts with `(` and holds at least 10 bytes gives the loop's error when the loop fails, and the frame is left untouched. |
| RingDecode.RingFromOk | proto_cpp/src/frame.cpp:258-260 | When the loop succeeds, the result is `deserialize_from_decoded` on the decoded bytes. |
| RingDecode.WalkStuffed | proto_cpp/src/frame.cpp:237-256 | Walking over the escaped image of `q` followed by `)` appends exactly `q`. |
| RingDecode.WalkToEnd | proto_cpp/src/frame.cpp:237-256 | Walking up to the first `)`: on success the output is extended by bytes whose escaped image is exactly what was walked over. It fails only with `InvalidByte`, `InvalidEscapeSequence` or `DataTooBig`. |
| RingDecode.RingRoundTrip | proto_cpp/src/frame.cpp:204-264 | A ring whose stored bytes start with the wire image of a well-formed frame deserializes to that frame. |
| RingDecode.RingOk | proto_cpp/src/frame.cpp:204-264 | Success means the stored bytes up to the first `)` are exactly the wire image of the frame produced. |
| CommandHandler.Extract | Projekt/Core/Src/command_handler.cpp:32-91 | `GetFrame` consumes at most the stored bytes, and consumes at least one when it returns a frame. |
| CommandHandler.ExtractAt | Projekt/Core/Src/command_handler.cpp:41-90 | The four outcomes, named by the first `(` and the first delimiter after it:<br>• with no `(`, the ring is emptied;<br>• with no delimiter, `tail` stops at the `(`;<br>• a second `(` moves `tail` there;<br>• a `)` consumes through it and yields the frame read from the `(`. |
| CommandHandler.CandidateOf | Projekt/Core/Src/command_handler.cpp:76-90 | A frame is returned exactly when `deserialize_from` reports `DeserializeOk`, and it is the frame that was read. |
| CommandHandler.LiveDrop | Projekt/Core/Src/command_handler.cpp:41-44 | Moving `tail` forward by `k` slots drops exactly the first `k` stored bytes. |
| CommandHandler.LivePosition | Projekt/Core/Src/command_handler.cpp:42-55 | Slot `tail + k` reaches `head` exactly when all stored bytes have been passed. |
| CommandHandler.SkipToBegin | Projekt/Core/Src/command_handler.cpp:41-44 | `tail` moves to the first stored `(`, or to `head` if there is none. |
| CommandHandler.FindDelimiter | Projekt/Core/Src/command_handler.cpp:54-67 | The scan stops at the first `(` or `)` after the begin byte, or at `head`. |
| CommandHandler.ScanStep | Projekt/Core/Src/command_handler.cpp:55-66 | Passing a byte that is neither delimiter keeps the scan's invariant. |
| CommandHandler.GetFrame | Projekt/Core/Src/command_handler.cpp:32-91 | The method returns `Extract`'s frame and leaves `tail` after the bytes `Extract` consumes. |
| CommandHandler.ExtractOutcome | Projekt/Core/Src/command_handler.cpp:54-80 | Where the scan stops decides `GetFrame`'s outcome: at `head`, `tail` stays at the `(`; at a second `(`, `tail` moves there; at `)`, the frame is read and `tail` moves past it. |
| CommandHandler.ExtractRoundTrip | Projekt/Core/Src/command_handler.cpp:32-91 | When the stored bytes are noise without `(`, then a frame's wire image, then anything, `GetFrame` returns that frame and consumes the noise and the image. |
| CommandHandler.ExtractFound | Projekt/Core/Src/command_handler.cpp:32-91 | A returned frame is the ring decode from the first `(`, which is followed by no delimiter before the `)` that ends the consumed bytes. |
| CommandHandler.ExtractShape | Projekt/Core/Src/command_handler.cpp:41-90 | A returned frame comes from the first `(` and the first `)` after it, and the bytes through that `)` are consumed. |
| CommandHandler.Pending | Projekt/Core/Src/command_handler.cpp:164-189 | `HandlePendingCommands` leaves `tail` inside the ring. |
| CommandHandler.PendingAt | Projekt/Core/Src/command_handler.cpp:164-189 | The loop stops at the first call of `GetFrame` that returns none. Otherwise it answers the frame and continues on strictly fewer stored bytes. |
| CommandHandler.HandlePendingCommands | Projekt/Core/Src/command_handler.cpp:164-189 | The method sends the answers `Pending` lists, in order, and leaves `tail` where `Pending` says. |
| CommandHandler.PendingFrame | Projekt/Core/Src/command_handler.cpp:164-189 | A frame preceded only by noise is answered first, and handling continues after its image. |
| CommandHandler.PendingOnce | Projekt/Core/Src/command_handler.cpp:166-187 | When `GetFrame` returns a frame, that frame's answer comes before the answers to what follows it. |
| CommandHandler.PendingSkips | Projekt/Core/Src/command_handler.cpp:172-175 | A frame for another device is consumed without an answer. |
| CommandHandler.PendingAnswers | Projekt/Core/Src/command_handler.cpp:177-187 | A frame for this device holding a word gets one answer, sent to its sender and computed by `ExecuteCommand` on its words. |
| CommandHandler.PendingInterrupted | Projekt/Core/Src/command_handler.cpp:55-64 | A `(` followed by a second `(` before any `)` ends the call with no answer and `tail` at the second `(`, whatever follows it. |
| CommandHandler.PendingRejected | Projekt/Core/Src/command_handler.cpp:78-90 | A delimited candidate that does not deserialize ends the call with no answer and `tail` past its `)`, whatever follows it. |
| Commands.FirstOf | Projekt/Core/Src/command_handler.cpp:105 | `std::find` returns the first position holding the delimiter, or the end. |
| Commands.FirstOfAt | Projekt/Core/Src/command_handler.cpp:105 | Any position that holds the delimiter, with none before it, is what `std::find` returns. |
| Commands.Split | Projekt/Core/Src/command_handler.cpp:99-114 | The chunks passed to the callback, in order, are `Chunks(s, delim)`. |
| Commands.SplitJoin | Projekt/Core/Src/command_handler.cpp:99-114 | Joining the chunks with the delimiter gives the input back, and there is at least one chunk. |
| Commands.SplitPieces | Projekt/Core/Src/command_handler.cpp:99-114 | No chunk contains the delimiter. |
| Commands.SplitCount | Projekt/Core/Src/command_handler.cpp:99-114 | There is one more chunk than there are delimiters. |
| Commands.SplitUnique | Projekt/Core/Src/command_handler.cpp:99-114 | Any delimiter-free chunks that join to the input are the chunks `Split` produces. |
| Commands.NonEmpty | Projekt/Core/Src/command_handler.cpp:121-125 | Dropping empty chunks never adds any. |
| Commands.NonEmptyShape | Projekt/Core/Src/command_handler.cpp:121-125 | Kept chunks are non-empty and still delimiter-free. |
| Commands.ParseCommands | Projekt/Core/Src/command_handler.cpp:119-132 | Returns none exactly when the payload has no words, and the words otherwise. |
| Commands.WordsConcat | Projekt/Core/Src/command_handler.cpp:119-132 | The words, concatenated, are the payload with its spaces removed. |
| Commands.WordsShape | Projekt/Core/Src/command_handler.cpp:119-132 | Each word is non-empty and contains no space. |
| Commands.NoWords | Projekt/Core/Src/command_handler.cpp:127-131 | A payload has no words exactly when it is all spaces, including when it is empty. |
| Commands.UnspacedSpaces | Projekt/Core/Src/command_handler.cpp:121-125 | Removing the spaces leaves nothing exactly when every byte is a space. |
| Commands.Lookup | Projekt/Core/Src/command_handler.cpp:145-148 | `std::find_if` returns the first entry with the name, and none exactly when no entry has it. |
| Commands.NamesDistinct | Projekt/Core/Src/command_handler.cpp:24-30 | No two commands share a name. |
| Commands.ExecuteCommand | Projekt/Core/Src/command_handler.cpp:137-161 | No words, or an unknown first word, give `UNKNOWN_COMMAND`. Otherwise a number of further words outside the command's bounds gives `INVALID_ARGUMENT`, and anything else calls the command's callback with all the words. |
| UsartTx.Min | Projekt/Core/Src/usart_tx_handler.cpp:18 | `MIN` returns the smaller operand. |
| UsartTx.Outgoing | Projekt/Core/Src/usart_tx_handler.cpp:46-51 | The frame built is well formed, sent by `LOCAL_ID` to the receiver. Its data is a prefix of the message, the whole message when it fits. |
| UsartTx.OutgoingFits | Projekt/Core/Src/usart_tx_handler.cpp:53-58 | Its wire image always fits the 2560-byte `serialized` buffer, so the error return is never taken. |
| UsartTx.SerializeOutgoing | Projekt/Core/Src/usart_tx_handler.cpp:46-58 | The bytes serialized are the wire image of that frame. |
| UsartTx.TxHandler.constructor | Projekt/Core/Src/usart_tx_handler.cpp:22-23 | The handler starts idle, with nothing queued or sent. |
| UsartTx.TxHandler.Fill | Projekt/Core/Src/usart_tx_handler.cpp:79-83 | Queues the longest prefix of `v` the free space allows, behind what is already queued. |
| UsartTx.TxHandler.UartPuts | Projekt/Core/Src/usart_tx_handler.cpp:70-93 | Queues as many bytes as fit and returns how many. The bytes the UART will send are extended by exactly those bytes. |
| UsartTx.TxHandler.TxComplete | Projekt/Core/Src/usart_tx_handler.cpp:25-43 | The interrupt drops the byte just sent and hands the next one to the UART. It does not change the bytes still to be sent. |
| UsartTx.TxHandler.PutAll | Projekt/Core/Src/usart_tx_handler.cpp:60-63 | The loop queues every byte of `v`, in order. |
| UsartTx.TxHandler.SendData | Projekt/Core/Src/usart_tx_handler.cpp:46-64 | The UART will send exactly the wire image of the outgoing frame after what it already had. |
| UsartTx.TxHandler.SendString | Projekt/Core/Src/usart_tx_handler.cpp:66-68 | Sends the bytes before the first zero. |
| RsEncoding.EncodeUnitAgrees | proto/src/encoding.rs:72-78 | The Rust `encode` of a byte is the C++ escaped image. |
| RsEncoding.OriginalAgrees | proto/src/encoding.rs:84-86 | Reading the Rust table backwards agrees with the C++ table. |
| RsEncoding.DecodeWindow | proto/src/encoding.rs:81-93 | A window decode consumes 1 or 2 bytes, never more than the window. |
| RsEncoding.DecodeWindowCases | proto/src/encoding.rs:81-93 | A plain byte decodes to itself. A lone `0x1B` is `UnexpectedEOF`. An unknown escape is `InvalidEscapeSequence` carrying both bytes. A known escape decodes to its original. |
| RsEncoding.WindowsBounds | proto/src/encoding.rs:49-59 | The window loop stops on the last byte or just past the end. |
| RsEncoding.WindowsStep | proto/src/encoding.rs:51-59 | One turn of the loop writes the decoded byte and skips the windows its escape pair covers. |
| RsEncoding.DecodeEdges | proto/src/encoding.rs:47-69 | Empty input decodes to nothing. A lone `0x1B` is an unexpected end. `0x1B` before a byte that is no substitute is an invalid escape. |
| RsEncoding.Encode | proto/src/encoding.rs:34-45 | Writes the escaped image of the data and returns its length. |
| RsEncoding.DecodeInto | proto/src/encoding.rs:47-69 | The method computes `Decode`: the bytes written and the count it returns. |
| RsEncoding.DecodePlain | proto/src/encoding.rs:47-69 | Input without `0x1B` decodes to itself. |
| RsEncoding.DecodeStuffed | proto/src/encoding.rs:47-69 | An escaped image followed by bytes other than `0x1B` decodes correctly. |
| RsEncoding.DecodeStuff | proto/src/encoding.rs:47-69 | The escaped image of bytes whose last byte is not reserved decodes back to them. |
| RsEncoding.DecodeReEmits | proto/src/encoding.rs:61-66 | The escaped image of bytes ending in a reserved byte decodes to them plus one extra byte, that byte's substitute, and counts one byte too many. |
| RsEncoding.DecodeEscapePair | proto/src/encoding.rs:61-66 | For example, the image `[0x1B, 0x41]` of `0x1B` decodes to `[0x1B, 0x41]`. |
| RsEncoding.DecodeFixedStuff | proto/src/encoding.rs:47-69 | The corrected decoder inverts `encode` on every input. |
| RsEncoding.DecodeFixedAgrees | proto/src/encoding.rs:61-66 | Where the loop leaves the last byte unconsumed, the corrected decoder is the decoder as written. |
| RsEncoding.DecodeAfterImage | proto/src/encoding.rs:47-69 | After escaped bytes, `decode` goes on as it would on the rest alone: the same output after them, or the same error. |
| RsEncoding.DecodeAfterImageBack | proto/src/encoding.rs:47-69 | Escaped bytes followed by a tail decode back exactly when the tail alone does. |
| RsEncoding.DecodeRaw | proto/src/encoding.rs:47-69 | Four raw bytes decode to themselves exactly when none is `0x1B`, or the only one is the third byte and `0x41` follows it. |
| RsFrame.CommandLen | proto/src/lib.rs:171-177 | `get_command_len` succeeds exactly when the payload length fits in `u16`, and then gives the DATA_LEN field. |
| RsFrame.IterWireFields | proto/src/lib.rs:184-197 | `iter_wire` visits exactly the C++ fields, and fails only on a payload too long for `u16`. |
| RsFrame.PaddingAgrees | proto/src/lib.rs:164-166 | The Rust padding formula gives the C++ zero padding, always fewer than 4 bytes. |
| RsFrame.CrcAgrees | proto/src/lib.rs:155-169 | `calculate_crc32` is the C++ frame CRC whenever DATA_LEN is representable. |
| RsFrame.Serialize | proto/src/lib.rs:71-84 | The method computes `Serialized`. |
| RsFrame.SerializedVsCpp | proto/src/lib.rs:80 | The Rust image equals the C++ image exactly when no checksum byte is reserved, because the checksum goes out unescaped. |
| RsFrame.TerminalFrameRefused | proto/src/lib.rs:80 | When a checksum byte is reserved, the device's `deserialize_from` does not return the frame the terminal serialized. It fails outright when a checksum byte is `(` or `)`. |
| RsFrame.RawDelimiterExample | proto/src/lib.rs:80 | The frame from 3 to 100 with no data has CRC32 0xED2F6C29, and the device refuses the terminal's image of it. |
| RsFrame.SerializedFixedIsWire | proto/src/lib.rs:71-84 | `serialize` with the checksum escaped writes the device's wire image, which the device reads back as the same frame. |
| RsFrame.SerializedLength | proto/src/lib.rs:179-182 | The image is `serialized_len` plus the number of reserved field bytes, so `serialized_len` is exact only when there are none. |
| RsFrame.ReadExact | proto/src/lib.rs:104 | `read_exact` succeeds exactly when enough bytes remain, returns them, and advances the cursor by that much. |
| RsFrame.ReadFields | proto/src/lib.rs:100-153 | Reading the decoded fields computes `Checked(ParseFields(...))`. |
| RsFrame.Deserialize | proto/src/lib.rs:87-153 | The method computes `Deserialized`, including its panics. |
| RsFrame.CheckedFrame | proto/src/lib.rs:141-152 | A parsed frame is returned when the checksum matches. Otherwise `CRC32MissMatch` carries the received and calculated values. |
| RsFrame.ParseLayout | proto/src/lib.rs:103-125 | The parse splits its input into sender, receiver, DATA_LEN, the data and four checksum bytes. |
| RsFrame.ParseOf | proto/src/lib.rs:103-125 | The fields of a frame followed by four checksum bytes parse to that frame and that checksum. |
| RsFrame.ParseFrameOnly | proto/src/lib.rs:103-133 | A parse that yields a frame read exactly its fields and a 4-byte checksum. |
| RsFrame.ParseExtra | proto/src/lib.rs:127-133 | Bytes after the checksum are leftover. |
| RsFrame.DecodeEndsInEscape | proto/src/encoding.rs:61-66 | Input ending in `0x1B` never decodes. |
| RsFrame.RoundTrip | proto/src/lib.rs:71-153 | A frame whose checksum has no `0x1B` byte survives `serialize` then `deserialize`. |
| RsFrame.RoundTripIff | proto/src/lib.rs:71-153 | A frame survives `serialize` then `deserialize` exactly when its raw checksum decodes to itself: no `0x1B`, or only a third-byte `0x1B` before `0x41`. |
| RsFrame.ChecksumEndingInEscapeLost | proto/src/lib.rs:80 | A frame whose last checksum byte is `0x1B` cannot be read back: decoding its image fails. |
| RsFrame.MismatchReported | proto/src/lib.rs:145-152 | A wrong checksum is reported with both values. |
| RsFrame.DeserializedOk | proto/src/lib.rs:87-153 | Success means the input is delimited and its interior decodes to exactly the frame's fields and CRC. |
| RsFrame.DeserializedPlain | proto/src/lib.rs:96-98 | Without `0x1B` in the interior, the interior is parsed as it is. |
| RsFrame.DeserializedStuffed | proto/src/lib.rs:96-98 | An escaped image followed by plain bytes is parsed as the original bytes. |
| RsFrame.DeserializedEscaped | proto/src/lib.rs:96-98 | An escaped image whose last original byte is not reserved is parsed as the original bytes. |
| RsFrame.LeftoverWhen | proto/src/lib.rs:127-133 | The parse panics exactly when more than `8 + DATA_LEN` bytes were decoded. |
| RsFrame.CheckedPanics | proto/src/lib.rs:127-143 | A panic comes exactly from leftover bytes, or from a parsed payload too long for `u16`. |
| RsFrame.LeftoverPanics | proto/src/lib.rs:127-133 | For example, `( 0 0 0 0 1 2 3 4 5 )` makes `deserialize` panic. |
| RsFrame.OneByteTooMany | proto/src/lib.rs:127-133 | For example, nine decoded bytes with a zero DATA_LEN panic. |
| RsFrame.DeviceFrameRead | proto/src/lib.rs:87-153 | The terminal reads back a device frame whose last checksum byte is not reserved. |
| RsFrame.DeviceFramePanics | proto/src/lib.rs:96-133 | The terminal panics on a device frame whose last checksum byte is reserved. |
| SerialCom.FrameBuilder.constructor | terminal/src/serial_com.rs:177-181 | A new builder has an empty buffer. |
| SerialCom.FrameBuilder.PushByte | terminal/src/serial_com.rs:199-236 | The new buffer and the result are those of `Pushed`. |
| SerialCom.FrameBuilder.PushBuf | terminal/src/serial_com.rs:183-197 | The new buffer and the frames returned are those of `Feed`, which pushes every byte in turn. |
| SerialCom.FeedNext | terminal/src/serial_com.rs:186-190 | Pushing one more byte extends the frames with what that byte yields. |
| SerialCom.PushedKeeps | terminal/src/serial_com.rs:199-236 | Between calls the buffer is empty, or an opened frame with no delimiter, shorter than 1280 bytes. |
| SerialCom.PushedDelivers | terminal/src/serial_com.rs:209-223 | A frame is returned exactly when `)` closes a non-empty buffer that deserializes to it. |
| SerialCom.PushedPanics | terminal/src/serial_com.rs:209-219 | A panic happens exactly when `)` closes a buffer that makes `deserialize` panic. |
| SerialCom.FeedKeeps | terminal/src/serial_com.rs:183-197 | Feeding any bytes keeps the buffer invariant. |
| SerialCom.FeedAppend | terminal/src/serial_com.rs:183-197 | Feeding `a + c` is feeding `a` and then `c`, with the frames concatenated, and a panic stops everything. |
| SerialCom.FeedOpen | terminal/src/serial_com.rs:199-236 | `(` followed by fewer than 1279 non-delimiter bytes leaves them buffered, whatever came before. |
| SerialCom.Segment | terminal/src/serial_com.rs:199-236 | A short delimited segment yields what `deserialize` yields on it. |
| SerialCom.FeedIdle | terminal/src/serial_com.rs:224-227 | Bytes arriving with no frame open are dropped. |
| SerialCom.Overflow | terminal/src/serial_com.rs:229-231 | A frame reaching 1280 buffered bytes is dropped. |
| SerialCom.DeviceFrameDelivered | terminal/src/serial_com.rs:183-236 | A device frame of at most 1280 wire bytes is delivered when its last checksum byte is not reserved, and causes a panic otherwise. |
| SerialCom.DeviceFrameDropped | terminal/src/serial_com.rs:229-231 | A longer device frame is dropped silently. |

## Left out

- I/O errors of the Rust writer and reader (`SerializeError::IOError`, `DecodeError::IOError`): the writer is a `Vec<u8>` and the reader a `Cursor`, so these cannot occur.
- `DeserializeError::ExpectedFrameEnd`: no code path constructs it.
- The `Vec` capacity of 1512 in `FrameBuilder::new`: capacity does not change behaviour.
- The `log::info!` calls and the commented-out print in `push_buf`.
- The rest of `terminal/src/serial_com.rs`: serial-port I/O and the async device handler.
- The `crc` crate: `CRC_32_MPEG_2` is modelled by `Crc.Crc32`, the same algorithm as `crc32_calculate`. The crate itself is not part of this model.
- The command callbacks (`CmdPwmOn` … `CmdStatus`): they live in `Projekt/Core/Src/commands.cpp`, which is not part of this model. `ExecuteCommand` names the callback it would call and does not run it.
- `Projekt/Core/Src/usart_rx_handler.cpp`, which fills the receive ring: it is not part of this model, so the ring's contents are a parameter.
- Interrupt masking and concurrency:
  - `__disable_irq` and `__enable_irq` make `GetFrame` and `UART_puts` atomic, and the model treats them as atomic;
  - the TX-complete interrupt runs only where `PutAll` calls it.
- UsartTx.TxHandler.PutAll: the busy-wait in `SendData` makes progress only through the TX-complete interrupt. The model runs that interrupt once after each `UART_puts` call that queued nothing.
- The `huart != &huart2` guard in `HAL_UART_TxCpltCallback`: there is one UART.
- CommandHandler.HandlePendingCommands: it returns the answers instead of calling `SendData` on each. `UsartTx.TxHandler.SendData` models what that call transmits.
- `size_t`, `u16` and `u32` arithmetic:
  - indices are unbounded integers, and the rings and buffers involved are far below any wrap-around;
  - the `uint16_t` cast of the data length is modelled as `% 65536`;
  - the CRC register is a `bv32`.
- FrameCodec.DeserializeFrom: `deserialize_from` updates `*this` in place. The model returns the updated frame alongside the error. The same holds for `RingDecode.DeserializeFromRing` and `FrameCodec.DeserializeFromDecoded`.
- `IStaticVec` and `ICircularBuffer` are interfaces with one implementation each, so the classes model the implementations directly.

## Findings

| source | as written | input that shows it | evidently intended | confidence | as-written member | corrected member |
|---|---|---|---|---|---|---|
| proto/src/lib.rs:80 | `serialize` writes the four CRC32 bytes raw, while the fields and the device's own frames escape them | The frame from sender 3 to receiver 100 with no data has CRC32 0xED2F6C29. Its raw `0x29` is a `)` inside the frame, so the device's `deserialize_from` refuses the bytes. A raw `0x1B`, unless it is the third byte and `0x41` follows it, makes the terminal's own `deserialize` fail | Escape the checksum like the fields, so that the image is the device's wire image | not executed | RsFrame.RawDelimiterExample | RsFrame.SerializedFixedIsWire |
| proto/src/encoding.rs:61-66 | After the window loop, `decode` decodes the last input byte again, even when the loop already consumed it as the second half of an escape pair | `decode([0x1B, 0x41])`, the image of the single byte `0x1B`, writes `[0x1B, 0x41]` and returns 3. A device frame whose last checksum byte is `0x1B`, `0x28` or `0x29` then leaves a byte over after CRC32, and `Frame::deserialize` panics at `unreachable!()` | Decode the last byte only when the loop left it unconsumed, so that `decode` inverts `encode` | not executed | RsEncoding.DecodeEscapePair | RsEncoding.DecodeFixedStuff |

The terminal's frame model (`RsFrame`, `SerialCom`) keeps the decoder as written, so that its lemmas describe what the terminal does. `RsFrame.DeviceFramePanics` is the consequence of the bug for device frames. `RsEncoding.DecodeFixed` is the corrected decoder:
- it inverts escaping for every input (`RsEncoding.DecodeFixedStuff`);
- it agrees with the decoder as written wherever the bug cannot occur (`RsEncoding.DecodeFixedAgrees`).

The terminal's `Serialize` method also stays as written. `RsFrame.SerializedFixed` is the corrected serializer: it writes the device's wire image of every frame it accepts (`RsFrame.SerializedFixedIsWire`), so the device reads every well-formed frame the terminal sends back unchanged.
