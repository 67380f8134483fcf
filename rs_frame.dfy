/**
 * proto/src/lib.rs: the Rust `Frame`.  It lays out the same fields as the C++
 * frame and hashes them with the same zero padding, but it writes the CRC32 raw,
 * after the escaped fields, and its `deserialize` hands the whole interior to
 * `Encoding::decode` and reads the fields from the result with a cursor.
 *
 * A call of `deserialize` either returns or panics (`unreachable!()` on bytes left
 * after the CRC32), so its outcome is `Returned(result)` or `Panicked`.
 */
module RsFrame {
  import opened Bytes
  import opened Wrappers
  import opened FrameDefs
  import opened Stuffing
  import opened Crc
  import opened FrameCodec
  import opened RsEncoding

  /** `SerializeError`; its `IOError` variant is left out, since writes to a `Vec<u8>` do not fail. */
  datatype RsSerializeError = CommandTooLong(len: nat)

  /**
   * `DeserializeError`.  `ExpectedFrameEnd` is declared by the source but never
   * built; `Decoding` is its `DecodeError(..)` variant.
   */
  datatype RsDeserializeError =
    | InvalidFrameBeginByte
    | InvalidFrameEndByte
    | UnexpectedEOF
    | ExpectedFrameEnd(pos: nat)
    | CRC32MissMatch(received: nat, calculated: nat)
    | Decoding(error: DecodeError)

  /** A call that returns `result`, or one that panics. */
  datatype Outcome<T> = Returned(result: T) | Panicked

  /** `get_command_len`: the data length, when a `u16` can hold it. */
  function CommandLen(f: Frame): (r: Result<nat, RsSerializeError>)
    ensures r.Ok? <==> |f.data| < 65536
    ensures r.Ok? ==> r.value == |f.data| && ToBeBytes(r.value, 2) == LengthField(f)
    ensures r.Err? ==> r.error == CommandTooLong(|f.data|)
  {
    PowValues();
    if |f.data| < 65536 then Ok(|f.data|) else Err(CommandTooLong(|f.data|))
  }

  /** `serialized_len`: the length of the wire image when no byte needs escaping. */
  function SerializedLen(f: Frame): nat
  {
    |f.data| + 10
  }

  /**
   * `iter_wire`: the slices it hands to its callback, joined: SENDER and RECEIVER
   * (`to_be_bytes` of a `u8`), DATA_LEN big-endian, then the data.  It stops with
   * `CommandTooLong` before DATA_LEN when the data is too long.
   */
  function IterWire(f: Frame): (r: Result<seq<byte>, RsSerializeError>)
  {
    match CommandLen(f)
    case Err(e) => Err(e)
    case Ok(n) =>
      PowValues();
      Ok(ToBeBytes(f.sender, 1) + ToBeBytes(f.receiver, 1) + ToBeBytes(n, 2) + f.data)
  }

  /** `iter_wire` yields exactly the C++ fields, and fails only on data too long for DATA_LEN. */
  lemma IterWireFields(f: Frame)
    ensures IterWire(f).Ok? <==> |f.data| < 65536
    ensures IterWire(f).Ok? ==> IterWire(f).value == Fields(f)
  {
    if |f.data| < 65536 {
      SingleByte(f.sender);
      SingleByte(f.receiver);
    }
  }

  /** The padding length `calculate_crc32` computes from `serialized_len`, in `usize`. */
  function RsPadding(f: Frame): (r: nat)
  {
    var len := SerializedLen(f);
    ((len + 1) / 4) * 4 - (len - 2)
  }

  /**
   * The padding is the C++ padding: fewer than four zeros, bringing the hashed
   * length to a multiple of 4.  So `&[0; 4][..padding]` never panics.
   */
  lemma PaddingAgrees(f: Frame)
    ensures RsPadding(f) == |Padding(|Fields(f)|)| && RsPadding(f) < 4
  {
    var n := |Fields(f)|;
    assert SerializedLen(f) == n + 6;
    assert |Padding(n)| == (4 - n % 4) % 4;
  }

  /** `calculate_crc32`: CRC-32/MPEG-2 over the `iter_wire` bytes, then the padding zeros. */
  function CalculateCrc32(f: Frame): (r: Result<bv32, RsSerializeError>)
  {
    match IterWire(f)
    case Err(e) => Err(e)
    case Ok(fields) => Ok(Crc32(fields + seq(RsPadding(f), _ => 0)))
  }

  /** The Rust checksum is the C++ checksum of the same frame, whenever DATA_LEN can hold the data length. */
  lemma CrcAgrees(f: Frame)
    ensures CalculateCrc32(f).Ok? <==> |f.data| < 65536
    ensures CalculateCrc32(f).Ok? ==> CalculateCrc32(f).value == FrameCrc(f)
  {
    IterWireFields(f);
    PaddingAgrees(f);
    var n := |Fields(f)|;
    assert seq(RsPadding(f), _ => 0) == Padding(n);
  }

  /**
   * The wire image `serialize` produces: `'('`, the escaped fields, the four CRC32
   * bytes big-endian and NOT escaped, `')'`; or `CommandTooLong`.
   */
  function Serialized(f: Frame): (r: Result<seq<byte>, RsSerializeError>)
  {
    if |f.data| < 65536 then Ok([BEGIN_FRAME_BYTE] + Stuff(Fields(f)) + CrcBytes(f) + [END_FRAME_BYTE])
    else Err(CommandTooLong(|f.data|))
  }

  /** The escaped fields, slice by slice in the order `iter_wire` hands them out. */
  lemma StuffedSlices(f: Frame)
    requires |f.data| < 65536
    ensures Stuff(Fields(f))
      == Stuff(ToBeBytes(f.sender, 1)) + Stuff(ToBeBytes(f.receiver, 1)) + Stuff(ToBeBytes(|f.data|, 2)) + Stuff(f.data)
  {
    PowValues();
    SingleByte(f.sender);
    SingleByte(f.receiver);
    StuffFields(f);
    LengthFieldOf(f);
  }

  /**
   * `Frame::serialize`: write `'('`, encode each `iter_wire` slice into the same
   * vector, then write the raw checksum and `')'`.
   */
  method Serialize(f: Frame) returns (r: Result<seq<byte>, RsSerializeError>)
    ensures r == Serialized(f)
  {
    PowValues();
    var out: seq<byte> := [BEGIN_FRAME_BYTE];
    var written: nat;
    out, written := Encode(out, ToBeBytes(f.sender, 1));
    out, written := Encode(out, ToBeBytes(f.receiver, 1));
    var len := CommandLen(f);
    if len.Err? {
      return Err(len.error);
    }
    out, written := Encode(out, ToBeBytes(len.value, 2));
    out, written := Encode(out, f.data);
    StuffedSlices(f);
    Join4([BEGIN_FRAME_BYTE], Stuff(ToBeBytes(f.sender, 1)), Stuff(ToBeBytes(f.receiver, 1)),
      Stuff(ToBeBytes(|f.data|, 2)), Stuff(f.data));
    CrcAgrees(f);
    var crc := CalculateCrc32(f).value;
    out := out + ToBeBytes(crc as int, 4);
    out := out + [END_FRAME_BYTE];
    return Ok(out);
  }

  /**
   * The Rust wire image is the C++ one exactly when no CRC32 byte is reserved:
   * the C++ side escapes the checksum, the Rust side does not.
   */
  lemma SerializedVsCpp(f: Frame)
    requires |f.data| < 65536
    ensures Serialized(f).value == Wire(f) <==> CountReserved(CrcBytes(f)) == 0
  {
    var c := CrcBytes(f);
    EncloseSplit(Fields(f), c);
    StuffLength(c);
    var rs := Serialized(f).value;
    var cpp := Wire(f);
    if rs == cpp {
      assert |rs| == |cpp|;
    }
  }

  /**
   * The device cannot read back what the terminal's `serialize` wrote when a
   * checksum byte needs escaping: the bytes are not the frame's wire image, so the
   * device's `deserialize_from` does not return that frame; and a raw `'('` or
   * `')'` among them makes it refuse the bytes outright.
   */
  lemma TerminalFrameRefused(g: Frame, f: Frame)
    requires |f.data| < 65536 && CountReserved(CrcBytes(f)) > 0
    ensures FromWire(g, Serialized(f).value) != (DeserializeOk, f)
    ensures (exists k :: 0 <= k < 4 && (CrcBytes(f)[k] == BEGIN_FRAME_BYTE || CrcBytes(f)[k] == END_FRAME_BYTE)) ==>
              FromWire(g, Serialized(f).value).0 != DeserializeOk
  {
    var e := Serialized(f).value;
    SerializedVsCpp(f);
    if FromWire(g, e).0 == DeserializeOk {
      var h := FromWire(g, e).1;
      WireOk(g, e);
      EncloseDelimiters(Fields(h) + CrcBytes(h));
      var c := CrcBytes(f);
      var n := |Stuff(Fields(f))|;
      forall k | 0 <= k < 4 ensures c[k] != BEGIN_FRAME_BYTE && c[k] != END_FRAME_BYTE {
        assert e[1 + n + k] == c[k];
      }
    }
  }

  /**
   * For example, the frame from sender 3 to receiver 100 with no data has CRC32
   * 0xED2F6C29, whose last byte is `')'`: the device refuses what the terminal's
   * `serialize` writes for it.
   */
  lemma RawDelimiterExample(g: Frame)
    ensures CrcBytes(Frame(3, 100, [])) == [0xED, 0x2F, 0x6C, 0x29]
    ensures FromWire(g, Serialized(Frame(3, 100, [])).value).0 != DeserializeOk
  {
    var f := Frame(3, 100, []);
    ExampleCrcBytes();
    assert IsReserved(CrcBytes(f)[3]);
    TerminalFrameRefused(g, f);
  }

  /** The checksum of the frame in `RawDelimiterExample`, one byte step at a time. */
  lemma ExampleCrc()
    ensures FrameCrc(Frame(3, 100, [])) == 0xED2F6C29
  {
    PowValues();
    var f := Frame(3, 100, []);
    ToBeBytesAt(0, 2, 0);
    ToBeBytesAt(0, 2, 1);
    assert LengthField(f) == [0, 0];
    var s: seq<byte> := [3, 100, 0, 0];
    assert Padding(4) == [];
    assert CrcInput(f) == s;
    assert s[..0] == [];
    CheckStep(s, 0, 0x03, 0xFFFFFFFF, 0xFCFFFFFF, 0x434B996D);
    CheckStep(s, 1, 0x64, 0x434B996D, 0x274B996D, 0xCDFD8BE5);
    CheckStep(s, 2, 0x00, 0xCDFD8BE5, 0xCDFD8BE5, 0x91CCF34A);
    CheckStep(s, 3, 0x00, 0x91CCF34A, 0x91CCF34A, 0xED2F6C29);
    assert s[..4] == s;
  }

  /** The big-endian bytes of 0xED2F6C29. */
  lemma ExampleCrcBytes()
    ensures CrcBytes(Frame(3, 100, [])) == [0xED, 0x2F, 0x6C, 0x29]
  {
    PowValues();
    ExampleCrc();
    var n := 0xED2F6C29;
    ToBeBytesAt(n, 4, 0);
    ToBeBytesAt(n, 4, 1);
    ToBeBytesAt(n, 4, 2);
    ToBeBytesAt(n, 4, 3);
  }

  /**
   * `serialize` as evidently intended: the checksum escaped like the fields, as
   * the protocol and the device's `serialize` have it.
   */
  function SerializedFixed(f: Frame): (r: Result<seq<byte>, RsSerializeError>)
  {
    if |f.data| < 65536 then Ok([BEGIN_FRAME_BYTE] + Stuff(Fields(f)) + Stuff(CrcBytes(f)) + [END_FRAME_BYTE])
    else Err(CommandTooLong(|f.data|))
  }

  /**
   * The corrected `serialize` writes the device's wire image of every frame it
   * accepts, so the device reads every well-formed frame the terminal sends back
   * unchanged.
   */
  lemma SerializedFixedIsWire(g: Frame, f: Frame)
    ensures SerializedFixed(f).Ok? <==> |f.data| < 65536
    ensures SerializedFixed(f).Ok? ==> SerializedFixed(f).value == Wire(f)
    ensures WellFormed(f) ==> FromWire(g, SerializedFixed(f).value) == (DeserializeOk, f)
  {
    EncloseSplit(Fields(f), CrcBytes(f));
    if WellFormed(f) {
      WireRoundTrip(g, f);
    }
  }

  /**
   * `serialized_len` counts every field byte once, so it is the length of the
   * wire image exactly when no field byte needs escaping.
   */
  lemma SerializedLength(f: Frame)
    requires |f.data| < 65536
    ensures |Serialized(f).value| == SerializedLen(f) + CountReserved(Fields(f))
    ensures |Serialized(f).value| == SerializedLen(f) <==> CountReserved(Fields(f)) == 0
  {
    StuffLength(Fields(f));
  }

  /** What the cursor reads leave: a failed read, bytes left over, or the frame and the CRC32 read. */
  datatype Parse = ParseError(error: RsDeserializeError) | ParseLeftover | ParseFrame(frame: Frame, received: nat)

  /**
   * The cursor reads of `deserialize` on the decoded bytes: SENDER, RECEIVER,
   * DATA_LEN, DATA_LEN data bytes and the CRC32, each `UnexpectedEOF` when too
   * few bytes remain, then the check that nothing is left.
   */
  function ParseFields(d: seq<byte>): (r: Parse)
  {
    if |d| < 4 then ParseError(RsDeserializeError.UnexpectedEOF)
    else
      var len := FromBeBytes(d[2..4]);
      if |d| < 4 + len + 4 then ParseError(RsDeserializeError.UnexpectedEOF)
      else if |d| != 4 + len + 4 then ParseLeftover
      else ParseFrame(Frame(d[0], d[1], d[4..4 + len]), FromBeBytes(d[4 + len..8 + len]))
  }

  /**
   * The end of `deserialize`: panic on leftover bytes, recompute the checksum
   * (its `expect` panics on failure) and compare it with the one received.
   */
  function Checked(p: Parse): (r: Outcome<Result<Frame, RsDeserializeError>>)
  {
    match p
    case ParseError(e) => Returned(Err(e))
    case ParseLeftover => Panicked
    case ParseFrame(f, received) =>
      match CalculateCrc32(f)
      case Err(_) => Panicked
      case Ok(calculated) =>
        if received == calculated as int then Returned(Ok(f))
        else Returned(Err(RsDeserializeError.CRC32MissMatch(received, calculated as int)))
  }

  /** `Frame::deserialize`: check the delimiters, decode the interior, read the fields, check the checksum. */
  function Deserialized(data: seq<byte>): (r: Outcome<Result<Frame, RsDeserializeError>>)
  {
    if data == [] || data[0] != BEGIN_FRAME_BYTE then Returned(Err(InvalidFrameBeginByte))
    else if data[|data| - 1] != END_FRAME_BYTE then Returned(Err(InvalidFrameEndByte))
    else match Decode(data[1..|data| - 1])
      case Err(e) => Returned(Err(Decoding(e)))
      case Ok((d, _)) => Checked(ParseFields(d))
  }

  /** `Cursor::read_exact`: the next `n` bytes and the position after them, or nothing when fewer remain. */
  method ReadExact(d: seq<byte>, pos: nat, n: nat) returns (r: Option<seq<byte>>, next: nat)
    requires pos <= |d|
    ensures r.Some? <==> pos + n <= |d|
    ensures r.Some? ==> r.value == d[pos..pos + n] && next == pos + n
    ensures r.None? ==> next == pos
  {
    if pos + n > |d| {
      return None, pos;
    }
    return Some(d[pos..pos + n]), pos + n;
  }

  /** `Frame::deserialize`, reading the decoded bytes through a cursor position. */
  method Deserialize(data: seq<byte>) returns (r: Outcome<Result<Frame, RsDeserializeError>>)
    ensures r == Deserialized(data)
  {
    if data == [] || data[0] != BEGIN_FRAME_BYTE {
      return Returned(Err(InvalidFrameBeginByte));
    }
    if data[|data| - 1] != END_FRAME_BYTE {
      return Returned(Err(InvalidFrameEndByte));
    }
    var dec := DecodeInto(data[1..|data| - 1]);
    if dec.Err? {
      return Returned(Err(Decoding(dec.error)));
    }
    var decoded := dec.value.0;
    r := ReadFields(decoded);
  }

  /** The cursor part of `deserialize`, from the decoded bytes on. */
  method ReadFields(decoded: seq<byte>) returns (r: Outcome<Result<Frame, RsDeserializeError>>)
    ensures r == Checked(ParseFields(decoded))
  {
    var pos := 0;
    var s, rc, l, cmd, c: Option<seq<byte>>;
    s, pos := ReadExact(decoded, pos, 1);
    if s.None? {
      return Returned(Err(RsDeserializeError.UnexpectedEOF));
    }
    rc, pos := ReadExact(decoded, pos, 1);
    if rc.None? {
      return Returned(Err(RsDeserializeError.UnexpectedEOF));
    }
    l, pos := ReadExact(decoded, pos, 2);
    if l.None? {
      return Returned(Err(RsDeserializeError.UnexpectedEOF));
    }
    var cmdLen := FromBeBytes(l.value);
    cmd, pos := ReadExact(decoded, pos, cmdLen);
    if cmd.None? {
      return Returned(Err(RsDeserializeError.UnexpectedEOF));
    }
    c, pos := ReadExact(decoded, pos, 4);
    if c.None? {
      return Returned(Err(RsDeserializeError.UnexpectedEOF));
    }
    var received := FromBeBytes(c.value);
    if pos != |decoded| {
      return Panicked;
    }
    var frame := Frame(s.value[0], rc.value[0], cmd.value);
    ghost var p := ParseFields(decoded);
    assert p == ParseFrame(frame, received);
    BeBytesRoundTrip(l.value);
    PowValues();
    CrcAgrees(frame);
    var calculated := CalculateCrc32(frame).value;
    CheckedFrame(p, frame, received, calculated);
    if received == calculated as int {
      return Returned(Ok(frame));
    }
    return Returned(Err(RsDeserializeError.CRC32MissMatch(received, calculated as int)));
  }

  /** The checksum comparison once the fields are read. */
  lemma CheckedFrame(p: Parse, frame: Frame, received: nat, calculated: bv32)
    requires p == ParseFrame(frame, received) && CalculateCrc32(frame) == Ok(calculated)
    ensures received == calculated as int ==> Checked(p) == Returned(Ok(frame))
    ensures received != calculated as int ==>
              Checked(p) == Returned(Err(RsDeserializeError.CRC32MissMatch(received, calculated as int)))
  {
  }

  /**
   * The cursor reads take apart SENDER, RECEIVER, a DATA_LEN naming the length of
   * the data, the data and four checksum bytes.
   */
  lemma ParseLayout(sender: byte, receiver: byte, lf: seq<byte>, data: seq<byte>, c: seq<byte>)
    requires |lf| == 2 && |c| == 4 && FromBeBytes(lf) == |data|
    ensures ParseFields([sender, receiver] + lf + data + c) == ParseFrame(Frame(sender, receiver, data), FromBeBytes(c))
  {
    var d := [sender, receiver] + lf + data + c;
    var len := |data|;
    assert |d| == 8 + len;
    assert d[2..] == lf + data + c;
    SplitAt(d, 2, lf, data + c);
    SplitAt(d, 4, data, c);
    assert d[4 + len..8 + len] == d[4 + len..];
  }

  /** The cursor reads take a frame's fields followed by the four big-endian bytes of `n` apart again. */
  lemma ParseOf(f: Frame, n: nat)
    requires |f.data| < 65536 && n < Pow256(4)
    ensures ParseFields(Fields(f) + ToBeBytes(n, 4)) == ParseFrame(f, n)
  {
    PowValues();
    ToBeBytesAt(n, 4, 0);
    LengthFieldOf(f);
    BeRoundTrip(|f.data|, 2);
    BeRoundTrip(n, 4);
    ParseLayout(f.sender, f.receiver, LengthField(f), f.data, ToBeBytes(n, 4));
  }

  /** Conversely, the reads yield a frame only from its fields followed by four checksum bytes. */
  lemma ParseFrameOnly(d: seq<byte>)
    requires ParseFields(d).ParseFrame?
    ensures var p := ParseFields(d);
      && |p.frame.data| < 65536 && p.received < Pow256(4) && d == Fields(p.frame) + ToBeBytes(p.received, 4)
  {
    PowValues();
    var p := ParseFields(d);
    var len := FromBeBytes(d[2..4]);
    assert d[4 + len..8 + len] == d[4 + len..];
    BeBytesRoundTrip(d[2..4]);
    BeBytesRoundTrip(d[4 + len..]);
    assert |p.frame.data| == len;
    LengthFieldOf(p.frame);
    Reassemble(d, p.frame, p.received);
  }

  /** Input whose last byte is `0x1B` never decodes: the extra decoding of that byte finds no second byte. */
  lemma DecodeEndsInEscape(data: seq<byte>)
    requires data != [] && data[|data| - 1] == ESCAPE_BYTE
    ensures Decode(data).Err?
  {
    DecodeWindowCases([data[|data| - 1]]);
  }

  /**
   * Delimiters around escaped bytes `x` followed by raw bytes `c` free of `0x1B`:
   * `deserialize` reads its fields from `x + c`.
   */
  lemma DeserializedStuffed(x: seq<byte>, c: seq<byte>)
    requires c != [] && forall k :: 0 <= k < |c| ==> c[k] != ESCAPE_BYTE
    ensures Deserialized([BEGIN_FRAME_BYTE] + Stuff(x) + c + [END_FRAME_BYTE]) == Checked(ParseFields(x + c))
  {
    Interior(BEGIN_FRAME_BYTE, Stuff(x), c, END_FRAME_BYTE);
    DecodeStuffed(x, c);
  }

  /**
   * Round trip: `deserialize` restores a frame from what `serialize` wrote when no
   * CRC32 byte is `0x1B`.  A raw `'('` or `')'` in the checksum does no harm,
   * since only the first and last byte are taken as delimiters.
   */
  lemma RoundTrip(f: Frame)
    requires |f.data| < 65536 && forall k :: 0 <= k < 4 ==> CrcBytes(f)[k] != ESCAPE_BYTE
    ensures Deserialized(Serialized(f).value) == Returned(Ok(f))
  {
    PowValues();
    var crc := FrameCrc(f);
    DeserializedStuffed(Fields(f), CrcBytes(f));
    ParseOf(f, crc as int);
    CrcAgrees(f);
    CheckedFrame(ParseFrame(f, crc as int), f, crc as int, crc);
  }

  /**
   * Exactly when the terminal reads back its own frame: when no checksum byte is
   * `0x1B`, or when the only one is the third byte and `0x41` follows it, where
   * `decode` takes the pair for an escaped `0x1B` and then re-decodes the `0x41`.
   * Any other `0x1B` among the raw checksum bytes loses the frame.
   */
  lemma RoundTripIff(f: Frame)
    requires |f.data| < 65536
    ensures Deserialized(Serialized(f).value) == Returned(Ok(f)) <==> RawReadable(CrcBytes(f))
  {
    var c := CrcBytes(f);
    var data := Serialized(f).value;
    Interior(BEGIN_FRAME_BYTE, Stuff(Fields(f)), c, END_FRAME_BYTE);
    DecodeAfterImageBack(Fields(f), c);
    DecodeRaw(c);
    if RawReadable(c) {
      ReadableRead(f);
    } else if Deserialized(data) == Returned(Ok(f)) {
      DeserializedOk(data, f);
    }
  }

  /** A frame whose interior decodes to its fields and checksum is read back. */
  lemma ReadableRead(f: Frame)
    requires |f.data| < 65536
    requires var data := Serialized(f).value;
      Decode(data[1..|data| - 1]).Ok? && Decode(data[1..|data| - 1]).value.0 == Fields(f) + CrcBytes(f)
    ensures Deserialized(Serialized(f).value) == Returned(Ok(f))
  {
    PowValues();
    var crc := FrameCrc(f);
    ParseOf(f, crc as int);
    CrcAgrees(f);
    CheckedFrame(ParseFrame(f, crc as int), f, crc as int, crc);
  }

  /**
   * A wire image carrying the fields of `f` and a checksum value `n` other than the
   * frame's own (with no `0x1B` among its bytes) is refused with `CRC32MissMatch`,
   * reporting both values.
   */
  lemma MismatchReported(f: Frame, n: nat)
    requires |f.data| < 65536 && n < Pow256(4) && n != FrameCrc(f) as int
    requires forall k :: 0 <= k < 4 ==> ToBeBytes(n, 4)[k] != ESCAPE_BYTE
    ensures Deserialized([BEGIN_FRAME_BYTE] + Stuff(Fields(f)) + ToBeBytes(n, 4) + [END_FRAME_BYTE])
      == Returned(Err(RsDeserializeError.CRC32MissMatch(n, FrameCrc(f) as int)))
  {
    ToBeBytesAt(n, 4, 0);
    DeserializedStuffed(Fields(f), ToBeBytes(n, 4));
    ParseOf(f, n);
    CrcAgrees(f);
    CheckedFrame(ParseFrame(f, n), f, n, FrameCrc(f));
  }

  /**
   * Because the checksum goes out raw, a frame whose last CRC32 byte is `0x1B`
   * cannot be read back: `deserialize` fails with a decoding error.
   */
  lemma ChecksumEndingInEscapeLost(f: Frame)
    requires |f.data| < 65536 && CrcBytes(f)[3] == ESCAPE_BYTE
    ensures Deserialized(Serialized(f).value).Returned?
    ensures Deserialized(Serialized(f).value).result.Err?
    ensures Deserialized(Serialized(f).value).result.error.Decoding?
  {
    var c := CrcBytes(f);
    Interior(BEGIN_FRAME_BYTE, Stuff(Fields(f)), c, END_FRAME_BYTE);
    LastOfAppend(Stuff(Fields(f)), c);
    DecodeEndsInEscape(Stuff(Fields(f)) + c);
  }

  /**
   * `deserialize` returns a frame only from a delimited input whose interior
   * decodes to that frame's fields and its checksum.
   */
  lemma DeserializedOk(data: seq<byte>, f: Frame)
    requires Deserialized(data) == Returned(Ok(f))
    ensures |data| >= 2 && data[0] == BEGIN_FRAME_BYTE && data[|data| - 1] == END_FRAME_BYTE
    ensures |f.data| < 65536
    ensures Decode(data[1..|data| - 1]).Ok? && Decode(data[1..|data| - 1]).value.0 == Fields(f) + CrcBytes(f)
  {
    PowValues();
    var d := Decode(data[1..|data| - 1]).value.0;
    var p := ParseFields(d);
    ParseFrameOnly(d);
    CrcAgrees(p.frame);
  }

  /** Delimiters around bytes free of `0x1B`: `deserialize` reads its fields from those bytes as they are. */
  lemma DeserializedPlain(x: seq<byte>)
    requires forall k :: 0 <= k < |x| ==> x[k] != ESCAPE_BYTE
    ensures Deserialized([BEGIN_FRAME_BYTE] + x + [END_FRAME_BYTE]) == Checked(ParseFields(x))
  {
    Enclosed(BEGIN_FRAME_BYTE, x, END_FRAME_BYTE);
    DecodePlain(x);
  }

  /**
   * `deserialize` panics exactly when the decoded bytes hold a whole header, data
   * and checksum and more bytes after them.
   */
  lemma LeftoverWhen(d: seq<byte>)
    ensures Checked(ParseFields(d)) == Panicked <==> |d| >= 4 && |d| > 8 + FromBeBytes(d[2..4])
  {
    var p := ParseFields(d);
    if p.ParseFrame? {
      PowValues();
      BeBytesRoundTrip(d[2..4]);
    }
    CheckedPanics(p);
  }

  /** Past the reads, the only panic left is the one on leftover bytes, since DATA_LEN bounds the data. */
  lemma CheckedPanics(p: Parse)
    ensures Checked(p) == Panicked <==> p.ParseLeftover? || (p.ParseFrame? && |p.frame.data| >= 65536)
  {
    if p.ParseFrame? {
      CrcAgrees(p.frame);
    }
  }

  /**
   * An example of the panic: `'('`, a header announcing no data, four checksum
   * bytes, one byte too many and `')'`.
   */
  lemma LeftoverPanics()
    ensures Deserialized([BEGIN_FRAME_BYTE, 0, 0, 0, 0, 1, 2, 3, 4, 5, END_FRAME_BYTE]) == Panicked
  {
    var inner: seq<byte> := [0, 0, 0, 0, 1, 2, 3, 4, 5];
    assert [BEGIN_FRAME_BYTE] + inner + [END_FRAME_BYTE] == [BEGIN_FRAME_BYTE, 0, 0, 0, 0, 1, 2, 3, 4, 5, END_FRAME_BYTE];
    DeserializedPlain(inner);
    OneByteTooMany(inner);
  }

  /** The decoded bytes of the example: no data announced, nine bytes present. */
  lemma OneByteTooMany(d: seq<byte>)
    requires d == [0, 0, 0, 0, 1, 2, 3, 4, 5]
    ensures Checked(ParseFields(d)) == Panicked
  {
    SingleByte(0);
    assert d[2..4] == [0, 0];
    assert FromBeBytes([0, 0]) == 0;
    LeftoverWhen(d);
  }

  /**
   * Delimiters around the escaped image of `x` whose last byte needs no escape:
   * `deserialize` reads its fields from `x`.
   */
  lemma DeserializedEscaped(x: seq<byte>)
    requires x == [] || !IsReserved(x[|x| - 1])
    ensures Deserialized([BEGIN_FRAME_BYTE] + Stuff(x) + [END_FRAME_BYTE]) == Checked(ParseFields(x))
  {
    Enclosed(BEGIN_FRAME_BYTE, Stuff(x), END_FRAME_BYTE);
    DecodeStuff(x);
  }

  /**
   * The terminal reads a frame the device wrote (every byte escaped, the checksum
   * included) back to that frame, unless its last checksum byte needs escaping.
   */
  lemma DeviceFrameRead(f: Frame)
    requires |f.data| < 65536 && !IsReserved(CrcBytes(f)[3])
    ensures Deserialized(Wire(f)) == Returned(Ok(f))
  {
    PowValues();
    var crc := FrameCrc(f);
    DeserializedEscaped(Fields(f) + CrcBytes(f));
    ParseOf(f, crc as int);
    CrcAgrees(f);
    CheckedFrame(ParseFrame(f, crc as int), f, crc as int, crc);
  }

  /** Bytes after a frame's fields and four checksum bytes are leftover bytes. */
  lemma ParseExtra(f: Frame, c: seq<byte>, extra: seq<byte>)
    requires |f.data| < 65536 && |c| == 4 && extra != []
    ensures ParseFields(Fields(f) + c + extra) == ParseLeftover
  {
    PowValues();
    var d := Fields(f) + c + extra;
    assert d[2..4] == LengthField(f);
    LengthFieldOf(f);
    BeRoundTrip(|f.data|, 2);
  }

  /**
   * A frame the device wrote whose last checksum byte is `0x1B`, `'('` or `')'`
   * makes `deserialize` panic: the decoder emits the substitute byte that ends the
   * input a second time, and the byte left over reaches `unreachable!()`.
   */
  lemma DeviceFramePanics(f: Frame)
    requires |f.data| < 65536 && IsReserved(CrcBytes(f)[3])
    ensures Deserialized(Wire(f)) == Panicked
  {
    var x := Fields(f) + CrcBytes(f);
    Enclosed(BEGIN_FRAME_BYTE, Stuff(x), END_FRAME_BYTE);
    LastOfAppend(Fields(f), CrcBytes(f));
    DecodeReEmits(x);
    ParseExtra(f, CrcBytes(f), [Substitute(CrcBytes(f)[3]).value]);
  }
}
