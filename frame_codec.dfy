/**
 * The flat frame codec of proto_cpp/src/frame.cpp: the field layout
 * (`serialize_fields`), the frame checksum (`Frame::crc32`), `serialize_into`, the
 * field reader `deserialize<T>`, `deserialize_from_decoded` and the
 * `deserialize_from` overload that takes a contiguous byte span.
 *
 * On the wire a frame is `'('`, the escaped bytes SENDER RECEIVER DATA_LEN DATA
 * CRC32 (all big-endian), and `')'`.
 */
module FrameCodec {
  import opened Bytes
  import opened Wrappers
  import opened FrameDefs
  import opened StaticVecs
  import opened Stuffing
  import opened Crc

  lemma PowValues()
    ensures Pow256(1) == 256 && Pow256(2) == 65536 && Pow256(4) == 4294967296
  {
  }

  /** DATA_LEN: `(std::uint16_t)data.size()`, big-endian. */
  function LengthField(f: Frame): (r: seq<byte>)
    ensures |r| == 2
  {
    PowValues();
    ToBeBytes(|f.data| % 65536, 2)
  }

  /** SENDER RECEIVER DATA_LEN DATA, before escaping. */
  function Fields(f: Frame): (r: seq<byte>)
    ensures |r| == 4 + |f.data|
  {
    [f.sender, f.receiver] + LengthField(f) + f.data
  }

  predicate Aligned(m: int)
  {
    m % 4 == 0
  }

  /** The fewest zero bytes that bring a length `n` to a multiple of 4. */
  function Padding(n: nat): (r: seq<byte>)
    ensures |r| < 4 && Aligned(n + |r|)
    ensures forall m :: n <= m < n + |r| ==> !Aligned(m)
    ensures forall i :: 0 <= i < |r| ==> r[i] == 0
  {
    seq((4 - n % 4) % 4, _ => 0)
  }

  /** What `Frame::crc32` hashes: the fields padded with zeros to a multiple of 4. */
  function CrcInput(f: Frame): (r: seq<byte>)
    ensures Aligned(|r|) && Fields(f) <= r && |r| < |Fields(f)| + 4
  {
    Fields(f) + Padding(|Fields(f)|)
  }

  /** `Frame::crc32()`. */
  function FrameCrc(f: Frame): bv32
  {
    Crc32(CrcInput(f))
  }

  /** CRC32 as it goes on the wire, before escaping: four bytes, big-endian. */
  function CrcBytes(f: Frame): (r: seq<byte>)
    ensures |r| == 4
  {
    PowValues();
    ToBeBytes(FrameCrc(f) as int, 4)
  }

  /** A payload escaped and put between the delimiters. */
  function Enclose(payload: seq<byte>): (r: seq<byte>)
    ensures |payload| + 2 <= |r| <= 2 * |payload| + 2
    ensures r[0] == BEGIN_FRAME_BYTE && r[|r| - 1] == END_FRAME_BYTE
  {
    [BEGIN_FRAME_BYTE] + Stuff(payload) + [END_FRAME_BYTE]
  }

  /** The delimiters of an enclosed payload are its first and last bytes and no others. */
  lemma EncloseDelimiters(payload: seq<byte>)
    ensures var r := Enclose(payload);
      forall i :: 0 < i < |r| - 1 ==> r[i] != BEGIN_FRAME_BYTE && r[i] != END_FRAME_BYTE
  {
    StuffNoDelimiters(payload);
    var r := Enclose(payload);
    forall i | 0 < i < |r| - 1
      ensures r[i] != BEGIN_FRAME_BYTE && r[i] != END_FRAME_BYTE
    {
      assert r[i] == Stuff(payload)[i - 1];
    }
  }

  /** The complete serialized frame. */
  function Wire(f: Frame): (r: seq<byte>)
    ensures |r| >= FRAME_MIN_SIZE + |f.data|
  {
    Enclose(Fields(f) + CrcBytes(f))
  }

  /** Escaping at most doubles the fields and checksum, so a frame needs at most 2554 bytes. */
  lemma WireBound(f: Frame)
    requires WellFormed(f)
    ensures |Wire(f)| <= 2 * (FRAME_MAX_SIZE - 4) + 2
  {
  }

  /** The fields as `Frame::crc32` copies them: each through `to_be_bytes`. */
  lemma FieldsAsBytes(f: Frame)
    ensures Fields(f) == ToBeBytes(f.sender, 1) + ToBeBytes(f.receiver, 1) + ToBeBytes(|f.data| % 65536, 2) + f.data
  {
    PowValues();
    SingleByte(f.sender);
    SingleByte(f.receiver);
  }

  /** Below the padded length, the next byte of the checksum input is a zero. */
  lemma PaddingStep(f: Frame, k: nat)
    requires |Fields(f)| <= k < |CrcInput(f)|
    ensures CrcInput(f)[..k] + [0] == CrcInput(f)[..k + 1]
  {
    assert CrcInput(f)[k] == Padding(|Fields(f)|)[k - |Fields(f)|];
  }

  /** The padding loop stops exactly at the end of the checksum input. */
  lemma PaddingEnd(f: Frame, k: nat)
    requires |Fields(f)| <= k <= |CrcInput(f)| && Aligned(k)
    ensures k == |CrcInput(f)|
  {
  }

  /**
   * `Frame::crc32`: copy the fields into a `StaticVec<uint8_t, FRAME_MAX_SIZE>`,
   * append zeros until the length is a multiple of 4, and run `crc32_calculate`.
   */
  method ComputeCrc(f: Frame) returns (crc: bv32)
    requires WellFormed(f)
    ensures crc == FrameCrc(f)
  {
    PowValues();
    var buf := new StaticVec<byte>(FRAME_MAX_SIZE);
    ghost var sender, receiver, length := ToBeBytes(f.sender, 1), ToBeBytes(f.receiver, 1), ToBeBytes(|f.data| % 65536, 2);
    var _ := buf.PushSlice(ToBeBytes(f.sender, 1));
    assert buf.Span() == sender;
    var _ := buf.PushSlice(ToBeBytes(f.receiver, 1));
    assert buf.Span() == sender + receiver;
    var _ := buf.PushSlice(ToBeBytes(|f.data| % 65536, 2));
    assert buf.Span() == sender + receiver + length;
    var _ := buf.PushSlice(f.data);
    FieldsAsBytes(f);
    assert buf.Span() == Fields(f);
    ghost var input := CrcInput(f);
    assert buf.Span() == input[..|Fields(f)|];
    while buf.Size() % 4 != 0
      invariant buf.Valid() && buf.Capacity() == FRAME_MAX_SIZE
      invariant |Fields(f)| <= buf.Size() <= |input| && buf.Span() == input[..buf.Size()]
      decreases |input| - buf.Size()
    {
      if buf.Size() == |input| {
        assert false;
      }
      PaddingStep(f, buf.Size());
      var _ := buf.PushBack(0);
    }
    PaddingEnd(f, buf.Size());
    assert buf.Span() == input;
    crc := Crc32Calculate(buf.Span());
  }

  /** Escaping the fields field by field is escaping them all at once. */
  lemma {:induction false} StuffFields(f: Frame)
    ensures Stuff(Fields(f)) == Stuff([f.sender]) + Stuff([f.receiver]) + Stuff(LengthField(f)) + Stuff(f.data)
  {
    StuffAppend([f.sender], [f.receiver]);
    StuffAppend([f.sender] + [f.receiver], LengthField(f));
    StuffAppend([f.sender] + [f.receiver] + LengthField(f), f.data);
    assert [f.sender] + [f.receiver] + LengthField(f) + f.data == Fields(f);
  }

  /** Four pushes in a row keep what one push of the four pieces would. */
  lemma FitChain<T>(s0: seq<T>, a: seq<T>, b: seq<T>, c: seq<T>, d: seq<T>, cap: nat)
    ensures Fit(Fit(Fit(Fit(s0 + a, cap) + b, cap) + c, cap) + d, cap) == Fit(s0 + (a + b + c + d), cap)
  {
    FitAppend(s0 + a, b, cap);
    FitAppend(s0 + a + b, c, cap);
    FitAppend(s0 + a + b + c, d, cap);
    assert s0 + a + b + c + d == s0 + (a + b + c + d);
  }

  /** `serialize_fields`: each field through `to_be_bytes` and `encode_bytes`; it always succeeds. */
  method SerializeFields(f: Frame, out: StaticVec<byte>) returns (err: SerializeError)
    requires out.Valid()
    modifies out, out.inner
    ensures out.Valid() && err == SerializeOk
    ensures out.Span() == Fit(old(out.Span()) + Stuff(Fields(f)), out.Capacity())
  {
    PowValues();
    SingleByte(f.sender);
    SingleByte(f.receiver);
    ghost var s0 := out.Span();
    var sender, receiver, len := ToBeBytes(f.sender, 1), ToBeBytes(f.receiver, 1), ToBeBytes(|f.data| % 65536, 2);
    EncodeBytes(sender, out);
    ghost var s1 := out.Span();
    EncodeBytes(receiver, out);
    ghost var s2 := out.Span();
    EncodeBytes(len, out);
    ghost var s3 := out.Span();
    EncodeBytes(f.data, out);
    FitChain(s0, Stuff(sender), Stuff(receiver), Stuff(len), Stuff(f.data), out.Capacity());
    StuffFields(f);
    err := SerializeOk;
  }

  /** An enclosed payload split as `serialize_into` pushes it. */
  lemma EncloseSplit(a: seq<byte>, b: seq<byte>)
    ensures Enclose(a + b) == [BEGIN_FRAME_BYTE] + Stuff(a) + Stuff(b) + [END_FRAME_BYTE]
  {
    StuffAppend(a, b);
    Assoc([BEGIN_FRAME_BYTE], Stuff(a), Stuff(b));
  }

  /** Pushing a delimiter, two pieces and a delimiter keeps what one push of all of them would. */
  lemma FitDelimited<T>(s0: seq<T>, open: T, a: seq<T>, b: seq<T>, close: T, cap: nat)
    ensures Fit(Fit(Fit(s0 + [open], cap) + a, cap) + b, cap) == Fit(s0 + [open] + a + b, cap)
    ensures Fit(Fit(s0 + [open] + a + b, cap) + [close], cap) == Fit(s0 + ([open] + a + b + [close]), cap)
  {
    FitAppend(s0 + [open], a, cap);
    FitAppend(s0 + [open] + a, b, cap);
    FitAppend(s0 + [open] + a + b, [close], cap);
    assert s0 + [open] + a + b + [close] == s0 + ([open] + a + b + [close]);
  }

  /**
   * `Frame::serialize_into`.  A frame whose data exceeds `FRAME_DATA_MAX_SIZE` is
   * refused before `out` is touched.  Otherwise `out` receives as much of the wire
   * image as fits; `BufferTooSmall` is reported exactly when it did not all fit,
   * although only the final push of `')'` is checked, because a full container
   * stays full.
   */
  method SerializeInto(f: Frame, out: StaticVec<byte>) returns (err: SerializeError)
    requires out.Valid()
    modifies out, out.inner
    ensures out.Valid()
    ensures !WellFormed(f) ==> err == FrameTooLongError && out.Span() == old(out.Span())
    ensures WellFormed(f) ==> out.Span() == Fit(old(out.Span()) + Wire(f), out.Capacity())
    ensures WellFormed(f) ==> err != FrameTooLongError
    ensures WellFormed(f) ==> (err == BufferTooSmall <==> |old(out.Span())| + |Wire(f)| > out.Capacity())
  {
    if |f.data| > FRAME_DATA_MAX_SIZE {
      return FrameTooLongError;
    }
    ghost var s0 := out.Span();
    EncloseSplit(Fields(f), CrcBytes(f));
    FitDelimited(s0, BEGIN_FRAME_BYTE, Stuff(Fields(f)), Stuff(CrcBytes(f)), END_FRAME_BYTE, out.Capacity());
    var _ := out.PushBack(BEGIN_FRAME_BYTE);
    err := SerializeFields(f, out);
    if err != SerializeOk {
      return;
    }
    PowValues();
    var crc := ComputeCrc(f);
    var crcBytes := ToBeBytes(crc as int, 4);
    EncodeBytes(crcBytes, out);
    var full := out.PushBack(END_FRAME_BYTE);
    if full.Some? {
      return BufferTooSmall;
    }
    return SerializeOk;
  }

  /** A successful `deserialize<T>`: the value read and the index after it. */
  datatype Field = Field(value: nat, next: nat)

  /**
   * `deserialize<T>`: read a `width`-byte big-endian unsigned integer at `idx`, or
   * fail with `UnexpectedEOF` when fewer than `width` bytes remain.
   */
  function DeserializeField(data: seq<byte>, idx: nat, width: nat): (r: Result<Field, DeserializeError>)
    ensures r.Err? <==> idx + width > |data|
    ensures r.Err? ==> r.error == UnexpectedEOF
    ensures r.Ok? ==> r.value.next == idx + width && r.value.value < Pow256(width)
    ensures r.Ok? ==> ToBeBytes(r.value.value, width) == data[idx..idx + width]
  {
    if idx + width > |data| then Err(UnexpectedEOF)
    else
      BeBytesRoundTrip(data[idx..idx + width]);
      Ok(Field(FromBeBytes(data[idx..idx + width]), idx + width))
  }

  /**
   * What `deserialize_from_decoded` has read before it compares checksums: the
   * error so far, the frame as updated so far, and the CRC32 value read (0 when the
   * parse stopped before it).
   */
  datatype Parsed = Parsed(err: DeserializeError, frame: Frame, crc: nat)

  /**
   * The parsing steps of `deserialize_from_decoded` applied to the frame `f`: read
   * SENDER, RECEIVER and DATA_LEN.  Fields already read stay written when a later
   * step fails.
   */
  function ParseDecoded(f: Frame, d: seq<byte>): (r: Parsed)
  {
    PowValues();
    match DeserializeField(d, 0, 1)
    case Err(e) => Parsed(e, f, 0)
    case Ok(s) =>
      var f1 := f.(sender := s.value);
      match DeserializeField(d, s.next, 1)
      case Err(e) => Parsed(e, f1, 0)
      case Ok(rc) =>
        var f2 := f1.(receiver := rc.value);
        match DeserializeField(d, rc.next, 2)
        case Err(e) => Parsed(e, f2, 0)
        case Ok(len) => ParseData(f2, d, len.next, len.value)
  }

  /**
   * Once DATA_LEN is read: refuse a length over `FRAME_DATA_MAX_SIZE`, and a length
   * that leaves no byte after the data, then take the data.
   */
  function ParseData(f: Frame, d: seq<byte>, idx: nat, len: nat): (r: Parsed)
  {
    if len > FRAME_DATA_MAX_SIZE then Parsed(DataTooBig, f, 0)
    else if idx + len >= |d| then Parsed(UnexpectedEOF, f, 0)
    else ParseChecksum(f.(data := d[idx..idx + len]), d, idx + len)
  }

  /** Once the data is taken: read CRC32 and refuse any byte after it. */
  function ParseChecksum(f: Frame, d: seq<byte>, idx: nat): (r: Parsed)
  {
    match DeserializeField(d, idx, 4)
    case Err(e) => Parsed(e, f, 0)
    case Ok(crc) =>
      if crc.next != |d| then Parsed(ExpectedEOF, f, crc.value)
      else Parsed(DeserializeOk, f, crc.value)
  }

  /**
   * `deserialize_from_decoded` applied to the frame `f`: the resulting error and the
   * frame afterwards.  The checksum comparison is its last step, so `data` is
   * already replaced when the checksum does not match.
   */
  function FromDecoded(f: Frame, d: seq<byte>): (r: (DeserializeError, Frame))
  {
    var p := ParseDecoded(f, d);
    if p.err != DeserializeOk then (p.err, p.frame)
    else if p.crc != FrameCrc(p.frame) as int then (CRC32MissMatch, p.frame)
    else (DeserializeOk, p.frame)
  }

  /**
   * `Frame::deserialize_from_decoded`: read the fields in order, advancing `idx`,
   * updating the frame as it goes.
   */
  method DeserializeFromDecoded(f: Frame, decoded: seq<byte>) returns (err: DeserializeError, g: Frame)
    ensures (err, g) == FromDecoded(f, decoded)
  {
    PowValues();
    g := f;
    var idx := 0;
    var r := DeserializeField(decoded, idx, 1);
    if r.Err? {
      return r.error, g;
    }
    g := g.(sender := r.value.value);
    idx := r.value.next;
    r := DeserializeField(decoded, idx, 1);
    if r.Err? {
      return r.error, g;
    }
    g := g.(receiver := r.value.value);
    idx := r.value.next;
    r := DeserializeField(decoded, idx, 2);
    if r.Err? {
      return r.error, g;
    }
    var dataLen := r.value.value;
    idx := r.value.next;
    if dataLen > FRAME_DATA_MAX_SIZE {
      return DataTooBig, g;
    }
    if idx + dataLen >= |decoded| {
      return UnexpectedEOF, g;
    }
    g := g.(data := decoded[idx..idx + dataLen]);
    idx := idx + dataLen;
    r := DeserializeField(decoded, idx, 4);
    if r.Err? {
      return r.error, g;
    }
    idx := r.value.next;
    if idx != |decoded| {
      return ExpectedEOF, g;
    }
    var crc := ComputeCrc(g);
    if r.value.value != crc as int {
      return CRC32MissMatch, g;
    }
    return DeserializeOk, g;
  }

  /** The flat `deserialize_from`, as a function of the frame it updates and the input. */
  function FromWire(f: Frame, encoded: seq<byte>): (r: (DeserializeError, Frame))
  {
    if |encoded| < FRAME_MIN_SIZE then (UnexpectedEOF, f)
    else if encoded[0] != BEGIN_FRAME_BYTE then (InvalidStartByte, f)
    else if encoded[|encoded| - 1] != END_FRAME_BYTE then (InvalidEndByte, f)
    else
      var u := Unstuff(encoded[1..|encoded| - 1]);
      if u.0 != DeserializeOk then (u.0, f)
      else FromDecoded(f, Fit(u.1, FRAME_MAX_SIZE))
  }

  /**
   * `Frame::deserialize_from(std::span)`: check the length and the delimiters,
   * unescape the interior into a `StaticVec<uint8_t, FRAME_MAX_SIZE>`, then parse it.
   */
  method DeserializeFrom(f: Frame, encoded: seq<byte>) returns (err: DeserializeError, g: Frame)
    ensures (err, g) == FromWire(f, encoded)
  {
    if |encoded| < FRAME_MIN_SIZE {
      return UnexpectedEOF, f;
    }
    if encoded[0] != BEGIN_FRAME_BYTE {
      return InvalidStartByte, f;
    }
    if encoded[|encoded| - 1] != END_FRAME_BYTE {
      return InvalidEndByte, f;
    }
    var decoded := new StaticVec<byte>(FRAME_MAX_SIZE);
    err := DecodeBytes(encoded[1..|encoded| - 1], decoded);
    if err != DeserializeOk {
      return err, f;
    }
    assert decoded.Span() == Fit(Unstuff(encoded[1..|encoded| - 1]).1, FRAME_MAX_SIZE);
    err, g := DeserializeFromDecoded(f, decoded.Span());
  }

  /** `deserialize<T>` reads back exactly what `to_be_bytes` wrote. */
  lemma FieldAt(d: seq<byte>, idx: nat, width: nat, n: nat)
    requires n < Pow256(width) && idx + width <= |d|
    requires d[idx..idx + width] == ToBeBytes(n, width)
    ensures DeserializeField(d, idx, width) == Ok(Field(n, idx + width))
  {
    var r := DeserializeField(d, idx, width);
    BeRoundTrip(n, width);
    BeRoundTrip(r.value.value, width);
  }

  /** The checksum stage on the four big-endian bytes of `n` at `idx`. */
  lemma ChecksumAt(f: Frame, d: seq<byte>, idx: nat, n: nat)
    requires n < Pow256(4) && idx + 4 <= |d| && d[idx..idx + 4] == ToBeBytes(n, 4)
    ensures ParseChecksum(f, d, idx) == Parsed(if idx + 4 != |d| then ExpectedEOF else DeserializeOk, f, n)
  {
    FieldAt(d, idx, 4, n);
  }

  /** The checksum stage succeeds only on four checksum bytes with nothing after them. */
  lemma ChecksumOk(f: Frame, d: seq<byte>, idx: nat)
    requires ParseChecksum(f, d, idx).err == DeserializeOk
    ensures var p := ParseChecksum(f, d, idx);
      && |d| == idx + 4 && p.frame == f && p.crc < Pow256(4) && d[idx..] == ToBeBytes(p.crc, 4)
  {
  }

  /** The header stage on a SENDER, a RECEIVER and a DATA_LEN written big-endian. */
  lemma HeaderAt(g: Frame, d: seq<byte>, s: nat, rc: nat, len: nat)
    requires s < 256 && rc < 256 && len < 65536 && |d| >= 4
    requires d[0..1] == ToBeBytes(s, 1) && d[1..2] == ToBeBytes(rc, 1) && d[2..4] == ToBeBytes(len, 2)
    ensures ParseDecoded(g, d) == ParseData(g.(sender := s).(receiver := rc), d, 4, len)
  {
    PowValues();
    FieldAt(d, 0, 1, s);
    FieldAt(d, 1, 1, rc);
    FieldAt(d, 2, 2, len);
  }

  /** The header stage on the fields of `f`: the header fields are taken from `f`. */
  lemma HeaderOf(g: Frame, f: Frame, rest: seq<byte>)
    requires WellFormed(f)
    ensures ParseDecoded(g, Fields(f) + rest)
      == ParseData(g.(sender := f.sender).(receiver := f.receiver), Fields(f) + rest, 4, |f.data|)
  {
    var d := Fields(f) + rest;
    SingleByte(f.sender);
    SingleByte(f.receiver);
    assert d[0..1] == [f.sender] && d[1..2] == [f.receiver];
    assert d[2..4] == LengthField(f);
    LengthFieldOf(f);
    HeaderAt(g, d, f.sender, f.receiver, |f.data|);
  }

  /**
   * Parsing the fields of a well-formed frame followed by a checksum value `n` and
   * then `extra`: the frame comes back whole; the result is `ExpectedEOF` when
   * `extra` is not empty, and otherwise `DeserializeOk` exactly when `n` is the
   * frame's checksum, `CRC32MissMatch` when it is not.
   */
  lemma DecodedWithChecksum(g: Frame, f: Frame, n: nat, extra: seq<byte>)
    requires WellFormed(f) && n < Pow256(4)
    ensures FromDecoded(g, Fields(f) + ToBeBytes(n, 4) + extra)
      == (if extra != [] then ExpectedEOF else if n == FrameCrc(f) as int then DeserializeOk else CRC32MissMatch, f)
  {
    var d := Fields(f) + ToBeBytes(n, 4) + extra;
    var len := |f.data|;
    HeaderOf(g, f, ToBeBytes(n, 4) + extra);
    assert Fields(f) + (ToBeBytes(n, 4) + extra) == d;
    var f2 := g.(sender := f.sender).(receiver := f.receiver);
    assert d[4..4 + len] == f.data;
    assert f2.(data := f.data) == f;
    assert ParseData(f2, d, 4, len) == ParseChecksum(f, d, 4 + len);
    assert d[4 + len..8 + len] == ToBeBytes(n, 4);
    ChecksumAt(f, d, 4 + len, n);
  }

  /** Round trip through the decoded form: the fields and their checksum parse back to the frame. */
  lemma DecodedRoundTrip(g: Frame, f: Frame)
    requires WellFormed(f)
    ensures FromDecoded(g, Fields(f) + CrcBytes(f)) == (DeserializeOk, f)
  {
    PowValues();
    DecodedWithChecksum(g, f, FrameCrc(f) as int, []);
    assert Fields(f) + CrcBytes(f) + [] == Fields(f) + CrcBytes(f);
  }

  /** The data stage succeeds only on at most `FRAME_DATA_MAX_SIZE` data bytes and four checksum bytes. */
  lemma DataLengthOk(f: Frame, d: seq<byte>, idx: nat, len: nat)
    requires ParseData(f, d, idx, len).err == DeserializeOk
    ensures var p := ParseData(f, d, idx, len);
      && len <= FRAME_DATA_MAX_SIZE && |d| == idx + len + 4
      && p.frame == f.(data := d[idx..idx + len]) && p.crc < Pow256(4) && d[idx + len..] == ToBeBytes(p.crc, 4)
  {
    ChecksumOk(f.(data := d[idx..idx + len]), d, idx + len);
  }

  /** The header stage, when the parse succeeds: SENDER and RECEIVER are single bytes. */
  lemma HeaderOk(g: Frame, d: seq<byte>)
    requires ParseDecoded(g, d).err == DeserializeOk
    ensures |d| >= 4 && FromBeBytes(d[2..4]) < 65536 && ToBeBytes(FromBeBytes(d[2..4]), 2) == d[2..4]
    ensures ParseDecoded(g, d) == ParseData(Frame(d[0], d[1], g.data), d, 4, FromBeBytes(d[2..4]))
  {
    PowValues();
    var s := DeserializeField(d, 0, 1).value;
    var rc := DeserializeField(d, 1, 1).value;
    SingleByte(s.value);
    SingleByte(rc.value);
    assert [s.value] == d[0..1] && [rc.value] == d[1..2];
  }

  /** DATA_LEN of a frame whose data length fits in 16 bits is that length, untruncated. */
  lemma LengthFieldOf(f: Frame)
    requires |f.data| < 65536
    ensures LengthField(f) == ToBeBytes(|f.data|, 2)
  {
    assert |f.data| % 65536 == |f.data|;
  }

  /** Decoded bytes laid out field by field are the fields of `f` and the checksum bytes of `n`. */
  lemma Reassemble(d: seq<byte>, f: Frame, n: nat)
    requires |d| == 8 + |f.data| && d[0] == f.sender && d[1] == f.receiver && n < Pow256(4)
    requires d[2..4] == LengthField(f) && d[4..4 + |f.data|] == f.data && d[4 + |f.data|..] == ToBeBytes(n, 4)
    ensures d == Fields(f) + ToBeBytes(n, 4)
  {
    assert d == [d[0], d[1]] + d[2..4] + d[4..4 + |f.data|] + d[4 + |f.data|..];
  }

  /**
   * The parsing steps succeed only on the fields of a well-formed frame followed by
   * four checksum bytes; the frame they leave is that frame, whatever it was before.
   */
  lemma ParsedOk(g: Frame, d: seq<byte>)
    requires ParseDecoded(g, d).err == DeserializeOk
    ensures var p := ParseDecoded(g, d);
      && WellFormed(p.frame) && p.crc < Pow256(4) && d == Fields(p.frame) + ToBeBytes(p.crc, 4)
  {
    HeaderOk(g, d);
    var len := FromBeBytes(d[2..4]);
    DataLengthOk(Frame(d[0], d[1], g.data), d, 4, len);
    var p := ParseDecoded(g, d);
    assert p.frame == Frame(d[0], d[1], d[4..4 + len]);
    LengthFieldOf(p.frame);
    Reassemble(d, p.frame, p.crc);
  }

  /**
   * Conversely, `deserialize_from_decoded` succeeds only on the fields of a
   * well-formed frame followed by that frame's checksum, and the frame it leaves is
   * that frame, whatever the frame was before.
   */
  lemma DecodedOk(g: Frame, d: seq<byte>)
    requires FromDecoded(g, d).0 == DeserializeOk
    ensures WellFormed(FromDecoded(g, d).1)
    ensures d == Fields(FromDecoded(g, d).1) + CrcBytes(FromDecoded(g, d).1)
  {
    var p := ParseDecoded(g, d);
    assert p.err == DeserializeOk && p.crc == FrameCrc(p.frame) as int;
    ParsedOk(g, d);
  }

  /** Round trip: the flat `deserialize_from` restores any well-formed frame from its wire image. */
  lemma WireRoundTrip(g: Frame, f: Frame)
    requires WellFormed(f)
    ensures FromWire(g, Wire(f)) == (DeserializeOk, f)
  {
    var p := Fields(f) + CrcBytes(f);
    var e := Wire(f);
    assert e[1..|e| - 1] == Stuff(p);
    UnstuffStuff(p);
    DecodedRoundTrip(g, f);
  }

  /**
   * The flat `deserialize_from` accepts exactly wire images: whenever it succeeds,
   * the input is the wire image of the well-formed frame it produced.
   */
  lemma WireOk(g: Frame, e: seq<byte>)
    requires FromWire(g, e).0 == DeserializeOk
    ensures WellFormed(FromWire(g, e).1) && e == Wire(FromWire(g, e).1)
  {
    var inner := e[1..|e| - 1];
    var u := Unstuff(inner);
    var d := Fit(u.1, FRAME_MAX_SIZE);
    assert FromWire(g, e) == FromDecoded(g, d);
    DecodedOk(g, d);
    var f := FromWire(g, e).1;
    assert d == u.1;
    EncloseOf(e, Fields(f) + CrcBytes(f));
  }

  /** A sequence with both delimiters around the stuffing of `p` is `Enclose(p)`. */
  lemma EncloseOf(e: seq<byte>, p: seq<byte>)
    requires |e| >= 2 && e[0] == BEGIN_FRAME_BYTE && e[|e| - 1] == END_FRAME_BYTE
    requires e[1..|e| - 1] == Stuff(p)
    ensures e == Enclose(p)
  {
    assert e == [e[0]] + e[1..|e| - 1] + [e[|e| - 1]];
  }

  /**
   * A single corrupted byte among the fields changes the checksum, so a frame whose
   * fields were damaged in one byte in transit is refused with `CRC32MissMatch`.
   */
  lemma CorruptedByteRejected(g: Frame, f: Frame, damaged: Frame, i: nat)
    requires WellFormed(f) && WellFormed(damaged)
    requires |Fields(damaged)| == |Fields(f)| && i < |Fields(f)|
    requires Fields(damaged) == Fields(f)[i := Fields(damaged)[i]] && Fields(damaged)[i] != Fields(f)[i]
    ensures FrameCrc(damaged) != FrameCrc(f)
    ensures FromDecoded(g, Fields(damaged) + CrcBytes(f)) == (CRC32MissMatch, damaged)
  {
    assert CrcInput(damaged) == CrcInput(f)[i := Fields(damaged)[i]];
    ByteErrorDetected(CrcInput(f), i, Fields(damaged)[i]);
    PowValues();
    DecodedWithChecksum(g, damaged, FrameCrc(f) as int, []);
    if FrameCrc(f) as int == FrameCrc(damaged) as int {
      WordIntInjective(FrameCrc(f), FrameCrc(damaged));
    }
    assert Fields(damaged) + CrcBytes(f) + [] == Fields(damaged) + CrcBytes(f);
  }
}
