/**
 * The wire constants, the escape table, the size limits, the two error enums and
 * the `Frame` record of proto_cpp/include/frame.h.
 */
module FrameDefs {
  import opened Bytes
  import opened Wrappers

  /** Escape byte that introduces a two-byte escape sequence. */
  const ESCAPE_BYTE: byte := 0x1B
  /** Byte that starts every serialized frame: `'('`. */
  const BEGIN_FRAME_BYTE: byte := 0x28
  /** Byte that ends every serialized frame: `')'`. */
  const END_FRAME_BYTE: byte := 0x29

  /** Reserved byte on the left, replaced on the wire by `ESCAPE_BYTE` and the byte on the right. */
  const ESCAPE_TABLE: seq<(byte, byte)> :=
    [(ESCAPE_BYTE, 0x41), (BEGIN_FRAME_BYTE, 0x42), (END_FRAME_BYTE, 0x43)]

  /** Largest frame, before escaping. */
  const FRAME_MAX_SIZE: nat := 1280
  /** Smallest frame: the two delimiters and eight field bytes. */
  const FRAME_MIN_SIZE: nat := 10
  /** Largest `Frame::data`. */
  const FRAME_DATA_MAX_SIZE: nat := FRAME_MAX_SIZE - FRAME_MIN_SIZE - 2

  lemma DataMaxSizeValue()
    ensures FRAME_DATA_MAX_SIZE == 1268
  {
  }

  datatype DeserializeError =
    | DeserializeOk
    | InvalidStartByte
    | InvalidEndByte
    | UnexpectedEOF
    | ExpectedEOF
    | CRC32MissMatch
    | InvalidEscapeSequence
    | DataTooBig
    | InvalidByte

  datatype SerializeError =
    | SerializeOk
    | FrameTooLongError
    | BufferTooSmall

  /** The integer value of a `DeserializeError` enumerator (its declaration order). */
  function DeserializeCode(e: DeserializeError): (r: nat)
    ensures r < 9
    ensures r == 0 <==> e == DeserializeOk
  {
    match e
    case DeserializeOk => 0
    case InvalidStartByte => 1
    case InvalidEndByte => 2
    case UnexpectedEOF => 3
    case ExpectedEOF => 4
    case CRC32MissMatch => 5
    case InvalidEscapeSequence => 6
    case DataTooBig => 7
    case InvalidByte => 8
  }

  /** The integer value of a `SerializeError` enumerator. */
  function SerializeCode(e: SerializeError): (r: nat)
    ensures r < 3
    ensures r == 0 <==> e == SerializeOk
  {
    match e
    case SerializeOk => 0
    case FrameTooLongError => 1
    case BufferTooSmall => 2
  }

  /** Distinct enumerators have distinct values. */
  lemma CodesInjective(a: DeserializeError, b: DeserializeError, c: SerializeError, d: SerializeError)
    ensures DeserializeCode(a) == DeserializeCode(b) ==> a == b
    ensures SerializeCode(c) == SerializeCode(d) ==> c == d
  {
  }

  /**
   * `struct Frame`.  `data` is a `StaticVec<uint8_t, FRAME_DATA_MAX_SIZE>` in C++;
   * here it is the sequence of its live elements, and `WellFormed` is the bound the
   * container's capacity enforces.
   */
  datatype Frame = Frame(sender: byte, receiver: byte, data: seq<byte>)

  predicate WellFormed(f: Frame)
  {
    |f.data| <= FRAME_DATA_MAX_SIZE
  }

  /** `operator==`: sender, receiver, length and every data byte agree. */
  function FrameEquals(lhs: Frame, rhs: Frame): (r: bool)
    ensures r <==> lhs == rhs
  {
    && lhs.sender == rhs.sender
    && lhs.receiver == rhs.receiver
    && |lhs.data| == |rhs.data|
    && forall i :: 0 <= i < |lhs.data| ==> lhs.data[i] == rhs.data[i]
  }

  /** The searched column of a table entry. */
  function Column(e: (byte, byte), left: bool): byte
  {
    if left then e.0 else e.1
  }

  /** The first entry of `table` whose left (`left`) or right (`!left`) column equals `key`. */
  function FindEntry(table: seq<(byte, byte)>, key: byte, left: bool): (r: Option<(byte, byte)>)
    ensures r.Some? ==> r.value in table && (if left then r.value.0 else r.value.1) == key
    ensures r.None? ==> forall e :: e in table ==> (if left then e.0 else e.1) != key
  {
    if table == [] then None
    else if (if left then table[0].0 else table[0].1) == key then Some(table[0])
    else FindEntry(table[1..], key, left)
  }

  /** The entry `FindEntry` returns is the first match: no earlier row carries `key`. */
  lemma {:induction false} FindEntryFirst(table: seq<(byte, byte)>, key: byte, left: bool)
    ensures FindEntry(table, key, left).Some? ==>
              exists i :: 0 <= i < |table| && table[i] == FindEntry(table, key, left).value &&
                forall j :: 0 <= j < i ==> Column(table[j], left) != key
  {
    if table != [] && Column(table[0], left) != key {
      var r := FindEntry(table[1..], key, left);
      FindEntryFirst(table[1..], key, left);
      if r.Some? {
        var i :| 0 <= i < |table| - 1 && table[1..][i] == r.value &&
                 forall j :: 0 <= j < i ==> Column(table[1..][j], left) != key;
        assert table[i + 1] == r.value;
        forall j | 0 <= j < i + 1 ensures Column(table[j], left) != key {
          if j > 0 { assert table[j] == table[1..][j - 1]; }
        }
      }
    } else if table != [] {
      assert table[0] == FindEntry(table, key, left).value;
    }
  }

  /** The escape substitute of a reserved byte (`encode_byte`'s search of the left column). */
  function Substitute(b: byte): (r: Option<byte>)
    ensures r == if b == 0x1B then Some(0x41)
                 else if b == 0x28 then Some(0x42)
                 else if b == 0x29 then Some(0x43)
                 else None
  {
    match FindEntry(ESCAPE_TABLE, b, true)
    case Some(e) => Some(e.1)
    case None => None
  }

  /** The reserved byte a substitute stands for (`decode_byte`'s search of the right column). */
  function Reserved(s: byte): (r: Option<byte>)
    ensures r == if s == 0x41 then Some(0x1B)
                 else if s == 0x42 then Some(0x28)
                 else if s == 0x43 then Some(0x29)
                 else None
  {
    match FindEntry(ESCAPE_TABLE, s, false)
    case Some(e) => Some(e.0)
    case None => None
  }

  predicate IsReserved(b: byte)
  {
    b == ESCAPE_BYTE || b == BEGIN_FRAME_BYTE || b == END_FRAME_BYTE
  }

  /**
   * Both columns of the table are pairwise distinct and no substitute is itself
   * reserved, so escaping can be undone.
   */
  lemma EscapeTableInvertible(b: byte, s: byte)
    ensures forall i, j :: 0 <= i < j < |ESCAPE_TABLE| ==>
              ESCAPE_TABLE[i].0 != ESCAPE_TABLE[j].0 && ESCAPE_TABLE[i].1 != ESCAPE_TABLE[j].1
    ensures Substitute(b).Some? <==> IsReserved(b)
    ensures Substitute(b).Some? ==> Reserved(Substitute(b).value) == Some(b)
    ensures Substitute(b).Some? ==> !IsReserved(Substitute(b).value)
    ensures Reserved(s).Some? ==> Substitute(Reserved(s).value) == Some(s)
  {
  }
}
