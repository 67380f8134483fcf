/**
 * Byte stuffing of proto_cpp/src/frame.cpp: `encode_byte`, `encode_bytes`,
 * `decode_byte` and `decode_bytes`.  A reserved byte (`0x1B`, `'('`, `')'`) goes on
 * the wire as `0x1B` followed by its substitute from `ESCAPE_TABLE`; every other
 * byte goes as itself.
 */
module Stuffing {
  import opened Bytes
  import opened Wrappers
  import opened FrameDefs
  import opened StaticVecs

  /** The wire image of one byte. */
  function StuffByte(b: byte): (r: seq<byte>)
    ensures |r| == if IsReserved(b) then 2 else 1
    ensures r[0] == ESCAPE_BYTE <==> IsReserved(b)
    ensures forall i :: 0 <= i < |r| ==> r[i] != BEGIN_FRAME_BYTE && r[i] != END_FRAME_BYTE
  {
    match Substitute(b)
    case Some(s) => [ESCAPE_BYTE, s]
    case None => [b]
  }

  /** The wire image of a byte string: the images of its bytes, in order. */
  function Stuff(s: seq<byte>): (r: seq<byte>)
    ensures |s| <= |r| <= 2 * |s|
  {
    if s == [] then [] else StuffByte(s[0]) + Stuff(s[1..])
  }

  /** The image of a non-empty sequence is the image of its first byte, then of the rest. */
  lemma StuffCons(x: seq<byte>)
    requires x != []
    ensures Stuff(x) == StuffByte(x[0]) + Stuff(x[1..])
    ensures |Stuff(x)| == |StuffByte(x[0])| + |Stuff(x[1..])|
  {
  }

  /** No wire image contains a frame delimiter, so `'('` and `')'` only ever mark frame edges. */
  lemma {:induction false} StuffNoDelimiters(s: seq<byte>)
    ensures forall i :: 0 <= i < |Stuff(s)| ==> Stuff(s)[i] != BEGIN_FRAME_BYTE && Stuff(s)[i] != END_FRAME_BYTE
  {
    if s != [] {
      StuffNoDelimiters(s[1..]);
      var r := Stuff(s);
      forall i | 0 <= i < |r|
        ensures r[i] != BEGIN_FRAME_BYTE && r[i] != END_FRAME_BYTE
      {
        if i >= |StuffByte(s[0])| {
          assert r[i] == Stuff(s[1..])[i - |StuffByte(s[0])|];
        }
      }
    }
  }

  lemma {:induction false} StuffAppend(a: seq<byte>, b: seq<byte>)
    ensures Stuff(a + b) == Stuff(a) + Stuff(b)
  {
    if a == [] {
      assert a + b == b;
    } else {
      assert (a + b)[1..] == a[1..] + b;
      StuffAppend(a[1..], b);
    }
  }

  /** Appending a byte appends its image. */
  lemma StuffSnoc(p: seq<byte>, b: byte)
    ensures Stuff(p + [b]) == Stuff(p) + StuffByte(b)
  {
    StuffAppend(p, [b]);
    assert [b][1..] == [];
    assert Stuff([b]) == StuffByte(b) + Stuff([]);
  }

  /** The image of the first `i + 1` bytes extends that of the first `i` by the image of byte `i`. */
  lemma StuffPrefix(data: seq<byte>, i: nat)
    requires i < |data|
    ensures Stuff(data[..i + 1]) == Stuff(data[..i]) + StuffByte(data[i])
  {
    TakeSnoc(data, i);
    StuffSnoc(data[..i], data[i]);
  }

  /** The image of a non-empty string ends with the image of its last byte. */
  lemma StuffLast(x: seq<byte>)
    requires x != []
    ensures Stuff(x) == Stuff(x[..|x| - 1]) + StuffByte(x[|x| - 1])
  {
    Snoc(x);
    StuffSnoc(x[..|x| - 1], x[|x| - 1]);
  }

  /** Stuffing lengthens a string by exactly one byte per reserved byte in it. */
  function CountReserved(s: seq<byte>): (n: nat)
    ensures n <= |s|
    ensures n == 0 <==> forall i :: 0 <= i < |s| ==> !IsReserved(s[i])
  {
    if s == [] then 0 else (if IsReserved(s[0]) then 1 else 0) + CountReserved(s[1..])
  }

  lemma {:induction false} StuffLength(s: seq<byte>)
    ensures |Stuff(s)| == |s| + CountReserved(s)
    ensures CountReserved(s) == 0 ==> Stuff(s) == s
  {
    if s != [] {
      StuffLength(s[1..]);
    }
  }

  /** The result of a successful `decode_byte`: the byte (`out`) and the count consumed (`read`). */
  datatype Decoded = Decoded(value: byte, read: nat)

  /**
   * `decode_byte`.  It succeeds exactly when `data` begins with the wire image of
   * some byte, and then returns that byte and the image's length.
   */
  function DecodeByte(data: seq<byte>): (r: Result<Decoded, DeserializeError>)
    ensures r.Ok? ==> 1 <= r.value.read <= |data|
    ensures |data| == 0 ==> r == Err(UnexpectedEOF)
    ensures |data| == 1 && data[0] == ESCAPE_BYTE ==> r == Err(UnexpectedEOF)
    ensures |data| >= 2 && data[0] == ESCAPE_BYTE && Reserved(data[1]).None? ==> r == Err(InvalidEscapeSequence)
    ensures |data| >= 1 && (data[0] == BEGIN_FRAME_BYTE || data[0] == END_FRAME_BYTE) ==> r == Err(InvalidByte)
  {
    if |data| == 0 then Err(UnexpectedEOF)
    else if data[0] == ESCAPE_BYTE then
      if |data| == 1 then Err(UnexpectedEOF)
      else
        match Reserved(data[1])
        case Some(b) => Ok(Decoded(b, 2))
        case None => Err(InvalidEscapeSequence)
    else if data[0] == BEGIN_FRAME_BYTE || data[0] == END_FRAME_BYTE then Err(InvalidByte)
    else Ok(Decoded(data[0], 1))
  }

  /** What `decode_byte` accepts is the wire image of the byte it returns. */
  lemma DecodeByteImage(data: seq<byte>)
    requires DecodeByte(data).Ok?
    ensures var d := DecodeByte(data).value;
      d.read <= |data| && StuffByte(d.value) == data[..d.read]
  {
    if data[0] == ESCAPE_BYTE {
      EscapeTableInvertible(DecodeByte(data).value.value, DecodeByte(data).value.value);
    }
  }

  /** `decode_byte` undoes `encode_byte`, whatever follows on the wire. */
  lemma DecodeEncodeByte(b: byte, rest: seq<byte>)
    ensures DecodeByte(StuffByte(b) + rest) == Ok(Decoded(b, |StuffByte(b)|))
  {
    EscapeTableInvertible(b, b);
    var data := StuffByte(b) + rest;
    assert data[0] == StuffByte(b)[0];
    if IsReserved(b) {
      assert data[1] == Substitute(b).value;
    }
  }

  /**
   * What `decode_bytes` computes: the error it stops with and the bytes it decoded
   * before stopping.
   */
  function Unstuff(data: seq<byte>): (r: (DeserializeError, seq<byte>))
    ensures r.0 in {DeserializeOk, UnexpectedEOF, InvalidEscapeSequence, InvalidByte}
    ensures r.0 == DeserializeOk ==> Stuff(r.1) == data
    ensures |r.1| <= |data|
    decreases |data|
  {
    if data == [] then (DeserializeOk, [])
    else
      match DecodeByte(data)
      case Err(e) => (e, [])
      case Ok(d) =>
        var rest := Unstuff(data[d.read..]);
        assert data == data[..d.read] + data[d.read..];
        (rest.0, [d.value] + rest.1)
  }

  /** Decoding the wire image of any byte string gives the string back, without error. */
  lemma {:induction false} UnstuffStuff(s: seq<byte>)
    ensures Unstuff(Stuff(s)) == (DeserializeOk, s)
  {
    if s != [] {
      var w := Stuff(s);
      var k := |StuffByte(s[0])|;
      assert w == StuffByte(s[0]) + Stuff(s[1..]);
      DecodeEncodeByte(s[0], Stuff(s[1..]));
      assert w[k..] == Stuff(s[1..]);
      UnstuffStuff(s[1..]);
      assert Unstuff(w) == (Unstuff(w[k..]).0, [s[0]] + Unstuff(w[k..]).1);
      assert [s[0]] + s[1..] == s;
    }
  }

  /** Decoding succeeds on exactly the wire images, so stuffing is a bijection onto them. */
  lemma UnstuffOkIff(data: seq<byte>)
    ensures Unstuff(data).0 == DeserializeOk <==> exists s :: Stuff(s) == data
  {
    if exists s :: Stuff(s) == data {
      var s :| Stuff(s) == data;
      UnstuffStuff(s);
    }
  }

  /** A table row whose left column is `b` gives `b`'s escape pair. */
  lemma EscapedByRow(b: byte, i: nat)
    requires i < |ESCAPE_TABLE| && ESCAPE_TABLE[i].0 == b
    ensures StuffByte(b) == [ESCAPE_BYTE, ESCAPE_TABLE[i].1]
  {
  }

  /** A byte in no row of the left column goes as itself. */
  lemma NotEscaped(b: byte)
    requires forall j :: 0 <= j < |ESCAPE_TABLE| ==> ESCAPE_TABLE[j].0 != b
    ensures StuffByte(b) == [b]
  {
    assert ESCAPE_TABLE[0].0 != b && ESCAPE_TABLE[1].0 != b && ESCAPE_TABLE[2].0 != b;
  }

  /** Two pushes in a row keep what one push of both would. */
  lemma PushPair(s0: seq<byte>, x: byte, y: byte, cap: nat)
    ensures Fit(Fit(s0 + [x], cap) + [y], cap) == Fit(s0 + [x, y], cap)
  {
    FitAppend(s0 + [x], [y], cap);
    assert s0 + [x] + [y] == s0 + [x, y];
  }

  /** `encode_byte`: scan the table; push the escape pair on a match, the byte itself otherwise. */
  method EncodeByte(b: byte, out: StaticVec<byte>)
    requires out.Valid()
    modifies out, out.inner
    ensures out.Valid()
    ensures out.Span() == Fit(old(out.Span()) + StuffByte(b), out.Capacity())
  {
    ghost var s0 := out.Span();
    for i := 0 to |ESCAPE_TABLE|
      invariant out.Valid() && out.Span() == s0
      invariant forall j :: 0 <= j < i ==> ESCAPE_TABLE[j].0 != b
    {
      var e := ESCAPE_TABLE[i];
      if b == e.0 {
        EscapedByRow(b, i);
        PushPair(s0, ESCAPE_BYTE, e.1, out.Capacity());
        var _ := out.PushBack(ESCAPE_BYTE);
        var _ := out.PushBack(e.1);
        return;
      }
    }
    NotEscaped(b);
    var _ := out.PushBack(b);
  }

  /** One more `encode_byte` extends the pushed image by the next byte's image. */
  lemma EncodeStep(s0: seq<byte>, data: seq<byte>, i: nat, cap: nat)
    requires i < |data|
    ensures Fit(Fit(s0 + Stuff(data[..i]), cap) + StuffByte(data[i]), cap) == Fit(s0 + Stuff(data[..i + 1]), cap)
  {
    FitAppend(s0 + Stuff(data[..i]), StuffByte(data[i]), cap);
    StuffPrefix(data, i);
    Assoc(s0, Stuff(data[..i]), StuffByte(data[i]));
  }

  /** `encode_bytes`: `encode_byte` on each byte in turn. */
  method EncodeBytes(data: seq<byte>, out: StaticVec<byte>)
    requires out.Valid()
    modifies out, out.inner
    ensures out.Valid()
    ensures out.Span() == Fit(old(out.Span()) + Stuff(data), out.Capacity())
  {
    ghost var s0 := out.Span();
    assert data[..0] == [];
    for i := 0 to |data|
      invariant out.Valid()
      invariant out.Span() == Fit(s0 + Stuff(data[..i]), out.Capacity())
    {
      EncodeStep(s0, data, i, out.Capacity());
      EncodeByte(data[i], out);
    }
    assert data[..|data|] == data;
  }

  /** One more decoded byte: `Unstuff` of the rest unfolds by one `decode_byte`. */
  lemma DecodeStep(rest: seq<byte>, decoded: seq<byte>)
    requires DecodeByte(rest).Ok?
    ensures var d := DecodeByte(rest).value;
      var after := Unstuff(rest[d.read..]);
      (Unstuff(rest).0, decoded + Unstuff(rest).1) == (after.0, (decoded + [d.value]) + after.1)
  {
    var d := DecodeByte(rest).value;
    var after := Unstuff(rest[d.read..]);
    assert Unstuff(rest) == (after.0, [d.value] + after.1);
    assert decoded + ([d.value] + after.1) == (decoded + [d.value]) + after.1;
  }

  /** A byte that fails to decode ends the decoding with its error and nothing more decoded. */
  lemma DecodeStop(rest: seq<byte>, decoded: seq<byte>)
    requires rest != [] && DecodeByte(rest).Err?
    ensures (Unstuff(rest).0, decoded + Unstuff(rest).1) == (DecodeByte(rest).error, decoded)
  {
    assert decoded + [] == decoded;
  }

  /** Pushing one more decoded byte keeps the pushed bytes a prefix of all decoded ones. */
  lemma PushDecoded(s0: seq<byte>, decoded: seq<byte>, v: byte, cap: nat)
    ensures Fit(Fit(s0 + decoded, cap) + [v], cap) == Fit(s0 + (decoded + [v]), cap)
  {
    FitAppend(s0 + decoded, [v], cap);
    assert s0 + decoded + [v] == s0 + (decoded + [v]);
  }

  /**
   * `decode_bytes`: decode from the front until the input is used up or a byte
   * fails to decode.  The value `push_back` hands back is ignored, so once `out` is
   * full further decoded bytes are dropped without an error.
   */
  method DecodeBytes(data: seq<byte>, out: StaticVec<byte>) returns (err: DeserializeError)
    requires out.Valid()
    modifies out, out.inner
    ensures out.Valid()
    ensures err == Unstuff(data).0
    ensures out.Span() == Fit(old(out.Span()) + Unstuff(data).1, out.Capacity())
  {
    ghost var s0 := out.Span();
    ghost var target := Unstuff(data);
    var rest := data;
    ghost var decoded: seq<byte> := [];
    assert decoded + Unstuff(rest).1 == Unstuff(rest).1;
    assert s0 + decoded == s0;
    while |rest| > 0
      invariant out.Valid()
      invariant target == (Unstuff(rest).0, decoded + Unstuff(rest).1)
      invariant out.Span() == Fit(s0 + decoded, out.Capacity())
      decreases |rest|
    {
      var r := DecodeByte(rest);
      if r.Err? {
        DecodeStop(rest, decoded);
        return r.error;
      }
      DecodeStep(rest, decoded);
      PushDecoded(s0, decoded, r.value.value, out.Capacity());
      var _ := out.PushBack(r.value.value);
      decoded := decoded + [r.value.value];
      rest := rest[r.value.read..];
    }
    assert decoded + [] == decoded;
    err := DeserializeOk;
  }
}
