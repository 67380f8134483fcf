/**
 * proto/src/encoding.rs: the Rust side's byte stuffing.  It uses the same escape
 * table as the C++ side, but its decoder walks the input through two-byte windows
 * and lets an unescaped `'('` or `')'` through, and it decodes the last input byte
 * once more after the loop, so an input ending in an escape pair yields one byte
 * too many.
 */
module RsEncoding {
  import opened Bytes
  import opened Wrappers
  import opened FrameDefs
  import opened Stuffing

  /** `ESCAPE_TABLE`: each reserved byte with its two-byte wire image. */
  const RS_ESCAPE_TABLE: seq<(byte, seq<byte>)> := [
    (ESCAPE_BYTE, [ESCAPE_BYTE, 0x41]),
    (BEGIN_FRAME_BYTE, [ESCAPE_BYTE, 0x42]),
    (END_FRAME_BYTE, [ESCAPE_BYTE, 0x43])
  ]

  /**
   * `DecodeError`.  The `IOError` variant is left out: every writer here is a
   * `Vec<u8>`, whose writes do not fail.
   */
  datatype DecodeError = InvalidEscapeSequence(pair: seq<byte>) | UnexpectedEOF

  /** The image `table` lists for `b`, searching the left column (`find_map` on `d == b`). */
  function ImageOf(table: seq<(byte, seq<byte>)>, b: byte): Option<seq<byte>>
  {
    if table == [] then None
    else if table[0].0 == b then Some(table[0].1)
    else ImageOf(table[1..], b)
  }

  /** The byte `table` lists for the second image byte `s` (`find_map` on `e[1] == s`). */
  function OriginalOf(table: seq<(byte, seq<byte>)>, s: byte): Option<byte>
  {
    if table == [] then None
    else if |table[0].1| == 2 && table[0].1[1] == s then Some(table[0].0)
    else OriginalOf(table[1..], s)
  }

  /** The free function `encode`: the table's image of a reserved byte, else the byte itself. */
  function EncodeUnit(b: byte): (r: seq<byte>)
  {
    match ImageOf(RS_ESCAPE_TABLE, b)
    case Some(image) => image
    case None => [b]
  }

  /** The Rust `encode` produces exactly the C++ `encode_byte` image. */
  lemma EncodeUnitAgrees(b: byte)
    ensures EncodeUnit(b) == StuffByte(b)
  {
    assert ImageOf(RS_ESCAPE_TABLE[2..], b) == if b == END_FRAME_BYTE then Some([ESCAPE_BYTE, 0x43]) else None;
    assert ImageOf(RS_ESCAPE_TABLE[1..], b) == if b == BEGIN_FRAME_BYTE then Some([ESCAPE_BYTE, 0x42]) else ImageOf(RS_ESCAPE_TABLE[2..], b);
  }

  /** The Rust `decode` finds the same reserved byte for a substitute as the C++ `decode_byte`. */
  lemma OriginalAgrees(s: byte)
    ensures OriginalOf(RS_ESCAPE_TABLE, s) == Reserved(s)
  {
    assert OriginalOf(RS_ESCAPE_TABLE[2..], s) == if s == 0x43 then Some(END_FRAME_BYTE) else None;
    assert OriginalOf(RS_ESCAPE_TABLE[1..], s) == if s == 0x42 then Some(BEGIN_FRAME_BYTE) else OriginalOf(RS_ESCAPE_TABLE[2..], s);
  }

  /**
   * The free function `decode` on a window of one or two bytes: the count of
   * input bytes consumed and the byte they stand for.
   */
  function DecodeWindow(w: seq<byte>): (r: Result<(nat, byte), DecodeError>)
    requires 1 <= |w|
    ensures r.Ok? ==> 1 <= r.value.0 <= |w|
  {
    if w[0] == ESCAPE_BYTE then
      if |w| > 1 then
        match OriginalOf(RS_ESCAPE_TABLE, w[1])
        case Some(b) => Ok((2, b))
        case None => Err(DecodeError.InvalidEscapeSequence([w[0], w[1]]))
      else Err(DecodeError.UnexpectedEOF)
    else Ok((1, w[0]))
  }

  /**
   * A byte other than `0x1B` is itself, even `'('` and `')'`; `0x1B` needs a
   * second byte, which must be one of the substitutes.
   */
  lemma DecodeWindowCases(w: seq<byte>)
    requires 1 <= |w|
    ensures w[0] != ESCAPE_BYTE ==> DecodeWindow(w) == Ok((1, w[0]))
    ensures w[0] == ESCAPE_BYTE && |w| == 1 ==> DecodeWindow(w) == Err(DecodeError.UnexpectedEOF)
    ensures w[0] == ESCAPE_BYTE && |w| > 1 ==>
              DecodeWindow(w) == match Reserved(w[1])
                                 case Some(b) => Ok((2, b))
                                 case None => Err(DecodeError.InvalidEscapeSequence([w[0], w[1]]))
  {
    if |w| > 1 {
      OriginalAgrees(w[1]);
    }
  }

  /** The decoded bytes and the count so far, behind the bytes `p` already written. */
  function Prefixed(p: seq<byte>, r: Result<(seq<byte>, nat), DecodeError>): (r': Result<(seq<byte>, nat), DecodeError>)
    ensures p == [] ==> r' == r
  {
    if r.Err? then r
    else
      assert p == [] ==> p + r.value.0 == r.value.0;
      Ok((p + r.value.0, r.value.1))
  }

  lemma PrefixedOk(p: seq<byte>, out: seq<byte>, j: nat)
    ensures Prefixed(p, Ok((out, j))) == Ok((p + out, j))
  {
  }

  /** The loop stops at once at the end of the input. */
  lemma WindowsAtEnd(data: seq<byte>)
    ensures Windows(data, |data|) == Ok(([], |data|))
  {
  }

  lemma PrefixedTwice(p: seq<byte>, q: seq<byte>, r: Result<(seq<byte>, nat), DecodeError>)
    ensures Prefixed(p, Prefixed(q, r)) == Prefixed(p + q, r)
  {
    if r.Ok? {
      assert p + (q + r.value.0) == (p + q) + r.value.0;
    }
  }

  /**
   * The window loop of `Encoding::decode` from input position `i`: the bytes it
   * writes and the position where no full window is left, or the first error.
   */
  function Windows(data: seq<byte>, i: nat): (r: Result<(seq<byte>, nat), DecodeError>)
    requires i <= |data|
    decreases |data| - i
  {
    if |data| < i + 2 then Ok(([], i))
    else match DecodeWindow(data[i..i + 2])
      case Err(e) => Err(e)
      case Ok(d) => Prefixed([d.1], Windows(data, i + d.0))
  }

  /** The loop stops at most one byte short of the end, and never past it. */
  lemma {:induction false} WindowsBounds(data: seq<byte>, i: nat)
    requires i <= |data|
    ensures Windows(data, i).Ok? ==> i <= Windows(data, i).value.1 <= |data| < Windows(data, i).value.1 + 2
    decreases |data| - i
  {
    if |data| >= i + 2 {
      var d := DecodeWindow(data[i..i + 2]);
      if d.Ok? {
        WindowsBounds(data, i + d.value.0);
      }
    }
  }

  /** One turn of the window loop. */
  lemma WindowsStep(data: seq<byte>, i: nat)
    requires i + 2 <= |data|
    ensures var d := DecodeWindow(data[i..i + 2]);
      && (d.Err? ==> Windows(data, i) == Err(d.error))
      && (d.Ok? ==> i + d.value.0 <= |data| && Windows(data, i) == Prefixed([d.value.1], Windows(data, i + d.value.0)))
  {
  }

  /**
   * `Encoding::decode` into an empty writer: the window loop, then the last input
   * byte decoded on its own.  The count is of input bytes consumed, and the last
   * byte is counted even when the loop already consumed it.
   */
  function Decode(data: seq<byte>): Result<(seq<byte>, nat), DecodeError>
  {
    Finish(data, Windows(data, 0))
  }

  /** The step after the window loop, given what the loop returned. */
  function Finish(data: seq<byte>, loop: Result<(seq<byte>, nat), DecodeError>): Result<(seq<byte>, nat), DecodeError>
  {
    match loop
    case Err(e) => Err(e)
    case Ok((out, j)) =>
      if data == [] then Ok((out, j))
      else match DecodeWindow([data[|data| - 1]])
        case Err(e) => Err(e)
        case Ok(d) => Ok((out + [d.1], j + d.0))
  }

  /**
   * Empty input decodes to nothing; a lone `0x1B` is an unexpected end; `0x1B`
   * before a byte that is not a substitute is an invalid escape sequence.
   */
  lemma DecodeEdges(data: seq<byte>)
    ensures data == [] ==> Decode(data) == Ok(([], 0))
    ensures data == [ESCAPE_BYTE] ==> Decode(data) == Err(DecodeError.UnexpectedEOF)
    ensures |data| >= 2 && data[0] == ESCAPE_BYTE && Reserved(data[1]).None? ==>
              Decode(data) == Err(DecodeError.InvalidEscapeSequence([ESCAPE_BYTE, data[1]]))
  {
    if |data| >= 2 {
      DecodeWindowCases(data[0..2]);
    } else if |data| == 1 {
      DecodeWindowCases([data[0]]);
    }
  }

  /** `Encoding::encode`: append the image of each byte; the count is the number of bytes written. */
  method Encode(w: seq<byte>, data: seq<byte>) returns (w': seq<byte>, written: nat)
    ensures w' == w + Stuff(data) && written == |Stuff(data)|
  {
    w', written := w, 0;
    for i := 0 to |data|
      invariant w' == w + Stuff(data[..i]) && written == |Stuff(data[..i])|
    {
      var slice := EncodeUnit(data[i]);
      EncodeUnitAgrees(data[i]);
      StuffPrefix(data, i);
      Assoc(w, Stuff(data[..i]), slice);
      w' := w' + slice;
      written := written + |slice|;
    }
    NoChange(data);
  }

  /**
   * `Encoding::decode` into an empty writer.  `windows.next()` after a two-byte
   * escape skips the window that starts inside it; here that is the step of `i`.
   */
  method DecodeInto(data: seq<byte>) returns (r: Result<(seq<byte>, nat), DecodeError>)
    ensures r == Decode(data)
  {
    var out: seq<byte> := [];
    var written := 0;
    var i := 0;
    while i + 2 <= |data|
      invariant i <= |data| && written == i
      invariant Windows(data, 0) == Prefixed(out, Windows(data, i))
      decreases |data| - i
    {
      var d := DecodeWindow(data[i..i + 2]);
      WindowsStep(data, i);
      if d.Err? {
        return Err(d.error);
      }
      var (consumed, b) := d.value;
      PrefixedTwice(out, [b], Windows(data, i + consumed));
      out := out + [b];
      written := written + consumed;
      i := i + consumed;
    }
    assert out + [] == out;
    assert Windows(data, 0) == Ok((out, i));
    if |data| > 0 {
      var d := DecodeWindow([data[|data| - 1]]);
      if d.Err? {
        return Err(d.error);
      }
      out := out + [d.value.1];
      written := written + d.value.0;
    }
    return Ok((out, written));
  }

  /** Over input without `0x1B` the loop passes every byte but the last through unchanged. */
  lemma {:induction false} WindowsPlain(data: seq<byte>, i: nat)
    requires i < |data| && forall k :: i <= k < |data| ==> data[k] != ESCAPE_BYTE
    ensures Windows(data, i) == Ok((data[i..|data| - 1], |data| - 1))
    decreases |data| - i
  {
    if i + 2 <= |data| {
      WindowsPlain(data, i + 1);
      assert data[i..|data| - 1] == [data[i]] + data[i + 1..|data| - 1];
    }
  }

  /** After the window loop, a last byte other than `0x1B` is decoded once more on its own. */
  lemma DecodeFinish(data: seq<byte>, out: seq<byte>, j: nat, last: byte)
    requires data != [] && data[|data| - 1] == last && last != ESCAPE_BYTE
    ensures Finish(data, Ok((out, j))) == Ok((out + [last], j + 1))
  {
    assert DecodeWindow([last]) == Ok((1, last));
  }

  /** The whole decoder, when the loop ends with `out` at `j` and the input ends in `last`. */
  lemma DecodeAfterLoop(data: seq<byte>, out: seq<byte>, j: nat, last: byte)
    requires data != [] && data[|data| - 1] == last && last != ESCAPE_BYTE
    requires Windows(data, 0) == Ok((out, j))
    ensures Decode(data) == Ok((out + [last], j + 1))
  {
    DecodeFinish(data, out, j, last);
  }

  /** Input without `0x1B` decodes to itself: in particular `'('` and `')'` pass through. */
  lemma DecodePlain(s: seq<byte>)
    requires forall k :: 0 <= k < |s| ==> s[k] != ESCAPE_BYTE
    ensures Decode(s) == Ok((s, |s|))
  {
    if s != [] {
      WindowsPlain(s, 0);
      DecodeAfterLoop(s, s[..|s| - 1], |s| - 1, s[|s| - 1]);
      Snoc(s);
    }
  }

  /** A window at the start of a stuffed byte decodes that byte and steps to `k`, past its image. */
  lemma WindowOfImage(data: seq<byte>, i: nat, k: nat, b: byte)
    requires k == i + |StuffByte(b)| && i + 2 <= |data| && data[i..k] == StuffByte(b)
    ensures Windows(data, i) == Prefixed([b], Windows(data, k))
  {
    EscapeTableInvertible(b, b);
    DecodeWindowCases(data[i..i + 2]);
    assert data[i..i + 2][0] == StuffByte(b)[0];
    if IsReserved(b) {
      assert data[i..i + 2][1] == StuffByte(b)[1];
    }
  }

  /**
   * Over the image of `x`, which ends at `j` and is followed by at least one more
   * byte, the loop decodes `x` byte by byte and steps to `j`.
   */
  lemma {:induction false} WindowsThrough(data: seq<byte>, i: nat, j: nat, x: seq<byte>, rest: seq<byte>)
    requires i <= |data| && data[i..] == Stuff(x) + rest && rest != [] && j == i + |Stuff(x)|
    ensures Windows(data, i) == Prefixed(x, Windows(data, j))
    decreases x
  {
    if x != [] {
      var k := i + |StuffByte(x[0])|;
      StuffCons(x);
      SplitFirst(data, i, StuffByte(x[0]), Stuff(x[1..]), rest);
      WindowOfImage(data, i, k, x[0]);
      WindowsThrough(data, k, j, x[1..], rest);
      PrefixedTwice([x[0]], x[1..], Windows(data, j));
      Cons(x);
    }
  }

  /**
   * Stuffed bytes followed by raw bytes without `0x1B`: the loop decodes all of
   * them but the last raw byte.
   */
  lemma WindowsStuffed(data: seq<byte>, i: nat, x: seq<byte>, c: seq<byte>)
    requires i <= |data| && data[i..] == Stuff(x) + c
    requires c != [] && forall k :: 0 <= k < |c| ==> c[k] != ESCAPE_BYTE
    ensures Windows(data, i) == Ok((x + c[..|c| - 1], |data| - 1))
  {
    var j := i + |Stuff(x)|;
    SplitAt(data, i, Stuff(x), c);
    WindowsThrough(data, i, j, x, c);
    forall k | j <= k < |data| ensures data[k] != ESCAPE_BYTE {
      assert data[k] == data[j..][k - j];
    }
    WindowsPlain(data, j);
    TrimLast(data, j, c);
    PrefixedOk(x, c[..|c| - 1], |data| - 1);
  }

  /** Stuffed bytes ending in an escape pair: the loop decodes all of them and reaches the end. */
  lemma WindowsStuffedEnd(data: seq<byte>, i: nat, x: seq<byte>)
    requires i <= |data| && data[i..] == Stuff(x)
    requires x != [] && IsReserved(x[|x| - 1])
    ensures Windows(data, i) == Ok((x, |data|))
  {
    var p, b := x[..|x| - 1], x[|x| - 1];
    StuffLast(x);
    var j := i + |Stuff(p)|;
    SplitAt(data, i, Stuff(p), StuffByte(b));
    WindowsThrough(data, i, j, p, StuffByte(b));
    NoChange(StuffByte(b));
    SplitAt(data, j, StuffByte(b), []);
    WindowOfImage(data, j, |data|, b);
    WindowsAtEnd(data);
    PrefixedOk([b], [], |data|);
    NoChange([b]);
    PrefixedOk(p, [b], |data|);
    Snoc(x);
  }

  /**
   * Stuffed bytes followed by at least one raw byte without `0x1B` (the Rust frame's
   * interior: stuffed fields, then the raw checksum) decode exactly, and the count
   * is the input length.
   */
  lemma DecodeStuffed(x: seq<byte>, c: seq<byte>)
    requires c != [] && forall k :: 0 <= k < |c| ==> c[k] != ESCAPE_BYTE
    ensures Decode(Stuff(x) + c) == Ok((x + c, |Stuff(x)| + |c|))
  {
    NoChange(Stuff(x) + c);
    WindowsStuffed(Stuff(x) + c, 0, x, c);
    DecodeAfterStuffed(Stuff(x), x, c);
  }

  /** The whole decoder over `s + c`, once the loop has decoded `x` and all of `c` but its last byte. */
  lemma DecodeAfterStuffed(s: seq<byte>, x: seq<byte>, c: seq<byte>)
    requires c != [] && c[|c| - 1] != ESCAPE_BYTE
    requires Windows(s + c, 0) == Ok((x + c[..|c| - 1], |s + c| - 1))
    ensures Decode(s + c) == Ok((x + c, |s| + |c|))
  {
    var data := s + c;
    LastOfAppend(s, c);
    SnocAfter(x, c);
    DecodeAfterLoop(data, x + c[..|c| - 1], |data| - 1, c[|c| - 1]);
  }

  /**
   * `Encoding::decode` inverts `encode` when the last byte is not reserved, since
   * its image is a single byte.
   */
  lemma DecodeStuff(x: seq<byte>)
    requires x == [] || !IsReserved(x[|x| - 1])
    ensures Decode(Stuff(x)) == Ok((x, |Stuff(x)|))
  {
    if x != [] {
      var n := |x| - 1;
      StuffLast(x);
      assert StuffByte(x[n]) == [x[n]];
      DecodeStuffed(x[..n], [x[n]]);
      Snoc(x);
    }
  }

  /**
   * When the last byte is reserved its image is an escape pair, and the substitute
   * that ends the input is decoded a second time: one byte too many, and a count
   * one past the input length.
   */
  lemma DecodeReEmits(x: seq<byte>)
    requires x != [] && IsReserved(x[|x| - 1])
    ensures Decode(Stuff(x)) == Ok((x + [Substitute(x[|x| - 1]).value], |Stuff(x)| + 1))
  {
    var data := Stuff(x);
    var n := |x| - 1;
    NoChange(data);
    WindowsStuffedEnd(data, 0, x);
    StuffLast(x);
    EscapeTableInvertible(x[n], x[n]);
    assert data[|data| - 1] == StuffByte(x[n])[1] == Substitute(x[n]).value;
    DecodeAfterLoop(data, x, |data|, Substitute(x[n]).value);
  }

  /** For example, the image of a lone `0x1B` decodes to two bytes, and three input bytes are counted. */
  lemma DecodeEscapePair()
    ensures Decode([ESCAPE_BYTE, 0x41]) == Ok(([ESCAPE_BYTE, 0x41], 3))
  {
    assert Stuff([ESCAPE_BYTE]) == StuffByte(ESCAPE_BYTE) + Stuff([]) == [ESCAPE_BYTE, 0x41];
    DecodeReEmits([ESCAPE_BYTE]);
    assert Substitute(ESCAPE_BYTE).value == 0x41;
    assert [ESCAPE_BYTE] + [0x41] == [ESCAPE_BYTE, 0x41];
  }

  /**
   * `Encoding::decode` as evidently intended: after the window loop, the last byte
   * is decoded on its own only when the loop left it unconsumed.
   */
  function DecodeFixed(data: seq<byte>): Result<(seq<byte>, nat), DecodeError>
  {
    match Windows(data, 0)
    case Err(e) => Err(e)
    case Ok((out, j)) => if j == |data| then Ok((out, j)) else Finish(data, Ok((out, j)))
  }

  /** The corrected decoder inverts `encode` on every input, and counts exactly the bytes it read. */
  lemma DecodeFixedStuff(x: seq<byte>)
    ensures DecodeFixed(Stuff(x)) == Ok((x, |Stuff(x)|))
  {
    var data := Stuff(x);
    NoChange(data);
    if x == [] {
      WindowsAtEnd(data);
    } else if IsReserved(x[|x| - 1]) {
      WindowsStuffedEnd(data, 0, x);
    } else {
      var n := |x| - 1;
      StuffLast(x);
      assert StuffByte(x[n]) == [x[n]];
      WindowsStuffed(data, 0, x[..n], [x[n]]);
      DecodeStuff(x);
    }
  }

  /** Where the loop leaves the last byte, the corrected decoder is the decoder as written. */
  lemma DecodeFixedAgrees(data: seq<byte>)
    requires Windows(data, 0).Ok? && Windows(data, 0).value.1 < |data|
    ensures DecodeFixed(data) == Decode(data)
  {
  }

  /** A decoding result with `n` more input bytes counted. */
  function Offset(r: Result<(seq<byte>, nat), DecodeError>, n: nat): Result<(seq<byte>, nat), DecodeError>
  {
    if r.Err? then r else Ok((r.value.0, r.value.1 + n))
  }

  /** From position `j` on, the window loop sees only `data[j..]`: it runs as on that suffix, `j` further on. */
  lemma {:induction false} WindowsShift(data: seq<byte>, j: nat, c: seq<byte>, i: nat)
    requires j <= |data| && data[j..] == c && i <= |c|
    ensures Windows(data, j + i) == Offset(Windows(c, i), j)
    decreases |c| - i
  {
    if |c| >= i + 2 {
      assert data[j + i..j + i + 2] == c[i..i + 2];
      var d := DecodeWindow(c[i..i + 2]);
      if d.Ok? {
        WindowsShift(data, j, c, i + d.value.0);
      }
    }
  }

  /**
   * Escaped bytes followed by any non-empty tail `c`: `decode` yields `x`, then
   * whatever it yields for `c` on its own, or the error it finds in `c`.
   */
  lemma DecodeAfterImage(x: seq<byte>, c: seq<byte>)
    requires c != []
    ensures Decode(Stuff(x) + c) == Prefixed(x, Offset(Decode(c), |Stuff(x)|))
  {
    var data := Stuff(x) + c;
    var j := |Stuff(x)|;
    NoChange(data);
    SplitAt(data, 0, Stuff(x), c);
    WindowsThrough(data, 0, j, x, c);
    assert data[j..] == c;
    WindowsShift(data, j, c, 0);
    LastOfAppend(Stuff(x), c);
    FinishPrefixed(data, c, x, Windows(c, 0), j);
  }

  /** So `decode` gives back escaped bytes followed by `c` only when it gives back `c` on its own. */
  lemma DecodeAfterImageBack(x: seq<byte>, c: seq<byte>)
    requires c != []
    ensures (Decode(Stuff(x) + c).Ok? && Decode(Stuff(x) + c).value.0 == x + c) <==>
              (Decode(c).Ok? && Decode(c).value.0 == c)
  {
    DecodeAfterImage(x, c);
    if Decode(c).Ok? {
      var d := Decode(c).value.0;
      PrefixedOk(x, d, Decode(c).value.1 + |Stuff(x)|);
      if x + d == x + c {
        assert d == (x + d)[|x|..];
      }
    }
  }

  /** The step after the loop depends only on the last byte, which `data` shares with its tail `c`. */
  lemma FinishPrefixed(data: seq<byte>, c: seq<byte>, x: seq<byte>, w: Result<(seq<byte>, nat), DecodeError>, j: nat)
    requires data != [] && c != [] && data[|data| - 1] == c[|c| - 1]
    ensures Finish(data, Prefixed(x, Offset(w, j))) == Prefixed(x, Offset(Finish(c, w), j))
  {
    if w.Ok? {
      PrefixedOk(x, w.value.0, w.value.1 + j);
      var d := DecodeWindow([c[|c| - 1]]);
      assert [data[|data| - 1]] == [c[|c| - 1]];
      if d.Ok? {
        PrefixedOk(x, w.value.0 + [d.value.1], w.value.1 + d.value.0 + j);
        assert x + (w.value.0 + [d.value.1]) == (x + w.value.0) + [d.value.1];
      }
    }
  }

  /**
   * Four raw bytes decode to themselves when none is `0x1B`, or when the only
   * `0x1B` is the third byte and `0x41` follows it: the pair decodes to `0x1B` and
   * the substitute left at the end is decoded once more.
   */
  predicate RawReadable(c: seq<byte>)
    requires |c| == 4
  {
    || (forall k :: 0 <= k < 4 ==> c[k] != ESCAPE_BYTE)
    || (c[0] != ESCAPE_BYTE && c[1] != ESCAPE_BYTE && c[2] == ESCAPE_BYTE && c[3] == 0x41)
  }

  /** One turn of the window loop, by the byte at `i` and the one after it. */
  lemma WindowsAt(data: seq<byte>, i: nat)
    requires i + 2 <= |data|
    ensures data[i] != ESCAPE_BYTE ==> Windows(data, i) == Prefixed([data[i]], Windows(data, i + 1))
    ensures data[i] == ESCAPE_BYTE && Reserved(data[i + 1]).Some? ==>
              Windows(data, i) == Prefixed([Reserved(data[i + 1]).value], Windows(data, i + 2))
    ensures data[i] == ESCAPE_BYTE && Reserved(data[i + 1]).None? ==> Windows(data, i).Err?
  {
    var w := data[i..i + 2];
    assert w[0] == data[i] && w[1] == data[i + 1];
    DecodeWindowCases(w);
  }

  /** `decode` gives four raw bytes back unchanged exactly when they are `RawReadable`. */
  lemma DecodeRaw(c: seq<byte>)
    requires |c| == 4
    ensures (Decode(c).Ok? && Decode(c).value.0 == c) <==> RawReadable(c)
  {
    WindowsAt(c, 0);
    WindowsAt(c, 1);
    WindowsAt(c, 2);
    DecodeWindowCases([c[3]]);
    assert Windows(c, 3) == Ok(([], 3));
    assert Windows(c, 4) == Ok(([], 4));
    if c[0] == ESCAPE_BYTE {
      // a pair at the front: at most three bytes come out
      if Windows(c, 0).Ok? {
        assert |Windows(c, 0).value.0| <= 2;
      }
    } else if c[1] == ESCAPE_BYTE {
      if Windows(c, 0).Ok? {
        assert |Windows(c, 0).value.0| <= 2;
      }
    } else if c[2] == ESCAPE_BYTE {
      if Reserved(c[3]).Some? {
        var b := Reserved(c[3]).value;
        PrefixedOk([b], [], 4);
        assert [b] + [] == [b];
        assert Windows(c, 2) == Ok(([b], 4));
        PrefixedOk([c[1]], [b], 4);
        assert [c[1]] + [b] == [c[1], b];
        assert Windows(c, 1) == Ok(([c[1], b], 4));
        PrefixedOk([c[0]], [c[1], b], 4);
        assert [c[0]] + [c[1], b] == [c[0], c[1], b];
        assert Windows(c, 0) == Ok(([c[0], c[1], b], 4));
        DecodeAfterLoop(c, [c[0], c[1], b], 4, c[3]);
        assert b == ESCAPE_BYTE <==> c[3] == 0x41;
        assert [c[0], c[1], b] + [c[3]] == c <==> b == ESCAPE_BYTE;
      }
    } else {
      PrefixedOk([c[2]], [], 3);
      assert [c[2]] + [] == [c[2]];
      assert Windows(c, 2) == Ok(([c[2]], 3));
      PrefixedOk([c[1]], [c[2]], 3);
      assert [c[1]] + [c[2]] == [c[1], c[2]];
      assert Windows(c, 1) == Ok(([c[1], c[2]], 3));
      PrefixedOk([c[0]], [c[1], c[2]], 3);
      assert [c[0]] + [c[1], c[2]] == [c[0], c[1], c[2]];
      assert Windows(c, 0) == Ok(([c[0], c[1], c[2]], 3));
      if c[3] != ESCAPE_BYTE {
        DecodeAfterLoop(c, [c[0], c[1], c[2]], 3, c[3]);
        assert [c[0], c[1], c[2]] + [c[3]] == c;
      }
    }
  }
}
