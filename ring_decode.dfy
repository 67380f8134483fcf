/**
 * The zero-copy `Frame::deserialize_from(ICircularBuffer&)` of
 * proto_cpp/src/frame.cpp: decode a frame straight out of the storage of a ring
 * buffer, walking from the byte after `tail` with wrap-around, two bytes at a time,
 * into a scratch `StaticVec` of `FRAME_MAX_SIZE - 2` bytes.  The caller guarantees
 * that the buffer holds an `END_FRAME_BYTE`.
 */
module RingDecode {
  import opened Arith
  import opened Bytes
  import opened Wrappers
  import opened FrameDefs
  import opened StaticVecs
  import opened CircularBuffers
  import opened Stuffing
  import opened FrameCodec

  /** The scratch vector holds `FRAME_MAX_SIZE - 2` bytes: the delimiters are never stored. */
  const RING_DECODED_MAX: nat := FRAME_MAX_SIZE - 2

  /** `(head ? head : cap) - 1`: the slot just before `head`, where the walk gives up. */
  function LastSlot(n: nat, head: nat): (r: nat)
    requires head < n
    ensures r < n && Slot(r, 1, n) == head
  {
    if head != 0 then
      ModSmall(head, n);
      head - 1
    else
      ModWrap(n, n);
      n - 1
  }

  /** The two bytes `decode_byte` is given: the byte at `idx` and the next one, wrapping. */
  function Window(b: seq<byte>, idx: nat): (w: seq<byte>)
    requires idx < |b|
    ensures |w| == 2 && w[0] == b[idx] && w[1] == b[Slot(idx, 1, |b|)]
  {
    [b[idx], b[(idx + 1) % |b|]]
  }

  /**
   * The loop of the ring overload from slot `idx`, having decoded `decoded` so far:
   * `Ok` with all the decoded bytes when it lands on an `END_FRAME_BYTE`, and
   * otherwise the error it stops with.
   */
  function Walk(b: seq<byte>, idx: nat, stop: nat, decoded: seq<byte>): (r: Result<seq<byte>, DeserializeError>)
    requires idx < |b| && stop < |b| && |decoded| <= RING_DECODED_MAX
    decreases RING_DECODED_MAX - |decoded|
  {
    if idx == stop || b[idx] == END_FRAME_BYTE then
      if b[idx] == END_FRAME_BYTE then Ok(decoded) else Err(UnexpectedEOF)
    else
      match DecodeByte(Window(b, idx))
      case Err(e) => Err(e)
      case Ok(d) =>
        if |decoded| == RING_DECODED_MAX then Err(DataTooBig)
        else Walk(b, (idx + d.read) % |b|, stop, decoded + [d.value])
  }

  /**
   * The ring overload of `deserialize_from` on storage `b` with indices `tail` and
   * `head`, applied to the frame `f`: the error and the frame afterwards.
   */
  function RingFrom(f: Frame, b: seq<byte>, tail: nat, head: nat): (r: (DeserializeError, Frame))
    requires tail < |b| && head < |b|
  {
    if b[tail] != BEGIN_FRAME_BYTE then (InvalidStartByte, f)
    else if RingSize(|b|, tail, head) < FRAME_MIN_SIZE then (UnexpectedEOF, f)
    else
      match Walk(b, Slot(tail, 1, |b|), LastSlot(|b|, head), [])
      case Err(e) => (e, f)
      case Ok(d) => FromDecoded(f, d)
  }

  /**
   * `Frame::deserialize_from(ICircularBuffer&)`: it reads the buffer and changes
   * nothing in it.
   */
  method DeserializeFromRing(f: Frame, cb: CircularBuffer) returns (err: DeserializeError, g: Frame)
    requires cb.Valid()
    ensures (err, g) == RingFrom(f, cb.buf[..], cb.tail, cb.head)
  {
    if cb.buf[cb.tail] != BEGIN_FRAME_BYTE {
      return InvalidStartByte, f;
    }
    if cb.GetSize() < FRAME_MIN_SIZE {
      return UnexpectedEOF, f;
    }
    var walked := DecodeRing(cb.buf, cb.tail, cb.head);
    if walked.Err? {
      RingFromErr(f, cb.buf[..], cb.tail, cb.head);
      return walked.error, f;
    }
    RingFromOk(f, cb.buf[..], cb.tail, cb.head);
    err, g := DeserializeFromDecoded(f, walked.value);
  }

  /**
   * The loop of the ring overload: walk from the slot after `tail` to the slot
   * before `head`, decoding two-byte windows into a scratch `StaticVec`, and stop on
   * the first `END_FRAME_BYTE` landed on.  `Ok` carries the decoded bytes.
   */
  method DecodeRing(buf: array<byte>, tail: nat, head: nat) returns (r: Result<seq<byte>, DeserializeError>)
    requires tail < buf.Length && head < buf.Length
    ensures r == Walk(buf[..], Slot(tail, 1, buf.Length), LastSlot(buf.Length, head), [])
  {
    ghost var b := buf[..];
    var n := buf.Length;
    var decoded := new StaticVec<byte>(RING_DECODED_MAX);
    var last: nat := (if head != 0 then head else n) - 1;
    assert last == LastSlot(n, head);
    var idx: nat := (tail + 1) % n;
    ghost var outcome := Walk(b, idx, last, []);
    ghost var dec: seq<byte> := [];
    while idx != last
      invariant idx < n && decoded.Valid() && decoded.Capacity() == RING_DECODED_MAX
      invariant decoded.Span() == dec && Walk(b, idx, last, dec) == outcome
      decreases RING_DECODED_MAX - |dec|
    {
      var window := [buf[idx], buf[(idx + 1) % n]];
      if buf[idx] == END_FRAME_BYTE {
        break;
      }
      assert window == Window(b, idx);
      var x := DecodeByte(window);
      if x.Err? {
        WalkTurn(b, idx, last, dec);
        return Err(x.error);
      }
      ghost var dec' := dec + [x.value.value];
      var next: nat := (idx + x.value.read) % n;
      WalkAdvance(b, idx, last, dec, x.value, next, dec');
      var rejected := decoded.PushBack(x.value.value);
      if rejected.Some? {
        return Err(DataTooBig);
      }
      dec, idx := dec', next;
    }
    WalkLands(b, idx, last, dec);
    if buf[idx] == END_FRAME_BYTE {
      return Ok(decoded.Span());
    }
    return Err(UnexpectedEOF);
  }

  /** One turn of the loop, on a byte other than `END_FRAME_BYTE` before the last slot. */
  lemma WalkTurn(b: seq<byte>, idx: nat, stop: nat, dec: seq<byte>)
    requires idx < |b| && stop < |b| && |dec| <= RING_DECODED_MAX
    requires idx != stop && b[idx] != END_FRAME_BYTE
    ensures var x := DecodeByte(Window(b, idx));
      Walk(b, idx, stop, dec)
        == if x.Err? then Err(x.error)
           else if |dec| == RING_DECODED_MAX then Err(DataTooBig)
           else Walk(b, (idx + x.value.read) % |b|, stop, dec + [x.value.value])
  {
  }

  /**
   * The turn that decodes `d.value` from `d.read` bytes: with room left it moves on
   * to `next`, with none the walk stops at `DataTooBig`.
   */
  lemma WalkAdvance(b: seq<byte>, idx: nat, stop: nat, dec: seq<byte>, d: Decoded, next: nat, dec': seq<byte>)
    requires idx < |b| && stop < |b| && |dec| <= RING_DECODED_MAX
    requires idx != stop && b[idx] != END_FRAME_BYTE
    requires DecodeByte(Window(b, idx)) == Ok(d)
    requires next == (idx + d.read) % |b| && dec' == dec + [d.value]
    ensures |dec| == RING_DECODED_MAX ==> Walk(b, idx, stop, dec) == Err(DataTooBig)
    ensures |dec| < RING_DECODED_MAX ==> Walk(b, idx, stop, dec) == Walk(b, next, stop, dec')
  {
    WalkTurn(b, idx, stop, dec);
  }

  /** Leaving the loop: the walk ends on `END_FRAME_BYTE`, or at the last slot without one. */
  lemma WalkLands(b: seq<byte>, idx: nat, stop: nat, dec: seq<byte>)
    requires idx < |b| && stop < |b| && |dec| <= RING_DECODED_MAX
    requires idx == stop || b[idx] == END_FRAME_BYTE
    ensures Walk(b, idx, stop, dec) == if b[idx] == END_FRAME_BYTE then Ok(dec) else Err(UnexpectedEOF)
  {
  }

  /** The ring overload past its first two checks, when the walk fails. */
  lemma RingFromErr(f: Frame, b: seq<byte>, tail: nat, head: nat)
    requires tail < |b| && head < |b|
    requires b[tail] == BEGIN_FRAME_BYTE && RingSize(|b|, tail, head) >= FRAME_MIN_SIZE
    requires Walk(b, Slot(tail, 1, |b|), LastSlot(|b|, head), []).Err?
    ensures RingFrom(f, b, tail, head) == (Walk(b, Slot(tail, 1, |b|), LastSlot(|b|, head), []).error, f)
  {
  }

  /** The ring overload past its first two checks, when the walk succeeds. */
  lemma RingFromOk(f: Frame, b: seq<byte>, tail: nat, head: nat)
    requires tail < |b| && head < |b|
    requires b[tail] == BEGIN_FRAME_BYTE && RingSize(|b|, tail, head) >= FRAME_MIN_SIZE
    requires Walk(b, Slot(tail, 1, |b|), LastSlot(|b|, head), []).Ok?
    ensures RingFrom(f, b, tail, head) == FromDecoded(f, Walk(b, Slot(tail, 1, |b|), LastSlot(|b|, head), []).value)
  {
  }

  /** Within one turn of the ring a slot is found without division. */
  lemma SlotValue(tail: nat, k: nat, n: nat)
    requires tail < n && k < n
    ensures Slot(tail, k, n) == if tail + k < n then tail + k else tail + k - n
  {
    if tail + k < n { ModSmall(tail + k, n); } else { ModWrap(tail + k, n); }
  }

  /** Moving `u` slots on from the `k`-th slot after `tail` reaches the `(k + u)`-th. */
  lemma SlotStep(tail: nat, k: nat, u: nat, n: nat)
    requires tail < n && k + u < n
    ensures Slot(Slot(tail, k, n), u, n) == Slot(tail, k + u, n)
  {
    SlotValue(tail, k, n);
    SlotValue(Slot(tail, k, n), u, n);
    SlotValue(tail, k + u, n);
  }

  /** Distinct positions less than `n` after `tail` are distinct slots. */
  lemma SlotsDistinct(tail: nat, i: nat, j: nat, n: nat)
    requires tail < n && i < j < n
    ensures Slot(tail, i, n) != Slot(tail, j, n)
  {
    SlotValue(tail, i, n);
    SlotValue(tail, j, n);
  }

  /** The slot where the walk gives up holds the last live byte. */
  lemma LastSlotIsLast(b: seq<byte>, tail: nat, head: nat)
    requires tail < |b| && head < |b| && Live(b, tail, head) != []
    ensures LastSlot(|b|, head) == Slot(tail, |Live(b, tail, head)| - 1, |b|)
  {
    var n := |b|;
    var len := |Live(b, tail, head)|;
    if tail < head {
      ModSmall(head - tail, n);
      ModSmall(head - 1, n);
    } else {
      ModNeg(head - tail, n);
      if head == 0 {
        ModSmall(n - 1, n);
      } else {
        ModWrap(head + n - 1, n);
      }
    }
  }

  /** The `k`-th live byte and the one after it are the window at the `k`-th slot. */
  lemma WindowAt(b: seq<byte>, tail: nat, head: nat, k: nat)
    requires tail < |b| && head < |b| && k + 1 < |Live(b, tail, head)|
    ensures Window(b, Slot(tail, k, |b|)) == Live(b, tail, head)[k..k + 2]
  {
    LiveAt(b, tail, head, k);
    LiveAt(b, tail, head, k + 1);
    SlotStep(tail, k, 1, |b|);
  }

  /** Landing on a live `END_FRAME_BYTE`, the walk ends with what it has decoded. */
  lemma WalkAtEnd(b: seq<byte>, tail: nat, head: nat, k: nat, dec: seq<byte>)
    requires tail < |b| && head < |b| && |dec| <= RING_DECODED_MAX
    requires k < |Live(b, tail, head)| && Live(b, tail, head)[k] == END_FRAME_BYTE
    ensures Walk(b, Slot(tail, k, |b|), LastSlot(|b|, head), dec) == Ok(dec)
  {
    LiveAt(b, tail, head, k);
  }

  /**
   * One turn of the loop on a live byte other than `END_FRAME_BYTE` that is not the
   * last live byte: decode the window of it and the next live byte, push the
   * result, and move on by the number of bytes read.
   */
  lemma WalkStep(b: seq<byte>, tail: nat, head: nat, k: nat, dec: seq<byte>)
    requires tail < |b| && head < |b| && |dec| <= RING_DECODED_MAX
    requires k + 1 < |Live(b, tail, head)| && Live(b, tail, head)[k] != END_FRAME_BYTE
    ensures var x := DecodeByte(Live(b, tail, head)[k..k + 2]);
      Walk(b, Slot(tail, k, |b|), LastSlot(|b|, head), dec)
        == if x.Err? then Err(x.error)
           else if |dec| == RING_DECODED_MAX then Err(DataTooBig)
           else Walk(b, Slot(tail, k + x.value.read, |b|), LastSlot(|b|, head), dec + [x.value.value])
  {
    var live := Live(b, tail, head);
    var n := |b|;
    LastSlotIsLast(b, tail, head);
    SlotsDistinct(tail, k, |live| - 1, n);
    assert Slot(tail, k, n) != LastSlot(n, head);
    LiveAt(b, tail, head, k);
    assert b[Slot(tail, k, n)] == live[k];
    WindowAt(b, tail, head, k);
    var w := Window(b, Slot(tail, k, n));
    var x0 := DecodeByte(w);
    assert Walk(b, Slot(tail, k, n), LastSlot(n, head), dec) == if x0.Err? then Err(x0.error) else if |dec| == RING_DECODED_MAX then Err(DataTooBig) else Walk(b, (Slot(tail, k, n) + x0.value.read) % n, LastSlot(n, head), dec + [x0.value.value]);
    assert w == live[k..k + 2];
    if x0.Ok? {
      SlotStep(tail, k, x0.value.read, n);
      assert (Slot(tail, k, n) + x0.value.read) % n == Slot(tail, k + x0.value.read, n);
    }
  }

  /** A window over the wire image of `v` and what follows decodes to `v`. */
  lemma ImageHead(x: seq<byte>, v: byte, rest: seq<byte>)
    requires x == StuffByte(v) + rest && rest != []
    ensures DecodeByte(x[..2]) == Ok(Decoded(v, |StuffByte(v)|)) && x[|StuffByte(v)|..] == rest
  {
    var a := StuffByte(v);
    var w := x[..2];
    assert w == a + w[|a|..];
    DecodeEncodeByte(v, w[|a|..]);
  }

  /**
   * Walking over the wire image of `q` in the live bytes, from position `k`, up to an
   * `END_FRAME_BYTE` that is not past the last live byte, decodes `q`.
   */
  lemma {:induction false} WalkStuffed(b: seq<byte>, tail: nat, head: nat, k: nat, dec: seq<byte>, q: seq<byte>, post: seq<byte>)
    requires tail < |b| && head < |b| && |dec| + |q| <= RING_DECODED_MAX
    requires k <= |Live(b, tail, head)| && Live(b, tail, head)[k..] == Stuff(q) + [END_FRAME_BYTE] + post
    ensures Walk(b, Slot(tail, k, |b|), LastSlot(|b|, head), dec) == Ok(dec + q)
    decreases |q|
  {
    var live := Live(b, tail, head);
    if q == [] {
      assert live[k] == live[k..][0];
      WalkAtEnd(b, tail, head, k, dec);
      assert dec + q == dec;
    } else {
      var a, rest := StuffByte(q[0]), Stuff(q[1..]);
      StuffCons(q);
      Ahead(live, k, a, rest, END_FRAME_BYTE, post);
      ImageHead(live[k..], q[0], rest + [END_FRAME_BYTE] + post);
      WalkStep(b, tail, head, k, dec);
      WalkStuffed(b, tail, head, k + |a|, dec + [q[0]], q[1..], post);
      PushFirst(dec, q);
    }
  }

  /** Pushing the first byte of `q`, then the rest of it. */
  lemma PushFirst(dec: seq<byte>, q: seq<byte>)
    requires q != []
    ensures dec + [q[0]] + q[1..] == dec + q
  {
    assert q == [q[0]] + q[1..];
  }

  /**
   * A byte decoded at position `k` before the first `END_FRAME_BYTE` at `j` does not
   * reach past it: its wire image starts the bytes from `k` up to `j`.
   */
  lemma DecodedBeforeEnd(live: seq<byte>, k: nat, j: nat, x: Decoded)
    requires k < j < |live| && live[j] == END_FRAME_BYTE
    requires DecodeByte(live[k..k + 2]) == Ok(x)
    ensures k + x.read <= j && live[k..j] == StuffByte(x.value) + live[k + x.read..j]
  {
    var u := x.read;
    DecodeByteImage(live[k..k + 2]);
    if u == 2 {
      assert live[k + 1] == StuffByte(x.value)[1];
    }
    assert live[k..j] == live[k..k + u] + live[k + u..j];
  }

  /**
   * Prepending a byte already pushed: when the bytes decoded after `dec + [v]` have
   * the image `rest`, those decoded after `dec` have the image of `v` followed by it.
   */
  lemma PushedImage(x: seq<byte>, rest: seq<byte>, r: seq<byte>, dec: seq<byte>, v: byte)
    requires x == StuffByte(v) + rest
    requires |dec + [v]| <= |r| && r[..|dec + [v]|] == dec + [v] && Stuff(r[|dec + [v]|..]) == rest
    ensures r[..|dec|] == dec && Stuff(r[|dec|..]) == x
  {
    assert |dec + [v]| == |dec| + 1;
    assert r[..|dec|] == r[..|dec| + 1][..|dec|];
    assert r[|dec|..] == [v] + r[|dec| + 1..];
    assert r[|dec|..][1..] == r[|dec| + 1..];
  }

  /**
   * An escape pair never skips an `END_FRAME_BYTE`: from position `k`, with the first
   * `END_FRAME_BYTE` at live position `j`, the walk either decodes a string whose
   * wire image is exactly the live bytes from `k` up to `j`, or stops with a decode
   * error or `DataTooBig`.
   */
  lemma {:induction false} WalkToEnd(b: seq<byte>, tail: nat, head: nat, k: nat, j: nat, dec: seq<byte>)
    requires tail < |b| && head < |b| && |dec| <= RING_DECODED_MAX
    requires var live := Live(b, tail, head);
      && k <= j < |live| && live[j] == END_FRAME_BYTE
      && forall i :: k <= i < j ==> live[i] != END_FRAME_BYTE
    ensures var r := Walk(b, Slot(tail, k, |b|), LastSlot(|b|, head), dec);
      && (r.Ok? ==> |dec| <= |r.value| && r.value[..|dec|] == dec
                    && Stuff(r.value[|dec|..]) == Live(b, tail, head)[k..j])
      && (r.Err? ==> r.error in {InvalidByte, InvalidEscapeSequence, DataTooBig})
    decreases j - k
  {
    var live := Live(b, tail, head);
    var r := Walk(b, Slot(tail, k, |b|), LastSlot(|b|, head), dec);
    if k == j {
      WalkAtEnd(b, tail, head, k, dec);
      assert r.value[|dec|..] == [];
    } else {
      WalkStep(b, tail, head, k, dec);
      var x := DecodeByte(live[k..k + 2]);
      if x.Ok? && |dec| < RING_DECODED_MAX {
        var u, v := x.value.read, x.value.value;
        var next := Walk(b, Slot(tail, k + u, |b|), LastSlot(|b|, head), dec + [v]);
        assert r == next;
        DecodedBeforeEnd(live, k, j, x.value);
        WalkToEnd(b, tail, head, k + u, j, dec + [v]);
        if next.Ok? {
          PushedImage(live[k..j], live[k + u..j], next.value, dec, v);
        }
      }
    }
  }

  /** The first live byte sits at `tail`. */
  lemma FirstLive(b: seq<byte>, tail: nat, head: nat)
    requires tail < |b| && head < |b| && Live(b, tail, head) != []
    ensures b[tail] == Live(b, tail, head)[0] && RingSize(|b|, tail, head) == |Live(b, tail, head)|
  {
    LiveAt(b, tail, head, 0);
    ModSmall(tail, |b|);
  }

  /**
   * Round trip: when the live bytes of the ring start with the wire image of a
   * well-formed frame, the ring overload restores that frame, whatever follows it.
   */
  lemma RingRoundTrip(g: Frame, b: seq<byte>, tail: nat, head: nat, f: Frame, rest: seq<byte>)
    requires tail < |b| && head < |b| && WellFormed(f)
    requires Live(b, tail, head) == Wire(f) + rest
    ensures RingFrom(g, b, tail, head) == (DeserializeOk, f)
  {
    var live := Live(b, tail, head);
    var p := Fields(f) + CrcBytes(f);
    FirstLive(b, tail, head);
    DropFirst(live, BEGIN_FRAME_BYTE, Stuff(p), END_FRAME_BYTE, rest);
    WalkStuffed(b, tail, head, 1, [], p, rest);
    assert [] + p == p;
    DecodedRoundTrip(g, f);
  }

  /**
   * Conversely, when the ring overload succeeds and the first `END_FRAME_BYTE` after
   * `tail` is live at position `j`, the live bytes up to it are the wire image of
   * the well-formed frame it produced.
   */
  lemma RingOk(g: Frame, b: seq<byte>, tail: nat, head: nat, j: nat, f: Frame)
    requires tail < |b| && head < |b|
    requires var live := Live(b, tail, head);
      && 1 <= j < |live| && live[j] == END_FRAME_BYTE
      && forall i :: 1 <= i < j ==> live[i] != END_FRAME_BYTE
    requires RingFrom(g, b, tail, head) == (DeserializeOk, f)
    ensures WellFormed(f) && Live(b, tail, head)[..j + 1] == Wire(f)
  {
    var live := Live(b, tail, head);
    FirstLive(b, tail, head);
    WalkToEnd(b, tail, head, 1, j, []);
    var d := Walk(b, Slot(tail, 1, |b|), LastSlot(|b|, head), []).value;
    assert d[0..] == d;
    DecodedOk(g, d);
    EncloseAt(live, j, d);
  }

  /** Bytes from a `BEGIN_FRAME_BYTE` to an `END_FRAME_BYTE` around the image of `p` enclose `p`. */
  lemma EncloseAt(x: seq<byte>, j: nat, p: seq<byte>)
    requires 1 <= j < |x| && x[0] == BEGIN_FRAME_BYTE && x[j] == END_FRAME_BYTE && x[1..j] == Stuff(p)
    ensures x[..j + 1] == Enclose(p)
  {
    assert x[..j + 1] == [x[0]] + x[1..j] + [x[j]];
  }
}
