/**
 * terminal/src/serial_com.rs: the `FrameBuilder` that cuts the byte stream read
 * from a serial port into frames.  It keeps the bytes of the frame it is reading
 * in `buf`: a `'('` starts a new frame, a `')'` hands what was collected to
 * `Frame::deserialize`, and a buffer that reaches `FRAME_MAX_LEN` bytes is dropped.
 *
 * `deserialize` may panic (bytes left after the checksum); a panic in `push_byte`
 * unwinds through `push_buf`, so both report `Panicked` and the builder is not
 * used again.
 */
module SerialCom {
  import opened Bytes
  import opened Wrappers
  import opened FrameDefs
  import opened Stuffing
  import opened FrameCodec
  import opened RsFrame

  /** `FRAME_MAX_LEN` of `push_byte`. */
  const FRAME_MAX_LEN: nat := 1280

  /**
   * The buffer between calls: empty, or a frame opened by `'('` with no delimiter
   * after it, shorter than `FRAME_MAX_LEN`.
   */
  predicate Partial(buf: seq<byte>)
  {
    && |buf| < FRAME_MAX_LEN
    && (buf == [] ||
        (buf[0] == BEGIN_FRAME_BYTE && forall k :: 1 <= k < |buf| ==> buf[k] != BEGIN_FRAME_BYTE && buf[k] != END_FRAME_BYTE))
  }

  /** The buffer after `push_byte`, and what the call gave back. */
  datatype Step = Step(buf: seq<byte>, out: Outcome<Option<Frame>>)

  /** `push_byte` on buffer `buf`. */
  function Pushed(buf: seq<byte>, b: byte): (r: Step)
  {
    if b == BEGIN_FRAME_BYTE then Step([BEGIN_FRAME_BYTE], Returned(None))
    else if b == END_FRAME_BYTE then
      if buf == [] then Step(buf, Returned(None))
      else
        var full := buf + [END_FRAME_BYTE];
        match Deserialized(full)
        case Panicked => Step(full, Panicked)
        case Returned(result) => Step([], Returned(if result.Ok? then Some(result.value) else None))
    else
      var grown := if buf == [] then buf else buf + [b];
      if |grown| == FRAME_MAX_LEN then Step([], Returned(None)) else Step(grown, Returned(None))
  }

  /** The frames a call contributes to `push_buf`'s vector. */
  function Emitted(o: Option<Frame>): seq<Frame>
  {
    if o.Some? then [o.value] else []
  }

  /** The buffer after `push_buf`, and the frames it returned in order, or its panic. */
  datatype Fed = Fed(buf: seq<byte>, out: Outcome<seq<Frame>>)

  /** `push_buf`: `push_byte` on every byte in turn, collecting frames, until a panic. */
  function Feed(buf: seq<byte>, bytes: seq<byte>): (r: Fed)
    decreases |bytes|
  {
    if bytes == [] then Fed(buf, Returned([]))
    else
      var before := Feed(buf, bytes[..|bytes| - 1]);
      match before.out
      case Panicked => before
      case Returned(frames) =>
        var s := Pushed(before.buf, bytes[|bytes| - 1]);
        match s.out
        case Panicked => Fed(s.buf, Panicked)
        case Returned(o) => Fed(s.buf, Returned(frames + Emitted(o)))
  }

  /** The builder after feeding more bytes, with the frames delivered earlier in front. */
  function After(frames: seq<Frame>, r: Fed): Fed
  {
    match r.out
    case Panicked => r
    case Returned(more) => Fed(r.buf, Returned(frames + more))
  }

  class FrameBuilder {
    var buf: seq<byte>

    /** `FrameBuilder::new`: an empty buffer (its capacity is not modelled). */
    constructor ()
      ensures buf == []
    {
      buf := [];
    }

    /** `FrameBuilder::push_byte`. */
    method PushByte(b: byte) returns (r: Outcome<Option<Frame>>)
      modifies this
      ensures Pushed(old(buf), b) == Step(buf, r)
    {
      if b == BEGIN_FRAME_BYTE {
        buf := [b];
        return Returned(None);
      } else if b == END_FRAME_BYTE {
        if buf != [] {
          buf := buf + [b];
          var result := Deserialize(buf);
          if result.Panicked? {
            return Panicked;
          }
          buf := [];
          return Returned(if result.result.Ok? then Some(result.result.value) else None);
        }
        return Returned(None);
      } else {
        if buf != [] {
          buf := buf + [b];
        }
        if |buf| == FRAME_MAX_LEN {
          buf := [];
        }
        return Returned(None);
      }
    }

    /** `FrameBuilder::push_buf`. */
    method PushBuf(bytes: seq<byte>) returns (r: Outcome<seq<Frame>>)
      modifies this
      ensures Feed(old(buf), bytes) == Fed(buf, r)
    {
      ghost var start := buf;
      var out: seq<Frame> := [];
      for i := 0 to |bytes|
        invariant Feed(start, bytes[..i]) == Fed(buf, Returned(out))
      {
        var o := PushByte(bytes[i]);
        FeedNext(start, bytes, i);
        if o.Panicked? {
          FeedAppend(start, bytes[..i + 1], bytes[i + 1..]);
          Rejoin(bytes, i + 1);
          return Panicked;
        }
        out := out + Emitted(o.result);
      }
      NoChange(bytes);
      return Returned(out);
    }
  }

  /** One more byte of the input, as the loop of `push_buf` takes it. */
  lemma FeedNext(buf: seq<byte>, bytes: seq<byte>, i: nat)
    requires i < |bytes|
    ensures Feed(buf, bytes[..i + 1]) == match Feed(buf, bytes[..i]).out
      case Panicked => Feed(buf, bytes[..i])
      case Returned(frames) =>
        var s := Pushed(Feed(buf, bytes[..i]).buf, bytes[i]);
        if s.out.Panicked? then Fed(s.buf, Panicked) else Fed(s.buf, Returned(frames + Emitted(s.out.result)))
  {
    assert bytes[..i + 1][..i] == bytes[..i];
  }

  /** The last byte of the input, fed after the ones before it. */
  lemma FeedSnoc(buf: seq<byte>, a: seq<byte>, b: byte)
    ensures Feed(buf, a + [b]) == match Feed(buf, a).out
      case Panicked => Feed(buf, a)
      case Returned(frames) =>
        var s := Pushed(Feed(buf, a).buf, b);
        if s.out.Panicked? then Fed(s.buf, Panicked) else Fed(s.buf, Returned(frames + Emitted(s.out.result)))
  {
    assert (a + [b])[..|a|] == a;
  }

  lemma Rejoin<T>(s: seq<T>, i: nat)
    requires i <= |s|
    ensures s[..i] + s[i..] == s
  {
  }

  /**
   * `push_byte` keeps the buffer a partial frame: `'('` restarts it, other bytes
   * are appended only after a `'('`, `')'` empties it, and so does reaching the limit.
   */
  lemma PushedKeeps(buf: seq<byte>, b: byte)
    requires Partial(buf)
    ensures Pushed(buf, b).out.Returned? ==> Partial(Pushed(buf, b).buf)
  {
    if b != BEGIN_FRAME_BYTE && b != END_FRAME_BYTE && buf != [] {
      var grown := buf + [b];
      assert forall k :: 1 <= k < |grown| ==> grown[k] == if k < |buf| then buf[k] else b;
    }
  }

  /**
   * `push_byte` delivers a frame exactly on a `')'` that closes a non-empty buffer
   * which `deserialize` accepts; it is the frame `deserialize` returned.
   */
  lemma PushedDelivers(buf: seq<byte>, b: byte, f: Frame)
    ensures Pushed(buf, b).out == Returned(Some(f)) <==>
              b == END_FRAME_BYTE && buf != [] && Deserialized(buf + [END_FRAME_BYTE]) == Returned(Ok(f))
  {
  }

  /** `push_byte` panics exactly where `deserialize` does, on a `')'` that closes a non-empty buffer. */
  lemma PushedPanics(buf: seq<byte>, b: byte)
    ensures Pushed(buf, b).out.Panicked? <==>
              b == END_FRAME_BYTE && buf != [] && Deserialized(buf + [END_FRAME_BYTE]) == Panicked
  {
  }

  /** `push_buf` keeps the buffer a partial frame unless it panics. */
  lemma {:induction false} FeedKeeps(buf: seq<byte>, bytes: seq<byte>)
    requires Partial(buf)
    ensures Feed(buf, bytes).out.Returned? ==> Partial(Feed(buf, bytes).buf)
    decreases |bytes|
  {
    if bytes != [] {
      var before := Feed(buf, bytes[..|bytes| - 1]);
      FeedKeeps(buf, bytes[..|bytes| - 1]);
      if before.out.Returned? {
        PushedKeeps(before.buf, bytes[|bytes| - 1]);
      }
    }
  }

  /**
   * Feeding `a + c` is feeding `a` and then `c`, with the frames of `a` first; a
   * panic while feeding `a` ends it.  So reads of any size deliver the same frames.
   */
  lemma {:induction false} FeedAppend(buf: seq<byte>, a: seq<byte>, c: seq<byte>)
    ensures Feed(buf, a).out.Panicked? ==> Feed(buf, a + c) == Feed(buf, a)
    ensures Feed(buf, a).out.Returned? ==>
              Feed(buf, a + c) == After(Feed(buf, a).out.result, Feed(Feed(buf, a).buf, c))
    decreases |c|
  {
    var first := Feed(buf, a);
    if c == [] {
      NoChange(a);
      if first.out.Returned? {
        NoChange(first.out.result);
      }
    } else {
      var c' := c[..|c| - 1];
      var x := c[|c| - 1];
      FeedAppend(buf, a, c');
      assert (a + c)[..|a + c| - 1] == a + c';
      assert (a + c)[|a + c| - 1] == x;
      if first.out.Returned? {
        var frames := first.out.result;
        var rest := Feed(first.buf, c');
        if rest.out.Returned? {
          var s := Pushed(rest.buf, x);
          if s.out.Returned? {
            Assoc(frames, rest.out.result, Emitted(s.out.result));
          }
        }
      }
    }
  }

  /**
   * After `'('` and bytes other than delimiters, fewer than make `FRAME_MAX_LEN`,
   * the buffer holds exactly those bytes and nothing was delivered.
   */
  lemma {:induction false} FeedOpen(buf: seq<byte>, x: seq<byte>)
    requires |x| < FRAME_MAX_LEN - 1
    requires forall k :: 0 <= k < |x| ==> x[k] != BEGIN_FRAME_BYTE && x[k] != END_FRAME_BYTE
    ensures Feed(buf, [BEGIN_FRAME_BYTE] + x) == Fed([BEGIN_FRAME_BYTE] + x, Returned([]))
    decreases |x|
  {
    if x == [] {
      FeedSnoc(buf, [], BEGIN_FRAME_BYTE);
      NoChange([BEGIN_FRAME_BYTE]);
      NoChange(Emitted(None));
    } else {
      var x', last := x[..|x| - 1], x[|x| - 1];
      FeedOpen(buf, x');
      FeedSnoc(buf, [BEGIN_FRAME_BYTE] + x', last);
      Snoc(x);
      Assoc([BEGIN_FRAME_BYTE], x', [last]);
      assert Pushed([BEGIN_FRAME_BYTE] + x', last) == Step([BEGIN_FRAME_BYTE] + x' + [last], Returned(None));
      NoChange(Emitted(None));
    }
  }

  /**
   * A segment `'('`, then bytes other than delimiters, then `')'` short enough for
   * the buffer, delivers what `deserialize` makes of the whole segment, whatever the
   * buffer held before: one frame, nothing, or a panic.
   */
  lemma Segment(buf: seq<byte>, x: seq<byte>)
    requires |x| < FRAME_MAX_LEN - 1
    requires forall k :: 0 <= k < |x| ==> x[k] != BEGIN_FRAME_BYTE && x[k] != END_FRAME_BYTE
    ensures var w := [BEGIN_FRAME_BYTE] + x + [END_FRAME_BYTE];
      Feed(buf, w) == match Deserialized(w)
        case Panicked => Fed(w, Panicked)
        case Returned(result) => Fed([], Returned(if result.Ok? then [result.value] else []))
  {
    FeedOpen(buf, x);
    FeedSnoc(buf, [BEGIN_FRAME_BYTE] + x, END_FRAME_BYTE);
    Close([BEGIN_FRAME_BYTE] + x);
  }

  /** `')'` after an opened frame, with nothing delivered before. */
  lemma Close(open: seq<byte>)
    requires open != []
    ensures var w := open + [END_FRAME_BYTE];
      var s := Pushed(open, END_FRAME_BYTE);
      (if s.out.Panicked? then Fed(s.buf, Panicked) else Fed(s.buf, Returned([] + Emitted(s.out.result))))
      == match Deserialized(w)
        case Panicked => Fed(w, Panicked)
        case Returned(result) => Fed([], Returned(if result.Ok? then [result.value] else []))
  {
    var r := Deserialized(open + [END_FRAME_BYTE]);
    if r.Returned? {
      NoChange(Emitted(if r.result.Ok? then Some(r.result.value) else None));
    }
  }

  /** With an empty buffer, bytes other than `'('` are dropped and deliver nothing. */
  lemma {:induction false} FeedIdle(y: seq<byte>)
    requires forall k :: 0 <= k < |y| ==> y[k] != BEGIN_FRAME_BYTE
    ensures Feed([], y) == Fed([], Returned([]))
    decreases |y|
  {
    if y != [] {
      var y' := y[..|y| - 1];
      FeedIdle(y');
      FeedSnoc([], y', y[|y| - 1]);
      Snoc(y);
      assert Pushed([], y[|y| - 1]) == Step([], Returned(None));
      NoChange(Emitted(None));
    }
  }

  /**
   * A segment too long for the buffer delivers nothing: the buffer is dropped on
   * reaching `FRAME_MAX_LEN` bytes, and the rest up to and including `')'` with it.
   */
  lemma Overflow(buf: seq<byte>, x: seq<byte>)
    requires |x| >= FRAME_MAX_LEN - 1
    requires forall k :: 0 <= k < |x| ==> x[k] != BEGIN_FRAME_BYTE && x[k] != END_FRAME_BYTE
    ensures Feed(buf, [BEGIN_FRAME_BYTE] + x + [END_FRAME_BYTE]) == Fed([], Returned([]))
  {
    var n := FRAME_MAX_LEN - 2;
    var open := [BEGIN_FRAME_BYTE] + x[..n];
    FeedOpen(buf, x[..n]);
    var full := open + [x[n]];
    FeedSnoc(buf, open, x[n]);
    assert Pushed(open, x[n]) == Step([], Returned(None));
    NoChange(Emitted(None));
    var tail := x[n + 1..] + [END_FRAME_BYTE];
    FeedIdle(tail);
    FeedAppend(buf, full, tail);
    NoChange<Frame>([]);
    Regroup(BEGIN_FRAME_BYTE, x, n, END_FRAME_BYTE);
  }

  /**
   * A frame from the device whose wire image fits the buffer reaches the terminal
   * as that frame, unless the last byte of its checksum needs escaping; then the
   * terminal panics.  Either way it does not depend on what came before.
   */
  lemma DeviceFrameDelivered(buf: seq<byte>, f: Frame)
    requires |f.data| < 65536 && |Wire(f)| <= FRAME_MAX_LEN
    ensures !IsReserved(CrcBytes(f)[3]) ==> Feed(buf, Wire(f)) == Fed([], Returned([f]))
    ensures IsReserved(CrcBytes(f)[3]) ==> Feed(buf, Wire(f)).out.Panicked?
  {
    var x := Stuff(Fields(f) + CrcBytes(f));
    StuffNoDelimiters(Fields(f) + CrcBytes(f));
    Segment(buf, x);
    if IsReserved(CrcBytes(f)[3]) {
      DeviceFramePanics(f);
    } else {
      DeviceFrameRead(f);
    }
  }

  /** A frame from the device longer than the buffer never reaches the terminal. */
  lemma DeviceFrameDropped(buf: seq<byte>, f: Frame)
    requires |Wire(f)| > FRAME_MAX_LEN
    ensures Feed(buf, Wire(f)) == Fed([], Returned([]))
  {
    var x := Stuff(Fields(f) + CrcBytes(f));
    StuffNoDelimiters(Fields(f) + CrcBytes(f));
    Overflow(buf, x);
  }
}
