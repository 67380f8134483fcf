/**
 * The receive side of the firmware, Projekt/Core/Src/command_handler.cpp: pull
 * frames out of the receive ring buffer (`GetFrame`), cut their data into
 * space-separated words (`Split`, `ParseCommands`), look the first word up in the
 * command table (`ExecuteCommand`), and answer, in order, the frames `GetFrame`
 * returns before its first none that are addressed to this device and hold at
 * least one word (`HandlePendingCommands`).
 */
module CommandHandler {
  import opened Arith
  import opened Bytes
  import opened Wrappers
  import opened FrameDefs
  import opened CircularBuffers
  import opened Stuffing
  import opened FrameCodec
  import opened RingDecode
  import opened Commands

  /** `LOCAL_ID`: the id of this device in the sender and receiver fields. */
  const LOCAL_ID: byte := 100

  /**
   * The frame `GetFrame` decodes into.  Its sender and receiver are left
   * uninitialised in the firmware; they never matter, because a frame is handed
   * out only after a successful decode, which sets every field.
   */
  const BLANK: Frame := Frame(0, 0, [])

  /** What one call of `GetFrame` does: how many live bytes it drops, and the frame it returns. */
  datatype Extracted = Extracted(consumed: nat, frame: Option<Frame>)

  /**
   * `GetFrame` on ring storage `b`, in terms of the live bytes: skip to the first
   * `'('`; then look for the next delimiter.  None: keep the `'('` and wait.  Another
   * `'('`: drop everything before it.  A `')'`: decode the candidate with the ring
   * overload of `deserialize_from` and drop it, whatever the outcome.
   */
  function Extract(b: seq<byte>, tail: nat, head: nat): (r: Extracted)
    requires tail < |b| && head < |b|
    ensures r.consumed <= |Live(b, tail, head)|
    ensures r.frame.Some? ==> r.consumed > 0
  {
    var live := Live(b, tail, head);
    var k := FirstOf(live, 0, BEGIN_FRAME_BYTE, BEGIN_FRAME_BYTE);
    if k == |live| then Extracted(k, None)
    else
      var j := FirstOf(live, k + 1, BEGIN_FRAME_BYTE, END_FRAME_BYTE);
      if j == |live| then Extracted(k, None)
      else if live[j] == BEGIN_FRAME_BYTE then Extracted(j, None)
      else
        Extracted(j + 1, Candidate(b, Slot(tail, k, |b|), head))
  }

  /** The outcome of `Extract` once the first `'('` is at `k` and the next delimiter at `j`. */
  lemma ExtractAt(b: seq<byte>, tail: nat, head: nat, k: nat, j: nat)
    requires tail < |b| && head < |b|
    requires var live := Live(b, tail, head);
      && k == FirstOf(live, 0, BEGIN_FRAME_BYTE, BEGIN_FRAME_BYTE)
      && (k < |live| ==> j == FirstOf(live, k + 1, BEGIN_FRAME_BYTE, END_FRAME_BYTE))
    ensures var live := Live(b, tail, head);
      Extract(b, tail, head)
        == if k == |live| then Extracted(k, None)
           else if j == |live| then Extracted(k, None)
           else if live[j] == BEGIN_FRAME_BYTE then Extracted(j, None)
           else Extracted(j + 1, Candidate(b, Slot(tail, k, |b|), head))
  {
  }

  /** The frame the ring overload of `deserialize_from` yields at `tail`, if it succeeds. */
  function Candidate(b: seq<byte>, tail: nat, head: nat): (r: Option<Frame>)
    requires tail < |b| && head < |b|
  {
    var (err, f) := RingFrom(BLANK, b, tail, head);
    if err == DeserializeOk then Some(f) else None
  }

  /** `Candidate` on a known outcome of the ring overload. */
  lemma CandidateOf(b: seq<byte>, tail: nat, head: nat, err: DeserializeError, f: Frame)
    requires tail < |b| && head < |b| && RingFrom(BLANK, b, tail, head) == (err, f)
    ensures Candidate(b, tail, head) == if err == DeserializeOk then Some(f) else None
  {
  }

  /** The slot `|live|` places after `tail` is `head`. */
  lemma SlotOfHead(b: seq<byte>, tail: nat, head: nat)
    requires tail < |b| && head < |b|
    ensures Slot(tail, |Live(b, tail, head)|, |b|) == head
  {
    var n := |b|;
    if tail <= head {
      ModSmall(head - tail, n);
      ModSmall(head, n);
    } else {
      ModNeg(head - tail, n);
      ModWrap(head + n, n);
    }
  }

  /** The live bytes seen from `k` slots after `tail` are those from position `k` on. */
  lemma {:induction false} LiveDrop(b: seq<byte>, tail: nat, head: nat, k: nat)
    requires tail < |b| && head < |b| && k <= |Live(b, tail, head)|
    ensures Live(b, Slot(tail, k, |b|), head) == Live(b, tail, head)[k..]
  {
    var n := |b|;
    var live := Live(b, tail, head);
    if k == 0 {
      ModSmall(tail, n);
    } else {
      LiveDrop(b, tail, head, k - 1);
      var t := Slot(tail, k - 1, n);
      HeadNotLive(n, tail, head, k - 1);
      LiveShrink(b, t, head);
      SlotStep(tail, k - 1, 1, n);
      assert live[k - 1..][1..] == live[k..];
    }
  }

  /** A live position before the end is not at `head`, and the byte there is the live byte. */
  lemma LivePosition(b: seq<byte>, tail: nat, head: nat, k: nat)
    requires tail < |b| && head < |b| && k <= |Live(b, tail, head)|
    ensures Slot(tail, k, |b|) == head <==> k == |Live(b, tail, head)|
    ensures k < |Live(b, tail, head)| ==> b[Slot(tail, k, |b|)] == Live(b, tail, head)[k]
    ensures k < |b| - 1 ==> Slot(tail, k + 1, |b|) == (Slot(tail, k, |b|) + 1) % |b|
    ensures |Live(b, tail, head)| < |b|
  {
    var n := |b|;
    if k < |Live(b, tail, head)| {
      HeadNotLive(n, tail, head, k);
      LiveAt(b, tail, head, k);
    } else {
      SlotOfHead(b, tail, head);
    }
    if k < n - 1 {
      SlotStep(tail, k, 1, n);
    }
  }

  /**
   * The first loop of `GetFrame`: move `tail` on until it holds `'('` or reaches
   * `head`, that is, to the first live `'('`.
   */
  method SkipToBegin(rx: CircularBuffer) returns (ghost k: nat)
    requires rx.Valid()
    modifies rx
    ensures rx.Valid() && rx.head == old(rx.head)
    ensures k == FirstOf(Live(rx.buf[..], old(rx.tail), rx.head), 0, BEGIN_FRAME_BYTE, BEGIN_FRAME_BYTE)
    ensures rx.tail == Slot(old(rx.tail), k, rx.buf.Length)
  {
    var buf := rx.buf;
    var cap := rx.GetCapacity();
    var head := rx.head;
    ghost var b := buf[..];
    ghost var tail0 := rx.tail;
    ghost var live := Live(b, tail0, head);
    k := 0;
    ModSmall(tail0, cap);
    LivePosition(b, tail0, head, 0);
    while buf[rx.tail] != BEGIN_FRAME_BYTE && rx.tail != head
      invariant rx.Valid() && rx.head == head
      invariant k <= |live| && rx.tail == Slot(tail0, k, cap)
      invariant FirstOf(live, k, BEGIN_FRAME_BYTE, BEGIN_FRAME_BYTE) == FirstOf(live, 0, BEGIN_FRAME_BYTE, BEGIN_FRAME_BYTE)
      invariant Slot(tail0, k, cap) == head <==> k == |live|
      invariant k < |live| ==> buf[rx.tail] == live[k]
      decreases |live| - k
    {
      rx.tail := (rx.tail + 1) % cap;
      LivePosition(b, tail0, head, k);
      k := k + 1;
      LivePosition(b, tail0, head, k);
    }
  }

  /**
   * The second loop of `GetFrame`, from the slot after the `'('` at live position
   * `k`: move on until `head` or a delimiter.  The firmware returns from inside the
   * loop when the delimiter is a second `'('`; here the caller does.
   */
  method FindDelimiter(buf: array<byte>, ghost tail: nat, head: nat, ghost k: nat, start: nat) returns (idx: nat, ghost j: nat)
    requires tail < buf.Length && head < buf.Length && k < |Live(buf[..], tail, head)|
    requires start == Slot(tail, k, buf.Length)
    ensures j == FirstOf(Live(buf[..], tail, head), k + 1, BEGIN_FRAME_BYTE, END_FRAME_BYTE)
    ensures idx == Slot(tail, j, buf.Length)
    ensures idx == Slot(tail, FirstOf(Live(buf[..], tail, head), k + 1, BEGIN_FRAME_BYTE, END_FRAME_BYTE), buf.Length)
  {
    ghost var b := buf[..];
    ghost var live := Live(b, tail, head);
    var cap := buf.Length;
    j := k + 1;
    idx := (start + 1) % cap;
    LivePosition(b, tail, head, k);
    LivePosition(b, tail, head, j);
    while idx != head && buf[idx] != END_FRAME_BYTE && buf[idx] != BEGIN_FRAME_BYTE
      invariant ScanAt(b, tail, head, k, j, idx)
      decreases |live| - j
    {
      ScanStep(b, tail, head, k, j, idx);
      idx := (idx + 1) % cap;
      j := j + 1;
    }
  }

  /** Loop invariant of `FindDelimiter`: slot `idx` is live position `j`, and no delimiter lies between `k` and `j`. */
  ghost predicate ScanAt(b: seq<byte>, tail: nat, head: nat, k: nat, j: nat, idx: nat)
    requires tail < |b| && head < |b| && k < |Live(b, tail, head)|
  {
    var live := Live(b, tail, head);
    && k < j <= |live| && idx == Slot(tail, j, |b|)
    && FirstOf(live, j, BEGIN_FRAME_BYTE, END_FRAME_BYTE) == FirstOf(live, k + 1, BEGIN_FRAME_BYTE, END_FRAME_BYTE)
    && (idx == head <==> j == |live|)
    && (j < |live| ==> b[idx] == live[j])
  }

  /** One turn of `FindDelimiter` over a byte that is no delimiter. */
  lemma ScanStep(b: seq<byte>, tail: nat, head: nat, k: nat, j: nat, idx: nat)
    requires tail < |b| && head < |b| && k < |Live(b, tail, head)|
    requires ScanAt(b, tail, head, k, j, idx) && idx != head
    requires b[idx] != BEGIN_FRAME_BYTE && b[idx] != END_FRAME_BYTE
    ensures ScanAt(b, tail, head, k, j + 1, (idx + 1) % |b|)
  {
    var live := Live(b, tail, head);
    LivePosition(b, tail, head, j);
    assert j < |live| && live[j] == b[idx];
    assert FirstOf(live, j, BEGIN_FRAME_BYTE, END_FRAME_BYTE) == FirstOf(live, j + 1, BEGIN_FRAME_BYTE, END_FRAME_BYTE);
    LivePosition(b, tail, head, j + 1);
  }

  /**
   * `GetFrame`: the walks over the receive ring, with `tail` written in place.  It
   * changes `tail` only: `head` and the storage stay as they are.
   */
  method GetFrame(rx: CircularBuffer) returns (r: Option<Frame>)
    requires rx.Valid()
    modifies rx
    ensures rx.Valid() && rx.head == old(rx.head)
    ensures var e := Extract(rx.buf[..], old(rx.tail), rx.head);
      rx.tail == Slot(old(rx.tail), e.consumed, rx.buf.Length) && r == e.frame
  {
    var buf := rx.buf;
    var cap := rx.GetCapacity();
    var head := rx.head;
    ghost var b := buf[..];
    ghost var tail0 := rx.tail;
    var k := SkipToBegin(rx);
    LivePosition(b, tail0, head, k);
    if rx.tail == head {
      ExtractAt(b, tail0, head, k, 0);
      assert Extract(b, tail0, head) == Extracted(k, None);
      return None;
    }
    var idx, j := FindDelimiter(buf, tail0, head, k, rx.tail);
    ExtractOutcome(b, tail0, head, k, j, idx);
    if idx != head && buf[idx] == BEGIN_FRAME_BYTE {
      rx.tail := idx;
      return None;
    }
    if head == idx || buf[idx] != END_FRAME_BYTE {
      return None;
    }
    var err, frame := DeserializeFromRing(BLANK, rx);
    CandidateOf(b, rx.tail, head, err, frame);
    rx.tail := (idx + 1) % cap;
    if err == DeserializeOk {
      return Some(frame);
    }
    return None;
  }

  /**
   * What `GetFrame` finds once the first `'('` is at live position `k` and the scan
   * for the next delimiter stops at live position `j`, in slot `idx`: no frame and
   * `tail` left at the `'('` when there is no delimiter; no frame and `tail` moved
   * to a second `'('`; or the candidate at the `'('` and `tail` just past the `')'`.
   */
  lemma ExtractOutcome(b: seq<byte>, tail: nat, head: nat, k: nat, j: nat, idx: nat)
    requires tail < |b| && head < |b|
    requires k == FirstOf(Live(b, tail, head), 0, BEGIN_FRAME_BYTE, BEGIN_FRAME_BYTE) < |Live(b, tail, head)|
    requires j == FirstOf(Live(b, tail, head), k + 1, BEGIN_FRAME_BYTE, END_FRAME_BYTE) && idx == Slot(tail, j, |b|)
    ensures idx != head ==> b[idx] == BEGIN_FRAME_BYTE || b[idx] == END_FRAME_BYTE
    ensures idx == head ==>
      Extract(b, tail, head).frame.None? && Slot(tail, Extract(b, tail, head).consumed, |b|) == Slot(tail, k, |b|)
    ensures idx != head && b[idx] == BEGIN_FRAME_BYTE ==>
      Extract(b, tail, head).frame.None? && Slot(tail, Extract(b, tail, head).consumed, |b|) == idx
    ensures idx != head && b[idx] == END_FRAME_BYTE ==>
      && Extract(b, tail, head).frame == Candidate(b, Slot(tail, k, |b|), head)
      && Slot(tail, Extract(b, tail, head).consumed, |b|) == (idx + 1) % |b|
  {
    var live := Live(b, tail, head);
    LivePosition(b, tail, head, j);
    ExtractAt(b, tail, head, k, j);
    if idx == head {
      assert Extract(b, tail, head) == Extracted(k, None);
    } else {
      assert j < |live| && b[idx] == live[j];
      if b[idx] == BEGIN_FRAME_BYTE {
        assert Extract(b, tail, head) == Extracted(j, None);
      } else {
        assert Extract(b, tail, head) == Extracted(j + 1, Candidate(b, Slot(tail, k, |b|), head));
      }
    }
  }

  /** A sequence cut into three parts: where each part sits. */
  lemma ThreeParts(s: seq<byte>, a: seq<byte>, w: seq<byte>, c: seq<byte>)
    requires s == a + w + c
    ensures s[|a|..] == w + c && s[|a|..|a| + |w|] == w
    ensures forall t :: 0 <= t < |a| ==> s[t] == a[t]
  {
  }

  /**
   * Round trip: when the live bytes hold some bytes without a `'('`, then the wire
   * image of a well-formed frame, then anything, `GetFrame` returns that frame and
   * drops exactly the bytes up to and including its `')'`.
   */
  lemma ExtractRoundTrip(b: seq<byte>, tail: nat, head: nat, junk: seq<byte>, f: Frame, rest: seq<byte>)
    requires tail < |b| && head < |b| && WellFormed(f)
    requires Live(b, tail, head) == junk + Wire(f) + rest
    requires forall t :: 0 <= t < |junk| ==> junk[t] != BEGIN_FRAME_BYTE
    ensures Extract(b, tail, head) == Extracted(|junk| + |Wire(f)|, Some(f))
  {
    var live := Live(b, tail, head);
    var w := Wire(f);
    var payload := Fields(f) + CrcBytes(f);
    var k := |junk|;
    var j := k + |w| - 1;
    ThreeParts(live, junk, w, rest);
    EncloseDelimiters(payload);
    assert live[k] == w[0];
    FirstOfAt(live, 0, BEGIN_FRAME_BYTE, BEGIN_FRAME_BYTE, k);
    forall t | k + 1 <= t < j
      ensures live[t] != BEGIN_FRAME_BYTE && live[t] != END_FRAME_BYTE
    {
      assert live[t] == w[t - k];
    }
    assert live[j] == w[|w| - 1];
    FirstOfAt(live, k + 1, BEGIN_FRAME_BYTE, END_FRAME_BYTE, j);
    ExtractAt(b, tail, head, k, j);
    LiveDrop(b, tail, head, k);
    RingRoundTrip(BLANK, b, Slot(tail, k, |b|), head, f, rest);
    CandidateOf(b, Slot(tail, k, |b|), head, DeserializeOk, f);
  }

  /**
   * Conversely, a frame `GetFrame` returns comes from the first `'('` in the live
   * bytes, at `k`: the bytes from there to the first `')'` after it, at `j`, which
   * is the last byte dropped, with no delimiter between, decode with the ring
   * overload of `deserialize_from` to that frame.  `RingOk` then says those bytes
   * are its wire image.
   */
  lemma ExtractFound(b: seq<byte>, tail: nat, head: nat) returns (k: nat, j: nat)
    requires tail < |b| && head < |b| && Extract(b, tail, head).frame.Some?
    ensures k < j < |Live(b, tail, head)| && Extract(b, tail, head).consumed == j + 1
    ensures Slot(tail, k, |b|) < |b| && Live(b, Slot(tail, k, |b|), head) == Live(b, tail, head)[k..]
    ensures Live(b, tail, head)[k] == BEGIN_FRAME_BYTE && Live(b, tail, head)[j] == END_FRAME_BYTE
    ensures forall t :: 0 <= t < k ==> Live(b, tail, head)[t] != BEGIN_FRAME_BYTE
    ensures forall t :: k < t < j ==> Live(b, tail, head)[t] != BEGIN_FRAME_BYTE && Live(b, tail, head)[t] != END_FRAME_BYTE
    ensures RingFrom(BLANK, b, Slot(tail, k, |b|), head) == (DeserializeOk, Extract(b, tail, head).frame.value)
  {
    k, j := ExtractShape(b, tail, head);
    var t' := Slot(tail, k, |b|);
    LiveDrop(b, tail, head, k);
    var g := RingFrom(BLANK, b, t', head);
    CandidateOf(b, t', head, g.0, g.1);
  }

  /** When `GetFrame` returns a frame, the first `'('` is at `k` and the `')'` after it at `j`. */
  lemma ExtractShape(b: seq<byte>, tail: nat, head: nat) returns (k: nat, j: nat)
    requires tail < |b| && head < |b| && Extract(b, tail, head).frame.Some?
    ensures var live := Live(b, tail, head);
      && k < j < |live| && live[j] == END_FRAME_BYTE
      && k == FirstOf(live, 0, BEGIN_FRAME_BYTE, BEGIN_FRAME_BYTE)
      && j == FirstOf(live, k + 1, BEGIN_FRAME_BYTE, END_FRAME_BYTE)
      && Extract(b, tail, head) == Extracted(j + 1, Candidate(b, Slot(tail, k, |b|), head))
  {
    var live := Live(b, tail, head);
    k := FirstOf(live, 0, BEGIN_FRAME_BYTE, BEGIN_FRAME_BYTE);
    assert k < |live|;
    j := FirstOf(live, k + 1, BEGIN_FRAME_BYTE, END_FRAME_BYTE);
    ExtractAt(b, tail, head, k, j);
  }

  // ---------------------------------------------------------------------------
  // HandlePendingCommands
  // ---------------------------------------------------------------------------

  /** One `SendData(frame.sender, ret)` of `HandlePendingCommands`: where the answer goes, and what it is. */
  datatype Response = Response(receiver: byte, execution: Execution)

  /**
   * The answer to one frame: none for a frame addressed to another device or
   * holding no words, and otherwise the outcome of its command, sent back to its
   * sender.
   */
  function Answer(f: Frame): seq<Response>
  {
    if f.receiver != LOCAL_ID || Words(f.data) == [] then []
    else [Response(f.sender, ExecuteCommand(Words(f.data)))]
  }

  /** The outcome of `HandlePendingCommands`: the answers sent, in order, and where `tail` ends. */
  datatype Handled = Handled(responses: seq<Response>, tail: nat)

  /**
   * `HandlePendingCommands` on ring storage `b`: take frames out with `GetFrame`
   * until it returns none, answering each.
   */
  function Pending(b: seq<byte>, tail: nat, head: nat): (r: Handled)
    requires tail < |b| && head < |b|
    ensures r.tail < |b|
    decreases |Live(b, tail, head)|
  {
    var e := Extract(b, tail, head);
    var t := Slot(tail, e.consumed, |b|);
    if e.frame.None? then Handled([], t)
    else
      LiveDrop(b, tail, head, e.consumed);
      var rest := Pending(b, t, head);
      Handled(Answer(e.frame.value) + rest.responses, rest.tail)
  }

  /** `Pending` unfolded once. */
  lemma PendingAt(b: seq<byte>, tail: nat, head: nat, e: Extracted)
    requires tail < |b| && head < |b| && e == Extract(b, tail, head)
    ensures var t := Slot(tail, e.consumed, |b|);
      && (e.frame.None? ==> Pending(b, tail, head) == Handled([], t))
      && (e.frame.Some? ==>
            && |Live(b, t, head)| < |Live(b, tail, head)|
            && Pending(b, tail, head)
               == Handled(Answer(e.frame.value) + Pending(b, t, head).responses, Pending(b, t, head).tail))
  {
    if e.frame.Some? {
      LiveDrop(b, tail, head, e.consumed);
    }
  }

  /**
   * `HandlePendingCommands`: call `GetFrame` until it returns none; skip frames
   * addressed to another device; parse the words of the others and, when there
   * are any, execute the command and record the answer for its sender.
   */
  method HandlePendingCommands(rx: CircularBuffer) returns (responses: seq<Response>)
    requires rx.Valid()
    modifies rx
    ensures rx.Valid() && rx.head == old(rx.head)
    ensures var h := Pending(rx.buf[..], old(rx.tail), rx.head);
      responses == h.responses && rx.tail == h.tail
  {
    ghost var b := rx.buf[..];
    ghost var head := rx.head;
    ghost var all := Pending(b, rx.tail, head);
    responses := [];
    while true
      invariant rx.Valid() && rx.head == head && rx.buf[..] == b
      invariant responses + Pending(b, rx.tail, head).responses == all.responses
      invariant Pending(b, rx.tail, head).tail == all.tail
      decreases |Live(b, rx.tail, head)|
    {
      ghost var t := rx.tail;
      ghost var e := Extract(b, t, head);
      PendingAt(b, t, head, e);
      var optional := GetFrame(rx);
      if optional.None? {
        assert responses + [] == responses;
        return;
      }
      var frame := optional.value;
      Assoc(responses, Answer(frame), Pending(b, rx.tail, head).responses);
      if frame.receiver != LOCAL_ID {
        assert responses + Answer(frame) == responses;
        continue;
      }
      var command := ParseCommands(frame.data);
      if command.Some? {
        var ret := ExecuteCommand(command.value);
        responses := responses + [Response(frame.sender, ret)];
      } else {
        assert responses + Answer(frame) == responses;
      }
    }
  }

  /** A whole frame at the front of the live bytes, after bytes without a `'('`, is answered first. */
  lemma PendingFrame(b: seq<byte>, tail: nat, head: nat, junk: seq<byte>, f: Frame, rest: seq<byte>)
    requires tail < |b| && head < |b| && WellFormed(f)
    requires Live(b, tail, head) == junk + Wire(f) + rest
    requires forall t :: 0 <= t < |junk| ==> junk[t] != BEGIN_FRAME_BYTE
    ensures var after := Pending(b, Slot(tail, |junk| + |Wire(f)|, |b|), head);
      Pending(b, tail, head) == Handled(Answer(f) + after.responses, after.tail)
  {
    ExtractRoundTrip(b, tail, head, junk, f, rest);
    PendingOnce(b, tail, head, |junk| + |Wire(f)|, f);
  }

  /** Once `GetFrame` takes out `f`, the answer to it comes before those to the bytes after it. */
  lemma PendingOnce(b: seq<byte>, tail: nat, head: nat, n: nat, f: Frame)
    requires tail < |b| && head < |b| && Extract(b, tail, head) == Extracted(n, Some(f))
    ensures var after := Pending(b, Slot(tail, n, |b|), head);
      Pending(b, tail, head) == Handled(Answer(f) + after.responses, after.tail)
  {
    PendingAt(b, tail, head, Extracted(n, Some(f)));
  }

  /**
   * A frame addressed to another device changes nothing but `tail`: the answers,
   * and where `tail` ends, are those of the bytes after it.
   */
  lemma PendingSkips(b: seq<byte>, tail: nat, head: nat, junk: seq<byte>, f: Frame, rest: seq<byte>)
    requires tail < |b| && head < |b| && WellFormed(f) && f.receiver != LOCAL_ID
    requires Live(b, tail, head) == junk + Wire(f) + rest
    requires forall t :: 0 <= t < |junk| ==> junk[t] != BEGIN_FRAME_BYTE
    ensures Pending(b, tail, head) == Pending(b, Slot(tail, |junk| + |Wire(f)|, |b|), head)
  {
    PendingFrame(b, tail, head, junk, f, rest);
    assert Answer(f) == [];
    assert [] + Pending(b, Slot(tail, |junk| + |Wire(f)|, |b|), head).responses
      == Pending(b, Slot(tail, |junk| + |Wire(f)|, |b|), head).responses;
  }

  /**
   * A frame addressed to this device whose data holds a word is answered first:
   * its sender gets the outcome of executing its words.
   */
  lemma PendingAnswers(b: seq<byte>, tail: nat, head: nat, junk: seq<byte>, f: Frame, rest: seq<byte>)
    requires tail < |b| && head < |b| && WellFormed(f) && f.receiver == LOCAL_ID
    requires exists t :: 0 <= t < |f.data| && f.data[t] != SPACE
    requires Live(b, tail, head) == junk + Wire(f) + rest
    requires forall t :: 0 <= t < |junk| ==> junk[t] != BEGIN_FRAME_BYTE
    ensures Pending(b, tail, head).responses
      == [Response(f.sender, ExecuteCommand(Words(f.data)))]
         + Pending(b, Slot(tail, |junk| + |Wire(f)|, |b|), head).responses
  {
    NoWords(f.data);
    PendingFrame(b, tail, head, junk, f, rest);
  }

  /**
   * A `'('` that a second `'('` follows before any `')'` ends the call: nothing is
   * answered, `tail` stops at the second `'('`, and whatever comes after it, a
   * whole frame included, waits for the next call.
   */
  lemma PendingInterrupted(b: seq<byte>, tail: nat, head: nat, junk: seq<byte>, x: seq<byte>, rest: seq<byte>)
    requires tail < |b| && head < |b|
    requires Live(b, tail, head) == junk + [BEGIN_FRAME_BYTE] + x + [BEGIN_FRAME_BYTE] + rest
    requires forall t :: 0 <= t < |junk| ==> junk[t] != BEGIN_FRAME_BYTE
    requires forall t :: 0 <= t < |x| ==> x[t] != BEGIN_FRAME_BYTE && x[t] != END_FRAME_BYTE
    ensures Pending(b, tail, head) == Handled([], Slot(tail, |junk| + 1 + |x|, |b|))
  {
    var live := Live(b, tail, head);
    var k := |junk|;
    var j := k + 1 + |x|;
    assert live[k] == BEGIN_FRAME_BYTE;
    forall t | 0 <= t < k ensures live[t] != BEGIN_FRAME_BYTE {
      assert live[t] == junk[t];
    }
    FirstOfAt(live, 0, BEGIN_FRAME_BYTE, BEGIN_FRAME_BYTE, k);
    forall t | k + 1 <= t < j ensures live[t] != BEGIN_FRAME_BYTE && live[t] != END_FRAME_BYTE {
      assert live[t] == x[t - k - 1];
    }
    assert live[j] == BEGIN_FRAME_BYTE;
    FirstOfAt(live, k + 1, BEGIN_FRAME_BYTE, END_FRAME_BYTE, j);
    ExtractAt(b, tail, head, k, j);
    PendingAt(b, tail, head, Extracted(j, None));
  }

  /**
   * A delimited candidate that does not deserialize (a corrupted checksum, say)
   * ends the call too: nothing is answered and `tail` moves past its `')'`, so a
   * frame behind it waits for the next call.
   */
  lemma PendingRejected(b: seq<byte>, tail: nat, head: nat, junk: seq<byte>, x: seq<byte>, rest: seq<byte>)
    requires tail < |b| && head < |b|
    requires Live(b, tail, head) == junk + [BEGIN_FRAME_BYTE] + x + [END_FRAME_BYTE] + rest
    requires forall t :: 0 <= t < |junk| ==> junk[t] != BEGIN_FRAME_BYTE
    requires forall t :: 0 <= t < |x| ==> x[t] != BEGIN_FRAME_BYTE && x[t] != END_FRAME_BYTE
    requires RingFrom(BLANK, b, Slot(tail, |junk|, |b|), head).0 != DeserializeOk
    ensures Pending(b, tail, head) == Handled([], Slot(tail, |junk| + |x| + 2, |b|))
  {
    var live := Live(b, tail, head);
    var k := |junk|;
    var j := k + 1 + |x|;
    assert live[k] == BEGIN_FRAME_BYTE;
    forall t | 0 <= t < k ensures live[t] != BEGIN_FRAME_BYTE {
      assert live[t] == junk[t];
    }
    FirstOfAt(live, 0, BEGIN_FRAME_BYTE, BEGIN_FRAME_BYTE, k);
    forall t | k + 1 <= t < j ensures live[t] != BEGIN_FRAME_BYTE && live[t] != END_FRAME_BYTE {
      assert live[t] == x[t - k - 1];
    }
    assert live[j] == END_FRAME_BYTE;
    FirstOfAt(live, k + 1, BEGIN_FRAME_BYTE, END_FRAME_BYTE, j);
    ExtractAt(b, tail, head, k, j);
    var r := RingFrom(BLANK, b, Slot(tail, k, |b|), head);
    CandidateOf(b, Slot(tail, k, |b|), head, r.0, r.1);
    PendingAt(b, tail, head, Extracted(j + 1, None));
  }
}
