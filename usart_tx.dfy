/**
 * The transmit side of Projekt/Core/Src/usart_tx_handler.cpp: `UART_puts` queues
 * bytes into a `CircularBuffer<FRAME_MAX_SIZE * 4>`, the TX-complete interrupt
 * hands them to the UART one at a time, and `SendData` frames a message and
 * queues all of its wire image.
 *
 * `HAL_UART_Transmit_IT` is recorded as an event: the ghost sequence `sent` holds
 * every byte handed to it, in order.  The bytes still waiting in the ring follow
 * them, so `Stream` is everything the UART has been or will be asked to send.
 */
module UsartTx {
  import opened Arith
  import opened Bytes
  import opened FrameDefs
  import opened StaticVecs
  import opened CircularBuffers
  import opened FrameCodec
  import opened CommandHandler
  import opened Commands

  /** `CircularBuffer<FRAME_MAX_SIZE * 4> buffer`. */
  const TX_CAPACITY: nat := FRAME_MAX_SIZE * 4

  /** `StaticVec<uint8_t, FRAME_MAX_SIZE * 2> serialized` in `SendData`. */
  const SERIALIZED_CAPACITY: nat := FRAME_MAX_SIZE * 2

  /** The smaller of `a` and `b`: the `MIN` macro. */
  function Min(a: nat, b: nat): (r: nat)
    ensures r <= a && r <= b && (r == a || r == b)
  {
    if a < b then a else b
  }

  /** The frame `SendData` builds: sender `LOCAL_ID`, and the data cut to the frame's capacity. */
  function Outgoing(receiver: byte, data: seq<byte>): (f: Frame)
    ensures WellFormed(f) && f.sender == LOCAL_ID && f.receiver == receiver
    ensures f.data <= data && (|data| <= FRAME_DATA_MAX_SIZE ==> f.data == data)
  {
    Frame(LOCAL_ID, receiver, Fit(data, FRAME_DATA_MAX_SIZE))
  }

  /** The wire image of any frame `SendData` builds fits the 2560-byte `serialized` buffer. */
  lemma OutgoingFits(receiver: byte, data: seq<byte>)
    ensures |Wire(Outgoing(receiver, data))| <= SERIALIZED_CAPACITY
  {
    WireBound(Outgoing(receiver, data));
  }

  /**
   * Everything the UART has been or will be asked to send: the bytes handed to it,
   * then the queued bytes behind the one on the wire.
   */
  ghost function StreamOf(sent: seq<byte>, busy: bool, queued: seq<byte>): (s: seq<byte>)
    ensures sent <= s
  {
    if busy && queued != [] then sent + queued[1..] else sent
  }

  /** Queuing `w` behind a byte on the wire adds `w` to the stream. */
  lemma StreamAppend(sent: seq<byte>, queued: seq<byte>, w: seq<byte>)
    requires queued != []
    ensures StreamOf(sent, true, queued + w) == StreamOf(sent, true, queued) + w
  {
    assert (queued + w)[1..] == queued[1..] + w;
  }

  /** Queuing `w` on an idle UART and handing over its first byte adds `w` to the stream. */
  lemma StreamStart(sent: seq<byte>, w: seq<byte>)
    requires w != []
    ensures StreamOf(sent + [w[0]], true, w) == StreamOf(sent, false, []) + w
  {
    assert [w[0]] + w[1..] == w;
  }

  /** Handing the next queued byte to the UART once the previous one is out leaves the stream as it was. */
  lemma StreamNext(sent: seq<byte>, queued: seq<byte>)
    requires |queued| >= 1
    ensures StreamOf(if |queued| > 1 then sent + [queued[1]] else sent, |queued| > 1, queued[1..]) == StreamOf(sent, true, queued)
  {
    if |queued| > 1 {
      assert queued[1..] == [queued[1]] + queued[2..];
    }
  }

  /**
   * The first half of `SendData`: build `Frame{LOCAL_ID, receiver, data}`, the data
   * cut to capacity by `push_slice`, and serialize it into a 2560-byte
   * `StaticVec`.  That always succeeds, since the frame is well formed and its
   * wire image fits.
   */
  method SerializeOutgoing(receiver: byte, data: seq<byte>) returns (wire: seq<byte>)
    ensures wire == Wire(Outgoing(receiver, data))
  {
    var payload := new StaticVec<byte>(FRAME_DATA_MAX_SIZE);
    var _ := payload.PushSlice(data);
    assert [] + data == data;
    var frame := Frame(LOCAL_ID, receiver, payload.Span());
    var serialized := new StaticVec<byte>(SERIALIZED_CAPACITY);
    var err := SerializeInto(frame, serialized);
    OutgoingFits(receiver, data);
    assert err == SerializeOk;
    assert [] + Wire(frame) == Wire(frame);
    wire := serialized.Span();
  }

  /** Taking `k` more bytes of the rest of `v` after the first `i` extends the prefix taken. */
  lemma Advance(v: seq<byte>, i: nat, k: nat)
    requires i + k <= |v|
    ensures v[..i + k] == v[..i] + v[i..][..k]
  {
    assert v[i..][..k] == v[i..i + k];
  }

  /** The file-scope `buffer` and `busy` of the transmit handler. */
  class TxHandler {
    const ring: CircularBuffer
    /** A byte is on the wire and its TX-complete interrupt is still to come. */
    var busy: bool
    /** Every byte handed to `HAL_UART_Transmit_IT`, in order. */
    ghost var sent: seq<byte>

    /**
     * `busy` exactly while the ring holds bytes; the byte at `tail` is then the
     * one being transmitted, so it is the last one handed to the UART.
     */
    ghost predicate Valid()
      reads this, ring, ring.buf
    {
      && ring.Valid() && ring.buf.Length == TX_CAPACITY
      && (busy <==> ring.Contents() != [])
      && (busy ==> sent != [] && sent[|sent| - 1] == ring.Contents()[0])
    }

    /** Everything the UART has been or will be asked to send, in order. */
    ghost function Stream(): seq<byte>
      reads this, ring, ring.buf
      requires Valid()
    {
      StreamOf(sent, busy, ring.Contents())
    }

    constructor ()
      ensures Valid() && fresh(ring) && fresh(ring.buf)
      ensures !busy && Stream() == []
    {
      ring := new CircularBuffer(TX_CAPACITY);
      busy := false;
      sent := [];
    }

    /** The byte at `tail` is the oldest queued byte. */
    lemma TailByte()
      requires ring.Valid() && ring.Contents() != []
      ensures ring.buf[ring.tail] == ring.Contents()[0]
    {
      LiveAt(ring.buf[..], ring.tail, ring.head, 0);
      ModSmall(ring.tail, ring.buf.Length);
    }

    /**
     * The copy loop of `UART_puts`: write `v[0]`, `v[1]`, ... at `head` while
     * advancing `head` would not reach `tail`, so it stops one slot short of full.
     */
    method Fill(v: seq<byte>) returns (k: nat)
      requires ring.Valid()
      modifies ring, ring.buf
      ensures ring.Valid() && ring.tail == old(ring.tail)
      ensures k == Min(|v|, ring.buf.Length - 1 - |old(ring.Contents())|)
      ensures ring.Contents() == old(ring.Contents()) + v[..k]
    {
      var n := ring.buf.Length;
      ghost var c0 := ring.Contents();
      k := 0;
      while Next(ring.head, n) != ring.tail && k < |v|
        invariant ring.Valid() && ring.tail == old(ring.tail)
        invariant k <= |v| && ring.Contents() == c0 + v[..k]
        decreases |v| - k
      {
        // the same write and step of `head` as the accepting branch of `push_head`
        FullAt(n, ring.tail, ring.head);
        var _ := ring.PushHead(v[k]);
        k := k + 1;
        assert v[..k] == v[..k - 1] + [v[k - 1]];
      }
      FullAt(n, ring.tail, ring.head);
    }

    /**
     * `UART_puts`: copy the longest prefix of `v` that leaves one slot free, start
     * transmitting if the UART was idle, and return how many bytes were taken.
     * `tail` is not moved, so the queue only grows at its end.
     */
    method UartPuts(v: seq<byte>) returns (k: nat)
      requires Valid()
      modifies this, ring, ring.buf
      ensures Valid() && ring.tail == old(ring.tail)
      ensures k == Min(|v|, TX_CAPACITY - 1 - |old(ring.Contents())|)
      ensures ring.Contents() == old(ring.Contents()) + v[..k]
      ensures Stream() == old(Stream()) + v[..k]
    {
      ghost var c0 := ring.Contents();
      k := Fill(v);
      ghost var c := ring.Contents();
      if ring.head != ring.tail && !busy {
        LiveEmpty(ring.buf[..], ring.tail, ring.head);
        TailByte();
        busy := true;
        sent := sent + [ring.buf[ring.tail]];
        StreamStart(old(sent), c);
      } else if busy {
        StreamAppend(sent, c0, v[..k]);
      }
    }

    /**
     * `HAL_UART_TxCpltCallback`: the byte at `tail` has gone out.  Advance `tail`,
     * then clear `busy` if the ring is now empty, or transmit the next byte.
     */
    method TxComplete()
      requires Valid() && busy
      modifies this, ring
      ensures Valid() && ring.head == old(ring.head)
      ensures ring.Contents() == old(ring.Contents())[1..]
      ensures ring.Contents() != [] ==> sent == old(sent) + [ring.Contents()[0]]
      ensures Stream() == old(Stream())
    {
      ghost var c := ring.Contents();
      LiveShrink(ring.buf[..], ring.tail, ring.head);
      ring.tail := Next(ring.tail, ring.buf.Length);
      assert ring.Contents() == c[1..];
      LiveEmpty(ring.buf[..], ring.tail, ring.head);
      StreamNext(sent, c);
      if ring.tail == ring.head {
        busy := false;
        return;
      }
      TailByte();
      sent := sent + [ring.buf[ring.tail]];
    }

    /**
     * `SendData`: frame `data` for `receiver` and queue all of its wire image.  The
     * error return after `serialize_into` is never taken (see `SerializeOutgoing`).
     */
    method SendData(receiver: byte, data: seq<byte>)
      requires Valid()
      modifies this, ring, ring.buf
      ensures Valid()
      ensures Stream() == old(Stream()) + Wire(Outgoing(receiver, data))
    {
      var wire := SerializeOutgoing(receiver, data);
      PutAll(wire);
    }

    /**
     * The loop of `SendData`: call `UART_puts` on the unsent rest of `v` until
     * every byte is queued.  It makes progress only because the TX-complete
     * interrupt drains the ring; here that interrupt runs once after each call
     * that queued nothing, when the ring is full.
     */
    method PutAll(v: seq<byte>)
      requires Valid()
      modifies this, ring, ring.buf
      ensures Valid()
      ensures Stream() == old(Stream()) + v
    {
      var wrote := 0;
      while wrote < |v|
        invariant Valid() && wrote <= |v|
        invariant Stream() == old(Stream()) + v[..wrote]
        decreases |v| - wrote, |ring.Contents()|
      {
        var k := UartPuts(v[wrote..]);
        Advance(v, wrote, k);
        wrote := wrote + k;
        if k == 0 {
          TxComplete();
        }
      }
      assert v[..wrote] == v;
    }

    /** `SendString`: `SendData` on the bytes before the terminating zero. */
    method SendString(receiver: byte, s: seq<byte>)
      requires Valid()
      modifies this, ring, ring.buf
      ensures Valid()
      ensures Stream() == old(Stream()) + Wire(Outgoing(receiver, s[..FirstOf(s, 0, 0, 0)]))
    {
      SendData(receiver, s[..FirstOf(s, 0, 0, 0)]);
    }
  }
}
