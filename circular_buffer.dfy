/**
 * `CircularBuffer<SIZE>` of proto_cpp/include/circular_buffer.h: a byte array with a
 * write index `head` and a read index `tail`.  The live bytes run from `tail` up to,
 * not including, `head`, wrapping at the end of the array, so at most `SIZE - 1`
 * bytes are held and `head == tail` means empty.
 */
module CircularBuffers {
  import opened Arith
  import opened Bytes
  import opened Wrappers

  /** The physical index of the `k`-th byte after index `start` in a ring of `n` slots. */
  function Slot(start: nat, k: nat, n: nat): (r: nat)
    requires n > 0
    ensures r < n
  {
    (start + k) % n
  }

  /** The bytes of `b` from index `tail` up to index `head`, wrapping around. */
  function Live(b: seq<byte>, tail: nat, head: nat): (s: seq<byte>)
    requires tail < |b| && head < |b|
    ensures |s| == (head - tail) % |b|
  {
    var n := |b|;
    if tail <= head then
      ModSmall(head - tail, n);
      b[tail..head]
    else
      ModNeg(head - tail, n);
      b[tail..] + b[..head]
  }

  /** The `k`-th live byte is the one in the `k`-th slot after `tail`. */
  lemma LiveElems(b: seq<byte>, tail: nat, head: nat)
    requires tail < |b| && head < |b|
    ensures forall k :: 0 <= k < |Live(b, tail, head)| ==> Live(b, tail, head)[k] == b[Slot(tail, k, |b|)]
  {
    var n := |b|;
    var s := Live(b, tail, head);
    forall k | 0 <= k < |s| ensures s[k] == b[(tail + k) % n] {
      if tail <= head {
        ModSmall(head - tail, n);
        ModSmall(tail + k, n);
      } else {
        ModNeg(head - tail, n);
        if tail + k < n { ModSmall(tail + k, n); } else { ModWrap(tail + k, n); }
      }
    }
  }

  /** One live byte: the `k`-th is the one in the `k`-th slot after `tail`. */
  lemma LiveAt(b: seq<byte>, tail: nat, head: nat, k: nat)
    requires tail < |b| && head < |b| && k < |Live(b, tail, head)|
    ensures Live(b, tail, head)[k] == b[Slot(tail, k, |b|)]
  {
    LiveElems(b, tail, head);
  }

  /**
   * `getSize` on the indices: `head - tail` when `head > tail`, else
   * `n - tail + head`, which is `n`, not 0, when `head == tail`.
   */
  function RingSize(n: nat, tail: nat, head: nat): (size: nat)
    requires tail < n && head < n
    ensures size == if head == tail then n else (head - tail) % n
  {
    if head > tail then
      ModSmall(head - tail, n);
      head - tail
    else if head < tail then
      ModNeg(head - tail, n);
      n - tail + head
    else
      n - tail + head
  }

  /** Advancing an index by one, modulo the capacity. */
  function Next(i: nat, n: nat): (r: nat)
    requires i < n
    ensures r < n
    ensures r == (i + 1) % n
  {
    if i + 1 == n then (ModSmall(0, n); 0) else (ModSmall(i + 1, n); i + 1)
  }

  /** One byte appended at `head`: the live bytes gain it at the end. */
  lemma LiveGrow(b: seq<byte>, tail: nat, head: nat)
    requires tail < |b| && head < |b| && Next(head, |b|) != tail
    ensures Live(b, tail, Next(head, |b|)) == Live(b, tail, head) + [b[head]]
  {
    var n := |b|;
    var s, s' := Live(b, tail, head), Live(b, tail, Next(head, n));
    LiveElems(b, tail, head);
    LiveElems(b, tail, Next(head, n));
    assert |s'| == |s| + 1 by {
      if tail <= head {
        ModSmall(head - tail, n);
        if head + 1 < n { ModSmall(head + 1 - tail, n); } else { ModNeg(0 - tail, n); }
      } else {
        ModNeg(head - tail, n);
        ModNeg(head + 1 - tail, n);
      }
    }
    assert s'[|s|] == b[head] by {
      if tail <= head { ModSmall(head, n); } else { ModWrap(head + n, n); }
      assert (tail + |s|) % n == head by {
        if tail <= head { ModSmall(head - tail, n); ModSmall(head, n); }
        else { ModNeg(head - tail, n); ModWrap(head + n, n); }
      }
    }
  }

  /** One byte taken at `tail`: the live bytes lose their first. */
  lemma LiveShrink(b: seq<byte>, tail: nat, head: nat)
    requires tail < |b| && head < |b| && tail != head
    ensures Live(b, tail, head) != []
    ensures Live(b, Next(tail, |b|), head) == Live(b, tail, head)[1..]
  {
    var n := |b|;
    var s, s' := Live(b, tail, head), Live(b, Next(tail, n), head);
    LiveElems(b, tail, head);
    LiveElems(b, Next(tail, n), head);
    assert |s| > 0 by {
      if tail < head { ModSmall(head - tail, n); } else { ModNeg(head - tail, n); }
    }
    assert |s'| == |s| - 1 by {
      if tail < head {
        ModSmall(head - tail, n);
        ModSmall(head - tail - 1, n);
      } else {
        ModNeg(head - tail, n);
        if tail + 1 < n { ModNeg(head - tail - 1, n); } else { ModSmall(head, n); }
      }
    }
    forall k | 0 <= k < |s'| ensures s'[k] == s[k + 1] {
      var t' := Next(tail, n);
      assert (t' + k) % n == (tail + k + 1) % n by {
        if tail + 1 < n {
        } else {
          assert t' == 0;
          ModSmall(k, n);
          ModWrap(tail + k + 1, n);
        }
      }
    }
  }

  /** The ring is empty exactly when `head == tail`. */
  lemma LiveEmpty(b: seq<byte>, tail: nat, head: nat)
    requires tail < |b| && head < |b|
    ensures Live(b, tail, head) == [] <==> tail == head
  {
    if tail < head {
      ModSmall(head - tail, |b|);
    } else if head < tail {
      ModNeg(head - tail, |b|);
    }
  }

  /** A ring holds `n - 1` bytes exactly when one more step of `head` would reach `tail`. */
  lemma FullAt(n: nat, tail: nat, head: nat)
    requires tail < n && head < n
    ensures (head - tail) % n == n - 1 <==> Next(head, n) == tail
  {
    if tail <= head {
      ModSmall(head - tail, n);
    } else {
      ModNeg(head - tail, n);
    }
  }

  /** The slot at `head` is never one of the live slots. */
  lemma HeadNotLive(n: nat, tail: nat, head: nat, k: nat)
    requires tail < n && head < n && k < (head - tail) % n
    ensures Slot(tail, k, n) != head
  {
    if tail <= head {
      ModSmall(head - tail, n);
      ModSmall(tail + k, n);
    } else {
      ModNeg(head - tail, n);
      if tail + k < n { ModSmall(tail + k, n); } else { ModWrap(tail + k, n); }
    }
  }

  class CircularBuffer {
    /** The inline `uint8_t buf[SIZE]`. */
    const buf: array<byte>
    var head: nat
    var tail: nat

    ghost predicate Valid()
      reads this
    {
      buf.Length > 0 && head < buf.Length && tail < buf.Length
    }

    /** The live bytes, oldest first. */
    ghost function Contents(): (s: seq<byte>)
      reads this, buf
      requires Valid()
    {
      Live(buf[..], tail, head)
    }

    constructor (size: nat)
      requires size >= 1
      ensures Valid() && fresh(buf) && buf.Length == size
      ensures head == 0 && tail == 0 && Contents() == []
    {
      buf := new byte[size];
      head, tail := 0, 0;
    }

    /** `push_head`: append `val` unless that would make `head` reach `tail`. */
    method PushHead(val: byte) returns (rejected: Option<byte>)
      requires Valid()
      modifies this, buf
      ensures Valid() && tail == old(tail)
      ensures |old(Contents())| < buf.Length - 1 ==>
                rejected == None && Contents() == old(Contents()) + [val]
      ensures |old(Contents())| == buf.Length - 1 ==>
                rejected == Some(val) && head == old(head) && unchanged(buf)
    {
      var next := Next(head, buf.Length);
      ghost var before := buf[..];
      FullAt(buf.Length, tail, head);
      if next != tail {
        buf[head] := val;
        assert Live(buf[..], tail, head) == Live(before, tail, head);
        LiveGrow(buf[..], tail, head);
        head := next;
        rejected := None;
      } else {
        rejected := Some(val);
      }
    }

    /** `pop_tail`: remove and return the oldest byte, or nothing when empty. */
    method PopTail() returns (r: Option<byte>)
      requires Valid()
      modifies this
      ensures Valid() && head == old(head)
      ensures old(Contents()) != [] ==> r == Some(old(Contents())[0]) && Contents() == old(Contents())[1..]
      ensures old(Contents()) == [] ==> r == None && tail == old(tail)
    {
      if tail != head {
        LiveShrink(buf[..], tail, head);
        ModSmall(tail, buf.Length);
        r := Some(buf[tail]);
        tail := Next(tail, buf.Length);
      } else {
        r := None;
      }
    }

    /** `getNextAddr`: the slot at `head`, which holds no live byte. */
    function NextAddr(): (i: nat)
      reads this, buf
      requires Valid()
      ensures i < buf.Length
      ensures forall k :: 0 <= k < |Contents()| ==> Slot(tail, k, buf.Length) != i
    {
      forall k | 0 <= k < |Contents()| ensures Slot(tail, k, buf.Length) != head {
        HeadNotLive(buf.Length, tail, head, k);
      }
      head
    }

    /**
     * `advance_head`: the byte already written at `head` becomes live.  When the
     * buffer was full, `tail` moves on too and the oldest byte is lost.
     */
    method AdvanceHead()
      requires Valid()
      modifies this
      ensures Valid()
      ensures head == Next(old(head), buf.Length)
      ensures |old(Contents())| < buf.Length - 1 ==>
                tail == old(tail) && Contents() == old(Contents()) + [buf[old(head)]]
      ensures |old(Contents())| == buf.Length - 1 ==>
                tail == Next(old(tail), buf.Length) &&
                Contents() == (old(Contents()) + [buf[old(head)]])[1..]
      ensures buf.Length > 1 ==> head != tail
    {
      var n := buf.Length;
      ghost var c := Contents();
      var next := Next(head, n);
      FullAt(n, tail, head);
      if next != tail {
        LiveGrow(buf[..], tail, head);
        head := next;
      } else {
        // the buffer was full: the append and the drop together
        if n > 1 {
          LiveShrink(buf[..], tail, head);
          ghost var t' := Next(tail, n);
          LiveGrow(buf[..], t', head);
          assert Live(buf[..], t', next) == c[1..] + [buf[head]];
        } else {
          assert c == [];
        }
        head := next;
        tail := Next(tail, n);
        if n == 1 {
          ModSmall(0, 1);
        }
      }
    }

    /** `getSize`: see `RingSize`; it is `SIZE`, not 0, when the buffer is empty. */
    function GetSize(): (size: nat)
      reads this, buf
      requires Valid()
      ensures size == if head == tail then buf.Length else |Contents()|
    {
      RingSize(buf.Length, tail, head)
    }

    /** `getCapacity`. */
    function GetCapacity(): nat
    {
      buf.Length
    }
  }
}
