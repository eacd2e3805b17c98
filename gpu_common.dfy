/**
 * The software side of the GPU library's draw-op queue and ordering tables.
 *
 * Draw operations are started at once when the GPU DMA is idle and otherwise
 * parked in a 16-slot ring; the DMA-completion interrupt starts the next one.
 * The length counter counts the operation in flight as well as the parked
 * ones. Starting an operation is recorded in a log instead of being executed.
 */
module GpuCommon {
  import opened Binary

  type uint8 = x: int | 0 <= x < 0x100

  const QueueLength := 16
  const DmaChunkLength := 16

  /** A queued call: the function's address (0 is NULL) and its three arguments. */
  datatype QueueEntry = QueueEntry(func: uint32, arg1: uint32, arg2: uint32, arg3: uint32)

  /** `count` slots of the ring, read in order from slot `from` and wrapping at 16. */
  function RingView(ring: seq<QueueEntry>, from: nat, count: nat): (view: seq<QueueEntry>)
    requires |ring| == QueueLength
    ensures |view| == count
  {
    seq(count, k requires 0 <= k < count => ring[(from + k) % QueueLength])
  }

  /** Storing into the slot just past the view appends to the view and leaves its slots alone. */
  lemma RingViewStore(ring: seq<QueueEntry>, from: nat, count: nat, entry: QueueEntry)
    requires |ring| == QueueLength && from < QueueLength && count < QueueLength
    ensures RingView(ring[(from + count) % QueueLength := entry], from, count + 1)
            == RingView(ring, from, count) + [entry]
  {
    var at := (from + count) % QueueLength;
    var longer, shorter := RingView(ring[at := entry], from, count + 1), RingView(ring, from, count);
    RingSlot(from, count);
    forall k | 0 <= k < count ensures longer[k] == shorter[k] {
      RingSlot(from, k);
    }
  }

  /** Moving the start on by one slot drops the view's first entry. */
  lemma RingViewPop(ring: seq<QueueEntry>, from: nat, count: nat)
    requires |ring| == QueueLength && from < QueueLength && 1 <= count <= QueueLength
    ensures RingView(ring, from, count)[0] == ring[from]
    ensures RingView(ring, (from + 1) % QueueLength, count - 1) == RingView(ring, from, count)[1..]
  {
    var later, view := RingView(ring, (from + 1) % QueueLength, count - 1), RingView(ring, from, count);
    var next := (from + 1) % QueueLength;
    assert next == if from + 1 < QueueLength then from + 1 else 0;
    forall k | 0 <= k < count - 1 ensures later[k] == view[k + 1] {
      RingSlot(next, k);
      RingSlot(from, k + 1);
    }
  }

  /** The slot `k` places after `from`. */
  lemma RingSlot(from: nat, k: nat)
    requires from < QueueLength && k < QueueLength
    ensures (from + k) % QueueLength == if from + k < QueueLength then from + k else from + k - QueueLength
  {
  }

  /** The distance from `from` to `to` going round the ring. */
  lemma RingGap(from: nat, to: nat)
    requires from < QueueLength && to < QueueLength
    ensures (to - from) % QueueLength == if from <= to then to - from else to - from + QueueLength
  {
  }

  /** The distance from `from` to `tail` around the ring, and the slot that distance names. */
  lemma RingDistance(from: nat, tail: nat, count: nat)
    requires from < QueueLength && tail < QueueLength && count < QueueLength
    requires (tail - from) % QueueLength == count
    ensures tail == (from + count) % QueueLength
    ensures count + 1 < QueueLength ==> ((tail + 1) % QueueLength - from) % QueueLength == count + 1
    ensures count >= 1 ==> (tail - (from + 1) % QueueLength) % QueueLength == count - 1
  {
    RingGap(from, tail);
    var next, after := (tail + 1) % QueueLength, (from + 1) % QueueLength;
    assert next == if tail + 1 < QueueLength then tail + 1 else 0;
    assert after == if from + 1 < QueueLength then from + 1 else 0;
    RingGap(from, next);
    RingGap(after, tail);
  }

  /** How many operations are parked when the counter reads `length`: the one in flight is not. */
  function Stored(length: nat): nat
  {
    if length == 0 then 0 else length - 1
  }

  /**
   * The ring invariant on the queue's values: an empty queue has head ==
   * tail; otherwise the parked operations fill the slots from head up to
   * tail, and at most 15 are parked. Operations start in exactly the order
   * they were accepted: the accepted ones are the started ones followed by
   * the parked ones.
   */
  ghost predicate RingInvariant(head: nat, tail: nat, length: nat, ring: seq<QueueEntry>,
                                started: seq<QueueEntry>, accepted: seq<QueueEntry>)
  {
    && |ring| == QueueLength
    && head < QueueLength && tail < QueueLength && length <= QueueLength
    && (length == 0 ==> head == tail)
    && (length >= 1 ==> (tail - head) % QueueLength == length - 1)
    && accepted == started + RingView(ring, head, Stored(length))
  }

  /** Starting an operation on an idle queue keeps the invariant. */
  lemma StartKeeps(head: nat, tail: nat, ring: seq<QueueEntry>, started: seq<QueueEntry>,
                   accepted: seq<QueueEntry>, entry: QueueEntry)
    requires RingInvariant(head, tail, 0, ring, started, accepted)
    ensures RingInvariant(head, tail, 1, ring, started + [entry], accepted + [entry])
  {
  }

  /** Parking an operation at the tail of a busy queue appends it to the parked ones and keeps the invariant. */
  lemma ParkKeeps(head: nat, tail: nat, length: nat, ring: seq<QueueEntry>, started: seq<QueueEntry>,
                  accepted: seq<QueueEntry>, entry: QueueEntry)
    requires RingInvariant(head, tail, length, ring, started, accepted) && 1 <= length < QueueLength
    ensures RingView(ring[tail := entry], head, Stored(length + 1)) == RingView(ring, head, Stored(length)) + [entry]
    ensures RingInvariant(head, (tail + 1) % QueueLength, length + 1, ring[tail := entry], started, accepted + [entry])
  {
    RingDistance(head, tail, length - 1);
    RingViewStore(ring, head, length - 1, entry);
  }

  /** The end of a transfer with operations parked starts the one at head and keeps the invariant. */
  lemma AdvanceKeeps(head: nat, tail: nat, length: nat, ring: seq<QueueEntry>, started: seq<QueueEntry>,
                     accepted: seq<QueueEntry>)
    requires RingInvariant(head, tail, length, ring, started, accepted) && length >= 2
    ensures RingView(ring, head, Stored(length))[0] == ring[head]
    ensures RingView(ring, (head + 1) % QueueLength, Stored(length - 1)) == RingView(ring, head, Stored(length))[1..]
    ensures RingInvariant((head + 1) % QueueLength, tail, length - 1, ring, started + [ring[head]], accepted)
  {
    RingViewPop(ring, head, length - 1);
    RingDistance(head, tail, length - 1);
  }

  /** The end of the last transfer leaves the queue idle and keeps the invariant. */
  lemma IdleKeeps(head: nat, tail: nat, ring: seq<QueueEntry>, started: seq<QueueEntry>, accepted: seq<QueueEntry>)
    requires RingInvariant(head, tail, 1, ring, started, accepted)
    ensures RingInvariant(head, tail, 0, ring, started, accepted)
  {
  }

  class DrawQueue {
    /** _draw_queue */
    const slots: array<QueueEntry>
    /** _queue_head, _queue_tail, _queue_length */
    var head: nat
    var tail: nat
    var length: nat
    /** Every operation started so far, in the order it was started. */
    var started: seq<QueueEntry>
    /** Every operation EnqueueDrawOp accepted so far, in order. */
    ghost var accepted: seq<QueueEntry>

    /** The parked operations, oldest first: length - 1 slots from head on. */
    ghost function Parked(): seq<QueueEntry>
      reads this, slots
      requires slots.Length == QueueLength
    {
      RingView(slots[..], head, Stored(length))
    }

    ghost predicate Valid()
      reads this, slots
    {
      slots.Length == QueueLength && RingInvariant(head, tail, length, slots[..], started, accepted)
    }

    /** An empty queue before ResetGraph has run; all slots hold NULL calls. */
    constructor ()
      ensures Valid() && length == 0 && started == [] && accepted == [] && fresh(slots)
    {
      slots := new QueueEntry[QueueLength](_ => QueueEntry(0, 0, 0, 0));
      head, tail, length := 0, 0, 0;
      started := [];
      accepted := [];
    }

    /** The queue part of ResetGraph: head, tail and length become 0, dropping whatever was parked. */
    method ResetGraph()
      requires Valid()
      modifies this
      ensures head == 0 && tail == 0 && length == 0 && Parked() == []
      ensures started == old(started) && accepted == started
      ensures Valid()
    {
      head, tail, length := 0, 0, 0;
      accepted := started;
    }

    /**
     * EnqueueDrawOp: a NULL function is refused with -1; on an idle queue the
     * operation starts at once and 0 is returned; on a full queue (16
     * counted) it is dropped with -1; otherwise it is parked at the tail and
     * the previous length is returned.
     */
    method EnqueueDrawOp(func: uint32, arg1: uint32, arg2: uint32, arg3: uint32) returns (r: int)
      requires Valid()
      modifies this, slots
      ensures Valid()
      ensures var entry := QueueEntry(func, arg1, arg2, arg3);
              if func == 0 || old(length) >= QueueLength then
                && r == -1
                && head == old(head) && tail == old(tail) && length == old(length)
                && started == old(started) && accepted == old(accepted) && slots[..] == old(slots[..])
              else if old(length) == 0 then
                && r == 0
                && length == 1 && head == old(head) && tail == old(tail) && slots[..] == old(slots[..])
                && started == old(started) + [entry] && accepted == old(accepted) + [entry]
              else
                && r == old(length)
                && length == old(length) + 1 && head == old(head) && tail == (old(tail) + 1) % QueueLength
                && slots[..] == old(slots[..])[old(tail) := entry]
                && started == old(started) && accepted == old(accepted) + [entry]
                && Parked() == old(Parked()) + [entry]
    {
      if func == 0 {
        return -1;
      }
      var entry := QueueEntry(func, arg1, arg2, arg3);
      var count := length;
      if count == 0 {
        StartKeeps(head, tail, slots[..], started, accepted, entry);
        length := 1;
        started := started + [entry];
        accepted := accepted + [entry];
        return 0;
      }
      if count >= QueueLength {
        return -1;
      }
      var at := tail;
      ParkKeeps(head, at, count, slots[..], started, accepted, entry);
      slots[at] := entry;
      tail := (at + 1) % QueueLength;
      length := count + 1;
      accepted := accepted + [entry];
      r := count;
    }

    /**
     * The queue part of the GPU DMA interrupt: the operation in flight has
     * finished, so the counter drops by one; if operations are parked, the
     * one at head starts and head moves on, otherwise the queue goes idle.
     */
    method DmaComplete()
      requires Valid() && length >= 1
      modifies this
      ensures Valid()
      ensures length == old(length) - 1 && tail == old(tail) && accepted == old(accepted)
      ensures old(length) >= 2 ==>
                && head == (old(head) + 1) % QueueLength
                && started == old(started) + [old(Parked())[0]]
                && Parked() == old(Parked())[1..]
      ensures old(length) == 1 ==> head == old(head) && started == old(started) && Parked() == []
    {
      if length == 1 {
        IdleKeeps(head, tail, slots[..], started, accepted);
        length := 0;
        return;
      }
      var at := head;
      AdvanceKeeps(at, tail, length, slots[..], started, accepted);
      length := length - 1;
      head := (at + 1) % QueueLength;
      started := started + [slots[at]];
    }
  }

  /** The ordering table ClearOTag builds for an array at `address`: each entry links to the next, the last ends the list. */
  function OrderingTable(address: uint32, length: nat): (ot: seq<uint32>)
    ensures |ot| == length
  {
    seq(length, i requires 0 <= i < length =>
      if i < length - 1 then (address + 4 * (i + 1)) % 0x1_0000_0000 % 0x100_0000 else 0xFF_FFFF)
  }

  /**
   * ClearOTag(ot, length) on the array `ot` that starts at `address`: entry i
   * gets the low 24 bits of the address of entry i + 1, and the last entry the
   * terminator 0xFFFFFF. A zero length is refused and changes nothing.
   */
  method ClearOTag(ot: array<uint32>, address: uint32, length: nat)
    requires length <= ot.Length
    modifies ot
    ensures length == 0 ==> ot[..] == old(ot[..])
    ensures length > 0 ==> ot[..length] == OrderingTable(address, length) && ot[length..] == old(ot[length..])
  {
    if length == 0 {
      return;
    }
    var i := 0;
    while i < length - 1
      invariant 0 <= i <= length - 1
      invariant ot[..i] == OrderingTable(address, length)[..i]
      invariant ot[length..] == old(ot[length..])
    {
      ot[i] := (address + 4 * (i + 1)) % 0x1_0000_0000 % 0x100_0000;
      i := i + 1;
    }
    ot[length - 1] := 0xFF_FFFF;
    assert ot[..length] == ot[..length - 1] + [ot[length - 1]];
  }

  /**
   * For a word-aligned table anywhere in the 32-bit address space (a KSEG0
   * table at 0x80xxxxxx included), walking the list from entry 0 visits every
   * entry in order: each link is the 24-bit physical address of the next entry
   * and never the terminator, and only the last entry ends the list.
   */
  lemma OrderingTableLinks(address: uint32, length: nat)
    requires address % 4 == 0
    ensures forall i :: 0 <= i < length - 1 ==>
              OrderingTable(address, length)[i] == (address + 4 * (i + 1)) % 0x100_0000
              && OrderingTable(address, length)[i] != 0xFF_FFFF
    ensures length > 0 ==> OrderingTable(address, length)[length - 1] == 0xFF_FFFF
  {
    var ot := OrderingTable(address, length);
    forall i | 0 <= i < length - 1
      ensures ot[i] == (address + 4 * (i + 1)) % 0x100_0000 && ot[i] != 0xFF_FFFF
    {
      LowBitsOfLowBits(address + 4 * (i + 1));
    }
  }

  /** Masking to 24 bits after truncating to 32 bits is masking to 24 bits, and keeps word alignment. */
  lemma LowBitsOfLowBits(x: nat)
    ensures x % 0x1_0000_0000 % 0x100_0000 == x % 0x100_0000
    ensures x % 4 == 0 ==> x % 0x100_0000 % 4 == 0
  {
    var q := x / 0x1_0000_0000;
    assert x == 0x100 * q * 0x100_0000 + x % 0x1_0000_0000;
    var r := x / 0x100_0000;
    assert x == 4 * (r * 0x40_0000) + x % 0x100_0000;
  }

  /** Bitwise OR of two naturals, one bit at a time from the least significant. */
  function BitOr(a: nat, b: nat): nat
    decreases a + b
  {
    if a == 0 then b
    else if b == 0 then a
    else 2 * BitOr(a / 2, b / 2) + (if a % 2 == 1 || b % 2 == 1 then 1 else 0)
  }

  /** A value below 2^k ORed with a multiple of 2^k is their sum: the bits do not overlap. */
  lemma {:induction false} BitOrDisjoint(low: nat, high: nat, k: nat)
    requires low < Pow2(k)
    ensures BitOr(low, high * Pow2(k)) == low + high * Pow2(k)
  {
    if k == 0 || low == 0 || high == 0 {
    } else {
      assert high * Pow2(k) == 2 * (high * Pow2(k - 1));
      BitOrDisjoint(low / 2, high, k - 1);
    }
  }

  /**
   * DrawPrim's DMA block control for a packet of `length` words (the 8-bit
   * length field of its tag): one block of `length` words when length < 16,
   * else blocks of 16 words, length / 16 of them.
   */
  function DmaBlockControl(length: uint8): (bcr: uint32)
    ensures length < DmaChunkLength ==> bcr % 0x1_0000 == length && bcr / 0x1_0000 == 1
    ensures length >= DmaChunkLength ==> bcr % 0x1_0000 == DmaChunkLength && bcr / 0x1_0000 == length / DmaChunkLength
  {
    if length < DmaChunkLength then
      HalfWordsOr(length, 1);
      BitOr(length, 0x1_0000)
    else
      HalfWordsOr(DmaChunkLength, length / DmaChunkLength);
      BitOr(DmaChunkLength, (length / DmaChunkLength) * 0x1_0000)
  }

  /** ORing a low half-word with a high one packs both into one word. */
  lemma HalfWordsOr(low: nat, high: nat)
    requires low < 0x1_0000 && high < 0x1_0000
    ensures BitOr(low, high * 0x1_0000) == low + high * 0x1_0000
    ensures (low + high * 0x1_0000) % 0x1_0000 == low && (low + high * 0x1_0000) / 0x1_0000 == high
    ensures low + high * 0x1_0000 < 0x1_0000_0000
  {
    Pow2Widths();
    BitOrDisjoint(low, high, 16);
    HalfWords(low, high);
  }

  /** A word made of two half-words gives each back by division and remainder. */
  lemma HalfWords(low: nat, high: nat)
    requires low < 0x1_0000 && high < 0x1_0000
    ensures (low + high * 0x1_0000) % 0x1_0000 == low && (low + high * 0x1_0000) / 0x1_0000 == high
    ensures low + high * 0x1_0000 < 0x1_0000_0000
  {
  }

  /** The number of words a block control word moves: block size times block count. */
  function WordsTransferred(bcr: uint32): nat
  {
    (bcr % 0x1_0000) * (bcr / 0x1_0000)
  }

  /**
   * The transfer moves exactly the packet when it is shorter than 16 words or
   * a multiple of 16; any other length leaves words behind, which is the
   * stuck transfer DrawPrim warns about.
   */
  lemma DmaBlockControlTransfers(length: uint8)
    ensures WordsTransferred(DmaBlockControl(length)) == length <==> length < DmaChunkLength || length % DmaChunkLength == 0
    ensures WordsTransferred(DmaBlockControl(length)) <= length
  {
    var bcr := DmaBlockControl(length);
    if length >= DmaChunkLength {
      assert WordsTransferred(bcr) == DmaChunkLength * (length / DmaChunkLength);
    }
  }
}
