// The disruptor engine: a shared segment holding the consumer positions, the `cursor` and
// `next` counters and the element storage, and per-process handles that claim, commit and
// consume through it. Every compare-and-swap of the source is one guarded update here, and
// operations from one or several handles on a segment run one after another.
module Disruptor {
  import opened Arith
  import opened Ring
  import Layout

  newtype byte = x: int | 0 <= x < 256

  /** Outcome of a single-slot claim: a buffer over the claimed slot with its sequence number, or a zero-length buffer. */
  datatype ClaimResult = Slot(view: View, seqNext: nat) | Empty

  /** The shared-memory segment. Its counters are shared by every handle that maps it. */
  class Segment {
    const numElements: nat
    const elementSize: nat
    const numConsumers: nat
    /** For each consumer, the next sequence it will read. */
    const consumers: array<nat>
    /** Every sequence below `cursor` has been committed. */
    var cursor: nat
    /** Every sequence below `next` has been claimed. */
    var next: nat
    const elements: array<byte>

    /** The invariant every operation keeps: `consumers[i] <= cursor <= next <= consumers[i] + numElements`. */
    ghost predicate Valid()
      reads this, consumers
    {
      numElements > 0 &&
      consumers.Length == numConsumers &&
      elements.Length == numElements * elementSize &&
      cursor <= next &&
      (forall i :: 0 <= i < consumers.Length ==> consumers[i] <= cursor && next <= consumers[i] + numElements)
    }

    /**
     * Size in bytes of the segment: the consumer positions, the two counters and the element
     * storage, with the element area computed without the 32-bit wrap-around of the source.
     */
    function Size(): nat
    {
      Layout.SegmentSize(numConsumers, numElements, elementSize)
    }

    /** A freshly initialised segment: every position, both counters and every element byte are zero. */
    constructor (numElements: nat, elementSize: nat, numConsumers: nat)
      requires numElements > 0
      ensures Valid() && fresh(consumers) && fresh(elements)
      ensures this.numElements == numElements && this.elementSize == elementSize
      ensures this.numConsumers == numConsumers
      ensures Size() == (consumers.Length + 2) * Layout.WordSize + elements.Length
      ensures numElements * elementSize < 0x1_0000_0000 ==>
                Size() == Layout.SegmentSizeAsWritten(numConsumers, numElements, elementSize)
      ensures cursor == 0 && next == 0
      ensures forall i :: 0 <= i < consumers.Length ==> consumers[i] == 0
      ensures forall i :: 0 <= i < elements.Length ==> elements[i] == 0
    {
      this.numElements := numElements;
      this.elementSize := elementSize;
      this.numConsumers := numConsumers;
      consumers := new nat[numConsumers](_ => 0);
      elements := new byte[numElements * elementSize](_ => 0);
      cursor := 0;
      next := 0;
    }

    /**
     * The gating loop of a claim: reads every consumer position and refuses as soon as one
     * consumer sits on the slot of `seqNext` a lap behind it.
     */
    method CheckGating(seqNext: nat) returns (canClaim: bool)
      requires Valid()
      ensures canClaim <==> CanClaim(consumers[..], seqNext, numElements)
    {
      canClaim := true;
      var posNext := seqNext % numElements;
      var i := 0;
      while i < numConsumers
        invariant i <= numConsumers
        invariant canClaim
        invariant forall j :: 0 <= j < i ==> !SlotBusy(consumers[j], seqNext, numElements)
      {
        var seqConsumer := consumers[i];
        var posConsumer := seqConsumer % numElements;
        if posConsumer == posNext && seqConsumer != seqNext {
          canClaim := false;
          break;
        }
        i := i + 1;
      }
    }
  }

  /** One process's attachment to a segment. */
  class Handle {
    const seg: Segment
    /** This handle's consumer id: its entry in the consumer table. */
    const consumer: nat
    /** False once the segment has been unmapped by `Release`. */
    var mapped: bool
    /** The window `[pendingSeqConsumer, pendingSeqCursor)` read by the last consume and not yet committed. */
    var pendingSeqConsumer: nat
    var pendingSeqCursor: nat

    ghost predicate Valid()
      reads this, seg, seg.consumers
    {
      seg.Valid() && pendingSeqConsumer <= pendingSeqCursor <= seg.cursor
    }

    /** Opens a segment with initialisation: the handle maps a fresh, zeroed segment. */
    constructor Create(numElements: nat, elementSize: nat, numConsumers: nat, consumer: nat)
      requires numElements > 0
      ensures Valid() && mapped
      ensures fresh(seg) && fresh(seg.consumers) && fresh(seg.elements)
      ensures seg.numElements == numElements && seg.elementSize == elementSize
      ensures seg.numConsumers == numConsumers && this.consumer == consumer
      ensures seg.cursor == 0 && seg.next == 0
      ensures forall i :: 0 <= i < seg.consumers.Length ==> seg.consumers[i] == 0
      ensures forall i :: 0 <= i < seg.elements.Length ==> seg.elements[i] == 0
      ensures pendingSeqConsumer == 0 && pendingSeqCursor == 0
    {
      seg := new Segment(numElements, elementSize, numConsumers);
      this.consumer := consumer;
      mapped := true;
      pendingSeqConsumer := 0;
      pendingSeqCursor := 0;
    }

    /** Opens an existing segment without initialisation: the shared state is left as it is. */
    constructor Attach(seg: Segment, consumer: nat)
      requires seg.Valid()
      ensures Valid() && mapped
      ensures this.seg == seg && this.consumer == consumer
      ensures pendingSeqConsumer == 0 && pendingSeqCursor == 0
    {
      this.seg := seg;
      this.consumer := consumer;
      mapped := true;
      pendingSeqConsumer := 0;
      pendingSeqCursor := 0;
    }

    /** Unmaps the segment. A second call does nothing; the shared state is never touched. */
    method Release()
      modifies this`mapped
      ensures !mapped
    {
      if mapped {
        mapped := false;
      }
    }

    /** Records the window handed out by a consume, to be committed later. */
    method UpdatePending(seqConsumer: nat, seqCursor: nat)
      modifies this`pendingSeqConsumer, this`pendingSeqCursor
      ensures pendingSeqConsumer == seqConsumer && pendingSeqCursor == seqCursor
    {
      pendingSeqConsumer := seqConsumer;
      pendingSeqCursor := seqCursor;
    }

    /**
     * Where this handle's consumer position stands after committing the pending window:
     * advanced to its end when a window is pending and the position still equals its start,
     * unchanged otherwise. It never moves backwards and never passes the cursor.
     */
    ghost function CommittedPosition(): (pos: nat)
      reads this, seg, seg.consumers
      requires Valid() && consumer < seg.numConsumers
      ensures seg.consumers[consumer] <= pos <= seg.cursor
      ensures pos != seg.consumers[consumer] ==>
                pendingSeqConsumer == seg.consumers[consumer] && pos == pendingSeqCursor
      ensures pendingSeqCursor != 0 && seg.consumers[consumer] == pendingSeqConsumer ==> pos == pendingSeqCursor
    {
      if pendingSeqCursor != 0 && seg.consumers[consumer] == pendingSeqConsumer then pendingSeqCursor
      else seg.consumers[consumer]
    }

    /**
     * Commits the pending consume window: a compare-and-swap of this consumer's position from
     * the window's start to its end, done only when a window is pending. The window is cleared
     * either way, so a second call changes nothing.
     */
    method ConsumeCommit()
      requires Valid() && mapped && consumer < seg.numConsumers
      modifies this`pendingSeqConsumer, this`pendingSeqCursor, seg.consumers
      ensures Valid()
      ensures pendingSeqConsumer == 0 && pendingSeqCursor == 0
      ensures seg.consumers[..] == old(seg.consumers[..])[consumer := old(CommittedPosition())]
    {
      if pendingSeqCursor != 0 {
        if seg.consumers[consumer] == pendingSeqConsumer {
          seg.consumers[consumer] := pendingSeqCursor;
        }
        pendingSeqConsumer := 0;
        pendingSeqCursor := 0;
      }
    }

    /**
     * Returns the unread window `[consumer position, cursor)` as zero-copy buffers after
     * committing the previous window. The shared position is not advanced past that commit:
     * the new window is only recorded as pending.
     */
    method ConsumeNew() returns (views: seq<View>)
      requires Valid() && mapped && consumer < seg.numConsumers
      modifies this`pendingSeqConsumer, this`pendingSeqCursor, seg.consumers
      ensures Valid()
      ensures seg.consumers[..] == old(seg.consumers[..])[consumer := old(CommittedPosition())]
      ensures views == ToViews(UnreadChunks(seg.consumers[consumer], seg.cursor, seg.numElements), seg.elementSize)
      ensures Total(UnreadChunks(seg.consumers[consumer], seg.cursor, seg.numElements))
                == seg.cursor - seg.consumers[consumer]
      ensures forall i :: 0 <= i < |views| ==> views[i].offset + views[i].length <= seg.elements.Length
      ensures views == [] <==> seg.consumers[consumer] == seg.cursor
      ensures pendingSeqConsumer == (if views == [] then 0 else seg.consumers[consumer])
      ensures pendingSeqCursor == (if views == [] then 0 else seg.cursor)
    {
      ConsumeCommit();

      var seqConsumer := seg.consumers[consumer];
      var seqCursor := seg.cursor;
      var chunks := UnreadChunks(seqConsumer, seqCursor, seg.numElements);
      views := ToViews(chunks, seg.elementSize);
      if chunks != [] {
        UpdatePending(seqConsumer, seqCursor);
      }
      UnreadChunksExact(seqConsumer, seqCursor, seg.numElements);
      ViewsWithin(chunks, seg.numElements, seg.elementSize);
    }

    /**
     * Claims one slot: reads `next`, runs the gating loop over every consumer and, when no
     * consumer blocks the slot, advances `next` by one with a compare-and-swap. On failure
     * a zero-length buffer is returned and nothing changes.
     */
    method ProduceClaim() returns (r: ClaimResult)
      requires Valid() && mapped
      modifies seg`next
      ensures Valid()
      ensures r.Slot? <==> HasRoom(seg.consumers[..], old(seg.next), seg.numElements)
      ensures r.Slot? ==> r.seqNext == old(seg.next) && seg.next == old(seg.next) + 1
      ensures r.Slot? ==> r.view == View((old(seg.next) % seg.numElements) * seg.elementSize, seg.elementSize)
      ensures r.Slot? ==> r.view.offset + r.view.length <= seg.elements.Length
      ensures r.Empty? ==> seg.next == old(seg.next)
      ensures seg.cursor == old(seg.cursor)
    {
      var seqNext := seg.next;
      var posNext := seqNext % seg.numElements;
      var canClaim := seg.CheckGating(seqNext);
      assert Bounded(seg.consumers[..], seqNext, seg.numElements);
      CanClaimIffHasRoom(seg.consumers[..], seqNext, seg.numElements);
      // The compare-and-swap of `next` from `seqNext` to `seqNext + 1` is one step, and
      // nothing runs between the read of `next` above and this step.
      if canClaim {
        ClaimKeepsBounded(seg.consumers[..], seqNext, seg.numElements);
        seg.next := seqNext + 1;
        SlotBytesWithin(posNext, 1, seg.numElements, seg.elementSize);
        r := Slot(View(posNext * seg.elementSize, seg.elementSize), seqNext);
      } else {
        r := Empty;
      }
    }

    /**
     * Publishes the slot of `seqNext`: a compare-and-swap of `cursor` from `seqNext` to
     * `seqNext + 1`, so commits take effect only in claim order. The invariant survives
     * unless the committed sequence was never claimed.
     */
    method ProduceCommit(seqNext: nat) returns (ok: bool)
      requires Valid() && mapped
      modifies seg`cursor
      ensures ok <==> old(seg.cursor) == seqNext
      ensures seg.cursor == if ok then seqNext + 1 else old(seg.cursor)
      ensures seg.next == old(seg.next)
      ensures Valid() <==> !ok || seqNext < seg.next
    {
      ok := seg.cursor == seqNext;
      if ok {
        seg.cursor := seqNext + 1;
      }
    }
  }
}
