// Ring addressing and claim gating of the disruptor: how logical sequence numbers map to
// slots of the element array, when a producer may take the next slot, and how the unread
// window of a consumer splits into at most two contiguous chunks.
module Ring {
  import opened Arith

  /** `count` consecutive element slots of the array, starting at slot `slot`. */
  datatype Chunk = Chunk(slot: nat, count: nat)

  /** A zero-copy buffer handed to the caller: `length` bytes at byte `offset` of the element storage. */
  datatype View = View(offset: nat, length: nat)

  function ToView(c: Chunk, elementSize: nat): View
  {
    View(c.slot * elementSize, c.count * elementSize)
  }

  function ToViews(cs: seq<Chunk>, elementSize: nat): (vs: seq<View>)
    ensures |vs| == |cs|
  {
    seq(|cs|, i requires 0 <= i < |cs| => ToView(cs[i], elementSize))
  }

  /** Number of elements in a run of chunks. */
  function Total(cs: seq<Chunk>): nat
  {
    if cs == [] then 0 else cs[0].count + Total(cs[1..])
  }

  /**
   * Physical slot of the `k`-th element when the chunks are read one after the other
   * (meaningful for `k < Total(cs)`; 0 past the end).
   */
  function SlotOf(cs: seq<Chunk>, k: nat): nat
  {
    if cs == [] then 0
    else if k < cs[0].count then cs[0].slot + k
    else SlotOf(cs[1..], k - cs[0].count)
  }

  // ---------------------------------------------------------------- gating

  /**
   * The producer's test against one consumer: the consumer sits on the slot `next` would
   * take, but a lap behind it.
   */
  predicate SlotBusy(seqConsumer: nat, seqNext: nat, n: nat)
    requires n > 0
  {
    seqConsumer % n == seqNext % n && seqConsumer != seqNext
  }

  /** The gate of a single-slot claim: no consumer blocks the slot of `seqNext`. */
  predicate CanClaim(consumers: seq<nat>, seqNext: nat, n: nat)
    requires n > 0
  {
    forall i :: 0 <= i < |consumers| ==> !SlotBusy(consumers[i], seqNext, n)
  }

  /** Every consumer is less than a full lap behind `seqNext`. */
  predicate HasRoom(consumers: seq<nat>, seqNext: nat, n: nat)
  {
    forall i :: 0 <= i < |consumers| ==> seqNext < consumers[i] + n
  }

  /** The shared invariant between the consumer positions and `next`: behind it by at most one lap. */
  predicate Bounded(consumers: seq<nat>, seqNext: nat, n: nat)
  {
    forall i :: 0 <= i < |consumers| ==> consumers[i] <= seqNext <= consumers[i] + n
  }

  /** Within one lap, a consumer blocks the next slot exactly when it is a whole lap behind. */
  lemma BusyIffFullLap(seqConsumer: nat, seqNext: nat, n: nat)
    requires n > 0 && seqConsumer <= seqNext <= seqConsumer + n
    ensures SlotBusy(seqConsumer, seqNext, n) <==> seqNext == seqConsumer + n
  {
    if seqNext == seqConsumer + n {
      ModAdd(seqConsumer, n, n);
    } else if seqConsumer < seqNext {
      ModDistinct(seqConsumer, seqNext, n);
    }
  }

  /** Under the invariant, the slot-comparison gate is the capacity test `next - c < N` for every consumer. */
  lemma CanClaimIffHasRoom(consumers: seq<nat>, seqNext: nat, n: nat)
    requires n > 0 && Bounded(consumers, seqNext, n)
    ensures CanClaim(consumers, seqNext, n) <==> HasRoom(consumers, seqNext, n)
  {
    forall i | 0 <= i < |consumers|
      ensures SlotBusy(consumers[i], seqNext, n) <==> !(seqNext < consumers[i] + n)
    {
      BusyIffFullLap(consumers[i], seqNext, n);
    }
  }

  /**
   * A claim that passes the gate takes a slot that holds no element any consumer has still to
   * read and no element of an earlier outstanding claim: every sequence from a consumer's
   * position up to `next` lives in another slot.
   */
  lemma ClaimedSlotIsFree(consumers: seq<nat>, seqNext: nat, n: nat, i: nat, s: nat)
    requires n > 0 && Bounded(consumers, seqNext, n) && CanClaim(consumers, seqNext, n)
    requires i < |consumers| && consumers[i] <= s < seqNext
    ensures s % n != seqNext % n
  {
    CanClaimIffHasRoom(consumers, seqNext, n);
    ModDistinct(s, seqNext, n);
  }

  /** After a successful claim the invariant holds of the advanced `next`. */
  lemma ClaimKeepsBounded(consumers: seq<nat>, seqNext: nat, n: nat)
    requires n > 0 && Bounded(consumers, seqNext, n) && CanClaim(consumers, seqNext, n)
    ensures Bounded(consumers, seqNext + 1, n)
  {
    CanClaimIffHasRoom(consumers, seqNext, n);
  }

  // ---------------------------------------------------------------- consuming

  /**
   * The unread window `[seqConsumer, seqCursor)` as physical chunks: one chunk when the cursor's
   * slot lies after the consumer's, otherwise the tail of the array followed by its head (the
   * head left out when the cursor sits on slot 0), and nothing when the two are equal.
   */
  function UnreadChunks(seqConsumer: nat, seqCursor: nat, n: nat): (cs: seq<Chunk>)
    requires n > 0
    ensures |cs| <= 2
    ensures forall i :: 0 <= i < |cs| ==> 0 < cs[i].count && cs[i].slot + cs[i].count <= n
  {
    var posConsumer := seqConsumer % n;
    var posCursor := seqCursor % n;
    if posCursor > posConsumer then
      [Chunk(posConsumer, posCursor - posConsumer)]
    else if seqCursor != seqConsumer then
      [Chunk(posConsumer, n - posConsumer)] + (if posCursor > 0 then [Chunk(0, posCursor)] else [])
    else
      []
  }

  /** Shape of the split when the window stays before the end of the array. */
  lemma OneChunkShape(seqConsumer: nat, seqCursor: nat, n: nat)
    requires n > 0 && seqConsumer < seqCursor && seqConsumer % n + (seqCursor - seqConsumer) < n
    ensures UnreadChunks(seqConsumer, seqCursor, n) == [Chunk(seqConsumer % n, seqCursor - seqConsumer)]
  {
    ModAdd(seqConsumer, seqCursor - seqConsumer, n);
  }

  /** Shape of the split when the window reaches the end of the array (at most one lap). */
  lemma TwoChunkShape(seqConsumer: nat, seqCursor: nat, n: nat)
    requires n > 0 && seqCursor <= seqConsumer + n && seqConsumer % n + (seqCursor - seqConsumer) >= n
    ensures var pc, pu := seqConsumer % n, seqConsumer % n + (seqCursor - seqConsumer) - n;
      UnreadChunks(seqConsumer, seqCursor, n) == [Chunk(pc, n - pc)] + (if pu > 0 then [Chunk(0, pu)] else [])
  {
    ModAdd(seqConsumer, seqCursor - seqConsumer, n);
  }

  /** Reading a tail chunk `[pc, n)` and then a head chunk `[0, pu)` visits the slots `pc, pc+1, ...` modulo `n`. */
  lemma {:induction false} TailHeadSlots(pc: nat, pu: nat, n: nat, k: nat)
    requires pc < n && pu <= pc && k < n - pc + pu
    ensures var cs := [Chunk(pc, n - pc)] + (if pu > 0 then [Chunk(0, pu)] else []);
      Total(cs) == n - pc + pu && SlotOf(cs, k) == if pc + k < n then pc + k else pc + k - n
  {
    var head := if pu > 0 then [Chunk(0, pu)] else [];
    var cs := [Chunk(pc, n - pc)] + head;
    assert cs[1..] == head;
    if pu > 0 {
      assert head[1..] == [];
      assert Total(head) == pu;
    } else {
      assert Total(head) == 0;
    }
    assert Total(cs) == (n - pc) + Total(head);
    if k >= n - pc {
      assert SlotOf(cs, k) == SlotOf(head, k - (n - pc));
    }
  }

  /**
   * Within one lap, the chunks hold exactly the unread elements, in order: the `k`-th element
   * read is the one of sequence `seqConsumer + k`, and nothing is returned only when nothing
   * is unread.
   */
  lemma {:induction false} UnreadChunksExact(seqConsumer: nat, seqCursor: nat, n: nat)
    requires n > 0 && seqConsumer <= seqCursor <= seqConsumer + n
    ensures Total(UnreadChunks(seqConsumer, seqCursor, n)) == seqCursor - seqConsumer
    ensures UnreadChunks(seqConsumer, seqCursor, n) == [] <==> seqCursor == seqConsumer
    ensures forall k :: 0 <= k < seqCursor - seqConsumer ==>
              SlotOf(UnreadChunks(seqConsumer, seqCursor, n), k) == (seqConsumer + k) % n
  {
    var cs := UnreadChunks(seqConsumer, seqCursor, n);
    var d := seqCursor - seqConsumer;
    var pc := seqConsumer % n;
    if d == 0 {
      assert cs == [];
    } else if pc + d < n {
      OneChunkShape(seqConsumer, seqCursor, n);
      forall k | 0 <= k < d ensures SlotOf(cs, k) == (seqConsumer + k) % n {
        ModAdd(seqConsumer, k, n);
      }
    } else {
      var pu := pc + d - n;
      TwoChunkShape(seqConsumer, seqCursor, n);
      TailHeadSlots(pc, pu, n, 0);
      forall k | 0 <= k < d ensures SlotOf(cs, k) == (seqConsumer + k) % n {
        TailHeadSlots(pc, pu, n, k);
        ModAdd(seqConsumer, k, n);
      }
    }
  }

  /**
   * A consumer never reads a slot that a producer holds under an outstanding claim: every
   * element of the unread window lives in a slot other than that of any sequence in
   * `[seqCursor, seqNext)`.
   */
  lemma UnreadAvoidsClaims(seqConsumer: nat, seqCursor: nat, seqNext: nat, n: nat, k: nat, s: nat)
    requires n > 0 && seqConsumer <= seqCursor <= seqNext <= seqConsumer + n
    requires k < seqCursor - seqConsumer && seqCursor <= s < seqNext
    ensures SlotOf(UnreadChunks(seqConsumer, seqCursor, n), k) != s % n
  {
    UnreadChunksExact(seqConsumer, seqCursor, n);
    ModDistinct(seqConsumer + k, s, n);
  }

  /** The byte views of chunks that fit the array fit the element storage. */
  lemma ViewsWithin(cs: seq<Chunk>, n: nat, elementSize: nat)
    requires forall i :: 0 <= i < |cs| ==> cs[i].slot + cs[i].count <= n
    ensures forall i :: 0 <= i < |cs| ==>
              ToViews(cs, elementSize)[i].offset + ToViews(cs, elementSize)[i].length <= n * elementSize
  {
    forall i | 0 <= i < |cs|
      ensures ToViews(cs, elementSize)[i].offset + ToViews(cs, elementSize)[i].length <= n * elementSize
    {
      SlotBytesWithin(cs[i].slot, cs[i].count, n, elementSize);
    }
  }
}
