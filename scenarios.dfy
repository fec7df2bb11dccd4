// Concrete runs of the engine on a 256-slot ring of 8-byte elements with one consumer,
// following the single-process test suite.
module Scenarios {
  import opened Ring
  import opened Disruptor

  /** What a test reads back from a handle: the two counters and its consumer's position. */
  datatype Counters = Counters(cursor: nat, next: nat, position: nat)

  /**
   * Claims and commits `count` slots one after the other, as a producer that writes each
   * element before claiming the next one; every claim takes the next sequence's slot and
   * every commit succeeds.
   */
  method ClaimCommitMany(h: Handle, count: nat) returns (claims: seq<ClaimResult>, commits: seq<bool>)
    requires h.Valid() && h.mapped && h.seg.cursor == h.seg.next
    requires forall i :: 0 <= i < h.seg.consumers.Length ==>
               h.seg.next + count <= h.seg.consumers[i] + h.seg.numElements
    modifies h.seg`next, h.seg`cursor
    ensures h.Valid()
    ensures h.seg.next == h.seg.cursor == old(h.seg.next) + count
    ensures |claims| == count && |commits| == count
    ensures forall i :: 0 <= i < count ==>
              claims[i] == Slot(View(((old(h.seg.next) + i) % h.seg.numElements) * h.seg.elementSize,
                                     h.seg.elementSize), old(h.seg.next) + i)
    ensures forall i :: 0 <= i < count ==> commits[i]
  {
    claims, commits := [], [];
    var k := 0;
    while k < count
      invariant k <= count
      invariant h.Valid()
      invariant h.seg.next == h.seg.cursor == old(h.seg.next) + k
      invariant |claims| == k && |commits| == k
      invariant forall i :: 0 <= i < k ==>
                  claims[i] == Slot(View(((old(h.seg.next) + i) % h.seg.numElements) * h.seg.elementSize,
                                         h.seg.elementSize), old(h.seg.next) + i)
      invariant forall i :: 0 <= i < k ==> commits[i]
    {
      var b := h.ProduceClaim();
      assert b.Slot?;
      var ok := h.ProduceCommit(b.seqNext);
      claims, commits := claims + [b], commits + [ok];
      k := k + 1;
    }
  }

  /** A fresh segment reads back as all zeros: counters, the consumer position and every element byte. */
  method ZeroInitScenario() returns (cursor: nat, next: nat, position: nat, elementBytes: seq<byte>)
    ensures cursor == 0 && next == 0 && position == 0
    ensures |elementBytes| == 256 * 8 && forall i :: 0 <= i < |elementBytes| ==> elementBytes[i] == 0
  {
    var h := new Handle.Create(256, 8, 1, 0);
    cursor, next, position := h.seg.cursor, h.seg.next, h.seg.consumers[0];
    elementBytes := h.seg.elements[..];
    h.Release();
  }

  /**
   * One element through the ring: the claim takes slot 0, the commit publishes it, the consume
   * returns it without moving the consumer, and the explicit commit moves the consumer to 1.
   */
  method SingleValueScenario() returns (claim: ClaimResult, committed: bool, views: seq<View>,
                                        positionAfterConsume: nat, positionAfterCommit: nat)
    ensures claim == Slot(View(0, 8), 0)
    ensures committed
    ensures views == [View(0, 8)]
    ensures positionAfterConsume == 0 && positionAfterCommit == 1
  {
    var h := new Handle.Create(256, 8, 1, 0);
    claim := h.ProduceClaim();
    committed := h.ProduceCommit(claim.seqNext);
    views := h.ConsumeNew();
    positionAfterConsume := h.seg.consumers[0];
    h.ConsumeCommit();
    positionAfterCommit := h.seg.consumers[0];
    h.Release();
  }

  /** Consuming an empty ring returns no buffers and leaves the consumer where it was. */
  method EmptyConsumeScenario() returns (views: seq<View>, position: nat)
    ensures views == [] && position == 0
  {
    var h := new Handle.Create(256, 8, 1, 0);
    views := h.ConsumeNew();
    position := h.seg.consumers[0];
    h.Release();
  }

  /**
   * A handle on a ring of `n` slots of `es` bytes with one consumer, observed as its consumer
   * position, the two counters and its pending window.
   */
  ghost predicate At(h: Handle, n: nat, es: nat, position: nat, cursor: nat, next: nat,
                     pendingStart: nat, pendingEnd: nat)
    reads h, h.seg, h.seg.consumers
  {
    h.Valid() && h.mapped && h.consumer == 0 && h.seg.numConsumers == 1 &&
    h.seg.numElements == n && h.seg.elementSize == es &&
    h.seg.consumers[..] == [position] && h.seg.cursor == cursor && h.seg.next == next &&
    h.pendingSeqConsumer == pendingStart && h.pendingSeqCursor == pendingEnd
  }

  /**
   * Fills an empty ring with one consumer: one claim and commit per slot, then a claim that
   * fails because the consumer is a whole lap behind.
   */
  method FillUntilFull(h: Handle, n: nat, es: nat, p: nat)
    returns (claims: seq<ClaimResult>, commits: seq<bool>, whenFull: ClaimResult)
    requires At(h, n, es, p, p, p, 0, 0)
    modifies h.seg`next, h.seg`cursor
    ensures At(h, n, es, p, p + n, p + n, 0, 0)
    ensures |claims| == n && |commits| == n
    ensures forall i :: 0 <= i < n ==> claims[i] == Slot(View(((p + i) % n) * es, es), p + i)
    ensures forall i :: 0 <= i < n ==> commits[i]
    ensures whenFull == Empty
  {
    claims, commits := ClaimCommitMany(h, n);
    assert !HasRoom(h.seg.consumers[..], p + n, n) by {
      assert h.seg.consumers[..][0] == p;
    }
    whenFull := h.ProduceClaim();
  }

  /** A consume on the full 256-slot ring returns the whole array; the ring stays full until it is committed. */
  method ConsumeWhenFull(h: Handle)
    returns (whole: seq<View>, afterWhole: Counters, stillFull: ClaimResult, afterStillFull: Counters)
    requires At(h, 256, 8, 0, 256, 256, 0, 0)
    modifies h`pendingSeqConsumer, h`pendingSeqCursor, h.seg.consumers, h.seg`next
    ensures At(h, 256, 8, 0, 256, 256, 0, 256)
    ensures whole == [View(0, 256 * 8)] && stillFull == Empty
    ensures afterWhole == Counters(256, 256, 0) && afterStillFull == Counters(256, 256, 0)
  {
    assert UnreadChunks(0, 256, 256) == [Chunk(0, 256)];
    assert ToViews([Chunk(0, 256)], 8) == [View(0, 256 * 8)];
    whole := h.ConsumeNew();
    assert h.seg.consumers[..] == [0];
    afterWhole := Counters(h.seg.cursor, h.seg.next, h.seg.consumers[0]);
    assert !HasRoom(h.seg.consumers[..], 256, 256) by { assert h.seg.consumers[..][0] == 0; }
    stillFull := h.ProduceClaim();
    afterStillFull := Counters(h.seg.cursor, h.seg.next, h.seg.consumers[0]);
  }

  /** The next consume commits the whole array, finds nothing new, and frees slot 0 for sequence 256. */
  method DrainAndReuse(h: Handle) returns (drained: seq<View>, afterDrain: Counters, reused: ClaimResult)
    requires At(h, 256, 8, 0, 256, 256, 0, 256)
    modifies h`pendingSeqConsumer, h`pendingSeqCursor, h.seg.consumers, h.seg`next
    ensures drained == [] && afterDrain == Counters(256, 256, 256)
    ensures reused == Slot(View(0, 8), 256)
  {
    assert UnreadChunks(256, 256, 256) == [];
    drained := h.ConsumeNew();
    assert h.seg.consumers[..] == [256];
    afterDrain := Counters(h.seg.cursor, h.seg.next, h.seg.consumers[0]);
    assert HasRoom(h.seg.consumers[..], 256, 256);
    reused := h.ProduceClaim();
    assert reused.view == View((256 % 256) * 8, 8);
  }

  /**
   * Filling the ring: 256 claims of one 8-byte slot each, in slot order, all committed, after
   * which further claims fail; a consume returns the whole array as one buffer; the next
   * consume commits it, returns nothing and moves the consumer to 256; a claim then succeeds on
   * slot 0 again. The counters read back after each step are those the test expects.
   */
  method FillScenario() returns (fillClaims: seq<ClaimResult>, fillCommits: seq<bool>, afterFill: Counters,
                                 whenFull: ClaimResult, afterWhenFull: Counters,
                                 whole: seq<View>, afterWhole: Counters,
                                 stillFull: ClaimResult, afterStillFull: Counters,
                                 drained: seq<View>, afterDrain: Counters, reused: ClaimResult)
    ensures |fillClaims| == 256 && forall i :: 0 <= i < 256 ==> fillClaims[i] == Slot(View(i * 8, 8), i)
    ensures |fillCommits| == 256 && forall i :: 0 <= i < 256 ==> fillCommits[i]
    ensures afterFill == Counters(256, 256, 0) && afterWhenFull == Counters(256, 256, 0)
    ensures whenFull == Empty && stillFull == Empty
    ensures whole == [View(0, 256 * 8)] && afterWhole == Counters(256, 256, 0)
    ensures afterStillFull == Counters(256, 256, 0)
    ensures drained == [] && afterDrain == Counters(256, 256, 256)
    ensures reused == Slot(View(0, 8), 256)
  {
    var h := new Handle.Create(256, 8, 1, 0);
    assert h.seg.consumers[..] == [0];
    fillClaims, fillCommits, whenFull := FillUntilFull(h, 256, 8, 0);
    forall i | 0 <= i < 256 ensures fillClaims[i] == Slot(View(i * 8, 8), i) {
      assert (0 + i) % 256 == i;
    }
    // The failed claim changes nothing, so the counters after the fill are those after it.
    afterFill := Counters(h.seg.cursor, h.seg.next, h.seg.consumers[0]);
    afterWhenFull := afterFill;
    whole, afterWhole, stillFull, afterStillFull := ConsumeWhenFull(h);
    drained, afterDrain, reused := DrainAndReuse(h);
    h.Release();
  }

  /**
   * Wrapping round: 200 elements are consumed, 86 more are produced, and the next consume
   * returns the 56 elements up to the end of the array followed by the 30 at its start.
   */
  method WrapScenario() returns (first: seq<View>, position: nat, wrapped: seq<View>)
    ensures first == [View(0, 200 * 8)]
    ensures position == 200
    ensures wrapped == [View(200 * 8, 56 * 8), View(0, 30 * 8)]
  {
    var h := new Handle.Create(256, 8, 1, 0);
    var _, _ := ClaimCommitMany(h, 200);
    assert h.seg.consumers[..] == [0];
    assert UnreadChunks(0, 200, 256) == [Chunk(0, 200)];
    assert ToViews([Chunk(0, 200)], 8) == [View(0, 200 * 8)];
    first := h.ConsumeNew();
    assert h.pendingSeqConsumer == 0 && h.pendingSeqCursor == 200;
    h.ConsumeCommit();
    position := h.seg.consumers[0];
    assert h.seg.consumers[..] == [200];
    var _, _ := ClaimCommitMany(h, 86);
    assert h.seg.consumers[..] == [200] && h.seg.cursor == 286;
    assert UnreadChunks(200, 286, 256) == [Chunk(200, 56), Chunk(0, 30)];
    assert ToViews([Chunk(200, 56), Chunk(0, 30)], 8) == [View(200 * 8, 56 * 8), View(0, 30 * 8)];
    wrapped := h.ConsumeNew();
    h.Release();
  }

  /**
   * Commits are taken in claim order only: committing the second claim before the first
   * fails and leaves the cursor at 0; committing the first and then the second succeeds.
   */
  method OutOfOrderCommitScenario() returns (first: ClaimResult, second: ClaimResult,
                                             early: bool, inOrder: bool, late: bool, cursor: nat)
    ensures first.Slot? && first.seqNext == 0 && second.Slot? && second.seqNext == 1
    ensures !early && inOrder && late
    ensures cursor == 2
  {
    var h := new Handle.Create(256, 8, 1, 0);
    first := h.ProduceClaim();
    second := h.ProduceClaim();
    early := h.ProduceCommit(second.seqNext);
    inOrder := h.ProduceCommit(first.seqNext);
    late := h.ProduceCommit(second.seqNext);
    cursor := h.seg.cursor;
    h.Release();
  }

  /**
   * The consumer handle reads the four committed elements; until it commits them the producer
   * is still blocked, and its commit frees slot 0 for the producer.
   */
  method ConsumeAndFree(producer: Handle, consumer: Handle)
    returns (views: seq<View>, blockedAfterRead: ClaimResult, freed: ClaimResult)
    requires At(consumer, 4, 16, 0, 4, 4, 0, 0) && At(producer, 4, 16, 0, 4, 4, 0, 0)
    requires producer.seg == consumer.seg && producer != consumer
    modifies consumer`pendingSeqConsumer, consumer`pendingSeqCursor, consumer.seg.consumers, producer.seg`next
    ensures views == [View(0, 4 * 16)]
    ensures blockedAfterRead == Empty
    ensures freed == Slot(View(0, 16), 4)
  {
    assert UnreadChunks(0, 4, 4) == [Chunk(0, 4)];
    assert ToViews([Chunk(0, 4)], 16) == [View(0, 4 * 16)];
    views := consumer.ConsumeNew();
    assert consumer.seg.consumers[..] == [0];
    assert !HasRoom(producer.seg.consumers[..], 4, 4) by { assert producer.seg.consumers[..][0] == 0; }
    blockedAfterRead := producer.ProduceClaim();
    assert producer.seg.next == 4;
    consumer.ConsumeCommit();
    assert producer.seg.consumers[..] == [4];
    assert HasRoom(producer.seg.consumers[..], 4, 4);
    freed := producer.ProduceClaim();
    assert freed.view == View((4 % 4) * 16, 16);
  }

  /**
   * A producer handle and a consumer handle attached to one segment: what the producer
   * commits the consumer reads, and the producer's claims fail while the ring is full, both
   * before the consumer reads and between its read and its commit, and succeed after the commit.
   */
  method TwoHandleScenario() returns (views: seq<View>, blocked: ClaimResult, blockedAfterRead: ClaimResult,
                                     freed: ClaimResult)
    ensures views == [View(0, 4 * 16)]
    ensures blocked == Empty && blockedAfterRead == Empty
    ensures freed == Slot(View(0, 16), 4)
  {
    var producer := new Handle.Create(4, 16, 1, 0);
    var consumer := new Handle.Attach(producer.seg, 0);
    assert producer.seg.consumers[..] == [0];
    var _, _, full := FillUntilFull(producer, 4, 16, 0);
    blocked := full;
    views, blockedAfterRead, freed := ConsumeAndFree(producer, consumer);
    producer.Release();
    consumer.Release();
  }
}
