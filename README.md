# shared-memory-disruptor: a verified model of the native engine

`shared-memory-disruptor` is a lock-free multi-producer, multi-consumer ring buffer kept in a
POSIX shared-memory segment, so that separate processes can use one ring. The engine lives in
the native `Disruptor` class. Each process opens a handle on a named segment. A producer
*claims* the slot of the next sequence number, writes into it through a zero-copy buffer and
*commits* it. A consumer *consumes* every committed element it has not yet read, as one or two
zero-copy buffers, and *commits* that window on its next consume (or explicitly).

The segment is laid out as follows. There is one 64-bit position per consumer: the next
sequence that consumer will read. Then comes the 64-bit `cursor`: every sequence below it is
committed. Then comes the 64-bit `next`: every sequence below it is claimed. Last come
`num_elements` slots of `element_size` bytes each. Sequence `s` lives in slot
`s % num_elements`.

The model has five modules:

- `Arith`: Euclidean division and remainder facts for ring addressing.
- `Layout`: the byte layout of the segment. `Locate` decodes a byte offset into the field that
  holds it, and `OffsetOfLocate` proves the encoding and decoding are inverse. It also models
  the size computation as the source writes it, with 32-bit wrap-around (see Findings).
- `Ring`: pure functions for the engine's arithmetic:
  - the claim gate: a consumer on the slot of `next` but a lap behind blocks the claim;
  - the split of the unread window `[position, cursor)` into a tail chunk and a head chunk;
  - proofs that the gate is exactly the capacity test "every consumer is less than one lap
    behind `next`";
  - proofs that the chunks hold exactly the unread sequences in order, and that the consumer
    never reads a slot under an outstanding claim.
- `Disruptor`: the engine as two classes.
  - `Segment` holds the shared state. The consumer positions are an `array<nat>`, the element
    bytes an `array<byte>`, and `cursor` and `next` are mutable fields.
  - `Handle` is one process's attachment. It holds its consumer id, whether the segment is
    still mapped, and the pending consume window.
  - Every compare-and-swap of the source is one guarded update of a field. The shared
    invariant is `position <= cursor <= next <= position + num_elements` for every consumer.
    Every operation is proved to keep it, except that committing a sequence that was never
    claimed breaks it; `ProduceCommit` states exactly when that happens.
  - Returned buffers are `View(offset, length)` values: byte ranges of the element storage.
- `Scenarios`: the runs of the single-process test suite, replayed on the model with their
  concrete results proved. They use a 256-slot ring of 8-byte elements with one consumer.
  There is also a run with a producer handle and a consumer handle attached to one segment.

Sequence numbers are unbounded `nat`s. The source's are 64-bit and never wrap in practice.

Where the prose description of the library and the native code differ, the model follows the
code:

- a claim takes exactly one slot;
- a produce commit takes the claimed sequence number;
- a consume commit returns nothing;
- the native class has no "ignoring" flag, no multi-slot or "available" claim, and no
  recovery operation.

## Model

| member | source | states |
|---|---|---|
| Ring.BusyIffFullLap | src/disruptor.cc:519-529 | While a consumer is at most one lap behind `next`, the slot test (same slot, different sequence) holds exactly when it is a whole lap behind |
| Ring.CanClaimIffHasRoom | src/disruptor.cc:517-532 | Under the shared invariant, the gating loop lets a claim through if and only if every consumer is less than one lap behind `next` |
| Ring.ClaimedSlotIsFree | src/disruptor.cc:517-540 | A slot that passes the gate holds no sequence from any consumer's position up to `next`: no unread element and no outstanding claim is overwritten |
| Ring.ClaimKeepsBounded | src/disruptor.cc:531-532 | Advancing `next` after a claim that passed the gate keeps every consumer within one lap of it |
| Ring.UnreadChunks | src/disruptor.cc:389-423 | The unread window becomes at most two chunks: one chunk when the cursor's slot lies after the consumer's; otherwise the tail to the end of the array, followed by the head when the cursor's slot is not 0; nothing when position equals cursor. Every chunk is non-empty and inside the array |
| Ring.UnreadChunksExact | src/disruptor.cc:376-433 | Within one lap, the chunks hold exactly `cursor - position` elements. The `k`-th one read is the element of sequence `position + k`. They are empty exactly when nothing is unread |
| Ring.UnreadAvoidsClaims | src/disruptor.cc:389-423 | No element handed to a consumer lives in the slot of a sequence that is claimed but not yet committed |
| Ring.ViewsWithin | src/disruptor.cc:396-419 | The byte buffers built from the chunks lie inside the element storage |
| Layout.Locate | src/disruptor.cc:309-339 | Every byte offset below the segment size belongs to a valid field (a consumer position, the cursor, `next` or an element slot) and encodes back to that offset |
| Layout.OffsetOfLocate | src/disruptor.cc:309-339 | Every byte of every field lies inside the segment, and decoding its offset gives back the same field and index: the fields tile the segment without overlap |
| Layout.ConsumerByteRoundTrip | src/disruptor.cc:335 | A byte of consumer `i`'s position lies before the cursor word and decodes to consumer `i` |
| Layout.ElementByteRoundTrip | src/disruptor.cc:338 | A byte of element slot `s` lies inside the element area and decodes to slot `s` |
| Layout.SegmentSizeOverflows | src/disruptor.cc:313-314 | With one consumer and 65536 slots of 65536 bytes, the size as computed covers only the header, yet slot 0 spans bytes beyond it |
| Layout.SegmentSizeAgreesBelowOverflow | src/disruptor.cc:313-314 | The size as computed equals the true size whenever the element area is below 2^32 bytes |
| Disruptor.Segment.constructor | src/disruptor.cc:309-320 | A freshly initialised segment's size is the header words for its consumer table and two counters plus its element storage, and equals the size as the source computes it while the element area is below 2^32 bytes; every consumer position, both counters and every element byte are zero; the invariant holds |
| Disruptor.Segment.CheckGating | src/disruptor.cc:517-529 | The loop over the consumers returns true exactly when no consumer sits on the slot of `seqNext` with a different sequence |
| Disruptor.Handle.Create | src/disruptor.cc:286-343 | Opening with initialisation maps a fresh, zeroed segment, with no pending window |
| Disruptor.Handle.Attach | src/disruptor.cc:286-343 | Opening without initialisation leaves the shared state as it is and starts with no pending window |
| Disruptor.Handle.Release | src/disruptor.cc:350-365 | After release the segment is unmapped. A second release does nothing, and the shared state is untouched |
| Disruptor.Handle.UpdatePending | src/disruptor.cc:487-491 | The pending window becomes the window just handed out |
| Disruptor.Handle.CommittedPosition | src/disruptor.cc:493-503 | The position after a commit never moves backwards and never passes the cursor. When a window is pending and starts at the current position, it becomes the window's end; otherwise it can change only to the end of a window that starts at it |
| Disruptor.Handle.ConsumeCommit | src/disruptor.cc:493-503 | Compare-and-swap of this consumer's position from the window's start to its end, done only when a window is pending. Other positions are untouched, the window is cleared and the invariant kept |
| Disruptor.Handle.ConsumeNew | src/disruptor.cc:376-433 | Commits the previous window first. Then it returns the buffers of the unread window `[position, cursor)`: exactly `cursor - position` elements, inside the storage, empty exactly when nothing is unread. The window is recorded as pending only when non-empty |
| Disruptor.Handle.ProduceClaim | src/disruptor.cc:505-550 | A claim succeeds if and only if every consumer is less than one lap behind `next`. On success it returns the slot of the old `next` with that sequence number and advances `next` by one. On failure it returns a zero-length result and changes nothing. The cursor is untouched and the invariant kept |
| Disruptor.Handle.ProduceCommit | src/disruptor.cc:598-616 | Succeeds exactly when the cursor equals the committed sequence, and then advances the cursor by one; otherwise nothing changes. The invariant survives unless a never-claimed sequence was committed |
| Scenarios.ClaimCommitMany | test/single_process.js:119-135 | Claiming and committing `count` slots in a row while there is room: the `i`-th claim returns one element-sized buffer on the slot of sequence `next + i`, with that sequence number; every commit succeeds; both counters advance by `count` |
| Scenarios.ZeroInitScenario | test/single_process.js:63-70 | A new segment reads back zero counters, a zero consumer position and zero element bytes |
| Scenarios.SingleValueScenario | test/single_process.js:72-106 | One element goes through slot 0. The consume returns it without moving the consumer, and the commit moves the consumer to 1 |
| Scenarios.EmptyConsumeScenario | test/single_process.js:108-117 | Consuming an empty ring returns no buffers and leaves the consumer at 0 |
| Scenarios.FillUntilFull | test/single_process.js:320-346 | One claim and commit per slot of an empty ring: each claim takes the next slot and every commit succeeds. The next claim then fails, and both counters stand one lap ahead |
| Scenarios.ConsumeWhenFull | test/single_process.js:149-163 | On the full 256-slot ring a consume returns the whole array as one buffer, and a claim still fails before the commit. Cursor and `next` read 256 and the position 0 after each step |
| Scenarios.DrainAndReuse | test/single_process.js:164-177 | The next consume commits the full window and returns nothing. Cursor, `next` and the position then read 256, and a claim takes slot 0 for sequence 256 |
| Scenarios.FillScenario | test/single_process.js:119-184 | The fill-up run end to end. The 256 claims return 8-byte buffers on slots 0 to 255 and all 256 commits succeed. Cursor, `next` and the position read back after each step as the test expects. The further claims fail, the consume returns the whole array, and the drain, the position of 256 and the reuse of slot 0 follow |
| Scenarios.WrapScenario | test/single_process.js:186-278 | After 200 elements are consumed and 86 more produced, a consume returns 56 elements at the end of the array followed by 30 at its start |
| Scenarios.OutOfOrderCommitScenario | test/single_process.js:348-395 | Committing the second claim before the first fails; committing the first and then the second succeeds, and the cursor reaches 2 |
| Scenarios.ConsumeAndFree | src/disruptor.cc:493-532 | After the consumer handle reads the full window, a claim by the producer handle on the same segment still fails; the consumer's commit then frees slot 0 for sequence 4 |
| Scenarios.TwoHandleScenario | src/disruptor.cc:376-550 | On a shared 4-slot segment the consumer handle reads what the producer handle committed. The producer's claim fails when the ring is full, fails again after the consumer's read, and succeeds on slot 0 after the consumer's commit |

## Left out

- Opening, sizing, mapping and unmapping the shared-memory object (`shm_open`, `ftruncate`,
  `mmap`, `munmap`) and their errno errors are not modelled: these are operating-system calls.
  A handle is created either over a fresh zeroed segment or over an existing one.
- Disruptor.Handle.Release: a failing `munmap` (negative return, segment still mapped) is not modelled.
- The N-API glue is not modelled: argument conversion, JavaScript buffers and arrays, the
  `seq_next` property on returned buffers, callbacks and the asynchronous workers. Buffers are
  byte ranges of the element storage; writes made through them by callers are not modelled.
- The `retry == true` (spin) paths of claim, commit and consume are not modelled: they repeat
  the single attempt modelled here until it succeeds.
- Concurrency is not modelled. Each compare-and-swap is one atomic step, and the operations of
  all handles on a segment run one after another. A claim's compare-and-swap on `next`
  therefore always succeeds once the gate has passed.
- Sequence numbers are unbounded. The 64-bit wrap-around of `sequence_t` is not modelled.
- The source does not check the consumer id against the number of consumers.
  `ConsumeNew` and `ConsumeCommit` require `consumer < numConsumers`.
- Opening with initialisation over a segment that other handles still map truncates their
  shared state. This is not modelled: `Create` always makes a new segment.
- The source does not guard its operations against a released handle: they would touch
  unmapped memory. The model's operations require `mapped`.
- Disruptor.Segment.constructor: the segment size is the unwrapped one. The size as the source
  computes it wraps at 2^32 (see Findings) and is modelled separately in `Layout`.
- A ring of zero elements is not modelled: `Segment`, `Create` and the invariant require
  `numElements > 0`. The source accepts zero, and every later `% num_elements` then divides by
  zero.
- Each native handle keeps its own copy of the element count, element size and consumer count.
  `Attach` takes them from the shared `Segment`, so a handle that attaches with parameters
  other than the segment's is not expressible.
- The destructor only calls `Release`, and is not modelled separately.
- `lib/disruptor.js` (the JavaScript wrapper and stream classes) is not part of this model.
- Multi-slot claims, "available" claims, an ignoring flag and recovery appear only in the prose
  description, not in the native code, so they are not modelled.

## Findings

| source | as written | input that shows it | evidently intended | confidence | as-written member | corrected member |
|---|---|---|---|---|---|---|
| src/disruptor.cc:313-314 | The segment size adds the header size to `num_elements * element_size`, a product of two `uint32_t` fields that wraps modulo 2^32 before it is widened to `size_t`. Element addressing at lines 338 and 396-419 uses the full product | `num_consumers = 1`, `num_elements = 65536`, `element_size = 65536`: the size is 24 bytes, the header alone, but a claim hands out 65536 bytes after it | The element area is computed without wrap-around, so every slot lies inside the mapped segment | not executed; follows from the declared field types | Layout.SegmentSizeOverflows | Layout.OffsetOfLocate |
