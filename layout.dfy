// Byte layout of the shared segment: one 8-byte position per consumer, then the `cursor`
// word, then the `next` word, then `numElements` slots of `elementSize` bytes each.
module Layout {
  import opened Arith

  /** Width in bytes of a sequence number (`uint64_t`). */
  const WordSize: nat := 8

  /** Size of the segment in bytes, with the element area computed without overflow. */
  function SegmentSize(numConsumers: nat, numElements: nat, elementSize: nat): nat
  {
    (numConsumers + 2) * WordSize + numElements * elementSize
  }

  /** Byte offset at which the element area starts. */
  function ElementsOffset(numConsumers: nat): nat
  {
    (numConsumers + 2) * WordSize
  }

  /** A field of the segment. */
  datatype Field = ConsumerPosition(consumer: nat) | Cursor | Next | Element(slot: nat)

  /** One byte of the segment, named by the field it belongs to and its index within that field. */
  datatype Location = Location(field: Field, index: nat)

  function FieldOffset(numConsumers: nat, elementSize: nat, f: Field): nat
  {
    match f
    case ConsumerPosition(i) => i * WordSize
    case Cursor => numConsumers * WordSize
    case Next => (numConsumers + 1) * WordSize
    case Element(s) => ElementsOffset(numConsumers) + s * elementSize
  }

  function FieldSize(elementSize: nat, f: Field): nat
  {
    if f.Element? then elementSize else WordSize
  }

  predicate ValidLocation(numConsumers: nat, numElements: nat, elementSize: nat, loc: Location)
  {
    (match loc.field
     case ConsumerPosition(i) => i < numConsumers
     case Element(s) => s < numElements
     case _ => true) &&
    loc.index < FieldSize(elementSize, loc.field)
  }

  /** Byte offset of a location within the segment. */
  function OffsetOf(numConsumers: nat, elementSize: nat, loc: Location): nat
  {
    FieldOffset(numConsumers, elementSize, loc.field) + loc.index
  }

  /**
   * The field and index stored at byte `offset`: every byte of the segment belongs to
   * exactly one field, and decoding the offset back gives the same byte.
   */
  function Locate(numConsumers: nat, numElements: nat, elementSize: nat, offset: nat): (loc: Location)
    requires offset < SegmentSize(numConsumers, numElements, elementSize)
    ensures ValidLocation(numConsumers, numElements, elementSize, loc)
    ensures OffsetOf(numConsumers, elementSize, loc) == offset
  {
    var cursorAt := numConsumers * WordSize;
    if offset < cursorAt then
      DivModUnique(offset, WordSize, offset / WordSize, offset % WordSize);
      Location(ConsumerPosition(offset / WordSize), offset % WordSize)
    else if offset < cursorAt + WordSize then
      Location(Cursor, offset - cursorAt)
    else if offset < cursorAt + 2 * WordSize then
      Location(Next, offset - cursorAt - WordSize)
    else
      var rel := offset - ElementsOffset(numConsumers);
      assert elementSize > 0;
      var slot, index := rel / elementSize, rel % elementSize;
      assert rel == slot * elementSize + index;
      assert slot < numElements by {
        if slot >= numElements {
          MulMonotone(numElements, slot, elementSize);
        }
      }
      Location(Element(slot), index)
  }

  /** A byte of a consumer position lies before the cursor word and decodes back to itself. */
  lemma ConsumerByteRoundTrip(numConsumers: nat, numElements: nat, elementSize: nat, i: nat, index: nat)
    requires i < numConsumers && index < WordSize
    ensures var offset := i * WordSize + index;
      offset < numConsumers * WordSize &&
      offset / WordSize == i && offset % WordSize == index
  {
    MulMonotone(i + 1, numConsumers, WordSize);
    DivModUnique(i * WordSize + index, WordSize, i, index);
  }

  /** A byte of an element slot lies inside the element area and decodes back to itself. */
  lemma ElementByteRoundTrip(numElements: nat, elementSize: nat, s: nat, index: nat)
    requires s < numElements && index < elementSize
    ensures var rel := s * elementSize + index;
      rel < numElements * elementSize &&
      rel / elementSize == s && rel % elementSize == index
  {
    SlotBytesWithin(s, 1, numElements, elementSize);
    DivModUnique(s * elementSize + index, elementSize, s, index);
  }

  /** Every location of the layout lies inside the segment, and its offset decodes back to it. */
  lemma OffsetOfLocate(numConsumers: nat, numElements: nat, elementSize: nat, loc: Location)
    requires ValidLocation(numConsumers, numElements, elementSize, loc)
    ensures OffsetOf(numConsumers, elementSize, loc) < SegmentSize(numConsumers, numElements, elementSize)
    ensures Locate(numConsumers, numElements, elementSize, OffsetOf(numConsumers, elementSize, loc)) == loc
  {
    match loc.field
    case ConsumerPosition(i) =>
      ConsumerByteRoundTrip(numConsumers, numElements, elementSize, i, loc.index);
    case Cursor =>
    case Next =>
    case Element(s) =>
      ElementByteRoundTrip(numElements, elementSize, s, loc.index);
  }

  // ---------------------------------------------------------------- size as computed in the source

  /**
   * The size the source asks for: `num_elements * element_size` is a product of two 32-bit
   * unsigned values, so it is reduced modulo 2^32 before it is added to the header size.
   */
  function SegmentSizeAsWritten(numConsumers: nat, numElements: nat, elementSize: nat): nat
  {
    (numConsumers + 2) * WordSize + (numElements * elementSize) % 0x1_0000_0000
  }

  /**
   * With 65536 slots of 65536 bytes the computed size leaves no room for elements at all,
   * although a claim on slot 0 hands out 65536 bytes after the header.
   */
  lemma SegmentSizeOverflows()
    ensures SegmentSizeAsWritten(1, 65536, 65536) == ElementsOffset(1)
    ensures OffsetOf(1, 65536, Location(Element(0), 65535)) >= SegmentSizeAsWritten(1, 65536, 65536)
    ensures SegmentSize(1, 65536, 65536) > SegmentSizeAsWritten(1, 65536, 65536)
  {
  }

  /** The two sizes agree exactly while the element area fits in 32 bits. */
  lemma SegmentSizeAgreesBelowOverflow(numConsumers: nat, numElements: nat, elementSize: nat)
    requires numElements * elementSize < 0x1_0000_0000
    ensures SegmentSizeAsWritten(numConsumers, numElements, elementSize) == SegmentSize(numConsumers, numElements, elementSize)
  {
  }
}
