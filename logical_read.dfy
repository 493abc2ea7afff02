/** Reads resolved against the logical content, the behaviour the buffer's own clamping
    of the stop aims at, next to the reads as written.

    As written, `buffer[key]` resolves a negative position and a negative start against the
    physical array, and a stop below `-length` stays negative after the logical length is
    added once, so Python resolves it against the physical length. When the array is longer
    than the logical content (a buffer reused after a longer use), these reach bytes left
    over from the earlier use. */
module LogicalReads {
  import opened PySlice
  import opened PieceBuffers

  /** `buffer[key]` taken on the logical content alone, with Python's own rules. */
  function LogicalRead(st: Store, key: Key): (r: Item)
    requires st.Valid()
    ensures key.Range? ==> r.Bytes? && |r.data| <= st.length
    ensures key.Position? ==> (r == IndexError <==> !(-(st.length as int) <= key.i < st.length))
  {
    match key
    case Range(start, stop) => Bytes(Slice(st.Content(), start, stop))
    case Position(i) =>
      if !(-(st.length as int) <= i < st.length) then IndexError else Byte(At(st.Content(), i))
  }

  /** A logical read sees only the logical content: two states that agree on it agree on
      every read, whatever the rest of their arrays hold. */
  lemma LogicalReadIgnoresStale(st1: Store, st2: Store, key: Key)
    requires st1.Valid() && st2.Valid()
    requires st1.Content() == st2.Content()
    ensures LogicalRead(st1, key) == LogicalRead(st2, key)
  {
  }

  /** The keys on which the reads as written are not affected by the physical length: a
      stop that is absent or at least `-length`, and a start or position that is absent or
      non-negative unless the array is exactly as long as the logical content. */
  predicate WellResolved(st: Store, key: Key)
  {
    match key
    case Range(start, stop) =>
      (start.None? || 0 <= start.value || |st.buf| == st.length) &&
      (stop.None? || -(st.length as int) <= stop.value)
    case Position(i) => 0 <= i || |st.buf| == st.length
  }

  /** On well-resolved keys the reads as written are the logical reads. */
  lemma ReadAgreesWhenWellResolved(st: Store, key: Key)
    requires st.Valid()
    requires WellResolved(st, key)
    ensures Read(st, key) == LogicalRead(st, key)
  {
  }

  /** A buffer that held `abcde`, was prepared again with `init()` and then given `xyz`:
      its array is `xyzde`, its logical content `xyz`. */
  function Reused(): (st: Store)
    ensures st.Valid()
    ensures st.Content() == [0x78, 0x79, 0x7a]
    ensures st.buf == [0x78, 0x79, 0x7a, 0x64, 0x65]
  {
    Appended(Store([0x61, 0x62, 0x63, 0x64, 0x65], 0), [0x78, 0x79, 0x7a])
  }

  /** As written, position -1 of the reused buffer is the stale `e`, not the last logical
      byte `z`. */
  lemma NegativePositionReadsStale()
    ensures Read(Reused(), Position(-1)) == Byte(0x65)
    ensures LogicalRead(Reused(), Position(-1)) == Byte(0x7a)
  {
  }

  /** As written, the slice `[:-4]` of the reused buffer is `xyzd`, four bytes of which
      the last is stale, where the logical content has nothing before position -4. */
  lemma DeepNegativeStopReadsStale()
    ensures Read(Reused(), Range(None, Some(-4))) == Bytes([0x78, 0x79, 0x7a, 0x64])
    ensures LogicalRead(Reused(), Range(None, Some(-4))) == Bytes([])
  {
  }

  /** As written, the slice `[-2:]` of the reused buffer is empty, where the last two
      logical bytes are `yz`. */
  lemma NegativeStartMissesContent()
    ensures Read(Reused(), Range(Some(-2), None)) == Bytes([])
    ensures LogicalRead(Reused(), Range(Some(-2), None)) == Bytes([0x79, 0x7a])
  {
  }
}
