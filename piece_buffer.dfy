/** The non-shrinking byte buffer that collects piece data.

    A buffer has a physical array `buf`, which only ever grows, and a logical `length`,
    the number of bytes written since the buffer was last prepared for use. Bytes of `buf`
    at or past `length` are left over from an earlier use. */
module PieceBuffers {
  import opened PySlice

  /** The state of one buffer as a value. */
  datatype Store = Store(buf: seq<bv8>, length: nat)
  {
    /** The class invariant: the logical length never exceeds the physical array. */
    predicate Valid() { length <= |buf| }

    /** The bytes written since the buffer was last prepared. */
    function Content(): seq<bv8>
      requires Valid()
    {
      buf[..length]
    }
  }

  /** What `buffer[key]` is asked for: a slice with step 1 (or no step), or one position. */
  datatype Key = Range(start: Option<int>, stop: Option<int>) | Position(i: int)

  /** What `buffer[key]` gives back: a byte sequence for a slice, one byte for a position,
      or the IndexError raised for a position outside `[-length, length)`. */
  datatype Item = Bytes(data: seq<bv8>) | Byte(value: bv8) | IndexError

  /** The state after `append(s)`: `s` is written by slice assignment at the old logical
      end and the logical length grows by `|s|`. */
  function Appended(st: Store, s: seq<bv8>): (r: Store)
    requires st.Valid()
    ensures r.Valid()
    ensures r.length == st.length + |s|
    ensures |r.buf| == (if |st.buf| < r.length then r.length else |st.buf|)
    ensures r.length <= |st.buf| ==> r.buf[r.length..] == st.buf[r.length..]
    ensures r.Content() == st.Content() + s
  {
    var length := st.length + |s|;
    AssignAtEnd(st.buf, st.length, s);
    var r := Store(AssignSlice(st.buf, st.length, length, s), length);
    assert r.Content() == r.buf[..st.length] + r.buf[st.length..length];
    r
  }

  /** The stop of a slice after the buffer's own adjustment: an absent stop or one past
      the logical length becomes the logical length, and a negative stop has the logical
      length added once. The result is not clamped any further. */
  function EffectiveStop(stop: Option<int>, length: nat): (r: int)
    ensures r <= length
    ensures stop.None? ==> r == length
    ensures stop.Some? && 0 <= stop.value ==> r == (if stop.value < length then stop.value else length)
    ensures stop.Some? && stop.value < 0 ==> r == stop.value + length
  {
    var s := if stop.None? || stop.value > length then length else stop.value;
    if s < 0 then s + length else s
  }

  /** The whole-array shortcut: a falsy start, an adjusted stop equal to the logical length,
      and a logical length equal to the physical one. */
  predicate TakesShortcut(st: Store, start: Option<int>, stop: int)
    ensures TakesShortcut(st, start, stop) ==>
              Lower(st.buf, start) == 0 && Upper(st.buf, Some(stop)) == |st.buf| == st.length
  {
    (start.None? || start.value == 0) && stop == st.length && st.length == |st.buf|
  }

  /** `buffer[start:stop]`, as written: the stop is adjusted by EffectiveStop, and then the
      physical array is sliced (so the start, and a stop still negative after adjustment,
      are resolved against the physical length), except that the whole array is handed
      back directly when TakesShortcut holds.

      For a start that is absent or non-negative and a stop that is absent or at least
      `-length`, this is exactly Python's slice of the logical content. */
  function ReadRange(st: Store, start: Option<int>, stop: Option<int>): (r: seq<bv8>)
    requires st.Valid()
    ensures (start.None? || 0 <= start.value) && (stop.None? || -(st.length as int) <= stop.value) ==>
              r == Slice(st.Content(), start, stop)
  {
    var s := EffectiveStop(stop, st.length);
    if TakesShortcut(st, start, s) then
      assert st.Content() == st.buf;
      st.buf
    else
      var r := Slice(st.buf, start, Some(s));
      if (start.None? || 0 <= start.value) && (stop.None? || -(st.length as int) <= stop.value) then
        SliceWithinContent(st, start, stop);
        r
      else
        r
  }

  /** The slice taken on the general path of ReadRange. */
  lemma SliceWithinContent(st: Store, start: Option<int>, stop: Option<int>)
    requires st.Valid()
    requires (start.None? || 0 <= start.value) && (stop.None? || -(st.length as int) <= stop.value)
    ensures Slice(st.buf, start, Some(EffectiveStop(stop, st.length))) ==
            Slice(st.Content(), start, stop)
  {
    var c := st.Content();
    var s := EffectiveStop(stop, st.length);
    assert 0 <= s <= st.length;
    assert Upper(st.buf, Some(s)) == s == Upper(c, stop);
    var lo := Lower(st.buf, start);
    if lo < s {
      assert Lower(c, start) == lo;
      assert forall k :: lo <= k < s ==> st.buf[k] == c[k];
      assert st.buf[lo..s] == c[lo..s];
    }
  }

  /** `buffer[i]`, as written: IndexError unless `-length <= i < length`; otherwise the
      physical array is indexed, so a negative `i` counts back from the physical end. */
  function ReadPosition(st: Store, i: int): (r: Item)
    requires st.Valid()
    ensures r == IndexError <==> !(-(st.length as int) <= i < st.length)
    ensures 0 <= i < st.length ==> r == Byte(st.Content()[i])
    ensures -(st.length as int) <= i < 0 ==> r == Byte(st.buf[|st.buf| + i])
  {
    if !(-(st.length as int) <= i < st.length) then IndexError else Byte(At(st.buf, i))
  }

  /** `buffer[key]`, as written. */
  function Read(st: Store, key: Key): (r: Item)
    requires st.Valid()
    ensures key.Range? ==> r.Bytes?
    ensures key.Position? ==> !r.Bytes?
  {
    match key
    case Range(start, stop) => Bytes(ReadRange(st, start, stop))
    case Position(i) => ReadPosition(st, i)
  }

  /** The shortcut hands back the same bytes as the general path would have. */
  lemma ShortcutAgreesWithSlice(st: Store, start: Option<int>, stop: Option<int>)
    requires st.Valid()
    requires TakesShortcut(st, start, EffectiveStop(stop, st.length))
    ensures ReadRange(st, start, stop) == Slice(st.buf, start, Some(EffectiveStop(stop, st.length)))
    ensures ReadRange(st, start, stop) == st.Content()
  {
  }

  /** The state after a run of appends, in order. */
  function AppendAll(st: Store, chunks: seq<seq<bv8>>): (r: Store)
    requires st.Valid()
    ensures r.Valid()
    decreases |chunks|
  {
    if chunks == [] then st else AppendAll(Appended(st, chunks[0]), chunks[1..])
  }

  /** The concatenation `a1 ++ ... ++ an` of a run of appended strings. */
  function Concat(chunks: seq<seq<bv8>>): seq<bv8>
    decreases |chunks|
  {
    if chunks == [] then [] else chunks[0] + Concat(chunks[1..])
  }

  /** `|a1| + ... + |an|`. */
  function TotalLength(chunks: seq<seq<bv8>>): nat
    decreases |chunks|
  {
    if chunks == [] then 0 else |chunks[0]| + TotalLength(chunks[1..])
  }

  /** A run of appends adds the total length of the strings to the logical length,
      extends the logical content by their concatenation, and never shrinks the array. */
  lemma {:induction false} AppendAllExtends(st: Store, chunks: seq<seq<bv8>>)
    requires st.Valid()
    ensures AppendAll(st, chunks).length == st.length + TotalLength(chunks)
    ensures AppendAll(st, chunks).Content() == st.Content() + Concat(chunks)
    ensures |st.buf| <= |AppendAll(st, chunks).buf|
    decreases |chunks|
  {
    if chunks != [] {
      var next := Appended(st, chunks[0]);
      AppendAllExtends(next, chunks[1..]);
      assert st.Content() + chunks[0] + Concat(chunks[1..]) == st.Content() + Concat(chunks);
    }
  }

  /** After `init()` and appends `a1 .. an`, whatever the buffer held before: `len()` is
      `|a1| + ... + |an|`, `getarray()` and the slice `[0:len()]` are `a1 ++ ... ++ an`, and
      the physical array is at least as long as before. */
  lemma {:induction false} FillAfterInit(buf: seq<bv8>, chunks: seq<seq<bv8>>)
    ensures AppendAll(Store(buf, 0), chunks).length == TotalLength(chunks)
    ensures AppendAll(Store(buf, 0), chunks).Content() == Concat(chunks)
    ensures Read(AppendAll(Store(buf, 0), chunks), Range(Some(0), Some(TotalLength(chunks))))
            == Bytes(Concat(chunks))
    ensures |buf| <= |AppendAll(Store(buf, 0), chunks).buf|
  {
    var st := Store(buf, 0);
    AppendAllExtends(st, chunks);
    var r := AppendAll(st, chunks);
    assert Slice(r.Content(), Some(0), Some(r.length)) == r.Content();
  }

  /** A buffer of length 3 whose array is larger clamps the slice `[0:10]` to its 3
      logical bytes, and rejects the position 5. */
  lemma ReadClampsToLength(buf: seq<bv8>)
    requires 3 <= |buf|
    ensures Read(Store(buf, 3), Range(Some(0), Some(10))) == Bytes(buf[..3])
    ensures Read(Store(buf, 3), Position(5)) == IndexError
  {
  }

  /** A buffer holding exactly `abcde` gives `d` for the position -2. */
  lemma NegativePositionOnExactBuffer()
    ensures Read(Store([0x61, 0x62, 0x63, 0x64, 0x65], 5), Position(-2)) == Byte(0x64)
  {
  }

  /** A non-shrinking byte array, reused across uses: `init` forgets the logical content
      but keeps the array, and `append` writes at the logical end. */
  class PieceBuffer {
    var buf: seq<bv8>
    var length: nat

    ghost predicate Valid()
      reads this
    {
      Store(buf, length).Valid()
    }

    /** A new buffer starts with an empty array. */
    constructor ()
      ensures Valid()
      ensures buf == [] && length == 0
    {
      buf := [];
      length := 0;
    }

    /** Prepares the buffer for use: the logical length drops to 0, the array (its
        length and its bytes) is left as it was. */
    method Init()
      modifies this
      ensures Valid()
      ensures length == 0 && buf == old(buf)
    {
      length := 0;
    }

    /** Extends the logical content by `s`. */
    method Append(s: seq<bv8>)
      requires Valid()
      modifies this
      ensures Valid()
      ensures Store(buf, length) == Appended(old(Store(buf, length)), s)
      ensures length == old(length) + |s|
      ensures buf[..old(length)] == old(buf[..length])
      ensures buf[old(length)..length] == s
      ensures old(|buf|) <= |buf|
    {
      var newLength := length + |s|;
      buf := AssignSlice(buf, length, newLength, s);
      length := newLength;
    }

    /** `len(buffer)`: the logical length, which never exceeds the array's length. */
    function Len(): (r: nat)
      reads this
      requires Valid()
      ensures r <= |buf|
      ensures r == length
    {
      length
    }

    /** `buffer[key]`, over the current state. */
    function GetItem(key: Key): (r: Item)
      reads this
      requires Valid()
      ensures key.Position? ==> (r == IndexError <==> !(-(length as int) <= key.i < length))
    {
      Read(Store(buf, length), key)
    }

    /** `getarray()`: a copy of the logical content, the array sliced up to the logical
        length. */
    function GetArray(): (r: seq<bv8>)
      reads this
      requires Valid()
      ensures r == buf[..length]
      ensures |r| == Len()
    {
      Slice(buf, None, Some(length))
    }
  }
}
