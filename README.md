# PieceBuffer: a recycled, non-shrinking byte buffer and its pool

BitTornado collects the data of a piece in a `PieceBuffer`: a byte array that only ever
grows, with a logical `length` kept apart from the array's physical length. Buffers are
handed out by a `Pool`, a last-in-first-out free list; calling the pool pops the most
recently released buffer (or builds a new one when none is free) and prepares it with
`init()`, which forgets the logical content but keeps the array. `release()` pushes a
buffer back. Because the array survives `init()`, a reused buffer physically holds bytes
left over from its previous use past its logical length.

This project models that allocator in Dafny:

- `py_slice.dfy`, module `PySlice`: the Python semantics the buffer relies on, for step 1:
  resolution of slice bounds (negative bounds count from the end, out-of-range bounds
  are clamped), slicing, slice assignment (which grows the array), and indexing.
- `piece_buffer.dfy`, module `PieceBuffers`: the state of a buffer as a value (`Store`:
  the array `buf` and the logical `length`, with the invariant `length <= |buf|`), the
  effect of `append` (`Appended`), the reads `buffer[key]` exactly as written (`Read`,
  `ReadRange`, `ReadPosition`, with the whole-array shortcut), runs of appends, and the
  class `PieceBuffer` whose methods `Init` and `Append` update the fields `buf` and
  `length` in place and whose functions `Len`, `GetItem` and `GetArray` read them.
- `logical_read.dfy`, module `LogicalReads`: reads taken on the logical content alone,
  the keys on which the reads as written agree with them, and concrete reused buffers on
  which they differ (see Findings).
- `pool.dfy`, module `Pools`: the class `Pool` with its free list `free: seq<PieceBuffer>`,
  `Acquire` (calling the pool) and `Release`, and two clients: a release followed by an
  acquire, and a whole checkout cycle.

The reads are modelled as the code behaves, quirks included: a negative position and a
negative slice start are resolved against the physical array, and a stop below `-length`
stays negative after the logical length is added once, so Python then resolves it against
the array's length. The model follows the code for the whole-array shortcut too:
`self.buf` is returned only when the start is falsy and the adjusted stop, the logical
length and the array's length are all equal.

## Model

| member | source | states |
|---|---|---|
| `PySlice.Slice` | BitTornado/Storage/PieceBuffer.py:69 | Python's step-1 slice of the array: never longer than the array, the elements between the resolved bounds, empty when the resolved bounds are inverted |
| `PySlice.AssignSlice` | BitTornado/Storage/PieceBuffer.py:50 | Python's step-1 slice assignment `a[lo:hi] = s`: the resolved range (empty at `lo` when inverted) is replaced by `s`, so the result keeps the prefix before it, holds `s` there, keeps the suffix after it, and changes length by `len(s)` minus the range's width |
| `PySlice.At` | BitTornado/Storage/PieceBuffer.py:69 | Python's integer indexing `self.buf[i]` for an index in `[-len, len)`: the index resolves like a slice bound to a position inside the array and the result is the element there |
| `PySlice.AssignAtEnd` | BitTornado/Storage/PieceBuffer.py:50 | slice assignment `buf[at:at+len(s)] = s` with `at <= len(buf)` keeps the prefix before `at`, puts `s` at `at`, makes the array `max(len(buf), at+len(s))` long and keeps old bytes past the new end |
| `PieceBuffers.Appended` | BitTornado/Storage/PieceBuffer.py:47-51 | `append(s)` keeps the invariant, grows `length` by `len(s)`, makes the logical content the old content followed by `s`, sets the array length to `max(old array length, new length)`, and keeps the stale bytes past the new length when the array was already long enough |
| `PieceBuffers.EffectiveStop` | BitTornado/Storage/PieceBuffer.py:58-62 | the adjusted stop never exceeds `length`; an absent stop is `length`; a non-negative stop is clamped to `length`; a negative stop has `length` added once and nothing more |
| `PieceBuffers.TakesShortcut` | BitTornado/Storage/PieceBuffer.py:63-64 | the guard of the whole-array shortcut: a falsy start, an adjusted stop equal to `length` and `length` equal to the array's length; when it holds, the general path's bounds would cover the whole array, which is the whole logical content |
| `PieceBuffers.ReadRange` | BitTornado/Storage/PieceBuffer.py:56-69 | for a start that is absent or non-negative and a stop that is absent or at least `-length`, `buffer[start:stop]` is exactly Python's slice of the logical content, so no byte at or past `length` is returned (e.g. `[0:10]` on length 3 gives the 3 bytes) |
| `PieceBuffers.SliceWithinContent` | BitTornado/Storage/PieceBuffer.py:58-69 | on such keys, slicing the physical array up to the adjusted stop gives the same bytes as slicing the logical content with the original bounds |
| `PieceBuffers.ShortcutAgreesWithSlice` | BitTornado/Storage/PieceBuffer.py:63-66 | when the whole-array shortcut is taken, the array handed back equals both the general-path slice and the logical content |
| `PieceBuffers.ReadPosition` | BitTornado/Storage/PieceBuffer.py:67-69 | `buffer[i]` raises IndexError exactly when `i` is outside `[-length, length)`; a position in `[0, length)` gives the logical byte; a negative position in range gives `buf[len(buf) + i]` |
| `PieceBuffers.Read` | BitTornado/Storage/PieceBuffer.py:56-69 | a slice key always yields bytes and never an IndexError; a position key yields a byte or IndexError |
| `PieceBuffers.AppendAllExtends` | BitTornado/Storage/PieceBuffer.py:47-51 | a run of appends adds the total length of the strings to `length`, extends the logical content by their concatenation and never shrinks the array |
| `PieceBuffers.FillAfterInit` | BitTornado/Storage/PieceBuffer.py:43-73 | after `init()` and appends `a1..an`, whatever the buffer held: `len()` is the sum of the lengths, the logical content and the slice `[0:len()]` are the concatenation, and the array is no shorter than before |
| `PieceBuffers.ReadClampsToLength` | BitTornado/Storage/PieceBuffer.py:59-68 | on length 3 with a larger array, `[0:10]` returns the 3 logical bytes and position 5 raises IndexError |
| `PieceBuffers.NegativePositionOnExactBuffer` | BitTornado/Storage/PieceBuffer.py:67-69 | on a buffer whose array is exactly `abcde`, position -2 gives `d` |
| `PieceBuffers.PieceBuffer.constructor` | BitTornado/Storage/PieceBuffer.py:39-41 | a new buffer has an empty array and length 0 |
| `PieceBuffers.PieceBuffer.Init` | BitTornado/Storage/PieceBuffer.py:43-45 | `init()` sets `length` to 0 and leaves the array, its length and its bytes, unchanged |
| `PieceBuffers.PieceBuffer.Append` | BitTornado/Storage/PieceBuffer.py:47-51 | `append(s)` moves the buffer to `Appended` of its old state: `length` grows by `len(s)`, the old logical content is kept, `s` follows it, and the array never shrinks |
| `PieceBuffers.PieceBuffer.Len` | BitTornado/Storage/PieceBuffer.py:53-54 | `len()` is the logical length, never more than the array's length |
| `PieceBuffers.PieceBuffer.GetItem` | BitTornado/Storage/PieceBuffer.py:56-69 | `buffer[i]` raises IndexError exactly when `i` is outside `[-length, length)` |
| `PieceBuffers.PieceBuffer.GetArray` | BitTornado/Storage/PieceBuffer.py:71-73 | `getarray()` is the array up to the logical length, `len()` bytes long |
| `LogicalReads.LogicalRead` | BitTornado/Storage/PieceBuffer.py:56-69 | reads on the logical content: a slice is never longer than `length`; a position raises IndexError exactly outside `[-length, length)` |
| `LogicalReads.LogicalReadIgnoresStale` | BitTornado/Storage/PieceBuffer.py:59-62 | two buffers with the same logical content give the same logical reads, whatever their stale bytes |
| `LogicalReads.ReadAgreesWhenWellResolved` | BitTornado/Storage/PieceBuffer.py:56-69 | the reads as written equal the logical reads for every stop absent or at least `-length`, and for a start or position that is absent or non-negative or on an array exactly as long as the content |
| `LogicalReads.Reused` | BitTornado/Storage/PieceBuffer.py:43-51 | a buffer that held `abcde`, was re-initialised and given `xyz` has array `xyzde` and logical content `xyz` |
| `LogicalReads.NegativePositionReadsStale` | BitTornado/Storage/PieceBuffer.py:67-69 | on that buffer, position -1 as written gives the stale `e`, the logical read gives `z` |
| `LogicalReads.DeepNegativeStopReadsStale` | BitTornado/Storage/PieceBuffer.py:58-69 | on that buffer, `[:-4]` as written gives `xyzd`, including a stale byte; the logical read gives nothing |
| `LogicalReads.NegativeStartMissesContent` | BitTornado/Storage/PieceBuffer.py:66-69 | on that buffer, `[-2:]` as written is empty; the logical read gives `yz` |
| `Pools.PopRemovesTop` | BitTornado/Storage/PieceBuffer.py:31 | popping a free list without duplicates leaves one without duplicates that no longer holds the popped buffer |
| `Pools.PushKeepsDistinct` | BitTornado/Storage/PieceBuffer.py:25 | pushing a buffer not in a duplicate-free free list keeps it duplicate-free |
| `Pools.Pool.constructor` | BitTornado/Storage/PieceBuffer.py:21-22 | a new pool has an empty free list |
| `Pools.Pool.Acquire` | BitTornado/Storage/PieceBuffer.py:28-33 | on a non-empty free list, returns its last buffer and removes it, keeping that buffer's array; on an empty one, returns a new buffer with an empty array; either way the buffer has length 0, only it and the pool change, and a duplicate-free free list stays so and no longer holds the buffer |
| `Pools.Pool.Release` | BitTornado/Storage/PieceBuffer.py:25 | `release()` appends the buffer to the end of the free list and keeps it duplicate-free when the buffer was not in it |
| `Pools.ReleaseThenAcquire` | BitTornado/Storage/PieceBuffer.py:25-33 | last in, first out: acquiring right after releasing a buffer hands back that same buffer with length 0 and its array unchanged, and leaves the free list as it was |
| `Pools.ReuseAfterRelease` | BitTornado/Storage/PieceBuffer.py:25-51 | acquire, append `hello` (length then 5), release and acquire again: the same buffer comes back with length 0, its array still holding `hello`, and the free list as after one pop |

## Findings

| source | as written | input that shows it | evidently intended | confidence | as-written member | corrected member |
|---|---|---|---|---|---|---|
| BitTornado/Storage/PieceBuffer.py:67-69 | a negative position that passes the `-length <= i < length` check indexes the physical array, `buf[len(buf) + i]` | a buffer that held `abcde`, then `init()` and `append('xyz')`: `[-1]` | `z`, the last logical byte; as written it is the stale `e` | medium, not executed | `LogicalReads.NegativePositionReadsStale` | `LogicalReads.LogicalRead` (its agreement with the logical content: `LogicalReads.LogicalReadIgnoresStale`) |
| BitTornado/Storage/PieceBuffer.py:61-62 | a stop below `-length` stays negative after `length` is added, and Python then adds the array's length | the same buffer: `[:-4]` | an empty slice; as written it is `xyzd`, whose last byte is stale | medium, not executed | `LogicalReads.DeepNegativeStopReadsStale` | `LogicalReads.LogicalRead` (`LogicalReads.LogicalReadIgnoresStale`) |
| BitTornado/Storage/PieceBuffer.py:66 | a negative start is passed through and resolved against the array's length | the same buffer: `[-2:]` | `yz`, the last two logical bytes; as written it is empty | low, not executed | `LogicalReads.NegativeStartMissesContent` | `LogicalReads.LogicalRead` (`LogicalReads.LogicalReadIgnoresStale`) |

The three differ from the logical reads only on a reused buffer whose array is longer than
its content, or (for the stop) on a stop below `-length`;
`LogicalReads.ReadAgreesWhenWellResolved` proves that every other read agrees. The class
`PieceBuffer` itself keeps the reads as written, since it models the code.

## Left out

- Slices with a step other than none or 1, and keys that are neither integers nor slices
  (Python's type errors): only step-1 slices and integer positions are modelled.
- The lock around the free list: the pool is modelled as sequential method calls, so the
  guarantee that two concurrent acquires never return the same buffer appears only as the
  sequential property that a duplicate-free free list no longer holds the buffer it handed out.
- The `@Pool` decorator that rebinds the class name and injects `release` as a lambda:
  the model has an explicit `Pool` whose `Release` takes the buffer.
- Pools.Pool.Acquire: double release is not prevented, as in the code; a free list with
  duplicates can hand the same buffer out twice, and the contract only speaks of
  duplicate-free lists.
- The identity of the whole-array shortcut (`return self.buf` hands out the internal array
  itself): the model returns the array's value, which equals the copying path.
- The conversion `array.array('B', string)`: `append` takes a byte sequence.
- Memory exhaustion when the array grows, and the array's internal over-allocation: the
  array's length is modelled exactly as Python reports it.
- A bound on the number of buffers ever built by N acquire/release pairs: the model states
  only that a new buffer is built exactly when the free list is empty.
