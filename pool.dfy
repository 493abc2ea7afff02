/** The pool of piece buffers: a last-in-first-out free list of buffers not in use, which
    builds a new buffer when it has none to hand out. */
module Pools {
  import opened PieceBuffers

  /** No object appears twice in the list. */
  predicate NoDuplicates<T(==)>(s: seq<T>)
  {
    forall i, j :: 0 <= i < j < |s| ==> s[i] != s[j]
  }

  /** Popping the top of a list without duplicates leaves a list without duplicates that
      no longer holds the popped element. */
  lemma PopRemovesTop<T>(s: seq<T>)
    requires s != []
    ensures NoDuplicates(s) ==> s[|s| - 1] !in s[..|s| - 1] && NoDuplicates(s[..|s| - 1])
  {
  }

  /** Pushing an element that is not yet in a list without duplicates keeps it so. */
  lemma PushKeepsDistinct<T>(s: seq<T>, x: T)
    requires NoDuplicates(s) && x !in s
    ensures NoDuplicates(s + [x])
  {
  }

  class Pool {
    /** The buffers not in use; the end of the list is the top of the stack. */
    var free: seq<PieceBuffer>

    /** A new pool holds no buffers. */
    constructor ()
      ensures free == []
    {
      free := [];
    }

    /** Calling the pool: pops the most recently released buffer, or builds a new one
        when the free list is empty, and prepares it with `init()`. */
    method Acquire() returns (b: PieceBuffer)
      modifies this, if free == [] then {} else {free[|free| - 1]}
      ensures b.Valid() && b.length == 0
      ensures old(free) == [] ==> fresh(b) && b.buf == [] && free == []
      ensures old(free) != [] ==>
                b == old(free[|free| - 1]) && free == old(free[..|free| - 1]) &&
                b.buf == old(b.buf)
      ensures NoDuplicates(old(free)) ==> b !in free && NoDuplicates(free)
    {
      if free == [] {
        b := new PieceBuffer();
      } else {
        PopRemovesTop(free);
        b := free[|free| - 1];
        free := free[..|free| - 1];
      }
      b.Init();
    }

    /** `buffer.release()`: pushes the buffer onto the free list. */
    method Release(b: PieceBuffer)
      modifies this
      ensures free == old(free) + [b]
      ensures NoDuplicates(old(free)) && b !in old(free) ==> NoDuplicates(free)
    {
      if NoDuplicates(free) && b !in free {
        PushKeepsDistinct(free, b);
      }
      free := free + [b];
    }
  }

  /** A checkout cycle: acquire a buffer, append `hello`, release it and acquire again.
      The second acquire hands back the same buffer, empty again, with its array (and the
      stale `hello` in it) kept. */
  method ReuseAfterRelease(pool: Pool) returns (first: PieceBuffer, lengthAfterAppend: nat, second: PieceBuffer)
    modifies pool, pool.free
    ensures lengthAfterAppend == 5
    ensures second == first && second.length == 0
    ensures 5 <= |second.buf| && second.buf[..5] == [0x68, 0x65, 0x6c, 0x6c, 0x6f]
    ensures old(pool.free) == [] ==> pool.free == []
    ensures old(pool.free) != [] ==> pool.free == old(pool.free[..|pool.free| - 1])
  {
    first := pool.Acquire();
    first.Append([0x68, 0x65, 0x6c, 0x6c, 0x6f]);
    lengthAfterAppend := first.Len();
    pool.Release(first);
    second := pool.Acquire();
  }

  /** Last in, first out: a buffer released to the pool is the next one the pool hands
      out, prepared again, with its array kept, and the free list is back as it was. */
  method ReleaseThenAcquire(pool: Pool, b: PieceBuffer) returns (r: PieceBuffer)
    modifies pool, b
    ensures r == b && r.length == 0 && r.buf == old(b.buf)
    ensures pool.free == old(pool.free)
  {
    pool.Release(b);
    r := pool.Acquire();
  }
}
