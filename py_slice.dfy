/** Python's sequence slicing, slice assignment and indexing, restricted to step 1.

    These are the language semantics that `array.array` gives the piece buffer: a slice
    bound is resolved against the length of the array it is applied to, a negative bound
    counts from the end, and an out-of-range bound is clamped rather than rejected. */
module PySlice {

  datatype Option<T> = None | Some(value: T)

  /** Resolves one slice bound against a sequence of length `n`: a negative bound has `n`
      added once and is then clamped at 0, a bound past the end is clamped at `n`. */
  function Resolve(bound: int, n: nat): (r: nat)
    ensures r <= n
    ensures 0 <= bound <= n ==> r == bound
    ensures bound < 0 <= n + bound ==> r == n + bound
    ensures n + bound < 0 ==> r == 0
    ensures n < bound ==> r == n
  {
    if bound < 0 then (if n + bound < 0 then 0 else n + bound)
    else if bound > n then n
    else bound
  }

  /** The resolved lower bound of `a[start:stop]`; an absent start is the beginning. */
  function Lower<T>(a: seq<T>, start: Option<int>): nat
  {
    if start.None? then 0 else Resolve(start.value, |a|)
  }

  /** The resolved upper bound of `a[start:stop]`; an absent stop is the end. */
  function Upper<T>(a: seq<T>, stop: Option<int>): nat
  {
    if stop.None? then |a| else Resolve(stop.value, |a|)
  }

  /** `a[start:stop]`: the elements between the resolved bounds, or nothing when the
      resolved bounds are inverted. It never fails. */
  function Slice<T>(a: seq<T>, start: Option<int>, stop: Option<int>): (r: seq<T>)
    ensures |r| <= |a|
    ensures Lower(a, start) <= Upper(a, stop) ==>
              r == a[Lower(a, start)..Upper(a, stop)]
    ensures Upper(a, stop) <= Lower(a, start) ==> r == []
  {
    var lo, hi := Lower(a, start), Upper(a, stop);
    if lo < hi then a[lo..hi] else []
  }

  /** The new value of `a` after `a[lo:hi] = s`: the resolved range (emptied at `lo` when
      inverted) is replaced by `s`, so the sequence grows or shrinks as needed. */
  function AssignSlice<T>(a: seq<T>, lo: int, hi: int, s: seq<T>): (r: seq<T>)
    ensures var l := Resolve(lo, |a|);
            var h := if Resolve(hi, |a|) < l then l else Resolve(hi, |a|);
            |r| == |a| - (h - l) + |s| && r[..l] == a[..l] && r[l..l + |s|] == s &&
            r[l + |s|..] == a[h..]
  {
    var l := Resolve(lo, |a|);
    var h := if Resolve(hi, |a|) < l then l else Resolve(hi, |a|);
    a[..l] + s + a[h..]
  }

  /** `a[i]` for an index that Python accepts: a negative index counts from the end, so
      an index is resolved like a slice bound and names the element at that position. */
  function At<T>(a: seq<T>, i: int): (r: T)
    requires -|a| <= i < |a|
    ensures Resolve(i, |a|) < |a| && r == a[Resolve(i, |a|)]
  {
    if i < 0 then a[|a| + i] else a[i]
  }

  /** Writing `s` at position `at` of `a`, where `at <= |a|`, with `a[at:at + |s|] = s`:
      the prefix before `at` is kept, `s` lands at `at`, the result is exactly long enough
      for both the old sequence and the new end, and whatever the old sequence held past
      the new end is kept in place. */
  lemma AssignAtEnd<T>(a: seq<T>, at: nat, s: seq<T>)
    requires at <= |a|
    ensures var r := AssignSlice(a, at, at + |s|, s);
            var end := at + |s|;
            |r| == (if |a| < end then end else |a|) &&
            r[..at] == a[..at] &&
            r[at..end] == s &&
            (end <= |a| ==> r[end..] == a[end..])
  {
  }
}
