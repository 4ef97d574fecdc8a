/** Python's half-open slice `a[start:stop]` on an axis of length `n` (step 1).
    Before slicing, a negative bound is counted from the end (`n` is added once),
    then every bound is clipped into [0, n]; a stop at or before the start selects nothing.
    The neighbourhood window of a cell is such a slice on each axis, so the way the
    program treats the grid's first row and column comes straight from these rules. */
module Slicing {

  /** One adjusted slice bound, clipped into [0, n]. */
  function Bound(i: int, n: nat): nat
  {
    if i < 0 then
      (if i + n < 0 then 0 else i + n)
    else if i > n then n
    else i
  }

  /** The selected positions `[lo, hi)`; an empty selection has `lo == hi`. */
  datatype Range = Range(lo: nat, hi: nat)

  /** A bound as the language reads it before any clipping: negative means from the end. */
  function FromEnd(x: int, n: nat): int
  {
    if x < 0 then x + n else x
  }

  /** Reference meaning of `a[start:stop]`: position `k` of the axis is selected exactly when
      it lies between the two bounds read from the end. */
  predicate Selected(start: int, stop: int, n: nat, k: int)
  {
    0 <= k < n && FromEnd(start, n) <= k < FromEnd(stop, n)
  }

  /** The run `a[start:stop]` selects: the clipped bounds, with an inverted pair read as empty. */
  function Slice(start: int, stop: int, n: nat): (s: Range)
    ensures s.lo <= s.hi <= n
    ensures forall k :: s.lo <= k < s.hi <==> Selected(start, stop, n, k)
  {
    var lo := Bound(start, n);
    var hi := Bound(stop, n);
    Range(lo, if hi < lo then lo else hi)
  }

  /** The window `[k-1 : k+2]` around an index `k >= 1` is the clipped run of up to three neighbours. */
  lemma InnerWindow(k: nat, n: nat)
    requires 1 <= k < n
    ensures Slice(k - 1, k + 2, n) == Range(k - 1, if k + 2 <= n then k + 2 else n)
  {
  }

  /** The window `[-1 : 2]` around index 0 on an axis of three or more positions is empty:
      the start is read as the last position, which lies past the stop. */
  lemma FirstWindowEmpty(n: nat)
    requires 3 <= n
    ensures Slice(-1, 2, n) == Range(n - 1, n - 1)
  {
  }
}
