/** Python slices and the store's inclusive ranges.

    A Python slice `xs[start:stop]` is half-open and clamps out-of-range
    indices; LRANGE, ZRANGE and GETRANGE take an inclusive `start`..`stop`
    where a negative index counts from the end. `List.__getitem__` and
    `ZSet.__getitem__` (redis_natives/list.py, redis_natives/zset.py)
    translate the first into the second by sending `stop - 1`, with an open
    stop sent as -1 and an open start as 0.
 */
module Slices {
  import opened Wrappers
  import opened Store

  /** An index of a sequence of length `n` as Python clamps it. */
  function Clamp(n: nat, i: int): (r: nat)
    ensures r <= n
    ensures 0 <= i <= n ==> r == i
    ensures i < 0 && i + n >= 0 ==> r == i + n
  {
    if i < 0 then (if i + n < 0 then 0 else i + n) else if i > n then n else i
  }

  /** `xs[start:stop]` for a sequence of length `n`, as bounds `lo..hi`
      (an empty slice as `0..0`). */
  function PySlice(n: nat, start: Option<int>, stop: Option<int>): (r: (nat, nat))
    ensures r.0 <= r.1 <= n
  {
    var lo := Clamp(n, if start.None? then 0 else start.value);
    var hi := if stop.None? then n else Clamp(n, stop.value);
    if hi <= lo then (0, 0) else (lo, hi)
  }

  /** The inclusive range the proxies send for a slice: an open start is
      0, an open stop is -1 and an explicit stop `k` is `k - 1`. */
  function InclusiveRange(start: Option<int>, stop: Option<int>): (int, int) {
    (if start.None? then 0 else start.value, if stop.None? then -1 else stop.value - 1)
  }

  /** What LRANGE/ZRANGE read for a slice as the proxies translate it. */
  function ReadBoundsAsWritten(n: nat, start: Option<int>, stop: Option<int>): (r: (nat, nat))
    ensures r.0 <= r.1 <= n
  {
    var (a, b) := InclusiveRange(start, stop);
    RangeBounds(n, a, b)
  }

  /** The translation with the one input it gets wrong handled: a stop of
      0 is an empty slice, not the -1 that means "to the end". */
  function ReadBounds(n: nat, start: Option<int>, stop: Option<int>): (r: (nat, nat))
    ensures r.0 <= r.1 <= n
  {
    if stop == Some(0) then (0, 0) else ReadBoundsAsWritten(n, start, stop)
  }

  /** Apart from a stop of 0, the translation reads exactly Python's slice. */
  lemma ReadBoundsIsPySlice(n: nat, start: Option<int>, stop: Option<int>)
    ensures ReadBounds(n, start, stop) == PySlice(n, start, stop)
    ensures stop != Some(0) ==> ReadBoundsAsWritten(n, start, stop) == PySlice(n, start, stop)
  {
  }

  /** A stop of 0 is sent as -1, so a slice that Python reads as empty
      reads everything from `start` on. */
  lemma StopZeroReadsRest(n: nat, s: int)
    requires 0 <= s < n
    ensures PySlice(n, Some(s), Some(0)) == (0, 0)
    ensures ReadBoundsAsWritten(n, Some(s), Some(0)) == (s, n)
  {
  }

  /** The index `__getslice__` receives for a written slice index:
      Python 2 adds the length once to a negative index, so an index below
      minus the length arrives still negative. */
  function Received(n: nat, w: Option<int>): Option<int> {
    if w.Some? && w.value < 0 then Some(w.value + n) else w
  }

  /** `str.__getslice__` on the indices it receives: an open start is 0 and
      an open stop the length, a negative index is clamped to 0 and one
      past the end to the length (an empty slice as `0..0`). */
  function ReceivedSlice(n: nat, start: Option<int>, stop: Option<int>): (r: (nat, nat))
    ensures r.0 <= r.1 <= n
  {
    var lo := if start.None? || start.value < 0 then 0 else if start.value > n then n else start.value;
    var hi := if stop.None? then n else if stop.value < 0 then 0 else if stop.value > n then n else stop.value;
    if hi <= lo then (0, 0) else (lo, hi)
  }

  /** Python 2's adjustment followed by `str`'s clamping is Python's slice
      of the written indices; on indices that are not negative the two
      agree directly. */
  lemma ReceivedIsPySlice(n: nat, start: Option<int>, stop: Option<int>)
    ensures ReceivedSlice(n, Received(n, start), Received(n, stop)) == PySlice(n, start, stop)
    ensures (start.None? || start.value >= 0) && (stop.None? || stop.value >= 0) ==>
      ReceivedSlice(n, start, stop) == PySlice(n, start, stop)
  {
  }

  /** GETRANGE (SUBSTR) bounds for a slice, as `Scalar.__getslice__` sends
      it: `[0:0]` reads nothing; otherwise as `InclusiveRange`. `None`
      means no store read. */
  function SubstrRangeAsWritten(start: Option<int>, stop: Option<int>): Option<(int, int)> {
    if start == Some(0) && stop == Some(0) then None else Some(InclusiveRange(start, stop))
  }

  /** The bounds GETRANGE reads for a received slice: the empty slice reads
      nothing, any other slice reads its first through its last index. */
  function SubstrRange(n: nat, start: Option<int>, stop: Option<int>): (r: Option<(int, int)>)
    ensures r.Some? ==> 0 <= r.value.0 <= r.value.1 < n
  {
    var (lo, hi) := ReceivedSlice(n, start, stop);
    if lo == hi then None else Some((lo, hi - 1))
  }

  /** GETRANGE of that inclusive range reads exactly `str`'s slice. */
  lemma SubstrRangeIsReceivedSlice(n: nat, start: Option<int>, stop: Option<int>)
    ensures var r := SubstrRange(n, start, stop);
      r.None? ==> ReceivedSlice(n, start, stop).0 == ReceivedSlice(n, start, stop).1
    ensures var r := SubstrRange(n, start, stop);
      r.Some? ==> SubstrBounds(n, r.value.0, r.value.1) == ReceivedSlice(n, start, stop)
  {
  }

  /** The translation as written reads `str`'s slice when neither received
      index is negative and the stop is not 0 (unless the slice is `[0:0]`). */
  lemma SubstrRangeAsWrittenIsReceivedSlice(n: nat, start: Option<int>, stop: Option<int>)
    ensures var r := SubstrRangeAsWritten(start, stop);
      r.None? ==> ReceivedSlice(n, start, stop).0 == ReceivedSlice(n, start, stop).1
    ensures var r := SubstrRangeAsWritten(start, stop);
      (start.None? || start.value >= 0) && (stop.None? || stop.value > 0) && r.Some? ==>
      SubstrBounds(n, r.value.0, r.value.1) == ReceivedSlice(n, start, stop)
  {
  }
}
