/** The delay the refresh loop waits before its next tick (index.js:125-126):
    up to the next wall-clock second boundary, but never less than 100 ms. */
module Tick {

  /** `new Date().getMilliseconds()`: the millisecond within the second. */
  type Millis = x: int | 0 <= x < 1000

  /** A delay that ends on a second boundary and leaves the 100 ms margin. */
  predicate Aligned(ms: Millis, delay: int) {
    delay >= 100 && (ms + delay) % 1000 == 0
  }

  method NextTimeout(ms: Millis) returns (timeout: int)
    ensures Aligned(ms, timeout)
    ensures timeout < 1100
  {
    timeout := 1000 - ms;
    if timeout < 100 {
      timeout := timeout + 1000;
    }
  }

  /** An aligned delay under 1100 ms is the shortest aligned delay, so the
      loop's delay is determined by its contract. */
  lemma ShortestAligned(ms: Millis, delay: int, other: int)
    requires Aligned(ms, delay) && delay < 1100
    requires Aligned(ms, other)
    ensures delay <= other
  {
    var k, j := (ms + delay) / 1000, (ms + other) / 1000;
    assert ms + delay == 1000 * k;
    assert ms + other == 1000 * j;
  }

  /** Seen from the clock: from an instant `nowMs` (milliseconds since the
      epoch, which is itself on a second boundary), the next tick is scheduled
      for a second boundary between 100 ms and 1.1 s later; `setTimeout`
      itself promises only that it fires no earlier. */
  lemma NextTickOnBoundary(nowMs: int, timeout: int)
    requires Aligned(nowMs % 1000, timeout) && timeout < 1100
    ensures (nowMs + timeout) % 1000 == 0
    ensures nowMs + 100 <= nowMs + timeout < nowMs + 1100
  {
    var q := nowMs / 1000;
    assert nowMs == 1000 * q + nowMs % 1000;
    var k := (nowMs % 1000 + timeout) / 1000;
    assert nowMs % 1000 + timeout == 1000 * k;
    assert nowMs + timeout == 1000 * (q + k);
  }
}
