/**
 * The clock abstraction of bucket_quoter/timer.go: a millisecond timer whose
 * resolution is fixed at 1000 ticks per second. The wall-clock reading is
 * replaced by a fake clock whose instant only `Advance` moves forward.
 */
module Timer {

  /** Ticks per second of the millisecond timer. */
  const MillisPerSecond: int := 1000

  class InstantTimerMs {
    /** The fake clock's current instant, in milliseconds. */
    var now: int

    /** Ticks per second; every timer of this kind has the same. */
    const resolution: int := MillisPerSecond

    constructor NewInstantTimerMs(start: int)
      ensures now == start
      ensures Resolution() == MillisPerSecond
    {
      now := start;
    }

    /** Reads the clock. */
    method Now() returns (t: int)
      ensures t == now
    {
      t := now;
    }

    /** Lets `d` milliseconds pass on the fake clock. */
    method Advance(d: int)
      requires d >= 0
      modifies this
      ensures now == old(now) + d && now >= old(now)
    {
      now := now + d;
    }

    /** Ticks elapsed from instant `from` to instant `to`. */
    static function Duration(from: int, to: int): (d: int)
      ensures from + d == to
    {
      to - from
    }

    /** Ticks per second: always 1000, hence a divisor that is never zero. */
    function Resolution(): (r: int)
      ensures r == MillisPerSecond && r > 0
    {
      resolution
    }
  }

  lemma DurationOfEmptyInterval(t: int)
    ensures InstantTimerMs.Duration(t, t) == 0
  {
  }

  lemma DurationsAdd(a: int, b: int, c: int)
    ensures InstantTimerMs.Duration(a, b) + InstantTimerMs.Duration(b, c) == InstantTimerMs.Duration(a, c)
  {
  }
}
