/** MicroPython's millisecond tick counter and its wraparound-safe difference.
    On the 32-bit ports (the ESP32 among them) `time.ticks_ms()` counts modulo
    TICKS_PERIOD = 2^30, and `time.ticks_diff(end, start)` is the signed
    difference of two ticks taken modulo that period, in [-TICKS_PERIOD/2, TICKS_PERIOD/2). */
module Ticks {
  const TICKS_PERIOD: int := 0x4000_0000
  const TICKS_HALF: int := TICKS_PERIOD / 2

  /** A value returned by `time.ticks_ms()`. */
  type Tick = t: int | 0 <= t < TICKS_PERIOD

  /** `time.ticks_diff(end, start)`: how far `start` must be advanced, modulo the
      period, to reach `end`, chosen in the signed half-open window around zero. */
  function TicksDiff(end: Tick, start: Tick): (d: int)
    ensures -TICKS_HALF <= d < TICKS_HALF
    ensures (start + d) % TICKS_PERIOD == end
  {
    (end - start + TICKS_HALF) % TICKS_PERIOD - TICKS_HALF
  }

  /** `time.ticks_add(t, delta)`: the tick reached `delta` milliseconds after `t`.
      The program itself never calls it; it is here to state ElapsedAcrossWrap. */
  function TicksAdd(t: Tick, delta: int): (r: Tick)
  {
    (t + delta) % TICKS_PERIOD
  }

  /** The two postconditions of TicksDiff determine it: any signed offset in the
      window that carries `start` to `end` is the difference. */
  lemma TicksDiffUnique(end: Tick, start: Tick, d: int)
    requires -TICKS_HALF <= d < TICKS_HALF
    requires (start + d) % TICKS_PERIOD == end
    ensures TicksDiff(end, start) == d
  {
    var e := TicksDiff(end, start);
    var q1 := (start + d) / TICKS_PERIOD;
    var q2 := (start + e) / TICKS_PERIOD;
    assert start + d == q1 * TICKS_PERIOD + end;
    assert start + e == q2 * TICKS_PERIOD + end;
    assert d - e == (q1 - q2) * TICKS_PERIOD;
  }

  /** Elapsed time survives counter wraparound: advancing a tick by `d` ms and
      measuring back gives `d`, for every `d` in the signed window. */
  lemma ElapsedAcrossWrap(start: Tick, d: int)
    requires -TICKS_HALF <= d < TICKS_HALF
    ensures TicksDiff(TicksAdd(start, d), start) == d
  {
    TicksDiffUnique(TicksAdd(start, d), start, d);
  }

  /** A tick whose distance from `start`, counted forwards modulo the period, is half
      a period or more reads as negative: such an interval is indistinguishable from
      one in the past. */
  lemma LongIntervalReadsNegative(end: Tick, start: Tick)
    requires (end - start) % TICKS_PERIOD >= TICKS_HALF
    ensures TicksDiff(end, start) == (end - start) % TICKS_PERIOD - TICKS_PERIOD
    ensures TicksDiff(end, start) < 0
  {
    var d := (end - start) % TICKS_PERIOD - TICKS_PERIOD;
    assert (start + d) % TICKS_PERIOD == end by {
      var q := (end - start) / TICKS_PERIOD;
      assert end - start == q * TICKS_PERIOD + (end - start) % TICKS_PERIOD;
      assert start + d == end - (q + 1) * TICKS_PERIOD;
    }
    TicksDiffUnique(end, start, d);
  }
}
