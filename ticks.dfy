/**
 * MicroPython's millisecond tick counter. `ticks_ms()` counts modulo a
 * port-specific period, and `ticks_diff(end, start)` gives the signed
 * difference of two readings in that modular arithmetic, in
 * [-period/2, period/2). The period is a parameter here.
 */
module Ticks {

  /** A tick period: even, so that half of it is exact (MicroPython uses a power of two). */
  predicate ValidPeriod(period: int) {
    2 <= period && period % 2 == 0
  }

  /** `ticks_diff(end, start)`: the signed modular difference of two tick readings. */
  function TicksDiff(end: int, start: int, period: int): (d: int)
    requires ValidPeriod(period)
    ensures -(period / 2) <= d < period / 2
  {
    (end - start + period / 2) % period - period / 2
  }

  /** `x % m` and `x / m` are the remainder and quotient of any division of `x` by `m`. */
  lemma ModUnique(x: int, m: int, q: int, r: int)
    requires 0 < m && 0 <= r < m && x == q * m + r
    ensures x % m == r && x / m == q
  {
    var q', r' := x / m, x % m;
    assert (q' - q) * m == r - r';
    if q' > q {
      MulAtLeast(q' - q, m);
    } else if q' < q {
      MulAtLeast(q - q', m);
    }
  }

  /** A positive multiple of `m` is at least `m`. */
  lemma MulAtLeast(a: int, m: int)
    requires 1 <= a && 0 < m
    ensures m <= a * m
  {
    assert a * m == (a - 1) * m + m;
  }

  /** Readings less than half a period apart differ by exactly their distance. */
  lemma TicksDiffExact(end: int, start: int, period: int)
    requires ValidPeriod(period)
    requires -(period / 2) <= end - start < period / 2
    ensures TicksDiff(end, start, period) == end - start
  {
    var x := end - start + period / 2;
    ModUnique(x, period, 0, x);
  }

  /** Moving a reading by a whole period does not change the difference. */
  lemma TicksDiffPeriodic(end: int, start: int, period: int)
    requires ValidPeriod(period)
    ensures TicksDiff(end + period, start, period) == TicksDiff(end, start, period)
    ensures TicksDiff(end, start + period, period) == TicksDiff(end, start, period)
  {
    var x := end - start + period / 2;
    ModUnique(x + period, period, x / period + 1, x % period);
    ModUnique(x - period, period, x / period - 1, x % period);
  }

  /** The time since `start`, taken modulo the period: what the counter can still tell. */
  function Elapsed(now: int, start: int, period: int): int
    requires ValidPeriod(period)
  {
    (now - start) % period
  }

  /**
   * For two tick readings and a cooldown of at most half a period,
   * `ticks_diff(now, start) >= cooldown` holds exactly when the elapsed time
   * modulo the period is at least the cooldown and under half a period; from
   * half a period on, the difference turns negative.
   */
  lemma {:induction false} CooldownWindow(now: int, start: int, cooldown: int, period: int)
    requires ValidPeriod(period)
    requires 0 <= now < period && 0 <= start < period
    requires 0 <= cooldown <= period / 2
    ensures TicksDiff(now, start, period) >= cooldown
        <==> cooldown <= Elapsed(now, start, period) < period / 2
  {
    var h := period / 2;
    var e := Elapsed(now, start, period);
    if now >= start {
      ModUnique(now - start, period, 0, now - start);
      if e < h {
        TicksDiffExact(now, start, period);
      } else {
        TicksDiffExact(now - period, start, period);
        TicksDiffPeriodic(now - period, start, period);
      }
    } else {
      ModUnique(now - start, period, -1, now - start + period);
      if e < h {
        TicksDiffExact(now + period, start, period);
        TicksDiffPeriodic(now, start, period);
      } else {
        TicksDiffExact(now, start, period);
      }
    }
  }
}
