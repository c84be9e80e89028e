/** The hand-kept counters of the worker's loop: each starts at zero, is reset to
    its interval when it is found at or below zero, and otherwise loses one
    tick.  The closed form says on which iterations such a counter fires. */
module Countdown {
  import opened DivMod

  /** The counter as the `n`th iteration of the loop finds it. */
  function Due(interval: int, tick: int, n: nat): int {
    if n == 0 then 0
    else
      var before := Due(interval, tick, n - 1);
      if before <= 0 then interval else before - tick
  }

  /** The least number of ticks that make up the interval. */
  function TicksIn(interval: nat, tick: int): (k: nat)
    requires tick > 0
    ensures (k - 1) * tick < interval <= k * tick
  {
    var k := (interval + tick - 1) / tick;
    assert interval + tick - 1 == k * tick + (interval + tick - 1) % tick;
    assert (k - 1) * tick == k * tick - tick;
    k
  }

  /** One iteration to fire, and then the ticks of the interval. */
  function Period(interval: nat, tick: int): (p: nat)
    requires tick > 0
    ensures p >= 1
  {
    TicksIn(interval, tick) + 1
  }

  lemma {:induction false} DueInPeriod(interval: nat, tick: int, n: nat)
    requires tick > 0
    ensures var r := n % Period(interval, tick);
            Due(interval, tick, n) == if r == 0 && n == 0 then 0
                                      else if r == 0 then interval - TicksIn(interval, tick) * tick
                                      else interval - (r - 1) * tick
  {
    if n > 0 {
      var k := TicksIn(interval, tick);
      var p := Period(interval, tick);
      assert p == k + 1;
      hide TicksIn, Period;
      DueInPeriod(interval, tick, n - 1);
      RemainderStep(n, p);
      var r := (n - 1) % p;
      if r > 0 {
        InsidePeriod(interval, tick, r - 1);
        assert interval - (r - 1) * tick - tick == interval - r * tick;
      }
    }
  }

  /** Until the last tick of the interval the counter is still positive. */
  lemma InsidePeriod(interval: nat, tick: int, k: nat)
    requires tick > 0 && k < TicksIn(interval, tick)
    ensures k * tick < interval
  {
  }

  /** The counter fires on exactly the multiples of the period. */
  lemma FiresOnMultiples(interval: nat, tick: int, n: nat)
    requires tick > 0
    ensures Due(interval, tick, n) <= 0 <==> n % Period(interval, tick) == 0
  {
    DueInPeriod(interval, tick, n);
    var r := n % Period(interval, tick);
    if r > 0 {
      InsidePeriod(interval, tick, r - 1);
    }
  }

  /** After a firing the counter is next due a whole period of waits later and
      not before: those waits add up to at least the interval and a tick, and
      to less than the interval and two. */
  lemma NextFiring(interval: nat, tick: int, n: nat, k: nat)
    requires tick > 0 && Due(interval, tick, n) <= 0
    ensures var p := Period(interval, tick);
            && Due(interval, tick, n + p) <= 0
            && (n < k < n + p ==> Due(interval, tick, k) > 0)
            && interval + tick <= p * tick < interval + 2 * tick
  {
    var p := Period(interval, tick);
    FiresOnMultiples(interval, tick, n);
    FiresOnMultiples(interval, tick, n + p);
    FiresOnMultiples(interval, tick, k);
    OnePeriodOn(n, p, k);
    PeriodSpan(interval, tick);
  }

  lemma OnePeriodOn(n: nat, p: nat, k: nat)
    requires p >= 1 && n % p == 0
    ensures (n + p) % p == 0
    ensures n < k < n + p ==> k % p != 0
  {
    assert n == p * (n / p);
    assert n + p == p * (n / p + 1);
    MultipleHasNoRemainder(n / p + 1, p);
    if n < k < n + p {
      RemainderIs(k, p, n / p, k - n);
    }
  }

  lemma PeriodSpan(interval: nat, tick: int)
    requires tick > 0
    ensures interval + tick <= Period(interval, tick) * tick < interval + 2 * tick
  {
  }
}
