/** The rate schedule of the ramp-up: how many requests each tick dispatches, and which tick
    dispatches the last one. Rates are rationals here. */
module RampSchedule {

  /** Go's conversion of a float to an int. */
  function Trunc(x: real): int {
    if x >= 0.0 then x.Floor else -(-x).Floor
  }

  /** The rate in force at the n-th tick, counting from 0: the minimum at first, then a step
      behind the straight line from the minimum to the maximum, and the maximum afterwards. */
  function Limit(minRps: int, maxRps: int, period: int, n: nat): real {
    if n > period then maxRps as real
    else if n == 0 then minRps as real
    else minRps as real + Increment(minRps, maxRps, period) * (n - 1) as real
  }

  function Increment(minRps: int, maxRps: int, period: int): real
    requires period > 0
  {
    (maxRps - minRps) as real / period as real
  }

  /** How many requests the n-th tick may dispatch. */
  function Quota(minRps: int, maxRps: int, period: int, n: nat): nat {
    var q := Trunc(Limit(minRps, maxRps, period, n));
    if q < 0 then 0 else q
  }

  /** How many requests the first n ticks may dispatch. */
  function Dispatched(minRps: int, maxRps: int, period: int, n: nat): nat {
    if n == 0 then 0 else Dispatched(minRps, maxRps, period, n - 1) + Quota(minRps, maxRps, period, n - 1)
  }

  // ---------- the loops ----------

  function Flatten(ticks: seq<seq<nat>>): seq<nat> {
    if ticks == [] then [] else Flatten(ticks[..|ticks| - 1]) + ticks[|ticks| - 1]
  }

  function UpTo(n: nat): (s: seq<nat>)
    ensures |s| == n
  {
    if n == 0 then [] else UpTo(n - 1) + [n - 1]
  }

  /** The ticks so far used up their quotas, and dispatched the requests in order. */
  ghost predicate Filled(minRps: int, maxRps: int, period: int, ticks: seq<seq<nat>>) {
    && Flatten(ticks) == UpTo(Dispatched(minRps, maxRps, period, |ticks|))
    && forall k | 0 <= k < |ticks| :: |ticks[k]| == Quota(minRps, maxRps, period, k)
  }

  /** Dispatch within one tick: the inner loop, which stops early after the last request. */
  method DispatchTick(limit: real, first: nat, total: nat) returns (tick: seq<nat>, done: bool)
    requires first <= total
    ensures var quota := if Trunc(limit) < 0 then 0 else Trunc(limit);
            if done then first + |tick| == total && |tick| < quota else |tick| == quota && first + |tick| <= total
    ensures UpTo(first) + tick == UpTo(first + |tick|)
  {
    tick, done := [], false;
    var i := 0;
    var requestIndex := first;
    while i < Trunc(limit)
      invariant i == |tick| && requestIndex == first + i <= total
      invariant i == 0 || i <= Trunc(limit)
      invariant UpTo(first) + tick == UpTo(requestIndex)
    {
      requestIndex := requestIndex + 1;
      var idx := requestIndex - 1;
      if idx >= total {
        done := true;
        return;
      }
      tick := tick + [idx];
      i := i + 1;
    }
  }

  /** The limit set at the end of a tick is, while the ramp goes on, that of the next one. */
  method NewLimit(minRps: int, maxRps: int, period: int, lowest: int, rpsIncrement: real, step: nat)
    returns (limit: real)
    requires period > 0 ==> rpsIncrement == Increment(minRps, maxRps, period) && lowest == minRps
    ensures step + 1 <= period ==> limit == Limit(minRps, maxRps, period, step + 1)
  {
    limit := lowest as real + rpsIncrement * step as real;
  }

  /** The loop after the ramp. It ends in the one tick whose quota exceeds what is left. */
  method Steady(minRps: int, maxRps: int, period: int, total: nat, ramp: seq<seq<nat>>) returns (ticks: seq<seq<nat>>)
    requires maxRps >= 1 && |ramp| > period
    requires Filled(minRps, maxRps, period, ramp) && Dispatched(minRps, maxRps, period, |ramp|) <= total
    ensures Complete(minRps, maxRps, period, total, ticks)
  {
    var limit := maxRps as real;
    ticks := ramp;
    while true
      invariant |ticks| > period
      invariant Filled(minRps, maxRps, period, ticks) && Dispatched(minRps, maxRps, period, |ticks|) <= total
      decreases total - Dispatched(minRps, maxRps, period, |ticks|)
    {
      var tick, done := DispatchTick(limit, Dispatched(minRps, maxRps, period, |ticks|), total);
      FillTick(minRps, maxRps, period, ticks, tick);
      ticks := ticks + [tick];
      if done {
        return;
      }
    }
  }

  /** Every request is dispatched, in order, each tick but the last using up its quota, and
      the last one noticing the end. */
  ghost predicate Complete(minRps: int, maxRps: int, period: int, total: nat, ticks: seq<seq<nat>>) {
    && ticks != [] && Flatten(ticks) == UpTo(total)
    && (forall k | 0 <= k < |ticks| - 1 :: |ticks[k]| == Quota(minRps, maxRps, period, k))
    && Dispatched(minRps, maxRps, period, |ticks| - 1) <= total < Dispatched(minRps, maxRps, period, |ticks|)
  }

  /** The two loops of `RampUpAPIRequests` when nothing is cancelled and no wait fails: what
      each tick dispatches. With a maximum below 1 the second loop would never end. */
  method RampUp(minRps: int, maxRps: int, period: int, total: nat) returns (ticks: seq<seq<nat>>)
    requires maxRps >= 1
    ensures Complete(minRps, maxRps, period, total, ticks)
  {
    // With a period of 0 the increment is infinite or undefined, and not used.
    var rpsIncrement := if period == 0 then 0.0 else (maxRps - minRps) as real / period as real;
    var limit := minRps as real;
    var lowest := minRps;
    if period == 0 {
      lowest := maxRps;
    }
    ticks := [];
    var step := 0;
    while step <= period
      invariant step == |ticks| && (step == 0 || step <= period + 1)
      invariant 0 <= step <= period ==> limit == Limit(minRps, maxRps, period, step)
      invariant Filled(minRps, maxRps, period, ticks) && Dispatched(minRps, maxRps, period, step) <= total
    {
      var tick, done := DispatchTick(limit, Dispatched(minRps, maxRps, period, step), total);
      FillTick(minRps, maxRps, period, ticks, tick);
      ticks := ticks + [tick];
      if done {
        assert |tick| < Quota(minRps, maxRps, period, |ticks| - 1);
        return;
      }
      limit := NewLimit(minRps, maxRps, period, lowest, rpsIncrement, step);
      step := step + 1;
    }
    ticks := Steady(minRps, maxRps, period, total, ticks);
  }

  lemma FillTick(minRps: int, maxRps: int, period: int, ticks: seq<seq<nat>>, tick: seq<nat>)
    requires Filled(minRps, maxRps, period, ticks)
    requires var first := Dispatched(minRps, maxRps, period, |ticks|); UpTo(first) + tick == UpTo(first + |tick|)
    ensures Flatten(ticks + [tick]) == UpTo(Dispatched(minRps, maxRps, period, |ticks|) + |tick|)
    ensures |tick| == Quota(minRps, maxRps, period, |ticks|) ==> Filled(minRps, maxRps, period, ticks + [tick])
  {
    assert (ticks + [tick])[..|ticks|] == ticks;
  }

  // ---------- the shape of the schedule ----------

  lemma ScaleMonotone(x: real, a: real, b: real)
    requires x >= 0.0 && a <= b
    ensures x * a <= x * b
  {
  }

  lemma RampBounds(minRps: int, maxRps: int, period: int, n: nat)
    requires minRps <= maxRps && 0 < n <= period
    ensures minRps as real <= Limit(minRps, maxRps, period, n) <= maxRps as real
  {
    var inc := Increment(minRps, maxRps, period);
    assert inc >= 0.0 && inc * period as real == (maxRps - minRps) as real;
    ScaleMonotone(inc, 0.0, (n - 1) as real);
    ScaleMonotone(inc, (n - 1) as real, period as real);
  }

  /** The number below, of a rate that is not negative. */
  lemma QuotaIs(minRps: int, maxRps: int, period: int, n: nat)
    ensures
      var limit, quota := Limit(minRps, maxRps, period, n), Quota(minRps, maxRps, period, n);
      if limit >= 0.0 then quota as real <= limit < (quota + 1) as real else quota == 0
  {
  }

  /** The ramp is a straight line: after the first tick, at the minimum, tick n runs at the minimum
      and the (n - 1)-th part in `period` of the way to the maximum. */
  lemma RampIsLinear(minRps: int, maxRps: int, period: int, n: nat)
    requires 0 < n <= period
    ensures (Limit(minRps, maxRps, period, n) - minRps as real) * period as real
         == ((maxRps - minRps) * (n - 1)) as real
    ensures Limit(minRps, maxRps, period, 0) == Limit(minRps, maxRps, period, 1) == minRps as real
  {
    var inc := Increment(minRps, maxRps, period);
    assert inc * period as real == (maxRps - minRps) as real;
    Swap(inc, (n - 1) as real, period as real);
    assert (maxRps - minRps) as real * (n - 1) as real == ((maxRps - minRps) * (n - 1)) as real;
  }

  lemma Swap(x: real, a: real, b: real)
    ensures x * a * b == x * b * a
  {
  }

  /** From one tick to the next the rate never falls; it keeps within the minimum and the
      maximum, and is the maximum from tick period + 1 on. */
  lemma RateClimbs(minRps: int, maxRps: int, period: int, n: nat)
    requires minRps <= maxRps
    ensures minRps as real <= Limit(minRps, maxRps, period, n) <= Limit(minRps, maxRps, period, n + 1) <= maxRps as real
    ensures n > period ==> Limit(minRps, maxRps, period, n) == maxRps as real
  {
    if 0 < n <= period { RampBounds(minRps, maxRps, period, n); }
    if n + 1 <= period {
      RampBounds(minRps, maxRps, period, n + 1);
      if n > 0 { ScaleMonotone(Increment(minRps, maxRps, period), (n - 1) as real, n as real); }
    }
  }

  /** What a tick dispatches never falls either, and keeps within the same bounds. */
  lemma QuotaClimbs(minRps: int, maxRps: int, period: int, n: nat)
    requires 0 <= minRps <= maxRps
    ensures minRps <= Quota(minRps, maxRps, period, n) <= Quota(minRps, maxRps, period, n + 1) <= maxRps
    ensures n > period ==> Quota(minRps, maxRps, period, n) == maxRps
  {
    RateClimbs(minRps, maxRps, period, n);
  }

  /** An explicit bound on the ticks: every tick dispatches at least the minimum, ... */
  lemma {:induction false} DispatchedAtLeast(minRps: int, maxRps: int, period: nat, n: nat)
    requires 0 <= minRps <= maxRps
    ensures Dispatched(minRps, maxRps, period, n) >= minRps * n
  {
    if n > 0 {
      DispatchedAtLeast(minRps, maxRps, period, n - 1);
      QuotaClimbs(minRps, maxRps, period, n - 1);
      assert minRps * n == minRps * (n - 1) + minRps;
    }
  }

  /** ... and every one after the ramp the maximum. */
  lemma {:induction false} DispatchedAfterRamp(minRps: int, maxRps: int, period: nat, more: nat)
    requires 0 <= minRps <= maxRps
    ensures Dispatched(minRps, maxRps, period, period + 1 + more) >= minRps * (period + 1) + maxRps * more
  {
    if more == 0 {
      DispatchedAtLeast(minRps, maxRps, period, period + 1);
    } else {
      DispatchedAfterRamp(minRps, maxRps, period, more - 1);
      QuotaClimbs(minRps, maxRps, period, period + more);
      assert maxRps * more == maxRps * (more - 1) + maxRps;
    }
  }

  /** So with a minimum of at least 1 the last request is dispatched, and the end noticed,
      within total / minRps + 1 ticks. */
  lemma TicksBounded(minRps: int, maxRps: int, period: nat, total: nat, n: nat)
    requires 1 <= minRps <= maxRps && Dispatched(minRps, maxRps, period, n) <= total
    ensures n <= total / minRps
  {
    DispatchedAtLeast(minRps, maxRps, period, n);
    assert minRps * n <= total;
    QuotientBound(minRps, n, total);
  }

  lemma QuotientBound(d: int, n: nat, total: nat)
    requires d >= 1 && d * n <= total
    ensures n <= total / d
  {
    var q := total / d;
    assert total < d * q + d;
    if n >= q + 1 { ProductMonotone(d, q + 1, n); }
  }

  lemma ProductMonotone(d: int, a: int, b: int)
    requires d >= 0 && a <= b
    ensures d * a <= d * b
  {
  }

  /** The comment in the code says that a period of 0 goes to the maximum directly; the
      limiter was made before the minimum is raised, so one tick still runs at the minimum. */
  lemma NoPeriodStillStartsLow(minRps: int, maxRps: int, n: nat)
    requires 0 <= minRps && 0 <= maxRps
    ensures Quota(minRps, maxRps, 0, n) == if n == 0 then minRps else maxRps
  {
  }
}
