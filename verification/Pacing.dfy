/** internal/agents/agent.go, Run: integer-nanosecond pacing and the steady/burst automaton. */
module Pacing {

  const SECOND := 1000000000

  function Max1(n: int): int {
    if n < 1 then 1 else n
  }

  /** time.Second / time.Duration(max1(steady_rps)) */
  function SteadyInterval(rps: int): nat {
    SECOND / Max1(rps)
  }

  /** Zero when burst_rps is unset, and again when it exceeds 10^9. */
  function BurstInterval(rps: int): nat {
    if rps > 0 then SECOND / rps else 0
  }

  datatype Config = Config(steady: nat, burst: nat, every: int, length: int)

  /** The automaton after some ticks. `fast` is whether the timer now running was set to the burst
      interval; the last three fields count what happened so far. */
  datatype Pace = Pace(
    bursting: bool, burstStart: int, lastBurst: int, now: int, fast: bool,
    steadyTicks: nat, burstTicks: nat, windows: nat)

  function Interval(c: Config, fast: bool): nat {
    if fast then c.burst else c.steady
  }

  function Started(start: int): Pace {
    Pace(false, start, start, start, false, 0, 0, 0)
  }

  /** One pass of the loop: the timer fires, the dispatch runs, the clock is read `late` nanoseconds
      after the timer was due. Timers never fire early, so every possible timing is some `late`. */
  function Tick(c: Config, p: Pace, late: nat): Pace {
    var now := p.now + Interval(c, p.fast) + late;
    var opens := c.every > 0 && !p.bursting && now - p.lastBurst >= c.every;
    var burstStart := if opens then now else p.burstStart;
    var open := p.bursting || opens;
    var closes := open && now - burstStart >= c.length;
    var bursting := open && !closes;
    Pace(bursting, burstStart, if closes then now else p.lastBurst, now, bursting && c.burst > 0,
         if p.fast then p.steadyTicks else p.steadyTicks + 1,
         if p.fast then p.burstTicks + 1 else p.burstTicks,
         if opens then p.windows + 1 else p.windows)
  }

  function Paced(c: Config, start: int, lates: seq<nat>): Pace {
    if lates == [] then Started(start)
    else Tick(c, Paced(c, start, lates[..|lates| - 1]), lates[|lates| - 1])
  }

  // ----- the dispatch-rate bound -----

  function CeilDiv(a: int, b: int): int
    requires b > 0
  {
    (a + b - 1) / b
  }

  lemma MulNext(k: int, x: int)
    ensures (k + 1) * x == k * x + x
  {
  }

  lemma MulMonotone(x: int, y: int, b: int)
    requires x <= y && b >= 0
    ensures x * b <= y * b
  {
  }

  lemma CeilDivCovers(k: int, a: int, b: int)
    requires b > 0 && k * b < a
    ensures k + 1 <= CeilDiv(a, b)
  {
    var q := CeilDiv(a, b);
    assert a <= q * b;
    if q <= k {
      MulMonotone(q, k, b);
    }
  }

  /** The time that this many steady and burst intervals take. */
  function Spent(c: Config, steadyTicks: nat, burstTicks: nat): int {
    steadyTicks * c.steady + burstTicks * c.burst
  }

  /** The time that passes before the end of `windows` windows. */
  function Scheduled(c: Config, windows: nat): int {
    windows * (c.every + c.length)
  }

  lemma SpentNext(c: Config, p: Pace)
    ensures Spent(c, p.steadyTicks + 1, p.burstTicks) == Spent(c, p.steadyTicks, p.burstTicks) + c.steady
    ensures Spent(c, p.steadyTicks, p.burstTicks + 1) == Spent(c, p.steadyTicks, p.burstTicks) + c.burst
  {
    MulNext(p.steadyTicks, c.steady);
    MulNext(p.burstTicks, c.burst);
  }

  /** Relates the automaton to the window it is in: `k` burst intervals have run in the open window. */
  predicate WindowInv(c: Config, start: int, p: Pace, k: nat)
    requires c.burst > 0
  {
    var cap := CeilDiv(c.length, c.burst);
    && p.fast == p.bursting
    && (!p.bursting ==>
          && Scheduled(c, p.windows) <= p.lastBurst - start && p.lastBurst <= p.now
          && p.burstTicks <= p.windows * cap)
    && (p.bursting ==>
          && p.windows >= 1
          && Scheduled(c, p.windows - 1) + c.every <= p.burstStart - start && p.burstStart <= p.now
          && p.now - p.burstStart < c.length && k * c.burst <= p.now - p.burstStart
          && p.burstTicks <= (p.windows - 1) * cap + k)
  }

  lemma WindowStepInside(c: Config, start: int, p: Pace, j: nat, late: nat) returns (k: nat)
    requires c.every > 0 && c.length > 0 && c.burst > 0
    requires p.bursting && WindowInv(c, start, p, j)
    ensures WindowInv(c, start, Tick(c, p, late), k)
  {
    k := j + 1;
    MulNext(j, c.burst);
    MulNext(p.windows - 1, CeilDiv(c.length, c.burst));
    MulNext(p.windows - 1, c.every + c.length);
    CeilDivCovers(j, c.length, c.burst);
  }

  lemma WindowStepOutside(c: Config, start: int, p: Pace, late: nat) returns (k: nat)
    requires c.every > 0 && c.length > 0 && c.burst > 0
    requires !p.bursting && WindowInv(c, start, p, 0)
    ensures WindowInv(c, start, Tick(c, p, late), k)
  {
    k := 0;
  }

  lemma {:induction false} WindowInvHolds(c: Config, start: int, lates: seq<nat>) returns (k: nat)
    requires c.every > 0 && c.length > 0 && c.burst > 0
    ensures WindowInv(c, start, Paced(c, start, lates), k)
    decreases |lates|
  {
    if lates == [] {
      k := 0;
    } else {
      var late := lates[|lates| - 1];
      var p := Paced(c, start, lates[..|lates| - 1]);
      var j := WindowInvHolds(c, start, lates[..|lates| - 1]);
      if p.bursting {
        k := WindowStepInside(c, start, p, j, late);
      } else {
        k := WindowStepOutside(c, start, p, late);
      }
    }
  }

  /** How late the clock was read, all in all. */
  function Delay(lates: seq<nat>): nat {
    if lates == [] then 0 else Delay(lates[..|lates| - 1]) + lates[|lates| - 1]
  }

  lemma {:induction false} NoDelay(lates: seq<nat>)
    requires Delay(lates) == 0
    ensures forall i :: 0 <= i < |lates| ==> lates[i] == 0
    decreases |lates|
  {
    if lates != [] {
      NoDelay(lates[..|lates| - 1]);
      assert forall i :: 0 <= i < |lates| - 1 ==> lates[..|lates| - 1][i] == lates[i];
    }
  }

  /** Where the time of a run goes. */
  lemma {:induction false} TimeIsSpent(c: Config, start: int, lates: seq<nat>)
    ensures var p := Paced(c, start, lates);
            && p.steadyTicks + p.burstTicks == |lates|
            && p.now - start == Spent(c, p.steadyTicks, p.burstTicks) + Delay(lates)
    decreases |lates|
  {
    if lates != [] {
      hide Spent;
      TimeIsSpent(c, start, lates[..|lates| - 1]);
      SpentNext(c, Paced(c, start, lates[..|lates| - 1]));
    } else {
      assert Spent(c, 0, 0) == 0;
    }
  }

  lemma SplitSchedule(c: Config, windows: nat)
    requires windows >= 1
    ensures Scheduled(c, windows) == windows * c.every + (windows - 1) * c.length + c.length
    ensures Scheduled(c, windows - 1) + c.every == windows * c.every + (windows - 1) * c.length
  {
    assert (windows - 1) * (c.every + c.length) == (windows - 1) * c.every + (windows - 1) * c.length;
    MulNext(windows - 1, c.every);
    MulNext(windows - 1, c.every + c.length);
  }

  /** Over a run of length D with N dispatches, for every timing the timers permit: N = s + h where
      s steady and h burst intervals and the delays make up D, h is at most ceil(burst_for / burst) per
      window, and B windows need B·burst_every + (B-1)·burst_for. */
  lemma DispatchRateBound(c: Config, start: int, lates: seq<nat>)
    requires c.every > 0 && c.length > 0 && c.burst > 0
    ensures var p := Paced(c, start, lates);
            var d := p.now - start;
            && p.steadyTicks + p.burstTicks == |lates|
            && p.steadyTicks * c.steady + p.burstTicks * c.burst + Delay(lates) == d
            && p.burstTicks <= p.windows * CeilDiv(c.length, c.burst)
            && (p.windows >= 1 ==> p.windows * c.every + (p.windows - 1) * c.length <= d)
  {
    var p := Paced(c, start, lates);
    TimeIsSpent(c, start, lates);
    var k := WindowInvHolds(c, start, lates);
    var cap := CeilDiv(c.length, c.burst);
    if p.bursting {
      CeilDivCovers(k, c.length, c.burst);
      MulNext(p.windows - 1, cap);
    }
    if p.windows >= 1 {
      SplitSchedule(c, p.windows);
    }
  }

  // ----- bursts do come, and they are bursts -----

  predicate AtMost(lates: seq<nat>, bound: nat) {
    forall i :: 0 <= i < |lates| ==> lates[i] <= bound
  }

  /** The longest time between two dispatches when nothing is more than `bound` late. */
  function Longest(c: Config, bound: nat): nat {
    (if c.steady > c.burst then c.steady else c.burst) + bound
  }

  /** Within this time a window begins and ends. */
  function Cycle(c: Config, bound: nat): int {
    c.every + c.length + 2 * Longest(c, bound)
  }

  lemma CeilDivIsLeast(k: nat, a: int, b: int)
    requires b > 0 && a > 0 && a <= k * b
    ensures 1 <= CeilDiv(a, b) <= k
  {
    var q := CeilDiv(a, b);
    assert b * q <= a + b - 1 < b * q + b;
    assert q * b == b * q;
    MulNext(k, b);
    if q > k {
      MulMonotone(k + 1, q, b);
    }
    if q <= 0 {
      MulMonotone(q, 0, b);
    }
  }

  /** `k` burst-paced dispatches were made in the open window. */
  predicate BurstInv(c: Config, start: int, p: Pace, bound: nat, k: nat)
    requires c.burst > 0
  {
    var least := CeilDiv(c.length, c.burst + bound);
    && p.fast == p.bursting
    && (!p.bursting ==>
          && p.now - p.lastBurst < c.every && p.lastBurst - start <= p.windows * Cycle(c, bound)
          && p.burstTicks >= p.windows * least)
    && (p.bursting ==>
          && p.windows >= 1
          && p.burstStart - start < (p.windows - 1) * Cycle(c, bound) + c.every + Longest(c, bound)
          && p.now - p.burstStart < c.length && p.now - p.burstStart <= k * (c.burst + bound)
          && p.burstTicks >= (p.windows - 1) * least + k)
  }

  lemma BurstStepInside(c: Config, start: int, p: Pace, bound: nat, j: nat, late: nat)
    requires c.every > 0 && c.length > 0 && c.burst > 0 && late <= bound
    requires p.bursting && BurstInv(c, start, p, bound, j)
    ensures BurstInv(c, start, Tick(c, p, late), bound, j + 1)
  {
    var q := Tick(c, p, late);
    MulNext(j, c.burst + bound);
    MulNext(p.windows - 1, CeilDiv(c.length, c.burst + bound));
    MulNext(p.windows - 1, Cycle(c, bound));
    if !q.bursting {
      CeilDivIsLeast(j + 1, c.length, c.burst + bound);
    }
  }

  lemma BurstStepOutside(c: Config, start: int, p: Pace, bound: nat, late: nat)
    requires c.every > 0 && c.length > 0 && c.burst > 0 && late <= bound
    requires !p.bursting && BurstInv(c, start, p, bound, 0)
    ensures BurstInv(c, start, Tick(c, p, late), bound, 0)
  {
    assert 0 * (c.burst + bound) == 0;
  }

  lemma OutsideAnyCount(c: Config, start: int, p: Pace, bound: nat, j: nat)
    requires c.burst > 0 && !p.bursting && BurstInv(c, start, p, bound, j)
    ensures BurstInv(c, start, p, bound, 0)
  {
  }

  lemma {:induction false} BurstInvHolds(c: Config, start: int, lates: seq<nat>, bound: nat) returns (k: nat)
    requires c.every > 0 && c.length > 0 && c.burst > 0 && AtMost(lates, bound)
    ensures BurstInv(c, start, Paced(c, start, lates), bound, k)
    decreases |lates|
  {
    if lates == [] {
      k := 0;
    } else {
      hide BurstInv, Tick;
      var late := lates[|lates| - 1];
      var p := Paced(c, start, lates[..|lates| - 1]);
      var j := BurstInvHolds(c, start, lates[..|lates| - 1], bound);
      if p.bursting {
        BurstStepInside(c, start, p, bound, j, late);
        k := j + 1;
      } else {
        assert BurstInv(c, start, p, bound, 0) by {
          OutsideAnyCount(c, start, p, bound, j);
        }
        BurstStepOutside(c, start, p, bound, late);
        k := 0;
      }
    }
  }

  /** When no dispatch is more than `bound` late, windows come at least once per cycle — without one
      the run is shorter than burst_every — and every window that has ended held at least
      ceil(burst_for / (burst + bound)) burst-paced dispatches. */
  lemma BurstsDoCome(c: Config, start: int, lates: seq<nat>, bound: nat)
    requires c.every > 0 && c.length > 0 && c.burst > 0 && AtMost(lates, bound)
    ensures var p := Paced(c, start, lates);
            var d, longest := p.now - start, (if c.steady > c.burst then c.steady else c.burst) + bound;
            var cycle, least := c.every + c.length + 2 * longest, CeilDiv(c.length, c.burst + bound);
            && d < (p.windows + 1) * cycle
            && (!p.bursting ==> d < p.windows * cycle + c.every && p.burstTicks >= p.windows * least)
            && (p.windows >= 1 ==> p.burstTicks >= (p.windows - 1) * least)
  {
    var p := Paced(c, start, lates);
    var k := BurstInvHolds(c, start, lates, bound);
    MulNext(p.windows, Cycle(c, bound));
    MulNext(p.windows - 1, Cycle(c, bound));
    MulNext(p.windows - 1, CeilDiv(c.length, c.burst + bound));
    if !p.bursting && p.windows >= 1 {
      CeilDivCovers(0, c.length, c.burst + bound);
    }
  }

  lemma {:induction false} NeverInsideAnEmptyWindow(c: Config, start: int, lates: seq<nat>)
    requires c.every <= 0 || c.length <= 0
    ensures !Paced(c, start, lates).bursting
    decreases |lates|
  {
    if lates != [] {
      NeverInsideAnEmptyWindow(c, start, lates[..|lates| - 1]);
    }
  }

  /** If any burst knob is off — also when burst_rps truncates to a zero interval — the whole run is
      steadily paced. */
  lemma {:induction false} NoBurstMeansSteady(c: Config, start: int, lates: seq<nat>)
    requires c.every <= 0 || c.length <= 0 || c.burst == 0
    ensures var p := Paced(c, start, lates);
            p.burstTicks == 0 && !p.fast && |lates| * c.steady <= p.now - start
    decreases |lates|
  {
    if lates != [] {
      NoBurstMeansSteady(c, start, lates[..|lates| - 1]);
      MulNext(|lates| - 1, c.steady);
      if c.burst > 0 {
        NeverInsideAnEmptyWindow(c, start, lates);
      }
    }
  }

  // ----- integer pacing -----

  lemma DivMod(a: nat, b: nat)
    requires b > 0
    ensures a == b * (a / b) + a % b && 0 <= a % b < b
  {
  }

  lemma QuotientIs(a: nat, b: nat, q: nat, t: nat)
    requires b > 0 && a == b * q + t && t < b
    ensures a / b == q
  {
    DivMod(a, b);
    var d := a / b;
    if d < q {
      MulMonotone(d + 1, q, b);
    } else if q < d {
      MulMonotone(q + 1, d, b);
    }
  }

  lemma QuotientIsNot(a: nat, b: nat, q: nat, t: nat)
    requires b > 0 && a == b * q + t && t >= b
    ensures a / b != q
  {
    DivMod(a, b);
  }

  /** The intervals are a second divided by the rate, rounded down; without a rate the steady interval
      is a whole second and there is no burst interval. */
  lemma IntervalsAreFloors(rps: int)
    ensures rps >= 1 ==> rps * SteadyInterval(rps) <= SECOND < rps * (SteadyInterval(rps) + 1)
    ensures rps >= 1 ==> BurstInterval(rps) == SteadyInterval(rps)
    ensures rps < 1 ==> SteadyInterval(rps) == SECOND && BurstInterval(rps) == 0
  {
    if rps >= 1 {
      DivMod(SECOND, rps);
      MulNext(SteadyInterval(rps), rps);
      assert rps * (SteadyInterval(rps) + 1) == rps * SteadyInterval(rps) + rps;
    }
  }

  /** A second holds exactly the requested number of truncated intervals just when the remainder of
      the division is below the interval. */
  lemma RateIsExactIff(r: int)
    requires 1 <= r <= SECOND
    ensures SteadyInterval(r) > 0
    ensures SECOND / SteadyInterval(r) == r <==> SECOND % r < SECOND / r
  {
    var q, t := SECOND / r, SECOND % r;
    DivMod(SECOND, r);
    assert q == 0 ==> r * q == 0;
    assert SECOND == q * r + t;
    if t < q {
      QuotientIs(SECOND, q, r, t);
    } else {
      QuotientIsNot(SECOND, q, r, t);
    }
  }

  /** r² ≤ 10^9 suffices for that. */
  lemma SmallRatesAreExact(r: int)
    requires 1 <= r && r * r <= SECOND
    ensures SteadyInterval(r) >= r && SECOND / SteadyInterval(r) == r
  {
    var q, t := SECOND / r, SECOND % r;
    DivMod(SECOND, r);
    if q < r {
      MulMonotone(q + 1, r, r);
    }
    if r > SECOND {
      MulMonotone(1, r, r);
    }
    RateIsExactIff(r);
  }

  /** Above 10^9 the interval truncates to zero, which the loop takes for "no burst rate". */
  lemma BurstRateTruncatesToZeroIff(rps: int)
    ensures BurstInterval(rps) == 0 <==> rps <= 0 || rps > SECOND
  {
    if rps > 0 {
      DivMod(SECOND, rps);
      if rps > SECOND {
        QuotientIs(SECOND, rps, 0, SECOND);
      }
      assert SECOND / rps == 0 ==> rps * (SECOND / rps) == 0;
    }
  }

  lemma {:induction false} BurstTicksGrow(c: Config, start: int, lates: seq<nat>, i: nat, j: nat)
    requires i <= j <= |lates|
    ensures Paced(c, start, lates[..i]).burstTicks <= Paced(c, start, lates[..j]).burstTicks
    decreases j - i
  {
    if i < j {
      assert lates[..j][..j - 1] == lates[..j - 1];
      BurstTicksGrow(c, start, lates, i, j - 1);
    }
  }

  lemma {:induction false} SteadyStretchTakes(c: Config, start: int, lates: seq<nat>, i: nat, j: nat)
    requires i <= j <= |lates|
    requires Paced(c, start, lates[..j]).burstTicks == Paced(c, start, lates[..i]).burstTicks
    ensures (j - i) * c.steady <= Paced(c, start, lates[..j]).now - Paced(c, start, lates[..i]).now
    ensures forall k :: i <= k <= j ==> Paced(c, start, lates[..k]).burstTicks == Paced(c, start, lates[..i]).burstTicks
    decreases j - i
  {
    if i < j {
      assert lates[..j][..j - 1] == lates[..j - 1];
      BurstTicksGrow(c, start, lates, i, j - 1);
      SteadyStretchTakes(c, start, lates, i, j - 1);
      MulNext(j - 1 - i, c.steady);
    }
  }

  /** The i-th to the j-th dispatch of a run lie within one second, and none of them is burst-paced. */
  predicate SteadySecond(c: Config, start: int, lates: seq<nat>, i: nat, j: nat) {
    && 1 <= i <= j <= |lates|
    && Paced(c, start, lates[..j]).burstTicks == Paced(c, start, lates[..i]).burstTicks
    && Paced(c, start, lates[..j]).now - Paced(c, start, lates[..i]).now <= SECOND
  }

  /** Then there are at most as many as truncated intervals fit into a second, and one more. */
  lemma SteadySecondHoldsAtMost(c: Config, start: int, lates: seq<nat>, i: nat, j: nat)
    requires c.steady > 0 && SteadySecond(c, start, lates, i, j)
    ensures j - i + 1 <= SECOND / c.steady + 1
  {
    SteadyStretchTakes(c, start, lates, i, j);
    var q := SECOND / c.steady;
    DivMod(SECOND, c.steady);
    assert c.steady * q == q * c.steady;
    MulNext(q, c.steady);
    if j - i > q {
      MulMonotone(q + 1, j - i, c.steady);
    }
  }

  /** A run of n dispatches with no burst and no delay. */
  function Punctual(n: nat): seq<nat> {
    if n == 0 then [] else Punctual(n - 1) + [0]
  }

  lemma {:induction false} PunctualPrefix(n: nat, k: nat)
    requires k <= n
    ensures |Punctual(n)| == n && Punctual(n)[..k] == Punctual(k)
    decreases n
  {
    if n > 0 {
      PunctualPrefix(n - 1, if k < n then k else n - 1);
    }
  }

  lemma {:induction false} PunctualTakes(c: Config, start: int, n: nat)
    requires c.every <= 0
    ensures var p := Paced(c, start, Punctual(n));
            !p.bursting && !p.fast && p.burstTicks == 0 && p.now == start + n * c.steady
    decreases n
  {
    if n > 0 {
      PunctualTakes(c, start, n - 1);
      PunctualPrefix(n, n - 1);
      MulNext(n - 1, c.steady);
    }
  }

  /** Every number of dispatches that the truncated interval leaves room for does occur. */
  lemma SteadySecondCanHold(c: Config, start: int, n: nat) returns (lates: seq<nat>)
    requires c.every <= 0 && n * c.steady <= SECOND
    ensures SteadySecond(c, start, lates, 1, n + 1)
  {
    lates := Punctual(n + 1);
    PunctualPrefix(n + 1, n + 1);
    PunctualPrefix(n + 1, 1);
    PunctualTakes(c, start, n + 1);
    PunctualTakes(c, start, 1);
    MulNext(n, c.steady);
  }

  /** At 60000 per second, 60002 intervals fit into one, and some second holds 60003 dispatches. */
  lemma LargeRateOvershoots() returns (lates: seq<nat>)
    ensures SECOND / SteadyInterval(60000) == 60002
    ensures SteadySecond(Config(SteadyInterval(60000), 0, 0, 0), 0, lates, 1, 60003)
  {
    hide SteadySecond;
    assert SECOND == 60000 * 16666 + 40000;
    QuotientIs(SECOND, 60000, 16666, 40000);
    assert SECOND == 16666 * 60002 + 6668;
    QuotientIs(SECOND, 16666, 60002, 6668);
    lates := SteadySecondCanHold(Config(SteadyInterval(60000), 0, 0, 0), 0, 60002);
  }

  /** No steadily paced second of any run at rate r holds more than r + 1 dispatches. */
  ghost predicate RateHolds(r: int) {
    forall c: Config, start, lates, i: nat, j: nat ::
      c.steady == SteadyInterval(r) && SteadySecond(c, start, lates, i, j) ==> j - i + 1 <= r + 1
  }

  /** Unless they are exactly r, more than r truncated intervals fit into a second. */
  lemma IntervalsFit(r: int)
    requires 1 <= r <= SECOND && SECOND / SteadyInterval(r) != r && SteadyInterval(r) > 0
    ensures (r + 1) * SteadyInterval(r) <= SECOND
  {
    var q := SECOND / r;
    DivMod(SECOND, r);
    DivMod(SECOND, q);
    assert q * r == r * q;
    if SECOND / q < r {
      MulMonotone(SECOND / q + 1, r, q);
      MulNext(SECOND / q, q);
    } else {
      MulMonotone(r + 1, SECOND / q, q);
      assert q * (SECOND / q) == (SECOND / q) * q;
    }
  }

  lemma SecondOverflows(r: int)
    requires r >= 1 && (r + 1) * SteadyInterval(r) <= SECOND
    ensures !RateHolds(r)
  {
    hide SteadySecond;
    var c := Config(SteadyInterval(r), 0, 0, 0);
    var lates := SteadySecondCanHold(c, 0, r + 1);
    assert SteadySecond(c, 0, lates, 1, r + 2);
  }

  /** This is so exactly when the division of a second by the rate leaves less than the interval. */
  lemma RateHoldsIff(r: int)
    requires r >= 1
    ensures RateHolds(r) <==> SECOND % r < SECOND / r
  {
    hide SteadySecond;
    var q := SteadyInterval(r);
    DivMod(SECOND, r);
    if r > SECOND {
      QuotientIs(SECOND, r, 0, SECOND);
      SecondOverflows(r);
    } else {
      RateIsExactIff(r);
      if SECOND / q == r {
        forall c: Config, start, lates, i: nat, j: nat | c.steady == q && SteadySecond(c, start, lates, i, j)
          ensures j - i + 1 <= r + 1
        {
          SteadySecondHoldsAtMost(c, start, lates, i, j);
        }
      } else {
        IntervalsFit(r);
        SecondOverflows(r);
      }
    }
  }
}
