/** The scaling monitor: CPU shares stepped towards the ceiling under high load, towards the floor under low. */
module Scaling {
  import opened Arithmetic
  import opened Results

  const CPU_WEIGHT_MAX: nat := 10_000

  datatype Policy = Policy(minShares: nat, maxShares: nat, high: real, low: real) {
    /** What a validated configuration gives: an ordered range, and thresholds that do not overlap. */
    predicate Valid() { minShares <= maxShares && low < high }
  }

  datatype Limits = Limits(minCpuShares: nat, maxCpuShares: nat) {
    predicate Validated() { 1 <= minCpuShares <= maxCpuShares <= CPU_WEIGHT_MAX }
  }

  function FromLimits(l: Limits): (p: Policy)
    ensures l.Validated() ==> p.Valid()
  {
    Policy(l.minCpuShares, l.maxCpuShares, 0.80, 0.20)
  }

  /** What the outside world does at one tick. */
  datatype Tick = ProbeFailed | Sampled(load: real, sinkAccepts: bool)

  /** The next share, a quarter of the way, and at least one, towards the end the load asks for. */
  function Next(p: Policy, current: nat, load: real): (n: nat)
    requires p.Valid()
    ensures p.minShares <= current <= p.maxShares ==> p.minShares <= n <= p.maxShares
  {
    if load >= p.high && current < p.maxShares then
      Min(current + Max((p.maxShares - current) / 4, 1), p.maxShares)
    else if load <= p.low && current > p.minShares then
      Max(current - Max((current - p.minShares) / 4, 1), p.minShares)
    else current
  }

  /** The distance to the end the load asks for; none if it asks for neither. */
  function Distance(p: Policy, current: nat, load: real): nat
    requires p.Valid() && p.minShares <= current <= p.maxShares
  {
    if load >= p.high then p.maxShares - current
    else if load <= p.low then current - p.minShares
    else 0
  }

  function Moved(p: Policy, current: nat, load: real): nat
    requires p.Valid()
  {
    var next := Next(p, current, load);
    if next >= current then next - current else current - next
  }

  /**
   The user guide says the step is 25% of the distance. It is a quarter, rounded down, exactly
   when the distance is zero or at least four, and 25% exactly when four divides the distance.
   */
  lemma QuarterStepIff(p: Policy, current: nat, load: real)
    requires p.Valid() && p.minShares <= current <= p.maxShares
    ensures var d, step := Distance(p, current, load), Moved(p, current, load);
            && (step == d / 4 <==> d == 0 || d >= 4)
            && (4 * step == d <==> d % 4 == 0)
            && (0 < d < 4 ==> step == 1)
  {
  }

  /** One share from the ceiling, the step is one share and not a quarter of one. */
  lemma LastShareIsWhole(p: Policy)
    requires p == Policy(256, 2048, 0.80, 0.20)
    ensures Distance(p, 2047, 0.95) == 1 && Moved(p, 2047, 0.95) == 1
  {
  }

  /** The shares after a tick: the old ones unless the probe answered and the sink, if asked, accepted. */
  function AfterTick(p: Policy, current: nat, t: Tick): (n: nat)
    requires p.Valid()
    ensures p.minShares <= current <= p.maxShares ==> p.minShares <= n <= p.maxShares
  {
    match t
    case ProbeFailed => current
    case Sampled(load, accepts) => if accepts then Next(p, current, load) else current
  }

  function AfterTicks(p: Policy, start: nat, ts: seq<Tick>): (n: nat)
    requires p.Valid()
    ensures p.minShares <= start <= p.maxShares ==> p.minShares <= n <= p.maxShares
  {
    if ts == [] then start else AfterTick(p, AfterTicks(p, start, ts[..|ts| - 1]), ts[|ts| - 1])
  }

  // ----- The monitor and its sink -----

  datatype Offer = Offer(shares: nat, accepted: bool)

  /** The last value the sink accepted. */
  function LastAccepted(offers: seq<Offer>): Option<nat> {
    if offers == [] then None
    else if offers[|offers| - 1].accepted then Some(offers[|offers| - 1].shares)
    else LastAccepted(offers[..|offers| - 1])
  }

  class Monitor {
    const policy: Policy
    var cpuShares: nat
    /** Every call made on the sink, in order. */
    var offers: seq<Offer>

    /** Shares and offers stay in range. */
    ghost predicate Valid()
      reads this
    {
      && policy.Valid()
      && policy.minShares <= cpuShares <= policy.maxShares
      && (forall i :: 0 <= i < |offers| ==> policy.minShares <= offers[i].shares <= policy.maxShares)
    }

    /** Once the sink has accepted anything, its value is the monitor's. */
    ghost predicate Agrees()
      reads this
    {
      LastAccepted(offers).Some? ==> LastAccepted(offers).value == cpuShares
    }

    constructor (policy: Policy)
      requires policy.Valid()
      ensures Valid() && Agrees() && this.policy == policy && cpuShares == policy.minShares && offers == []
    {
      this.policy, cpuShares, offers := policy, policy.minShares, [];
    }

    method SetShares(shares: nat, accepts: bool)
      modifies this`offers
      ensures offers == old(offers) + [Offer(shares, accepts)]
      ensures LastAccepted(offers) == if accepts then Some(shares) else LastAccepted(old(offers))
    {
      offers := offers + [Offer(shares, accepts)];
      assert offers[..|offers| - 1] == old(offers);
    }

    method TickOnce(t: Tick)
      requires Valid()
      modifies this
      ensures Valid() && (old(Agrees()) ==> Agrees())
      ensures cpuShares == AfterTick(policy, old(cpuShares), t)
      ensures t.ProbeFailed? || Next(policy, old(cpuShares), t.load) == old(cpuShares) ==> offers == old(offers)
      ensures t.Sampled? && Next(policy, old(cpuShares), t.load) != old(cpuShares) ==>
                offers == old(offers) + [Offer(Next(policy, old(cpuShares), t.load), t.sinkAccepts)]
    {
      if t.ProbeFailed? {
        return;
      }
      var load, current := t.load, cpuShares;
      var next := current;
      if load >= policy.high && current < policy.maxShares {
        var headroom := policy.maxShares - current;
        next := Min(current + Max(headroom / 4, 1), policy.maxShares);
      } else if load <= policy.low && current > policy.minShares {
        var slack := current - policy.minShares;
        next := Max(current - Max(slack / 4, 1), policy.minShares);
      }
      if next == current {
        return;
      }
      SetShares(next, t.sinkAccepts);
      if !t.sinkAccepts {
        return;
      }
      cpuShares := next;
    }

    /**
     The loop until shutdown: `ticks` is what happens at each poll, `floorAccepted` what the
     sink says to the initial floor. Started, as the runner does, from the floor, the
     monitor and its sink agree whatever fails.
     */
    method RunLoop(floorAccepted: bool, ticks: seq<Tick>)
      requires Valid()
      modifies this
      ensures Valid()
      ensures cpuShares == AfterTicks(policy, old(cpuShares), ticks)
      ensures old(cpuShares) == policy.minShares && old(Agrees()) ==> Agrees()
      ensures old(offers) + [Offer(policy.minShares, floorAccepted)] <= offers
    {
      SetShares(policy.minShares, floorAccepted);
      ghost var agreed := Agrees();
      for i := 0 to |ticks|
        invariant Valid() && (agreed ==> Agrees())
        invariant cpuShares == AfterTicks(policy, old(cpuShares), ticks[..i])
        invariant old(offers) + [Offer(policy.minShares, floorAccepted)] <= offers
      {
        assert ticks[..i + 1][..i] == ticks[..i];
        TickOnce(ticks[i]);
      }
      assert ticks[..|ticks|] == ticks;
    }
  }

  /** The sink's own clamp never changes what a validated monitor offers. */
  function Clamp(v: nat): nat {
    if v < 1 then 1 else if v > CPU_WEIGHT_MAX then CPU_WEIGHT_MAX else v
  }

  /** Whatever it is offered, the sink writes a weight the host accepts, and changes only what is not one. */
  lemma SinkWritesWeights(v: nat)
    ensures 1 <= Clamp(v) <= 10_000 && (Clamp(v) == v <==> 1 <= v <= 10_000)
    ensures v < 1 ==> Clamp(v) == 1
    ensures v > 10_000 ==> Clamp(v) == 10_000
  {
  }

  lemma SinkClampIsIdentity(l: Limits, ts: seq<Tick>, load: real)
    requires 1 <= l.minCpuShares <= l.maxCpuShares <= 10_000
    ensures var p := FromLimits(l); var c := AfterTicks(p, p.minShares, ts);
            && Clamp(c) == c && Clamp(Next(p, c, load)) == Next(p, c, load)
            && l.minCpuShares <= Next(p, c, load) <= l.maxCpuShares
  {
  }

  // ----- Convergence -----

  predicate AllHigh(p: Policy, ts: seq<Tick>) {
    forall i :: 0 <= i < |ts| ==> ts[i].Sampled? && ts[i].sinkAccepts && ts[i].load >= p.high
  }

  predicate AllLow(p: Policy, ts: seq<Tick>) {
    forall i :: 0 <= i < |ts| ==> ts[i].Sampled? && ts[i].sinkAccepts && ts[i].load <= p.low
  }

  /** The distance to the end being approached, after one step. */
  function Approach(distance: nat): nat {
    if distance == 0 then 0 else distance - Max(distance / 4, 1)
  }

  function Approaches(distance: nat, n: nat): nat {
    if n == 0 then distance else Approach(Approaches(distance, n - 1))
  }

  lemma {:induction false} HighTicksApproach(p: Policy, c: nat, ts: seq<Tick>)
    requires p.Valid() && c <= p.maxShares && AllHigh(p, ts)
    ensures AfterTicks(p, c, ts) <= p.maxShares
    ensures p.maxShares - AfterTicks(p, c, ts) == Approaches(p.maxShares - c, |ts|)
    decreases |ts|
  {
    if ts != [] {
      HighTicksApproach(p, c, ts[..|ts| - 1]);
      assert ts[|ts| - 1].Sampled?;
    }
  }

  lemma {:induction false} LowTicksApproach(p: Policy, c: nat, ts: seq<Tick>)
    requires p.Valid() && c >= p.minShares && AllLow(p, ts)
    ensures AfterTicks(p, c, ts) >= p.minShares
    ensures AfterTicks(p, c, ts) - p.minShares == Approaches(c - p.minShares, |ts|)
    decreases |ts|
  {
    if ts != [] {
      LowTicksApproach(p, c, ts[..|ts| - 1]);
      assert ts[|ts| - 1].Sampled?;
    }
  }

  /** Four steps at least halve the distance. */
  lemma FourApproachesHalve(d: nat)
    ensures Approaches(d, 4) <= d / 2
  {
    assert Approaches(d, 1) == Approach(d);
    assert Approaches(d, 2) == Approach(Approach(d));
    assert Approaches(d, 3) == Approach(Approach(Approach(d)));
  }

  lemma {:induction false} ApproachesSplit(d: nat, m: nat, n: nat)
    ensures Approaches(d, m + n) == Approaches(Approaches(d, m), n)
    decreases n
  {
    if n > 0 {
      ApproachesSplit(d, m, n - 1);
    }
  }

  function Pow2(k: nat): nat {
    if k == 0 then 1 else 2 * Pow2(k - 1)
  }

  /** A distance below `2^k` is gone after `4k` steps, and stays gone. */
  lemma {:induction false} ApproachesReach(d: nat, k: nat, n: nat)
    requires d < Pow2(k) && n >= 4 * k
    ensures Approaches(d, n) == 0
    decreases k, n
  {
    if k == 0 {
      if n > 0 {
        ApproachesReach(d, 0, n - 1);
      }
    } else {
      ApproachesSplit(d, 4, n - 4);
      FourApproachesHalve(d);
      ApproachesReach(Approaches(d, 4), k - 1, n - 4);
    }
  }

  /** Under sustained high load any four ticks at least halve the headroom ... */
  lemma FourHighTicksHalveHeadroom(p: Policy, c: nat, ts: seq<Tick>)
    requires p.Valid() && c <= p.maxShares && AllHigh(p, ts) && |ts| == 4
    ensures 0 <= p.maxShares - AfterTicks(p, c, ts) <= (p.maxShares - c) / 2
  {
    HighTicksApproach(p, c, ts);
    FourApproachesHalve(p.maxShares - c);
  }

  /** ... and under sustained low load the slack, ... */
  lemma FourLowTicksHalveSlack(p: Policy, c: nat, ts: seq<Tick>)
    requires p.Valid() && c >= p.minShares && AllLow(p, ts) && |ts| == 4
    ensures 0 <= AfterTicks(p, c, ts) - p.minShares <= (c - p.minShares) / 2
  {
    LowTicksApproach(p, c, ts);
    FourApproachesHalve(c - p.minShares);
  }

  /** ... so logarithmically many reach the end of the range, and stay there. */
  lemma HighLoadReachesMax(p: Policy, c: nat, ts: seq<Tick>, k: nat)
    requires p.Valid() && c <= p.maxShares && AllHigh(p, ts)
    requires p.maxShares - c < Pow2(k) && |ts| >= 4 * k
    ensures AfterTicks(p, c, ts) == p.maxShares
  {
    HighTicksApproach(p, c, ts);
    ApproachesReach(p.maxShares - c, k, |ts|);
  }

  lemma LowLoadReachesMin(p: Policy, c: nat, ts: seq<Tick>, k: nat)
    requires p.Valid() && c >= p.minShares && AllLow(p, ts)
    requires c - p.minShares < Pow2(k) && |ts| >= 4 * k
    ensures AfterTicks(p, c, ts) == p.minShares
  {
    LowTicksApproach(p, c, ts);
    ApproachesReach(c - p.minShares, k, |ts|);
  }

  // ----- From the configured limits -----

  /** Answered probes of high load, and accepting sinks. */
  predicate Busy(ts: seq<Tick>) {
    forall i :: 0 <= i < |ts| ==> ts[i].Sampled? && ts[i].sinkAccepts && ts[i].load >= 0.80
  }

  /** Answered probes of low load, and accepting sinks. */
  predicate Idle(ts: seq<Tick>) {
    forall i :: 0 <= i < |ts| ==> ts[i].Sampled? && ts[i].sinkAccepts && ts[i].load <= 0.20
  }

  /** The limits, whatever they are, lie less than 2^14 apart. */
  lemma LimitsApart(l: Limits)
    requires 1 <= l.minCpuShares <= l.maxCpuShares <= 10_000
    ensures l.maxCpuShares - l.minCpuShares < Pow2(14)
  {
    assert Pow2(4) == 16;
    assert Pow2(8) == 16 * Pow2(4);
    assert Pow2(12) == 16 * Pow2(8);
    assert Pow2(14) == 4 * Pow2(12);
  }

  /**
   From any shares within the limits, high load brings the monitor to the upper limit and low
   load to the lower one.
   */
  lemma LimitsAreReached(l: Limits, c: nat, ts: seq<Tick>, k: nat)
    requires 1 <= l.minCpuShares <= c <= l.maxCpuShares <= 10_000
    requires l.maxCpuShares - l.minCpuShares < Pow2(k) && |ts| >= 4 * k
    ensures Busy(ts) ==> AfterTicks(FromLimits(l), c, ts) == l.maxCpuShares
    ensures Idle(ts) ==> AfterTicks(FromLimits(l), c, ts) == l.minCpuShares
  {
    if Busy(ts) {
      HighLoadReachesMax(FromLimits(l), c, ts, k);
    }
    if Idle(ts) {
      LowLoadReachesMin(FromLimits(l), c, ts, k);
    }
  }

  /**
   A monitor with any validated limits: 56 ticks of high load take it from its floor, which is
   the lower limit, to the upper limit, and 56 of low load take it back.
   */
  lemma ThereAndBack(l: Limits, ups: seq<Tick>, downs: seq<Tick>)
    requires 1 <= l.minCpuShares <= l.maxCpuShares <= 10_000 && |ups| >= 56 && |downs| >= 56
    requires Busy(ups) && Idle(downs)
    ensures var p := FromLimits(l);
            && p.minShares == l.minCpuShares
            && AfterTicks(p, p.minShares, ups) == l.maxCpuShares
            && AfterTicks(p, p.minShares, ups + downs) == l.minCpuShares
  {
    var p := FromLimits(l);
    LimitsApart(l);
    LimitsAreReached(l, l.minCpuShares, ups, 14);
    LimitsAreReached(l, l.maxCpuShares, downs, 14);
    TicksCompose(p, p.minShares, ups, downs);
  }

  lemma OneMoreTick(p: Policy, c: nat, ts: seq<Tick>, t: Tick)
    requires p.Valid()
    ensures AfterTicks(p, c, ts + [t]) == AfterTick(p, AfterTicks(p, c, ts), t)
  {
    assert (ts + [t])[..|ts|] == ts;
  }

  lemma {:induction false} TicksCompose(p: Policy, c: nat, ts: seq<Tick>, us: seq<Tick>)
    requires p.Valid()
    ensures AfterTicks(p, c, ts + us) == AfterTicks(p, AfterTicks(p, c, ts), us)
    decreases |us|
  {
    if us == [] {
      assert ts + us == ts;
    } else {
      var n := |us| - 1;
      var front, last := us[..n], us[n];
      TicksCompose(p, c, ts, front);
      OneMoreTick(p, c, ts + front, last);
      OneMoreTick(p, AfterTicks(p, c, ts), front, last);
      assert front + [last] == us && ts + front + [last] == ts + us;
    }
  }

  /** Exactly which ticks move a monitor within its limits, and which way. */
  lemma MovesIff(l: Limits, c: nat, t: Tick)
    requires 1 <= l.minCpuShares <= c <= l.maxCpuShares <= 10_000
    ensures AfterTick(FromLimits(l), c, t) > c <==>
            t.Sampled? && t.sinkAccepts && t.load >= 0.80 && c < l.maxCpuShares
    ensures AfterTick(FromLimits(l), c, t) < c <==>
            t.Sampled? && t.sinkAccepts && t.load <= 0.20 && c > l.minCpuShares
  {
  }

  /** Loads strictly between the thresholds leave the shares alone for as long as they last. */
  lemma {:induction false} BetweenIsStill(l: Limits, c: nat, ts: seq<Tick>)
    requires 1 <= l.minCpuShares <= c <= l.maxCpuShares <= 10_000
    requires forall i :: 0 <= i < |ts| && ts[i].Sampled? ==> 0.20 < ts[i].load < 0.80
    ensures AfterTicks(FromLimits(l), c, ts) == c
    decreases |ts|
  {
    if ts != [] {
      var n := |ts| - 1;
      BetweenIsStill(l, c, ts[..n]);
      MovesIff(l, c, ts[n]);
    }
  }

  /** An instance: at a load of 0.95 the first tick goes from 256 shares to 704. */
  lemma FirstTick(l: Limits)
    requires l == Limits(256, 2048)
    ensures AfterTick(FromLimits(l), 256, Sampled(0.95, true)) == 704
  {
  }

  // ----- Two runs compared -----

  predicate InRange(p: Policy, c: nat) { p.minShares <= c <= p.maxShares }

  /** Same failures, and no load lower in `us` than in `ts`. */
  predicate NoLower(ts: seq<Tick>, us: seq<Tick>) {
    && |ts| == |us|
    && forall i :: 0 <= i < |ts| ==>
         match (ts[i], us[i])
         case (ProbeFailed, ProbeFailed) => true
         case (Sampled(l, a), Sampled(l', a')) => l <= l' && a == a'
         case _ => false
  }

  /** The tick map is monotone in shares and load, and does not stretch a gap in shares. */
  lemma NextMonotone(p: Policy, c: nat, c': nat, l: real, l': real)
    requires p.Valid() && InRange(p, c) && InRange(p, c') && c <= c' && l <= l'
    ensures Next(p, c, l) <= Next(p, c', l')
    ensures Next(p, c', l) - Next(p, c, l) <= c' - c
  {
  }

  lemma {:induction false} RunsPreserveOrder(p: Policy, c: nat, c': nat, ts: seq<Tick>, us: seq<Tick>)
    requires p.Valid() && InRange(p, c) && InRange(p, c') && c <= c' && NoLower(ts, us)
    ensures AfterTicks(p, c, ts) <= AfterTicks(p, c', us)
    decreases |ts|
  {
    if ts != [] {
      var n := |ts| - 1;
      assert NoLower(ts[..n], us[..n]);
      RunsPreserveOrder(p, c, c', ts[..n], us[..n]);
      if ts[n].Sampled? {
        NextMonotone(p, AfterTicks(p, c, ts[..n]), AfterTicks(p, c', us[..n]), ts[n].load, us[n].load);
      }
    }
  }

  /** Under the same ticks, two monitors never drift apart. */
  lemma {:induction false} GapNeverGrows(p: Policy, c: nat, c': nat, ts: seq<Tick>)
    requires p.Valid() && InRange(p, c) && InRange(p, c') && c <= c'
    ensures 0 <= AfterTicks(p, c', ts) - AfterTicks(p, c, ts) <= c' - c
    decreases |ts|
  {
    if ts != [] {
      var n := |ts| - 1;
      GapNeverGrows(p, c, c', ts[..n]);
      if ts[n].Sampled? {
        NextMonotone(p, AfterTicks(p, c, ts[..n]), AfterTicks(p, c', ts[..n]), ts[n].load, ts[n].load);
      }
    }
  }
}
