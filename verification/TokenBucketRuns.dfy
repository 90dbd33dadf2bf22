/**
 Whole runs of the token bucket: where every token went, how much flooring can lose, and
 how the bucket compares with an exact one.
 */
module TokenBucketRuns {
  import opened Arithmetic
  import opened Bytes
  import opened TokenBuckets

  datatype Op = Consume(n: u64, now: u64) | Retune(rate: u64) | Resize(capacity: u64)

  /** The bucket with the run's books: tokens granted, earned, and spilled by a clamp. */
  datatype Ledger = Ledger(b: Bucket, granted: nat, earned: nat, spilled: nat)

  function Credited(b: Bucket, now: u64): nat {
    if Earned(b, now) == 0 then 0 else Credit(b, now)
  }

  function Apply(s: Ledger, op: Op): Ledger
    requires s.b.Valid()
  {
    match op
    case Consume(n, now) =>
      var (b, v) := TryConsume(s.b, n, now);
      Ledger(b,
             s.granted + if v == Granted then n else 0,
             s.earned + Credited(s.b, now),
             s.spilled + (s.b.tokens + Credited(s.b, now) - Refilled(s.b, now).tokens))
    case Retune(rate) => s.(b := WithRate(s.b, rate))
    case Resize(capacity) =>
      var b := WithCapacity(s.b, capacity);
      s.(b := b, spilled := s.spilled + (s.b.tokens - b.tokens))
  }

  function Run(s: Ledger, ops: seq<Op>): (r: Ledger)
    requires s.b.Valid()
    ensures r.b.Valid()
  {
    if ops == [] then s
    else Apply(Run(s, ops[..|ops| - 1]), ops[|ops| - 1])
  }

  function Start(capacity: u64, rate: u64, t0: u64): Ledger {
    Ledger(New(capacity, rate, t0), 0, 0, 0)
  }

  predicate RatesWithin(ops: seq<Op>, lo: nat, hi: nat) {
    forall i :: 0 <= i < |ops| && ops[i].Retune? ==> lo <= ops[i].rate <= hi
  }

  /** The run's invariant, for rates within `[lo, hi]`, a first capacity `c0` and a first instant `t0`. */
  predicate Accounted(s: Ledger, c0: nat, t0: nat, lo: nat, hi: nat) {
    && s.b.Valid()
    && lo <= s.b.rate <= hi
    && t0 <= s.b.last
    // Every token is somewhere.
    && s.granted + s.b.tokens + s.spilled == c0 + s.earned
    // Flooring never creates tokens, and loses fewer than half.
    && NANOS * s.earned <= hi * (s.b.last - t0)
    && (hi * (s.b.last - t0) < TWO64 * NANOS ==> lo * (s.b.last - t0) <= 2 * (NANOS * s.earned))
  }

  lemma CreditBounds(b: Bucket, now: u64, lo: nat, hi: nat)
    requires lo <= b.rate <= hi && now > b.last && Earned(b, now) > 0
    ensures NANOS * Credited(b, now) <= hi * (now - b.last)
    ensures hi * (now - b.last) < TWO64 * NANOS ==> lo * (now - b.last) <= 2 * (NANOS * Credited(b, now))
  {
    var d := now - b.last;
    var x := b.rate * d;
    assert d * b.rate == x && d * lo == lo * d && d * hi == hi * d;
    MulMonotone(d, lo, b.rate);
    MulMonotone(d, b.rate, hi);
    FloorBounds(x, NANOS);
    if hi * d < TWO64 * NANOS {
      NoTruncation(b, now);
    }
  }

  lemma ConsumeKeepsAccounts(s: Ledger, n: u64, now: u64, c0: nat, t0: nat, lo: nat, hi: nat)
    requires Accounted(s, c0, t0, lo, hi)
    ensures Accounted(Apply(s, Consume(n, now)), c0, t0, lo, hi)
  {
    if Earned(s.b, now) > 0 {
      CreditBounds(s.b, now, lo, hi);
      MulSplit(hi, t0, s.b.last, now);
      MulSplit(lo, t0, s.b.last, now);
    }
  }

  /**
   Every interleaving of consumption, retuning and resizing, with instants in any order:
   the books balance, and what was earned is within a factor of two of rate times time.
   */
  lemma {:induction false} RunAccounted(capacity: u64, rate: u64, t0: u64, ops: seq<Op>, lo: nat, hi: nat)
    requires lo <= rate <= hi && RatesWithin(ops, lo, hi)
    ensures Accounted(Run(Start(capacity, rate, t0), ops), capacity, t0, lo, hi)
    decreases |ops|
  {
    if ops == [] {
      assert hi * 0 == 0 && lo * 0 == 0;
    } else {
      var before, op := ops[..|ops| - 1], ops[|ops| - 1];
      RunAccounted(capacity, rate, t0, before, lo, hi);
      var s := Run(Start(capacity, rate, t0), before);
      match op
      case Consume(n, now) => ConsumeKeepsAccounts(s, n, now, capacity, t0, lo, hi);
      case Retune(_) => assert ops[|ops| - 1].Retune?;
      case Resize(_) =>
    }
  }

  /** Live retuning stays bounded: a new rate reaches back only to the last refill. */
  lemma RetuningBounded(capacity: u64, rate: u64, t0: u64, ops: seq<Op>, hi: nat)
    requires rate <= hi && RatesWithin(ops, 0, hi)
    ensures var s := Run(Start(capacity, rate, t0), ops);
            s.b.tokens <= s.b.capacity && NANOS * (s.granted + s.b.tokens) <= NANOS * capacity + hi * (s.b.last - t0)
  {
    RunAccounted(capacity, rate, t0, ops, 0, hi);
  }

  /** At a fixed rate, earnings lie between half of rate times time and all of it. */
  lemma FixedRateAccounts(capacity: u64, rate: u64, t0: u64, ops: seq<Op>)
    requires forall i :: 0 <= i < |ops| ==> ops[i].Consume?
    ensures var s := Run(Start(capacity, rate, t0), ops);
            && s.granted + s.b.tokens + s.spilled == capacity + s.earned
            && NANOS * s.earned <= rate * (s.b.last - t0)
            && (rate * (s.b.last - t0) < TWO64 * NANOS ==> rate * (s.b.last - t0) <= 2 * (NANOS * s.earned))
  {
    RunAccounted(capacity, rate, t0, ops, rate, rate);
  }

  // ----- The most that flooring can lose -----

  /** The gap between polls that loses most: below a token a nanosecond, the longest that still earns one token only. */
  function WorstGap(rate: nat): nat
    requires rate > 0
  {
    if rate >= NANOS then 1 else (2 * NANOS - 1) / rate
  }

  /** What such a gap earns. */
  function WorstYield(rate: nat): nat
    requires rate > 0
  {
    if rate >= NANOS then rate / NANOS else 1
  }

  lemma WorstGapYields(rate: nat)
    requires rate > 0
    ensures WorstGap(rate) > 0 && WorstYield(rate) > 0
    ensures rate * WorstGap(rate) / NANOS == WorstYield(rate)
    ensures rate < 2 * NANOS ==> 2 * NANOS <= rate * WorstGap(rate) + rate
  {
    var gap := WorstGap(rate);
    if rate < NANOS {
      FloorBounds(2 * NANOS - 1, rate);
      if gap <= 0 {
        MulMonotone(rate, gap, 0);
      }
    }
  }

  /** No gap that earns anything has a worse yield. */
  lemma NoGapYieldsLess(rate: nat, d: nat)
    requires rate > 0 && rate * d / NANOS > 0
    ensures d * WorstYield(rate) <= rate * d / NANOS * WorstGap(rate)
  {
    var k, gap := rate * d / NANOS, WorstGap(rate);
    FloorBounds(rate * d, NANOS);
    if rate >= NANOS {
      var q := rate / NANOS;
      FloorBounds(rate, NANOS);
      MulMonotone(d, NANOS * q, rate);
      FlooredAtLeast(d * q, rate * d, NANOS);
    } else {
      WorstGapYields(rate);
      MoreGapsEarnMore(rate, gap, k);
      if d >= k * gap + 1 {
        MulMonotone(rate, k * gap + 1, d);
      }
    }
  }

  lemma MoreGapsEarnMore(rate: nat, gap: nat, k: nat)
    requires 0 < rate < NANOS && 2 * NANOS <= rate * gap + rate && k >= 1
    ensures rate * (k * gap + 1) >= (k + 1) * NANOS
  {
    MulMonotone(k, 2 * NANOS - rate, rate * gap);
    MulMonotone(NANOS - rate, 1, k);
    assert k * (rate * gap) == rate * (k * gap);
    assert k * (2 * NANOS - rate) == k * NANOS + (NANOS - rate) * k;
  }

  lemma FlooredAtLeast(k: nat, x: nat, d: nat)
    requires d > 0 && d * k <= x
    ensures k <= x / d
  {
    FloorBounds(x, d);
    if k > x / d {
      MulMonotone(d, x / d + 1, k);
    }
  }

  lemma AddYields(a: int, b: int, each: int, c: int, d: int, gap: int)
    requires a * each <= c * gap && b * each <= d * gap
    ensures (a + b) * each <= (c + d) * gap
  {
  }

  /** Up to the last credit, each `gap` earned at least `each`, if no cast truncated. */
  predicate Yields(s: Ledger, t0: nat, each: nat, gap: nat) {
    s.b.rate * (s.b.last - t0) < TWO64 * NANOS ==> (s.b.last - t0) * each <= s.earned * gap
  }

  lemma PollKeepsWorstYield(s: Ledger, n: u64, now: u64, t0: u64, each: nat, gap: nat)
    requires s.b.Valid() && s.b.rate > 0 && t0 <= s.b.last && Yields(s, t0, each, gap)
    requires each == WorstYield(s.b.rate) && gap == WorstGap(s.b.rate)
    ensures Yields(Apply(s, Consume(n, now)), t0, each, gap)
  {
    if Earned(s.b, now) > 0 && s.b.rate * (now - t0) < TWO64 * NANOS {
      var rate, d: nat := s.b.rate, now - s.b.last;
      MulSplit(rate, t0, s.b.last, now);
      NoTruncation(s.b, now);
      assert d * rate == rate * d;
      NoGapYieldsLess(rate, d);
      AddYields(s.b.last - t0, d, each, s.earned, Earned(s.b, now), gap);
    }
  }

  /**
   The exact bound at every rate: a run earns at least the worst yield for each worst gap of
   the time that it was credited for.
   */
  lemma {:induction false} WorstYieldBound(capacity: u64, rate: u64, t0: u64, ops: seq<Op>)
    requires rate > 0 && forall i :: 0 <= i < |ops| ==> ops[i].Consume?
    ensures var s := Run(Start(capacity, rate, t0), ops);
            t0 <= s.b.last && s.b.rate == rate && Yields(s, t0, WorstYield(rate), WorstGap(rate))
    decreases |ops|
  {
    if ops != [] {
      var before, op := ops[..|ops| - 1], ops[|ops| - 1];
      WorstYieldBound(capacity, rate, t0, before);
      PollKeepsWorstYield(Run(Start(capacity, rate, t0), before), op.n, op.now, t0, WorstYield(rate), WorstGap(rate));
    }
  }

  /** `k` polls, `gap` apart. */
  function Polls(k: nat, gap: nat): seq<Op>
    requires k * gap < TWO64
  {
    seq(k, i requires 0 <= i < k =>
      MulMonotone(gap, i + 1, k);
      assert (i + 1) * gap == gap * (i + 1) && k * gap == gap * k;
      Consume(0, (i + 1) * gap))
  }

  lemma NearlyTwoDue(rate: nat, gap: nat, k: nat)
    requires 2 * NANOS <= rate * gap + rate
    ensures 2 * (NANOS * k) - k * rate <= rate * (k * gap)
  {
    MulMonotone(k, 2 * NANOS - rate, rate * gap);
    assert k * (rate * gap) == rate * (k * gap);
    assert k * (2 * NANOS - rate) == 2 * (NANOS * k) - k * rate;
  }

  lemma OnePoll(s: Ledger, now: u64)
    requires s.b.Valid() && s.b.rate > 0 && now == s.b.last + WorstGap(s.b.rate)
    ensures var s' := Apply(s, Consume(0, now));
            s'.b.rate == s.b.rate && s'.b.last == now && s'.earned == s.earned + WorstYield(s.b.rate)
  {
    WorstGapYields(s.b.rate);
    assert (now - s.b.last) * s.b.rate == s.b.rate * WorstGap(s.b.rate);
    assert Earned(s.b, now) == WorstYield(s.b.rate);
  }

  lemma MulSucc(n: int, d: int)
    ensures (n + 1) * d == n * d + d
  {
  }

  lemma MulSwap(k: int, a: int, b: int)
    ensures (k * a) * b == (k * b) * a
  {
  }

  lemma LastPoll(s: Ledger, k: nat, before: nat, gap: nat)
    requires s.b.Valid() && k == before + 1 && k * gap < TWO64
    ensures before * gap <= k * gap
    ensures Run(s, Polls(k, gap)) == Apply(Run(s, Polls(before, gap)), Consume(0, k * gap))
  {
    assert k * gap == before * gap + gap;
    var ops := Polls(k, gap);
    assert ops[..|ops| - 1] == Polls(before, gap) && ops[|ops| - 1] == Consume(0, k * gap);
  }

  /**
   The bound is attained at every rate, by runs of any length polled at the worst gap. Below
   two tokens a nanosecond each poll then earns one token where two, less at most one
   nanosecond's worth, were due.
   */
  lemma {:induction false} WorstYieldIsAttained(capacity: u64, rate: u64, k: nat)
    requires rate > 0 && k * WorstGap(rate) < TWO64
    ensures var s := Run(Start(capacity, rate, 0), Polls(k, WorstGap(rate)));
            && s.b.rate == rate && s.b.last == k * WorstGap(rate) && s.earned == k * WorstYield(rate)
            && s.b.last * WorstYield(rate) == s.earned * WorstGap(rate)
            && (rate < 2 * NANOS ==> 2 * (NANOS * s.earned) - k * rate <= rate * s.b.last)
    decreases k
  {
    var gap, each := WorstGap(rate), WorstYield(rate);
    if k > 0 {
      var before: nat := k - 1;
      MulSucc(before, gap);
      MulSucc(before, each);
      WorstYieldIsAttained(capacity, rate, before);
      LastPoll(Start(capacity, rate, 0), k, before, gap);
      OnePoll(Run(Start(capacity, rate, 0), Polls(before, gap)), k * gap);
    }
    MulSwap(k, gap, each);
    if rate < 2 * NANOS {
      WorstGapYields(rate);
      NearlyTwoDue(rate, gap, k);
    }
  }

  /** Up to the last credit nothing was rounded off. */
  predicate Lossless(s: Ledger, t0: nat) {
    s.b.rate * (s.b.last - t0) < TWO64 * NANOS ==> NANOS * s.earned == s.b.rate * (s.b.last - t0)
  }

  lemma WholeRateLosesNothing(s: Ledger, n: u64, now: u64, t0: nat)
    requires s.b.Valid() && t0 <= s.b.last && s.b.rate % NANOS == 0 && Lossless(s, t0)
    ensures var s' := Apply(s, Consume(n, now)); t0 <= s'.b.last && s'.b.rate == s.b.rate && Lossless(s', t0)
  {
    var rate, q := s.b.rate, s.b.rate / NANOS;
    if Earned(s.b, now) > 0 {
      var dt: nat := now - s.b.last;
      assert rate == q * NANOS;
      assert dt * rate == (q * dt) * NANOS;
      DivModUnique(dt * rate, q * dt, 0, NANOS);
      MulSplit(rate, t0, s.b.last, now);
      assert rate * dt == dt * rate;
      if rate * (now - t0) < TWO64 * NANOS {
        NoTruncation(s.b, now);
      }
    }
  }

  ghost predicate AlwaysLossless(capacity: u64, rate: u64, t0: u64) {
    forall ops: seq<Op> :: (forall i :: 0 <= i < |ops| ==> ops[i].Consume?) ==>
      Lossless(Run(Start(capacity, rate, t0), ops), t0)
  }

  lemma {:induction false} WholeRateRun(capacity: u64, rate: u64, t0: u64, ops: seq<Op>)
    requires rate % NANOS == 0 && forall i :: 0 <= i < |ops| ==> ops[i].Consume?
    ensures var s := Run(Start(capacity, rate, t0), ops); t0 <= s.b.last && s.b.rate == rate && Lossless(s, t0)
    decreases |ops|
  {
    if ops == [] {
      assert rate * 0 == 0;
    } else {
      var before, op := ops[..|ops| - 1], ops[|ops| - 1];
      WholeRateRun(capacity, rate, t0, before);
      WholeRateLosesNothing(Run(Start(capacity, rate, t0), before), op.n, op.now, t0);
    }
  }

  /** The first wait that earns a token, below a token a nanosecond. */
  function FirstToken(rate: nat): nat
    requires rate > 0
  {
    (NANOS - 1) / rate + 1
  }

  lemma FirstTokenEarnsOne(rate: nat)
    requires 0 < rate < NANOS
    ensures var wait := FirstToken(rate);
            2 <= wait <= NANOS && rate * (wait - 1) < NANOS <= rate * wait < 2 * NANOS
  {
    var whole := (NANOS - 1) / rate;
    FloorBounds(NANOS - 1, rate);
    assert rate * (whole + 1) == rate * whole + rate;
    assert rate * whole == whole * rate;
    MulMonotone(whole, 1, rate);
    if whole <= 0 {
      MulMonotone(rate, whole, 0);
    }
  }

  /** A gap after which something is earned and something rounded off. */
  lemma LossyGap(rate: u64) returns (gap: nat)
    requires rate % NANOS != 0
    ensures 0 < gap <= NANOS + 1 && rate * gap >= NANOS && rate * gap % NANOS != 0
    ensures rate * gap < TWO64 * NANOS
  {
    if rate >= NANOS {
      gap := 1;
    } else {
      gap := FirstToken(rate);
      FirstTokenEarnsOne(rate);
      if rate * gap % NANOS == 0 {
        assert rate * (gap + 1) == rate * gap + rate;
        gap := gap + 1;
      }
    }
  }

  /**
   The rate is the steady-state rate, whatever the polling pattern, exactly when it is a whole
   number of tokens a nanosecond.
   */
  lemma LosslessIffWholeRate(capacity: u64, rate: u64, t0: u64)
    requires t0 + NANOS + 1 < TWO64
    ensures AlwaysLossless(capacity, rate, t0) <==> rate % NANOS == 0
  {
    if rate % NANOS == 0 {
      forall ops: seq<Op> | forall i :: 0 <= i < |ops| ==> ops[i].Consume?
        ensures Lossless(Run(Start(capacity, rate, t0), ops), t0)
      {
        WholeRateRun(capacity, rate, t0, ops);
      }
    } else {
      var gap := LossyGap(rate);
      var ops := [Consume(0, t0 + gap)];
      var s := Start(capacity, rate, t0);
      assert ops[..|ops| - 1] == [] && Run(s, []) == s;
      assert gap * rate == rate * gap;
      assert Earned(s.b, t0 + gap) == rate * gap / NANOS;
      NoTruncation(s.b, t0 + gap);
      assert Run(s, ops) == Apply(s, ops[0]);
    }
  }

  // ----- Calls at a fixed rate and capacity -----

  datatype Call = Call(n: u64, now: u64)

  /** The instants of the calls do not go back, nor before `from`. */
  predicate Monotone(from: nat, calls: seq<Call>)
    decreases |calls|
  {
    calls == [] || (from <= calls[0].now && Monotone(calls[0].now, calls[1..]))
  }

  /** Tokens granted over the calls. */
  function GrantedBy(b: Bucket, calls: seq<Call>): nat
    decreases |calls|
  {
    if calls == [] then 0
    else
      var (after, v) := TryConsume(b, calls[0].n, calls[0].now);
      (if v == Granted then calls[0].n else 0) + GrantedBy(after, calls[1..])
  }

  /** What the bucket could grant by `now`, in billionths of a token. */
  function Potential(b: Bucket, now: nat): int {
    b.tokens * NANOS + b.rate * (now - b.last)
  }

  lemma CallSpendsPotential(b: Bucket, n: u64, now: u64)
    requires b.Valid() && b.last <= now
    ensures var (after, v) := TryConsume(b, n, now);
            && after.last <= now
            && Potential(after, now) + NANOS * (if v == Granted then n else 0) <= Potential(b, now)
            && Potential(after, now) + NANOS * (if v == Granted then n else 0) < (b.capacity + 1) * NANOS
  {
    RefillBounds(b, now);
  }

  lemma PotentialGrows(b: Bucket, from: nat, to: nat)
    requires b.last <= from <= to
    ensures Potential(b, to) == Potential(b, from) + b.rate * (to - from)
  {
    MulSplit(b.rate, b.last, from, to);
  }

  lemma {:induction false} GrantsWithinPotential(b: Bucket, from: nat, calls: seq<Call>)
    requires b.Valid() && b.last <= from && Monotone(from, calls) && calls != []
    ensures from <= calls[|calls| - 1].now
    ensures NANOS * GrantedBy(b, calls) <= Potential(b, calls[|calls| - 1].now)
    decreases |calls|
  {
    var c, rest := calls[0], calls[1..];
    var end := calls[|calls| - 1].now;
    var (after, v) := TryConsume(b, c.n, c.now);
    CallSpendsPotential(b, c.n, c.now);
    if rest == [] {
      assert GrantedBy(b, calls) == (if v == Granted then c.n else 0) + GrantedBy(after, []);
      MulMonotone(after.rate, 0, c.now - after.last);
    } else {
      GrantsWithinPotential(after, c.now, rest);
      PotentialGrows(b, c.now, end);
      PotentialGrows(after, c.now, end);
    }
  }

  /**
   The burst bound at a fixed rate: whatever state the bucket is in, the grants in any window
   of calls stay below one token more than the capacity, plus rate times its length.
   */
  lemma WindowBound(b: Bucket, calls: seq<Call>)
    requires b.Valid() && calls != [] && Monotone(b.last, calls)
    ensures NANOS * GrantedBy(b, calls) < (b.capacity + 1) * NANOS + b.rate * (calls[|calls| - 1].now - calls[0].now)
  {
    var c, rest := calls[0], calls[1..];
    var end := calls[|calls| - 1].now;
    var (after, v) := TryConsume(b, c.n, c.now);
    CallSpendsPotential(b, c.n, c.now);
    if rest == [] {
      assert GrantedBy(b, calls) == (if v == Granted then c.n else 0) + GrantedBy(after, []);
      MulMonotone(after.rate, 0, c.now - after.last);
      assert b.rate * 0 == 0;
    } else {
      GrantsWithinPotential(after, c.now, rest);
      PotentialGrows(after, c.now, end);
    }
  }

  function After(b: Bucket, calls: seq<Call>): Bucket
    decreases |calls|
  {
    if calls == [] then b else After(TryConsume(b, calls[0].n, calls[0].now).0, calls[1..])
  }

  lemma {:induction false} AfterIsCurrent(b: Bucket, from: nat, calls: seq<Call>, later: seq<Call>)
    requires b.Valid() && b.last <= from && Monotone(from, calls + later)
    ensures var a := After(b, calls);
            a.Valid() && a.capacity == b.capacity && a.rate == b.rate && Monotone(a.last, later)
    decreases |calls|
  {
    if calls == [] {
      assert calls + later == later;
    } else {
      var c := calls[0];
      CallSpendsPotential(b, c.n, c.now);
      assert (calls + later)[1..] == calls[1..] + later;
      AfterIsCurrent(TryConsume(b, c.n, c.now).0, c.now, calls[1..], later);
    }
  }

  /** The same, for any window of any run from a fresh bucket. */
  lemma WindowOfRunBound(capacity: u64, rate: u64, t0: u64, before: seq<Call>, window: seq<Call>)
    requires window != [] && Monotone(t0, before + window)
    ensures NANOS * GrantedBy(After(New(capacity, rate, t0), before), window)
            < (capacity + 1) * NANOS + rate * (window[|window| - 1].now - window[0].now)
  {
    var b := New(capacity, rate, t0);
    AfterIsCurrent(b, t0, before, window);
    WindowBound(After(b, before), window);
  }

  // ----- The exact bucket -----

  /** A bucket that keeps fractions: `level` in billionths of a token, current as of `at`. */
  datatype Exact = Exact(level: nat, at: nat)

  function Fill(e: Exact, capacity: nat, rate: nat, now: nat): Exact
    requires e.at <= now
  {
    MulMonotone(rate, 0, now - e.at);
    Exact(Min(e.level + rate * (now - e.at), capacity * NANOS), now)
  }

  /** The exact bucket of the given capacity can afford every grant the code makes. */
  predicate Affords(e: Exact, capacity: nat, b: Bucket, calls: seq<Call>)
    requires Monotone(e.at, calls)
    decreases |calls|
  {
    calls == [] ||
    (var c := calls[0];
     var filled := Fill(e, capacity, b.rate, c.now);
     var (after, v) := TryConsume(b, c.n, c.now);
     var spent := if v == Granted then c.n * NANOS else 0;
     spent <= filled.level && Affords(Exact(filled.level - spent, c.now), capacity, after, calls[1..]))
  }

  lemma {:induction false} SimulatedAffords(e: Exact, b: Bucket, calls: seq<Call>)
    requires b.Valid() && b.last <= e.at && Monotone(e.at, calls)
    requires Potential(b, e.at) <= e.level
    ensures Affords(e, b.capacity + 1, b, calls)
    decreases |calls|
  {
    if calls != [] {
      var c := calls[0];
      var filled := Fill(e, b.capacity + 1, b.rate, c.now);
      var (after, v) := TryConsume(b, c.n, c.now);
      var spent := if v == Granted then c.n * NANOS else 0;
      PotentialGrows(b, e.at, c.now);
      CallSpendsPotential(b, c.n, c.now);
      MulMonotone(after.rate, 0, c.now - after.last);
      SimulatedAffords(Exact(filled.level - spent, c.now), after, calls[1..]);
    }
  }

  /** Dominance: an exact bucket one token larger, starting as full as the code's, affords all its grants. */
  lemma DominatedByExact(capacity: u64, rate: u64, t0: u64, calls: seq<Call>)
    requires Monotone(t0, calls)
    ensures Affords(Exact(capacity * NANOS, t0), capacity + 1, New(capacity, rate, t0), calls)
  {
    assert rate * 0 == 0;
    SimulatedAffords(Exact(capacity * NANOS, t0), New(capacity, rate, t0), calls);
  }

  /** The exact bucket of the code's own capacity affords every run of a fresh bucket. */
  ghost predicate SameCapacitySuffices(capacity: u64, rate: u64, t0: u64) {
    forall calls :: Monotone(t0, calls) ==>
      Affords(Exact(capacity * NANOS, t0), capacity, New(capacity, rate, t0), calls)
  }

  /**
   One call, when no fraction survives a full bucket: none is ever earned, none is ever left, or
   there is nothing to hold.
   */
  lemma OwnCapacityStep(e: Exact, b: Bucket, n: u64, now: u64)
    requires b.Valid() && b.last <= e.at <= now && b.tokens * NANOS <= e.level
    requires b.rate == 0 || b.rate >= NANOS || b.capacity == 0
    requires b.rate >= NANOS ==> b.last == e.at
    ensures var filled, (after, v) := Fill(e, b.capacity, b.rate, now), TryConsume(b, n, now);
            var spent := if v == Granted then n * NANOS else 0;
            && spent <= filled.level
            && after.last <= now && after.tokens * NANOS <= filled.level - spent
            && (b.rate >= NANOS ==> after.last == now)
  {
    MulMonotone(b.rate, 0, now - e.at);
    MulMonotone(b.rate, 0, now - b.last);
    assert b.rate * 0 == 0;
    RefillBounds(b, now);
    if b.rate >= NANOS && now > b.last {
      MulMonotone(b.rate, 1, now - b.last);
      assert (now - b.last) * b.rate == b.rate * (now - b.last);
      assert Earned(b, now) > 0;
    } else if b.rate == 0 {
      assert (now - b.last) * b.rate == 0;
    }
  }

  lemma {:induction false} OwnCapacityAffords(e: Exact, b: Bucket, calls: seq<Call>)
    requires b.Valid() && b.last <= e.at && Monotone(e.at, calls) && b.tokens * NANOS <= e.level
    requires b.rate == 0 || b.rate >= NANOS || b.capacity == 0
    requires b.rate >= NANOS ==> b.last == e.at
    ensures Affords(e, b.capacity, b, calls)
    decreases |calls|
  {
    if calls != [] {
      var c := calls[0];
      var filled := Fill(e, b.capacity, b.rate, c.now);
      var (after, v) := TryConsume(b, c.n, c.now);
      OwnCapacityStep(e, b, c.n, c.now);
      OwnCapacityAffords(Exact(filled.level - (if v == Granted then c.n * NANOS else 0), c.now), after, calls[1..]);
    }
  }

  /** A token a nanosecond in, and the whole capacity as soon as the start has earned a token. */
  function Greedy(capacity: u64, rate: u64, t0: u64): seq<Call>
    requires 0 < rate < NANOS && t0 + NANOS + 1 < TWO64
  {
    FirstTokenEarnsOne(rate);
    [Call(1, t0 + 1), Call(capacity, t0 + FirstToken(rate))]
  }

  lemma GreedyIsGranted(capacity: u64, rate: u64, t0: u64)
    requires t0 + NANOS + 1 < TWO64 && 0 < rate < NANOS && capacity > 0
    ensures var b, calls := New(capacity, rate, t0), Greedy(capacity, rate, t0);
            var b1 := b.(tokens := capacity - 1);
            TryConsume(b, 1, calls[0].now) == (b1, Granted) && TryConsume(b1, capacity, calls[1].now).1 == Granted
  {
    var wait, b := FirstToken(rate), New(capacity, rate, t0);
    var b1 := b.(tokens := capacity - 1);
    FirstTokenEarnsOne(rate);
    assert Earned(b, t0 + 1) == 0;
    assert wait * rate == rate * wait;
    assert Earned(b1, t0 + wait) == 1;
  }

  lemma OwnCapacityExceeded(capacity: u64, rate: u64, t0: u64)
    requires t0 + NANOS + 1 < TWO64 && 0 < rate < NANOS && capacity > 0
    ensures var calls := Greedy(capacity, rate, t0);
            Monotone(t0, calls) && !Affords(Exact(capacity * NANOS, t0), capacity, New(capacity, rate, t0), calls)
  {
    var calls, b := Greedy(capacity, rate, t0), New(capacity, rate, t0);
    var first, second := calls[0].now, calls[1].now;
    FirstTokenEarnsOne(rate);
    GreedyIsGranted(capacity, rate, t0);
    assert calls[1..] == [calls[1]];
    assert Monotone(first, calls[1..]);
    assert second - first == FirstToken(rate) - 1;
    var e1 := Exact((capacity - 1) * NANOS, first);
    assert Fill(Exact(capacity * NANOS, t0), capacity, rate, first) == Exact(capacity * NANOS, first);
    assert Fill(e1, capacity, rate, second).level < capacity * NANOS;
    assert !Affords(e1, capacity, b.(tokens := capacity - 1), calls[1..]);
  }

  /**
   When the extra token is needed, at a fixed rate: the exact bucket of the code's own capacity
   suffices for every run of calls if and only if nothing is ever earned, every nanosecond earns
   a token, or the capacity is zero. Otherwise a full bucket keeps a fraction that the exact
   one has spilled.
   */
  lemma SameCapacitySufficesIff(capacity: u64, rate: u64, t0: u64)
    requires t0 + NANOS + 1 < TWO64
    ensures SameCapacitySuffices(capacity, rate, t0) <==> rate == 0 || rate >= NANOS || capacity == 0
  {
    if rate == 0 || rate >= NANOS || capacity == 0 {
      forall calls | Monotone(t0, calls)
        ensures Affords(Exact(capacity * NANOS, t0), capacity, New(capacity, rate, t0), calls)
      {
        OwnCapacityAffords(Exact(capacity * NANOS, t0), New(capacity, rate, t0), calls);
      }
    } else {
      OwnCapacityExceeded(capacity, rate, t0);
      assert Monotone(t0, Greedy(capacity, rate, t0));
    }
  }

  /** An instance: at one token a second and capacity 1 the code grants twice within a tenth of a second. */
  lemma SameCapacityDoesNotSuffice()
    ensures var b := New(1, 1, 0);
            var calls := [Call(1, 900_000_000), Call(1, 1_000_000_000)];
            && GrantedBy(b, calls) == 2
            && Monotone(0, calls)
            && !Affords(Exact(1 * NANOS, 0), 1, b, calls)
            && NANOS * GrantedBy(b, calls) > 1 * NANOS + 1 * (calls[1].now - calls[0].now)
  {
    var b := New(1, 1, 0);
    var calls := [Call(1, 900_000_000), Call(1, 1_000_000_000)];
    var b1 := Bucket(1, 1, 0, 0);
    assert TryConsume(b, 1, 900_000_000) == (b1, Granted);
    var b2 := Bucket(1, 1, 0, 1_000_000_000);
    assert TryConsume(b1, 1, 1_000_000_000) == (b2, Granted);
    assert calls[1..] == [Call(1, 1_000_000_000)] && calls[1..][1..] == [];
    assert GrantedBy(b1, calls[1..]) == 1 + GrantedBy(b2, []);
    var e1 := Exact(0, 900_000_000);
    assert Fill(Exact(NANOS, 0), 1, 1, 900_000_000) == Exact(NANOS, 900_000_000);
    assert Fill(e1, 1, 1, 1_000_000_000) == Exact(100_000_000, 1_000_000_000);
    assert !Affords(e1, 1, b1, calls[1..]);
  }
}
