/** Bursts of a bucket that is retuned while it is used: what any window of calls can be granted. */
module TokenBucketRetuning {
  import opened Arithmetic
  import opened Bytes
  import opened TokenBuckets
  import opened TokenBucketRuns

  /** The window `[from, end]`: every call falls in it, in any order. */
  predicate CallsWithin(ops: seq<Op>, from: nat, end: nat) {
    forall i :: 0 <= i < |ops| && ops[i].Consume? ==> from <= ops[i].now <= end
  }

  predicate CapacitiesWithin(ops: seq<Op>, cap: nat) {
    forall i :: 0 <= i < |ops| && ops[i].Resize? ==> ops[i].capacity <= cap
  }

  // ----- Twice the capacity -----

  /**
   The books of a window that started at `from` with `held` tokens and `before` granted: until
   the first credit only those tokens go out, and that credit leaves at most a full bucket.
   */
  predicate Windowed(s: Ledger, before: nat, held: nat, from: nat, end: nat, cap: nat, hi: nat) {
    && s.b.Valid() && s.b.rate <= hi && s.b.capacity <= cap && before <= s.granted
    && (s.granted + s.b.tokens <= before + held ||
        (from <= s.b.last <= end &&
         NANOS * (s.granted + s.b.tokens - before) <= (held + cap) * NANOS + hi * (s.b.last - from)))
  }

  lemma CallKeepsWindow(s: Ledger, n: u64, now: u64, before: nat, held: nat, from: nat, end: nat, cap: nat, hi: nat)
    requires Windowed(s, before, held, from, end, cap, hi) && from <= now <= end
    ensures Windowed(Apply(s, Consume(n, now)), before, held, from, end, cap, hi)
  {
    if Earned(s.b, now) > 0 {
      MulMonotone(hi, 0, now - from);
      assert hi * 0 == 0;
      if s.granted + s.b.tokens > before + held {
        CreditBounds(s.b, now, 0, hi);
        MulSplit(hi, from, s.b.last, now);
      }
    }
  }

  lemma {:induction false} WindowedRun(s: Ledger, ops: seq<Op>, from: nat, end: nat, cap: nat, hi: nat)
    requires s.b.Valid() && s.b.rate <= hi && s.b.capacity <= cap
    requires RatesWithin(ops, 0, hi) && CapacitiesWithin(ops, cap) && CallsWithin(ops, from, end)
    ensures Windowed(Run(s, ops), s.granted, s.b.tokens, from, end, cap, hi)
    decreases |ops|
  {
    if ops != [] {
      var before, op := ops[..|ops| - 1], ops[|ops| - 1];
      WindowedRun(s, before, from, end, cap, hi);
      match op
      case Consume(n, now) => CallKeepsWindow(Run(s, before), n, now, s.granted, s.b.tokens, from, end, cap, hi);
      case Retune(_) => assert ops[|ops| - 1].Retune?;
      case Resize(_) => assert ops[|ops| - 1].Resize?;
    }
  }

  /**
   The burst bound under live retuning and resizing, from any state and for any window: the
   tokens held, one capacity, and the highest rate times the length of the window.
   */
  lemma RetunedWindowBound(s: Ledger, ops: seq<Op>, from: nat, end: nat, cap: nat, hi: nat)
    requires s.b.Valid() && s.b.rate <= hi && s.b.capacity <= cap && from <= end
    requires RatesWithin(ops, 0, hi) && CapacitiesWithin(ops, cap) && CallsWithin(ops, from, end)
    ensures s.granted <= Run(s, ops).granted
    ensures NANOS * (Run(s, ops).granted - s.granted) <= (s.b.tokens + cap) * NANOS + hi * (end - from)
  {
    var r := Run(s, ops);
    WindowedRun(s, ops, from, end, cap, hi);
    MulMonotone(hi, 0, end - from);
    assert hi * 0 == 0;
    if r.granted + r.b.tokens > s.granted + s.b.tokens {
      MulMonotone(hi, r.b.last - from, end - from);
    }
  }

  /** Paused, spent, resumed at the given rate, and spent again in the same instant. */
  function PauseAndResume(capacity: u64, rate: u64, now: u64): seq<Op> {
    [Consume(capacity, now), Retune(rate), Consume(capacity, now)]
  }

  lemma RunOfThree(s: Ledger, x: Op, y: Op, z: Op)
    requires s.b.Valid()
    ensures Run(s, [x, y, z]) == Apply(Apply(Apply(s, x), y), z)
  {
    var ops := [x, y, z];
    assert ops[..2] == [x, y] && [x, y][..1] == [x] && [x][..0] == [];
    assert Run(s, [x]) == Apply(s, x);
    assert Run(s, [x, y]) == Apply(Apply(s, x), y);
  }

  /**
   The bound is attained, in a window of no length, at every capacity and rate: a bucket paused
   at rate zero dates nothing, so the new rate reaches back over the whole pause.
   */
  lemma TwiceTheCapacity(capacity: u64, rate: u64, now: u64)
    requires capacity * NANOS <= rate * now < TWO64 * NANOS
    ensures CallsWithin(PauseAndResume(capacity, rate, now), now, now)
    ensures Run(Start(capacity, 0, 0), PauseAndResume(capacity, rate, now)).granted == 2 * capacity
  {
    var s := Start(capacity, 0, 0);
    RunOfThree(s, Consume(capacity, now), Retune(rate), Consume(capacity, now));
    assert now * 0 == 0 && Earned(s.b, now) == 0;
    var spent := Ledger(Bucket(capacity, 0, 0, 0), capacity, 0, 0);
    assert Apply(s, Consume(capacity, now)) == spent;
    var resumed := Bucket(capacity, rate, 0, 0);
    assert Apply(spent, Retune(rate)) == spent.(b := resumed);
    FullAgain(resumed, now);
  }

  lemma FullAgain(b: Bucket, now: u64)
    requires b == Bucket(b.capacity, b.rate, 0, 0)
    requires b.capacity * NANOS <= b.rate * now < TWO64 * NANOS
    ensures Refilled(b, now).tokens == b.capacity
  {
    if now > 0 {
      NoTruncation(b, now);
      assert (now - b.last) * b.rate == b.rate * now;
      FlooredAtLeast(b.capacity, b.rate * now, NANOS);
    } else {
      assert b.rate * 0 == 0;
    }
  }

  // ----- When one capacity and a token is still the bound -----

  /** Time that earns nothing at the rate. */
  predicate Silent(rate: nat, d: int) {
    rate * d < NANOS
  }

  /** The two rates earn their first token after the same number of nanoseconds. */
  predicate SameFirstToken(r1: nat, r2: nat) {
    if r1 == 0 || r2 == 0 then r1 == r2 else (NANOS - 1) / r1 == (NANOS - 1) / r2
  }

  predicate SameFirstTokens(rates: set<u64>) {
    forall r1, r2 :: r1 in rates && r2 in rates ==> SameFirstToken(r1, r2)
  }

  lemma SilentIff(rate: nat, d: int)
    requires rate > 0
    ensures Silent(rate, d) <==> d <= (NANOS - 1) / rate
  {
    var most := (NANOS - 1) / rate;
    FloorBounds(NANOS - 1, rate);
    if d <= most {
      MulMonotone(rate, d, most);
    } else {
      MulMonotone(rate, most + 1, d);
    }
  }

  lemma SilentTogether(r1: nat, r2: nat, d: int)
    requires SameFirstToken(r1, r2) && Silent(r1, d)
    ensures Silent(r2, d)
  {
    if r1 > 0 {
      SilentIff(r1, d);
      SilentIff(r2, d);
    }
  }

  /** Calls, and retuning to the given rates. */
  predicate Between(ops: seq<Op>, rates: set<u64>) {
    forall i :: 0 <= i < |ops| ==> ops[i].Consume? || (ops[i].Retune? && ops[i].rate in rates)
  }

  predicate Bounded(rates: set<u64>, hi: nat) {
    forall r :: r in rates ==> r <= hi
  }

  /** Switching among the rates keeps the bound of one rate, in every window and from every state. */
  ghost predicate OneBurst(capacity: u64, rates: set<u64>, hi: nat) {
    forall s: Ledger, ops: seq<Op>, from: nat, end: nat ::
      s.b.Valid() && s.b.capacity == capacity && s.b.rate in rates && from <= end
      && Between(ops, rates) && CallsWithin(ops, from, end) ==>
        NANOS * (Run(s, ops).granted - s.granted) < (capacity + 1) * NANOS + hi * (end - from)
  }

  /** As `Windowed`: what goes out before the first credit leaves only silent time behind it. */
  predicate Narrow(s: Ledger, before: nat, from: nat, end: nat, rates: set<u64>, hi: nat) {
    && s.b.Valid() && s.b.rate in rates && s.b.rate <= hi && before <= s.granted
    && ((s.granted + s.b.tokens <= before + s.b.capacity &&
         (s.granted > before ==> forall r :: r in rates ==> Silent(r, from - s.b.last))) ||
        WithinOneBurst(s, before, from, end, hi))
  }

  predicate WithinOneBurst(s: Ledger, before: nat, from: nat, end: nat, hi: nat) {
    && from <= s.b.last <= end
    && NANOS * (s.granted + s.b.tokens - before) < (s.b.capacity + 1) * NANOS + hi * (s.b.last - from)
  }

  lemma CreditAfterSilence(k: nat, rate: nat, hi: nat, from: nat, last: nat, now: nat)
    requires NANOS * k <= rate * (now - last) && rate <= hi && from <= now && Silent(rate, from - last)
    ensures NANOS * k < NANOS + hi * (now - from)
  {
    MulMonotone(now - from, rate, hi);
    assert rate * (now - last) == rate * (now - from) + rate * (from - last);
    assert (now - from) * rate == rate * (now - from) && (now - from) * hi == hi * (now - from);
  }

  /** What a crediting call does to the books. */
  lemma CreditingCall(s: Ledger, n: u64, now: u64)
    requires s.b.Valid() && Earned(s.b, now) > 0
    ensures var s', k := Apply(s, Consume(n, now)), Credited(s.b, now);
            && s'.b.Valid() && s'.b.last == now && s'.b.rate == s.b.rate && s'.b.capacity == s.b.capacity
            && s.granted <= s'.granted
            && s'.granted + s'.b.tokens <= s.granted + s.b.capacity
            && s'.granted + s'.b.tokens <= s.granted + s.b.tokens + k
            && NANOS * k <= s.b.rate * (now - s.b.last)
  {
    CreditBounds(s.b, now, 0, s.b.rate);
  }

  lemma LaterCredit(k: nat, rate: nat, hi: nat, from: nat, last: nat, now: nat)
    requires NANOS * k <= rate * (now - last) && rate <= hi && from <= last <= now
    ensures NANOS * k + hi * (last - from) <= hi * (now - from)
  {
    MulSplit(hi, from, last, now);
    MulMonotone(now - last, rate, hi);
    assert (now - last) * hi == hi * (now - last) && (now - last) * rate == rate * (now - last);
  }

  lemma FirstCreditKeepsNarrow(s: Ledger, n: u64, now: u64, before: nat, from: nat, end: nat, rates: set<u64>, hi: nat)
    requires Narrow(s, before, from, end, rates, hi) && from <= now <= end && Earned(s.b, now) > 0
    requires s.granted + s.b.tokens <= before + s.b.capacity
    ensures Narrow(Apply(s, Consume(n, now)), before, from, end, rates, hi)
  {
    CreditingCall(s, n, now);
    var s', k := Apply(s, Consume(n, now)), Credited(s.b, now);
    if s.granted > before {
      CreditAfterSilence(k, s.b.rate, hi, from, s.b.last, now);
      OneBurstHolds(s', before, k, from, end, hi);
    } else {
      MulMonotone(hi, 0, now - from);
      assert hi * 0 == 0;
      OneBurstHolds(s', before, 0, from, end, hi);
    }
  }

  lemma OneBurstHolds(s: Ledger, before: nat, k: nat, from: nat, end: nat, hi: nat)
    requires s.granted + s.b.tokens <= before + s.b.capacity + k && from <= s.b.last <= end
    requires NANOS * k < NANOS + hi * (s.b.last - from)
    ensures WithinOneBurst(s, before, from, end, hi)
  {
  }

  lemma CreditKeepsNarrow(s: Ledger, n: u64, now: u64, before: nat, from: nat, end: nat, rates: set<u64>, hi: nat)
    requires Narrow(s, before, from, end, rates, hi) && from <= now <= end && Earned(s.b, now) > 0
    ensures Narrow(Apply(s, Consume(n, now)), before, from, end, rates, hi)
  {
    if s.granted + s.b.tokens <= before + s.b.capacity {
      FirstCreditKeepsNarrow(s, n, now, before, from, end, rates, hi);
    } else {
      CreditingCall(s, n, now);
      LaterCredit(Credited(s.b, now), s.b.rate, hi, from, s.b.last, now);
    }
  }

  lemma NothingEarned(b: Bucket, from: nat, now: u64)
    requires from <= now && Earned(b, now) == 0
    ensures Silent(b.rate, from - b.last)
  {
    MulMonotone(b.rate, from - b.last, now - b.last);
    if now <= b.last {
      MulMonotone(b.rate, now - b.last, 0);
      assert b.rate * 0 == 0;
    } else {
      assert (now - b.last) * b.rate == b.rate * (now - b.last);
    }
  }

  lemma CallKeepsNarrow(s: Ledger, n: u64, now: u64, before: nat, from: nat, end: nat, rates: set<u64>, hi: nat)
    requires Narrow(s, before, from, end, rates, hi) && from <= now <= end && SameFirstTokens(rates)
    ensures Narrow(Apply(s, Consume(n, now)), before, from, end, rates, hi)
  {
    if Earned(s.b, now) > 0 {
      CreditKeepsNarrow(s, n, now, before, from, end, rates, hi);
    } else {
      NothingEarned(s.b, from, now);
      forall r | r in rates
        ensures Silent(r, from - s.b.last)
      {
        SilentTogether(s.b.rate, r, from - s.b.last);
      }
    }
  }

  lemma {:induction false} NarrowRun(s: Ledger, ops: seq<Op>, from: nat, end: nat, rates: set<u64>, hi: nat)
    requires s.b.Valid() && s.b.rate in rates && SameFirstTokens(rates) && Bounded(rates, hi)
    requires Between(ops, rates) && CallsWithin(ops, from, end)
    ensures Narrow(Run(s, ops), s.granted, from, end, rates, hi) && Run(s, ops).b.capacity == s.b.capacity
    decreases |ops|
  {
    if ops != [] {
      var before, op := ops[..|ops| - 1], ops[|ops| - 1];
      NarrowRun(s, before, from, end, rates, hi);
      if op.Consume? {
        CallKeepsNarrow(Run(s, before), op.n, op.now, s.granted, from, end, rates, hi);
      }
    }
  }

  lemma {:induction false} NothingToGrant(s: Ledger, ops: seq<Op>, rates: set<u64>)
    requires s.b.Valid() && s.b.capacity == 0 && Between(ops, rates)
    ensures Run(s, ops).granted == s.granted && Run(s, ops).b.capacity == 0
    decreases |ops|
  {
    if ops != [] {
      NothingToGrant(s, ops[..|ops| - 1], rates);
    }
  }

  lemma NarrowIsOneBurst(s: Ledger, before: nat, from: nat, end: nat, rates: set<u64>, hi: nat)
    requires Narrow(s, before, from, end, rates, hi) && from <= end
    ensures NANOS * (s.granted - before) < (s.b.capacity + 1) * NANOS + hi * (end - from)
  {
    MulMonotone(hi, 0, end - from);
    assert hi * 0 == 0;
    if s.granted + s.b.tokens > before + s.b.capacity {
      MulMonotone(hi, s.b.last - from, end - from);
    }
  }

  /** A run that breaks the bound: the faster rate has a token due where the slower had none. */
  lemma TokenTooMany(capacity: u64, slow: u64, fast: u64, wait: u64)
    requires capacity > 0 && Silent(slow, wait) && NANOS <= fast * wait < TWO64 * NANOS
    ensures var ops := [Consume(capacity, wait), Retune(fast), Consume(1, wait)];
            Run(Start(capacity, slow, 0), ops).granted == capacity + 1
  {
    var s, x, y, z := Start(capacity, slow, 0), Consume(capacity, wait), Retune(fast), Consume(1, wait);
    RunOfThree(s, x, y, z);
    assert (wait - s.b.last) * slow == slow * wait;
    var spent := Ledger(Bucket(capacity, slow, 0, 0), capacity, 0, 0);
    assert Earned(s.b, wait) == 0 && Apply(s, x) == spent;
    var resumed := Bucket(capacity, fast, 0, 0);
    assert Apply(spent, y) == spent.(b := resumed);
    TokenIsDue(resumed, wait);
  }

  lemma TokenIsDue(b: Bucket, wait: u64)
    requires b.capacity > 0 && b.last == 0 && NANOS <= b.rate * wait < TWO64 * NANOS
    ensures Refilled(b, wait).tokens >= 1
  {
    assert (wait - b.last) * b.rate == b.rate * wait;
    if wait > 0 {
      NoTruncation(b, wait);
    }
  }

  lemma SlowerIsSilent(r1: nat, r2: nat) returns (slow: nat, fast: nat, wait: nat)
    requires !SameFirstToken(r1, r2)
    ensures (slow == r1 && fast == r2) || (slow == r2 && fast == r1)
    ensures wait <= NANOS && Silent(slow, wait) && !Silent(fast, wait)
  {
    if r1 == 0 || (r2 != 0 && (NANOS - 1) / r1 > (NANOS - 1) / r2) {
      slow, fast := r1, r2;
    } else {
      slow, fast := r2, r1;
    }
    wait := FirstToken(fast);
    SilentIff(fast, wait);
    if slow > 0 {
      SilentIff(slow, wait);
    } else {
      assert slow * wait == 0;
    }
    FloorBounds(NANOS - 1, fast);
    MulAtLeast(fast, (NANOS - 1) / fast);
  }

  /** Both rates are tried: in a window of no length, the capacity and one token more go out. */
  lemma OneTokenTooMany(capacity: u64, rates: set<u64>, r1: u64, r2: u64, hi: nat)
    requires capacity > 0 && r1 in rates && r2 in rates && !SameFirstToken(r1, r2)
    ensures !OneBurst(capacity, rates, hi)
  {
    var slow, fast, wait := SlowerIsSilent(r1, r2);
    var s := Start(capacity, slow, 0);
    var ops := [Consume(capacity, wait), Retune(fast), Consume(1, wait)];
    MulMonotone(fast, wait, NANOS);
    TokenTooMany(capacity, slow, fast, wait);
    assert Between(ops, rates) && CallsWithin(ops, wait, wait);
    assert hi * (wait - wait) == 0;
  }

  /**
   Retuning among the given rates keeps the burst bound of a fixed rate if and only if the
   capacity is zero or all of them earn their first token after the same number of nanoseconds.
   */
  lemma OneBurstIff(capacity: u64, rates: set<u64>, hi: nat)
    requires Bounded(rates, hi)
    ensures OneBurst(capacity, rates, hi) <==> capacity == 0 || SameFirstTokens(rates)
  {
    if capacity == 0 || SameFirstTokens(rates) {
      forall s: Ledger, ops: seq<Op>, from: nat, end: nat |
        s.b.Valid() && s.b.capacity == capacity && s.b.rate in rates && from <= end
        && Between(ops, rates) && CallsWithin(ops, from, end)
        ensures NANOS * (Run(s, ops).granted - s.granted) < (capacity + 1) * NANOS + hi * (end - from)
      {
        if capacity == 0 {
          NothingToGrant(s, ops, rates);
          MulMonotone(hi, 0, end - from);
          assert hi * 0 == 0;
        } else {
          NarrowRun(s, ops, from, end, rates, hi);
          NarrowIsOneBurst(Run(s, ops), s.granted, from, end, rates, hi);
        }
      }
    } else {
      var r1, r2 :| r1 in rates && r2 in rates && !SameFirstToken(r1, r2);
      OneTokenTooMany(capacity, rates, r1, r2, hi);
    }
  }
}
