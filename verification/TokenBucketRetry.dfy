/** What the wait hint of a refused call is worth to a caller that sleeps and retries. */
module TokenBucketRetry {
  import opened Arithmetic
  import opened Bytes
  import opened TokenBuckets

  /** A refused call: the bucket it leaves, and the tokens it was short of. */
  predicate Refused(b: Bucket, n: u64, now: u64) {
    b.Valid() && TryConsume(b, n, now).1 != Granted
  }

  function Left(b: Bucket, n: u64, now: u64): Bucket {
    TryConsume(b, n, now).0
  }

  function Needed(b: Bucket, n: u64): int {
    n - b.tokens
  }

  /** The hint of a refused call. */
  function HintOf(b: Bucket, n: u64, now: u64): nat
    requires Refused(b, n, now)
  {
    TryConsume(b, n, now).1.nanos
  }

  /** A retry never succeeds if the request exceeds the capacity. */
  lemma NeverAboveCapacity(b: Bucket, n: u64, now: u64)
    requires b.Valid() && n > b.capacity
    ensures Refused(b, n, now)
  {
  }

  /**
   Exactly when a retry is granted: when rate times the time since the last credited
   instant covers the shortfall, to the nanosecond.
   */
  lemma RetryIff(b: Bucket, n: u64, now: u64)
    requires b.Valid() && b.tokens < n <= b.capacity && now >= b.last
    requires b.rate * (now - b.last) < TWO64 * NANOS
    ensures TryConsume(b, n, now).1 == Granted <==> b.rate * (now - b.last) >= Needed(b, n) * NANOS
  {
    var x := b.rate * (now - b.last);
    if now == b.last {
      assert b.rate * 0 == 0;
    } else {
      NoTruncation(b, now);
      assert (now - b.last) * b.rate == x;
      FloorBounds(x, NANOS);
    }
  }

  /**
   The same with the narrowing cast, for any instant: what must cover the shortfall is the
   tokens earned modulo 2^64.
   */
  lemma RetryIffWithCast(b: Bucket, n: u64, now: u64)
    requires b.Valid() && b.tokens < n
    ensures TryConsume(b, n, now).1 == Granted <==>
            n <= b.capacity && now > b.last && b.rate * (now - b.last) / NANOS % TWO64 >= Needed(b, n)
  {
    assert (now - b.last) * b.rate == b.rate * (now - b.last);
  }

  /**
   The cast forgets: told not to wait, this caller is granted a nanosecond later but refused
   after two seconds, when exactly 2^64 tokens were earned, and that refusal dates the bucket.
   */
  lemma CastForgets()
    ensures var b := Bucket(1, TWO64 / 2, 0, 0);
            && TryConsume(b, 1, 0) == (b, Wait(0))
            && TryConsume(b, 1, 1).1 == Granted
            && TryConsume(b, 1, 2 * NANOS) == (b.(last := 2 * NANOS), Wait(0))
  {
    var b := Bucket(1, TWO64 / 2, 0, 0);
    assert Earned(b, 2 * NANOS) == TWO64;
  }

  lemma HintBounds(b: Bucket, n: u64)
    requires b.tokens < n && b.rate > 0 && Needed(b, n) * NANOS / b.rate < TWO64
    ensures var h := Hint(b, n);
            h == Needed(b, n) * NANOS / b.rate && b.rate * h <= Needed(b, n) * NANOS < b.rate * h + b.rate
  {
    FloorBounds(Needed(b, n) * NANOS, b.rate);
  }

  lemma FlooredQuotient(x: nat, r: nat, d: nat)
    requires r > 0
    ensures d < x / r ==> r * d < x
    ensures d > x / r ==> r * d >= x
    ensures d == x / r ==> (r * d >= x <==> x % r == 0)
  {
    var h := x / r;
    FloorBounds(x, r);
    if d < h {
      MulMonotone(r, d + 1, h);
      assert r * (d + 1) == r * d + r;
    } else if d > h {
      MulMonotone(r, h + 1, d);
      assert r * (h + 1) == r * h + r;
    }
  }

  // ----- The first retry -----

  /** A retry at `t` is granted. */
  predicate GrantedAt(b: Bucket, n: u64, t: u64) {
    TryConsume(b, n, t).1 == Granted
  }

  /** What a refused call leaves: a shortfall, and less than one token's time uncredited. */
  lemma RefusedLeaves(b: Bucket, n: u64, now: u64)
    requires Refused(b, n, now)
    ensures var l := Left(b, n, now);
            && l.Valid() && l.tokens < n && l.capacity == b.capacity && l.rate == b.rate
            && b.last <= l.last && b.tokens <= l.tokens
            && l == Refilled(b, now) && HintOf(b, n, now) == Hint(l, n)
            && (b.last <= now ==> l.last <= now)
            && (l.last <= now ==> l.rate * (now - l.last) < NANOS)
  {
    if b.last <= now {
      RefillBounds(b, now);
    }
  }

  /** Exactly which retries are granted: what counts is the time since the last credit, not the wait. */
  lemma RetryAfterRefusalIff(b: Bucket, n: u64, now: u64, t: u64)
    requires Refused(b, n, now) && b.rate * (t - Left(b, n, now).last) < TWO64 * NANOS
    ensures var l := Left(b, n, now);
            GrantedAt(l, n, t) <==> n <= l.capacity && l.rate * (t - l.last) >= Needed(l, n) * NANOS
  {
    var l := Left(b, n, now);
    RefusedLeaves(b, n, now);
    if n > l.capacity {
      NeverAboveCapacity(l, n, t);
    } else if t < l.last {
      MulMonotone(l.rate, t - l.last, 0);
      assert l.rate * 0 == 0;
    } else {
      RetryIff(l, n, t);
    }
  }

  /**
   When the hint suffices: a token is reachable and representable, and the floor either rounds
   nothing off or is made up by uncredited time.
   */
  predicate HintEnough(l: Bucket, n: u64, now: u64)
    requires l.tokens < n
  {
    && n <= l.capacity
    && l.rate > 0
    && Needed(l, n) * NANOS / l.rate < TWO64
    && (now > l.last || (now == l.last && Needed(l, n) * NANOS % l.rate == 0))
  }

  /**
   The documentation calls the hint the minimum wait before retrying. For every refused call:
   a sole caller that waits exactly the hint is granted if and only if `HintEnough`.
   */
  lemma HintSufficesIff(b: Bucket, n: u64, now: u64)
    requires Refused(b, n, now) && now + HintOf(b, n, now) < TWO64
    ensures Left(b, n, now).tokens < n
    ensures GrantedAt(Left(b, n, now), n, now + HintOf(b, n, now)) <==> HintEnough(Left(b, n, now), n, now)
  {
    var l, h := Left(b, n, now), HintOf(b, n, now);
    RefusedLeaves(b, n, now);
    if l.rate > 0 {
      HintReach(l, n, now, h);
    }
    RetryAfterRefusalIff(b, n, now, now + h);
  }

  /** How far the hint and the uncredited time reach together. */
  lemma HintReach(l: Bucket, n: u64, now: u64, h: nat)
    requires l.tokens < n && l.rate > 0 && h == Hint(l, n) && now + h < TWO64
    requires l.last <= now ==> l.rate * (now - l.last) < NANOS
    ensures var short, x := Needed(l, n) * NANOS, l.rate * (now + h - l.last);
            && x < short + NANOS <= TWO64 * NANOS
            && (x >= short <==> short / l.rate < TWO64 && (now > l.last || (now == l.last && short % l.rate == 0)))
  {
    var r, short, e := l.rate, Needed(l, n) * NANOS, now - l.last;
    FlooredQuotient(short, r, h);
    assert r * (h + e) == r * h + r * e;
    FloorBounds(short, r);
    if short / r >= TWO64 {
      MulMonotone(r, e, 0);
      assert r * 0 == 0;
    } else if e > 0 {
      MulMonotone(r, 1, e);
    } else if e < 0 {
      MulMonotone(r, e, -1);
    } else {
      assert r * 0 == 0;
    }
  }

  /** `h` is the least wait after which a retry is granted. */
  ghost predicate IsLeastWait(l: Bucket, n: u64, now: u64, h: nat)
    requires now + h < TWO64
  {
    && GrantedAt(l, n, now + h)
    && forall t: u64 :: now <= t < now + h ==> !GrantedAt(l, n, t)
  }

  /** The uncredited time is exactly what the floor rounded off, to the nanosecond. */
  predicate FloorMadeUp(l: Bucket, n: u64, now: u64)
    requires l.tokens < n && l.rate > 0
  {
    now == l.last + if Needed(l, n) * NANOS % l.rate == 0 then 0 else 1
  }

  lemma NoneEarlier(l: Bucket, n: u64, now: u64, t: u64)
    requires l.tokens < n && HintEnough(l, n, now) && FloorMadeUp(l, n, now)
    requires now <= t < now + Hint(l, n)
    ensures l.rate * (t - l.last) < Needed(l, n) * NANOS
  {
    var short, h := Needed(l, n) * NANOS, Hint(l, n);
    FloorBounds(short, l.rate);
    assert short == l.rate * h + short % l.rate;
    if short % l.rate == 0 {
      FlooredQuotient(short, l.rate, t - l.last);
    } else {
      MulMonotone(l.rate, t - l.last, h);
    }
  }

  lemma OneEarlier(l: Bucket, n: u64, now: u64, t: u64)
    requires l.tokens < n && HintEnough(l, n, now) && !FloorMadeUp(l, n, now)
    requires t == now + Hint(l, n) - 1 && Hint(l, n) > 0
    ensures l.rate * (t - l.last) >= Needed(l, n) * NANOS
  {
    var short, h := Needed(l, n) * NANOS, Hint(l, n);
    FloorBounds(short, l.rate);
    assert short == l.rate * h + short % l.rate;
    if short % l.rate == 0 {
      MulMonotone(l.rate, h, t - l.last);
    } else {
      MulMonotone(l.rate, h + 1, t - l.last);
      assert l.rate * (h + 1) == l.rate * h + l.rate;
    }
  }

  /**
   And it is the minimum if and only if, besides, the uncredited time makes up exactly what
   the floor rounded off: none if the rate divides the shortfall in nano-tokens, one
   nanosecond if it does not.
   */
  lemma HintIsLeastIff(b: Bucket, n: u64, now: u64)
    requires Refused(b, n, now) && now + HintOf(b, n, now) < TWO64
    ensures Left(b, n, now).tokens < n
    ensures var l, h := Left(b, n, now), HintOf(b, n, now);
            IsLeastWait(l, n, now, h) <==> HintEnough(l, n, now) && (h == 0 || FloorMadeUp(l, n, now))
  {
    var l, h := Left(b, n, now), HintOf(b, n, now);
    RefusedLeaves(b, n, now);
    HintSufficesIff(b, n, now);
    if HintEnough(l, n, now) && h > 0 {
      HintReach(l, n, now, h);
      if FloorMadeUp(l, n, now) {
        forall t: u64 | now <= t < now + h
          ensures !GrantedAt(l, n, t)
        {
          NoneEarlier(l, n, now, t);
          RetryAfterRefusalIff(b, n, now, t);
        }
      } else {
        var t: u64 := now + h - 1;
        OneEarlier(l, n, now, t);
        MulMonotone(l.rate, t - l.last, now + h - l.last);
        RetryAfterRefusalIff(b, n, now, t);
      }
    }
  }

  /** Too short: three tokens a second, one token missing, nothing uncredited. */
  lemma HintTooShort()
    ensures var b := Bucket(1, 3, 0, 0);
            Refused(b, 1, 0) && HintOf(b, 1, 0) == 333_333_333 && !GrantedAt(Left(b, 1, 0), 1, 333_333_333)
  {
  }

  /** Too long, by nine tenths of a second: one token a second, refused when most of the second has passed. */
  lemma HintTooLong()
    ensures var b := Bucket(1, 1, 0, 0);
            && Refused(b, 1, 900_000_000) && HintOf(b, 1, 900_000_000) == 1_000_000_000
            && GrantedAt(Left(b, 1, 900_000_000), 1, 900_000_000 + 100_000_000)
  {
    var b := Bucket(1, 1, 0, 0);
    assert Earned(b, 900_000_000) == 0 && Refilled(b, 900_000_000) == b;
    assert Earned(b, 1_000_000_000) == 1;
  }

  /**
   The case of a caller with nothing uncredited, for any wait: less than the hint fails, one
   nanosecond more succeeds, and the hint itself succeeds exactly when the rate divides the
   shortfall in nano-tokens.
   */
  lemma HintIsExactIffDivides(b: Bucket, n: u64, d: nat)
    requires b.Valid() && b.tokens < n <= b.capacity && b.rate > 0
    requires b.last + d < TWO64 && b.rate * d < TWO64 * NANOS
    requires Needed(b, n) * NANOS / b.rate < TWO64
    ensures var h := Hint(b, n);
            && (GrantedAt(b, n, b.last + d) <==> d * b.rate >= Needed(b, n) * NANOS)
            && (d < h ==> !GrantedAt(b, n, b.last + d))
            && (d > h ==> GrantedAt(b, n, b.last + d))
            && (d == h ==> (GrantedAt(b, n, b.last + d) <==> Needed(b, n) * NANOS % b.rate == 0))
  {
    RetryIff(b, n, b.last + d);
    HintBounds(b, n);
    FlooredQuotient(Needed(b, n) * NANOS, b.rate, d);
    assert d * b.rate == b.rate * d;
  }

  // ----- Repeated retries -----

  lemma AllButOneDue(b: Bucket, n: u64, t: u64, x: nat)
    requires b.Valid() && b.tokens < n <= b.capacity && b.last <= t && x == b.rate * (t - b.last)
    requires (Needed(b, n) - 1) * NANOS < x < TWO64 * NANOS
    ensures TryConsume(b, n, t).1 != Granted ==> Left(b, n, t).tokens == n - 1
  {
    if t > b.last {
      NoTruncation(b, t);
      assert (t - b.last) * b.rate == x;
      FloorBounds(x, NANOS);
    }
  }

  /** After sleeping the hint, at most one token is missing. */
  lemma FirstRetry(b: Bucket, n: u64, t: u64, t': u64)
    requires b.Valid() && b.tokens < n <= b.capacity && b.last <= t
    requires 0 < b.rate <= NANOS && Needed(b, n) * NANOS / b.rate < TWO64
    requires t' >= t + Hint(b, n) && b.rate * (t' - b.last) < TWO64 * NANOS
    ensures TryConsume(b, n, t').1 != Granted ==> Left(b, n, t').tokens == n - 1
  {
    HintBounds(b, n);
    MulMonotone(b.rate, Hint(b, n), t' - b.last);
    AllButOneDue(b, n, t', b.rate * (t' - b.last));
  }

  /** One token short, a caller that sleeps the hint twice is granted. */
  lemma TwoMoreRetries(b: Bucket, n: u64, t: u64, t': u64, t'': u64)
    requires b.Valid() && b.tokens == n - 1 && n <= b.capacity && b.last <= t
    requires 0 < b.rate <= NANOS
    requires t' >= t + Hint(b, n) && b.rate * (t'' - b.last) < TWO64 * NANOS
    requires Refused(b, n, t') ==> t'' >= t' + HintOf(b, n, t')
    ensures TryConsume(b, n, t').1 == Granted || TryConsume(Left(b, n, t'), n, t'').1 == Granted
  {
    var h := Hint(b, n);
    assert Needed(b, n) == 1;
    OneTokenHint(b.rate);
    HintBounds(b, n);
    if Refused(b, n, t') {
      MulSplit(b.rate, b.last, t', t'');
      RetryIff(b, n, t');
      assert b.rate * (t' - b.last) < NANOS;
      assert (t' - b.last) * b.rate == b.rate * (t' - b.last);
      assert Left(b, n, t') == b;
      MulMonotone(b.rate, h + h, t'' - b.last);
      assert b.rate * (h + h) == b.rate * h + b.rate * h;
      RetryIff(b, n, t'');
    }
  }

  lemma OneTokenHint(rate: nat)
    requires 0 < rate <= NANOS
    ensures var h := NANOS / rate; 1 <= h <= NANOS && rate * h + rate * h >= NANOS
  {
    var h := NANOS / rate;
    FloorBounds(NANOS, rate);
    if h <= 0 {
      MulMonotone(rate, h, 0);
    } else if h > NANOS {
      MulAtLeast(rate, h);
    } else {
      MulMonotone(rate, 1, h);
    }
  }

  /**
   A sole caller refused at `t0` retries at `t1`, `t2` and `t3`, sleeping at least the hint each
   time; no number overflows.
   */
  predicate SleepsAsTold(b: Bucket, n: u64, t0: u64, t1: u64, t2: u64, t3: u64) {
    && b.last <= t0 <= t1 <= t2 <= t3
    && b.rate * (t3 - b.last) < TWO64 * NANOS
    && Refused(b, n, t0)
    && t0 + HintOf(b, n, t0) <= t1
    && var b1 := Left(b, n, t0);
       && (b.rate > 0 ==> Needed(b1, n) * NANOS / b.rate < TWO64)
       && (Refused(b1, n, t1) ==> t1 + HintOf(b1, n, t1) <= t2)
       && var b2 := Left(b1, n, t1);
          Refused(b2, n, t2) ==> t2 + HintOf(b2, n, t2) <= t3
  }

  predicate GrantedByThird(b: Bucket, n: u64, t0: u64, t1: u64, t2: u64, t3: u64) {
    var b1 := Left(b, n, t0);
    var b2 := Left(b1, n, t1);
    var b3 := Left(b2, n, t2);
    GrantedAt(b1, n, t1) || GrantedAt(b2, n, t2) || GrantedAt(b3, n, t3)
  }

  /** At any rate up to one token a nanosecond such a caller is granted by its third retry. */
  lemma ThirdRetrySucceeds(b: Bucket, n: u64, t0: u64, t1: u64, t2: u64, t3: u64)
    requires n <= b.capacity && 0 < b.rate <= NANOS
    requires SleepsAsTold(b, n, t0, t1, t2, t3)
    ensures GrantedByThird(b, n, t0, t1, t2, t3)
  {
    var b1 := Left(b, n, t0);
    RefusedLeaves(b, n, t0);
    MulMonotone(b.rate, t1 - b1.last, t3 - b.last);
    FirstRetry(b1, n, t0, t1);
    if Refused(b1, n, t1) {
      var b2 := Left(b1, n, t1);
      RefusedLeaves(b1, n, t1);
      MulMonotone(b.rate, t3 - b2.last, t3 - b.last);
      TwoMoreRetries(b2, n, t1, t2, t3);
    }
  }

  ghost predicate ThirdRetryAlways(capacity: u64, rate: u64, n: u64) {
    forall b: Bucket, t0: u64, t1: u64, t2: u64, t3: u64 ::
      b.capacity == capacity && b.rate == rate && SleepsAsTold(b, n, t0, t1, t2, t3) ==>
        GrantedByThird(b, n, t0, t1, t2, t3)
  }

  /**
   One token short, and the rate zero or above a token a nanosecond: a caller that does as told
   is refused every time.
   */
  lemma RefusedForever(capacity: u64, rate: u64, n: u64)
    requires 1 <= n <= capacity && (rate == 0 || rate > NANOS)
    ensures var b, h := Bucket(capacity, rate, n - 1, 0), if rate == 0 then STARVED_WAIT else 0;
            SleepsAsTold(b, n, 0, h, 2 * h, 3 * h) && !GrantedByThird(b, n, 0, h, 2 * h, 3 * h)
  {
    var b, h := Bucket(capacity, rate, n - 1, 0), if rate == 0 then STARVED_WAIT else 0;
    forall t: u64 | t in {0, h, 2 * h, 3 * h}
      ensures TryConsume(b, n, t) == (b, Wait(h))
    {
      assert (t - b.last) * rate == 0;
      if rate > 0 {
        ZeroHintIffTooFast(b, n);
      }
    }
    assert 3 * h * rate == 0;
  }

  /** The rate bound is exact. */
  lemma ThirdRetryIff(capacity: u64, rate: u64, n: u64)
    requires 1 <= n <= capacity
    ensures ThirdRetryAlways(capacity, rate, n) <==> 0 < rate <= NANOS
  {
    if 0 < rate <= NANOS {
      forall b: Bucket, t0: u64, t1: u64, t2: u64, t3: u64 |
        b.capacity == capacity && b.rate == rate && SleepsAsTold(b, n, t0, t1, t2, t3)
        ensures GrantedByThird(b, n, t0, t1, t2, t3)
      {
        ThirdRetrySucceeds(b, n, t0, t1, t2, t3);
      }
    } else {
      RefusedForever(capacity, rate, n);
      var h: nat := if rate == 0 then STARVED_WAIT else 0;
      assert SleepsAsTold(Bucket(capacity, rate, n - 1, 0), n, 0, h, 2 * h, 3 * h);
    }
  }

  /** Two retries are not always enough, even sleeping exactly as told each time. */
  lemma TwoRetriesMayFail(b: Bucket, b1: Bucket, b2: Bucket, b3: Bucket)
    requires b == Bucket(2, 600_000_000, 0, 0)
    requires b1 == Left(b, 2, 0) && b2 == Left(b1, 2, 3) && b3 == Left(b2, 2, 4)
    ensures Refused(b, 2, 0) && HintOf(b, 2, 0) == 3
    ensures Refused(b1, 2, 3) && HintOf(b1, 2, 3) == 1
    ensures Refused(b2, 2, 4) && HintOf(b2, 2, 4) == 1
    ensures GrantedAt(b3, 2, 5)
  {
    assert Hint(b, 2) == 3 && Hint(Bucket(2, 600_000_000, 1, 3), 2) == 1;
    assert Earned(b, 0) == 0 && Refilled(b, 0) == b && b1 == b;
    assert Earned(b, 3) == 1 && Refilled(b, 3) == Bucket(2, 600_000_000, 1, 3) == b2;
    assert Earned(b2, 4) == 0 && Refilled(b2, 4) == b2 == b3;
    assert Earned(b3, 5) == 1 && Refilled(b3, 5) == Bucket(2, 600_000_000, 2, 5);
  }

  /** That caller meets the hypotheses of `ThirdRetrySucceeds`. */
  lemma TwoRetriesAreTold(b: Bucket)
    requires b == Bucket(2, 600_000_000, 0, 0)
    ensures SleepsAsTold(b, 2, 0, 3, 4, 5)
  {
    var b1 := Left(b, 2, 0);
    var b2 := Left(b1, 2, 3);
    TwoRetriesMayFail(b, b1, b2, Left(b2, 2, 4));
  }

  /**
   Why the rate bound: the hint is zero exactly when the rate exceeds the shortfall in
   nano-tokens, and a caller that then retries at once finds the bucket unchanged, forever.
   */
  lemma ZeroHintIffTooFast(b: Bucket, n: u64)
    requires b.Valid() && b.tokens < n && b.rate > 0
    ensures TryConsume(b, n, b.last) == (b, Wait(Hint(b, n)))
    ensures Hint(b, n) == 0 <==> Needed(b, n) * NANOS < b.rate
  {
    var short := Needed(b, n) * NANOS;
    FloorBounds(short, b.rate);
    if short >= b.rate && short / b.rate <= 0 {
      MulMonotone(b.rate, short / b.rate, 0);
    }
    if short < b.rate && short / b.rate >= 1 {
      MulMonotone(b.rate, 1, short / b.rate);
    }
  }

  // ----- Polling without regard to the hint -----

  /** The bucket after polls for `n` at the given instants. */
  function AfterPolls(b: Bucket, n: u64, polls: seq<u64>): Bucket {
    if polls == [] then b else Left(AfterPolls(b, n, polls[..|polls| - 1]), n, polls[|polls| - 1])
  }

  predicate AllRefused(b: Bucket, n: u64, polls: seq<u64>) {
    polls == [] ||
    (var last := |polls| - 1;
     AllRefused(b, n, polls[..last]) && Refused(AfterPolls(b, n, polls[..last]), n, polls[last]))
  }

  /** A refused poll spills nothing and loses less than half of what it credits. */
  lemma RefusedPollKeepsHalf(l: Bucket, n: u64, t: u64)
    requires Refused(l, n, t) && n <= l.capacity && l.rate * (t - l.last) < TWO64 * NANOS
    ensures var l' := Left(l, n, t);
            && l'.tokens < n && l'.last >= l.last
            && l'.rate == l.rate && l'.capacity == l.capacity && l'.tokens >= l.tokens
            && l.rate * (l'.last - l.last) <= 2 * ((l'.tokens - l.tokens) * NANOS)
  {
    if Earned(l, t) > 0 {
      NoTruncation(l, t);
      assert (t - l.last) * l.rate == l.rate * (t - l.last);
    } else {
      assert l.rate * 0 == 0;
    }
  }

  lemma {:induction false} PollsKeepHalf(b: Bucket, n: u64, polls: seq<u64>)
    requires b.Valid() && b.tokens < n <= b.capacity && AllRefused(b, n, polls)
    requires forall i :: 0 <= i < |polls| ==> b.rate * (polls[i] - b.last) < TWO64 * NANOS
    ensures var l := AfterPolls(b, n, polls);
            && l.Valid() && l.tokens < n && l.last >= b.last
            && l.rate == b.rate && l.capacity == b.capacity && l.tokens >= b.tokens
            && b.rate * (l.last - b.last) <= 2 * ((l.tokens - b.tokens) * NANOS)
    decreases |polls|
  {
    if polls == [] {
      assert b.rate * 0 == 0;
    } else {
      var before, t := polls[..|polls| - 1], polls[|polls| - 1];
      PollsKeepHalf(b, n, before);
      var l := AfterPolls(b, n, before);
      MulMonotone(b.rate, t - l.last, t - b.last);
      RefusedPollKeepsHalf(l, n, t);
      MulSplit(b.rate, b.last, l.last, Left(l, n, t).last);
    }
  }

  lemma WhatIsLeft(done: int, left: int, gained: int, needed: int)
    requires done <= 2 * (gained * NANOS) && needed >= 1
    requires left + done >= (2 * (gained + needed) - 1) * NANOS
    ensures left >= needed * NANOS > 0
  {
  }

  lemma HalfKeptIsGranted(b: Bucket, l: Bucket, n: u64, now: u64)
    requires l.Valid() && b.tokens <= l.tokens < n <= l.capacity && b.last <= l.last && l.rate == b.rate
    requires b.rate * (l.last - b.last) <= 2 * ((l.tokens - b.tokens) * NANOS)
    requires b.rate * (now - b.last) < TWO64 * NANOS
    requires b.rate * (now - b.last) >= (2 * Needed(b, n) - 1) * NANOS
    ensures GrantedAt(l, n, now)
  {
    if now < l.last {
      MulMonotone(b.rate, now - b.last, l.last - b.last);
    } else {
      MulSplit(b.rate, b.last, l.last, now);
      WhatIsLeft(b.rate * (l.last - b.last), b.rate * (now - l.last), l.tokens - b.tokens, Needed(l, n));
      RetryIff(l, n, now);
    }
  }

  /**
   Polling gets there: however often and in whatever order of instants a sole caller has
   polled in vain, a poll is granted once rate times time covers twice the shortfall less one token.
   */
  lemma PollingIsGranted(b: Bucket, n: u64, polls: seq<u64>, now: u64)
    requires b.Valid() && b.tokens < n <= b.capacity && AllRefused(b, n, polls)
    requires forall i :: 0 <= i < |polls| ==> b.rate * (polls[i] - b.last) < TWO64 * NANOS
    requires b.rate * (now - b.last) < TWO64 * NANOS
    requires b.rate * (now - b.last) >= (2 * Needed(b, n) - 1) * NANOS
    ensures GrantedAt(AfterPolls(b, n, polls), n, now)
  {
    PollsKeepHalf(b, n, polls);
    HalfKeptIsGranted(b, AfterPolls(b, n, polls), n, now);
  }
}
