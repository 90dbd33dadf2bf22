/** What a call is granted after the capacity and the rate have been changed, and where tokens are spilled. */
module TokenBucketChanges {
  import opened Arithmetic
  import opened Bytes
  import opened TokenBuckets
  import opened TokenBucketRuns

  /** Whole tokens due at `now` at the given rate, as the narrowing cast leaves them. */
  function Due(b: Bucket, rate: nat, now: nat): nat {
    if now > b.last then rate * (now - b.last) / 1_000_000_000 % 0x1_0000_0000_0000_0000 else 0
  }

  /** Exactly which calls are granted: those the tokens cover, alone or, within the capacity, with what is due. */
  lemma GrantIff(b: Bucket, n: u64, now: u64)
    requires b.Valid()
    ensures TryConsume(b, n, now).1 == Granted <==>
            n <= b.tokens || (n <= b.capacity && n <= b.tokens + Due(b, b.rate, now))
  {
    assert (now - b.last) * b.rate == b.rate * (now - b.last);
  }

  /** A new rate keeps the tokens and the capacity, and what is due is due at the new rate. */
  lemma RetunedGrantIff(b: Bucket, rate: u64, n: u64, now: u64)
    requires b.Valid()
    ensures TryConsume(WithRate(b, rate), n, now).1 == Granted <==>
            n <= b.tokens || (n <= b.capacity && n <= b.tokens + Due(b, rate, now))
  {
    GrantIff(WithRate(b, rate), n, now);
  }

  /** A new capacity keeps the tokens that fit it, and what is due is due at the old rate. */
  lemma ResizedGrantIff(b: Bucket, capacity: u64, n: u64, now: u64)
    requires b.Valid()
    ensures TryConsume(WithCapacity(b, capacity), n, now).1 == Granted <==>
            n <= capacity && n <= b.tokens + Due(b, b.rate, now)
  {
    GrantIff(WithCapacity(b, capacity), n, now);
  }

  /** Changes of rate and capacity, and no calls. */
  predicate OnlyChanges(ops: seq<Op>) {
    forall i :: 0 <= i < |ops| ==> !ops[i].Consume?
  }

  /** `n` tokens fit every capacity set on the way. */
  predicate FitsAll(n: nat, ops: seq<Op>) {
    forall i :: 0 <= i < |ops| && ops[i].Resize? ==> n <= ops[i].capacity
  }

  lemma {:induction false} ChangesKeepTokens(s: Ledger, ops: seq<Op>, n: nat)
    requires s.b.Valid() && OnlyChanges(ops)
    ensures var r := Run(s, ops).b;
            r.last == s.b.last && (n <= r.tokens <==> n <= s.b.tokens && FitsAll(n, ops))
    decreases |ops|
  {
    if ops != [] {
      var before, op := ops[..|ops| - 1], ops[|ops| - 1];
      ChangesKeepTokens(s, before, n);
      assert !op.Consume?;
      assert FitsAll(n, ops) <==> FitsAll(n, before) && (op.Resize? ==> n <= op.capacity);
    }
  }

  /**
   However the rate and the capacity are changed: a call at an instant that earns nothing is
   granted exactly when the tokens held before cover it and every capacity set since holds it.
   */
  lemma ChangesGrantIff(s: Ledger, ops: seq<Op>, n: u64, now: u64)
    requires s.b.Valid() && OnlyChanges(ops) && Due(s.b, Run(s, ops).b.rate, now) == 0
    ensures TryConsume(Run(s, ops).b, n, now).1 == Granted <==> n <= s.b.tokens && FitsAll(n, ops)
  {
    ChangesKeepTokens(s, ops, n);
    GrantIff(Run(s, ops).b, n, now);
  }

  /** A resize spills exactly the tokens above the new capacity, so none when the capacity grows. */
  lemma ResizeSpillsExcess(s: Ledger, capacity: u64)
    requires s.b.Valid()
    ensures var s', excess := Apply(s, Resize(capacity)), Max(s.b.tokens, capacity) - capacity;
            && s'.spilled == s.spilled + excess && s'.b.tokens == s.b.tokens - excess
            && s'.granted == s.granted && s'.earned == s.earned
            && (s.b.capacity <= capacity ==> excess == 0)
  {
  }

  /** A call spills exactly what is due beyond a full bucket. */
  lemma CallSpillsOverflow(s: Ledger, n: u64, now: u64)
    requires s.b.Valid()
    ensures var due := Due(s.b, s.b.rate, now);
            Apply(s, Consume(n, now)).spilled ==
            s.spilled + Max(s.b.tokens + due, s.b.capacity) - s.b.capacity
  {
    assert (now - s.b.last) * s.b.rate == s.b.rate * (now - s.b.last);
  }

  /** At rate zero a refused call is told to wait an hour, and changes nothing. */
  lemma StarvedWaitsAnHour(b: Bucket, n: u64, now: u64)
    requires b.Valid() && b.rate == 0 && n > b.tokens
    ensures TryConsume(b, n, now) == (b, Wait(3_600_000_000_000))
  {
    assert (now - b.last) * 0 == 0;
  }

  /** At any other rate, to wait for the shortfall in nanoseconds, rounded down, if 64 bits hold that. */
  lemma HintIsFloor(b: Bucket, n: u64, now: u64)
    requires b.Valid() && b.rate > 0 && TryConsume(b, n, now).1 != Granted
    ensures var (after, verdict) := TryConsume(b, n, now);
            var short := (n - after.tokens) * 1_000_000_000;
            && n > after.tokens
            && (short < b.rate * 0x1_0000_0000_0000_0000 ==>
                  b.rate * verdict.nanos <= short < b.rate * verdict.nanos + b.rate)
            && (short >= b.rate * 0x1_0000_0000_0000_0000 ==> verdict.nanos == 0xffff_ffff_ffff_ffff)
  {
    var short := (n - TryConsume(b, n, now).0.tokens) * NANOS;
    FloorBounds(short, b.rate);
    if short < b.rate * TWO64 {
      if short / b.rate >= TWO64 {
        MulMonotone(b.rate, TWO64, short / b.rate);
      }
    } else {
      FlooredAtLeast(TWO64, short, b.rate);
    }
  }
}
