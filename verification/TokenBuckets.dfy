/** The I/O throttle: a token bucket with whole tokens, refilled by the floor of rate times time. */
module TokenBuckets {
  import opened Arithmetic
  import opened Bytes

  const NANOS: nat := 1_000_000_000
  const STARVED_WAIT: nat := 3600 * NANOS

  /** Instants are nanoseconds on a monotonic clock. */
  datatype Bucket = Bucket(capacity: u64, rate: u64, tokens: u64, last: u64) {
    predicate Valid() { tokens <= capacity }
  }

  datatype Verdict = Granted | Wait(nanos: nat)

  function New(capacity: u64, rate: u64, now: u64): (b: Bucket)
    ensures b.Valid()
  {
    Bucket(capacity, rate, capacity, now)
  }

  /**
   Whole tokens earned by `now`, before the narrowing cast. Both factors are 64 bits wide, so
   128 bits hold the product.
   */
  function Earned(b: Bucket, now: u64): nat {
    if now <= b.last then 0 else (now - b.last) * b.rate / NANOS
  }

  /** `earned as u64` */
  function Credit(b: Bucket, now: u64): u64 {
    Earned(b, now) % TWO64
  }

  function Refilled(b: Bucket, now: u64): (r: Bucket)
    ensures b.Valid() ==> r.Valid()
    ensures r.capacity == b.capacity && r.rate == b.rate
  {
    if Earned(b, now) == 0 then b
    else b.(tokens := Min(Min(b.tokens + Credit(b, now), TWO64 - 1), b.capacity), last := now)
  }

  function Hint(b: Bucket, n: u64): nat
    requires b.tokens < n
  {
    if b.rate == 0 then STARVED_WAIT else Min((n - b.tokens) * NANOS / b.rate, TWO64 - 1)
  }

  function TryConsume(b: Bucket, n: u64, now: u64): (r: (Bucket, Verdict))
    ensures b.Valid() ==> r.0.Valid()
    ensures r.0.capacity == b.capacity && r.0.rate == b.rate
  {
    var g := Refilled(b, now);
    if g.tokens >= n then (g.(tokens := g.tokens - n), Granted) else (g, Wait(Hint(g, n)))
  }

  function WithRate(b: Bucket, rate: u64): Bucket {
    b.(rate := rate)
  }

  function WithCapacity(b: Bucket, capacity: u64): (r: Bucket)
    ensures r.Valid()
  {
    b.(capacity := capacity, tokens := Min(b.tokens, capacity))
  }

  // ----- The bucket as the callers share it -----

  class TokenBucket {
    var capacity: u64
    var refillPerSec: u64
    var tokens: u64
    var lastRefill: u64

    function Value(): Bucket
      reads this
    {
      Bucket(capacity, refillPerSec, tokens, lastRefill)
    }

    constructor (capacity: u64, refillPerSec: u64, now: u64)
      ensures Value() == New(capacity, refillPerSec, now)
    {
      this.capacity, this.refillPerSec, tokens, lastRefill := capacity, refillPerSec, capacity, now;
    }

    method SetRate(refillPerSec: u64)
      modifies this
      ensures Value() == WithRate(old(Value()), refillPerSec)
    {
      this.refillPerSec := refillPerSec;
    }

    method SetCapacity(capacity: u64)
      modifies this
      ensures Value() == WithCapacity(old(Value()), capacity)
    {
      this.capacity := capacity;
      if tokens > capacity {
        tokens := capacity;
      }
    }

    method Refill(now: u64)
      modifies this
      ensures Value() == Refilled(old(Value()), now)
    {
      if now <= lastRefill {
        return;
      }
      var elapsed := now - lastRefill;
      var earned := elapsed * refillPerSec / NANOS;
      if earned > 0 {
        var sum := tokens + earned % TWO64;
        var saturated := if sum < TWO64 then sum else TWO64 - 1;
        tokens := if saturated <= capacity then saturated else capacity;
        lastRefill := now;
      }
    }

    method TryConsumeAt(n: u64, now: u64) returns (v: Verdict)
      modifies this
      ensures (Value(), v) == TryConsume(old(Value()), n, now)
    {
      Refill(now);
      if tokens >= n {
        tokens := tokens - n;
        return Granted;
      }
      if refillPerSec == 0 {
        return Wait(STARVED_WAIT);
      }
      var needed := n - tokens;
      var nanos := needed * NANOS / refillPerSec;
      return Wait(if nanos < TWO64 then nanos else TWO64 - 1);
    }
  }

  // ----- What a refill does -----

  /** No narrowing happens if the exact product stays below 2^64 tokens. */
  lemma NoTruncation(b: Bucket, now: u64)
    requires now > b.last && b.rate * (now - b.last) < TWO64 * NANOS
    ensures Earned(b, now) < TWO64 && Credit(b, now) == Earned(b, now)
  {
    assert (now - b.last) * b.rate == b.rate * (now - b.last);
  }

  /** A refill never credits more than rate times time, and leaves less than a token of time uncredited. */
  lemma RefillBounds(b: Bucket, now: u64)
    requires b.Valid() && now >= b.last
    ensures var r := Refilled(b, now);
            && b.last <= r.last <= now
            && r.tokens * NANOS + b.rate * (now - r.last) <= b.tokens * NANOS + b.rate * (now - b.last)
            && 0 <= b.rate * (now - r.last) < NANOS
  {
    var x := b.rate * (now - b.last);
    assert (now - b.last) * b.rate == x;
    if now > b.last {
      assert Earned(b, now) == x / NANOS;
      assert Credit(b, now) <= Earned(b, now);
    }
    MulMonotone(b.rate, 0, now - b.last);
    assert b.rate * 0 == 0;
  }
}
