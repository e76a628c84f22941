/** One client's token bucket (src/api/rate_limit.rs), with exact real arithmetic. */
module TokenBucket {
  import opened Domain

  datatype RateLimitConfig = RateLimitConfig(burst: nat, refillPerSecond: real)

  /** Tokens left at the time of the last refill. */
  datatype Bucket = Bucket(tokens: real, lastRefill: real)

  function MinReal(a: real, b: real): real {
    if a <= b then a else b
  }

  /** Seconds from `since` to `now`, zero if the clock went back. */
  function Elapsed(now: real, since: real): real {
    if now >= since then now - since else 0.0
  }

  function FreshBucket(config: RateLimitConfig, now: real): Bucket {
    Bucket(config.burst as real, now)
  }

  /** What a bucket allows at a time, never more than a burst. */
  function Allowance(config: RateLimitConfig, b: Bucket, now: real): real {
    MinReal(b.tokens + Elapsed(now, b.lastRefill) * config.refillPerSecond, config.burst as real)
  }

  /** The bucket has regained a whole burst by `now`: the test for forgetting it. */
  predicate Refilled(config: RateLimitConfig, b: Bucket, now: real) {
    b.tokens + Elapsed(now, b.lastRefill) * config.refillPerSecond >= config.burst as real
  }

  /** The allowance of a client at a time: a full burst if it never called. */
  function AllowanceOf(config: RateLimitConfig, b: Option<Bucket>, now: real): real {
    match b
    case None => config.burst as real
    case Some(bucket) => Allowance(config, bucket, now)
  }

  /** A bucket after a call, which takes a token if there is one. */
  function Charge(config: RateLimitConfig, b: Option<Bucket>, now: real): Bucket {
    var tokens := AllowanceOf(config, b, now);
    Bucket(if tokens >= 1.0 then tokens - 1.0 else tokens, now)
  }

  ghost predicate InRange(config: RateLimitConfig, b: Bucket) {
    0.0 <= b.tokens <= config.burst as real
  }

  lemma MulNonNegative(a: real, b: real)
    requires a >= 0.0 && b >= 0.0
    ensures a * b >= 0.0
  {
  }

  lemma MulMonotone(a: real, b: real, r: real)
    requires a <= b && r >= 0.0
    ensures a * r <= b * r
  {
    MulNonNegative(b - a, r);
    assert (b - a) * r == b * r - a * r;
  }

  lemma AllowanceInRange(config: RateLimitConfig, b: Bucket, now: real)
    requires config.refillPerSecond >= 0.0 && InRange(config, b)
    ensures b.tokens <= Allowance(config, b, now) <= config.burst as real
  {
    MulNonNegative(Elapsed(now, b.lastRefill), config.refillPerSecond);
  }

  lemma Distribute(a: real, b: real, r: real)
    ensures (a + b) * r == a * r + b * r
  {
  }

  /** One call takes a token exactly if it is admitted, and its bucket had refilled since the client's last call. */
  lemma ChargeTakesOne(config: RateLimitConfig, b: Option<Bucket>, now: real)
    requires b.Some? ==> InRange(config, b.value)
    ensures var took := if AllowanceOf(config, b, now) >= 1.0 then 1.0 else 0.0;
            && Charge(config, b, now).lastRefill == now
            && Charge(config, b, now).tokens + took <= config.burst as real
            && (b.Some? ==> Charge(config, b, now).tokens + took
                            <= b.value.tokens + Elapsed(now, b.value.lastRefill) * config.refillPerSecond)
  {
  }

  lemma ChargeInRange(config: RateLimitConfig, b: Option<Bucket>, now: real)
    requires config.refillPerSecond >= 0.0 && (b.Some? ==> InRange(config, b.value))
    ensures InRange(config, Charge(config, b, now))
  {
    if b.Some? {
      AllowanceInRange(config, b.value, now);
    }
  }

  lemma WaitedOneToken(config: RateLimitConfig, b: Bucket, now: real)
    requires config.burst >= 1 && config.refillPerSecond > 0.0 && InRange(config, b)
    requires now - b.lastRefill >= 1.0 / config.refillPerSecond
    ensures Allowance(config, b, now) >= 1.0
  {
    var r := config.refillPerSecond;
    var least := 1.0 / r;
    DivideBack(1.0, r);
    var waited := Elapsed(now, b.lastRefill);
    assert waited >= least;
    MulMonotone(least, waited, r);
    assert waited * r >= 1.0;
    assert b.tokens + waited * r >= 1.0;
  }

  // ---- When forgetting is safe ----

  /** A refilled bucket allows exactly a full burst, like no bucket at all. */
  lemma RefilledIsFull(config: RateLimitConfig, b: Bucket, now: real)
    ensures Refilled(config, b, now) <==> Allowance(config, b, now) == config.burst as real
  {
  }

  lemma StaysRefilled(config: RateLimitConfig, b: Bucket, now: real, later: real)
    requires config.refillPerSecond >= 0.0 && now <= later && Refilled(config, b, now)
    ensures Refilled(config, b, later)
  {
    MulMonotone(Elapsed(now, b.lastRefill), Elapsed(later, b.lastRefill), config.refillPerSecond);
  }

  /**
   Forgetting a bucket at `forgotten` goes unnoticed at `now`, whichever bucket it was, exactly when `now` is
   not earlier (or when nothing ever refills, or nothing is ever allowed).
   */
  lemma ForgettingIsSafe(config: RateLimitConfig, forgotten: real, now: real)
    requires config.refillPerSecond >= 0.0
    ensures (forall b :: InRange(config, b) && Refilled(config, b, forgotten)
                         ==> Allowance(config, b, now) == config.burst as real)
            <==> now >= forgotten || config.refillPerSecond == 0.0 || config.burst == 0
  {
    if now >= forgotten || config.refillPerSecond == 0.0 || config.burst == 0 {
      forall b | InRange(config, b) && Refilled(config, b, forgotten)
        ensures Allowance(config, b, now) == config.burst as real
      {
        StillRefilled(config, b, forgotten, now);
        RefilledIsFull(config, b, now);
      }
    } else {
      NoticedTooEarly(config, forgotten, now);
    }
  }

  /** A look that is not earlier, or at which nothing can show, finds a forgotten bucket refilled. */
  lemma StillRefilled(config: RateLimitConfig, b: Bucket, forgotten: real, now: real)
    requires config.refillPerSecond >= 0.0 && InRange(config, b) && Refilled(config, b, forgotten)
    requires forgotten <= now || config.refillPerSecond == 0.0 || config.burst == 0
    ensures Refilled(config, b, now)
  {
    if forgotten <= now {
      StaysRefilled(config, b, forgotten, now);
    } else {
      AllowanceInRange(config, b, now);
      if config.refillPerSecond == 0.0 { NoRefill(config, b, forgotten); }
      MulNonNegative(Elapsed(now, b.lastRefill), config.refillPerSecond);
    }
  }

  lemma NoRefill(config: RateLimitConfig, b: Bucket, now: real)
    requires config.refillPerSecond == 0.0 && Refilled(config, b, now)
    ensures b.tokens >= config.burst as real
  {
    assert Elapsed(now, b.lastRefill) * config.refillPerSecond == 0.0;
  }

  /** An empty bucket that refills just in time to be forgotten is not full any earlier. */
  lemma NoticedTooEarly(config: RateLimitConfig, forgotten: real, now: real)
    requires config.refillPerSecond > 0.0 && config.burst > 0 && now < forgotten
    ensures exists b :: InRange(config, b) && Refilled(config, b, forgotten)
                        && Allowance(config, b, now) < config.burst as real
  {
    var r, burst := config.refillPerSecond, config.burst as real;
    var wait := burst / r;
    DivideBack(burst, r);
    var b := Bucket(0.0, forgotten - wait);
    assert Elapsed(forgotten, b.lastRefill) == wait;
    assert Elapsed(now, b.lastRefill) < wait;
    MulStrict(Elapsed(now, b.lastRefill), wait, r);
    assert InRange(config, b) && Refilled(config, b, forgotten) && Allowance(config, b, now) < burst;
  }

  lemma DivideBack(a: real, r: real)
    requires a > 0.0 && r > 0.0
    ensures a / r > 0.0 && (a / r) * r == a
  {
  }

  lemma MulStrict(a: real, b: real, r: real)
    requires a < b && r > 0.0
    ensures a * r < b * r
  {
    assert (b - a) * r > 0.0;
    assert (b - a) * r == b * r - a * r;
  }
}
