/**
 * The per-host token bucket: its state, the three transitions a call can make on it,
 * and the millisecond arithmetic behind the wait a denied caller is told to observe.
 *
 * Instants are nanoseconds on the monotonic clock, unbounded; the `f64` token
 * arithmetic is carried out on `real`.
 */
module TokenBuckets {
  import opened Prelude

  const NANOS_PER_MS := 1_000_000
  const U32_MAX := 0xFFFF_FFFF
  const U64_MAX := 0xFFFF_FFFF_FFFF_FFFF
  const DEFAULT_429_BACKOFF_SECS := 30
  const MAX_429_BACKOFF_SECS := 24 * 60 * 60

  /** Guard above which an advised wait is reported as U64_MAX instead. */
  const WAIT_CLAMP_MS := 18_446_744_073_709_551_000

  type Instant = int

  datatype Config = Config(perHostQps: real, burst: nat)

  datatype Reason = QpsExceeded | Retry429
  datatype Wait = Wait(waitForMs: nat, reason: Reason)
  datatype Outcome = Admitted | Denied(wait: Wait) | Recorded

  datatype Bucket = Bucket(tokens: real, capacity: real, refillPerSec: real,
                           lastRefill: Instant, cooldownUntil: Option<Instant>)

  /** What holds of every bucket the limiter ever stores. */
  predicate Sound(b: Bucket) {
    1.0 <= b.capacity && 0.0 <= b.tokens <= b.capacity && 0.0 <= b.refillPerSec
  }

  function Capacity(cfg: Config): real {
    if cfg.burst < 1 then 1.0 else cfg.burst as real
  }

  function RefillRate(cfg: Config): real {
    if cfg.perHostQps < 0.0 then 0.0 else cfg.perHostQps
  }

  function NewBucket(cfg: Config, now: Instant): Bucket {
    Bucket(Capacity(cfg), Capacity(cfg), RefillRate(cfg), now, None)
  }

  /** Seconds from `from` to `to`, zero when the clock reading is older. */
  function ElapsedSecs(from: Instant, to: Instant): real {
    if from < to then (to - from) as real / 1_000_000_000.0 else 0.0
  }

  function Refilled(b: Bucket, now: Instant): Bucket {
    var elapsed := ElapsedSecs(b.lastRefill, now);
    var filled := b.tokens + elapsed * b.refillPerSec;
    b.(tokens := if elapsed > 0.0 && b.refillPerSec > 0.0
                 then (if filled < b.capacity then filled else b.capacity)
                 else b.tokens,
       lastRefill := now)
  }

  function Ceil(x: real): int { -((-x).Floor) }

  function QpsWaitMs(tokens: real, refillPerSec: real): nat
    requires tokens < 1.0 && 0.0 <= refillPerSec
  {
    var waitSecs := if refillPerSec > 0.0 then (1.0 - tokens) / refillPerSec else U32_MAX as real;
    var ceiled := Ceil(waitSecs * 1000.0);
    var waitMs := if ceiled < 1 then 1 else ceiled;
    if waitMs < WAIT_CLAMP_MS then waitMs else U64_MAX
  }

  /** `duration_to_ms_ceil` on whole seconds and subsecond nanoseconds, with u64 saturation. */
  function DurationToMsCeil(d: nat): nat {
    var secs, nanos := d / NANOS_PER_SEC, d % NANOS_PER_SEC;
    var secsMs := if secs * 1000 < U64_MAX then secs * 1000 else U64_MAX;
    var extra := if nanos == 0 then 0 else (nanos + NANOS_PER_MS - 1) / NANOS_PER_MS;
    if secsMs + extra < U64_MAX then secsMs + extra else U64_MAX
  }

  function BackoffSecs(retryAfterSecs: Option<nat>): nat {
    var asked := if retryAfterSecs.Some? then retryAfterSecs.value else DEFAULT_429_BACKOFF_SECS;
    if asked < MAX_429_BACKOFF_SECS then asked else MAX_429_BACKOFF_SECS
  }

  function CooldownEnd(now: Instant, retryAfterSecs: Option<nat>): Instant {
    now + BackoffSecs(retryAfterSecs) * NANOS_PER_SEC
  }

  predicate Cooling(b: Bucket, now: Instant) {
    b.cooldownUntil.Some? && now < b.cooldownUntil.value
  }

  /** One `try_acquire` on an existing bucket. */
  function AcquireStep(b: Bucket, now: Instant): (Bucket, Outcome)
    requires Sound(b)
  {
    if Cooling(b, now) then
      (b, Denied(Wait(DurationToMsCeil(b.cooldownUntil.value - now), Retry429)))
    else
      var f := Refilled(b.(cooldownUntil := None), now);
      if f.tokens >= 1.0 then (f.(tokens := f.tokens - 1.0), Admitted)
      else (f, Denied(Wait(QpsWaitMs(f.tokens, f.refillPerSec), QpsExceeded)))
  }

  function Record429Step(b: Bucket, now: Instant, retryAfterSecs: Option<nat>): Bucket {
    b.(cooldownUntil := Some(CooldownEnd(now, retryAfterSecs)), tokens := 0.0)
  }

  function SuccessStep(b: Bucket): Bucket {
    b.(cooldownUntil := None)
  }

  // ----- arithmetic ---------------------------------------------------------

  lemma CeilBounds(x: real)
    ensures x <= Ceil(x) as real < x + 1.0
  {}

  lemma ProductNonNegative(x: real, y: real)
    requires 0.0 <= x && 0.0 <= y
    ensures 0.0 <= x * y
  {}

  /** Refilling keeps 0 <= tokens <= capacity, whatever the clock reads, and never removes tokens. */
  lemma RefilledIsSound(b: Bucket, now: Instant)
    requires Sound(b)
    ensures Sound(Refilled(b, now))
    ensures b.tokens <= Refilled(b, now).tokens <= b.tokens + ElapsedSecs(b.lastRefill, now) * b.refillPerSec
  {}

  lemma AcquireStepIsSound(b: Bucket, now: Instant)
    requires Sound(b)
    ensures var b' := AcquireStep(b, now).0;
            Sound(b') && b'.capacity == b.capacity && b'.refillPerSec == b.refillPerSec
  {}

  /**
   * The advised milliseconds are the exact ceiling of the remaining duration: never early,
   * and less than one millisecond late, until the u64 saturates.
   */
  lemma DurationCeilIsExact(d: nat)
    ensures var ms := DurationToMsCeil(d);
            && ms <= U64_MAX
            && (ms < U64_MAX ==> d <= ms * NANOS_PER_MS < d + NANOS_PER_MS)
            && (ms == U64_MAX ==> d > (U64_MAX - 1) * NANOS_PER_MS)
    ensures d > 0 ==> DurationToMsCeil(d) > 0
  {}

  // ----- the bucket as the limiter stores it ---------------------------------

  /** The stored bucket, updated in place by the limiter. */
  class TokenBucket {
    var tokens: real
    var capacity: real
    var refillPerSec: real
    var lastRefill: Instant
    var cooldownUntil: Option<Instant>

    ghost function View(): Bucket
      reads this
    {
      Bucket(tokens, capacity, refillPerSec, lastRefill, cooldownUntil)
    }

    constructor (cfg: Config, now: Instant)
      ensures View() == NewBucket(cfg, now)
      ensures Sound(View())
    {
      var burst := if cfg.burst < 1 then 1 else cfg.burst;
      tokens := burst as real;
      capacity := burst as real;
      refillPerSec := if cfg.perHostQps < 0.0 then 0.0 else cfg.perHostQps;
      lastRefill := now;
      cooldownUntil := None;
    }

    method Refill(now: Instant)
      requires Sound(View())
      modifies this
      ensures View() == Refilled(old(View()), now)
      ensures Sound(View())
    {
      RefilledIsSound(View(), now);
      var elapsed := ElapsedSecs(lastRefill, now);
      if elapsed > 0.0 && refillPerSec > 0.0 {
        var filled := tokens + elapsed * refillPerSec;
        tokens := if filled < capacity then filled else capacity;
      }
      lastRefill := now;
    }

    /** The body of `try_acquire` once the bucket has been found. */
    method Acquire(now: Instant) returns (outcome: Outcome)
      requires Sound(View())
      modifies this
      ensures (View(), outcome) == AcquireStep(old(View()), now)
      ensures Sound(View()) && capacity == old(capacity) && refillPerSec == old(refillPerSec)
    {
      if cooldownUntil.Some? {
        var until := cooldownUntil.value;
        if now < until {
          return Denied(Wait(DurationToMsCeil(until - now), Retry429));
        }
        cooldownUntil := None;
      }
      Refill(now);
      if tokens >= 1.0 {
        tokens := tokens - 1.0;
        return Admitted;
      }
      return Denied(Wait(QpsWaitMs(tokens, refillPerSec), QpsExceeded));
    }

    /** What `record_429` does to the bucket: start the cooldown and drain it. */
    method EnterCooldown(until: Instant)
      modifies this
      ensures View() == old(View()).(cooldownUntil := Some(until), tokens := 0.0)
    {
      cooldownUntil := Some(until);
      tokens := 0.0;
    }
  }
}
