/**
 * The limiter against a reference that knows no bucket: which acquires get in, said with the configured
 * numbers and the run alone.
 */
module RateExact {
  import opened Prelude
  import opened TokenBuckets
  import opened RateLimiter
  import opened RateProofs

  function Max(a: int, b: int): int {
    if a < b then b else a
  }

  function MaxReal(a: real, b: real): real {
    if a < b then b else a
  }

  /** What the configured rate allows between two instants, negative when going back. */
  function Allowance(cfg: Config, from: Instant, to: Instant): real {
    MaxReal(0.0, cfg.perHostQps) * ((to - from) as real / 1_000_000_000.0)
  }

  lemma AllowanceAdds(cfg: Config, a: Instant, b: Instant, c: Instant)
    ensures Allowance(cfg, a, c) == Allowance(cfg, a, b) + Allowance(cfg, b, c)
  {
    var rate := MaxReal(0.0, cfg.perHostQps);
    var x, y := (b - a) as real / 1_000_000_000.0, (c - b) as real / 1_000_000_000.0;
    assert (c - a) as real / 1_000_000_000.0 == x + y;
    assert rate * (x + y) == rate * x + rate * y;
  }

  lemma AllowanceZero(cfg: Config, a: Instant)
    ensures Allowance(cfg, a, a) == 0.0
  {}

  lemma AllowanceSign(cfg: Config, a: Instant, b: Instant)
    requires a <= b
    ensures Allowance(cfg, a, b) >= 0.0 && Allowance(cfg, a, b) == Worth(cfg, a, b)
  {
    ProductNonNegative(MaxReal(0.0, cfg.perHostQps), ElapsedSecs(a, b));
  }

  lemma NumbersOfConfig(cfg: Config)
    ensures Capacity(cfg) == Max(1, cfg.burst) as real && RefillRate(cfg) == MaxReal(0.0, cfg.perHostQps)
  {}

  // ----- at most -------------------------------------------------------------------------------

  /**
   * In any window [s, t] of any run whose calls on `host` are in clock order, at most
   * max(1, burst) + max(0, qps) * (t - s) of them are admitted, whatever 429s, successes and other hosts do.
   */
  lemma AdmissionBound(cfg: Config, es: seq<Event>, host: string, s: Instant, t: Instant)
    requires s <= t && ClockOrderedOn(es, host)
    ensures AdmittedIn(cfg, es, host, s, t) as real
            <= Max(1, cfg.burst) as real + MaxReal(0.0, cfg.perHostQps) * ((t - s) as real / 1_000_000_000.0)
  {
    NumbersOfConfig(cfg);
    AllowanceSign(cfg, s, t);
    assert Allowance(cfg, s, t) == MaxReal(0.0, cfg.perHostQps) * ((t - s) as real / 1_000_000_000.0);
    OrderedBound(cfg, es, host, s, t);
  }

  // ----- exactly -------------------------------------------------------------------------------

  predicate RefusedFor429(cfg: Config, es: seq<Event>, k: nat)
    requires k < |es|
  {
    OutcomeAt(cfg, es, k).Denied? && OutcomeAt(cfg, es, k).wait.reason == Retry429
  }

  predicate FirstContact(es: seq<Event>, k: nat)
    requires k < |es|
  {
    forall m :: 0 <= m < k && es[m].host == es[k].host ==> es[m].call.RecordSuccess?
  }

  /** A call from which tokens accrue: an acquire not refused for a 429, or a 429 that comes first of all. */
  predicate Mark(cfg: Config, es: seq<Event>, host: string, k: int) {
    && 0 <= k < |es| && es[k].host == host
    && match es[k].call
       case TryAcquire => !RefusedFor429(cfg, es, k)
       case Record429(_) => FirstContact(es, k)
       case RecordSuccess => false
  }

  /** The number of calls up to and including the last 429 on the host. */
  function DrainedUpTo(es: seq<Event>, host: string): (n: nat)
    ensures n <= |es|
  {
    if es == [] then 0
    else if Last(es).host == host && Last(es).call.Record429? then |es|
    else DrainedUpTo(Init(es), host)
  }

  /** The calls admitted on the host from call `k` on, and since the last 429. */
  function Used(cfg: Config, es: seq<Event>, host: string, k: int): nat {
    AdmittedFrom(cfg, es, host, Max(k, DrainedUpTo(es, host)))
  }

  /** What may be admitted from call `k` up to an instant: the burst, unless a 429 took it, and the rate. */
  function Limit(cfg: Config, es: seq<Event>, host: string, k: int, t: Instant): real
    requires 0 <= k < |es|
  {
    (if k < DrainedUpTo(es, host) then 0.0 else Max(1, cfg.burst) as real) + Allowance(cfg, es[k].at, t)
  }

  /** The latest mark is at `t`. */
  ghost predicate LatestAt(cfg: Config, es: seq<Event>, host: string, t: Instant) {
    && (forall k :: Mark(cfg, es, host, k) ==> es[k].at <= t)
    && (exists k :: Mark(cfg, es, host, k) && es[k].at == t)
  }

  /** As many tokens as the tightest mark leaves. */
  ghost predicate Balanced(cfg: Config, es: seq<Event>, host: string, t: Instant, tokens: real) {
    && (forall k :: Mark(cfg, es, host, k) ==>
          tokens + Used(cfg, es, host, k) as real <= Limit(cfg, es, host, k, t))
    && (exists k :: Mark(cfg, es, host, k)
          && tokens + Used(cfg, es, host, k) as real == Limit(cfg, es, host, k, t))
  }

  ghost predicate Exact(cfg: Config, es: seq<Event>, host: string) {
    if host !in After(cfg, es) then forall k :: !Mark(cfg, es, host, k)
    else
      var b := After(cfg, es)[host];
      LatestAt(cfg, es, host, b.lastRefill) && Balanced(cfg, es, host, b.lastRefill, b.tokens)
  }

  lemma {:induction false} UnseenHost(cfg: Config, es: seq<Event>, host: string)
    ensures host !in After(cfg, es) <==> forall m :: 0 <= m < |es| && es[m].host == host ==> es[m].call.RecordSuccess?
  {
    if es != [] {
      var init := Init(es);
      UnseenHost(cfg, init, host);
      assert forall m :: 0 <= m < |init| ==> init[m] == es[m];
      assert Last(es) == es[|es| - 1];
    }
  }

  lemma MarkOfPrefix(cfg: Config, es: seq<Event>, host: string, k: int)
    requires es != [] && k < |es| - 1
    ensures Mark(cfg, es, host, k) <==> Mark(cfg, Init(es), host, k)
  {
    if 0 <= k {
      assert Init(es)[..k] == es[..k] && Init(es)[k] == es[k];
      assert forall m :: 0 <= m < k ==> Init(es)[m] == es[m];
    }
  }

  lemma EarlierMark(cfg: Config, es: seq<Event>, host: string, k: int)
    requires es != [] && (Mark(cfg, Init(es), host, k) || (k < |es| - 1 && Mark(cfg, es, host, k)))
    ensures 0 <= k < |es| - 1 && Mark(cfg, es, host, k) && Mark(cfg, Init(es), host, k) && Init(es)[k] == es[k]
  {
    MarkOfPrefix(cfg, es, host, k);
  }

  /** A call that neither admits nor drains leaves the books as they are. */
  lemma QuietStep(cfg: Config, es: seq<Event>, host: string)
    requires es != [] && Exact(cfg, Init(es), host) && !Mark(cfg, es, host, |es| - 1)
    requires !(Last(es).host == host && Last(es).call.Record429?)
    requires Admits(cfg, After(cfg, Init(es)), Last(es), host) == 0
    requires host in After(cfg, es) <==> host in After(cfg, Init(es))
    requires host in After(cfg, es) ==>
               var b, b' := After(cfg, Init(es))[host], After(cfg, es)[host];
               b'.tokens == b.tokens && b'.lastRefill == b.lastRefill
    ensures Exact(cfg, es, host)
  {
    var init := Init(es);
    forall k ensures Mark(cfg, es, host, k) <==> Mark(cfg, init, host, k) {
      if k < |es| - 1 { MarkOfPrefix(cfg, es, host, k); }
    }
    if host in After(cfg, es) {
      var t := After(cfg, es)[host].lastRefill;
      forall k | Mark(cfg, init, host, k)
        ensures es[k].at == init[k].at
        ensures Used(cfg, es, host, k) == Used(cfg, init, host, k)
        ensures Limit(cfg, es, host, k, t) == Limit(cfg, init, host, k, t)
      {}
    }
  }

  lemma DrainedLimit(cfg: Config, es: seq<Event>, host: string, k: int, t: Instant)
    requires es != [] && Last(es).host == host && Last(es).call.Record429? && 0 <= k < |es| && es[k].at <= t
    ensures Used(cfg, es, host, k) == 0
    ensures Limit(cfg, es, host, k, t) == Allowance(cfg, es[k].at, t) >= 0.0
    ensures es[k].at == t ==> Limit(cfg, es, host, k, t) == 0.0
  {
    AllowanceSign(cfg, es[k].at, t);
  }

  lemma DrainedBucket(cfg: Config, es: seq<Event>, host: string)
    requires es != [] && Last(es).host == host && Last(es).call.Record429?
    ensures host in After(cfg, es)
    ensures var b', bs := After(cfg, es)[host], After(cfg, Init(es));
            b'.tokens == 0.0 && b'.lastRefill == if host in bs then bs[host].lastRefill else Last(es).at
  {}

  /** A 429 is a mark only if the host is new. */
  lemma Mark429(cfg: Config, es: seq<Event>, host: string)
    requires es != [] && Last(es).host == host && Last(es).call.Record429?
    ensures Mark(cfg, es, host, |es| - 1) <==> host !in After(cfg, Init(es))
  {
    UnseenHost(cfg, Init(es), host);
    assert forall m :: 0 <= m < |es| - 1 ==> Init(es)[m] == es[m];
  }

  lemma MarksAfterDrain(cfg: Config, es: seq<Event>, host: string, t: Instant)
    requires es != [] && Last(es).host == host && Last(es).call.Record429?
    requires if host in After(cfg, Init(es)) then LatestAt(cfg, Init(es), host, t)
             else Last(es).at == t && forall k :: !Mark(cfg, Init(es), host, k)
    ensures LatestAt(cfg, es, host, t)
  {
    var n := |es| - 1;
    Mark429(cfg, es, host);
    forall k | Mark(cfg, es, host, k) ensures es[k].at <= t {
      if k < n { EarlierMark(cfg, es, host, k); }
    }
    if host in After(cfg, Init(es)) {
      var k :| Mark(cfg, Init(es), host, k) && Init(es)[k].at == t;
      EarlierMark(cfg, es, host, k);
    } else {
      assert Mark(cfg, es, host, n);
    }
  }

  /** A 429 empties the bucket: nothing is used since, and only the time counts. */
  lemma DrainStep(cfg: Config, es: seq<Event>, host: string)
    requires es != [] && Exact(cfg, Init(es), host) && Last(es).host == host && Last(es).call.Record429?
    ensures Exact(cfg, es, host)
  {
    DrainedBucket(cfg, es, host);
    var t := After(cfg, es)[host].lastRefill;
    MarksAfterDrain(cfg, es, host, t);
    forall k | Mark(cfg, es, host, k)
      ensures Used(cfg, es, host, k) == 0 && 0.0 <= Limit(cfg, es, host, k, t)
      ensures es[k].at == t ==> Limit(cfg, es, host, k, t) == 0.0
    {
      DrainedLimit(cfg, es, host, k, t);
    }
  }

  /** What a refill at `at` makes of the tokens, in the configured numbers. */
  lemma RefillInNumbers(cfg: Config, b: Bucket, at: Instant)
    requires SoundFor(cfg, b) && b.lastRefill <= at
    ensures var earned := b.tokens + Allowance(cfg, b.lastRefill, at);
            Refilled(b.(cooldownUntil := None), at).tokens ==
              if earned < Max(1, cfg.burst) as real then earned else Max(1, cfg.burst) as real
  {
    AllowanceSign(cfg, b.lastRefill, at);
    NumbersOfConfig(cfg);
  }

  /** Tokens that match the tightest mark at one instant match it, up to the burst, at a later one. */
  ghost predicate Leaves(cfg: Config, es: seq<Event>, host: string, at: Instant, tokens: real) {
    && (forall k :: Mark(cfg, es, host, k) ==>
          es[k].at <= at && tokens + Used(cfg, es, host, k) as real <= Limit(cfg, es, host, k, at))
    && tokens <= Max(1, cfg.burst) as real
    && (tokens == Max(1, cfg.burst) as real
        || exists k :: Mark(cfg, es, host, k) && tokens + Used(cfg, es, host, k) as real == Limit(cfg, es, host, k, at))
  }

  lemma RefillLeaves(cfg: Config, es: seq<Event>, host: string, at: Instant)
    requires Exact(cfg, es, host) && host in After(cfg, es) && After(cfg, es)[host].lastRefill <= at
    ensures Leaves(cfg, es, host, at, Refilled(After(cfg, es)[host].(cooldownUntil := None), at).tokens)
  {
    var b := After(cfg, es)[host];
    RefillInNumbers(cfg, b, at);
    forall k | Mark(cfg, es, host, k)
      ensures Limit(cfg, es, host, k, at) == Limit(cfg, es, host, k, b.lastRefill) + Allowance(cfg, b.lastRefill, at)
    {
      AllowanceAdds(cfg, es[k].at, b.lastRefill, at);
    }
  }

  /** What an acquire finds when it is not refused for a 429. */
  function Available(cfg: Config, es: seq<Event>, host: string, at: Instant): real {
    var bs := After(cfg, es);
    if host in bs then Refilled(bs[host].(cooldownUntil := None), at).tokens else Max(1, cfg.burst) as real
  }

  lemma AvailableLeaves(cfg: Config, es: seq<Event>, host: string, at: Instant)
    requires Exact(cfg, es, host) && (host in After(cfg, es) ==> After(cfg, es)[host].lastRefill <= at)
    ensures Leaves(cfg, es, host, at, Available(cfg, es, host, at))
  {
    if host in After(cfg, es) { RefillLeaves(cfg, es, host, at); }
  }

  /** The acquire at the end of a run, if it is not refused for a 429, in terms of what it finds. */
  lemma AcquireFinds(cfg: Config, es: seq<Event>, host: string)
    requires es != [] && Last(es).host == host && Last(es).call.TryAcquire? && !RefusedFor429(cfg, es, |es| - 1)
    ensures var found := Available(cfg, Init(es), host, Last(es).at);
            && OutcomeAt(cfg, es, |es| - 1) == Apply(cfg, After(cfg, Init(es)), Last(es)).1
            && (OutcomeAt(cfg, es, |es| - 1) == Admitted <==> found >= 1.0)
            && host in After(cfg, es) && After(cfg, es)[host].lastRefill == Last(es).at
            && After(cfg, es)[host].tokens == found - Admits(cfg, After(cfg, Init(es)), Last(es), host) as real
  {
    assert es[..|es| - 1] == Init(es) && es[|es| - 1] == Last(es);
    NumbersOfConfig(cfg);
  }

  lemma AcquireIsUsed(cfg: Config, es: seq<Event>, host: string, k: int, t: Instant)
    requires es != [] && Last(es).host == host && Last(es).call.TryAcquire? && 0 <= k < |es|
    ensures var a := Admits(cfg, After(cfg, Init(es)), Last(es), host);
            && (k < |es| - 1 ==> Used(cfg, es, host, k) == Used(cfg, Init(es), host, k) + a)
            && (k < |es| - 1 ==> Limit(cfg, es, host, k, t) == Limit(cfg, Init(es), host, k, t))
            && (k == |es| - 1 ==> Used(cfg, es, host, k) == a)
            && (k == |es| - 1 ==> Limit(cfg, es, host, k, t) == Max(1, cfg.burst) as real + Allowance(cfg, es[k].at, t))
  {
    assert DrainedUpTo(es, host) == DrainedUpTo(Init(es), host) <= |es| - 1;
    assert AdmittedFrom(cfg, Init(es), host, |es| - 1) == 0;
  }

  lemma AcquireIsLatest(cfg: Config, es: seq<Event>, host: string)
    requires es != [] && Mark(cfg, es, host, |es| - 1)
    requires forall k :: Mark(cfg, Init(es), host, k) ==> Init(es)[k].at <= Last(es).at
    ensures LatestAt(cfg, es, host, Last(es).at)
  {
    forall k | Mark(cfg, es, host, k) ensures es[k].at <= Last(es).at {
      if k < |es| - 1 { EarlierMark(cfg, es, host, k); }
    }
  }

  lemma AcquireBalances(cfg: Config, es: seq<Event>, host: string, found: real)
    requires es != [] && Last(es).host == host && Last(es).call.TryAcquire? && Mark(cfg, es, host, |es| - 1)
    requires Leaves(cfg, Init(es), host, Last(es).at, found)
    ensures Balanced(cfg, es, host, Last(es).at, found - Admits(cfg, After(cfg, Init(es)), Last(es), host) as real)
  {
    var init, n, at := Init(es), |es| - 1, Last(es).at;
    var left := found - Admits(cfg, After(cfg, init), Last(es), host) as real;
    AllowanceZero(cfg, at);
    AcquireIsUsed(cfg, es, host, n, at);
    forall k | Mark(cfg, es, host, k) ensures left + Used(cfg, es, host, k) as real <= Limit(cfg, es, host, k, at) {
      if k < n {
        EarlierMark(cfg, es, host, k);
        AcquireIsUsed(cfg, es, host, k, at);
      }
    }
    if found < Max(1, cfg.burst) as real {
      var k :| Mark(cfg, init, host, k) && found + Used(cfg, init, host, k) as real == Limit(cfg, init, host, k, at);
      EarlierMark(cfg, es, host, k);
      AcquireIsUsed(cfg, es, host, k, at);
    }
  }

  lemma AcquireKeepsBooks(cfg: Config, es: seq<Event>, host: string)
    requires es != [] && Last(es).host == host && Last(es).call.TryAcquire? && !RefusedFor429(cfg, es, |es| - 1)
    requires Leaves(cfg, Init(es), host, Last(es).at, Available(cfg, Init(es), host, Last(es).at))
    ensures Exact(cfg, es, host)
  {
    AcquireFinds(cfg, es, host);
    assert Mark(cfg, es, host, |es| - 1);
    AcquireIsLatest(cfg, es, host);
    AcquireBalances(cfg, es, host, Available(cfg, Init(es), host, Last(es).at));
  }

  lemma {:induction false} BooksAreExact(cfg: Config, es: seq<Event>, host: string)
    requires ClockOrderedOn(es, host)
    ensures Exact(cfg, es, host)
  {
    if es != [] {
      var init, e, n := Init(es), Last(es), |es| - 1;
      assert forall m :: 0 <= m < n ==> init[m] == es[m];
      BooksAreExact(cfg, init, host);
      assert es[..n] == init;
      if e.host == host && e.call.Record429? {
        DrainStep(cfg, es, host);
      } else if e.host == host && e.call.TryAcquire? && !RefusedFor429(cfg, es, n) {
        if host in After(cfg, init) { RefillIsPast(cfg, init, host, e.at); }
        AvailableLeaves(cfg, init, host, e.at);
        AcquireKeepsBooks(cfg, es, host);
      } else {
        QuietStep(cfg, es, host);
      }
    }
  }

  /** Counted from call `k`, one more call stays within the limit at instant `t`. */
  ghost predicate Fits(cfg: Config, es: seq<Event>, host: string, k: int, t: Instant)
    requires 0 <= k < |es|
  {
    Used(cfg, es, host, k) as real + 1.0 <= Limit(cfg, es, host, k, t)
  }

  lemma AdmittedUnlessOverLimit(cfg: Config, es: seq<Event>, j: nat)
    requires j < |es| && es[j].call.TryAcquire? && ClockOrderedOn(es[..j + 1], es[j].host)
    requires !RefusedFor429(cfg, es, j)
    ensures OutcomeAt(cfg, es, j) == Admitted <==>
            forall k :: Mark(cfg, es[..j], es[j].host, k) ==> Fits(cfg, es[..j], es[j].host, k, es[j].at)
  {
    var run, host := es[..j + 1], es[j].host;
    assert Init(run) == es[..j] && Last(run) == es[j];
    assert forall m :: 0 <= m < j ==> es[..j][m] == run[m];
    BooksAreExact(cfg, es[..j], host);
    if host in After(cfg, es[..j]) { RefillIsPast(cfg, es[..j], host, es[j].at); }
    AvailableLeaves(cfg, es[..j], host, es[j].at);
    AcquireFinds(cfg, run, host);
  }

  /**
   * In a run whose calls on the host are in clock order, an acquire is admitted if and only if no 429 holds
   * the host and it stays within every limit: counted from any earlier mark, the calls admitted and this one
   * are at most the burst and what the rate allows since, or only the latter if a 429 came in between.
   */
  lemma AdmittedExactly(cfg: Config, es: seq<Event>, j: nat)
    requires j < |es| && es[j].call.TryAcquire? && ClockOrderedOn(es[..j + 1], es[j].host)
    ensures OutcomeAt(cfg, es, j) == Admitted <==>
            && (forall i :: !HeldBy(es, i, j))
            && (forall k :: Mark(cfg, es[..j], es[j].host, k) ==> Fits(cfg, es[..j], es[j].host, k, es[j].at))
  {
    Retry429Exactly(cfg, es, j);
    if RefusedFor429(cfg, es, j) {
      var i :| HeldBy(es, i, j);
    } else {
      AdmittedUnlessOverLimit(cfg, es, j);
    }
  }

  // ----- a new host ------------------------------------------------------------------------------

  /** From call `m` on the run is acquires of a host at one instant, and the host was new by then. */
  ghost predicate BurstFrom(run: seq<Event>, m: nat, host: string, t: Instant) {
    && m <= |run|
    && (forall k :: 0 <= k < m && run[k].host == host ==> run[k].call.RecordSuccess?)
    && (forall k :: m <= k < |run| ==> run[k] == Event(host, TryAcquire, t))
  }

  function BucketAfter(cfg: Config, run: seq<Event>, host: string, t: Instant): Bucket {
    Entry(cfg, After(cfg, run), host, t)
  }

  lemma LastAcquire(cfg: Config, run: seq<Event>)
    requires run != [] && Last(run).call.TryAcquire?
    ensures var e, b := Last(run), BucketAfter(cfg, Init(run), Last(run).host, Last(run).at);
            && SoundFor(cfg, b)
            && OutcomeAt(cfg, run, |run| - 1) == AcquireStep(b, e.at).1
            && forall t :: BucketAfter(cfg, run, e.host, t) == AcquireStep(b, e.at).0
  {
    assert run[..|run| - 1] == Init(run) && run[|run| - 1] == Last(run);
  }

  /** A call at the instant of the last refill finds what is there. */
  lemma AcquireAgain(b: Bucket, t: Instant)
    requires Sound(b) && b.lastRefill == t && b.cooldownUntil == None
    ensures AcquireStep(b, t) ==
            if b.tokens >= 1.0 then (b.(tokens := b.tokens - 1.0), Admitted)
            else (b, Denied(Wait(QpsWaitMs(b.tokens, b.refillPerSec), QpsExceeded)))
  {}

  /** A full bucket after `n` calls at one instant. */
  predicate HasLeft(cfg: Config, b: Bucket, t: Instant, n: nat) {
    b.lastRefill == t && b.cooldownUntil == None && b.tokens == Max(0, Max(1, cfg.burst) - n) as real
  }

  lemma {:induction false} BurstLeaves(cfg: Config, run: seq<Event>, m: nat, host: string, t: Instant)
    requires BurstFrom(run, m, host, t)
    ensures HasLeft(cfg, BucketAfter(cfg, run, host, t), t, |run| - m)
  {
    if |run| == m {
      UnseenHost(cfg, run, host);
      NumbersOfConfig(cfg);
    } else {
      assert Last(run) == run[|run| - 1] && BurstFrom(Init(run), m, host, t);
      BurstLeaves(cfg, Init(run), m, host, t);
      LastAcquire(cfg, run);
      AcquireAgain(BucketAfter(cfg, Init(run), host, t), t);
    }
  }

  /** Of any number of acquires of a new host at one instant, exactly the first max(1, burst) are admitted. */
  lemma NewHostGetsItsBurst(cfg: Config, run: seq<Event>, m: nat, host: string, t: Instant)
    requires BurstFrom(run, m, host, t) && m < |run|
    ensures OutcomeAt(cfg, run, |run| - 1) == Admitted <==> |run| - 1 - m < Max(1, cfg.burst)
  {
    assert Last(run) == run[|run| - 1];
    BurstLeaves(cfg, Init(run), m, host, t);
    LastAcquire(cfg, run);
    AcquireAgain(BucketAfter(cfg, Init(run), host, t), t);
  }

  /**
   * After its burst, or more calls, the host gets the next one through from the instant on at which the
   * configured rate has made up one, and never at rate zero.
   */
  lemma NextCallWaitsForRate(cfg: Config, run: seq<Event>, m: nat, host: string, t: Instant, u: Instant)
    requires run != [] && Last(run) == Event(host, TryAcquire, u) && t <= u
    requires BurstFrom(Init(run), m, host, t) && |run| - 1 - m >= Max(1, cfg.burst)
    ensures OutcomeAt(cfg, run, |run| - 1) == Admitted <==> Allowance(cfg, t, u) >= 1.0
  {
    BurstEmpties(cfg, Init(run), m, host, t, u);
    LastAcquire(cfg, run);
    EmptyRecovers(cfg, BucketAfter(cfg, Init(run), host, u), t, u);
  }

  lemma BurstEmpties(cfg: Config, run: seq<Event>, m: nat, host: string, t: Instant, u: Instant)
    requires BurstFrom(run, m, host, t) && |run| - m >= Max(1, cfg.burst)
    ensures HasLeft(cfg, BucketAfter(cfg, run, host, u), t, |run| - m)
  {
    BurstLeaves(cfg, run, m, host, t);
    assert run[m].host == host && run[m].call.TryAcquire?;
    UnseenHost(cfg, run, host);
  }

  lemma EmptyRecovers(cfg: Config, b: Bucket, t: Instant, u: Instant)
    requires SoundFor(cfg, b) && b.lastRefill == t <= u && b.cooldownUntil == None && b.tokens == 0.0
    ensures AcquireStep(b, u).1 == Admitted <==> Allowance(cfg, t, u) >= 1.0
  {
    RefillInNumbers(cfg, b, u);
    assert b.(cooldownUntil := None) == b;
  }

  /** The wait told after the burst: the least whole milliseconds in which the configured rate makes up a call. */
  lemma AdviceFollowsRate(cfg: Config, run: seq<Event>, m: nat, host: string, t: Instant)
    requires BurstFrom(run, m, host, t) && |run| - 1 - m >= Max(1, cfg.burst) && cfg.perHostQps > 0.0
    ensures exists ms: nat ::
              OutcomeAt(cfg, run, |run| - 1) == Denied(Wait(ms, QpsExceeded)) && IsAdvice(ms, cfg.perHostQps)
  {
    assert Last(run) == run[|run| - 1];
    BurstLeaves(cfg, Init(run), m, host, t);
    LastAcquire(cfg, run);
    AcquireAgain(BucketAfter(cfg, Init(run), host, t), t);
    NumbersOfConfig(cfg);
    AdviceOfEmpty(cfg.perHostQps);
  }

  /** The least sufficient milliseconds, or u64::MAX for waits that long. */
  predicate IsAdvice(ms: nat, rate: real) {
    if ms < 18_446_744_073_709_551_000 then (ms as real - 1.0) * rate < 1000.0 <= ms as real * rate
    else ms == 0xFFFF_FFFF_FFFF_FFFF && 18_446_744_073_709_550_999.0 * rate < 1000.0
  }

  lemma AdviceOfEmpty(rate: real)
    requires rate > 0.0
    ensures IsAdvice(QpsWaitMs(0.0, rate), rate)
  {
    var ms, x := QpsWaitMs(0.0, rate), (1.0 - 0.0) / rate * 1000.0;
    assert (1.0 - 0.0) / rate > 0.0 by { MulDiv(1.0 - 0.0, rate, 0.0); }
    assert x * rate == 1000.0;
    CeilBounds(x);
    if ms < 18_446_744_073_709_551_000 {
      Scaled(ms, x, rate);
    } else {
      ScaledBelow(18_446_744_073_709_550_999.0, x, rate);
    }
  }

  lemma Scaled(ms: nat, x: real, rate: real)
    requires rate > 0.0 && ms as real - 1.0 < x <= ms as real && x * rate == 1000.0
    ensures (ms as real - 1.0) * rate < 1000.0 <= ms as real * rate
  {
    ScaledBelow(ms as real - 1.0, x, rate);
    ScaledBelow(x, ms as real, rate);
  }

  lemma ScaledBelow(a: real, b: real, rate: real)
    requires rate > 0.0
    ensures a <= b ==> a * rate <= b * rate
    ensures a < b ==> a * rate < b * rate
  {}
}
