/**
 * Whole-run properties of the limiter: the admission bound, the cooldown, host isolation,
 * and what the advised wait is worth.
 */
module RateProofs {
  import opened Prelude
  import opened TokenBuckets
  import opened RateLimiter

  // ----- admission bound --------------------------------------------------------

  /** Calls on `host` admitted at an instant in [s, t]. */
  function AdmittedIn(cfg: Config, es: seq<Event>, host: string, s: Instant, t: Instant): nat {
    if es == [] then 0
    else
      AdmittedIn(cfg, Init(es), host, s, t) +
      var e := Last(es);
      if e.host == host && s <= e.at <= t && Apply(cfg, After(cfg, Init(es)), e).1 == Admitted then 1 else 0
  }

  // What a host's calls take out of its bucket, and what the clock puts in.

  function TokensOf(cfg: Config, bs: Buckets, host: string): real {
    if host in bs then bs[host].tokens else Capacity(cfg)
  }

  function Admits(cfg: Config, bs: Buckets, e: Event, host: string): nat
    requires SoundBuckets(cfg, bs)
  {
    if e.host == host && Apply(cfg, bs, e).1 == Admitted then 1 else 0
  }

  /** What the time since the last refill is worth when this call refills. */
  function Gain(cfg: Config, bs: Buckets, e: Event, host: string): real {
    if e.host == host && e.call.TryAcquire? && host in bs && !Cooling(bs[host], e.at)
    then Worth(cfg, bs[host].lastRefill, e.at)
    else 0.0
  }

  /** The tokens that accrue between two instants. */
  function Worth(cfg: Config, from: Instant, to: Instant): real {
    ElapsedSecs(from, to) * RefillRate(cfg)
  }

  function AdmittedFrom(cfg: Config, es: seq<Event>, host: string, i: nat): nat {
    if |es| <= i then 0
    else AdmittedFrom(cfg, Init(es), host, i) + Admits(cfg, After(cfg, Init(es)), Last(es), host)
  }

  function AccruedFrom(cfg: Config, es: seq<Event>, host: string, i: nat): real {
    if |es| <= i then 0.0
    else AccruedFrom(cfg, Init(es), host, i) + Gain(cfg, After(cfg, Init(es)), Last(es), host)
  }

  lemma StepLedger(cfg: Config, bs: Buckets, e: Event, host: string)
    requires SoundBuckets(cfg, bs)
    ensures var left := Admits(cfg, bs, e, host) as real + TokensOf(cfg, Apply(cfg, bs, e).0, host);
            left <= TokensOf(cfg, bs, host) + Gain(cfg, bs, e, host) && left <= Capacity(cfg)
  {
    if e.host == host && e.call.TryAcquire? {
      RefilledIsSound(Entry(cfg, bs, host, e.at).(cooldownUntil := None), e.at);
    }
  }

  /**
   * In every run, in any clock order, and from any call `i` on: the calls admitted and the tokens in hand
   * never exceed the burst and what the refills after call `i` put in.
   */
  lemma {:induction false} Accounting(cfg: Config, es: seq<Event>, host: string, i: nat)
    requires i < |es|
    ensures AdmittedFrom(cfg, es, host, i) as real + TokensOf(cfg, After(cfg, es), host)
            <= Capacity(cfg) + AccruedFrom(cfg, es, host, i + 1)
  {
    StepLedger(cfg, After(cfg, Init(es)), Last(es), host);
    if i < |es| - 1 {
      Accounting(cfg, Init(es), host, i);
    }
  }

  /** What the time is worth by which this call sets the host's refill time back. */
  function Rewind(cfg: Config, bs: Buckets, e: Event, host: string): real {
    if e.host == host && e.call.TryAcquire? && host in bs && !Cooling(bs[host], e.at)
    then Worth(cfg, e.at, bs[host].lastRefill)
    else 0.0
  }

  /** The tokens that stale clock readings, from call `i` on, make the refills count again. */
  function RewoundFrom(cfg: Config, es: seq<Event>, host: string, i: nat): real {
    if |es| <= i then 0.0
    else RewoundFrom(cfg, Init(es), host, i) + Rewind(cfg, After(cfg, Init(es)), Last(es), host)
  }

  /** The worth of going from one instant to another, negative when going back. */
  function Net(cfg: Config, from: Instant, to: Instant): real {
    Worth(cfg, from, to) - Worth(cfg, to, from)
  }

  lemma WorthBasics(cfg: Config, a: Instant, b: Instant)
    ensures 0.0 <= Worth(cfg, a, b) && Worth(cfg, a, a) == 0.0 && (a >= b ==> Worth(cfg, a, b) == 0.0)
  {
    ProductNonNegative(ElapsedSecs(a, b), RefillRate(cfg));
  }

  lemma WorthAdds(cfg: Config, a: Instant, b: Instant, c: Instant)
    requires a <= b <= c
    ensures Worth(cfg, a, c) == Worth(cfg, a, b) + Worth(cfg, b, c)
  {
    assert ElapsedSecs(a, c) == ElapsedSecs(a, b) + ElapsedSecs(b, c);
  }

  lemma NetAdds(cfg: Config, a: Instant, b: Instant, c: Instant)
    ensures Net(cfg, a, c) == Net(cfg, a, b) + Net(cfg, b, c)
  {
    WorthBasics(cfg, a, b);
    WorthBasics(cfg, b, a);
    WorthBasics(cfg, b, c);
    WorthBasics(cfg, c, b);
    WorthBasics(cfg, a, c);
    WorthBasics(cfg, c, a);
    if a <= b {
      if b <= c {
        WorthAdds(cfg, a, b, c);
      } else if a <= c {
        WorthAdds(cfg, a, c, b);
      } else {
        WorthAdds(cfg, c, a, b);
      }
    } else {
      if a <= c {
        WorthAdds(cfg, b, a, c);
      } else if b <= c {
        WorthAdds(cfg, b, c, a);
      } else {
        WorthAdds(cfg, c, b, a);
      }
    }
  }

  lemma StepAccrual(cfg: Config, bs: Buckets, e: Event, host: string)
    requires SoundBuckets(cfg, bs) && host in bs
    ensures var bs' := Apply(cfg, bs, e).0;
            && host in bs'
            && Gain(cfg, bs, e, host) == Net(cfg, bs[host].lastRefill, bs'[host].lastRefill) + Rewind(cfg, bs, e, host)
  {}

  /** What the refills put in is exactly the time they span and the time that was set back. */
  lemma {:induction false} AccrualIsExact(cfg: Config, es: seq<Event>, host: string, i: nat, first: Instant)
    requires i < |es| && host in After(cfg, es[..i + 1]) && After(cfg, es[..i + 1])[host].lastRefill == first
    ensures host in After(cfg, es)
    ensures AccruedFrom(cfg, es, host, i + 1) ==
            Net(cfg, first, After(cfg, es)[host].lastRefill) + RewoundFrom(cfg, es, host, i + 1)
  {
    if i == |es| - 1 {
      assert es[..i + 1] == es;
    } else {
      assert Init(es)[..i + 1] == es[..i + 1];
      AccrualIsExact(cfg, Init(es), host, i, first);
      var bs := After(cfg, Init(es));
      StepAccrual(cfg, bs, Last(es), host);
      NetAdds(cfg, first, bs[host].lastRefill, After(cfg, es)[host].lastRefill);
    }
  }

  /** For each call, whether it is an acquire on the host, in the window, that is admitted. */
  function Verdicts(cfg: Config, es: seq<Event>, host: string, s: Instant, t: Instant): (v: seq<bool>)
    ensures |v| == |es|
  {
    if es == [] then []
    else
      var e := Last(es);
      Verdicts(cfg, Init(es), host, s, t) + [s <= e.at <= t && Admits(cfg, After(cfg, Init(es)), e, host) == 1]
  }

  lemma {:induction false} VerdictsOfPrefix(cfg: Config, es: seq<Event>, host: string, s: Instant, t: Instant, n: nat)
    requires n <= |es|
    ensures Verdicts(cfg, es[..n], host, s, t) == Verdicts(cfg, es, host, s, t)[..n]
  {
    if n == |es| {
      assert es[..n] == es;
    } else {
      VerdictsOfPrefix(cfg, Init(es), host, s, t, n);
      assert Init(es)[..n] == es[..n];
    }
  }

  /** From the first admission of the window on, every admission of the window is counted. */
  lemma {:induction false} CountsFrom(cfg: Config, es: seq<Event>, host: string, s: Instant, t: Instant, i: nat)
    requires forall k :: 0 <= k < i && k < |es| ==> !Verdicts(cfg, es, host, s, t)[k]
    ensures AdmittedIn(cfg, es, host, s, t) <= AdmittedFrom(cfg, es, host, i)
  {
    if es != [] {
      var v := Verdicts(cfg, Init(es), host, s, t);
      assert forall k :: 0 <= k < |v| ==> v[k] == Verdicts(cfg, es, host, s, t)[k];
      CountsFrom(cfg, Init(es), host, s, t, i);
      assert |es| - 1 < i ==> !Verdicts(cfg, es, host, s, t)[|es| - 1];
    }
  }

  /** Calls after the last admission of the window count for nothing. */
  lemma {:induction false} CountsUpTo(cfg: Config, es: seq<Event>, host: string, s: Instant, t: Instant, n: nat)
    requires n <= |es| && forall k :: n <= k < |es| ==> !Verdicts(cfg, es, host, s, t)[k]
    ensures AdmittedIn(cfg, es[..n], host, s, t) == AdmittedIn(cfg, es, host, s, t)
  {
    if n == |es| {
      assert es[..n] == es;
    } else {
      var v := Verdicts(cfg, Init(es), host, s, t);
      assert forall k :: 0 <= k < |v| ==> v[k] == Verdicts(cfg, es, host, s, t)[k];
      CountsUpTo(cfg, Init(es), host, s, t, n);
      assert Init(es)[..n] == es[..n];
      assert !Verdicts(cfg, es, host, s, t)[|es| - 1];
    }
  }

  /** The first and the last true entry of a list that has one. */
  lemma {:induction false} FirstAndLast(v: seq<bool>) returns (i: nat, j: nat)
    requires true in v
    ensures i <= j < |v| && v[i] && v[j] && forall k :: 0 <= k < |v| && v[k] ==> i <= k <= j
  {
    var init := v[..|v| - 1];
    assert v == init + [v[|v| - 1]];
    if true in init {
      i, j := FirstAndLast(init);
      if v[|v| - 1] { j := |v| - 1; }
    } else {
      i, j := |v| - 1, |v| - 1;
      assert forall k :: 0 <= k < |init| ==> v[k] == init[k] && init[k] in init;
    }
  }

  lemma {:induction false} CountedIsThere(cfg: Config, es: seq<Event>, host: string, s: Instant, t: Instant)
    requires AdmittedIn(cfg, es, host, s, t) > 0
    ensures true in Verdicts(cfg, es, host, s, t)
  {
    if AdmittedIn(cfg, Init(es), host, s, t) > 0 {
      CountedIsThere(cfg, Init(es), host, s, t);
    } else {
      assert Verdicts(cfg, es, host, s, t)[|es| - 1];
    }
  }

  lemma AdmittedRefills(cfg: Config, es: seq<Event>, host: string, s: Instant, t: Instant, k: nat)
    requires k < |es| && Verdicts(cfg, es, host, s, t)[k]
    ensures var bs := After(cfg, es[..k + 1]);
            host in bs && bs[host].lastRefill == es[k].at && 0.0 <= bs[host].tokens && s <= es[k].at <= t
  {
    var run := es[..k + 1];
    VerdictsOfPrefix(cfg, es, host, s, t, k + 1);
    assert Last(run) == es[k] && Verdicts(cfg, run, host, s, t)[k];
  }

  lemma {:induction false} RewoundGrows(cfg: Config, es: seq<Event>, host: string, i: nat)
    ensures 0.0 <= RewoundFrom(cfg, es, host, i) <= RewoundFrom(cfg, es, host, 0)
  {
    if es != [] {
      RewoundGrows(cfg, Init(es), host, i);
      RewindIsPositive(cfg, After(cfg, Init(es)), Last(es), host);
    }
  }

  lemma RewindIsPositive(cfg: Config, bs: Buckets, e: Event, host: string)
    ensures 0.0 <= Rewind(cfg, bs, e, host)
  {
    if host in bs { WorthBasics(cfg, e.at, bs[host].lastRefill); }
  }

  lemma NetInWindow(cfg: Config, s: Instant, t: Instant, first: Instant, last: Instant)
    requires s <= first <= t && s <= last <= t
    ensures Net(cfg, first, last) <= Worth(cfg, s, t)
  {
    WorthBasics(cfg, s, first);
    WorthBasics(cfg, last, first);
    WorthBasics(cfg, first, last);
    WorthBasics(cfg, s, t);
    WorthBasics(cfg, last, t);
    if first <= last {
      WorthAdds(cfg, s, first, t);
      WorthAdds(cfg, first, last, t);
    }
  }

  /** The bound for a run whose last call is admitted in the window. */
  lemma WindowEndsInAdmission(cfg: Config, es: seq<Event>, host: string, s: Instant, t: Instant, i: nat)
    requires i < |es| && Verdicts(cfg, es, host, s, t)[i] && Verdicts(cfg, es, host, s, t)[|es| - 1]
    ensures AdmittedFrom(cfg, es, host, i) as real
            <= Capacity(cfg) + Worth(cfg, s, t) + RewoundFrom(cfg, es, host, i + 1)
  {
    Accounting(cfg, es, host, i);
    AdmittedRefills(cfg, es, host, s, t, i);
    AccrualIsExact(cfg, es, host, i, es[i].at);
    AdmittedRefills(cfg, es, host, s, t, |es| - 1);
    assert es[..|es|] == es;
    NetInWindow(cfg, s, t, es[i].at, Last(es).at);
  }

  /**
   * In any window [s, t] of any run, in any clock order, the calls admitted on a host are at most the burst,
   * what accrues in the window, and what the time is worth by which stale readings, between the first and
   * the last of those calls, set the host's refill time back.
   */
  lemma AdmissionBoundAnyOrder(cfg: Config, es: seq<Event>, host: string, s: Instant, t: Instant)
    returns (i: nat, j: nat)
    requires s <= t && AdmittedIn(cfg, es, host, s, t) > 0
    ensures var v := Verdicts(cfg, es, host, s, t);
            i <= j < |es| && v[i] && v[j] && forall k :: 0 <= k < |es| && v[k] ==> i <= k <= j
    ensures AdmittedIn(cfg, es, host, s, t) as real
            <= Capacity(cfg) + Worth(cfg, s, t) + RewoundFrom(cfg, es[..j + 1], host, i + 1)
  {
    CountedIsThere(cfg, es, host, s, t);
    i, j := FirstAndLast(Verdicts(cfg, es, host, s, t));
    CountsWithin(cfg, es, host, s, t, i, j);
    WindowEndsInAdmission(cfg, es[..j + 1], host, s, t, i);
  }

  /** The admissions of the window are among those from its first up to its last. */
  lemma CountsWithin(cfg: Config, es: seq<Event>, host: string, s: Instant, t: Instant, i: nat, j: nat)
    requires j < |es| && forall k :: 0 <= k < |es| && Verdicts(cfg, es, host, s, t)[k] ==> i <= k <= j
    ensures Verdicts(cfg, es[..j + 1], host, s, t) == Verdicts(cfg, es, host, s, t)[..j + 1]
    ensures AdmittedIn(cfg, es, host, s, t) <= AdmittedFrom(cfg, es[..j + 1], host, i)
  {
    VerdictsOfPrefix(cfg, es, host, s, t, j + 1);
    CountsUpTo(cfg, es, host, s, t, j + 1);
    CountsFrom(cfg, es[..j + 1], host, s, t, i);
  }

  /** The last refill of a host is no later than its latest call, if its calls are in clock order. */
  lemma {:induction false} RefillIsPast(cfg: Config, es: seq<Event>, host: string, t: Instant)
    requires host in After(cfg, es) && forall k :: 0 <= k < |es| && es[k].host == host ==> es[k].at <= t
    ensures After(cfg, es)[host].lastRefill <= t
  {
    var bs := After(cfg, Init(es));
    assert Last(es).host == host ==> es[|es| - 1].at <= t;
    if host in bs {
      assert forall k :: 0 <= k < |Init(es)| ==> Init(es)[k] == es[k];
      RefillIsPast(cfg, Init(es), host, t);
    }
  }

  lemma {:induction false} OrderedRewindsNothing(cfg: Config, es: seq<Event>, host: string)
    requires ClockOrderedOn(es, host)
    ensures RewoundFrom(cfg, es, host, 0) == 0.0
  {
    if es != [] {
      var init, e := Init(es), Last(es);
      assert forall k :: 0 <= k < |init| ==> init[k] == es[k];
      OrderedRewindsNothing(cfg, init, host);
      if e.host == host && host in After(cfg, init) {
        RefillIsPast(cfg, init, host, e.at);
        WorthBasics(cfg, e.at, After(cfg, init)[host].lastRefill);
      }
    }
  }

  /**
   * In any window [s, t] of any run whose calls on `host` are in clock order, at most
   * burst + qps * (t - s) of them are admitted, whatever 429s, successes and other hosts do.
   */
  lemma OrderedBound(cfg: Config, es: seq<Event>, host: string, s: Instant, t: Instant)
    requires s <= t && ClockOrderedOn(es, host)
    ensures AdmittedIn(cfg, es, host, s, t) as real <= Capacity(cfg) + Worth(cfg, s, t)
  {
    WorthBasics(cfg, s, t);
    if AdmittedIn(cfg, es, host, s, t) > 0 {
      var i, j := AdmissionBoundAnyOrder(cfg, es, host, s, t);
      assert forall k :: 0 <= k <= j ==> es[..j + 1][k] == es[k];
      OrderedRewindsNothing(cfg, es[..j + 1], host);
      RewoundGrows(cfg, es[..j + 1], host, i + 1);
    }
  }

  /** Three calls whose clock readings reached the bucket out of order. */
  function StaleReadRun(): seq<Event> {
    var sec := NANOS_PER_SEC;
    [Event("h", TryAcquire, 10 * sec), Event("h", TryAcquire, 5 * sec), Event("h", TryAcquire, 10 * sec)]
  }

  /**
   * Clock order is needed: `refill` stores `now` even when it is older than the stored instant, so
   * one stale reading makes the same five seconds accrue twice, and two calls get in at one instant
   * under a burst of one.
   */
  lemma ClockOrderIsNeeded()
    ensures var cfg := Config(1.0, 1);
            var t := 10 * NANOS_PER_SEC;
            AdmittedIn(cfg, StaleReadRun(), "h", t, t) == 2
            && AdmittedIn(cfg, StaleReadRun(), "h", t, t) as real > Capacity(cfg) + Worth(cfg, t, t)
  {
    var cfg := Config(1.0, 1);
    var t := 10 * NANOS_PER_SEC;
    var es := StaleReadRun();
    var es2, es1 := Init(es), Init(Init(es));
    assert Init(es1) == [];
    assert es1 == [es[0]] && es2 == [es[0], es[1]];
    var b0 := NewBucket(cfg, t);
    var b1 := b0.(tokens := 0.0);
    assert AcquireStep(b0, t) == (b1, Admitted);
    assert After(cfg, es1) == map["h" := b1];
    assert AdmittedIn(cfg, es1, "h", t, t) == 1;
    var b2 := b1.(lastRefill := 5 * NANOS_PER_SEC);
    assert AcquireStep(b1, 5 * NANOS_PER_SEC).0 == b2;
    assert After(cfg, es2) == map["h" := b2];
    assert AdmittedIn(cfg, es2, "h", t, t) == 1;
    assert ElapsedSecs(5 * NANOS_PER_SEC, t) == 5.0;
    assert AcquireStep(b2, t).1 == Admitted;
  }

  // ----- isolation -----------------------------------------------------------------

  predicate AgreeOn(a: Buckets, b: Buckets, host: string) {
    (host in a <==> host in b) && (host in a ==> a[host] == b[host])
  }

  lemma SameBucketSameStep(cfg: Config, a: Buckets, b: Buckets, e: Event)
    requires SoundBuckets(cfg, a) && SoundBuckets(cfg, b) && AgreeOn(a, b, e.host)
    ensures AgreeOn(Apply(cfg, a, e).0, Apply(cfg, b, e).0, e.host) && Apply(cfg, a, e).1 == Apply(cfg, b, e).1
  {}

  lemma StepElsewhere(cfg: Config, a: Buckets, e: Event, host: string)
    requires SoundBuckets(cfg, a) && e.host != host
    ensures AgreeOn(Apply(cfg, a, e).0, a, host)
  {}

  /** A host's bucket is what it would be had only its own calls been made. */
  lemma {:induction false} ProjectionKeepsBucket(cfg: Config, es: seq<Event>, host: string)
    ensures AgreeOn(After(cfg, es), After(cfg, OnlyHost(es, host)), host)
  {
    if es != [] {
      ProjectionKeepsBucket(cfg, Init(es), host);
      var before := After(cfg, Init(es));
      if Last(es).host == host {
        var own := OnlyHost(es, host);
        assert Init(own) == OnlyHost(Init(es), host) && Last(own) == Last(es);
        SameBucketSameStep(cfg, before, After(cfg, Init(own)), Last(es));
      } else {
        assert OnlyHost(es, host) == OnlyHost(Init(es), host);
        StepElsewhere(cfg, before, Last(es), host);
      }
    }
  }

  /** What the callers of one host see is what they would see if no other host existed. */
  lemma {:induction false} HostIsolation(cfg: Config, es: seq<Event>, host: string)
    ensures OutcomesOn(cfg, es, host) == OutcomesOn(cfg, OnlyHost(es, host), host)
    ensures |OutcomesOn(cfg, es, host)| == |OnlyHost(es, host)|
  {
    if es != [] {
      HostIsolation(cfg, Init(es), host);
      if Last(es).host == host {
        var own := OnlyHost(es, host);
        assert Init(own) == OnlyHost(Init(es), host) && Last(own) == Last(es);
        ProjectionKeepsBucket(cfg, Init(es), host);
        SameBucketSameStep(cfg, After(cfg, Init(es)), After(cfg, Init(own)), Last(es));
      } else {
        assert OnlyHost(es, host) == OnlyHost(Init(es), host);
      }
    }
  }

  // ----- cooldown ------------------------------------------------------------------

  /** A success, another 429, or an acquire once the time is up: it takes the cooldown away or replaces it. */
  predicate Lifts(e: Event, host: string, end: Instant) {
    e.host == host && (!e.call.TryAcquire? || e.at >= end)
  }

  function EndOf(e: Event): Instant
    requires e.call.Record429?
  {
    var secs := match e.call.retryAfterSecs case None => 30 case Some(s) => if s < 86_400 then s else 86_400;
    e.at + secs * 1_000_000_000
  }

  /** From call `i` on, up to call `j`, the host stays in the cooldown that call `i` started. */
  lemma {:induction false} CooldownPersists(cfg: Config, es: seq<Event>, i: nat, j: nat)
    requires i < j <= |es| && es[i].call.Record429?
    requires forall k :: i < k < j ==> !Lifts(es[k], es[i].host, EndOf(es[i]))
    ensures var bs := After(cfg, es[..j]); es[i].host in bs && bs[es[i].host].cooldownUntil == Some(EndOf(es[i]))
    decreases j
  {
    var pre := es[..j];
    assert Init(pre) == es[..j - 1] && Last(pre) == es[j - 1];
    if j - 1 > i {
      CooldownPersists(cfg, es, i, j - 1);
    }
  }

  /** Call `i` is the 429 whose cooldown still holds the host at call `j`. */
  predicate HeldBy(es: seq<Event>, i: int, j: nat) {
    && 0 <= i < j < |es|
    && es[i].host == es[j].host
    && es[i].call.Record429?
    && es[j].at < EndOf(es[i])
    && forall k :: i < k < j ==> !Lifts(es[k], es[i].host, EndOf(es[i]))
  }

  /**
   * An acquire that reads the clock before min(Retry-After or 30 s, 24 h) has passed since a 429 is refused
   * with the exact millisecond ceiling of what is left, unless a success, another 429, or an acquire that
   * read a later time has come between. Read after the 429 it is told a day at most.
   */
  lemma CooldownIsHonoured(cfg: Config, es: seq<Event>, i: nat, j: nat)
    requires HeldBy(es, i, j) && es[j].call.TryAcquire?
    ensures var left := EndOf(es[i]) - es[j].at;
            exists ms: nat :: OutcomeAt(cfg, es, j) == Denied(Wait(ms, Retry429)) && ms > 0
                   && (ms < 0xFFFF_FFFF_FFFF_FFFF ==> left <= ms * 1_000_000 < left + 1_000_000)
                   && (es[i].at <= es[j].at ==> ms <= 86_400_000)
  {
    CooldownPersists(cfg, es, i, j);
    var left := EndOf(es[i]) - es[j].at;
    DurationCeilIsExact(left);
    assert es[i].at <= es[j].at ==> left <= MAX_429_BACKOFF_SECS * NANOS_PER_SEC;
    assert OutcomeAt(cfg, es, j) == Denied(Wait(DurationToMsCeil(left), Retry429));
  }

  /** A 429, and two acquires whose clock readings reached the bucket out of order. */
  function LiftedEarlyRun(): seq<Event> {
    var sec := NANOS_PER_SEC;
    [Event("h", Record429(None), 0), Event("h", TryAcquire, 31 * sec), Event("h", TryAcquire, 29 * sec)]
  }

  /** Out of order a later reading lifts the cooldown, and one from before its end gets in. */
  lemma StaleReadSlipsPastCooldown()
    ensures var es := LiftedEarlyRun();
            es[2].at < EndOf(es[0]) && OutcomeAt(Config(1.0, 2), es, 2) == Admitted
  {
    var cfg, es, sec := Config(1.0, 2), LiftedEarlyRun(), NANOS_PER_SEC;
    var es1, es2 := es[..1], es[..2];
    assert Init(es2) == es1 && Init(es1) == [] && Last(es1) == es[0] && Last(es2) == es[1];
    var b1 := Record429Step(NewBucket(cfg, 0), 0, None);
    assert After(cfg, es1) == map["h" := b1];
    var b2 := b1.(tokens := 1.0, lastRefill := 31 * sec, cooldownUntil := None);
    assert ElapsedSecs(0, 31 * sec) == 31.0;
    assert AcquireStep(b1, 31 * sec) == (b2, Admitted);
    assert After(cfg, es2) == map["h" := b2];
    assert AcquireStep(b2, 29 * sec).1 == Admitted;
  }

  /** A stored cooldown comes from a 429 that nothing has lifted since. */
  lemma {:induction false} CooldownHasOrigin(cfg: Config, es: seq<Event>, host: string) returns (i: nat)
    requires host in After(cfg, es) && After(cfg, es)[host].cooldownUntil.Some?
    ensures i < |es| && es[i].host == host && es[i].call.Record429?
    ensures forall k :: i < k < |es| ==> !Lifts(es[k], host, EndOf(es[i]))
    ensures After(cfg, es)[host].cooldownUntil == Some(EndOf(es[i]))
  {
    if Last(es).host == host && Last(es).call.Record429? {
      i := |es| - 1;
    } else {
      i := CooldownHasOrigin(cfg, Init(es), host);
      assert Init(es)[i] == es[i];
    }
  }

  /** In any clock order, an acquire is refused for a 429 exactly when a 429 before it holds the host. */
  lemma Retry429Exactly(cfg: Config, es: seq<Event>, j: nat)
    requires j < |es| && es[j].call.TryAcquire?
    ensures (OutcomeAt(cfg, es, j).Denied? && OutcomeAt(cfg, es, j).wait.reason == Retry429)
            <==> exists i :: HeldBy(es, i, j)
  {
    var host, pre := es[j].host, es[..j];
    var bs := After(cfg, pre);
    if OutcomeAt(cfg, es, j).Denied? && OutcomeAt(cfg, es, j).wait.reason == Retry429 {
      assert host in bs;
      var i := CooldownHasOrigin(cfg, pre, host);
      assert forall k :: i < k < j ==> pre[k] == es[k];
      assert HeldBy(es, i, j);
    }
    if i :| HeldBy(es, i, j) {
      CooldownPersists(cfg, es, i, j);
    }
  }

  /** The host has seen nothing but acquires since the 429 at call `i`, whose time is not up at call `j`. */
  predicate OnlyAcquiresSince(es: seq<Event>, i: int, j: nat) {
    && 0 <= i < j < |es|
    && es[i].host == es[j].host
    && es[i].call.Record429?
    && es[j].at < EndOf(es[i])
    && forall k :: i < k < j && es[k].host == es[j].host ==> es[k].call.TryAcquire?
  }

  /** In clock order only a success or another 429 takes a cooldown away before its time. */
  lemma OrderedRetry429(cfg: Config, es: seq<Event>, j: nat)
    requires j < |es| && es[j].call.TryAcquire? && ClockOrderedOn(es, es[j].host)
    ensures (OutcomeAt(cfg, es, j).Denied? && OutcomeAt(cfg, es, j).wait.reason == Retry429)
            <==> exists i :: OnlyAcquiresSince(es, i, j)
  {
    Retry429Exactly(cfg, es, j);
    forall i ensures HeldBy(es, i, j) <==> OnlyAcquiresSince(es, i, j) {}
    if i :| HeldBy(es, i, j) { assert OnlyAcquiresSince(es, i, j); }
    if i :| OnlyAcquiresSince(es, i, j) { assert HeldBy(es, i, j); }
  }

  /** A 429 also empties the bucket: what gets in after the cooldown has accrued since the last refill. */
  lemma DrainedBy429(b: Bucket, at: Instant, retryAfterSecs: Option<nat>, u: Instant)
    requires Sound(b) && CooldownEnd(at, retryAfterSecs) <= u
    ensures AcquireStep(Record429Step(b, at, retryAfterSecs), u).1 == Admitted
            <==> ElapsedSecs(b.lastRefill, u) * b.refillPerSec >= 1.0
  {}

  /** The backoff is what the server asked for, 30 s if it asked for nothing, and a day at most. */
  lemma BackoffIsClamped(retryAfterSecs: Option<nat>)
    ensures BackoffSecs(retryAfterSecs) <= 86_400
    ensures retryAfterSecs.None? ==> BackoffSecs(retryAfterSecs) == 30
    ensures retryAfterSecs.Some? && retryAfterSecs.value <= 86_400 ==>
            BackoffSecs(retryAfterSecs) == retryAfterSecs.value
    ensures retryAfterSecs.Some? && retryAfterSecs.value > 86_400 ==> BackoffSecs(retryAfterSecs) == 86_400
  {}

  // ----- wait advice -----------------------------------------------------------------

  /** After a QPS denial, a later call is admitted exactly when the missing fraction has accrued. */
  lemma DeniedBucketRecovers(b: Bucket, now: Instant, u: Instant)
    requires Sound(b) && now <= u
    requires AcquireStep(b, now).1.Denied? && AcquireStep(b, now).1.wait.reason == QpsExceeded
    ensures var b' := AcquireStep(b, now).0;
            Sound(b') && b'.tokens < 1.0 &&
            (AcquireStep(b', u).1 == Admitted <==> ElapsedSecs(now, u) * b.refillPerSec >= 1.0 - b'.tokens)
    ensures var b' := AcquireStep(b, now).0;
            AcquireStep(b', u).1 != Admitted ==>
              AcquireStep(b', u).1.Denied? && AcquireStep(b', u).1.wait.reason == QpsExceeded
  {
    AcquireStepIsSound(b, now);
    var b' := AcquireStep(b, now).0;
    RefilledIsSound(b', u);
    ProductNonNegative(ElapsedSecs(now, u), b.refillPerSec);
  }

  lemma MulDiv(x: real, y: real, k: real)
    requires y > 0.0
    ensures k >= x / y <==> k * y >= x
  {}

  /**
   * The advised wait is exactly the least whole number of milliseconds that works: with a positive
   * rate and an unclamped wait, a caller alone on the host is admitted at or after the advised
   * instant and refused at every instant a millisecond or more before it.
   */
  lemma WaitAdviceIsLeast(b: Bucket, now: Instant, u: Instant)
    requires Sound(b) && b.refillPerSec > 0.0 && now <= u
    requires AcquireStep(b, now).1.Denied? && AcquireStep(b, now).1.wait.reason == QpsExceeded
    requires AcquireStep(b, now).1.wait.waitForMs < 0xFFFF_FFFF_FFFF_FFFF
    ensures var (b', o) := AcquireStep(b, now);
            var w := o.wait.waitForMs;
            && Sound(b')
            && (u >= now + w * 1_000_000 ==> AcquireStep(b', u).1 == Admitted)
            && (u <= now + (w - 1) * 1_000_000 ==> AcquireStep(b', u).1 != Admitted)
  {
    var (b', o) := AcquireStep(b, now);
    DeniedBucketRecovers(b, now, u);
    var rate, needed := b.refillPerSec, 1.0 - b'.tokens;
    var x := needed / rate * 1000.0;
    assert needed / rate > 0.0 by { MulDiv(needed, rate, 0.0); }
    CeilBounds(x);
    var w := o.wait.waitForMs;
    assert w == Ceil(x);
    assert w as real - 1.0 < x <= w as real;
    var el := ElapsedSecs(now, u);
    MulDiv(needed, rate, el);
    if u >= now + w * NANOS_PER_MS {
      assert el >= w as real / 1000.0;
    }
    if u <= now + (w - 1) * NANOS_PER_MS {
      assert el <= (w as real - 1.0) / 1000.0;
    }
  }

  /** With a zero rate no wait helps: the advice of u32::MAX seconds is a bound, not a promise. */
  lemma ZeroRateNeverRecovers(b: Bucket, now: Instant, u: Instant)
    requires Sound(b) && b.refillPerSec == 0.0 && now <= u
    requires AcquireStep(b, now).1.Denied? && AcquireStep(b, now).1.wait.reason == QpsExceeded
    ensures AcquireStep(b, now).1.wait.waitForMs == 4_294_967_295_000
    ensures Sound(AcquireStep(b, now).0) && AcquireStep(AcquireStep(b, now).0, u).1 != Admitted
  {}

  /** Calls on other hosts leave the bucket of `host` as it was. */
  lemma {:induction false} QuietCallsKeepBucket(cfg: Config, bs: Buckets, quiet: seq<Event>, host: string)
    requires SoundBuckets(cfg, bs)
    requires forall k :: 0 <= k < |quiet| ==> quiet[k].host != host
    ensures var bs' := Calls(cfg, bs, quiet);
            (host in bs' <==> host in bs) && (host in bs ==> bs'[host] == bs[host])
  {
    if quiet != [] {
      QuietCallsKeepBucket(cfg, bs, Init(quiet), host);
    }
  }

  /** The buckets after further calls on a limiter already in use. */
  function Calls(cfg: Config, bs: Buckets, es: seq<Event>): (r: Buckets)
    requires SoundBuckets(cfg, bs)
    ensures SoundBuckets(cfg, r)
  {
    if es == [] then bs else Apply(cfg, Calls(cfg, bs, Init(es)), Last(es)).0
  }

  /** Earliest instant at which a caller that obeys `o` calls again. */
  function RetryAt(o: Outcome, now: Instant): Instant
    requires o.Denied?
  {
    now + o.wait.waitForMs * NANOS_PER_MS
  }

  predicate Clamped(o: Outcome) {
    o.Denied? && o.wait.waitForMs == U64_MAX
  }

  /**
   * A caller that sleeps at least as long as it is told is admitted by its third attempt, starting
   * from any state of the limiter and even in a 429 cooldown, while other hosts call freely.
   */
  lemma ThirdAttemptSucceeds(cfg: Config, es: seq<Event>, host: string, t1: Instant,
                             quiet1: seq<Event>, t2: Instant, quiet2: seq<Event>, t3: Instant)
    requires RefillRate(cfg) > 0.0
    requires forall e :: e in quiet1 + quiet2 ==> e.host != host
    ensures var (s1, o1) := Apply(cfg, After(cfg, es), Event(host, TryAcquire, t1));
            var (s2, o2) := Apply(cfg, Calls(cfg, s1, quiet1), Event(host, TryAcquire, t2));
            var o3 := Apply(cfg, Calls(cfg, s2, quiet2), Event(host, TryAcquire, t3)).1;
            (o1.Denied? ==> t2 >= RetryAt(o1, t1)) && (o2.Denied? ==> t3 >= RetryAt(o2, t2)) &&
            !Clamped(o1) && !Clamped(o2) ==>
              o1 == Admitted || o2 == Admitted || o3 == Admitted
  {
    var e1, e2 := Event(host, TryAcquire, t1), Event(host, TryAcquire, t2);
    var bs := After(cfg, es);
    var (s1, o1) := Apply(cfg, bs, e1);
    var q1 := Calls(cfg, s1, quiet1);
    assert forall k :: 0 <= k < |quiet1| ==> quiet1[k] in quiet1 + quiet2;
    assert forall k :: 0 <= k < |quiet2| ==> quiet2[k] in quiet1 + quiet2;
    QuietCallsKeepBucket(cfg, s1, quiet1, host);
    var (s2, o2) := Apply(cfg, q1, e2);
    QuietCallsKeepBucket(cfg, s2, quiet2, host);
    if o1.Denied? && o2.Denied? && !Clamped(o1) && !Clamped(o2) && t2 >= RetryAt(o1, t1) && t3 >= RetryAt(o2, t2) {
      var b := Entry(cfg, bs, host, t1);
      if o1.wait.reason == QpsExceeded {
        WaitAdviceIsLeast(b, t1, t2);
      } else {
        DurationCeilIsExact(b.cooldownUntil.value - t1);
        WaitAdviceIsLeast(s1[host], t2, t3);
      }
    }
  }
}
