/**
 * The per-host limiter: a map of buckets driven by `try_acquire`, `record_429` and
 * `record_success`, and the runs those calls make.
 */
module RateLimiter {
  import opened Prelude
  import opened TokenBuckets

  type Buckets = map<string, Bucket>

  datatype Call = TryAcquire | Record429(retryAfterSecs: Option<nat>) | RecordSuccess

  /** One call on the limiter; `at` is the `Instant::now()` the call reads. */
  datatype Event = Event(host: string, call: Call, at: Instant)

  predicate SoundFor(cfg: Config, b: Bucket) {
    Sound(b) && b.capacity == Capacity(cfg) && b.refillPerSec == RefillRate(cfg)
  }

  predicate SoundBuckets(cfg: Config, bs: Buckets) {
    forall h :: h in bs ==> SoundFor(cfg, bs[h])
  }

  function Entry(cfg: Config, bs: Buckets, host: string, now: Instant): Bucket {
    if host in bs then bs[host] else NewBucket(cfg, now)
  }

  function Apply(cfg: Config, bs: Buckets, e: Event): (r: (Buckets, Outcome))
    requires SoundBuckets(cfg, bs)
    ensures SoundBuckets(cfg, r.0)
  {
    match e.call
    case TryAcquire =>
      var b := Entry(cfg, bs, e.host, e.at);
      AcquireStepIsSound(b, e.at);
      var (b', o) := AcquireStep(b, e.at);
      (bs[e.host := b'], o)
    case Record429(ra) =>
      (bs[e.host := Record429Step(Entry(cfg, bs, e.host, e.at), e.at, ra)], Recorded)
    case RecordSuccess =>
      (if e.host in bs then bs[e.host := SuccessStep(bs[e.host])] else bs, Recorded)
  }

  /** The buckets after a run of calls on a fresh limiter. */
  function After(cfg: Config, es: seq<Event>): (bs: Buckets)
    ensures SoundBuckets(cfg, bs)
  {
    if es == [] then map[] else Apply(cfg, After(cfg, es[..|es| - 1]), es[|es| - 1]).0
  }

  /** What call `i` of the run returned. */
  function OutcomeAt(cfg: Config, es: seq<Event>, i: nat): Outcome
    requires i < |es|
  {
    Apply(cfg, After(cfg, es[..i]), es[i]).1
  }

  function Last(es: seq<Event>): Event
    requires es != []
  {
    es[|es| - 1]
  }

  function Init(es: seq<Event>): seq<Event>
    requires es != []
  {
    es[..|es| - 1]
  }

  /** Calls on one host are in clock order; calls on different hosts may be in any order. */
  predicate ClockOrderedOn(es: seq<Event>, host: string) {
    forall i, j :: 0 <= i < j < |es| && es[i].host == host && es[j].host == host ==> es[i].at <= es[j].at
  }

  /** The outcomes the calls on `host` saw, in order. */
  function OutcomesOn(cfg: Config, es: seq<Event>, host: string): seq<Outcome> {
    if es == [] then []
    else OutcomesOn(cfg, Init(es), host) +
         if Last(es).host == host then [Apply(cfg, After(cfg, Init(es)), Last(es)).1] else []
  }

  function OnlyHost(es: seq<Event>, host: string): seq<Event> {
    if es == [] then []
    else OnlyHost(Init(es), host) + if Last(es).host == host then [Last(es)] else []
  }

  // ----- the limiter object ---------------------------------------------------

  class PerHostRateLimiter {
    var buckets: map<string, TokenBucket>
    const defaultConfig: Config

    /** No two hosts share a bucket. */
    ghost predicate Valid()
      reads this, set h | h in buckets :: buckets[h]
    {
      && (forall h, k :: h in buckets && k in buckets && h != k ==> buckets[h] != buckets[k])
      && (forall h :: h in buckets ==> SoundFor(defaultConfig, buckets[h].View()))
    }

    ghost function View(): Buckets
      reads this, set h | h in buckets :: buckets[h]
    {
      map h | h in buckets :: buckets[h].View()
    }

    constructor (cfg: Config)
      ensures Valid() && fresh(set h | h in buckets :: buckets[h])
      ensures defaultConfig == cfg && View() == After(cfg, [])
    {
      buckets := map[];
      defaultConfig := cfg;
    }

    /** The bucket of `host`, inserted full if the host has not been seen. */
    method GetOrInsert(host: string, now: Instant) returns (entry: TokenBucket)
      requires Valid()
      modifies this
      ensures Valid() && host in buckets && buckets[host] == entry
      ensures forall h :: h in buckets && h !in old(buckets) ==> fresh(buckets[h])
      ensures forall h :: h in old(buckets) ==> h in buckets && buckets[h] == old(buckets[h])
      ensures buckets.Keys == old(buckets.Keys) + {host}
      ensures View() == old(View())[host := Entry(defaultConfig, old(View()), host, now)]
    {
      if host !in buckets {
        entry := new TokenBucket(defaultConfig, now);
        buckets := buckets[host := entry];
      } else {
        entry := buckets[host];
      }
    }

    method TryAcquire(host: string, now: Instant) returns (outcome: Outcome)
      requires Valid()
      modifies this, set h | h in buckets :: buckets[h]
      ensures Valid()
      ensures forall h :: h in buckets && h !in old(buckets) ==> fresh(buckets[h])
      ensures forall h :: h in old(buckets) ==> h in buckets && buckets[h] == old(buckets[h])
      ensures (View(), outcome) == Apply(defaultConfig, old(View()), Event(host, Call.TryAcquire, now))
    {
      ghost var before := View();
      var entry := GetOrInsert(host, now);
      ghost var mid := View();
      outcome := entry.Acquire(now);
      UpdatedBucket(before, mid, host, entry);
    }

    method Record429(host: string, retryAfterSecs: Option<nat>, now: Instant)
      requires Valid()
      modifies this, set h | h in buckets :: buckets[h]
      ensures Valid()
      ensures forall h :: h in buckets && h !in old(buckets) ==> fresh(buckets[h])
      ensures forall h :: h in old(buckets) ==> h in buckets && buckets[h] == old(buckets[h])
      ensures View() == Apply(defaultConfig, old(View()), Event(host, Call.Record429(retryAfterSecs), now)).0
    {
      ghost var before := View();
      var entry := GetOrInsert(host, now);
      ghost var mid := View();
      entry.EnterCooldown(CooldownEnd(now, retryAfterSecs));
      UpdatedBucket(before, mid, host, entry);
    }

    method RecordSuccess(host: string, now: Instant)
      requires Valid()
      modifies this, set h | h in buckets :: buckets[h]
      ensures Valid() && buckets == old(buckets)
      ensures View() == Apply(defaultConfig, old(View()), Event(host, Call.RecordSuccess, now)).0
    {
      if host in buckets {
        ghost var before := View();
        buckets[host].cooldownUntil := None;
        UpdatedBucket(before, before, host, buckets[host]);
      }
    }

    /** Changing one stored bucket changes one entry of the view. */
    lemma UpdatedBucket(before: Buckets, mid: Buckets, host: string, entry: TokenBucket)
      requires host in buckets && buckets[host] == entry
      requires mid.Keys == buckets.Keys && mid.Keys == before.Keys + {host}
      requires forall h :: h in before && h != host ==> mid[h] == before[h]
      requires forall h :: h in buckets && h != host ==> buckets[h].View() == mid[h]
      ensures View() == before[host := entry.View()]
    {}
  }
}
