/**
 * The idempotency-key replay cache: its expiry rule, the sequential tool limiter that layers it
 * over the per-host limiter, and every interleaving of the atomic steps its callers take.
 */
module ReplayCache {
  import opened Prelude
  import opened TokenBuckets
  import opened RateLimiter

  /** A tool's JSON output or its error envelope, as text. */
  datatype ToolResult = Success(json: string) | Failure(envelope: string)

  datatype Record = Record(result: ToolResult, completedAt: Instant)

  type Cache = map<string, Record>

  predicate IsExpired(rec: Record, now: Instant, ttl: nat) {
    (if rec.completedAt < now then now - rec.completedAt else 0) >= ttl
  }

  /** What a lookup under the read guard finds. */
  function Lookup(completed: Cache, key: string, now: Instant, ttl: nat): Option<Record> {
    if key in completed && !IsExpired(completed[key], now, ttl) then Some(completed[key]) else None
  }

  /** `remove_if`: drop the entry only if it is still the one that was observed. */
  function RemoveIf(completed: Cache, key: string, observedAt: Instant): Cache {
    if key in completed && completed[key].completedAt == observedAt then completed - {key} else completed
  }

  /** `retain`: keep the records that have not expired at `now`. */
  function Retain(completed: Cache, now: Instant, ttl: nat): Cache {
    map k | k in completed && !IsExpired(completed[k], now, ttl) :: completed[k]
  }

  // ----- one caller at a time -------------------------------------------------

  datatype Decision = Replay(record: Record) | Proceed | BackOff(wait: Wait)

  class ToolRateLimiter {
    const perHost: PerHostRateLimiter
    var completed: Cache
    const ttl: nat

    constructor (perHost: PerHostRateLimiter, ttl: nat)
      ensures this.perHost == perHost && this.ttl == ttl && completed == map[]
    {
      this.perHost := perHost;
      this.ttl := ttl;
      completed := map[];
    }

    /**
     * A live record is replayed and the host limiter is not touched; otherwise an expired record is
     * dropped, nothing else changes in the cache, and the limiter decides.
     */
    method CheckOrReplay(key: string, host: string, lookupNow: Instant, acquireNow: Instant)
      returns (decision: Decision)
      requires perHost.Valid()
      modifies this, perHost, set h | h in perHost.buckets :: perHost.buckets[h]
      ensures perHost.Valid()
      ensures decision.Replay? <==> Lookup(old(completed), key, lookupNow, ttl).Some?
      ensures decision.Replay? ==>
                && Lookup(old(completed), key, lookupNow, ttl) == Some(decision.record)
                && completed == old(completed) && perHost.View() == old(perHost.View())
      ensures !decision.Replay? ==>
                var (bs, o) := Apply(perHost.defaultConfig, old(perHost.View()),
                  Event(host, Call.TryAcquire, acquireNow));
                && key !in completed && completed == old(completed) - {key}
                && perHost.View() == bs
                && (o == Admitted <==> decision == Proceed)
                && (o.Denied? ==> decision == BackOff(o.wait))
    {
      if key in completed {
        var entry := completed[key];
        if !IsExpired(entry, lookupNow, ttl) {
          return Replay(entry);
        }
        var observedAt := entry.completedAt;
        completed := RemoveIf(completed, key, observedAt);
      }
      assert completed == old(completed) - {key};
      var outcome := perHost.TryAcquire(host, acquireNow);
      decision := if outcome.Denied? then BackOff(outcome.wait) else Proceed;
    }

    method RecordCompletion(key: string, result: ToolResult, now: Instant)
      modifies this
      ensures completed == old(completed)[key := Record(result, now)]
    {
      completed := completed[key := Record(result, now)];
    }

    method GcExpired(now: Instant)
      modifies this
      ensures forall k :: k in completed <==> k in old(completed) && !IsExpired(old(completed)[k], now, ttl)
      ensures forall k :: k in completed ==> completed[k] == old(completed)[k]
    {
      completed := Retain(completed, now, ttl);
    }
  }

  // ----- any number of callers, interleaved -------------------------------------

  /** Where a caller stands between two of its atomic steps. */
  datatype Pc =
    | Idle
    | Evicting(key: string, observedAt: Instant)   // saw an expired record, guard dropped
    | Inserting(key: string, record: Record)       // has read the clock, not yet inserted
    | Sweeping(now: Instant)                       // gc: has read the clock, visiting entries

  datatype State = State(clock: Instant, completed: Cache, pcs: map<nat, Pc>)

  datatype Action =
    | Tick(clock: Instant)
    | LookUp(caller: nat, key: string)
    | Evict(caller: nat, key: string, observedAt: Instant)
    | BeginRecord(caller: nat, key: string, result: ToolResult)
    | Insert(caller: nat, key: string, record: Record)
    | BeginGc(caller: nat)
    | Visit(caller: nat, key: string)
    | EndGc(caller: nat)

  function PcOf(s: State, caller: nat): Pc {
    if caller in s.pcs then s.pcs[caller] else Idle
  }

  predicate Enabled(s: State, a: Action) {
    match a
    case Tick(clock) => s.clock <= clock
    case LookUp(c, _) => PcOf(s, c).Idle?
    case Evict(c, key, at) => PcOf(s, c) == Evicting(key, at)
    case BeginRecord(c, _, _) => PcOf(s, c).Idle?
    case Insert(c, key, rec) => PcOf(s, c) == Inserting(key, rec)
    case BeginGc(c) => PcOf(s, c).Idle?
    case Visit(c, key) => PcOf(s, c).Sweeping? && key in s.completed
    case EndGc(c) => PcOf(s, c).Sweeping?
  }

  function Next(s: State, a: Action, ttl: nat): State
    requires Enabled(s, a)
  {
    match a
    case Tick(clock) => s.(clock := clock)
    case LookUp(c, key) =>
      if key in s.completed && IsExpired(s.completed[key], s.clock, ttl)
      then s.(pcs := s.pcs[c := Evicting(key, s.completed[key].completedAt)])
      else s
    case Evict(c, key, at) =>
      s.(completed := RemoveIf(s.completed, key, at), pcs := s.pcs[c := Idle])
    case BeginRecord(c, key, result) =>
      s.(pcs := s.pcs[c := Inserting(key, Record(result, s.clock))])
    case Insert(c, key, rec) =>
      s.(completed := s.completed[key := rec], pcs := s.pcs[c := Idle])
    case BeginGc(c) => s.(pcs := s.pcs[c := Sweeping(s.clock)])
    case Visit(c, key) =>
      if IsExpired(s.completed[key], PcOf(s, c).now, ttl) then s.(completed := s.completed - {key}) else s
    case EndGc(c) => s.(pcs := s.pcs[c := Idle])
  }

  predicate Legal(start: Instant, run: seq<Action>, ttl: nat)
    decreases |run|, 0
  {
    run == [] || (Legal(start, run[..|run| - 1], ttl) && Enabled(Exec(start, run[..|run| - 1], ttl), run[|run| - 1]))
  }

  function Exec(start: Instant, run: seq<Action>, ttl: nat): State
    requires Legal(start, run, ttl)
    decreases |run|, 1
  {
    if run == [] then State(start, map[], map[])
    else Next(Exec(start, run[..|run| - 1], ttl), run[|run| - 1], ttl)
  }

  /** The completion last inserted under `key`, read off the run alone. */
  function LastInserted(run: seq<Action>, key: string): Option<Record> {
    if run == [] then None
    else
      var a := run[|run| - 1];
      if a.Insert? && a.key == key then Some(a.record) else LastInserted(run[..|run| - 1], key)
  }

  /** The cache holds last insertions only, and every live one. */
  ghost predicate Faithful(s: State, run: seq<Action>, ttl: nat) {
    && (forall k :: k in s.completed ==> LastInserted(run, k) == Some(s.completed[k]))
    && (forall k :: LastInserted(run, k).Some? && !IsExpired(LastInserted(run, k).value, s.clock, ttl) ==>
        k in s.completed)
  }

  /** What a caller remembers between steps is still safe to act on. */
  ghost predicate PendingSafe(s: State, ttl: nat) {
    forall c :: c in s.pcs ==>
      match s.pcs[c]
      case Evicting(_, at) => forall r: ToolResult :: IsExpired(Record(r, at), s.clock, ttl)
      case Sweeping(now) => now <= s.clock
      case Inserting(_, rec) => rec.completedAt <= s.clock
      case Idle => true
  }

  lemma StepKeepsPending(s: State, a: Action, ttl: nat)
    requires PendingSafe(s, ttl) && Enabled(s, a)
    ensures PendingSafe(Next(s, a, ttl), ttl)
  {}

  lemma StepKeepsFaithful(s: State, run: seq<Action>, a: Action, ttl: nat)
    requires PendingSafe(s, ttl) && Faithful(s, run, ttl) && Enabled(s, a)
    ensures Faithful(Next(s, a, ttl), run + [a], ttl)
  {}

  lemma {:induction false} RunInvariant(start: Instant, run: seq<Action>, ttl: nat)
    requires Legal(start, run, ttl)
    ensures PendingSafe(Exec(start, run, ttl), ttl)
    ensures Faithful(Exec(start, run, ttl), run, ttl)
  {
    if run != [] {
      var init, a := run[..|run| - 1], run[|run| - 1];
      RunInvariant(start, init, ttl);
      StepKeepsPending(Exec(start, init, ttl), a, ttl);
      StepKeepsFaithful(Exec(start, init, ttl), init, a, ttl);
      assert run == init + [a];
    }
  }

  /**
   * Under every interleaving of lookups, conditional evictions, insertions and sweeps, a lookup hits
   * exactly when the last completion inserted under its key is younger than the ttl, and returns it
   * verbatim.
   */
  lemma LookupRefinesHistory(start: Instant, run: seq<Action>, ttl: nat, key: string)
    requires Legal(start, run, ttl)
    ensures var s := Exec(start, run, ttl);
            var last := LastInserted(run, key);
            Lookup(s.completed, key, s.clock, ttl) ==
              if last.Some? && s.clock - last.value.completedAt < ttl then last else None
  {
    RunInvariant(start, run, ttl);
    var s := Exec(start, run, ttl);
    var last := LastInserted(run, key);
    if last.Some? {
      InsertedNotFromFuture(start, run, ttl, key);
    }
  }

  /** No record is stamped later than the clock that has been reached. */
  lemma {:induction false} InsertedNotFromFuture(start: Instant, run: seq<Action>, ttl: nat, key: string)
    requires Legal(start, run, ttl) && LastInserted(run, key).Some?
    ensures LastInserted(run, key).value.completedAt <= Exec(start, run, ttl).clock
  {
    var init, a := run[..|run| - 1], run[|run| - 1];
    RunInvariant(start, init, ttl);
    if !(a.Insert? && a.key == key) {
      InsertedNotFromFuture(start, init, ttl, key);
    }
  }

  /** No step of any run removes a record that has not expired, however late the step comes. */
  lemma NoLiveRecordIsRemoved(start: Instant, run: seq<Action>, a: Action, ttl: nat, key: string)
    requires Legal(start, run, ttl) && Enabled(Exec(start, run, ttl), a)
    requires key in Exec(start, run, ttl).completed
    requires !IsExpired(Exec(start, run, ttl).completed[key], Exec(start, run, ttl).clock, ttl)
    ensures key in Next(Exec(start, run, ttl), a, ttl).completed
  {
    var s := Exec(start, run, ttl);
    RunInvariant(start, run, ttl);
    var rec := s.completed[key];
    assert rec == Record(rec.result, rec.completedAt);
  }

  /** A sweep that visits a record which had expired when the sweep began reclaims its slot. */
  lemma SweepReclaimsExpired(s: State, c: nat, key: string, ttl: nat)
    requires PcOf(s, c).Idle? && key in s.completed && IsExpired(s.completed[key], s.clock, ttl)
    ensures var swept := Next(s, BeginGc(c), ttl);
            Enabled(swept, Visit(c, key)) && Next(swept, Visit(c, key), ttl).completed == s.completed - {key}
  {}

  // ----- the same, from what the callers were given --------------------------------------------------

  /** The clock, read off the run. */
  function ClockAfter(start: Instant, run: seq<Action>): Instant {
    if run == [] then start
    else if run[|run| - 1].Tick? then run[|run| - 1].clock
    else ClockAfter(start, run[..|run| - 1])
  }

  predicate IsStepOf(a: Action, caller: nat) {
    !a.Tick? && a.caller == caller
  }

  /** Step `i` is the last a caller took before step `n`, and there it got a completion to record. */
  predicate Begun(run: seq<Action>, i: int, n: nat, caller: nat, key: string)
    requires n <= |run|
  {
    && 0 <= i < n && run[i].BeginRecord? && run[i].caller == caller && run[i].key == key
    && forall k :: i < k < n ==> !IsStepOf(run[k], caller)
  }

  /** The last insertion under the key is step `j`, of a completion that its caller got at step `i`. */
  predicate LastCompletion(run: seq<Action>, i: int, j: int, key: string) {
    && 0 <= j < |run| && run[j].Insert? && run[j].key == key && Begun(run, i, j, run[j].caller, key)
    && forall k :: j < k < |run| ==> !(run[k].Insert? && run[k].key == key)
  }

  lemma {:induction false} ClockIsRead(start: Instant, run: seq<Action>, ttl: nat)
    requires Legal(start, run, ttl)
    ensures Exec(start, run, ttl).clock == ClockAfter(start, run)
  {
    if run != [] { ClockIsRead(start, run[..|run| - 1], ttl); }
  }

  /** A caller about to insert holds what it was given, stamped with the clock at that step. */
  lemma {:induction false} InsertingWasBegun(start: Instant, run: seq<Action>, ttl: nat, caller: nat) returns (i: int)
    requires Legal(start, run, ttl) && PcOf(Exec(start, run, ttl), caller).Inserting?
    ensures var pc := PcOf(Exec(start, run, ttl), caller);
            Begun(run, i, |run|, caller, pc.key) && pc.record == Record(run[i].result, ClockAfter(start, run[..i]))
  {
    var n := |run| - 1;
    var init, a := run[..n], run[n];
    if IsStepOf(a, caller) {
      ClockIsRead(start, init, ttl);
      i := n;
    } else {
      i := InsertingWasBegun(start, init, ttl, caller);
      assert init[..i] == run[..i];
    }
  }

  lemma {:induction false} LegalPrefix(start: Instant, run: seq<Action>, ttl: nat, n: nat)
    requires Legal(start, run, ttl) && n <= |run|
    ensures Legal(start, run[..n], ttl)
    ensures n < |run| ==> Enabled(Exec(start, run[..n], ttl), run[n])
  {
    if n == |run| {
      assert run[..n] == run;
    } else if n < |run| - 1 {
      LegalPrefix(start, run[..|run| - 1], ttl, n);
      assert run[..|run| - 1][..n] == run[..n];
    }
  }

  /** Every insertion is of a completion its caller was given earlier, with the stamp of that step. */
  lemma InsertionWasBegun(start: Instant, run: seq<Action>, ttl: nat, j: nat) returns (i: int)
    requires Legal(start, run, ttl) && j < |run| && run[j].Insert?
    ensures Begun(run, i, j, run[j].caller, run[j].key)
    ensures run[j].record == Record(run[i].result, ClockAfter(start, run[..i]))
  {
    LegalPrefix(start, run, ttl, j);
    i := InsertingWasBegun(start, run[..j], ttl, run[j].caller);
    assert run[..j][..i] == run[..i];
  }

  lemma {:induction false} LastInsertion(run: seq<Action>, key: string) returns (j: int)
    requires LastInserted(run, key).Some?
    ensures 0 <= j < |run| && run[j].Insert? && run[j].key == key && run[j].record == LastInserted(run, key).value
    ensures forall k :: j < k < |run| ==> !(run[k].Insert? && run[k].key == key)
  {
    var n := |run| - 1;
    if run[n].Insert? && run[n].key == key {
      j := n;
    } else {
      j := LastInsertion(run[..n], key);
    }
  }

  lemma {:induction false} NoInsertion(run: seq<Action>, key: string)
    requires LastInserted(run, key).None?
    ensures forall k :: 0 <= k < |run| ==> !(run[k].Insert? && run[k].key == key)
  {
    if run != [] { NoInsertion(run[..|run| - 1], key); }
  }

  /**
   * Under every interleaving, a lookup hits if and only if the completion last inserted under its key was
   * handed to its caller less than the ttl ago, and it returns what was handed over, with that stamp.
   */
  lemma LookupReturnsWhatWasGiven(start: Instant, run: seq<Action>, ttl: nat, key: string)
    requires Legal(start, run, ttl)
    ensures match Lookup(Exec(start, run, ttl).completed, key, ClockAfter(start, run), ttl)
            case Some(rec) =>
              exists i, j :: LastCompletion(run, i, j, key)
                && rec == Record(run[i].result, ClockAfter(start, run[..i]))
                && ClockAfter(start, run) - ClockAfter(start, run[..i]) < ttl
            case None =>
              forall i, j :: LastCompletion(run, i, j, key) ==>
                ClockAfter(start, run) - ClockAfter(start, run[..i]) >= ttl
  {
    LookupRefinesHistory(start, run, ttl, key);
    ClockIsRead(start, run, ttl);
    if LastInserted(run, key).Some? {
      var j := LastInsertion(run, key);
      var i := InsertionWasBegun(start, run, ttl, j);
      assert LastCompletion(run, i, j, key) && IsStepOf(run[i], run[j].caller);
      forall i', j' | LastCompletion(run, i', j', key) ensures i' == i && j' == j {}
    } else {
      NoInsertion(run, key);
    }
  }
}
