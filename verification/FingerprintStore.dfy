/**
 * The fingerprint table: one row per (stable id, site), with the casts that fit a fingerprint into
 * SQLite's signed columns. Integer overflow wraps, as in a release build.
 */
module FingerprintStore {
  import opened Prelude
  import opened Fingerprints

  const SECS_PER_DAY := 86_400

  type I64 = i: int | -TWO_63 <= i < TWO_63

  datatype Row = Row(
    cssPath: string, xpath: string, textNorm: string, tagName: string, attrsJson: string,
    attrsHash: I64, neighborHash: I64, lastSeen: I64)

  type Key = (string, string)
  type Rows = map<Key, Row>

  /** Two's-complement wrap to 64 bits: both `as i64` and release-mode i64 arithmetic. */
  function WrapI64(n: int): I64 {
    (n + TWO_63) % TWO_64 - TWO_63
  }

  function AsU64(i: I64): U64 {
    i % TWO_64
  }

  /** Whole seconds since the epoch, zero for times before it. */
  function EpochSecs(nanos: SystemTime): (secs: I64)
    ensures 0 <= secs
  {
    if nanos >= 0 then WrapI64(nanos / NANOS_PER_SEC) else 0
  }

  function ToRow(fp: Fingerprint): Row {
    Row(fp.cssPath, fp.xpath, fp.textNorm, fp.tagName, fp.attrsJson,
        WrapI64(fp.attrsHash), WrapI64(fp.neighborHash), EpochSecs(fp.lastSeen))
  }

  function FromRow(key: Key, r: Row): Fingerprint {
    Fingerprint(key.0, key.1, r.cssPath, r.xpath, r.textNorm, r.tagName, r.attrsJson,
                AsU64(r.attrsHash), AsU64(r.neighborHash),
                (if r.lastSeen > 0 then r.lastSeen else 0) * NANOS_PER_SEC)
  }

  function Find(rows: Rows, key: Key): Option<Fingerprint> {
    if key in rows then Some(FromRow(key, rows[key])) else None
  }

  /** Every time in the table is one that `upsert` stores: at or after the epoch. */
  predicate Stored(rows: Rows) {
    forall k :: k in rows ==> 0 <= rows[k].lastSeen
  }

  function Cutoff(days: U64, now: SystemTime): I64 {
    WrapI64(EpochSecs(now) - WrapI64(WrapI64(days) * SECS_PER_DAY))
  }

  class ParseStore {
    var rows: Rows

    constructor ()
      ensures rows == map[] && Stored(rows)
    {
      rows := map[];
    }

    /** A later lookup of the same key finds this fingerprint; every other key is as it was. */
    method Upsert(fp: Fingerprint)
      modifies this
      ensures rows == old(rows)[(fp.stableId, fp.urlFld) := ToRow(fp)]
      ensures old(Stored(rows)) ==> Stored(rows)
    {
      rows := rows[(fp.stableId, fp.urlFld) := ToRow(fp)];
    }

    method Lookup(stableId: string, urlFld: string) returns (r: Option<Fingerprint>)
      ensures r == Find(rows, (stableId, urlFld))
    {
      if (stableId, urlFld) in rows {
        r := Some(FromRow((stableId, urlFld), rows[(stableId, urlFld)]));
      } else {
        r := None;
      }
    }

    method PurgeOlderThanDays(days: U64, now: SystemTime) returns (deleted: nat)
      modifies this
      ensures forall k :: k in rows <==> k in old(rows) && old(rows)[k].lastSeen >= Cutoff(days, now)
      ensures forall k :: k in rows ==> rows[k] == old(rows)[k]
      ensures deleted == |old(rows)| - |rows|
      ensures old(Stored(rows)) ==> Stored(rows)
    {
      var cutoff := Cutoff(days, now);
      var kept := map k | k in rows && rows[k].lastSeen >= cutoff :: rows[k];
      assert kept.Keys <= rows.Keys;
      KeysShrink(kept.Keys, rows.Keys);
      deleted := |rows| - |kept|;
      rows := kept;
    }
  }

  lemma {:induction false} KeysShrink<T>(a: set<T>, b: set<T>)
    requires a <= b
    ensures |a| <= |b|
  {
    assert b == a + (b - a) && a !! (b - a);
  }

  lemma HashCastRoundTrip(h: U64)
    ensures AsU64(WrapI64(h)) == h
  {}

  /** Storing and looking up returns the fingerprint, its time cut to whole seconds after the epoch. */
  lemma StoredThenFound(rows: Rows, fp: Fingerprint)
    ensures var key := (fp.stableId, fp.urlFld);
            Find(rows[key := ToRow(fp)], key) ==
              Some(fp.(lastSeen := if fp.lastSeen < 0 then 0 else fp.lastSeen - fp.lastSeen % NANOS_PER_SEC))
  {
    HashCastRoundTrip(fp.attrsHash);
    HashCastRoundTrip(fp.neighborHash);
    if fp.lastSeen >= 0 {
      assert fp.lastSeen / NANOS_PER_SEC < TWO_63;
    }
  }

  lemma WrapIsCongruent(n: int)
    ensures exists q :: WrapI64(n) == n + q * TWO_64
  {
    var q := (n + TWO_63) / TWO_64;
    assert WrapI64(n) == n + (-q) * TWO_64;
  }

  /** Nested wraps are one wrap. */
  lemma CutoffIsOneWrap(days: U64, now: SystemTime)
    ensures Cutoff(days, now) == WrapI64(EpochSecs(now) - days * 86_400)
  {
    WrapIsCongruent(days);
    var q :| WrapI64(days) == days + q * TWO_64;
    WrapIsCongruent(WrapI64(days) * SECS_PER_DAY);
    var p :| WrapI64(WrapI64(days) * SECS_PER_DAY) == WrapI64(days) * SECS_PER_DAY + p * TWO_64;
    var t := EpochSecs(now) - days * 86_400;
    var k := -(q * SECS_PER_DAY + p);
    assert EpochSecs(now) - WrapI64(WrapI64(days) * SECS_PER_DAY) == t + k * TWO_64;
    WrapIgnoresMultiples(t, k);
  }

  lemma WrapIgnoresMultiples(t: int, k: int)
    ensures WrapI64(t + k * TWO_64) == WrapI64(t)
  {}

  /** A purge with one cutoff deletes the rows of this table that a purge with the other would. */
  ghost predicate PurgesAlike(rows: Rows, cutoff: int, target: int) {
    forall k :: k in rows ==> (rows[k].lastSeen < cutoff <==> rows[k].lastSeen < target)
  }

  /**
   * From every table that can arise, a purge deletes exactly the rows last seen more than `days` days ago
   * if and only if the true cutoff is in the i64 range or wraps to a time no later than the epoch.
   * Otherwise the subtraction wraps round and rows that should stay are deleted.
   */
  lemma PurgeIsExactIff(days: U64, now: SystemTime)
    ensures var target := EpochSecs(now) - days * 86_400;
            (forall rows :: Stored(rows) ==> PurgesAlike(rows, Cutoff(days, now), target))
            <==> target >= -TWO_63 || WrapI64(target) <= 0
  {
    var target := EpochSecs(now) - days * 86_400;
    CutoffIsOneWrap(days, now);
    if target >= -TWO_63 {
      assert target < TWO_63;
      assert WrapI64(target) == target;
    } else if WrapI64(target) > 0 {
      var k := ("", "");
      var rows := map[k := Row("", "", "", "", "", 0, 0, 0)];
      assert Stored(rows) && rows[k].lastSeen == 0;
      assert !PurgesAlike(rows, Cutoff(days, now), target);
    }
  }

  /** A cutoff far below the i64 range that wraps to one before the epoch, and so does no harm. */
  lemma HarmlessUnderflow()
    ensures var now, days := 1_700_000_000 * NANOS_PER_SEC, 250_000_000_000_000;
            && EpochSecs(now) - days * 86_400 < -TWO_63
            && forall rows :: Stored(rows) ==>
              PurgesAlike(rows, Cutoff(days, now), EpochSecs(now) - days * 86_400)
  {
    PurgeIsExactIff(250_000_000_000_000, 1_700_000_000 * NANOS_PER_SEC);
  }

  /** Asking for u64::MAX days deletes every row seen before tomorrow. */
  lemma PurgeOfEverything(now: SystemTime)
    requires EpochSecs(now) < TWO_63 - SECS_PER_DAY
    ensures Cutoff(TWO_64 - 1, now) == EpochSecs(now) + 86_400
  {}
}
