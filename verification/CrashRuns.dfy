/**
 * Crash safety over whole histories: any sequence of saves, each of any profile and each cut short after
 * any number of its file operations.
 */
module CrashRuns {
  import opened Prelude
  import opened Text
  import opened Envelope
  import opened AuthFiles
  import opened CookieJar
  import opened ProfileStore

  /** What a save stored: the cookies and the context they are bound to. */
  datatype Saved = Saved(context: string, cookies: seq<Cookie>)

  /** The cookies load as they are, or would if one of the profile's trash slots were moved back. */
  ghost predicate Restorable(env: Env, source: KeySource, fs: Files, p: string, saved: Saved) {
    if Enc(p) in fs then Load(env, source, fs, p, saved.context) == Ok(saved.cookies)
    else
      exists ts :: Trash(TrashName(p, ts)) in fs &&
                   var moved := fs[Enc(p) := fs[Trash(TrashName(p, ts))]];
                   Load(env, source, moved, p, saved.context) == Ok(saved.cookies)
  }

  /** A blob that opens to what was saved, under the key on disk. */
  predicate Opens(env: Env, key: Result<Key>, p: string, blob: Bytes, saved: Saved) {
    ReadBlob(env, key, p, saved.context, blob) == Ok(saved.cookies)
  }

  /** The same, without the detour over a repaired directory. */
  ghost predicate KeptReadable(env: Env, key: Result<Key>, fs: Files, p: string, saved: Saved) {
    exists blob :: Kept(fs, p, blob) && Opens(env, key, p, blob, saved)
  }

  lemma RestorableIffKept(env: Env, source: KeySource, fs: Files, p: string, saved: Saved)
    requires ValidProfile(p)
    ensures Restorable(env, source, fs, p, saved) <==> KeptReadable(env, KeyOnDisk(env, source, fs, p), fs, p, saved)
  {
    var key := KeyOnDisk(env, source, fs, p);
    if Enc(p) in fs {
      assert Kept(fs, p, fs[Enc(p)]);
    } else {
      forall ts: nat | Trash(TrashName(p, ts)) in fs
        ensures var blob := fs[Trash(TrashName(p, ts))];
                Kept(fs, p, blob) && KeyOnDisk(env, source, fs[Enc(p) := blob], p) == key
      {
        assert SlotHolds(fs, p, ts, fs[Trash(TrashName(p, ts))]);
        LiveNamesAreApart(p, p);
      }
    }
  }

  // ----- one interrupted save ---------------------------------------------------------------------

  /** A profile whose key is on disk keeps it: the salt is reused, so blob and metadata always fit. */
  lemma PlanKeepsKey(env: Env, source: KeySource, fs: Files, req: Request, x: Ambient)
    requires PlanSave(env, source, fs, req, x).Ok? && KeyOnDisk(env, source, fs, req.profile).Ok?
    ensures var plan, key := PlanSave(env, source, fs, req, x).value, KeyOnDisk(env, source, fs, req.profile);
            && plan.blob ==
              Encrypt(env.crypto, req.profile, req.context, key.value, x.nonce, env.cookiesToJson(req.cookies))
            && KeyOf(env, source, req.profile, plan.meta.saltB64) == key
  {}

  lemma EncryptedReadsBack(env: Env, key: Key, profile: string, context: string, nonce: Nonce, cookies: seq<Cookie>)
    requires LawfulEnv(env)
    ensures ReadBlob(env, Ok(key), profile, context,
            Encrypt(env.crypto, profile, context, key, nonce, env.cookiesToJson(cookies))) == Ok(cookies)
  {}

  lemma KeySurvives(env: Env, source: KeySource, fs: Files, req: Request, x: Ambient, k: nat)
    requires LawfulEnv(env) && PlanSave(env, source, fs, req, x).Ok? && KeyOnDisk(env, source, fs, req.profile).Ok?
    requires k <= |SaveOps(env, fs, req.profile, PlanSave(env, source, fs, req, x).value, x)|
    ensures KeyOnDisk(env, source, Interrupted(env, fs, req.profile, PlanSave(env, source, fs, req, x).value, x, k),
            req.profile)
            == KeyOnDisk(env, source, fs, req.profile)
  {
    var plan := PlanSave(env, source, fs, req, x).value;
    SaveIsCrashConsistent(env, fs, req.profile, plan, x, k, []);
    PlanKeepsKey(env, source, fs, req, x);
    assert env.metaFromJson(env.metaToJson(plan.meta)) == Some(plan.meta);
  }

  /**
   * An interrupted save loses nothing: if the profile's cookies could be restored before it, then after
   * any number of its steps either they still can or, exactly from the move of the new blob on, the new
   * ones can.
   */
  lemma InterruptedSaveIsRestorable(
    env: Env, source: KeySource, fs: Files, req: Request, x: Ambient, k: nat, saved: Saved)
    requires LawfulEnv(env) && PlanSave(env, source, fs, req, x).Ok?
    requires k <= |SaveOps(env, fs, req.profile, PlanSave(env, source, fs, req, x).value, x)|
    requires Restorable(env, source, fs, req.profile, saved)
    ensures var plan := PlanSave(env, source, fs, req, x).value;
            var fs' := Interrupted(env, fs, req.profile, plan, x, k);
            var now := if Committed(fs, req.profile, plan, x, k) then Saved(req.context, req.cookies) else saved;
            Restorable(env, source, fs', req.profile, now)
  {
    var p, plan := req.profile, PlanSave(env, source, fs, req, x).value;
    var fs' := Interrupted(env, fs, p, plan, x, k);
    var key := KeyOnDisk(env, source, fs, p);
    RestorableIffKept(env, source, fs, p, saved);
    var old_ :| Kept(fs, p, old_) && Opens(env, key, p, old_, saved);
    KeySurvives(env, source, fs, req, x, k);
    SaveIsCrashConsistent(env, fs, p, plan, x, k, old_);
    if Committed(fs, p, plan, x, k) {
      PlanKeepsKey(env, source, fs, req, x);
      EncryptedReadsBack(env, key.value, p, req.context, x.nonce, req.cookies);
    } else {
      assert KeptReadable(env, key, fs', p, saved);
      RestorableIffKept(env, source, fs', p, saved);
    }
  }

  lemma PlanKey(env: Env, source: KeySource, fs: Files, req: Request, x: Ambient) returns (key: Key)
    requires PlanSave(env, source, fs, req, x).Ok?
    ensures var plan := PlanSave(env, source, fs, req, x).value;
            && KeyOf(env, source, req.profile, plan.meta.saltB64) == Ok(key)
            && plan.blob == Encrypt(env.crypto, req.profile, req.context, key, x.nonce, env.cookiesToJson(req.cookies))
  {
    key := KeyOf(env, source, req.profile, PlanSave(env, source, fs, req, x).value.meta.saltB64).value;
  }

  /** A save that completes is loaded back, whatever was there before. */
  lemma SaveThenLoad(env: Env, source: KeySource, fs: Files, req: Request, x: Ambient)
    requires LawfulEnv(env) && PlanSave(env, source, fs, req, x).Ok?
    ensures var plan := PlanSave(env, source, fs, req, x).value;
            Load(env, source, Run(fs, SaveOps(env, fs, req.profile, plan, x)), req.profile, req.context) ==
              Ok(req.cookies)
  {
    var p, plan := req.profile, PlanSave(env, source, fs, req, x).value;
    var ops := SaveOps(env, fs, p, plan, x);
    assert ops[..|ops|] == ops;
    SaveIsCrashConsistent(env, fs, p, plan, x, |ops|, []);
    assert env.metaFromJson(env.metaToJson(plan.meta)) == Some(plan.meta);
    var key := PlanKey(env, source, fs, req, x);
    EncryptedReadsBack(env, key, p, req.context, x.nonce, req.cookies);
  }

  // ----- who can load -----------------------------------------------------------------------------

  /** The salt a text stands for is there and has 16 bytes. */
  predicate SaltIs(env: Env, text: Option<string>, salt: Bytes) {
    text.Some? && env.saltFromText(text.value) == Some(salt) && |salt| == 16
  }

  /** The key belongs to the source: the profile's keyring key, or the one of the secret and the salt. */
  ghost predicate IsKeyOf(env: Env, source: KeySource, profile: string, text: Option<string>, key: Key) {
    match source
    case Keyring => key == env.keyring(profile)
    case Passphrase(secret) => exists salt :: SaltIs(env, text, salt) && key == env.derive(secret, salt)
  }

  /** A save under a passphrase has a salt: the one in the metadata already there, or the fresh one. */
  lemma SaltOfSave(env: Env, source: KeySource, fs: Files, req: Request, x: Ambient)
    requires LawfulEnv(env) && PlanSave(env, source, fs, req, x).Ok?
    ensures var text := PlanSave(env, source, fs, req, x).value.meta.saltB64;
            var before := SaltIn(ReadMeta(env, fs, req.profile));
            && (source.Keyring? ==> text == None)
            && (source.Passphrase? ==> exists salt :: SaltIs(env, text, salt))
            && (source.Passphrase? && before.Some? ==> text == before)
            && (source.Passphrase? && before.None? ==> SaltIs(env, text, x.salt))
  {
    var text := PlanSave(env, source, fs, req, x).value.meta.saltB64;
    if source.Passphrase? {
      assert SaltIs(env, text, env.saltFromText(text.value).value);
    }
  }

  /** The blob of a save opens under the key of its source and salt, and under no other. */
  lemma SealedUnderItsKey(env: Env, source: KeySource, fs: Files, req: Request, x: Ambient, context: string, key: Key)
    requires LawfulEnv(env) && Authentic(env.crypto) && SeparatesKeys(env)
    requires PlanSave(env, source, fs, req, x).Ok?
    ensures var plan := PlanSave(env, source, fs, req, x).value;
            Decrypt(env.crypto, req.profile, context, key, plan.blob) ==
              if IsKeyOf(env, source, req.profile, plan.meta.saltB64, key) && context == req.context
              then Ok(env.cookiesToJson(req.cookies)) else Err(BadKeyOrTamper)
  {
    var plan := PlanSave(env, source, fs, req, x).value;
    var own := PlanKey(env, source, fs, req, x);
    if source.Passphrase? {
      assert SaltIs(env, plan.meta.saltB64, env.saltFromText(plan.meta.saltB64.value).value);
    }
    assert IsKeyOf(env, source, req.profile, plan.meta.saltB64, key) <==> key == own;
    OnlyItsOwnContextOpens(env.crypto, req.profile, req.context, own, x.nonce, env.cookiesToJson(req.cookies),
      req.profile, context, key);
    AadSeparatesContexts(req.profile, req.context, context);
  }

  /**
   * After a completed save the cookies load under the source that saved them and in their context, and
   * otherwise not at all: a passphrase finds no salt where the keyring was used, and any other secret, the
   * keyring in place of a passphrase, or another context is told that the blob does not open.
   */
  lemma OnlyItsOwnSourceLoads(
    env: Env, source: KeySource, fs: Files, req: Request, x: Ambient, other: KeySource, context: string)
    requires LawfulEnv(env) && Authentic(env.crypto) && SeparatesKeys(env)
    requires PlanSave(env, source, fs, req, x).Ok?
    ensures var plan := PlanSave(env, source, fs, req, x).value;
            var fs' := Run(fs, SaveOps(env, fs, req.profile, plan, x));
            Load(env, other, fs', req.profile, context) ==
              if source == other && context == req.context then Ok(req.cookies)
              else if source.Keyring? && other.Passphrase? then Err(BadSalt)
              else Err(BadKeyOrTamper)
  {
    var p, plan := req.profile, PlanSave(env, source, fs, req, x).value;
    var ops := SaveOps(env, fs, p, plan, x);
    assert ops[..|ops|] == ops;
    SaveIsCrashConsistent(env, fs, p, plan, x, |ops|, []);
    var fs' := Run(fs, ops);
    assert ReadMeta(env, fs', p) == Some(plan.meta);
    SavedReads(env, source, fs, req, x, other, context);
  }

  /** What a save's blob reads as under the key that a source makes of the save's own metadata. */
  lemma SavedReads(env: Env, source: KeySource, fs: Files, req: Request, x: Ambient, other: KeySource, context: string)
    requires LawfulEnv(env) && Authentic(env.crypto) && SeparatesKeys(env)
    requires PlanSave(env, source, fs, req, x).Ok?
    ensures var plan := PlanSave(env, source, fs, req, x).value;
            ReadBlob(env, KeyOf(env, other, req.profile, plan.meta.saltB64), req.profile, context, plan.blob) ==
              if source == other && context == req.context then Ok(req.cookies)
              else if source.Keyring? && other.Passphrase? then Err(BadSalt)
              else Err(BadKeyOrTamper)
  {
    var p, plan := req.profile, PlanSave(env, source, fs, req, x).value;
    var text := plan.meta.saltB64;
    var own := PlanKey(env, source, fs, req, x);
    DecryptOfEncrypt(env.crypto, p, req.context, own, x.nonce, env.cookiesToJson(req.cookies));
    SaltOfSave(env, source, fs, req, x);
    if source.Passphrase? || other.Keyring? {
      var key := KeyOf(env, other, p, text).value;
      SealedUnderItsKey(env, source, fs, req, x, context, key);
      SourceOfKey(env, source, other, p, text, key);
    }
  }

  /** Under one salt, the key of one source is the key of another only if they are the same. */
  lemma SourceOfKey(env: Env, source: KeySource, other: KeySource, profile: string, text: Option<string>, key: Key)
    requires SeparatesKeys(env) && IsKeyOf(env, other, profile, text, key)
    requires source.Passphrase? ==> exists salt :: SaltIs(env, text, salt)
    ensures IsKeyOf(env, source, profile, text, key) <==> source == other
  {}

  /**
   * The salt counts as much as the secret: under metadata with another salt, the same passphrase does not
   * open the blob.
   */
  lemma OnlyItsOwnSaltOpens(
    env: Env, secret: string, fs: Files, req: Request, x: Ambient, text: Option<string>, salt: Bytes)
    requires LawfulEnv(env) && Authentic(env.crypto) && SeparatesKeys(env) && SaltIs(env, text, salt)
    requires PlanSave(env, Passphrase(secret), fs, req, x).Ok?
    ensures var plan := PlanSave(env, Passphrase(secret), fs, req, x).value;
            ReadBlob(env, KeyOf(env, Passphrase(secret), req.profile, text), req.profile, req.context, plan.blob) ==
              if SaltIs(env, plan.meta.saltB64, salt) then Ok(req.cookies) else Err(BadKeyOrTamper)
  {
    var plan := PlanSave(env, Passphrase(secret), fs, req, x).value;
    var own := PlanKey(env, Passphrase(secret), fs, req, x);
    DecryptOfEncrypt(env.crypto, req.profile, req.context, own, x.nonce, env.cookiesToJson(req.cookies));
    SealedUnderItsKey(env, Passphrase(secret), fs, req, x, req.context, env.derive(secret, salt));
  }

  /**
   * At any point of a save the metadata reads as before or, once complete, as the new one: it keeps the
   * creation time of a readable predecessor, keeps its replay data unless new data is given, and reports
   * the expiries of the saved cookies.
   */
  lemma MetadataCarriesOver(env: Env, source: KeySource, fs: Files, req: Request, x: Ambient, k: nat)
    requires LawfulEnv(env) && PlanSave(env, source, fs, req, x).Ok?
    requires k <= |SaveOps(env, fs, req.profile, PlanSave(env, source, fs, req, x).value, x)|
    ensures var plan := PlanSave(env, source, fs, req, x).value;
            var before := ReadMeta(env, fs, req.profile);
            var after := ReadMeta(env, Interrupted(env, fs, req.profile, plan, x, k), req.profile);
            if k < |SaveOps(env, fs, req.profile, plan, x)| then after == before
            else
              && after.Some?
              && after.value.createdAt == (if before.Some? then before.value.createdAt else after.value.lastUsed)
              && (req.replay.None? && before.Some? ==> after.value.replay == before.value.replay)
              && (req.replay.Some? ==> after.value.replay == req.replay)
              && |after.value.cookieExpires| == |req.cookies|
              && (forall i :: 0 <= i < |req.cookies| ==> after.value.cookieExpires[i] == req.cookies[i].expires)
  {
    var plan := PlanSave(env, source, fs, req, x).value;
    SaveIsCrashConsistent(env, fs, req.profile, plan, x, k, []);
    assert env.metaFromJson(env.metaToJson(plan.meta)) == Some(plan.meta);
  }

  predicate IsDomainAmong(d: string, cookies: seq<Cookie>) {
    exists i :: 0 <= i < |cookies| && cookies[i].domain == d
  }

  predicate IsPrefixAmong(env: Env, n: string, cookies: seq<Cookie>) {
    exists i :: 0 <= i < |cookies| && env.namePrefix(cookies[i].name) == n
  }

  lemma DomainsListed(cookies: seq<Cookie>)
    ensures StrictlySorted(Ordered(Domains(cookies)))
    ensures forall d :: d in Ordered(Domains(cookies)) <==> IsDomainAmong(d, cookies)
  {
    var ds := Domains(cookies);
    OrderedLists(ds);
    assert forall i :: 0 <= i < |cookies| ==> ds[i] == cookies[i].domain;
  }

  lemma PrefixesListed(env: Env, cookies: seq<Cookie>)
    ensures StrictlySorted(Ordered(NamePrefixes(env, cookies)))
    ensures forall n :: n in Ordered(NamePrefixes(env, cookies)) <==> IsPrefixAmong(env, n, cookies)
  {
    var ps := NamePrefixes(env, cookies);
    OrderedLists(ps);
    assert forall i :: 0 <= i < |cookies| ==> ps[i] == env.namePrefix(cookies[i].name);
  }

  /** The lists in the metadata of a completed save are those of the saved cookies, sorted, each entry once. */
  lemma MetadataListsCookies(env: Env, source: KeySource, fs: Files, req: Request, x: Ambient)
    requires LawfulEnv(env) && PlanSave(env, source, fs, req, x).Ok?
    ensures var plan := PlanSave(env, source, fs, req, x).value;
            var meta := ReadMeta(env, Run(fs, SaveOps(env, fs, req.profile, plan, x)), req.profile);
            && meta.Some? && meta.value.profile == req.profile && meta.value.lastUsed == x.now
            && StrictlySorted(meta.value.domains) && StrictlySorted(meta.value.namePrefixes)
            && (forall d :: d in meta.value.domains <==> IsDomainAmong(d, req.cookies))
            && (forall n :: n in meta.value.namePrefixes <==> IsPrefixAmong(env, n, req.cookies))
  {
    var plan := PlanSave(env, source, fs, req, x).value;
    var ops := SaveOps(env, fs, req.profile, plan, x);
    assert ops[..|ops|] == ops;
    SaveIsCrashConsistent(env, fs, req.profile, plan, x, |ops|, []);
    assert env.metaFromJson(env.metaToJson(plan.meta)) == Some(plan.meta);
    DomainsListed(req.cookies);
    PrefixesListed(env, req.cookies);
  }

  /** Cookies that differ in nothing but what they hold: value, path and flags. */
  predicate AlikeInMetadata(a: seq<Cookie>, b: seq<Cookie>) {
    |a| == |b| && forall i :: 0 <= i < |a| ==>
      a[i].name == b[i].name && a[i].domain == b[i].domain && a[i].expires == b[i].expires
  }

  /** The plain-text metadata gives nothing away of the cookies' values. */
  lemma MetadataHidesValues(env: Env, source: KeySource, fs: Files, req: Request, cookies: seq<Cookie>, x: Ambient)
    requires PlanSave(env, source, fs, req, x).Ok? && AlikeInMetadata(req.cookies, cookies)
    ensures PlanSave(env, source, fs, req.(cookies := cookies), x).Ok?
    ensures PlanSave(env, source, fs, req.(cookies := cookies), x).value.meta
            == PlanSave(env, source, fs, req, x).value.meta
  {
    assert Domains(cookies) == Domains(req.cookies) && NamePrefixes(env, cookies) == NamePrefixes(env, req.cookies);
    var a := PlanSave(env, source, fs, req, x).value.meta;
    var b := PlanSave(env, source, fs, req.(cookies := cookies), x).value.meta;
    assert a.cookieExpires == b.cookieExpires;
  }

  /**
   * Between the move of the new blob and that of the new metadata, the new cookies load if and only if
   * the metadata already there leads to a key.
   */
  lemma CommittedLoadsIff(env: Env, source: KeySource, fs: Files, req: Request, x: Ambient, k: nat)
    requires LawfulEnv(env) && PlanSave(env, source, fs, req, x).Ok?
    requires k < |SaveOps(env, fs, req.profile, PlanSave(env, source, fs, req, x).value, x)|
    requires Committed(fs, req.profile, PlanSave(env, source, fs, req, x).value, x, k)
    ensures var fs' := Interrupted(env, fs, req.profile, PlanSave(env, source, fs, req, x).value, x, k);
            Load(env, source, fs', req.profile, req.context) == Ok(req.cookies)
            <==> KeyOnDisk(env, source, fs, req.profile).Ok?
  {
    var p, plan := req.profile, PlanSave(env, source, fs, req, x).value;
    SaveIsCrashConsistent(env, fs, p, plan, x, k, []);
    var fs' := Interrupted(env, fs, p, plan, x, k);
    assert KeyOnDisk(env, source, fs', p) == KeyOnDisk(env, source, fs, p);
    if KeyOnDisk(env, source, fs, p).Ok? {
      PlanKeepsKey(env, source, fs, req, x);
      EncryptedReadsBack(env, KeyOnDisk(env, source, fs, p).value, p, req.context, x.nonce, req.cookies);
    }
  }

  /**
   * So the first save under a passphrase is not safe: between its two moves the salt is not on disk, and a
   * crash there leaves a blob that opens to nothing, in no context.
   */
  lemma FirstPassphraseSaveIsLost(
    env: Env, source: KeySource, fs: Files, req: Request, x: Ambient, k: nat, saved: Saved)
    requires PlanSave(env, source, fs, req, x).Ok? && source.Passphrase? && Meta(req.profile) !in fs
    requires k < |SaveOps(env, fs, req.profile, PlanSave(env, source, fs, req, x).value, x)|
    requires Committed(fs, req.profile, PlanSave(env, source, fs, req, x).value, x, k)
    ensures !Restorable(env, source, Interrupted(env, fs, req.profile, PlanSave(env, source, fs, req, x).value, x, k),
                        req.profile, saved)
  {
    var plan := PlanSave(env, source, fs, req, x).value;
    SaveIsCrashConsistent(env, fs, req.profile, plan, x, k, []);
  }

  // ----- other profiles ------------------------------------------------------------------------------

  /** Rotating `q` takes some trash slot of `p` for one of its own. */
  ghost predicate Sweeps(q: string, p: string) {
    exists ts :: IsGeneration(q, TrashName(p, ts))
  }

  /** That happens exactly if `p` goes on from `q` with a dot, or `q` is `p` and a number. */
  lemma SweepsIff(q: string, p: string)
    requires p != q
    ensures Sweeps(q, p) <==> q + "." <= p || exists ts: nat :: q == p + "." + Decimal(ts)
  {
    if Sweeps(q, p) {
      var ts :| IsGeneration(q, TrashName(p, ts));
      SweepsForeignTrashIff(q, p, ts);
    }
    if q + "." <= p {
      SweepsForeignTrashIff(q, p, 0);
    } else if exists ts: nat :: q == p + "." + Decimal(ts) {
      var ts: nat :| q == p + "." + Decimal(ts);
      SweepsForeignTrashIff(q, p, ts);
    }
  }

  /** A save of `q` leaves alone every path that is not its own, and all of the trash if it rotates nothing. */
  lemma SaveLeavesAlone(env: Env, fs: Files, q: string, plan: Plan, x: Ambient, k: nat, path: Path)
    requires k <= |SaveOps(env, fs, q, plan, x)|
    requires Outside(q, path) || (path.Trash? && Enc(q) !in fs)
    requires path !in {Meta(q), Tmp(Enc(q)), Tmp(Meta(q))}
    ensures Untouched(fs, Interrupted(env, fs, q, plan, x, k), path)
  {
    var ops := SaveOps(env, fs, q, plan, x);
    forall op | op in ops[..k] ensures !Touches(op, path) {
      assert op in ops;
      if op in RotateOps(fs, q, x.listing, x.ts) {
        RotateTouchesItsOwn(fs, q, x.listing, x.ts, op, path);
      }
    }
    RunLeavesAlone(fs, ops[..k], path);
  }

  /** A save of one profile never touches the live files of another, at any point. */
  lemma OtherLiveFilesUntouched(env: Env, fs: Files, q: string, plan: Plan, x: Ambient, k: nat, p: string)
    requires p != q && k <= |SaveOps(env, fs, q, plan, x)|
    ensures Untouched(fs, Interrupted(env, fs, q, plan, x, k), Enc(p))
    ensures Untouched(fs, Interrupted(env, fs, q, plan, x, k), Meta(p))
  {
    LiveNamesAreApart(p, q);
    LiveNamesAreApart(q, p);
    SaveLeavesAlone(env, fs, q, plan, x, k, Enc(p));
    SaveLeavesAlone(env, fs, q, plan, x, k, Meta(p));
  }

  /** The blob is live, or nothing is rotated, or a slot that rotating `q` does not sweep holds it. */
  ghost predicate Spared(fs: Files, q: string, p: string, blob: Bytes) {
    || Enc(p) in fs
    || Enc(q) !in fs
    || exists ts :: SlotHolds(fs, p, ts, blob) && !IsGeneration(q, TrashName(p, ts))
  }

  lemma SparedIsKept(env: Env, fs: Files, q: string, plan: Plan, x: Ambient, k: nat, p: string, blob: Bytes)
    requires p != q && k <= |SaveOps(env, fs, q, plan, x)| && Kept(fs, p, blob) && Spared(fs, q, p, blob)
    ensures Kept(Interrupted(env, fs, q, plan, x, k), p, blob)
  {
    OtherLiveFilesUntouched(env, fs, q, plan, x, k, p);
    if Enc(p) !in fs {
      var ts: nat;
      if Enc(q) !in fs {
        ts :| SlotHolds(fs, p, ts, blob);
      } else {
        ts :| SlotHolds(fs, p, ts, blob) && !IsGeneration(q, TrashName(p, ts));
      }
      SaveLeavesAlone(env, fs, q, plan, x, k, Trash(TrashName(p, ts)));
      assert SlotHolds(Interrupted(env, fs, q, plan, x, k), p, ts, blob);
    }
  }

  /** The directory listing shows everything in the trash. */
  predicate ListsTrash(fs: Files, listing: seq<string>) {
    forall path :: path in fs && path.Trash? ==> path.name in listing
  }

  /**
   * What a save of `q`, once its rotation is through, leaves of a profile whose live slot is empty: exactly
   * the slots that do not look like older generations of `q`.
   */
  lemma SweptSlotsAreLost(env: Env, fs: Files, q: string, plan: Plan, x: Ambient, k: nat, p: string, blob: Bytes)
    requires p != q && Enc(p) !in fs && Enc(q) in fs && ListsTrash(fs, x.listing)
    requires |RotateOps(fs, q, x.listing, x.ts)| <= k <= |SaveOps(env, fs, q, plan, x)|
    ensures Kept(Interrupted(env, fs, q, plan, x, k), p, blob) <==> Spared(fs, q, p, blob)
  {
    var fs' := Interrupted(env, fs, q, plan, x, k);
    OtherLiveFilesUntouched(env, fs, q, plan, x, k, p);
    if Kept(fs', p, blob) {
      var ts: nat :| SlotHolds(fs', p, ts, blob);
      if IsGeneration(q, TrashName(p, ts)) {
        SlotStaysGone(env, fs, q, plan, x, k, p, ts);
      } else {
        SaveLeavesAlone(env, fs, q, plan, x, k, Trash(TrashName(p, ts)));
      }
    }
    if Spared(fs, q, p, blob) {
      var ts :| SlotHolds(fs, p, ts, blob) && !IsGeneration(q, TrashName(p, ts));
      SparedIsKept(env, fs, q, plan, x, k, p, blob);
    }
  }

  /** Saving `a` loses `a.b`, left in the trash by an interrupted save. */
  lemma SweepingLosesAProfile(live: Bytes, blob: Bytes)
    ensures var fs: Files := map[Enc("a") := live, Trash(TrashName("a.b", 7)) := blob];
            && Kept(fs, "a.b", blob)
            && !Kept(Run(fs, RotateOps(fs, "a", [TrashName("a.b", 7)], 8)), "a.b", blob)
  {
    var slot := Trash(TrashName("a.b", 7));
    var fs: Files := map[Enc("a") := live, slot := blob];
    LiveNamesAreApart("a", "a.b");
    assert "a"[..1] == "a" && |"a"| != |"a.b"|;
    assert SlotHolds(fs, "a.b", 7, blob);
    forall ts: nat ensures Trash(TrashName("a.b", ts)) !in Run(fs, RotateOps(fs, "a", [TrashName("a.b", 7)], 8)) {
      SweepsForeignTrashIff("a", "a.b", ts);
      assert "a" + "." <= "a.b";
      assert Trash(TrashName("a.b", ts)) in fs ==> TrashName("a.b", ts) in [TrashName("a.b", 7)];
      SlotGoneAfterRotation(fs, "a", [TrashName("a.b", 7)], 8, "a.b", ts);
    }
    var ops := RotateOps(fs, "a", [TrashName("a.b", 7)], 8);
    forall op | op in ops ensures !Touches(op, Enc("a.b")) {
      RotateTouchesItsOwn(fs, "a", [TrashName("a.b", 7)], 8, op, Enc("a.b"));
    }
    RunLeavesAlone(fs, ops, Enc("a.b"));
  }

  /** Saving another profile costs nothing if a blob that opens to what was saved is spared. */
  ghost predicate SparedReadable(env: Env, source: KeySource, fs: Files, q: string, p: string, saved: Saved) {
    exists blob ::
      Kept(fs, p, blob) && Spared(fs, q, p, blob) && Opens(env, KeyOnDisk(env, source, fs, p), p, blob, saved)
  }

  lemma OtherProfileStaysRestorable(
    env: Env, source: KeySource, fs: Files, q: string, plan: Plan, x: Ambient, k: nat, p: string, saved: Saved)
    requires p != q && ValidProfile(p) && k <= |SaveOps(env, fs, q, plan, x)|
    requires SparedReadable(env, source, fs, q, p, saved)
    ensures Restorable(env, source, Interrupted(env, fs, q, plan, x, k), p, saved)
  {
    var fs' := Interrupted(env, fs, q, plan, x, k);
    var key := KeyOnDisk(env, source, fs, p);
    OtherLiveFilesUntouched(env, fs, q, plan, x, k, p);
    var blob :| Kept(fs, p, blob) && Spared(fs, q, p, blob) && Opens(env, key, p, blob, saved);
    SparedIsKept(env, fs, q, plan, x, k, p, blob);
    RestorableIffKept(env, source, fs', p, saved);
    assert KeptReadable(env, key, fs', p, saved);
  }

  /**
   * And only then: once the rotation of `q` is through, a profile is restorable if and only if it was so
   * before from a blob that is spared.
   */
  lemma RestorableAfterOtherIff(
    env: Env, source: KeySource, fs: Files, q: string, plan: Plan, x: Ambient, k: nat, p: string, saved: Saved)
    requires p != q && ValidProfile(p) && ListsTrash(fs, x.listing)
    requires |RotateOps(fs, q, x.listing, x.ts)| <= k <= |SaveOps(env, fs, q, plan, x)|
    ensures Restorable(env, source, Interrupted(env, fs, q, plan, x, k), p, saved)
            <==> SparedReadable(env, source, fs, q, p, saved)
  {
    var fs' := Interrupted(env, fs, q, plan, x, k);
    var key := KeyOnDisk(env, source, fs, p);
    OtherLiveFilesUntouched(env, fs, q, plan, x, k, p);
    RestorableIffKept(env, source, fs', p, saved);
    if SparedReadable(env, source, fs, q, p, saved) {
      OtherProfileStaysRestorable(env, source, fs, q, plan, x, k, p, saved);
    } else if Restorable(env, source, fs', p, saved) {
      var blob :| Kept(fs', p, blob) && Opens(env, key, p, blob, saved);
      KeptAfterIsSpared(env, fs, q, plan, x, k, p, blob);
    }
  }

  lemma KeptAfterIsSpared(env: Env, fs: Files, q: string, plan: Plan, x: Ambient, k: nat, p: string, blob: Bytes)
    requires p != q && ListsTrash(fs, x.listing)
    requires |RotateOps(fs, q, x.listing, x.ts)| <= k <= |SaveOps(env, fs, q, plan, x)|
    requires Kept(Interrupted(env, fs, q, plan, x, k), p, blob)
    ensures Kept(fs, p, blob) && Spared(fs, q, p, blob)
  {
    OtherLiveFilesUntouched(env, fs, q, plan, x, k, p);
    if Enc(p) !in fs {
      if Enc(q) in fs {
        SweptSlotsAreLost(env, fs, q, plan, x, k, p, blob);
        var ts :| SlotHolds(fs, p, ts, blob) && !IsGeneration(q, TrashName(p, ts));
      } else {
        var ts: nat :| SlotHolds(Interrupted(env, fs, q, plan, x, k), p, ts, blob);
        SaveLeavesAlone(env, fs, q, plan, x, k, Trash(TrashName(p, ts)));
        assert SlotHolds(fs, p, ts, blob);
      }
    }
  }

  // ----- histories --------------------------------------------------------------------------------------

  /** One save and the number of steps it got to; `steps` beyond the last means that it completed. */
  datatype Attempt = Attempt(req: Request, x: Ambient, steps: nat)

  function Done(env: Env, fs: Files, plan: Plan, a: Attempt): nat {
    var n := |SaveOps(env, fs, a.req.profile, plan, a.x)|;
    if a.steps < n then a.steps else n
  }

  function Tried(env: Env, source: KeySource, fs: Files, a: Attempt): Files {
    match PlanSave(env, source, fs, a.req, a.x)
    case Err(_) => fs
    case Ok(plan) => Interrupted(env, fs, a.req.profile, plan, a.x, Done(env, fs, plan, a))
  }

  predicate Commits(env: Env, source: KeySource, fs: Files, a: Attempt) {
    match PlanSave(env, source, fs, a.req, a.x)
    case Err(_) => false
    case Ok(plan) => Committed(fs, a.req.profile, plan, a.x, Done(env, fs, plan, a))
  }

  function After(env: Env, source: KeySource, fs: Files, run: seq<Attempt>): Files {
    if run == [] then fs else Tried(env, source, After(env, source, fs, run[..|run| - 1]), run[|run| - 1])
  }

  /** What was last committed for a profile, `initial` if nothing was. */
  function Latest(
    env: Env, source: KeySource, fs: Files, run: seq<Attempt>, p: string, initial: Saved): Saved
  {
    if run == [] then initial
    else
      var before, a := run[..|run| - 1], run[|run| - 1];
      if a.req.profile == p && Commits(env, source, After(env, source, fs, before), a)
      then Saved(a.req.context, a.req.cookies)
      else Latest(env, source, fs, before, p, initial)
  }

  /** Another profile's save that goes ahead spares what was saved. */
  ghost predicate Harmless(env: Env, source: KeySource, fs: Files, a: Attempt, p: string, saved: Saved) {
    || a.req.profile == p
    || PlanSave(env, source, fs, a.req, a.x).Err?
    || SparedReadable(env, source, fs, a.req.profile, p, saved)
  }

  /** At every save of the history, the latest content of the profile is spared. */
  ghost predicate Undisturbed(
    env: Env, source: KeySource, fs: Files, run: seq<Attempt>, p: string, initial: Saved)
  {
    run == [] ||
    var before := run[..|run| - 1];
    && Undisturbed(env, source, fs, before, p, initial)
    && Harmless(env, source, After(env, source, fs, before), run[|run| - 1], p,
                Latest(env, source, fs, before, p, initial))
  }

  lemma AttemptKeeps(env: Env, source: KeySource, fs: Files, a: Attempt, p: string, saved: Saved)
    requires LawfulEnv(env) && ValidProfile(p) && Restorable(env, source, fs, p, saved)
    requires Harmless(env, source, fs, a, p, saved)
    ensures var now := if a.req.profile == p && Commits(env, source, fs, a)
                       then Saved(a.req.context, a.req.cookies) else saved;
            Restorable(env, source, Tried(env, source, fs, a), p, now)
  {
    var plan := PlanSave(env, source, fs, a.req, a.x);
    if plan.Ok? {
      var k := Done(env, fs, plan.value, a);
      if a.req.profile == p {
        InterruptedSaveIsRestorable(env, source, fs, a.req, a.x, k, saved);
      } else {
        OtherProfileStaysRestorable(env, source, fs, a.req.profile, plan.value, a.x, k, p, saved);
      }
    }
  }

  /**
   * After any history of saves, of any profiles, each cut short anywhere, a profile that could be restored
   * at the start can still be: to the cookies of its latest save whose blob was moved into place, as long
   * as no save of another profile swept them away.
   */
  lemma {:induction false} AlwaysRestorable(
    env: Env, source: KeySource, fs: Files, run: seq<Attempt>, p: string, initial: Saved)
    requires LawfulEnv(env) && ValidProfile(p) && Restorable(env, source, fs, p, initial)
    requires Undisturbed(env, source, fs, run, p, initial)
    ensures Restorable(env, source, After(env, source, fs, run), p, Latest(env, source, fs, run, p, initial))
  {
    if run != [] {
      var before, a := run[..|run| - 1], run[|run| - 1];
      AlwaysRestorable(env, source, fs, before, p, initial);
      AttemptKeeps(env, source, After(env, source, fs, before), a, p, Latest(env, source, fs, before, p, initial));
    }
  }

  /** A save of another profile that went through its rotation with a full listing. */
  ghost predicate RotatesFully(env: Env, source: KeySource, fs: Files, a: Attempt) {
    match PlanSave(env, source, fs, a.req, a.x)
    case Err(_) => true
    case Ok(plan) =>
      ListsTrash(fs, a.x.listing) && |RotateOps(fs, a.req.profile, a.x.listing, a.x.ts)| <= Done(env, fs, plan, a)
  }

  /** The condition is exact: a profile is lost at the first full rotation that does not spare it. */
  lemma LostWhenDisturbed(
    env: Env, source: KeySource, fs: Files, before: seq<Attempt>, a: Attempt, p: string, initial: Saved)
    requires LawfulEnv(env) && ValidProfile(p) && Restorable(env, source, fs, p, initial) && a.req.profile != p
    requires Undisturbed(env, source, fs, before, p, initial)
    requires RotatesFully(env, source, After(env, source, fs, before), a)
    ensures Restorable(env, source, After(env, source, fs, before + [a]), p,
            Latest(env, source, fs, before, p, initial))
            <==> Undisturbed(env, source, fs, before + [a], p, initial)
  {
    var files, latest := After(env, source, fs, before), Latest(env, source, fs, before, p, initial);
    assert (before + [a])[..|before|] == before;
    AlwaysRestorable(env, source, fs, before, p, initial);
    var plan := PlanSave(env, source, files, a.req, a.x);
    if plan.Ok? {
      RestorableAfterOtherIff(env, source, files, a.req.profile, plan.value, a.x, Done(env, files, plan.value, a), p,
        latest);
    }
  }

  /** Profiles whose names do not sweep this one's never disturb it, whatever the files. */
  lemma {:induction false} UnsweptIsUndisturbed(
    env: Env, source: KeySource, fs: Files, run: seq<Attempt>, p: string, initial: Saved)
    requires LawfulEnv(env) && ValidProfile(p) && Restorable(env, source, fs, p, initial)
    requires forall a :: a in run ==> a.req.profile == p || !Sweeps(a.req.profile, p)
    ensures Undisturbed(env, source, fs, run, p, initial)
  {
    if run != [] {
      var before, a := run[..|run| - 1], run[|run| - 1];
      assert a in run;
      UnsweptIsUndisturbed(env, source, fs, before, p, initial);
      AlwaysRestorable(env, source, fs, before, p, initial);
      if a.req.profile != p {
        var files, latest := After(env, source, fs, before), Latest(env, source, fs, before, p, initial);
        UnsweptIsSpared(env, source, files, a.req.profile, p, latest);
      }
    }
  }

  lemma UnsweptIsSpared(env: Env, source: KeySource, fs: Files, q: string, p: string, saved: Saved)
    requires ValidProfile(p) && Restorable(env, source, fs, p, saved) && !Sweeps(q, p)
    ensures SparedReadable(env, source, fs, q, p, saved)
  {
    RestorableIffKept(env, source, fs, p, saved);
    var blob :| Kept(fs, p, blob) && Opens(env, KeyOnDisk(env, source, fs, p), p, blob, saved);
    if Enc(p) !in fs {
      var ts: nat :| SlotHolds(fs, p, ts, blob);
      assert !IsGeneration(q, TrashName(p, ts));
    }
    assert Spared(fs, q, p, blob);
  }

  // ----- what a rotation sweeps away -----------------------------------------------------------------

  /** Two profiles never share a trash slot. */
  lemma TrashNamesAreApart(p: string, ts: nat, q: string, ts': nat)
    requires p != q
    ensures TrashName(p, ts) != TrashName(q, ts')
  {
    OwnTrashIsGeneration(p, ts);
    OwnTrashIsGeneration(q, ts');
    SweepsForeignTrashIff(q, p, ts);
    SweepsForeignTrashIff(p, q, ts');
    assert |p + "." + Decimal(ts)| + 4 == |TrashName(p, ts)|;
    assert |q + "." + Decimal(ts')| + 4 == |TrashName(q, ts')|;
  }

  lemma {:induction false} SweptSlotIsGone(fs: Files, q: string, listing: seq<string>, n: string)
    requires n in listing && IsGeneration(q, n)
    ensures Trash(n) !in Run(fs, RemovalOps(q, listing))
  {
    var init, last := listing[..|listing| - 1], listing[|listing| - 1];
    var before := RemovalOps(q, init);
    if IsGeneration(q, last) {
      assert RemovalOps(q, listing)[..|before|] == before;
      if n != last { SweptSlotIsGone(fs, q, init, n); }
    } else {
      assert RemovalOps(q, listing) == before;
      SweptSlotIsGone(fs, q, init, n);
    }
  }

  lemma SlotGoneAfterRotation(fs: Files, q: string, listing: seq<string>, ts': nat, p: string, ts: nat)
    requires p != q && Enc(q) in fs && IsGeneration(q, TrashName(p, ts))
    requires Trash(TrashName(p, ts)) in fs ==> TrashName(p, ts) in listing
    ensures Trash(TrashName(p, ts)) !in Run(fs, RotateOps(fs, q, listing, ts'))
  {
    var slot := Trash(TrashName(p, ts));
    if slot in fs {
      SweptSlotIsGone(fs, q, listing, TrashName(p, ts));
    } else {
      OnlyRemovals(fs, RemovalOps(q, listing), slot);
    }
    TrashNamesAreApart(p, ts, q, ts');
    RestOfRotation(fs, q, listing, ts', slot);
  }

  /** A slot gone once the generations are removed is gone after the rotation, unless it is the target. */
  lemma RestOfRotation(fs: Files, q: string, listing: seq<string>, ts: nat, slot: Path)
    requires Enc(q) in fs && slot != Trash(TrashName(q, ts)) && slot.Trash?
    requires slot !in Run(fs, RemovalOps(q, listing))
    ensures slot !in Run(fs, RotateOps(fs, q, listing, ts))
  {
    var removals, target := RemovalOps(q, listing), Trash(TrashName(q, ts));
    var mid := Run(fs, removals);
    var rest := (if target in mid then [Remove(target)] else []) + [Rename(Enc(q), target)];
    assert RotateOps(fs, q, listing, ts) == removals + rest;
    RunConcat(fs, removals, rest);
    RunLeavesAlone(mid, rest, slot);
  }

  lemma {:induction false} OnlyRemovals(fs: Files, ops: seq<Op>, p: Path)
    requires p !in fs && forall op :: op in ops ==> op.Remove?
    ensures p !in Run(fs, ops)
  {
    if ops != [] {
      OnlyRemovals(fs, ops[..|ops| - 1], p);
      assert ops[|ops| - 1] in ops;
    }
  }

  /** The rest of a save does not bring a swept slot back. */
  lemma SlotStaysGone(env: Env, fs: Files, q: string, plan: Plan, x: Ambient, k: nat, p: string, ts: nat)
    requires p != q && Enc(q) in fs && IsGeneration(q, TrashName(p, ts)) && ListsTrash(fs, x.listing)
    requires |RotateOps(fs, q, x.listing, x.ts)| <= k <= |SaveOps(env, fs, q, plan, x)|
    ensures Trash(TrashName(p, ts)) !in Interrupted(env, fs, q, plan, x, k)
  {
    var rotate, slot := RotateOps(fs, q, x.listing, x.ts), Trash(TrashName(p, ts));
    SlotGoneAfterRotation(fs, q, x.listing, x.ts, p, ts);
    var writes := AtomicWriteOps(Enc(q), plan.blob) + AtomicWriteOps(Meta(q), env.metaToJson(plan.meta));
    assert SaveOps(env, fs, q, plan, x) == rotate + writes;
    RunPrefix(fs, rotate, writes, k);
    RunLeavesAlone(Run(fs, rotate), writes[..k - |rotate|], slot);
  }
}
