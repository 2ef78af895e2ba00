/**
 * Saving a profile's cookies encrypted, loading them again, and what is left when a save is interrupted.
 */
module ProfileStore {
  import opened Prelude
  import opened Text
  import opened Envelope
  import opened AuthFiles
  import opened CookieJar

  const SALT_LEN := 16

  datatype Replay = Replay(userAgent: Option<string>, acceptLanguage: Option<string>)

  /** The metadata file. */
  datatype DiskMeta = DiskMeta(
    profile: string, domains: seq<string>, createdAt: int, lastUsed: int, namePrefixes: seq<string>,
    cookieExpires: seq<Option<int>>, saltB64: Option<string>, replay: Option<Replay>)

  datatype KeySource = Keyring | Passphrase(secret: string)

  /** The libraries underneath: cipher and hash, keyring, key derivation, base64 and JSON. */
  datatype Env = Env(
    crypto: Crypto,
    keyring: string -> Key,
    derive: (string, Bytes) -> Key,
    namePrefix: string -> string,
    saltToText: Bytes -> string,
    saltFromText: string -> Option<Bytes>,
    cookiesToJson: seq<Cookie> -> Bytes,
    cookiesFromJson: Bytes -> Option<seq<Cookie>>,
    metaToJson: DiskMeta -> Bytes,
    metaFromJson: Bytes -> Option<DiskMeta>)

  /** Reading undoes writing. */
  ghost predicate LawfulEnv(env: Env) {
    && LawfulCrypto(env.crypto)
    && (forall b :: env.saltFromText(env.saltToText(b)) == Some(b))
    && (forall c :: env.cookiesFromJson(env.cookiesToJson(c)) == Some(c))
    && (forall m :: env.metaFromJson(env.metaToJson(m)) == Some(m))
  }

  /** Distinct secrets or salts give distinct keys, and a keyring key is none of them. */
  ghost predicate SeparatesKeys(env: Env) {
    && (forall a, x, b, y :: env.derive(a, x) == env.derive(b, y) ==> a == b && x == y)
    && (forall a, x, p :: env.derive(a, x) != env.keyring(p))
  }

  predicate ValidProfile(profile: string) {
    profile != "" && profile != "." && profile != ".." && '/' !in profile && '\\' !in profile
  }

  // ----- keys --------------------------------------------------------------------------------

  function DecodeSalt(env: Env, text: Option<string>): Result<Option<Bytes>> {
    match text
    case None => Ok(None)
    case Some(t) =>
      match env.saltFromText(t)
      case Some(b) => Ok(Some(b))
      case None => Err(BadSalt)
  }

  function KeyForProfile(env: Env, source: KeySource, profile: string, salt: Option<Bytes>): Result<Key> {
    match source
    case Keyring => Ok(env.keyring(profile))
    case Passphrase(secret) =>
      if salt.None? || |salt.value| != SALT_LEN then Err(BadSalt) else Ok(env.derive(secret, salt.value))
  }

  function KeyOf(env: Env, source: KeySource, profile: string, saltB64: Option<string>): Result<Key> {
    match DecodeSalt(env, saltB64)
    case Err(e) => Err(e)
    case Ok(salt) => KeyForProfile(env, source, profile, salt)
  }

  function SaltForSave(env: Env, source: KeySource, existing: Option<string>, random: Bytes): Option<string> {
    match source
    case Keyring => None
    case Passphrase(_) => if existing.Some? then existing else Some(env.saltToText(random))
  }

  function ReadMeta(env: Env, fs: Files, profile: string): Option<DiskMeta> {
    if Meta(profile) in fs then env.metaFromJson(fs[Meta(profile)]) else None
  }

  function SaltIn(meta: Option<DiskMeta>): Option<string> {
    if meta.Some? then meta.value.saltB64 else None
  }

  /** The key that the metadata on disk leads to. */
  function KeyOnDisk(env: Env, source: KeySource, fs: Files, profile: string): Result<Key> {
    KeyOf(env, source, profile, SaltIn(ReadMeta(env, fs, profile)))
  }

  // ----- load ---------------------------------------------------------------------------------

  function ReadBlob(env: Env, key: Result<Key>, profile: string, context: string, blob: Bytes): Result<seq<Cookie>> {
    match DecodeForProfile(env.crypto, profile, blob)
    case Err(e) => Err(e)
    case Ok(_) =>
      match key
      case Err(e) => Err(e)
      case Ok(k) =>
        match Decrypt(env.crypto, profile, context, k, blob)
        case Err(e) => Err(e)
        case Ok(plaintext) =>
          match env.cookiesFromJson(plaintext)
          case Some(cookies) => Ok(cookies)
          case None => Err(BadJson)
  }

  function Load(env: Env, source: KeySource, fs: Files, profile: string, context: string): Result<seq<Cookie>> {
    if !ValidProfile(profile) then Err(InvalidProfile)
    else if Enc(profile) !in fs then Err(NoProfile)
    else ReadBlob(env, KeyOnDisk(env, source, fs, profile), profile, context, fs[Enc(profile)])
  }

  // ----- save -----------------------------------------------------------------------------------

  datatype Request = Request(profile: string, context: string, cookies: seq<Cookie>, replay: Option<Replay>)

  /** What a save takes from outside: randomness, the clock, the order of a directory listing. */
  datatype Ambient = Ambient(salt: Bytes, nonce: Nonce, listing: seq<string>, ts: nat, now: int)

  datatype Plan = Plan(blob: Bytes, meta: DiskMeta)

  // A `BTreeSet` of strings: sorted, without repetition.

  predicate StrictlySorted(s: seq<string>) {
    forall i, j :: 0 <= i < j < |s| ==> LexLeq(s[i], s[j]) && s[i] != s[j]
  }

  function AddOrdered(s: seq<string>, x: string): seq<string> {
    if s == [] then [x]
    else if s[0] == x then s
    else if LexLeq(x, s[0]) then [x] + s
    else [s[0]] + AddOrdered(s[1..], x)
  }

  function Ordered(xs: seq<string>): seq<string> {
    if xs == [] then [] else AddOrdered(Ordered(xs[..|xs| - 1]), xs[|xs| - 1])
  }

  lemma {:induction false} AddOrderedAdds(s: seq<string>, x: string)
    requires StrictlySorted(s)
    ensures StrictlySorted(AddOrdered(s, x)) && forall y :: y in AddOrdered(s, x) <==> y in s || y == x
  {
    if s != [] && s[0] != x {
      if LexLeq(x, s[0]) {
        forall j | 0 <= j < |s| ensures LexLeq(x, s[j]) && x != s[j] {
          if j > 0 {
            LexTransitive(x, s[0], s[j]);
            if x == s[j] { LexAntisymmetric(x, s[0]); }
          }
        }
      } else {
        AddOrderedAdds(s[1..], x);
        LexTotal(x, s[0]);
        assert s == [s[0]] + s[1..];
        var r := AddOrdered(s[1..], x);
        forall j | 0 <= j < |r| ensures LexLeq(s[0], r[j]) && s[0] != r[j] {
          assert r[j] in r;
          if r[j] != x { assert r[j] in s[1..]; }
        }
      }
    }
  }

  /** The list on disk is sorted, has no repetition, and holds exactly what was added. */
  lemma {:induction false} OrderedLists(xs: seq<string>)
    ensures StrictlySorted(Ordered(xs)) && forall y :: y in Ordered(xs) <==> y in xs
  {
    if xs != [] {
      OrderedLists(xs[..|xs| - 1]);
      AddOrderedAdds(Ordered(xs[..|xs| - 1]), xs[|xs| - 1]);
      assert xs == xs[..|xs| - 1] + [xs[|xs| - 1]];
    }
  }

  function Domains(cookies: seq<Cookie>): seq<string> {
    seq(|cookies|, i requires 0 <= i < |cookies| => cookies[i].domain)
  }

  function NamePrefixes(env: Env, cookies: seq<Cookie>): seq<string> {
    seq(|cookies|, i requires 0 <= i < |cookies| => env.namePrefix(cookies[i].name))
  }

  function BuildMeta(env: Env, req: Request, existing: Option<DiskMeta>, saltB64: Option<string>, now: int): DiskMeta {
    DiskMeta(
      req.profile,
      Ordered(Domains(req.cookies)),
      if existing.Some? then existing.value.createdAt else now,
      now,
      Ordered(NamePrefixes(env, req.cookies)),
      seq(|req.cookies|, i requires 0 <= i < |req.cookies| => req.cookies[i].expires),
      saltB64,
      if req.replay.Some? then req.replay else if existing.Some? then existing.value.replay else None)
  }

  /** Everything a save decides before it touches a file. */
  function PlanSave(env: Env, source: KeySource, fs: Files, req: Request, x: Ambient): Result<Plan> {
    if !ValidProfile(req.profile) then Err(InvalidProfile)
    else
      var existing := ReadMeta(env, fs, req.profile);
      var saltB64 := SaltForSave(env, source, SaltIn(existing), x.salt);
      match KeyOf(env, source, req.profile, saltB64)
      case Err(e) => Err(e)
      case Ok(key) =>
        Ok(Plan(
          Encrypt(env.crypto, req.profile, req.context, key, x.nonce, env.cookiesToJson(req.cookies)),
          BuildMeta(env, req, existing, saltB64, x.now)))
  }

  /** Only a name that is empty or path-like is refused as such, by a load and by a save. */
  lemma RefusedNames(
    env: Env, source: KeySource, fs: Files, req: Request, x: Ambient)
    ensures PlanSave(env, source, fs, req, x) == Err(InvalidProfile) <==> req.profile == "" || IsPathLike(req.profile)
    ensures Load(env, source, fs, req.profile, req.context) == Err(InvalidProfile)
            <==> req.profile == "" || IsPathLike(req.profile)
  {
    assert ValidProfile(req.profile) <==> req.profile != "" && !IsPathLike(req.profile);
  }

  /** The file operations up to and including the move of the new blob into place. */
  function BlobOps(fs: Files, profile: string, blob: Bytes, x: Ambient): seq<Op> {
    RotateOps(fs, profile, x.listing, x.ts) + AtomicWriteOps(Enc(profile), blob)
  }

  function SaveOps(env: Env, fs: Files, profile: string, plan: Plan, x: Ambient): seq<Op> {
    BlobOps(fs, profile, plan.blob, x) + AtomicWriteOps(Meta(profile), env.metaToJson(plan.meta))
  }

  class AuthStore {
    const env: Env
    const source: KeySource
    const dir: AuthDir

    constructor (env: Env, source: KeySource, dir: AuthDir)
      ensures this.env == env && this.source == source && this.dir == dir
    {
      this.env := env;
      this.source := source;
      this.dir := dir;
    }

    /** The steps taken are those of the plan made from the files as they were; on error there are none. */
    method SaveInner(req: Request, x: Ambient) returns (error: Option<Error>)
      requires dir.Valid()
      modifies dir
      ensures dir.Valid()
      ensures match PlanSave(env, source, old(dir.files), req, x)
              case Err(e) => error == Some(e) && dir.files == old(dir.files) && dir.log == old(dir.log)
              case Ok(plan) =>
                error == None && dir.log == old(dir.log) + SaveOps(env, old(dir.files), req.profile, plan, x)
    {
      var plan := Prepare(req, x);
      if plan.Err? { return Some(plan.error); }
      WriteFiles(req.profile, plan.value, x);
      return None;
    }

    method WriteFiles(profile: string, plan: Plan, x: Ambient)
      requires dir.Valid()
      modifies dir
      ensures dir.Valid() && dir.log == old(dir.log) + SaveOps(env, old(dir.files), profile, plan, x)
    {
      ghost var blob := BlobOps(dir.files, profile, plan.blob, x);
      ghost var meta := AtomicWriteOps(Meta(profile), env.metaToJson(plan.meta));
      WriteBlob(profile, plan.blob, x);
      dir.AtomicWrite(Meta(profile), env.metaToJson(plan.meta));
      assert dir.log == old(dir.log) + (blob + meta);
    }

    method WriteBlob(profile: string, blob: Bytes, x: Ambient)
      requires dir.Valid()
      modifies dir
      ensures dir.Valid() && dir.log == old(dir.log) + BlobOps(old(dir.files), profile, blob, x)
    {
      ghost var rotate, write := RotateOps(dir.files, profile, x.listing, x.ts), AtomicWriteOps(Enc(profile), blob);
      dir.RotateExistingToTrash(profile, x.listing, x.ts);
      dir.AtomicWrite(Enc(profile), blob);
      assert dir.log == old(dir.log) + (rotate + write);
    }

    method Prepare(req: Request, x: Ambient) returns (r: Result<Plan>)
      ensures r == PlanSave(env, source, dir.files, req, x)
    {
      if !ValidProfile(req.profile) { return Err(InvalidProfile); }
      var existing := ReadMeta(env, dir.files, req.profile);
      var saltB64 := SaltForSave(env, source, SaltIn(existing), x.salt);
      var key := KeyOf(env, source, req.profile, saltB64);
      if key.Err? { return Err(key.error); }
      var encrypted := Encrypt(env.crypto, req.profile, req.context, key.value, x.nonce,
        env.cookiesToJson(req.cookies));
      var meta := BuildMetaLoop(req, existing, saltB64, x.now);
      return Ok(Plan(encrypted, meta));
    }

    method BuildMetaLoop(req: Request, existing: Option<DiskMeta>, saltB64: Option<string>, now: int)
      returns (meta: DiskMeta)
      ensures meta == BuildMeta(env, req, existing, saltB64, now)
      ensures StrictlySorted(meta.domains) && forall d :: d in meta.domains <==> d in Domains(req.cookies)
      ensures StrictlySorted(meta.namePrefixes)
      ensures forall x :: x in meta.namePrefixes <==> x in NamePrefixes(env, req.cookies)
    {
      var domains, prefixes, expires := [], [], [];
      ghost var ds, ps := Domains(req.cookies), NamePrefixes(env, req.cookies);
      for i := 0 to |req.cookies|
        invariant domains == Ordered(ds[..i]) && prefixes == Ordered(ps[..i])
        invariant |expires| == i && forall k :: 0 <= k < i ==> expires[k] == req.cookies[k].expires
      {
        assert ds[..i + 1][..i] == ds[..i] && ps[..i + 1][..i] == ps[..i];
        domains := AddOrdered(domains, req.cookies[i].domain);
        prefixes := AddOrdered(prefixes, env.namePrefix(req.cookies[i].name));
        expires := expires + [req.cookies[i].expires];
      }
      assert ds[..|ds|] == ds && ps[..|ps|] == ps;
      OrderedLists(ds);
      OrderedLists(ps);
      meta := DiskMeta(
        req.profile, domains, if existing.Some? then existing.value.createdAt else now, now, prefixes, expires, saltB64,
        if req.replay.Some? then req.replay else if existing.Some? then existing.value.replay else None);
    }
  }

  // ----- one save, cut short anywhere ----------------------------------------------------------

  predicate SlotHolds(fs: Files, profile: string, ts: nat, blob: Bytes) {
    Trash(TrashName(profile, ts)) in fs && fs[Trash(TrashName(profile, ts))] == blob
  }

  /** The blob is live, or the live slot is empty and the blob is among this profile's trash. */
  ghost predicate Kept(fs: Files, profile: string, blob: Bytes) {
    if Enc(profile) in fs then fs[Enc(profile)] == blob else exists ts :: SlotHolds(fs, profile, ts, blob)
  }

  /** Before the new blob is moved into place, the old one is kept; the live slot is empty or as it was. */
  lemma BlobPhaseUnfinished(fs: Files, profile: string, blob: Bytes, x: Ambient, k: nat, old_: Bytes)
    requires k < |BlobOps(fs, profile, blob, x)|
    ensures var fs' := Run(fs, BlobOps(fs, profile, blob, x)[..k]);
            && (Enc(profile) in fs' ==> Untouched(fs, fs', Enc(profile)))
            && (Kept(fs, profile, old_) ==> Kept(fs', profile, old_))
  {
    var rotate, write := RotateOps(fs, profile, x.listing, x.ts), AtomicWriteOps(Enc(profile), blob);
    RunPrefix(fs, rotate, write, k);
    if k < |rotate| {
      RotationUnfinished(fs, profile, x.listing, x.ts, k);
    } else {
      var mid := Run(fs, rotate);
      AtomicWriteIsAtomic(mid, Enc(profile), blob, k - |rotate|);
      LiveNamesAreApart(profile, profile);
      var fs' := Run(mid, write[..k - |rotate|]);
      assert forall q :: q != Tmp(Enc(profile)) ==> Untouched(mid, fs', q);
      assert Untouched(mid, fs', Enc(profile));
      if Enc(profile) in fs {
        RotationFinished(fs, profile, x.listing, x.ts);
        assert Untouched(mid, fs', Trash(TrashName(profile, x.ts)));
        assert SlotHolds(fs', profile, x.ts, fs[Enc(profile)]);
      } else if Kept(fs, profile, old_) {
        var ts :| SlotHolds(fs, profile, ts, old_);
        assert Untouched(mid, fs', Trash(TrashName(profile, ts)));
        assert SlotHolds(fs', profile, ts, old_);
      }
    }
  }

  lemma BlobPhaseFinished(fs: Files, profile: string, blob: Bytes, x: Ambient)
    ensures var fs' := Run(fs, BlobOps(fs, profile, blob, x));
            Enc(profile) in fs' && fs'[Enc(profile)] == blob
  {
    var rotate, write := RotateOps(fs, profile, x.listing, x.ts), AtomicWriteOps(Enc(profile), blob);
    RunConcat(fs, rotate, write);
    AtomicWriteIsAtomic(Run(fs, rotate), Enc(profile), blob, |write|);
    assert write[..|write|] == write;
  }

  lemma MetaWriteSpares(fs: Files, profile: string, bytes: Bytes, k: nat)
    requires k <= |AtomicWriteOps(Meta(profile), bytes)|
    ensures var fs' := Run(fs, AtomicWriteOps(Meta(profile), bytes)[..k]);
            && Untouched(fs, fs', Enc(profile))
            && (k < |AtomicWriteOps(Meta(profile), bytes)| ==> Untouched(fs, fs', Meta(profile)))
            && (k == |AtomicWriteOps(Meta(profile), bytes)| ==> Meta(profile) in fs' && fs'[Meta(profile)] == bytes)
  {
    AtomicWriteIsAtomic(fs, Meta(profile), bytes, k);
    LiveNamesAreApart(profile, profile);
  }

  lemma BlobPhaseSparesMeta(fs: Files, profile: string, blob: Bytes, x: Ambient, k: nat)
    requires k <= |BlobOps(fs, profile, blob, x)|
    ensures Untouched(fs, Run(fs, BlobOps(fs, profile, blob, x)[..k]), Meta(profile))
  {
    var ops := BlobOps(fs, profile, blob, x);
    forall op | op in ops[..k] ensures !Touches(op, Meta(profile)) {
      assert op in ops;
      LiveNamesAreApart(profile, profile);
      if op in RotateOps(fs, profile, x.listing, x.ts) {
        RotateTouchesItsOwn(fs, profile, x.listing, x.ts, op, Meta(profile));
      }
    }
    RunLeavesAlone(fs, ops[..k], Meta(profile));
  }

  /** The state when the first `k` steps of a save are done. */
  function Interrupted(env: Env, fs: Files, profile: string, plan: Plan, x: Ambient, k: nat): Files
    requires k <= |SaveOps(env, fs, profile, plan, x)|
  {
    Run(fs, SaveOps(env, fs, profile, plan, x)[..k])
  }

  predicate Committed(fs: Files, profile: string, plan: Plan, x: Ambient, k: nat) {
    k >= |BlobOps(fs, profile, plan.blob, x)|
  }

  /**
   * A save cut short after any number of steps: the live slot is empty, whole and old, or whole and new,
   * the last exactly once the move was made; until then the old blob is kept, and the metadata is the old
   * until the very last step.
   */
  lemma SaveIsCrashConsistent(env: Env, fs: Files, profile: string, plan: Plan, x: Ambient, k: nat, old_: Bytes)
    requires k <= |SaveOps(env, fs, profile, plan, x)|
    ensures var fs' := Interrupted(env, fs, profile, plan, x, k);
            && (!Committed(fs, profile, plan, x, k) ==>
                  && (Enc(profile) in fs' ==> Untouched(fs, fs', Enc(profile)))
                  && (Kept(fs, profile, old_) ==> Kept(fs', profile, old_)))
            && (Committed(fs, profile, plan, x, k) ==> Enc(profile) in fs' && fs'[Enc(profile)] == plan.blob)
            && (k < |SaveOps(env, fs, profile, plan, x)| ==> Untouched(fs, fs', Meta(profile)))
            && (k == |SaveOps(env, fs, profile, plan, x)| ==>
                Meta(profile) in fs' && fs'[Meta(profile)] == env.metaToJson(plan.meta))
  {
    var blob, meta := BlobOps(fs, profile, plan.blob, x), AtomicWriteOps(Meta(profile), env.metaToJson(plan.meta));
    RunPrefix(fs, blob, meta, k);
    if k < |blob| {
      BlobPhaseUnfinished(fs, profile, plan.blob, x, k, old_);
      BlobPhaseSparesMeta(fs, profile, plan.blob, x, k);
    } else {
      BlobPhaseFinished(fs, profile, plan.blob, x);
      BlobPhaseSparesMeta(fs, profile, plan.blob, x, |blob|);
      assert blob[..|blob|] == blob;
      MetaWriteSpares(Run(fs, blob), profile, env.metaToJson(plan.meta), k - |blob|);
    }
  }
}
