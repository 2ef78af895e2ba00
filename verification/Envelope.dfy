/**
 * The byte format of an encrypted jar, and how a blob is bound to its profile and context. The hash and
 * the cipher are parameters known by their laws.
 */
module Envelope {
  import opened Prelude

  type Byte = x: int | 0 <= x < 256
  type Bytes = seq<Byte>

  const MAGIC: Bytes := [0x52, 0x45, 0x56, 0x41, 0x55, 0x54, 0x48, 0x31]
  const VERSION := 1
  const PROFILE_HASH_LEN := 32
  const NONCE_LEN := 24
  const HEADER_LEN := 66

  type ProfileHash = h: Bytes | |h| == PROFILE_HASH_LEN witness seq(PROFILE_HASH_LEN, _ => 0)
  type Nonce = n: Bytes | |n| == NONCE_LEN witness seq(NONCE_LEN, _ => 0)
  type Key = Bytes

  datatype Jar = Jar(profileHash: ProfileHash, nonce: Nonce, ciphertext: Bytes)

  datatype Error = BadKeyOrTamper | ProfileHashMismatch | NoProfile | InvalidProfile | BadSalt | BadJson
  datatype Result<+T> = Ok(value: T) | Err(error: Error)

  function LittleEndian16(n: nat): Bytes
    requires n < 0x1_0000
  {
    [n % 256, n / 256]
  }

  function FromLittleEndian16(low: int, high: int): int {
    low + 256 * high
  }

  function Encode(e: Jar): Bytes {
    MAGIC + LittleEndian16(VERSION) + e.profileHash + e.nonce + e.ciphertext
  }

  function Decode(encoded: Bytes): Result<Jar> {
    if |encoded| < HEADER_LEN then Err(BadKeyOrTamper)
    else if encoded[..8] != MAGIC then Err(BadKeyOrTamper)
    else if FromLittleEndian16(encoded[8], encoded[9]) != VERSION then Err(BadKeyOrTamper)
    else Ok(Jar(encoded[10..42], encoded[42..66], encoded[HEADER_LEN..]))
  }

  /** Every envelope is read back as it was written. */
  lemma DecodeOfEncode(e: Jar)
    ensures |Encode(e)| == HEADER_LEN + |e.ciphertext| && Decode(Encode(e)) == Ok(e)
  {
    var b := Encode(e);
    assert b[..8] == MAGIC;
    assert b[8] == 1 && b[9] == 0;
    assert b[10..42] == e.profileHash;
    assert b[42..66] == e.nonce;
    assert b[HEADER_LEN..] == e.ciphertext;
  }

  /** Whatever is accepted is the encoding of what it is read as: there is one encoding per envelope. */
  lemma EncodeOfDecode(b: Bytes)
    requires Decode(b).Ok?
    ensures Encode(Decode(b).value) == b
  {}

  /** The accepted strings are exactly the encodings. */
  lemma AcceptedIffEncoding(b: Bytes)
    ensures Decode(b).Ok? <==> exists e :: Encode(e) == b
  {
    if Decode(b).Ok? {
      EncodeOfDecode(b);
    }
    forall e | Encode(e) == b ensures Decode(b).Ok? {
      DecodeOfEncode(e);
    }
  }

  /** The bytes of an envelope, field by field. */
  lemma EncodingLayout(e: Jar)
    ensures var b := Encode(e);
            && |b| == 66 + |e.ciphertext|
            && b[..8] == [82, 69, 86, 65, 85, 84, 72, 49]
            && b[8] == 1 && b[9] == 0
            && b[10..42] == e.profileHash && b[42..66] == e.nonce && b[66..] == e.ciphertext
  {
    DecodeOfEncode(e);
  }

  // ----- binding ----------------------------------------------------------------------------

  const AAD_PREFIX := "rev_scraping:stealth-auth:v1:"

  /** What a context adds to the associated data. */
  function Suffix(context: string): string {
    if context == "" then "" else ":" + context
  }

  function Aad(profile: string, context: string): string {
    AAD_PREFIX + (profile + Suffix(context))
  }

  /** The associated data as text. */
  lemma AadReads(profile: string, context: string)
    ensures Aad(profile, "") == "rev_scraping:stealth-auth:v1:" + profile
    ensures context != "" ==> Aad(profile, context) == "rev_scraping:stealth-auth:v1:" + profile + ":" + context
  {}

  lemma SuffixIsInjective(c: string, d: string)
    ensures Suffix(c) == Suffix(d) <==> c == d
  {
    if c != "" { assert Suffix(c)[1..] == c; }
    if d != "" { assert Suffix(d)[1..] == d; }
  }

  lemma ConcatCancels(x: string, y: string, z: string)
    ensures x + y == x + z <==> y == z
  {
    assert (x + y)[|x|..] == y && (x + z)[|x|..] == z;
  }

  /** For one profile, distinct contexts have distinct associated data. */
  lemma AadSeparatesContexts(profile: string, c: string, d: string)
    ensures Aad(profile, c) == Aad(profile, d) <==> c == d
  {
    ConcatCancels(AAD_PREFIX, profile + Suffix(c), profile + Suffix(d));
    ConcatCancels(profile, Suffix(c), Suffix(d));
    SuffixIsInjective(c, d);
  }

  /**
   * Across profiles the associated data alone does not separate: it coincides exactly when the longer
   * profile continues the shorter one with a colon and the context takes up the rest.
   */
  lemma AadCollidesIff(long: string, c: string, short: string, d: string)
    requires |short| < |long|
    ensures Aad(long, c) == Aad(short, d) <==>
            && short <= long && long[|short|] == ':'
            && d == long[|short| + 1..] + Suffix(c)
            && d != ""
  {
    ConcatCancels(AAD_PREFIX, long + Suffix(c), short + Suffix(d));
    LongerContinues(long, Suffix(c), short, Suffix(d));
    if short <= long {
      var rest := long[|short|..] + Suffix(c);
      assert rest == [long[|short|]] + (long[|short| + 1..] + Suffix(c));
      assert d != "" ==> Suffix(d)[0] == ':' && Suffix(d)[1..] == d;
    }
  }

  lemma LongerContinues(long: string, x: string, short: string, y: string)
    requires |short| <= |long|
    ensures long + x == short + y <==> short <= long && y == long[|short|..] + x
  {
    var k := |short|;
    assert (long + x)[..k] == long[..k] && (short + y)[..k] == short;
    assert (long + x)[k..] == long[k..] + x && (short + y)[k..] == y;
    assert long + x == long[..k] + (long[k..] + x);
  }

  datatype Crypto = Crypto(
    sha256: string -> ProfileHash,
    seal: (Key, Bytes, string, Bytes) -> Bytes,
    open: (Key, Bytes, string, Bytes) -> Option<Bytes>)

  /** What was sealed opens under the same key, nonce and associated data. */
  ghost predicate LawfulCrypto(c: Crypto) {
    forall k, n, a, m :: c.open(k, n, a, c.seal(k, n, a, m)) == Some(m)
  }

  /** The authenticity a sound cipher gives: other associated data or another key does not open. */
  ghost predicate Authentic(c: Crypto) {
    forall k, l, n, a, b, m :: (k, a) != (l, b) ==> c.open(l, n, b, c.seal(k, n, a, m)) == None
  }

  function Encrypt(c: Crypto, profile: string, context: string, key: Key, nonce: Nonce, plaintext: Bytes): Bytes {
    Encode(Jar(c.sha256(profile), nonce, c.seal(key, nonce, Aad(profile, context), plaintext)))
  }

  function DecodeForProfile(c: Crypto, profile: string, encoded: Bytes): Result<Jar> {
    match Decode(encoded)
    case Err(e) => Err(e)
    case Ok(jar) => if jar.profileHash != c.sha256(profile) then Err(ProfileHashMismatch) else Ok(jar)
  }

  function Decrypt(c: Crypto, profile: string, context: string, key: Key, encoded: Bytes): Result<Bytes> {
    match DecodeForProfile(c, profile, encoded)
    case Err(e) => Err(e)
    case Ok(jar) =>
      match c.open(key, jar.nonce, Aad(profile, context), jar.ciphertext)
      case Some(m) => Ok(m)
      case None => Err(BadKeyOrTamper)
  }

  lemma DecryptOfEncrypt(c: Crypto, profile: string, context: string, key: Key, nonce: Nonce, plaintext: Bytes)
    requires LawfulCrypto(c)
    ensures Decrypt(c, profile, context, key, Encrypt(c, profile, context, key, nonce, plaintext)) == Ok(plaintext)
    ensures DecodeForProfile(c, profile, Encrypt(c, profile, context, key, nonce, plaintext)).Ok?
  {}

  lemma DecodeOfEncrypted(c: Crypto, profile: string, context: string, key: Key, nonce: Nonce, plaintext: Bytes)
    ensures Decode(Encrypt(c, profile, context, key, nonce, plaintext)) ==
            Ok(Jar(c.sha256(profile), nonce, c.seal(key, nonce, Aad(profile, context), plaintext)))
  {
    DecodeOfEncode(Jar(c.sha256(profile), nonce, c.seal(key, nonce, Aad(profile, context), plaintext)));
  }

  /**
   * What opening a sealed blob comes to, for any profile, context and key: a profile with another hash is
   * told so, and otherwise only the very key and context that sealed it recover the plaintext. The hash
   * check is what stops the collisions of the associated data.
   */
  lemma OnlyItsOwnContextOpens(
    c: Crypto, p: string, ctx: string, key: Key, nonce: Nonce, m: Bytes, q: string, ctx': string, key': Key)
    requires LawfulCrypto(c) && Authentic(c)
    ensures var blob := Encrypt(c, p, ctx, key, nonce, m);
            Decrypt(c, q, ctx', key', blob) ==
              if c.sha256(p) != c.sha256(q) then Err(ProfileHashMismatch)
              else if Aad(p, ctx) == Aad(q, ctx') && key == key' then Ok(m)
              else Err(BadKeyOrTamper)
    ensures p == q ==>
            (Decrypt(c, q, ctx', key', Encrypt(c, p, ctx, key, nonce, m)) == Ok(m) <==> ctx == ctx' && key == key')
  {
    DecodeOfEncrypted(c, p, ctx, key, nonce, m);
    var a, b := Aad(p, ctx), Aad(q, ctx');
    assert c.open(key, nonce, a, c.seal(key, nonce, a, m)) == Some(m);
    assert (key, a) != (key', b) ==> c.open(key', nonce, b, c.seal(key, nonce, a, m)) == None;
    AadSeparatesContexts(p, ctx, ctx');
  }
}
