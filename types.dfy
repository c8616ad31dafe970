/** The data model shared by the three SDKs: claims, their recipient and cost,
    Ed25519 JWKs, and the two services the code reaches outside itself (the
    ISO 8601 calendar and Ed25519), passed in as values. */
module Types {
  import opened Wrappers
  import opened Octets
  import opened Sdk

  /** `ClaimTarget`: the recipient; the domain is optional. */
  datatype Target = Target(name: Bytes, domain: Option<Bytes>)

  /** `ClaimCost`: an amount in the currency's smallest unit. */
  datatype Cost = Cost(amount: int, currency: Bytes)

  /** `Claim`. An absent optional field is None; Go, whose strings have no
      absent state, reads None as the empty text and a missing `to` as an
      empty target. */
  datatype Claim = Claim(
    v: Option<Bytes>,
    id: Bytes,
    to: Option<Target>,
    at: Bytes,
    iss: Bytes,
    methodName: Bytes,  // the `method` field (a keyword in Dafny)
    description: Bytes,
    exp: Option<Bytes>,
    tier: Option<Bytes>,
    cost: Option<Cost>,
    time: Option<int>,
    physical: Option<bool>,
    energy: Option<int>)

  /** `to.get("name", "")`, `claim.To.Name`, `getTo() != null ? getName() : ""`. */
  function NameText(c: Claim): Bytes
  {
    if c.to.Some? then c.to.value.name else []
  }

  /** The recipient domain, or the empty text when there is none. */
  function DomainText(c: Claim): Bytes
  {
    if c.to.Some? && c.to.value.domain.Some? then c.to.value.domain.value else []
  }

  /** The expiry, or the empty text when there is none. */
  function ExpText(c: Claim): Bytes
  {
    if c.exp.Some? then c.exp.value else []
  }

  /** `Jwk`: an Ed25519 public key; `x` is its 32 bytes in unpadded base64url. */
  datatype Jwk = Jwk(kid: Bytes, kty: Bytes, crv: Bytes, x: Bytes)

  /** ISO 8601 timestamps: `toUnix` parses one into Unix seconds (None where
      the platform's parser raises or returns an error) and `fromUnix` formats
      seconds in UTC with a `Z` suffix. */
  datatype Calendar = Calendar(toUnix: Bytes -> Option<int>, fromUnix: int -> Bytes)

  /** The seconds each platform's formatter can write: Python's `datetime`
      holds the years 1 to 9999, Go's RFC 3339 layout reads back the
      four-digit years 0 to 9999, and Java's `OffsetDateTime` the years
      -999999999 to 999999999. In epoch days (times 86400 seconds) the
      first days are -719162 (0001-01-01), -719528 (0000-01-01) and
      -365243219162 (-999999999-01-01); the last days are 2932896
      (9999-12-31) and 365241780471 (+999999999-12-31), each to its last
      second. */
  function FirstSecond(p: Platform): int
  {
    match p
    case Python => -62135596800
    case Go => -62167219200
    case Java => -31557014135596800
  }

  function LastSecond(p: Platform): int
  {
    match p
    case Python => 253402300799
    case Go => 253402300799
    case Java => 31556889832780799
  }

  predicate InCalendar(p: Platform, n: int)
  {
    FirstSecond(p) <= n <= LastSecond(p)
  }

  /** What a platform's calendar provides: on its range a formatted instant
      parses back to the same second, and a formatted text is never empty
      (Go formats every second; elsewhere only seconds of the range are
      ever formatted). */
  ghost predicate Coherent(p: Platform, cal: Calendar)
  {
    (forall n: int | InCalendar(p, n) :: cal.toUnix(cal.fromUnix(n)) == Some(n)) &&
    (forall n: int :: |cal.fromUnix(n)| > 0)
  }

  /** Ed25519 (RFC 8032): `publicKey` derives the 32-byte public key from a
      private key, `sign` produces a signature and `verify(pub, msg, sig)`
      checks one. */
  datatype Ed25519 = Ed25519(
    publicKey: Bytes -> Bytes,
    sign: (Bytes, Bytes) -> Bytes,
    verify: (Bytes, Bytes, Bytes) -> bool)

  /** The correctness of the signature scheme: a public key is 32 bytes, a
      signature 64, and a signature made with a private key verifies under
      its public key. */
  ghost predicate Correct(e: Ed25519)
  {
    (forall sk: Bytes :: |e.publicKey(sk)| == 32) &&
    (forall sk: Bytes, m: Bytes :: |e.sign(sk, m)| == 64) &&
    (forall sk: Bytes, m: Bytes :: e.verify(e.publicKey(sk), m, e.sign(sk, m)))
  }
}
