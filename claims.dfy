/** Claim construction, the version a signed claim carries, and the JWK a
    verification authority publishes (sign.py, sign.go and their legacy
    copies). The clock is the parameter `now`, in Unix seconds, and the
    calendar formats it; the ID comes from the generators of module Ids. */
module Claims {
  import opened Wrappers
  import opened Octets
  import opened Sdk
  import opened Types
  import Grammar
  import Base64Url
  import Ids
  import Compact
  import CompactVerify
  import LegacyCompact

  const SecondsPerDay := 86400

  /** `if expires_in_days:` in Python (None and 0 are both false, a negative
      count is true) against `ExpiresInDays > 0` in Go. */
  predicate ExpiryApplies(p: Platform, days: int)
  {
    if p == Python then days != 0 else days > 0
  }

  /** The expiry a builder writes, if any. */
  function ExpiryOf(p: Platform, cal: Calendar, now: int, days: int): Option<Bytes>
  {
    if ExpiryApplies(p, days) then Some(cal.fromUnix(now + days * SecondsPerDay)) else None
  }

  /** An optional text given as a possibly empty one: Python tests it for
      truth (None and "" are false), Go's `omitempty` leaves "" out. */
  function Present(t: Bytes): Option<Bytes>
  {
    if t != [] then Some(t) else None
  }

  /** The arguments of `create_claim` / `CreateClaimParams`. An absent
      domain or tier is the empty text, an absent day count 0. */
  datatype ClaimParams = ClaimParams(
    methodName: Bytes,
    description: Bytes,
    recipientName: Bytes,
    issuer: Bytes,
    domain: Bytes,
    tier: Bytes,
    expiresInDays: int,
    cost: Option<Cost>,
    time: Option<int>,
    physical: Option<bool>,
    energy: Option<int>)

  /** `create_claim` / `CreateClaim` with the ID already drawn. */
  function CreateClaim(p: Platform, params: ClaimParams, id: Bytes, now: int, cal: Calendar): Claim
    requires p != Java
  {
    Claim(Some(Grammar.Version), id, Some(Target(params.recipientName, Present(params.domain))),
          cal.fromUnix(now), params.issuer, params.methodName, params.description,
          ExpiryOf(p, cal, now, params.expiresInDays), Present(params.tier),
          params.cost, params.time, params.physical, params.energy)
  }

  /** The presence rules: the required fields always, the domain and tier
      exactly when given non-empty, the expiry by the platform's test on the
      day count, and each effort dimension exactly as given (Python keeps a
      0 or False time, physical or energy; only None is left out). */
  lemma {:induction false} CreateClaimFields(p: Platform, params: ClaimParams, id: Bytes, now: int, cal: Calendar)
    requires p != Java
    ensures var c := CreateClaim(p, params, id, now, cal);
            c.v == Some(Grammar.Version) && c.id == id && c.iss == params.issuer &&
            c.methodName == params.methodName && c.description == params.description &&
            c.to.Some? && NameText(c) == params.recipientName &&
            (c.to.value.domain.Some? <==> params.domain != []) && DomainText(c) == params.domain &&
            (c.tier.Some? <==> params.tier != []) &&
            (c.exp.Some? <==> ExpiryApplies(p, params.expiresInDays)) &&
            (c.exp.Some? ==> cal.toUnix(c.exp.value) == cal.toUnix(cal.fromUnix(now + params.expiresInDays * SecondsPerDay))) &&
            c.cost == params.cost && c.time == params.time && c.physical == params.physical &&
            c.energy == params.energy
  {
  }

  /** A negative day count gives Python a claim that has already expired and
      Go none at all; the two agree on every other count. */
  lemma {:induction false} ExpiryDiverges(cal: Calendar, now: int, days: int)
    ensures ExpiryOf(Python, cal, now, days) != ExpiryOf(Go, cal, now, days) <==> days < 0
  {
  }

  /** `CreateClaim` in Go: a failing random source is passed on with no
      claim; otherwise the claim carries a valid ID. */
  method GoCreateClaim(params: ClaimParams, entropy: Option<Bytes>, now: int, cal: Calendar)
    returns (r: Result<Claim, Ids.EntropyError>)
    requires entropy.Some? ==> |entropy.value| == 12
    ensures r.Err? <==> entropy.None?
    ensures r.Ok? ==> r.value == CreateClaim(Go, params, Ids.IdOf(Go, Ids.GoPicks(entropy.value)), now, cal)
    ensures r.Ok? ==> Grammar.IsValidId(Go, r.value.id)
  {
    var id := Ids.GoGenerateId(entropy);
    if id.Err? {
      return Err(id.error);
    }
    return Ok(CreateClaim(Go, params, id.value, now, cal));
  }

  /** A claim the builder makes with a generated ID, a method that fits the
      compact grammar, a recipient name and an issuer can be written in the
      compact format whenever its timestamps fit the platform, so the round
      trip of `Compact.DecodeEncode` applies to it. */
  lemma {:induction false} CreatedClaimIsEncodable(p: Platform, params: ClaimParams, picks: seq<Ids.Pick>, now: int,
                                cal: Calendar)
    requires p != Java && |picks| == 12 && Coherent(p, cal)
    requires |params.methodName| > 0 && Dot !in params.methodName
    requires |params.recipientName| > 0 && |params.issuer| > 0
    requires Compact.Writable(p, now)
    requires ExpiryApplies(p, params.expiresInDays) ==>
               Compact.Writable(p, now + params.expiresInDays * SecondsPerDay)
    ensures Compact.EncodableClaim(p, cal, CreateClaim(p, params, Ids.IdOf(p, picks), now, cal))
  {
    var id := Ids.IdOf(p, picks);
    var c := CreateClaim(p, params, id, now, cal);
    Ids.IdOfIsId(p, picks);
    Grammar.IdsFitIdField(id);
    assert cal.toUnix(cal.fromUnix(now)) == Some(now);
    if ExpiryApplies(p, params.expiresInDays) {
      var e := now + params.expiresInDays * SecondsPerDay;
      assert cal.toUnix(cal.fromUnix(e)) == Some(e) && |cal.fromUnix(e)| > 0;
    }
  }

  // ---------------------------------------------------------------------
  // Signing and keys

  /** `{**claim, "v": claim.get("v", VERSION)}`: the claim `sign_claim`
      hands to the JWS encoder. */
  function WithVersion(c: Claim): (r: Claim)
    ensures r.v.Some?
  {
    if c.v.Some? then c else c.(v := Some(Grammar.Version))
  }

  /** The version is filled in only when missing, and nothing else changes. */
  lemma {:induction false} WithVersionChangesOnlyV(c: Claim)
    ensures WithVersion(c).v == if c.v.Some? then c.v else Some(Grammar.Version)
    ensures WithVersion(c).(v := c.v) == c
    ensures WithVersion(WithVersion(c)) == WithVersion(c)
  {
  }

  /** `export_public_key_jwk` / `ExportPublicKeyJWK`. */
  function ExportPublicKeyJwk(publicKey: Bytes, kid: Bytes): Jwk
  {
    Jwk(kid, Str("OKP"), Str("Ed25519"), Base64Url.Encode(publicKey))
  }

  /** An exported 32-byte key is 43 symbols long, its `kid` is the one given,
      and every platform's verifier imports exactly that key back from it. */
  lemma {:induction false} ExportThenImport(p: Platform, publicKey: Bytes, kid: Bytes)
    requires |publicKey| == 32
    ensures var jwk := ExportPublicKeyJwk(publicKey, kid);
            jwk.kid == kid && |jwk.x| == 43 && CompactVerify.ImportKey(p, jwk) == Some(publicKey)
  {
    Base64Url.KeyLength(publicKey);
    CompactVerify.KeyReads(p, ExportPublicKeyJwk(publicKey, kid), publicKey);
  }

  /** The published key of a signer accepts that signer's signatures. */
  lemma {:induction false} ExportedKeyAccepts(p: Platform, e: Ed25519, sk: Bytes, kid: Bytes, message: Bytes)
    requires Correct(e)
    ensures CompactVerify.KeyAccepts(p, e, ExportPublicKeyJwk(e.publicKey(sk), kid), message, e.sign(sk, message))
  {
    ExportThenImport(p, e.publicKey(sk), kid);
  }

  // ---------------------------------------------------------------------
  // Legacy builders

  /** The claim kinds whose builders take a method, a target and a tier. */
  datatype EffortKind = HumanEffort | PhysicalDelivery | FinancialCommitment | ContentAttestation

  /** The type tag each builder writes: `human_effort`, `physical_delivery`,
      `financial_commitment`, `content_attestation`. */
  function TypeTag(k: EffortKind): Bytes
  {
    match k
    case HumanEffort => Str("human_effort")
    case PhysicalDelivery => Str("physical_delivery")
    case FinancialCommitment => Str("financial_commitment")
    case ContentAttestation => Str("content_attestation")
  }

  /** `recipient_commitment`. */
  const CommitmentTag: Bytes :=
    Str("recipient_commitment")

  /** The arguments of `create_human_effort_claim` and the three builders
      like it. */
  datatype EffortParams = EffortParams(
    methodName: Bytes,
    recipientName: Bytes,
    domain: Bytes,
    tier: Bytes,
    issuer: Bytes,
    expiresInDays: int)

  /** `create_human_effort_claim`, `create_physical_delivery_claim`,
      `create_financial_commitment_claim`, `create_content_attestation_claim`
      and their Go counterparts, with the ID already drawn. */
  function CreateEffortClaim(p: Platform, k: EffortKind, params: EffortParams, id: Bytes, now: int,
                             cal: Calendar): LegacyCompact.LegacyClaim
    requires p != Java
  {
    LegacyCompact.LegacyClaim(
      Some(Grammar.Version), id, TypeTag(k), params.methodName,
      Some(Target(params.recipientName, Present(params.domain))), [], None,
      Present(params.tier), cal.fromUnix(now), ExpiryOf(p, cal, now, params.expiresInDays), params.issuer)
  }

  /** `create_recipient_commitment_claim` / `CreateRecipientCommitmentClaim`. */
  function CreateRecipientCommitmentClaim(p: Platform, recipientName: Bytes, recipientDomain: Bytes,
                                          commitment: Bytes, issuer: Bytes, days: int, id: Bytes,
                                          now: int, cal: Calendar): LegacyCompact.LegacyClaim
    requires p != Java
  {
    LegacyCompact.LegacyClaim(
      Some(Grammar.Version), id, CommitmentTag, [], None, commitment,
      Some(Target(recipientName, Present(recipientDomain))),
      None, cal.fromUnix(now), ExpiryOf(p, cal, now, days), issuer)
  }

  /** The effort builders agree on everything but the type tag, and the
      tags tell the kinds apart. */
  lemma {:induction false} EffortBuildersDifferOnlyInType(p: Platform, k1: EffortKind, k2: EffortKind, params: EffortParams,
                                       id: Bytes, now: int, cal: Calendar)
    requires p != Java
    ensures CreateEffortClaim(p, k1, params, id, now, cal).(claimType := TypeTag(k2))
         == CreateEffortClaim(p, k2, params, id, now, cal)
    ensures TypeTag(k1) == TypeTag(k2) <==> k1 == k2
    ensures TypeTag(k1) != CommitmentTag
  {
    TagsDiffer(k1, k2);
  }

  lemma {:induction false} TagsDiffer(k1: EffortKind, k2: EffortKind)
    ensures TypeTag(k1) == TypeTag(k2) <==> k1 == k2
    ensures TypeTag(k1) != CommitmentTag
  {
    // the five tags start with five different letters
    assert TypeTag(k1)[0] != CommitmentTag[0];
    if k1 != k2 {
      assert TypeTag(k1)[0] != TypeTag(k2)[0];
    }
  }

  /** Under the format whose commitment type is `recipient_commitment`, the
      compact codec takes an effort claim's target and method, and a
      recipient commitment's recipient and commitment; the commitment claim
      carries no tier. */
  lemma {:induction false} BuiltClaimsFeedTheCodec(p: Platform, f: LegacyCompact.Format, k: EffortKind, params: EffortParams,
                                recipientName: Bytes, recipientDomain: Bytes, commitment: Bytes,
                                issuer: Bytes, days: int, id: Bytes, now: int, cal: Calendar)
    requires p != Java && f.commitmentType == CommitmentTag
    ensures var c := CreateEffortClaim(p, k, params, id, now, cal);
            LegacyCompact.TargetName(LegacyCompact.Holder(f, c)) == params.recipientName &&
            LegacyCompact.TargetDomain(LegacyCompact.Holder(f, c)) == params.domain &&
            LegacyCompact.MethodField(f, c) == params.methodName
    ensures var r := CreateRecipientCommitmentClaim(p, recipientName, recipientDomain, commitment, issuer,
                                                    days, id, now, cal);
            LegacyCompact.TargetName(LegacyCompact.Holder(f, r)) == recipientName &&
            LegacyCompact.TargetDomain(LegacyCompact.Holder(f, r)) == recipientDomain &&
            LegacyCompact.MethodField(f, r) == commitment && r.tier.None?
  {
    TagsDiffer(k, k);
  }

  /** `CreateHumanEffortClaim` and the other Go effort builders: the random
      source's error is passed on with no claim. */
  method GoCreateEffortClaim(k: EffortKind, params: EffortParams, entropy: Option<Bytes>, now: int,
                             cal: Calendar) returns (r: Result<LegacyCompact.LegacyClaim, Ids.EntropyError>)
    requires entropy.Some? ==> |entropy.value| == 12
    ensures r.Err? <==> entropy.None?
    ensures r.Ok? ==> r.value == CreateEffortClaim(Go, k, params, Ids.IdOf(Go, Ids.GoPicks(entropy.value)), now, cal)
    ensures r.Ok? ==> Grammar.IsValidId(Go, r.value.id)
  {
    var id := Ids.GoGenerateId(entropy);
    if id.Err? {
      return Err(id.error);
    }
    return Ok(CreateEffortClaim(Go, k, params, id.value, now, cal));
  }

  /** `CreateRecipientCommitmentClaim` in Go. */
  method GoCreateRecipientCommitmentClaim(recipientName: Bytes, recipientDomain: Bytes, commitment: Bytes,
                                          issuer: Bytes, days: int, entropy: Option<Bytes>, now: int,
                                          cal: Calendar)
    returns (r: Result<LegacyCompact.LegacyClaim, Ids.EntropyError>)
    requires entropy.Some? ==> |entropy.value| == 12
    ensures r.Err? <==> entropy.None?
    ensures r.Ok? ==> r.value == CreateRecipientCommitmentClaim(Go, recipientName, recipientDomain, commitment,
                                   issuer, days, Ids.IdOf(Go, Ids.GoPicks(entropy.value)), now, cal)
    ensures r.Ok? ==> Grammar.IsValidId(Go, r.value.id)
  {
    var id := Ids.GoGenerateId(entropy);
    if id.Err? {
      return Err(id.error);
    }
    return Ok(CreateRecipientCommitmentClaim(Go, recipientName, recipientDomain, commitment, issuer, days,
                                             id.value, now, cal));
  }
}
