/** Online verification of a claim by its ID (verify.py, verify.go,
    HumanAttestation.java, Hap.java and their legacy copies): fetch the
    claim from the verification authority, optionally check the JWS it
    carries against the authority's published keys, and the predicates a
    recipient applies afterwards. HTTP is a parameter: the authority's
    answer for an ID and its key set are given, or a transport error. The
    JWS compact form is given parsed. */
module Verify {
  import opened Wrappers
  import opened Octets
  import opened Sdk
  import opened Types
  import Grammar
  import CompactVerify
  import LegacyCompact
  import Claims

  /** A network answer: the decoded body, or a transport failure (Python
      raises, Go returns an error, Java throws `IOException`). */
  datatype Fetched<T> = Got(value: T) | TransportError

  /** `VerificationResponse`: `jws` is None when the field is absent (Go
      reads an absent field as ""). */
  datatype Response = Response(valid: bool, claim: Option<Claim>, jws: Option<Bytes>, error: Option<Bytes>)

  /** `invalid_format` */
  const InvalidFormat: Bytes := Str("invalid_format")

  /** A parsed JWS compact serialization: the `kid` of its protected header
      (None when absent), the signing input, the signature, and the claim its
      payload holds (None when it is not a claim). */
  datatype Jws = Jws(kid: Option<Bytes>, signingInput: Bytes, signature: Bytes, claim: Option<Claim>)

  // ---------------------------------------------------------------------
  // Fetching a claim

  /** `fetch_claim` / `FetchClaim` / `fetchClaim`: an ID the platform's
      predicate refuses is answered locally with `invalid_format`; any other
      is sent to the authority. */
  function FetchClaim(p: Platform, id: Bytes, authority: Bytes -> Fetched<Response>): Fetched<Response>
  {
    if !Grammar.IsValidId(p, id) then Got(Response(false, None, None, Some(InvalidFormat)))
    else authority(id)
  }

  /** No request is made for an invalid ID: the answer does not depend on
      the authority, and it is not valid. */
  lemma {:induction false} InvalidIdIsNotSent(p: Platform, id: Bytes, a1: Bytes -> Fetched<Response>,
                           a2: Bytes -> Fetched<Response>)
    requires !Grammar.IsValidId(p, id)
    ensures FetchClaim(p, id, a1) == FetchClaim(p, id, a2)
    ensures FetchClaim(p, id, a1).Got? && !FetchClaim(p, id, a1).value.valid
    ensures FetchClaim(p, id, a1).value.error == Some(InvalidFormat)
  {
  }

  // ---------------------------------------------------------------------
  // Key lookup

  /** The first key whose `kid` equals the header's. */
  function FirstKeyWithKid(keys: seq<Jwk>, kid: Bytes): (r: Option<Jwk>)
    ensures r.Some? ==> r.value in keys && r.value.kid == kid
    ensures r.None? <==> forall i | 0 <= i < |keys| :: keys[i].kid != kid
  {
    if keys == [] then None
    else if keys[0].kid == kid then Some(keys[0])
    else
      var r := FirstKeyWithKid(keys[1..], kid);
      assert forall i | 1 <= i < |keys| :: keys[i] == keys[1..][i - 1];
      r
  }

  /** The key found is the one at the first index with that `kid`. */
  lemma {:induction false} FirstKeyIsFirst(keys: seq<Jwk>, kid: Bytes, j: nat)
    requires j < |keys| && keys[j].kid == kid
    requires forall i | 0 <= i < j :: keys[i].kid != kid
    ensures FirstKeyWithKid(keys, kid) == Some(keys[j])
  {
    if j > 0 {
      FirstKeyIsFirst(keys[1..], kid, j - 1);
    }
  }

  /** The lookup loop of `VerifySignature` / `verifySignature`: stop at the
      first key with an equal `kid`. */
  method FindKey(keys: seq<Jwk>, kid: Bytes) returns (r: Option<Jwk>)
    ensures r == FirstKeyWithKid(keys, kid)
  {
    var i := 0;
    while i < |keys|
      invariant 0 <= i <= |keys|
      invariant FirstKeyWithKid(keys, kid) == FirstKeyWithKid(keys[i..], kid)
    {
      assert keys[i..][1..] == keys[i + 1..];
      if keys[i].kid == kid {
        return Some(keys[i]);
      }
      i := i + 1;
    }
    return None;
  }

  // ---------------------------------------------------------------------
  // Signature check

  datatype SigFailure =
    | KeysUnavailable
    | MalformedJws
    | MissingKid
    | KeyNotFound
    | BadSignature
    | BadPayload
    | ExpNotInteger
    | IssuerMismatch

  datatype SigResult = SigValid(claim: Claim) | SigInvalid(failure: SigFailure)

  /** Python's `if not kid` and Go's `kid == ""` refuse an empty `kid`;
      Java only refuses a missing one and goes on to look up "". */
  predicate KidMissing(p: Platform, kid: Option<Bytes>)
  {
    kid.None? || (p != Java && kid.value == [])
  }

  /** The signature check: keys, JWS, `kid`, the first key with that `kid`,
      the signature under it, the payload, then, when `jwtExp` is set, the
      registered `exp` claim, and the issuer, in that order; the first to
      fail decides. PyJWT reads a present `exp` as an integer and refuses
      the ISO-8601 text a HAP claim carries there. */
  function CheckSignature(p: Platform, jwtExp: bool, e: Ed25519, keys: Fetched<seq<Jwk>>, jws: Option<Jws>,
                          issuer: Bytes): SigResult
  {
    if keys.TransportError? then SigInvalid(KeysUnavailable)
    else if jws.None? then SigInvalid(MalformedJws)
    else
      var j := jws.value;
      if KidMissing(p, j.kid) then SigInvalid(MissingKid)
      else
        match FirstKeyWithKid(keys.value, j.kid.value)
        case None => SigInvalid(KeyNotFound)
        case Some(jwk) =>
          if !CompactVerify.KeyAccepts(p, e, jwk, j.signingInput, j.signature) then SigInvalid(BadSignature)
          else if j.claim.None? then SigInvalid(BadPayload)
          else if jwtExp && j.claim.value.exp.Some? then SigInvalid(ExpNotInteger)
          else if j.claim.value.iss != issuer then SigInvalid(IssuerMismatch)
          else SigValid(j.claim.value)
  }

  /** `verify_signature` / `VerifySignature` / `verifySignature`: Python's
      `jwt.decode` keeps PyJWT's `exp` validation (only `verify_aud` is
      turned off); go-jose and nimbus leave the payload's claims alone. */
  function VerifySignatureSpec(p: Platform, e: Ed25519, keys: Fetched<seq<Jwk>>, jws: Option<Jws>,
                               issuer: Bytes): SigResult
  {
    CheckSignature(p, p == Python, e, keys, jws, issuer)
  }

  method VerifySignature(p: Platform, e: Ed25519, keys: Fetched<seq<Jwk>>, jws: Option<Jws>, issuer: Bytes)
    returns (r: SigResult)
    ensures r == VerifySignatureSpec(p, e, keys, jws, issuer)
  {
    if keys.TransportError? {
      return SigInvalid(KeysUnavailable);
    }
    if jws.None? {
      return SigInvalid(MalformedJws);
    }
    var j := jws.value;
    if KidMissing(p, j.kid) {
      return SigInvalid(MissingKid);
    }
    var jwk := FindKey(keys.value, j.kid.value);
    if jwk.None? {
      return SigInvalid(KeyNotFound);
    }
    if !CompactVerify.KeyAccepts(p, e, jwk.value, j.signingInput, j.signature) {
      return SigInvalid(BadSignature);
    }
    if j.claim.None? {
      return SigInvalid(BadPayload);
    }
    if p == Python && j.claim.value.exp.Some? {
      return SigInvalid(ExpNotInteger);
    }
    if j.claim.value.iss != issuer {
      return SigInvalid(IssuerMismatch);
    }
    return SigValid(j.claim.value);
  }

  /** A signature check succeeds exactly when the JWS names a key, the first
      published key with that name verifies the signature, the signed claim
      has no `exp` if Python checks it, and it was issued by the authority
      asked; it then returns that claim. */
  lemma {:induction false} SignatureValidIff(p: Platform, e: Ed25519, keys: Fetched<seq<Jwk>>, jws: Option<Jws>, issuer: Bytes)
    ensures VerifySignatureSpec(p, e, keys, jws, issuer).SigValid? <==>
              keys.Got? && jws.Some? && !KidMissing(p, jws.value.kid) &&
              FirstKeyWithKid(keys.value, jws.value.kid.value).Some? &&
              CompactVerify.KeyAccepts(p, e, FirstKeyWithKid(keys.value, jws.value.kid.value).value,
                                       jws.value.signingInput, jws.value.signature) &&
              jws.value.claim.Some? && (p == Python ==> jws.value.claim.value.exp.None?) &&
              jws.value.claim.value.iss == issuer
    ensures VerifySignatureSpec(p, e, keys, jws, issuer).SigValid? ==>
              VerifySignatureSpec(p, e, keys, jws, issuer).claim == jws.value.claim.value
  {
  }

  /** The order of the checks: an issuer mismatch is only reported for a
      signature that verified, and a bad signature only once a key was
      found. */
  lemma {:induction false} FailureOrder(p: Platform, e: Ed25519, keys: Fetched<seq<Jwk>>, jws: Option<Jws>, issuer: Bytes)
    ensures var r := VerifySignatureSpec(p, e, keys, jws, issuer);
            (r == SigInvalid(IssuerMismatch) || r == SigInvalid(ExpNotInteger) || r == SigInvalid(BadPayload) ||
             r == SigInvalid(BadSignature)) ==>
              keys.Got? && jws.Some? && !KidMissing(p, jws.value.kid) &&
              FirstKeyWithKid(keys.value, jws.value.kid.value).Some?
    ensures var r := VerifySignatureSpec(p, e, keys, jws, issuer);
            (r == SigInvalid(IssuerMismatch) || r == SigInvalid(ExpNotInteger) || r == SigInvalid(BadPayload)) ==>
              CompactVerify.KeyAccepts(p, e, FirstKeyWithKid(keys.value, jws.value.kid.value).value,
                                       jws.value.signingInput, jws.value.signature)
  {
  }

  /** Only the first key with the header's `kid` is tried: a later key of
      the same name that would verify the signature is never reached. */
  lemma {:induction false} OnlyFirstKeyTried(p: Platform, e: Ed25519, keys: seq<Jwk>, jws: Jws, issuer: Bytes, i: nat, j: nat)
    requires jws.kid.Some? && !KidMissing(p, jws.kid) && i < j < |keys|
    requires keys[i].kid == jws.kid.value && keys[j].kid == jws.kid.value
    requires forall k | 0 <= k < i :: keys[k].kid != jws.kid.value
    requires !CompactVerify.KeyAccepts(p, e, keys[i], jws.signingInput, jws.signature)
    ensures VerifySignatureSpec(p, e, Got(keys), Some(jws), issuer) == SigInvalid(BadSignature)
  {
    FirstKeyIsFirst(keys, jws.kid.value, i);
  }

  /** A JWS whose header `kid` is empty: Python and Go stop at the header,
      Java looks for a key named "". */
  lemma {:induction false} EmptyKidDiverges(e: Ed25519, keys: seq<Jwk>, jws: Jws, issuer: Bytes)
    requires jws.kid == Some([])
    ensures VerifySignatureSpec(Python, e, Got(keys), Some(jws), issuer) == SigInvalid(MissingKid)
    ensures VerifySignatureSpec(Go, e, Got(keys), Some(jws), issuer) == SigInvalid(MissingKid)
    ensures VerifySignatureSpec(Java, e, Got(keys), Some(jws), issuer) != SigInvalid(MissingKid)
  {
  }

  /** A claim signed with a published key, under that key's `kid`, by the
      authority asked, passes the check, except on Python when it carries
      an `exp`, which PyJWT refuses. */
  lemma {:induction false} SignedByPublishedKey(p: Platform, e: Ed25519, sk: Bytes, kid: Bytes, keys: seq<Jwk>, i: nat,
                             input: Bytes, c: Claim, issuer: Bytes)
    requires Correct(e) && kid != [] && c.iss == issuer
    requires i < |keys| && keys[i] == Claims.ExportPublicKeyJwk(e.publicKey(sk), kid)
    requires forall k | 0 <= k < i :: keys[k].kid != kid
    ensures VerifySignatureSpec(p, e, Got(keys), Some(Jws(Some(kid), input, e.sign(sk, input), Some(c))), issuer)
         == if p == Python && c.exp.Some? then SigInvalid(ExpNotInteger) else SigValid(c)
  {
    FirstKeyIsFirst(keys, kid, i);
    Claims.ExportedKeyAccepts(p, e, sk, kid, input);
  }

  /** Without PyJWT's `exp` validation (`options={"verify_exp": False}`, as
      the other platforms behave) a claim signed with a published key by the
      authority asked passes on every platform, expiry or not. */
  lemma {:induction false} SignedByPublishedKeyPassesWithoutJwtExp(p: Platform, e: Ed25519, sk: Bytes, kid: Bytes,
                                                  keys: seq<Jwk>, i: nat, input: Bytes, c: Claim, issuer: Bytes)
    requires Correct(e) && kid != [] && c.iss == issuer
    requires i < |keys| && keys[i] == Claims.ExportPublicKeyJwk(e.publicKey(sk), kid)
    requires forall k | 0 <= k < i :: keys[k].kid != kid
    ensures CheckSignature(p, false, e, Got(keys), Some(Jws(Some(kid), input, e.sign(sk, input), Some(c))), issuer)
         == SigValid(c)
    ensures p != Python ==>
              (CheckSignature(p, false, e, Got(keys), Some(Jws(Some(kid), input, e.sign(sk, input), Some(c))), issuer)
               == VerifySignatureSpec(p, e, Got(keys), Some(Jws(Some(kid), input, e.sign(sk, input), Some(c))), issuer))
  {
    FirstKeyIsFirst(keys, kid, i);
    Claims.ExportedKeyAccepts(p, e, sk, kid, input);
  }

  /** hap-python refuses every claim its own builder makes with an expiry,
      signed with a published key by the authority asked. */
  lemma {:induction false} PythonRefusesExpiringClaim(e: Ed25519, sk: Bytes, kid: Bytes, keys: seq<Jwk>, i: nat,
                                   input: Bytes, params: Claims.ClaimParams, id: Bytes, now: int, cal: Calendar)
    requires Correct(e) && kid != [] && Claims.ExpiryApplies(Python, params.expiresInDays)
    requires i < |keys| && keys[i] == Claims.ExportPublicKeyJwk(e.publicKey(sk), kid)
    requires forall k | 0 <= k < i :: keys[k].kid != kid
    ensures var c := Claims.CreateClaim(Python, params, id, now, cal);
            VerifySignatureSpec(Python, e, Got(keys), Some(Jws(Some(kid), input, e.sign(sk, input), Some(c))),
                                params.issuer) == SigInvalid(ExpNotInteger)
  {
    var c := Claims.CreateClaim(Python, params, id, now, cal);
    Claims.CreateClaimFields(Python, params, id, now, cal);
    SignedByPublishedKey(Python, e, sk, kid, keys, i, input, c, params.issuer);
  }

  // ---------------------------------------------------------------------
  // Verifying a claim by ID

  /** Python's `"jws" in response`, Go's `resp.JWS != ""`, Java's
      `getJws() != null`. */
  predicate JwsPresent(p: Platform, r: Response)
  {
    r.jws.Some? && (p != Go || r.jws.value != [])
  }

  /** `verify_hap_claim` / `VerifyClaim` / `verifyClaim`: fetch (a transport
      error is passed on), refuse an invalid answer, check the signature
      when asked to and a JWS is present, then return the answer's claim. */
  function VerifyClaim(p: Platform, e: Ed25519, id: Bytes, issuer: Bytes, checkSignature: bool,
                       authority: Bytes -> Fetched<Response>, keys: Fetched<seq<Jwk>>,
                       parse: Bytes -> Option<Jws>): Fetched<Option<Claim>>
  {
    match FetchClaim(p, id, authority)
    case TransportError => TransportError
    case Got(resp) =>
      if !resp.valid then Got(None)
      else if checkSignature && JwsPresent(p, resp) &&
              !VerifySignatureSpec(p, e, keys, parse(resp.jws.value), issuer).SigValid? then Got(None)
      else Got(resp.claim)
  }

  /** A claim comes back only for a valid ID and a valid answer, and, when
      the check was asked for and the answer carries a JWS, only after that
      JWS passed the signature check; no claim comes back for an invalid
      ID, whatever the authority would say. */
  lemma {:induction false} VerifiedClaimWasChecked(p: Platform, e: Ed25519, id: Bytes, issuer: Bytes, checkSignature: bool,
                                authority: Bytes -> Fetched<Response>, keys: Fetched<seq<Jwk>>,
                                parse: Bytes -> Option<Jws>)
    ensures var r := VerifyClaim(p, e, id, issuer, checkSignature, authority, keys, parse);
            r.Got? && r.value.Some? ==>
              Grammar.IsValidId(p, id) && authority(id).Got? && authority(id).value.valid &&
              r.value == authority(id).value.claim &&
              (checkSignature && JwsPresent(p, authority(id).value) ==>
                 VerifySignatureSpec(p, e, keys, parse(authority(id).value.jws.value), issuer).SigValid?)
    ensures !Grammar.IsValidId(p, id) ==>
              VerifyClaim(p, e, id, issuer, checkSignature, authority, keys, parse) == Got(None)
  {
  }

  /** With the check off, or with no JWS in the answer, the answer's claim
      is returned without looking at any key. */
  lemma {:induction false} UncheckedClaimIsReturned(p: Platform, e: Ed25519, id: Bytes, issuer: Bytes, checkSignature: bool,
                                 authority: Bytes -> Fetched<Response>, keys: Fetched<seq<Jwk>>,
                                 parse: Bytes -> Option<Jws>)
    requires Grammar.IsValidId(p, id) && authority(id).Got? && authority(id).value.valid
    requires !checkSignature || !JwsPresent(p, authority(id).value)
    ensures VerifyClaim(p, e, id, issuer, checkSignature, authority, keys, parse) == Got(authority(id).value.claim)
  {
  }

  /** Go's `VerifyOptions`, of which the model needs the signature flag. */
  datatype VerifyOptions = VerifyOptions(verifySignature: bool)

  /** `DefaultVerifyOptions`. */
  function DefaultVerifyOptions(): (o: VerifyOptions)
    ensures o.verifySignature
  {
    VerifyOptions(true)
  }

  /** Go's variadic options: the first one given, or the defaults. */
  function ChosenOptions(opts: seq<VerifyOptions>): (o: VerifyOptions)
    ensures opts == [] ==> o.verifySignature
    ensures opts != [] ==> o == opts[0]
  {
    if |opts| > 0 then opts[0] else DefaultVerifyOptions()
  }

  /** `VerifyClaim(ctx, id, issuer, opts...)` in Go. */
  function GoVerifyClaim(e: Ed25519, id: Bytes, issuer: Bytes, opts: seq<VerifyOptions>,
                         authority: Bytes -> Fetched<Response>, keys: Fetched<seq<Jwk>>,
                         parse: Bytes -> Option<Jws>): Fetched<Option<Claim>>
  {
    VerifyClaim(Go, e, id, issuer, ChosenOptions(opts).verifySignature, authority, keys, parse)
  }

  /** Calling without options checks signatures; passing the zero-valued
      `VerifyOptions{}` turns the check off, so a forged JWS is accepted. */
  lemma {:induction false} ZeroOptionsSkipTheCheck(e: Ed25519, id: Bytes, issuer: Bytes, authority: Bytes -> Fetched<Response>,
                                keys: Fetched<seq<Jwk>>, parse: Bytes -> Option<Jws>)
    requires Grammar.IsValidId(Go, id) && authority(id).Got? && authority(id).value.valid
    requires JwsPresent(Go, authority(id).value)
    requires !VerifySignatureSpec(Go, e, keys, parse(authority(id).value.jws.value), issuer).SigValid?
    ensures GoVerifyClaim(e, id, issuer, [], authority, keys, parse) == Got(None)
    ensures GoVerifyClaim(e, id, issuer, [VerifyOptions(false)], authority, keys, parse)
         == Got(authority(id).value.claim)
  {
  }

  // ---------------------------------------------------------------------
  // IDs in verification links

  /** `extract_hap_id_from_url` / `ExtractIDFromURL` / `extractIdFromUrl` on
      the URL's path: its last `/`-separated segment, if that is a valid
      ID. Java's `split` drops trailing empty segments first (and may leave
      none). */
  function ExtractIdFromPath(p: Platform, path: Bytes): (r: Option<Bytes>)
    ensures r.Some? ==> Grammar.IsValidId(p, r.value) && Slash !in r.value
  {
    var parts := if p == Java then JavaSplit(path, Slash) else Split(path, Slash);
    if |parts| == 0 then None
    else
      var last := parts[|parts| - 1];
      assert p == Java ==> Slash !in last by {
        if p == Java && Slash in path {
          var all := Split(path, Slash);
          assert parts == all[..|parts|];
          assert last == all[|parts| - 1];
        }
      }
      if Grammar.IsValidId(p, last) then Some(last) else None
  }

  lemma {:induction false} IdHasNoSlash(s: Bytes)
    requires Grammar.IsId(s)
    ensures Slash !in s
  {
    assert s == s[..4] + s[4..];
    assert Slash !in s[..4];
  }

  /** A path that ends in `/` and an ID yields that ID on every platform. */
  lemma {:induction false} ExtractIdOfPath(p: Platform, dir: Bytes, id: Bytes)
    requires Grammar.IsId(id)
    ensures ExtractIdFromPath(p, dir + [Slash] + id) == Some(id)
  {
    IdHasNoSlash(id);
    var path := dir + [Slash] + id;
    var parts := Split(dir, Slash);
    assert Join(parts + [id], Slash) == path by {
      JoinSnoc(parts, id, Slash);
    }
    SplitOfJoin(parts + [id], Slash);
    assert path[|dir|] == Slash;
    assert |id| > 0;
  }

  /** Splitting a path with a trailing `/` after the ID. */
  lemma {:induction false} SplitWithTrailingSlash(dir: Bytes, id: Bytes)
    requires Slash !in id && id != []
    ensures var parts := Split(dir + [Slash] + id + [Slash], Slash);
            |parts| >= 2 && parts[|parts| - 1] == [] && parts[|parts| - 2] == id
  {
    var parts := Split(dir, Slash) + [id, []];
    assert Join(parts, Slash) == dir + [Slash] + id + [Slash] by {
      JoinSnoc(Split(dir, Slash), id, Slash);
      JoinSnoc(Split(dir, Slash) + [id], [], Slash);
      assert Split(dir, Slash) + [id] + [[]] == parts;
    }
    assert forall i | 0 <= i < |parts| :: Slash !in parts[i];
    SplitOfJoin(parts, Slash);
  }

  /** With a trailing `/` after the ID only Java still finds it. */
  lemma {:induction false} TrailingSlashDiverges(p: Platform, dir: Bytes, id: Bytes)
    requires Grammar.IsId(id)
    ensures ExtractIdFromPath(p, dir + [Slash] + id + [Slash]) == if p == Java then Some(id) else None
  {
    IdHasNoSlash(id);
    var path := dir + [Slash] + id + [Slash];
    SplitWithTrailingSlash(dir, id);
    assert path[|path| - 1] == Slash;
    ExtractBeforeTrailingEmpty(p, path, id);
  }

  lemma {:induction false} ExtractBeforeTrailingEmpty(p: Platform, path: Bytes, id: Bytes)
    requires Grammar.IsId(id) && Slash in path
    requires var all := Split(path, Slash); |all| >= 2 && all[|all| - 1] == [] && all[|all| - 2] == id
    ensures ExtractIdFromPath(p, path) == if p == Java then Some(id) else None
  {
    if p == Java {
      JavaExtractBeforeTrailingEmpty(path, id);
    } else {
      assert !Grammar.IsValidId(p, []);
    }
  }

  lemma {:induction false} JavaExtractBeforeTrailingEmpty(path: Bytes, id: Bytes)
    requires Grammar.IsId(id) && Slash in path
    requires var all := Split(path, Slash); |all| >= 2 && all[|all| - 1] == [] && all[|all| - 2] == id
    ensures ExtractIdFromPath(Java, path) == Some(id)
  {
    var all := Split(path, Slash);
    JavaSplitDropsOneEmpty(path, Slash);
    var parts := JavaSplit(path, Slash);
    assert parts[|parts| - 1] == id;
  }

  // ---------------------------------------------------------------------
  // Expiry

  /** `is_claim_expired` / `IsClaimExpired` / `isClaimExpired` at the
      instant `now`: no expiry (absent or empty) is never expired; an
      expiry the platform cannot parse makes Python raise (None) and the
      others answer false; otherwise expired means strictly before now. */
  function IsClaimExpired(p: Platform, cal: Calendar, exp: Option<Bytes>, now: int): Option<bool>
  {
    if exp.None? || exp.value == [] then Some(false)
    else
      match cal.toUnix(exp.value)
      case None => if p == Python then None else Some(false)
      case Some(t) => Some(t < now)
  }

  /** A claim is expired exactly when it has an expiry that parses to an
      instant strictly before now; only Python can fail to answer. */
  lemma {:induction false} ExpiredIff(p: Platform, cal: Calendar, exp: Option<Bytes>, now: int)
    ensures IsClaimExpired(p, cal, exp, now) == Some(true) <==>
              exp.Some? && exp.value != [] && cal.toUnix(exp.value).Some? && cal.toUnix(exp.value).value < now
    ensures IsClaimExpired(p, cal, exp, now).None? <==>
              p == Python && exp.Some? && exp.value != [] && cal.toUnix(exp.value).None?
  {
  }

  /** A claim built at `created` to last `days` days is not expired up to
      and including its last second and is expired after it; a claim built
      without expiry never expires. */
  lemma {:induction false} CreatedClaimExpiry(p: Platform, params: Claims.ClaimParams, id: Bytes, created: int, cal: Calendar,
                           now: int)
    requires p != Java && Coherent(p, cal)
    requires Claims.ExpiryApplies(p, params.expiresInDays) ==>
               InCalendar(p, created + params.expiresInDays * Claims.SecondsPerDay)
    ensures var c := Claims.CreateClaim(p, params, id, created, cal);
            IsClaimExpired(p, cal, c.exp, now) ==
              Some(Claims.ExpiryApplies(p, params.expiresInDays) &&
                   created + params.expiresInDays * Claims.SecondsPerDay < now)
  {
    var t := created + params.expiresInDays * Claims.SecondsPerDay;
    if Claims.ExpiryApplies(p, params.expiresInDays) {
      assert cal.toUnix(cal.fromUnix(t)) == Some(t) && |cal.fromUnix(t)| > 0;
    }
  }

  // ---------------------------------------------------------------------
  // Recipient matching

  /** Go compares the domain text, which is "" when there is none; Java and
      Python need a recipient with a domain equal to the one asked. */
  predicate DomainMatches(p: Platform, t: Option<Target>, domain: Bytes)
  {
    if p == Go then (if t.Some? && t.value.domain.Some? then t.value.domain.value else []) == domain
    else t.Some? && t.value.domain == Some(domain)
  }

  /** `IsClaimForRecipient` / `isClaimForRecipient`, and hap-go's
      `IsClaimForRecipient` on a human-effort claim. */
  predicate IsClaimForRecipient(p: Platform, c: Claim, domain: Bytes)
  {
    DomainMatches(p, c.to, domain)
  }

  /** The platforms agree on every non-empty domain; asked for "", Go
      matches every claim without a recipient domain and the others none. */
  lemma {:induction false} RecipientMatchAgrees(p: Platform, q: Platform, c: Claim, domain: Bytes)
    ensures domain != [] ==> (IsClaimForRecipient(p, c, domain) <==> IsClaimForRecipient(q, c, domain))
    ensures domain != [] ==> (IsClaimForRecipient(p, c, domain) <==> DomainText(c) == domain)
    ensures domain == [] ==> (IsClaimForRecipient(Go, c, domain) <==> DomainText(c) == [])
    ensures domain == [] && p != Go ==> (IsClaimForRecipient(p, c, domain) <==> c.to.Some? && c.to.value.domain == Some([]))
  {
  }

  /** `employer_commitment` */
  const EmployerCommitmentTag: Bytes :=
    Str("employer_commitment")

  /** hap-python's `is_claim_for_company`: a human-effort claim by its
      target, an employer commitment by its employer, any other type never. */
  predicate IsClaimForCompany(c: LegacyCompact.LegacyClaim, employer: Option<Target>, domain: Bytes)
  {
    if c.claimType == Claims.TypeTag(Claims.HumanEffort) then DomainMatches(Python, c.to, domain)
    else if c.claimType == EmployerCommitmentTag then DomainMatches(Python, employer, domain)
    else false
  }

  /** Only the two company-facing kinds can match; the other builders'
      claims never do, whatever their target. */
  lemma {:induction false} CompanyMatchNeedsKind(c: LegacyCompact.LegacyClaim, employer: Option<Target>, domain: Bytes)
    ensures IsClaimForCompany(c, employer, domain) ==>
              c.claimType == Claims.TypeTag(Claims.HumanEffort) || c.claimType == EmployerCommitmentTag
    ensures c.claimType == Claims.TypeTag(Claims.HumanEffort) ==>
              (IsClaimForCompany(c, employer, domain) <==> c.to.Some? && c.to.value.domain == Some(domain))
  {
  }

  /** A physical-delivery, financial or content claim built for a company is
      not recognised as being for it. */
  lemma {:induction false} OtherKindsNeverMatch(k: Claims.EffortKind, params: Claims.EffortParams, id: Bytes, now: int,
                             cal: Calendar, employer: Option<Target>)
    requires k != Claims.HumanEffort
    ensures !IsClaimForCompany(Claims.CreateEffortClaim(Python, k, params, id, now, cal), employer, params.domain)
  {
    Claims.TagsDiffer(k, Claims.HumanEffort);
    assert Claims.TypeTag(k)[0] != EmployerCommitmentTag[0];
  }

  /** hap-go's `IsRecipientClaimForRecipient`: the recipient's domain text. */
  predicate IsRecipientClaimForRecipient(c: LegacyCompact.LegacyClaim, domain: Bytes)
  {
    DomainMatches(Go, c.recipient, domain)
  }

  /** Hap.java's `isClaimForCompany` overloads: a target, or an employer,
      with an equal domain. */
  predicate IsClaimForCompanyJava(holder: Option<Target>, domain: Bytes)
  {
    DomainMatches(Java, holder, domain)
  }

  /** A recipient commitment built for a domain is recognised by it. */
  lemma {:induction false} BuiltCommitmentMatches(recipientName: Bytes, recipientDomain: Bytes, commitment: Bytes, issuer: Bytes,
                               days: int, id: Bytes, now: int, cal: Calendar)
    ensures IsRecipientClaimForRecipient(
              Claims.CreateRecipientCommitmentClaim(Go, recipientName, recipientDomain, commitment, issuer, days,
                                                    id, now, cal), recipientDomain)
  {
  }
}
