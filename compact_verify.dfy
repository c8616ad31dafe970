/** Signing and verifying the compact format: `sign_compact` and
    `verify_compact` and their Go and Java counterparts. The signed text is
    the payload, everything before the last dot; keys are tried in the order
    the key set lists them. */
module CompactVerify {
  import opened Wrappers
  import opened Octets
  import opened Sdk
  import opened Types
  import opened Grammar
  import opened Compact
  import Base64Url

  datatype Failure = InvalidCompact | SignatureUndecodable | SignatureFailed | ClaimUndecodable

  /** `CompactVerificationResult`: valid with a claim, or invalid with the
      reason. Generic in the claim so the ten-field format can share it. */
  datatype Outcome<C> = Verified(claim: C) | Rejected(failure: Failure)

  /** The raw public key a JWK carries: its `x` read by the platform's key
      decoder (Python's `_base64url_decode`, Go's `RawURLEncoding`, Nimbus's
      `Base64URL`), and 32 bytes long (`Ed25519PublicKey.from_public_bytes`
      and Java's X.509 key spec refuse any other length). */
  function ImportKey(p: Platform, jwk: Jwk): (k: Option<Bytes>)
    ensures k.Some? <==> Base64Url.DecodeKey(p, jwk.x).Some? && |Base64Url.DecodeKey(p, jwk.x).value| == 32
    ensures k.Some? ==> Base64Url.DecodeKey(p, jwk.x) == k
  {
    match Base64Url.DecodeKey(p, jwk.x)
    case None => None
    case Some(raw) => if |raw| == 32 then Some(raw) else None
  }

  /** The key imports and the signature verifies under it. */
  predicate KeyAccepts(p: Platform, e: Ed25519, jwk: Jwk, payload: Bytes, sig: Bytes)
  {
    ImportKey(p, jwk).Some? && e.verify(ImportKey(p, jwk).value, payload, sig)
  }

  predicate SomeKeyAccepts(p: Platform, e: Ed25519, keys: seq<Jwk>, payload: Bytes, sig: Bytes)
  {
    exists i | 0 <= i < |keys| :: KeyAccepts(p, e, keys[i], payload, sig)
  }

  /** The key loop. A key that does not import or verify is skipped. At the
      first key that verifies, the claim is decoded and returned; if that
      decode fails, Python and Java go on to the next key while Go reports
      the failure. `decoded` is the decode of the whole text, which does not
      depend on the key. */
  function TryKeys<C>(p: Platform, e: Ed25519, keys: seq<Jwk>, payload: Bytes, sig: Bytes,
                      decoded: Option<C>): (r: Outcome<C>)
    ensures r.Verified? <==> decoded.Some? && SomeKeyAccepts(p, e, keys, payload, sig)
    ensures r.Verified? ==> r.claim == decoded.value
    ensures r == Rejected(ClaimUndecodable) <==>
      p == Go && decoded.None? && SomeKeyAccepts(p, e, keys, payload, sig)
    ensures r.Rejected? && r.failure != ClaimUndecodable ==> r.failure == SignatureFailed
    decreases |keys|
  {
    if keys == [] then Rejected(SignatureFailed)
    else
      var rest := TryKeys(p, e, keys[1..], payload, sig, decoded);
      assert SomeKeyAccepts(p, e, keys, payload, sig) <==>
             KeyAccepts(p, e, keys[0], payload, sig) || SomeKeyAccepts(p, e, keys[1..], payload, sig) by {
        if SomeKeyAccepts(p, e, keys[1..], payload, sig) {
          var i :| 0 <= i < |keys[1..]| && KeyAccepts(p, e, keys[1..][i], payload, sig);
          assert KeyAccepts(p, e, keys[i + 1], payload, sig);
        }
        if SomeKeyAccepts(p, e, keys, payload, sig) && !KeyAccepts(p, e, keys[0], payload, sig) {
          var i :| 0 <= i < |keys| && KeyAccepts(p, e, keys[i], payload, sig);
          assert keys[1..][i - 1] == keys[i];
        }
      }
      if KeyAccepts(p, e, keys[0], payload, sig) then
        match decoded
        case Some(claim) => Verified(claim)
        case None => if p == Go then Rejected(ClaimUndecodable) else rest
      else rest
  }

  /** First key wins: once a key verifies, the keys after it are never
      consulted. */
  lemma {:induction false} KeysAfterFirstAcceptIgnored<C>(p: Platform, e: Ed25519, keys: seq<Jwk>,
                                                          i: nat, payload: Bytes, sig: Bytes,
                                                          decoded: Option<C>)
    requires i < |keys| && KeyAccepts(p, e, keys[i], payload, sig)
    requires p == Go || decoded.Some?
    ensures TryKeys(p, e, keys, payload, sig, decoded) == TryKeys(p, e, keys[..i + 1], payload, sig, decoded)
  {
    if !KeyAccepts(p, e, keys[0], payload, sig) {
      assert i > 0;
      assert keys[..i + 1][1..] == keys[1..][..i];
      KeysAfterFirstAcceptIgnored(p, e, keys[1..], i - 1, payload, sig, decoded);
    }
  }

  /** The claim the verifier returns: the decode of the whole text. */
  function DecodedClaimOf(p: Platform, cal: Calendar, s: Bytes): Option<Claim>
  {
    match DecodeCompact(p, cal, s)
    case Ok(d) => Some(d.claim)
    case Err(_) => None
  }

  lemma {:induction false} ValidCompactHasDot(p: Platform, s: Bytes)
    requires IsValidCompact(p, s)
    ensures Dot in s
  {
    var t := if IsCompact(s) then s else s[..|s| - 1];
    JoinHasSep(Split(t, Dot), Dot);
  }

  /** After the format check: the signature is the text after the last dot
      (a text without a dot has no signature to decode), and the payload
      before it goes to the key loop. Shared by both compact formats; the
      nine-field grammar always leaves a dot. */
  function VerifySigned<C>(p: Platform, e: Ed25519, s: Bytes, keys: seq<Jwk>, decoded: Option<C>): Outcome<C>
  {
    var k := LastIndexOf(s, Dot);
    if k < 0 then Rejected(SignatureUndecodable)
    else
      match Base64Url.DecodeText(p, s[k + 1..])
      case None => Rejected(SignatureUndecodable)
      case Some(sig) => TryKeys(p, e, keys, s[..k], sig, decoded)
  }

  /** `verify_compact` / `VerifyCompact` / `verifyCompact` as a function of
      its inputs. */
  function VerifyCompactSpec(p: Platform, e: Ed25519, cal: Calendar, s: Bytes, keys: seq<Jwk>): Outcome<Claim>
  {
    if !IsValidCompact(p, s) then Rejected(InvalidCompact)
    else VerifySigned(p, e, s, keys, DecodedClaimOf(p, cal, s))
  }

  /** The key loop of `verify_compact`, with its early returns. */
  method TryKeysLoop(p: Platform, e: Ed25519, cal: Calendar, s: Bytes, keys: seq<Jwk>,
                     payload: Bytes, sig: Bytes) returns (r: Outcome<Claim>)
    ensures r == TryKeys(p, e, keys, payload, sig, DecodedClaimOf(p, cal, s))
  {
    ghost var claim := DecodedClaimOf(p, cal, s);
    var i := 0;
    assert keys[i..] == keys;
    while i < |keys|
      invariant 0 <= i <= |keys|
      invariant TryKeys(p, e, keys, payload, sig, claim) == TryKeys(p, e, keys[i..], payload, sig, claim)
    {
      TryKeysAt(p, e, keys, i, payload, sig, claim);
      if KeyAccepts(p, e, keys[i], payload, sig) {
        var decoded := DecodeCompact(p, cal, s);
        assert decoded.Ok? == claim.Some? && (decoded.Ok? ==> claim.value == decoded.value.claim);
        if decoded.Ok? {
          return Verified(decoded.value.claim);
        }
        if p == Go {
          return Rejected(ClaimUndecodable);
        }
      }
      i := i + 1;
    }
    return Rejected(SignatureFailed);
  }

  /** `TryKeys` from the `i`-th key on: that key, then the ones after it. */
  lemma {:induction false} TryKeysAt<C>(p: Platform, e: Ed25519, keys: seq<Jwk>, i: nat,
                                        payload: Bytes, sig: Bytes, decoded: Option<C>)
    requires i < |keys|
    ensures TryKeys(p, e, keys[i..], payload, sig, decoded) ==
            if KeyAccepts(p, e, keys[i], payload, sig) && decoded.Some? then Verified(decoded.value)
            else if KeyAccepts(p, e, keys[i], payload, sig) && p == Go then Rejected(ClaimUndecodable)
            else TryKeys(p, e, keys[i + 1..], payload, sig, decoded)
  {
    assert keys[i..][0] == keys[i] && keys[i..][1..] == keys[i + 1..];
  }

  /** `verify_compact`: reject bad text, split off the signature at the last
      dot, then try the keys in order. */
  method VerifyCompact(p: Platform, e: Ed25519, cal: Calendar, s: Bytes, keys: seq<Jwk>)
    returns (r: Outcome<Claim>)
    ensures r == VerifyCompactSpec(p, e, cal, s, keys)
  {
    if !IsValidCompact(p, s) {
      return Rejected(InvalidCompact);
    }
    ValidCompactHasDot(p, s);
    r := VerifySignedText(p, e, cal, s, keys);
  }

  /** The part of `verify_compact` after the format check. */
  method VerifySignedText(p: Platform, e: Ed25519, cal: Calendar, s: Bytes, keys: seq<Jwk>)
    returns (r: Outcome<Claim>)
    requires Dot in s
    ensures r == VerifySigned(p, e, s, keys, DecodedClaimOf(p, cal, s))
  {
    var k := LastIndexOf(s, Dot);
    var sig := Base64Url.DecodeText(p, s[k + 1..]);
    VerifySignedSteps(p, e, s, keys, DecodedClaimOf(p, cal, s), k, sig);
    if sig.None? {
      return Rejected(SignatureUndecodable);
    }
    r := TryKeysLoop(p, e, cal, s, keys, s[..k], sig.value);
  }

  /** `VerifySigned` once the last dot is found and the signature read. */
  lemma {:induction false} VerifySignedSteps<C>(p: Platform, e: Ed25519, s: Bytes, keys: seq<Jwk>, decoded: Option<C>,
                             k: int, sig: Option<Bytes>)
    requires 0 <= k < |s| && k == LastIndexOf(s, Dot)
    requires sig == Base64Url.DecodeText(p, s[k + 1..])
    ensures sig.None? ==> VerifySigned(p, e, s, keys, decoded) == Rejected(SignatureUndecodable)
    ensures sig.Some? ==> VerifySigned(p, e, s, keys, decoded) == TryKeys(p, e, keys, s[..k], sig.value, decoded)
  {
  }

  /** `sign_compact` / `SignCompact` / `signCompact`: the payload, a dot and
      the base64url of the payload's signature. */
  function SignCompact(p: Platform, e: Ed25519, cal: Calendar, sk: Bytes, c: Claim): Result<Bytes, EncodeError>
  {
    match BuildCompactPayload(p, cal, c)
    case Err(x) => Err(x)
    case Ok(payload) => Ok(payload + [Dot] + Base64Url.Encode(e.sign(sk, payload)))
  }

  /** A signed compact text is the encoding of the claim with the payload's
      signature. */
  lemma {:induction false} SignIsEncode(p: Platform, e: Ed25519, cal: Calendar, sk: Bytes, c: Claim)
    requires BuildCompactPayload(p, cal, c).Ok?
    ensures var payload := BuildCompactPayload(p, cal, c).value;
            SignCompact(p, e, cal, sk, c) == EncodeCompact(p, cal, c, e.sign(sk, payload))
  {
    EncodeIsPayloadAndSignature(p, cal, c, e.sign(sk, BuildCompactPayload(p, cal, c).value));
  }

  /** In a signed text the last dot separates the payload from the
      signature. */
  lemma {:induction false} SignedTextSplits(p: Platform, e: Ed25519, cal: Calendar, sk: Bytes, c: Claim)
    requires Correct(e) && EncodableClaim(p, cal, c)
    ensures SignCompact(p, e, cal, sk, c).Ok?
    ensures var s := SignCompact(p, e, cal, sk, c).value;
            var payload := BuildCompactPayload(p, cal, c).value;
            var k := LastIndexOf(s, Dot);
            0 <= k && s[..k] == payload && s[k + 1..] == Base64Url.Encode(e.sign(sk, payload))
  {
    var payload := BuildCompactPayload(p, cal, c).value;
    var text := Base64Url.Encode(e.sign(sk, payload));
    Base64Url.SymbolsHaveNoDot(text);
    LastIndexOfSnoc(payload, text, Dot);
  }

  /** A valid text whose payload a listed key verifies, and which decodes,
      is accepted with its decoded claim. */
  lemma {:induction false} AcceptedWhenKeyVerifies(p: Platform, e: Ed25519, cal: Calendar, s: Bytes, keys: seq<Jwk>,
                                i: nat, sig: Bytes)
    requires IsValidCompact(p, s) && DecodedClaimOf(p, cal, s).Some?
    requires 0 <= LastIndexOf(s, Dot)
    requires Base64Url.DecodeText(p, s[LastIndexOf(s, Dot) + 1..]) == Some(sig)
    requires i < |keys| && KeyAccepts(p, e, keys[i], s[..LastIndexOf(s, Dot)], sig)
    ensures VerifyCompactSpec(p, e, cal, s, keys) == Verified(DecodedClaimOf(p, cal, s).value)
  {
  }

  /** Sign, then verify with a key set that lists the signer's key: the
      verifier accepts and returns the rebuilt claim. */
  lemma {:induction false} SignThenVerify(p: Platform, e: Ed25519, cal: Calendar, sk: Bytes, c: Claim,
                       keys: seq<Jwk>, i: nat)
    requires Correct(e) && Coherent(p, cal) && EncodableClaim(p, cal, c)
    requires i < |keys| && keys[i].x == Base64Url.Encode(e.publicKey(sk))
    ensures SignCompact(p, e, cal, sk, c).Ok?
    ensures VerifyCompactSpec(p, e, cal, SignCompact(p, e, cal, sk, c).value, keys)
         == Verified(DecodedClaim(p, cal, c))
  {
    var payload := BuildCompactPayload(p, cal, c).value;
    var sig := e.sign(sk, payload);
    assert |sig| == 64;
    SignIsEncode(p, e, cal, sk, c);
    SignedTextSplits(p, e, cal, sk, c);
    var s := SignCompact(p, e, cal, sk, c).value;
    assert s == EncodeCompact(p, cal, c, sig).value;
    DecodeEncode(p, cal, c, sig);
    EncodedIsValid(p, cal, c, sig);
    assert DecodedClaimOf(p, cal, s) == Some(DecodedClaim(p, cal, c));
    SignatureReads(p, sig);
    KeyReads(p, keys[i], e.publicKey(sk));
    assert KeyAccepts(p, e, keys[i], payload, sig);
    AcceptedWhenKeyVerifies(p, e, cal, s, keys, i, sig);
  }

  /** Every platform imports a published 32-byte key. */
  lemma {:induction false} KeyReads(p: Platform, jwk: Jwk, k: Bytes)
    requires |k| == 32 && jwk.x == Base64Url.Encode(k)
    ensures ImportKey(p, jwk) == Some(k)
  {
    Base64Url.KeyLength(k);
    Base64Url.DecodersAgree(p, Base64Url.Encode(k));
    Base64Url.DecodeEncode(k);
  }

  // ---------------------------------------------------------------------
  // Go's key loop as written

  /** Go hands the decoded `x` to `ed25519.Verify` without checking its
      length, and `ed25519.Verify` panics on a key that is not 32 bytes. */
  datatype GoStep = Panic | Returned(accepts: bool)

  function GoKeyStepAsWritten(e: Ed25519, jwk: Jwk, payload: Bytes, sig: Bytes): GoStep
  {
    match Base64Url.GoDecode(jwk.x)
    case None => Returned(false)
    case Some(raw) => if |raw| != 32 then Panic else Returned(e.verify(raw, payload, sig))
  }

  /** Go's `VerifyCompact` key loop as written; None is a panic. */
  function TryKeysGoAsWritten<C>(e: Ed25519, keys: seq<Jwk>, payload: Bytes, sig: Bytes,
                                 decoded: Option<C>): Option<Outcome<C>>
    decreases |keys|
  {
    if keys == [] then Some(Rejected(SignatureFailed))
    else
      match GoKeyStepAsWritten(e, keys[0], payload, sig)
      case Panic => None
      case Returned(ok) =>
        if ok then
          match decoded
          case Some(claim) => Some(Verified(claim))
          case None => Some(Rejected(ClaimUndecodable))
        else TryKeysGoAsWritten(e, keys[1..], payload, sig, decoded)
  }

  /** A key whose `x` decodes to other than 32 bytes, listed before any key
      that verifies, makes Go panic; the key loop the other platforms run
      skips it and goes on. */
  lemma {:induction false} GoPanicsOnShortKey<C>(e: Ed25519, bad: Jwk, keys: seq<Jwk>, payload: Bytes, sig: Bytes,
                              decoded: Option<C>)
    requires Base64Url.GoDecode(bad.x).Some? && |Base64Url.GoDecode(bad.x).value| != 32
    ensures TryKeysGoAsWritten(e, [bad] + keys, payload, sig, decoded) == None
    ensures TryKeys(Go, e, [bad] + keys, payload, sig, decoded) == TryKeys(Go, e, keys, payload, sig, decoded)
  {
    assert ([bad] + keys)[1..] == keys;
  }

  /** The key of the example: 31 zero bytes, written as 42 symbols. */
  lemma {:induction false} ShortKeyExample()
    ensures var x := Base64Url.Encode(seq(31, _ => 0 as byte));
            |x| == 42 && Base64Url.GoDecode(x) == Some(seq(31, _ => 0 as byte))
  {
    Base64Url.DecodersAgree(Go, Base64Url.Encode(seq(31, _ => 0 as byte)));
    Base64Url.DecodeEncode(seq(31, _ => 0 as byte));
  }

  /** Where Go as written does not panic, it agrees with the corrected loop. */
  lemma {:induction false} GoAgreesWithoutShortKeys<C>(e: Ed25519, keys: seq<Jwk>, payload: Bytes,
                                                       sig: Bytes, decoded: Option<C>)
    requires TryKeysGoAsWritten(e, keys, payload, sig, decoded).Some?
    ensures TryKeysGoAsWritten(e, keys, payload, sig, decoded).value == TryKeys(Go, e, keys, payload, sig, decoded)
    decreases |keys|
  {
    if keys != [] && !GoKeyStepAsWritten(e, keys[0], payload, sig).accepts {
      GoAgreesWithoutShortKeys(e, keys[1..], payload, sig, decoded);
    }
  }
}
