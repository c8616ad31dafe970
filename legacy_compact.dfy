/** The ten-field compact format of the older `hap-*` SDKs (hap-go/compact.go,
    HapCompact.java): `HAP{v}.id.type.method.name.domain.at.exp.iss.signature`.
    The claim's type is the third field; a `recipient_commitment` claim puts
    its recipient and commitment where the other kinds put `to` and
    `method`. The constants those files use but do not define (the compact
    version, the compact regex and, in Go, the commitment type name) are
    parameters. */
module LegacyCompact {
  import opened Wrappers
  import opened Octets
  import opened Sdk
  import opened Types
  import Grammar
  import Percent
  import Base64Url
  import Compact
  import CompactVerify
  import Urls

  /** The two legacy SDKs that ship the format. */
  datatype Legacy = HapGo | HapJava

  /** The current SDK whose escaper and number parser the legacy one shares. */
  function Host(l: Legacy): Platform
  {
    if l == HapGo then Go else Java
  }

  /** `HAPCompactVersion` / `Hap.COMPACT_VERSION`, `HAPCompactRegex` /
      `Hap.HAP_COMPACT_PATTERN`, and the type name that selects the
      recipient branch (`ClaimTypeRecipientCommitment`; Java writes the
      literal `recipient_commitment`). */
  datatype Format = Format(version: Bytes, isCompact: Bytes -> bool, commitmentType: Bytes)

  function Tag(f: Format): Bytes
  {
    Str("HAP") + f.version
  }

  /** `GenericClaim`: a claim of any kind. The `to`/`method` pair is used
      by every kind but the recipient commitment, which uses
      `recipient`/`commitment`. */
  datatype LegacyClaim = LegacyClaim(
    v: Option<Bytes>,
    id: Bytes,
    claimType: Bytes,
    methodName: Bytes,
    to: Option<Target>,
    commitment: Bytes,
    recipient: Option<Target>,
    tier: Option<Bytes>,
    at: Bytes,
    exp: Option<Bytes>,
    iss: Bytes)

  predicate IsCommitment(f: Format, c: LegacyClaim)
  {
    c.claimType == f.commitmentType
  }

  function TargetName(t: Option<Target>): Bytes
  {
    if t.Some? then t.value.name else []
  }

  function TargetDomain(t: Option<Target>): Bytes
  {
    if t.Some? && t.value.domain.Some? then t.value.domain.value else []
  }

  /** `getRecipient`: the holder the claim's type selects; a missing holder
      gives empty texts (Java's null checks, Go's zero struct). */
  function Holder(f: Format, c: LegacyClaim): Option<Target>
  {
    if IsCommitment(f, c) then c.recipient else c.to
  }

  /** `getMethod`: the commitment for a recipient commitment, the method
      otherwise. */
  function MethodField(f: Format, c: LegacyClaim): Bytes
  {
    if IsCommitment(f, c) then c.commitment else c.methodName
  }

  function ExpSeconds(cal: Calendar, c: LegacyClaim): Option<int>
  {
    if c.exp.None? || c.exp.value == [] then Some(0) else cal.toUnix(c.exp.value)
  }

  /** The nine fields before the signature. */
  function PayloadFields(l: Legacy, f: Format, cal: Calendar, c: LegacyClaim)
    : Result<seq<Bytes>, Compact.EncodeError>
  {
    match cal.toUnix(c.at)
    case None => Err(Compact.UnparsableAt)
    case Some(at) =>
      match ExpSeconds(cal, c)
      case None => Err(Compact.UnparsableExp)
      case Some(exp) =>
        var h := Holder(f, c);
        Ok([Tag(f), c.id, c.claimType, MethodField(f, c),
            Percent.EncodeField(Host(l), TargetName(h)), Percent.EncodeField(Host(l), TargetDomain(h)),
            FormatInt(at), FormatInt(exp), Percent.EncodeField(Host(l), c.iss)])
  }

  /** `BuildCompactPayload` / `buildCompactPayload`. */
  function BuildCompactPayload(l: Legacy, f: Format, cal: Calendar, c: LegacyClaim)
    : Result<Bytes, Compact.EncodeError>
  {
    match PayloadFields(l, f, cal, c)
    case Err(e) => Err(e)
    case Ok(fields) => Ok(Join(fields, Dot))
  }

  /** `EncodeCompact` / `encodeCompact`. */
  function EncodeCompact(l: Legacy, f: Format, cal: Calendar, c: LegacyClaim, sig: Bytes)
    : Result<Bytes, Compact.EncodeError>
  {
    match PayloadFields(l, f, cal, c)
    case Err(e) => Err(e)
    case Ok(fields) => Ok(Join(fields + [Base64Url.Encode(sig)], Dot))
  }

  /** The encoding is the signed payload, a dot and the signature, and it
      fails exactly where the payload does. */
  lemma {:induction false} EncodeIsPayloadAndSignature(l: Legacy, f: Format, cal: Calendar, c: LegacyClaim, sig: Bytes)
    ensures EncodeCompact(l, f, cal, c, sig).Ok? <==> BuildCompactPayload(l, f, cal, c).Ok?
    ensures EncodeCompact(l, f, cal, c, sig).Ok? ==>
      EncodeCompact(l, f, cal, c, sig).value
        == BuildCompactPayload(l, f, cal, c).value + [Dot] + Base64Url.Encode(sig)
  {
    if PayloadFields(l, f, cal, c).Ok? {
      JoinSnoc(PayloadFields(l, f, cal, c).value, Base64Url.Encode(sig), Dot);
    }
  }

  // ---------------------------------------------------------------------
  // Decoding

  datatype Decoded = Decoded(claim: LegacyClaim, signature: Bytes)

  function Parts(l: Legacy, s: Bytes): seq<Bytes>
  {
    if l == HapJava then JavaSplit(s, Dot) else Split(s, Dot)
  }

  /** The claim the type field selects: a recipient commitment gets its
      recipient and commitment, any other type its target and method; an
      empty domain is left unset. */
  function Rebuild(f: Format, id: Bytes, claimType: Bytes, how: Bytes, name: Bytes, domain: Bytes,
                   at: Bytes, exp: Option<Bytes>, iss: Bytes): (c: LegacyClaim)
    ensures c.claimType == claimType && c.id == id && c.iss == iss && c.at == at && c.exp == exp
    ensures IsCommitment(f, c) ==> c.commitment == how && c.recipient.Some? && c.to.None?
    ensures !IsCommitment(f, c) ==> c.methodName == how && c.to.Some? && c.recipient.None?
    ensures TargetName(Holder(f, c)) == name && TargetDomain(Holder(f, c)) == domain
  {
    var target := Target(name, if domain != [] then Some(domain) else None);
    if claimType == f.commitmentType then
      LegacyClaim(Some(Grammar.Version), id, claimType, [], None, how, Some(target), None, at, exp, iss)
    else
      LegacyClaim(Some(Grammar.Version), id, claimType, how, Some(target), [], None, None, at, exp, iss)
  }

  const MinInt64: int := -0x8000_0000_0000_0000

  /** `strconv.ParseInt(t, 10, 64)` / `Long.parseLong(t)`: an optional `+`
      or `-`, then at least one decimal digit, the value within 64 bits.
      Nothing but the format's regex limits these fields, so the sign is
      read here. */
  function ParseInt64(t: Bytes): (r: Option<int>)
    ensures r.Some? ==> MinInt64 <= r.value <= Compact.MaxInt64
    ensures r.Some? ==> |t| > 0 && (IsDigit(t[0]) || (|t| > 1 && (t[0] == Plus || t[0] == Dash)))
  {
    if |t| > 0 && (t[0] == Plus || t[0] == Dash) then
      var d := t[1..];
      if |d| == 0 || !AllDigits(d) then None
      else
        var v: int := DigitsValue(d);
        var n := if t[0] == Dash then -v else v;
        if n < MinInt64 || n > Compact.MaxInt64 then None else Some(n)
    else if |t| == 0 || !AllDigits(t) then None
    else if DigitsValue(t) > Compact.MaxInt64 then None
    else Some(DigitsValue(t))
  }

  /** On unsigned digits the reader agrees with the nine-field codec's. */
  lemma {:induction false} ParseInt64Digits(p: Platform, t: Bytes)
    requires p != Python && AllDigits(t)
    ensures ParseInt64(t) == Compact.ParseDecimal(p, t)
  {
    if |t| > 0 {
      assert IsDigit(t[0]);
    }
  }

  /** A leading `+` changes nothing; a leading `-` negates, down to the
      64-bit minimum. */
  lemma {:induction false} ParseInt64Signs(t: Bytes)
    requires |t| > 0 && AllDigits(t)
    ensures ParseInt64([Plus] + t) == ParseInt64(t)
    ensures ParseInt64([Dash] + t) == if DigitsValue(t) <= -MinInt64 then Some(-(DigitsValue(t) as int)) else None
  {
    assert ([Plus] + t)[1..] == t && ([Dash] + t)[1..] == t;
    assert IsDigit(t[0]);
  }

  /** Every 64-bit value, negative ones included, is read back from its
      decimal text. */
  lemma {:induction false} ParseInt64Formatted(n: int)
    requires MinInt64 <= n <= Compact.MaxInt64
    ensures ParseInt64(FormatInt(n)) == Some(n)
  {
    if n < 0 {
      DigitsValueOfDigits(-n);
      var d := Digits(-n);
      assert IsDigit(d[0]);
      ParseInt64Signs(d);
    } else {
      DigitsValueOfDigits(n);
      assert IsDigit(Digits(n)[0]);
    }
  }

  /** `DecodeCompact` / `decodeCompact`: the regex, ten parts, the version,
      then name, domain, issuer, `at`, `exp` and signature, each of which
      may fail in that order, and (hap-java) the formatting of `at` and of a
      non-zero `exp`; an `exp` of 0 seconds is no expiry. */
  function DecodeCompact(l: Legacy, f: Format, cal: Calendar, s: Bytes): Result<Decoded, Compact.DecodeError>
  {
    if !f.isCompact(s) then Err(Compact.InvalidFormat)
    else
      var parts := Parts(l, s);
      if |parts| != 10 then Err(Compact.FieldCount)
      else if parts[0] != Tag(f) then Err(Compact.UnsupportedVersion)
      else DecodeFields(l, f, cal, parts)
  }

  function DecodeFields(l: Legacy, f: Format, cal: Calendar, parts: seq<Bytes>)
    : Result<Decoded, Compact.DecodeError>
    requires |parts| == 10
  {
    var p := Host(l);
    match Percent.DecodeField(p, parts[4])
    case None => Err(Compact.BadName)
    case Some(name) =>
      match Percent.DecodeField(p, parts[5])
      case None => Err(Compact.BadDomain)
      case Some(domain) =>
        match Percent.DecodeField(p, parts[8])
        case None => Err(Compact.BadIssuer)
        case Some(iss) =>
          match ParseInt64(parts[6])
          case None => Err(Compact.BadAt)
          case Some(at) =>
            match ParseInt64(parts[7])
            case None => Err(Compact.BadExp)
            case Some(expUnix) =>
              match Base64Url.DecodeText(p, parts[9])
              case None => Err(Compact.BadSignature)
              case Some(sig) =>
                if !Compact.Formats(p, at) then Err(Compact.BadAt)
                else if expUnix != 0 && !Compact.Formats(p, expUnix) then Err(Compact.BadExp)
                else
                var exp := if expUnix != 0 && cal.fromUnix(expUnix) != [] then Some(cal.fromUnix(expUnix))
                           else None;
                Ok(Decoded(Rebuild(f, parts[1], parts[2], parts[3], name, domain,
                                   cal.fromUnix(at), exp, iss), sig))
  }

  /** A text decodes only when the regex accepts it, it has ten parts and
      the first is the version tag; each of those failures is reported as
      such, in that order. */
  lemma {:induction false} DecodeErrors(l: Legacy, f: Format, cal: Calendar, s: Bytes)
    ensures !f.isCompact(s) ==> DecodeCompact(l, f, cal, s) == Err(Compact.InvalidFormat)
    ensures f.isCompact(s) && |Parts(l, s)| != 10 ==> DecodeCompact(l, f, cal, s) == Err(Compact.FieldCount)
    ensures f.isCompact(s) && |Parts(l, s)| == 10 && Parts(l, s)[0] != Tag(f) ==>
              DecodeCompact(l, f, cal, s) == Err(Compact.UnsupportedVersion)
    ensures DecodeCompact(l, f, cal, s).Ok? ==>
              f.isCompact(s) && |Parts(l, s)| == 10 && Parts(l, s)[0] == Tag(f)
  {
  }

  /** A decoded claim carries the ID, type and method fields as written; its
      type alone decides whether the recipient or the target is filled; and
      its `exp` is unset exactly when the field reads as 0 seconds. */
  lemma {:induction false} DecodedShape(l: Legacy, f: Format, cal: Calendar, s: Bytes)
    requires Coherent(Host(l), cal) && DecodeCompact(l, f, cal, s).Ok?
    ensures var parts := Parts(l, s);
            var c := DecodeCompact(l, f, cal, s).value.claim;
            |parts| == 10 && c.id == parts[1] && c.claimType == parts[2] &&
            (IsCommitment(f, c) <==> parts[2] == f.commitmentType) &&
            MethodField(f, c) == parts[3] &&
            ParseInt64(parts[7]).Some? &&
            (c.exp.None? <==> ParseInt64(parts[7]).value == 0)
  {
    var parts := Parts(l, s);
    var expUnix := ParseInt64(parts[7]).value;
    assert |cal.fromUnix(expUnix)| > 0;
  }

  // ---------------------------------------------------------------------
  // Round trip

  /** What the encoder needs for its output to split and decode: the ID,
      type and method fields free of dots, a non-empty signature, and
      timestamps at or after 1970 that the platform can hold and format. */
  predicate EncodableClaim(l: Legacy, f: Format, cal: Calendar, c: LegacyClaim)
  {
    Dot !in f.version && Dot !in c.id && Dot !in c.claimType && Dot !in MethodField(f, c) &&
    cal.toUnix(c.at).Some? && Compact.Writable(Host(l), cal.toUnix(c.at).value) &&
    ExpSeconds(cal, c).Some? && Compact.Writable(Host(l), ExpSeconds(cal, c).value)
  }

  predicate Encodable(l: Legacy, f: Format, cal: Calendar, c: LegacyClaim, sig: Bytes)
  {
    EncodableClaim(l, f, cal, c) && |sig| > 0
  }

  /** The claim a decoder rebuilds: version set, the holder the type selects
      with an empty domain unset, timestamps re-formatted, an `exp` of 0
      dropped, no tier. */
  function DecodedClaim(f: Format, cal: Calendar, c: LegacyClaim): LegacyClaim
    requires cal.toUnix(c.at).Some? && ExpSeconds(cal, c).Some?
  {
    var exp := ExpSeconds(cal, c).value;
    var h := Holder(f, c);
    Rebuild(f, c.id, c.claimType, MethodField(f, c), TargetName(h), TargetDomain(h),
            cal.fromUnix(cal.toUnix(c.at).value), if exp != 0 then Some(cal.fromUnix(exp)) else None,
            c.iss)
  }

  lemma {:induction false} TagHasNoDot(f: Format)
    requires Dot !in f.version
    ensures Dot !in Tag(f)
  {
    assert Tag(f) == [0x48, 0x41, 0x50] + f.version;
  }

  /** The ten fields are free of dots, so the encoding splits back into them. */
  lemma {:induction false} EncodedSplits(l: Legacy, f: Format, cal: Calendar, c: LegacyClaim, sig: Bytes)
    requires Encodable(l, f, cal, c, sig)
    ensures EncodeCompact(l, f, cal, c, sig).Ok?
    ensures var all := PayloadFields(l, f, cal, c).value + [Base64Url.Encode(sig)];
            |all| == 10 && Split(EncodeCompact(l, f, cal, c, sig).value, Dot) == all
  {
    EncodedFieldsDotFree(l, f, cal, c, sig);
    SplitOfJoin(PayloadFields(l, f, cal, c).value + [Base64Url.Encode(sig)], Dot);
  }

  lemma {:induction false} EncodedFieldsDotFree(l: Legacy, f: Format, cal: Calendar, c: LegacyClaim, sig: Bytes)
    requires Encodable(l, f, cal, c, sig)
    ensures var all := PayloadFields(l, f, cal, c).value + [Base64Url.Encode(sig)];
            |all| == 10 && forall i | 0 <= i < 10 :: Dot !in all[i]
  {
    var h := Holder(f, c);
    var at, exp := cal.toUnix(c.at).value, ExpSeconds(cal, c).value;
    var all := PayloadFields(l, f, cal, c).value + [Base64Url.Encode(sig)];
    assert all == [Tag(f), c.id, c.claimType, MethodField(f, c),
                   Percent.EncodeField(Host(l), TargetName(h)), Percent.EncodeField(Host(l), TargetDomain(h)),
                   FormatInt(at), FormatInt(exp), Percent.EncodeField(Host(l), c.iss), Base64Url.Encode(sig)];
    TagHasNoDot(f);
    Percent.EncodedFieldHasNoDot(Host(l), TargetName(h));
    Percent.EncodedFieldHasNoDot(Host(l), TargetDomain(h));
    Percent.EncodedFieldHasNoDot(Host(l), c.iss);
    Base64Url.SymbolsHaveNoDot(Base64Url.Encode(sig));
    assert Dot !in FormatInt(at) && Dot !in FormatInt(exp);
  }

  /** The encoding splits back into its ten fields on both platforms: the
      last field, the signature, is not empty, so Java drops nothing. */
  lemma {:induction false} EncodedParts(l: Legacy, f: Format, cal: Calendar, c: LegacyClaim, sig: Bytes)
    requires Encodable(l, f, cal, c, sig)
    ensures EncodeCompact(l, f, cal, c, sig).Ok?
    ensures var all := PayloadFields(l, f, cal, c).value + [Base64Url.Encode(sig)];
            |all| == 10 && Parts(l, EncodeCompact(l, f, cal, c, sig).value) == all
  {
    EncodedSplits(l, f, cal, c, sig);
    var s := EncodeCompact(l, f, cal, c, sig).value;
    assert |Base64Url.Encode(sig)| > 0;
    if l == HapJava {
      JavaSplitAgrees(s, Dot);
    }
  }

  /** The field readers undo the encoding. */
  lemma {:induction false} ReadsEncoding(l: Legacy, f: Format, cal: Calendar, c: LegacyClaim, sig: Bytes)
    requires Coherent(Host(l), cal) && Encodable(l, f, cal, c, sig)
    ensures var all := PayloadFields(l, f, cal, c).value + [Base64Url.Encode(sig)];
            DecodeFields(l, f, cal, all) == Ok(Decoded(DecodedClaim(f, cal, c), sig))
  {
    var h := Holder(f, c);
    var at := cal.toUnix(c.at).value;
    var exp := ExpSeconds(cal, c).value;
    var all := PayloadFields(l, f, cal, c).value + [Base64Url.Encode(sig)];
    EncodedFieldsRead(l, f, cal, c, sig);
    DecodeReadableFields(l, f, cal, all, TargetName(h), TargetDomain(h), c.iss, at, exp, sig);
    assert |cal.fromUnix(exp)| > 0;
  }

  /** Where the encoder puts each field. */
  lemma {:induction false} EncodedFieldsAt(l: Legacy, f: Format, cal: Calendar, c: LegacyClaim, sig: Bytes)
    requires Encodable(l, f, cal, c, sig)
    ensures var all := PayloadFields(l, f, cal, c).value + [Base64Url.Encode(sig)];
            var p, h := Host(l), Holder(f, c);
            |all| == 10 && all[1] == c.id && all[2] == c.claimType && all[3] == MethodField(f, c) &&
            all[4] == Percent.EncodeField(p, TargetName(h)) && all[5] == Percent.EncodeField(p, TargetDomain(h)) &&
            all[6] == FormatInt(cal.toUnix(c.at).value) && all[7] == FormatInt(ExpSeconds(cal, c).value) &&
            all[8] == Percent.EncodeField(p, c.iss) && all[9] == Base64Url.Encode(sig)
  {
  }

  /** Each field reader gets back what the encoder wrote. */
  lemma {:induction false} EncodedFieldsRead(l: Legacy, f: Format, cal: Calendar, c: LegacyClaim, sig: Bytes)
    requires Encodable(l, f, cal, c, sig)
    ensures var all := PayloadFields(l, f, cal, c).value + [Base64Url.Encode(sig)];
            var p, h := Host(l), Holder(f, c);
            |all| == 10 && all[1] == c.id && all[2] == c.claimType && all[3] == MethodField(f, c) &&
            Percent.DecodeField(p, all[4]) == Some(TargetName(h)) &&
            Percent.DecodeField(p, all[5]) == Some(TargetDomain(h)) &&
            Percent.DecodeField(p, all[8]) == Some(c.iss) &&
            ParseInt64(all[6]) == Some(cal.toUnix(c.at).value) &&
            ParseInt64(all[7]) == Some(ExpSeconds(cal, c).value) &&
            Compact.Formats(p, cal.toUnix(c.at).value) && Compact.Formats(p, ExpSeconds(cal, c).value) &&
            Base64Url.DecodeText(p, all[9]) == Some(sig)
  {
    var p := Host(l);
    var h := Holder(f, c);
    var at, exp := cal.toUnix(c.at).value, ExpSeconds(cal, c).value;
    EncodedFieldsAt(l, f, cal, c, sig);
    Compact.TextFieldsRead(p, TargetName(h), TargetDomain(h), c.iss);
    Compact.NumbersRead(p, at, exp);
    ParseInt64Formatted(at);
    ParseInt64Formatted(exp);
    Compact.SignatureReads(p, sig);
  }

  /** `DecodeFields` on ten parts each of whose readers succeeds. */
  lemma {:induction false} DecodeReadableFields(l: Legacy, f: Format, cal: Calendar, parts: seq<Bytes>,
                             name: Bytes, domain: Bytes, iss: Bytes, at: int, exp: int, sig: Bytes)
    requires |parts| == 10
    requires Percent.DecodeField(Host(l), parts[4]) == Some(name)
    requires Percent.DecodeField(Host(l), parts[5]) == Some(domain)
    requires Percent.DecodeField(Host(l), parts[8]) == Some(iss)
    requires ParseInt64(parts[6]) == Some(at)
    requires ParseInt64(parts[7]) == Some(exp)
    requires Compact.Formats(Host(l), at) && Compact.Formats(Host(l), exp)
    requires Base64Url.DecodeText(Host(l), parts[9]) == Some(sig)
    ensures DecodeFields(l, f, cal, parts)
         == Ok(Decoded(Rebuild(f, parts[1], parts[2], parts[3], name, domain, cal.fromUnix(at),
                               if exp != 0 && cal.fromUnix(exp) != [] then Some(cal.fromUnix(exp)) else None,
                               iss), sig))
  {
  }

  /** Decoding undoes encoding whenever the format's regex accepts the
      encoded text: the rebuilt claim keeps the type, and the type decides
      which holder is filled. */
  lemma {:induction false} DecodeEncode(l: Legacy, f: Format, cal: Calendar, c: LegacyClaim, sig: Bytes)
    requires Coherent(Host(l), cal) && Encodable(l, f, cal, c, sig)
    requires f.isCompact(EncodeCompact(l, f, cal, c, sig).value)
    ensures DecodeCompact(l, f, cal, EncodeCompact(l, f, cal, c, sig).value)
         == Ok(Decoded(DecodedClaim(f, cal, c), sig))
  {
    EncodedParts(l, f, cal, c, sig);
    ReadsEncoding(l, f, cal, c, sig);
  }

  /** The decoded claim fills the holder its type selects with the encoded
      name and domain, and carries the encoded method there. */
  lemma {:induction false} DecodedHolder(f: Format, cal: Calendar, c: LegacyClaim)
    requires cal.toUnix(c.at).Some? && ExpSeconds(cal, c).Some?
    ensures var d := DecodedClaim(f, cal, c);
            d.claimType == c.claimType && IsCommitment(f, d) == IsCommitment(f, c) &&
            TargetName(Holder(f, d)) == TargetName(Holder(f, c)) &&
            TargetDomain(Holder(f, d)) == TargetDomain(Holder(f, c)) &&
            MethodField(f, d) == MethodField(f, c)
  {
  }

  /** Encoding the rebuilt claim gives the same text again. */
  lemma {:induction false} ReencodeIsStable(l: Legacy, f: Format, cal: Calendar, c: LegacyClaim, sig: Bytes)
    requires Coherent(Host(l), cal)
    requires cal.toUnix(c.at).Some? && InCalendar(Host(l), cal.toUnix(c.at).value)
    requires ExpSeconds(cal, c).Some? && InCalendar(Host(l), ExpSeconds(cal, c).value)
    ensures EncodeCompact(l, f, cal, DecodedClaim(f, cal, c), sig) == EncodeCompact(l, f, cal, c, sig)
  {
    var d := DecodedClaim(f, cal, c);
    var exp := ExpSeconds(cal, c).value;
    DecodedHolder(f, cal, c);
    var at := cal.toUnix(c.at).value;
    assert d.at == cal.fromUnix(at);
    assert cal.toUnix(cal.fromUnix(at)) == Some(at);
    if exp != 0 {
      assert cal.toUnix(cal.fromUnix(exp)) == Some(exp);
      assert |cal.fromUnix(exp)| > 0;
    }
    assert ExpSeconds(cal, d) == ExpSeconds(cal, c);
  }

  // ---------------------------------------------------------------------
  // Verification

  function DecodedClaimOf(l: Legacy, f: Format, cal: Calendar, s: Bytes): Option<LegacyClaim>
  {
    match DecodeCompact(l, f, cal, s)
    case Ok(d) => Some(d.claim)
    case Err(_) => None
  }

  /** `VerifyCompact` / `verifyCompact`: the regex, the signature after the
      last dot (a text without one has no signature to decode), then the
      keys in order as in the nine-field format. */
  function VerifyCompactSpec(l: Legacy, f: Format, e: Ed25519, cal: Calendar, s: Bytes, keys: seq<Jwk>)
    : CompactVerify.Outcome<LegacyClaim>
  {
    if !f.isCompact(s) then CompactVerify.Rejected(CompactVerify.InvalidCompact)
    else CompactVerify.VerifySigned(Host(l), e, s, keys, DecodedClaimOf(l, f, cal, s))
  }

  /** The key loop, with its early returns. */
  method TryKeysLoop(l: Legacy, f: Format, e: Ed25519, cal: Calendar, s: Bytes, keys: seq<Jwk>,
                     payload: Bytes, sig: Bytes) returns (r: CompactVerify.Outcome<LegacyClaim>)
    ensures r == CompactVerify.TryKeys(Host(l), e, keys, payload, sig, DecodedClaimOf(l, f, cal, s))
  {
    ghost var claim := DecodedClaimOf(l, f, cal, s);
    var i := 0;
    assert keys[i..] == keys;
    while i < |keys|
      invariant 0 <= i <= |keys|
      invariant CompactVerify.TryKeys(Host(l), e, keys, payload, sig, claim)
             == CompactVerify.TryKeys(Host(l), e, keys[i..], payload, sig, claim)
    {
      CompactVerify.TryKeysAt(Host(l), e, keys, i, payload, sig, claim);
      if CompactVerify.KeyAccepts(Host(l), e, keys[i], payload, sig) {
        var decoded := DecodeCompact(l, f, cal, s);
        assert decoded.Ok? == claim.Some? && (decoded.Ok? ==> claim.value == decoded.value.claim);
        if decoded.Ok? {
          return CompactVerify.Verified(decoded.value.claim);
        }
        if l == HapGo {
          return CompactVerify.Rejected(CompactVerify.ClaimUndecodable);
        }
      }
      i := i + 1;
    }
    return CompactVerify.Rejected(CompactVerify.SignatureFailed);
  }

  method VerifyCompact(l: Legacy, f: Format, e: Ed25519, cal: Calendar, s: Bytes, keys: seq<Jwk>)
    returns (r: CompactVerify.Outcome<LegacyClaim>)
    ensures r == VerifyCompactSpec(l, f, e, cal, s, keys)
  {
    if !f.isCompact(s) {
      return CompactVerify.Rejected(CompactVerify.InvalidCompact);
    }
    r := VerifySignedText(l, f, e, cal, s, keys);
  }

  /** The part of `VerifyCompact` after the regex. A text without a dot is
      answered here as an undecodable signature; hap-go would slice at -1
      and panic, so the model agrees with it only under a regex that, like
      every compact pattern, requires a dot. */
  method VerifySignedText(l: Legacy, f: Format, e: Ed25519, cal: Calendar, s: Bytes, keys: seq<Jwk>)
    returns (r: CompactVerify.Outcome<LegacyClaim>)
    ensures r == CompactVerify.VerifySigned(Host(l), e, s, keys, DecodedClaimOf(l, f, cal, s))
  {
    var k := LastIndexOf(s, Dot);
    if k < 0 {
      return CompactVerify.Rejected(CompactVerify.SignatureUndecodable);
    }
    var sig := Base64Url.DecodeText(Host(l), s[k + 1..]);
    CompactVerify.VerifySignedSteps(Host(l), e, s, keys, DecodedClaimOf(l, f, cal, s), k, sig);
    if sig.None? {
      return CompactVerify.Rejected(CompactVerify.SignatureUndecodable);
    }
    r := TryKeysLoop(l, f, e, cal, s, keys, s[..k], sig.value);
  }

  /** `SignCompact`: the payload, a dot and the base64url of its signature. */
  function SignCompact(l: Legacy, f: Format, e: Ed25519, cal: Calendar, sk: Bytes, c: LegacyClaim)
    : Result<Bytes, Compact.EncodeError>
  {
    match BuildCompactPayload(l, f, cal, c)
    case Err(err) => Err(err)
    case Ok(payload) => Ok(payload + [Dot] + Base64Url.Encode(e.sign(sk, payload)))
  }

  /** Sign, then verify with a key set that lists the signer's key: when the
      format's regex accepts the text, the verifier returns the rebuilt
      claim. */
  lemma {:induction false} SignThenVerify(l: Legacy, f: Format, e: Ed25519, cal: Calendar, sk: Bytes, c: LegacyClaim,
                       keys: seq<Jwk>, i: nat)
    requires Correct(e) && Coherent(Host(l), cal) && EncodableClaim(l, f, cal, c)
    requires i < |keys| && keys[i].x == Base64Url.Encode(e.publicKey(sk))
    requires f.isCompact(SignCompact(l, f, e, cal, sk, c).value)
    ensures VerifyCompactSpec(l, f, e, cal, SignCompact(l, f, e, cal, sk, c).value, keys)
         == CompactVerify.Verified(DecodedClaim(f, cal, c))
  {
    var payload := BuildCompactPayload(l, f, cal, c).value;
    var sig := e.sign(sk, payload);
    assert |sig| == 64;
    EncodeIsPayloadAndSignature(l, f, cal, c, sig);
    var s := SignCompact(l, f, e, cal, sk, c).value;
    assert s == EncodeCompact(l, f, cal, c, sig).value;
    DecodeEncode(l, f, cal, c, sig);
    SignedTextSplits(l, f, cal, c, sig);
    Compact.SignatureReads(Host(l), sig);
    CompactVerify.KeyReads(Host(l), keys[i], e.publicKey(sk));
    assert CompactVerify.KeyAccepts(Host(l), e, keys[i], payload, sig);
    AcceptedWhenKeyVerifies(l, f, e, cal, s, keys, i, sig);
  }

  /** The last dot of an encoding sits before the signature. */
  lemma {:induction false} SignedTextSplits(l: Legacy, f: Format, cal: Calendar, c: LegacyClaim, sig: Bytes)
    requires BuildCompactPayload(l, f, cal, c).Ok?
    ensures EncodeCompact(l, f, cal, c, sig).Ok?
    ensures var s := EncodeCompact(l, f, cal, c, sig).value;
            var k := LastIndexOf(s, Dot);
            k >= 0 && s[..k] == BuildCompactPayload(l, f, cal, c).value &&
            s[k + 1..] == Base64Url.Encode(sig)
  {
    EncodeIsPayloadAndSignature(l, f, cal, c, sig);
    Base64Url.SymbolsHaveNoDot(Base64Url.Encode(sig));
    LastIndexOfSnoc(BuildCompactPayload(l, f, cal, c).value, Base64Url.Encode(sig), Dot);
  }

  lemma {:induction false} AcceptedWhenKeyVerifies(l: Legacy, f: Format, e: Ed25519, cal: Calendar, s: Bytes,
                                keys: seq<Jwk>, i: nat, sig: Bytes)
    requires f.isCompact(s) && DecodedClaimOf(l, f, cal, s).Some?
    requires 0 <= LastIndexOf(s, Dot)
    requires Base64Url.DecodeText(Host(l), s[LastIndexOf(s, Dot) + 1..]) == Some(sig)
    requires i < |keys| && CompactVerify.KeyAccepts(Host(l), e, keys[i], s[..LastIndexOf(s, Dot)], sig)
    ensures VerifyCompactSpec(l, f, e, cal, s, keys)
         == CompactVerify.Verified(DecodedClaimOf(l, f, cal, s).value)
  {
  }

  // ---------------------------------------------------------------------
  // Verification links

  /** `GenerateVerificationURL` / `generateVerificationUrl`, as in the
      nine-field SDKs. */
  function GenerateVerificationUrl(l: Legacy, base: Bytes, compact: Bytes): Bytes
  {
    Urls.GenerateVerificationUrl(Host(l), base, compact)
  }

  /** `ExtractCompactFromURL` / `extractCompactFromUrl`, with the format's
      regex as the validity test (Java: the text decoded once). */
  function ExtractCompactFromUrl(l: Legacy, f: Format, url: Bytes): Option<Bytes>
  {
    Urls.ExtractCompactFromUrl(Host(l), f.isCompact, url)
  }

  /** A link made from a base without query or fragment gives back exactly
      the texts the format's regex accepts (Go: non-empty ones). */
  lemma {:induction false} ExtractGenerated(l: Legacy, f: Format, base: Bytes, s: Bytes)
    requires Urls.Question !in base && Urls.Hash !in base
    ensures ExtractCompactFromUrl(l, f, GenerateVerificationUrl(l, base, s))
         == if f.isCompact(s) && (s != [] || l == HapJava) then Some(s) else None
  {
    Urls.ExtractGenerated(Host(l), f.isCompact, base, s);
  }
}
