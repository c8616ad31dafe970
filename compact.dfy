/** The HAP Compact format (compact.py, compact.go, Compact.java): a claim
    and its Ed25519 signature as nine dot-separated fields,
    `HAP1.id.method.name.domain.at.exp.iss.signature`, with the timestamps
    as Unix seconds and the texts escaped so they hold no dot. */
module Compact {
  import opened Wrappers
  import opened Octets
  import opened Sdk
  import opened Types
  import opened Grammar
  import Percent
  import Base64Url

  const MaxInt64: int := 0x7FFF_FFFF_FFFF_FFFF

  /** Go's `int64` and Java's `long` hold the seconds; Python's `int` is
      unbounded. Only non-negative values are written as digits. */
  predicate InRange(p: Platform, n: int)
  {
    0 <= n && (p != Python ==> n <= MaxInt64)
  }

  /** `int(t)` / `strconv.ParseInt(t, 10, 64)` / `Long.parseLong(t)` on a
      field the grammar has already limited to digits: Go and Java refuse a
      value beyond the 64-bit maximum. */
  function ParseDecimal(p: Platform, t: Bytes): (r: Option<int>)
    ensures r.Some? ==> InRange(p, r.value)
  {
    if |t| == 0 || !AllDigits(t) then None
    else if p != Python && DigitsValue(t) > MaxInt64 then None
    else Some(DigitsValue(t))
  }

  /** Whether the platform turns the seconds back into a timestamp:
      Python's `datetime.fromtimestamp` and Java's
      `Instant.ofEpochSecond(...).atOffset(UTC)` raise outside their
      calendar, Go's `time.Unix(...).Format` always writes a text. */
  predicate Formats(p: Platform, n: int)
  {
    p == Go || InCalendar(p, n)
  }

  /** Seconds the encoder writes and every decoder reads back: at or after
      1970, within the platform's integer and within its calendar. */
  predicate Writable(p: Platform, n: int)
  {
    InRange(p, n) && n <= LastSecond(p)
  }

  /** Reading back a formatted second gives it back. */
  lemma {:induction false} ParseFormatted(p: Platform, n: int)
    requires InRange(p, n)
    ensures ParseDecimal(p, FormatInt(n)) == Some(n)
  {
    DigitsValueOfDigits(n);
  }

  // ---------------------------------------------------------------------
  // Encoding

  datatype EncodeError = UnparsableAt | UnparsableExp

  /** The seconds written for `exp`: 0 when the claim has none. */
  function ExpUnix(cal: Calendar, c: Claim): Option<int>
  {
    if ExpText(c) == [] then Some(0) else cal.toUnix(ExpText(c))
  }

  /** The eight fields before the signature, in the order
      `encode_compact`/`build_compact_payload` list them; the ID and the
      method are written as they are. */
  function PayloadFields(p: Platform, cal: Calendar, c: Claim): Result<seq<Bytes>, EncodeError>
  {
    match cal.toUnix(c.at)
    case None => Err(UnparsableAt)
    case Some(at) =>
      match ExpUnix(cal, c)
      case None => Err(UnparsableExp)
      case Some(exp) =>
        Ok([CompactTag, c.id, c.methodName,
            Percent.EncodeField(p, NameText(c)), Percent.EncodeField(p, DomainText(c)),
            FormatInt(at), FormatInt(exp), Percent.EncodeField(p, c.iss)])
  }

  /** `build_compact_payload` / `BuildCompactPayload` / `buildCompactPayload`:
      the text that is signed. */
  function BuildCompactPayload(p: Platform, cal: Calendar, c: Claim): Result<Bytes, EncodeError>
  {
    match PayloadFields(p, cal, c)
    case Err(e) => Err(e)
    case Ok(fields) => Ok(Join(fields, Dot))
  }

  /** `encode_compact` / `EncodeCompact` / `encodeCompact`. */
  function EncodeCompact(p: Platform, cal: Calendar, c: Claim, sig: Bytes): Result<Bytes, EncodeError>
  {
    match PayloadFields(p, cal, c)
    case Err(e) => Err(e)
    case Ok(fields) => Ok(Join(fields + [Base64Url.Encode(sig)], Dot))
  }

  /** An encoded claim is its signed payload, a dot and the signature. */
  lemma {:induction false} EncodeIsPayloadAndSignature(p: Platform, cal: Calendar, c: Claim, sig: Bytes)
    ensures EncodeCompact(p, cal, c, sig).Ok? <==> BuildCompactPayload(p, cal, c).Ok?
    ensures EncodeCompact(p, cal, c, sig).Ok? ==>
      EncodeCompact(p, cal, c, sig).value
        == BuildCompactPayload(p, cal, c).value + [Dot] + Base64Url.Encode(sig)
  {
    if PayloadFields(p, cal, c).Ok? {
      JoinSnoc(PayloadFields(p, cal, c).value, Base64Url.Encode(sig), Dot);
    }
  }

  /** Encoding fails exactly when `at`, or a non-empty `exp`, does not parse,
      and `at` is reported first. */
  lemma {:induction false} EncodeErrors(p: Platform, cal: Calendar, c: Claim, sig: Bytes)
    ensures EncodeCompact(p, cal, c, sig) == Err(UnparsableAt) <==> cal.toUnix(c.at).None?
    ensures EncodeCompact(p, cal, c, sig) == Err(UnparsableExp) <==>
      cal.toUnix(c.at).Some? && ExpText(c) != [] && cal.toUnix(ExpText(c)).None?
  {
  }

  // ---------------------------------------------------------------------
  // Decoding

  datatype DecodeError =
    | InvalidFormat | FieldCount | UnsupportedVersion
    | BadName | BadDomain | BadIssuer | BadAt | BadExp | BadSignature

  datatype Decoded = Decoded(claim: Claim, signature: Bytes)

  /** `compact.split(".")`; Java's `split("\\.")` drops trailing empty pieces. */
  function CompactParts(p: Platform, s: Bytes): seq<Bytes>
  {
    if p == Java then JavaSplit(s, Dot) else Split(s, Dot)
  }

  /** `decode_compact` / `DecodeCompact` / `decodeCompact`. */
  function DecodeCompact(p: Platform, cal: Calendar, s: Bytes): Result<Decoded, DecodeError>
  {
    if !IsValidCompact(p, s) then Err(InvalidFormat)
    else
      var parts := CompactParts(p, s);
      if |parts| != 9 then Err(FieldCount)
      else if parts[0] != CompactTag then Err(UnsupportedVersion)
      else if p == Python then DecodePythonFields(cal, parts)
      else DecodeTypedFields(p, cal, parts)
  }

  /** Python: `unquote` never fails, an empty domain field or decoded domain
      means no domain, and `exp` is absent when its field is the text `0`;
      `at` and then `exp` fail when `datetime` cannot hold them, before the
      signature is read. */
  function DecodePythonFields(cal: Calendar, parts: seq<Bytes>): Result<Decoded, DecodeError>
    requires |parts| == 9
  {
    var name := Percent.Unquote(parts[3]);
    var domain := if parts[4] != [] then Some(Percent.Unquote(parts[4])) else None;
    match ParseDecimal(Python, parts[5])
    case None => Err(BadAt)
    case Some(at) =>
      if !Formats(Python, at) then Err(BadAt)
      else
      var expParsed := if parts[6] != [Zero] then ParseDecimal(Python, parts[6]) else Some(0);
      match expParsed
      case None => Err(BadExp)
      case Some(expUnix) =>
        if parts[6] != [Zero] && !Formats(Python, expUnix) then Err(BadExp)
        else
        var exp := if parts[6] != [Zero] then Some(cal.fromUnix(expUnix)) else None;
        match Base64Url.DecodeText(Python, parts[8])
        case None => Err(BadSignature)
        case Some(sig) =>
          var iss := Percent.Unquote(parts[7]);
          var to := Target(name, if domain.Some? && domain.value != [] then domain else None);
          Ok(Decoded(
            Claim(Some(Version), parts[1], Some(to), cal.fromUnix(at), iss, parts[2], [],
                  if exp.Some? && exp.value != [] then exp else None,
                  None, None, None, None, None),
            sig))
  }

  /** Go and Java: each field may fail, in the order name, domain, issuer,
      `at`, `exp`, signature, and then (Java only) the formatting of `at`
      and of a non-zero `exp`; `exp` is absent when its value is 0. Go keeps
      the decoded domain even when it is empty (its string has no absent
      state) and drops an empty formatted `exp`; Java sets the domain only
      when it is non-empty. */
  function DecodeTypedFields(p: Platform, cal: Calendar, parts: seq<Bytes>): Result<Decoded, DecodeError>
    requires p != Python && |parts| == 9
  {
    match Percent.DecodeField(p, parts[3])
    case None => Err(BadName)
    case Some(name) =>
      match Percent.DecodeField(p, parts[4])
      case None => Err(BadDomain)
      case Some(domain) =>
        match Percent.DecodeField(p, parts[7])
        case None => Err(BadIssuer)
        case Some(iss) =>
          match ParseDecimal(p, parts[5])
          case None => Err(BadAt)
          case Some(at) =>
            match ParseDecimal(p, parts[6])
            case None => Err(BadExp)
            case Some(expUnix) =>
              match Base64Url.DecodeText(p, parts[8])
              case None => Err(BadSignature)
              case Some(sig) =>
                if !Formats(p, at) then Err(BadAt)
                else if expUnix != 0 && !Formats(p, expUnix) then Err(BadExp)
                else
                var exp := if expUnix != 0 then Some(cal.fromUnix(expUnix)) else None;
                var to := if p == Go then Target(name, Some(domain))
                          else Target(name, if domain != [] then Some(domain) else None);
                var exp' := if p == Go && exp.Some? && exp.value == [] then None else exp;
                Ok(Decoded(
                  Claim(Some(Version), parts[1], Some(to), cal.fromUnix(at), iss, parts[2], [],
                        exp', None, None, None, None, None),
                  sig))
  }

  // ---------------------------------------------------------------------
  // Round trip

  /** What the encoder needs of a claim for its output to decode: an ID and
      a method that fit their fields (neither is escaped), a recipient name
      and an issuer (their fields are `[^.]+`), and timestamps at or after
      1970 that the platform can hold and format. */
  predicate EncodableClaim(p: Platform, cal: Calendar, c: Claim)
  {
    IdField(c.id) && |c.methodName| > 0 && Dot !in c.methodName &&
    |NameText(c)| > 0 && |c.iss| > 0 &&
    cal.toUnix(c.at).Some? && Writable(p, cal.toUnix(c.at).value) &&
    ExpUnix(cal, c).Some? && Writable(p, ExpUnix(cal, c).value)
  }

  /** An encodable claim together with a non-empty signature. */
  predicate Encodable(p: Platform, cal: Calendar, c: Claim, sig: Bytes)
  {
    EncodableClaim(p, cal, c) && |sig| > 0
  }

  /** The claim a decoder rebuilds from the encoding of `c`: version set,
      description empty, timestamps re-formatted in UTC, an `exp` of 0
      seconds dropped, the effort fields and tier gone. */
  function DecodedClaim(p: Platform, cal: Calendar, c: Claim): (r: Claim)
    requires cal.toUnix(c.at).Some? && ExpUnix(cal, c).Some?
  {
    var at := cal.toUnix(c.at).value;
    var exp := ExpUnix(cal, c).value;
    var domain := if p == Go then Some(DomainText(c))
                  else if DomainText(c) == [] then None else Some(DomainText(c));
    Claim(Some(Version), c.id, Some(Target(NameText(c), domain)), cal.fromUnix(at), c.iss,
          c.methodName, [], if exp != 0 then Some(cal.fromUnix(exp)) else None,
          None, None, None, None, None)
  }

  lemma {:induction false} TagHasNoDot()
    ensures Dot !in CompactTag
  {
    assert CompactTag == [0x48, 0x41, 0x50, 0x31];
  }

  /** With an ID and a method free of dots, the encoding splits back into
      its nine fields. */
  lemma {:induction false} EncodedParts(p: Platform, cal: Calendar, c: Claim, sig: Bytes)
    requires PayloadFields(p, cal, c).Ok? && Dot !in c.id && Dot !in c.methodName
    ensures EncodeCompact(p, cal, c, sig).Ok?
    ensures var all := PayloadFields(p, cal, c).value + [Base64Url.Encode(sig)];
            |all| == 9 && Split(EncodeCompact(p, cal, c, sig).value, Dot) == all
  {
    EncodedFieldsDotFree(p, cal, c, sig);
    SplitOfJoin(PayloadFields(p, cal, c).value + [Base64Url.Encode(sig)], Dot);
  }

  lemma {:induction false} EncodedFieldsDotFree(p: Platform, cal: Calendar, c: Claim, sig: Bytes)
    requires PayloadFields(p, cal, c).Ok? && Dot !in c.id && Dot !in c.methodName
    ensures var all := PayloadFields(p, cal, c).value + [Base64Url.Encode(sig)];
            |all| == 9 && forall i | 0 <= i < 9 :: Dot !in all[i]
  {
    TagHasNoDot();
    Percent.EncodedFieldHasNoDot(p, NameText(c));
    Percent.EncodedFieldHasNoDot(p, DomainText(c));
    Percent.EncodedFieldHasNoDot(p, c.iss);
    Base64Url.SymbolsHaveNoDot(Base64Url.Encode(sig));
  }

  /** The nine fields of an encodable claim each fit the grammar. */
  lemma {:induction false} EncodedFieldsFit(p: Platform, cal: Calendar, c: Claim, sig: Bytes)
    requires Encodable(p, cal, c, sig)
    ensures PayloadFields(p, cal, c).Ok?
    ensures CompactFields(PayloadFields(p, cal, c).value + [Base64Url.Encode(sig)])
  {
    var fields := PayloadFields(p, cal, c).value;
    var all := fields + [Base64Url.Encode(sig)];
    Percent.EncodedFieldEmpty(p, NameText(c));
    Percent.EncodedFieldEmpty(p, c.iss);
    assert all[0] == CompactTag && all[1] == c.id && all[2] == c.methodName;
    assert |all[3]| > 0 && |all[7]| > 0;
    assert all[5] == Digits(cal.toUnix(c.at).value) && all[6] == Digits(ExpUnix(cal, c).value);
    assert all[8] == Base64Url.Encode(sig);
  }

  /** On a text of the grammar all three platforms split alike. */
  lemma {:induction false} CompactPartsOfCompact(p: Platform, s: Bytes)
    requires IsCompact(s)
    ensures CompactParts(p, s) == Split(s, Dot)
  {
    if p == Java {
      JavaSplitAgrees(s, Dot);
    }
  }

  /** The encoding of an encodable claim is accepted by the grammar and splits
      back into its nine fields. */
  lemma {:induction false} EncodedIsValid(p: Platform, cal: Calendar, c: Claim, sig: Bytes)
    requires Encodable(p, cal, c, sig)
    ensures EncodeCompact(p, cal, c, sig).Ok?
    ensures var s := EncodeCompact(p, cal, c, sig).value;
            IsCompact(s) && IsValidCompact(p, s) &&
            CompactParts(p, s) == PayloadFields(p, cal, c).value + [Base64Url.Encode(sig)]
  {
    IdFieldHasNoDot(c.id);
    EncodedParts(p, cal, c, sig);
    EncodedFieldsFit(p, cal, c, sig);
    CompactPartsOfCompact(p, EncodeCompact(p, cal, c, sig).value);
  }

  lemma {:induction false} TextFieldsRead(p: Platform, name: Bytes, domain: Bytes, iss: Bytes)
    ensures Percent.DecodeField(p, Percent.EncodeField(p, name)) == Some(name)
    ensures Percent.DecodeField(p, Percent.EncodeField(p, domain)) == Some(domain)
    ensures Percent.DecodeField(p, Percent.EncodeField(p, iss)) == Some(iss)
  {
    Percent.DecodeEncodedField(p, name);
    Percent.DecodeEncodedField(p, domain);
    Percent.DecodeEncodedField(p, iss);
  }

  lemma {:induction false} NumbersRead(p: Platform, at: int, exp: int)
    requires Writable(p, at) && Writable(p, exp)
    ensures ParseDecimal(p, FormatInt(at)) == Some(at) && Formats(p, at) && InCalendar(p, at)
    ensures ParseDecimal(p, FormatInt(exp)) == Some(exp) && Formats(p, exp) && InCalendar(p, exp)
    ensures FormatInt(exp) == [Zero] <==> exp == 0
  {
    ParseFormatted(p, at);
    ParseFormatted(p, exp);
    DigitsZero(exp);
  }

  /** Python's field readers undo the encoding of an encodable claim. */
  lemma {:induction false} PythonReadsEncoding(cal: Calendar, c: Claim, sig: Bytes)
    requires Coherent(Python, cal) && Encodable(Python, cal, c, sig)
    ensures var all := PayloadFields(Python, cal, c).value + [Base64Url.Encode(sig)];
            DecodePythonFields(cal, all) == Ok(Decoded(DecodedClaim(Python, cal, c), sig))
  {
    var at, exp := cal.toUnix(c.at).value, ExpUnix(cal, c).value;
    var all := PayloadFields(Python, cal, c).value + [Base64Url.Encode(sig)];
    TextFieldsRead(Python, NameText(c), DomainText(c), c.iss);
    Percent.EncodedFieldEmpty(Python, DomainText(c));
    NumbersRead(Python, at, exp);
    SignatureReads(Python, sig);
    assert |cal.fromUnix(exp)| > 0;
    PythonFieldsRead(cal, all, at, exp, sig);
  }

  /** Python's field readers on fields whose timestamps and signature read. */
  lemma {:induction false} PythonFieldsRead(cal: Calendar, parts: seq<Bytes>, at: int, exp: int, sig: Bytes)
    requires |parts| == 9 && ParseDecimal(Python, parts[5]) == Some(at) && Formats(Python, at)
    requires ParseDecimal(Python, parts[6]) == Some(exp) && Formats(Python, exp)
    requires parts[6] == [Zero] <==> exp == 0
    requires Base64Url.DecodeText(Python, parts[8]) == Some(sig)
    ensures var domain := Percent.Unquote(parts[4]);
            DecodePythonFields(cal, parts) == Ok(Decoded(
              Claim(Some(Version), parts[1],
                    Some(Target(Percent.Unquote(parts[3]), if parts[4] != [] && domain != [] then Some(domain) else None)),
                    cal.fromUnix(at), Percent.Unquote(parts[7]), parts[2], [],
                    if exp != 0 && cal.fromUnix(exp) != [] then Some(cal.fromUnix(exp)) else None,
                    None, None, None, None, None),
              sig))
  {
  }

  /** Go's and Java's field readers undo the encoding of an encodable claim. */
  lemma {:induction false} TypedReadsEncoding(p: Platform, cal: Calendar, c: Claim, sig: Bytes)
    requires p != Python && Coherent(p, cal) && Encodable(p, cal, c, sig)
    ensures var all := PayloadFields(p, cal, c).value + [Base64Url.Encode(sig)];
            DecodeTypedFields(p, cal, all) == Ok(Decoded(DecodedClaim(p, cal, c), sig))
  {
    var exp := ExpUnix(cal, c).value;
    TextFieldsRead(p, NameText(c), DomainText(c), c.iss);
    NumbersRead(p, cal.toUnix(c.at).value, exp);
    SignatureReads(p, sig);
    assert |cal.fromUnix(exp)| > 0;
  }

  /** Every platform's decoder reads back an encoded signature. */
  lemma {:induction false} SignatureReads(p: Platform, sig: Bytes)
    ensures Base64Url.DecodeText(p, Base64Url.Encode(sig)) == Some(sig)
  {
    Base64Url.DecodersAgree(p, Base64Url.Encode(sig));
    Base64Url.DecodeEncode(sig);
  }

  /** Decoding undoes encoding: the decoder returns the rebuilt claim and the
      signature, on every platform. */
  lemma {:induction false} DecodeEncode(p: Platform, cal: Calendar, c: Claim, sig: Bytes)
    requires Coherent(p, cal) && Encodable(p, cal, c, sig)
    ensures EncodeCompact(p, cal, c, sig).Ok?
    ensures DecodeCompact(p, cal, EncodeCompact(p, cal, c, sig).value)
         == Ok(Decoded(DecodedClaim(p, cal, c), sig))
  {
    EncodedIsValid(p, cal, c, sig);
    if p == Python {
      PythonReadsEncoding(cal, c, sig);
    } else {
      TypedReadsEncoding(p, cal, c, sig);
    }
  }

  /** Encoding the rebuilt claim gives the same text again: nothing the
      format carries is lost or altered by a decode. */
  lemma {:induction false} ReencodeIsStable(p: Platform, cal: Calendar, c: Claim, sig: Bytes)
    requires Coherent(p, cal)
    requires cal.toUnix(c.at).Some? && InCalendar(p, cal.toUnix(c.at).value)
    requires ExpUnix(cal, c).Some? && InCalendar(p, ExpUnix(cal, c).value)
    ensures EncodeCompact(p, cal, DecodedClaim(p, cal, c), sig) == EncodeCompact(p, cal, c, sig)
  {
    var d := DecodedClaim(p, cal, c);
    var exp := ExpUnix(cal, c).value;
    assert cal.toUnix(d.at) == cal.toUnix(c.at);
    if exp != 0 {
      assert cal.toUnix(cal.fromUnix(exp)) == Some(exp);
      assert |cal.fromUnix(exp)| > 0;
    }
    assert ExpUnix(cal, d) == ExpUnix(cal, c);
    assert DomainText(d) == DomainText(c);
  }

  /** A claim made before 1970 is encoded with a minus sign, which the
      grammar's `\d+` refuses: it cannot be decoded. */
  lemma {:induction false} PreEpochNotDecodable(p: Platform, cal: Calendar, c: Claim, sig: Bytes)
    requires cal.toUnix(c.at).Some? && cal.toUnix(c.at).value < 0 && ExpUnix(cal, c).Some?
    requires Dot !in c.id && Dot !in c.methodName && |sig| > 0
    ensures EncodeCompact(p, cal, c, sig).Ok?
    ensures DecodeCompact(p, cal, EncodeCompact(p, cal, c, sig).value) == Err(InvalidFormat)
  {
    var fields := PayloadFields(p, cal, c).value;
    var e := Base64Url.Encode(sig);
    EncodedParts(p, cal, c, sig);
    var s := EncodeCompact(p, cal, c, sig).value;
    NegativeAtNotCompact(s, cal.toUnix(c.at).value);
    SignatureEndsText(fields, e);
  }

  lemma {:induction false} NegativeAtNotCompact(s: Bytes, at: int)
    requires at < 0 && |Split(s, Dot)| == 9 && Split(s, Dot)[5] == FormatInt(at)
    ensures !IsCompact(s)
  {
    assert Split(s, Dot)[5][0] == Dash;
  }

  lemma {:induction false} SignatureEndsText(fields: seq<Bytes>, e: Bytes)
    requires |fields| > 0 && Base64Url.AllSymbols(e) && |e| > 0
    ensures !NewlineTerminated(Join(fields + [e], Dot))
  {
    var s := Join(fields + [e], Dot);
    JoinSnoc(fields, e, Dot);
    Base64Url.SymbolsHaveNoDot(e);
    assert s[|s| - 1] == e[|e| - 1];
  }

  // ---------------------------------------------------------------------
  // Where the platforms differ

  /** The nine fields the regex matched: those of the text, or of the text
      without the final newline Python lets through. */
  function MatchedFields(p: Platform, s: Bytes): (q: seq<Bytes>)
    requires IsValidCompact(p, s)
    ensures CompactFields(q)
  {
    if IsCompact(s) then Split(s, Dot) else Split(s[..|s| - 1], Dot)
  }

  /** Behind a final newline the split gives the matched fields with the
      newline on the signature. */
  lemma {:induction false} NewlineParts(p: Platform, s: Bytes)
    requires IsValidCompact(p, s) && !IsCompact(s)
    ensures var q := MatchedFields(p, s);
            p == Python && CompactParts(p, s) == q[..8] + [q[8] + [Newline]]
  {
    var t := s[..|s| - 1];
    NewlineMatch(p, s);
    SplitSnoc(t, Newline, Dot);
    LastPart(Split(t, Dot));
  }

  lemma {:induction false} NewlineMatch(p: Platform, s: Bytes)
    requires IsValidCompact(p, s) && !IsCompact(s)
    ensures p == Python && |s| > 0 && s == s[..|s| - 1] + [Newline]
    ensures MatchedFields(p, s) == Split(s[..|s| - 1], Dot) && |Split(s[..|s| - 1], Dot)| == 9
  {
    assert NewlineTerminated(s) && IsCompact(s[..|s| - 1]);
  }

  lemma {:induction false} LastPart(ps: seq<Bytes>)
    requires |ps| == 9
    ensures ps[..|ps| - 1] == ps[..8] && ps[|ps| - 1] == ps[8]
  {
  }

  /** On Python's field readers: the timestamps must be ones `datetime`
      holds, and the signature must decode. */
  lemma {:induction false} PythonFieldsSucceedIff(cal: Calendar, parts: seq<Bytes>)
    requires |parts| == 9 && |parts[5]| > 0 && AllDigits(parts[5]) && |parts[6]| > 0 && AllDigits(parts[6])
    ensures DecodePythonFields(cal, parts).Ok? <==>
              DigitsValue(parts[5]) <= LastSecond(Python) &&
              (parts[6] == [Zero] || DigitsValue(parts[6]) <= LastSecond(Python)) &&
              Base64Url.DecodeText(Python, parts[8]).Some?
  {
  }

  /** On a text Python's regex accepts, its decoder fails exactly when a
      timestamp lies beyond the year 9999 or the signature has a length
      base64 refuses: one symbol over whole groups, or, behind the final
      newline the regex lets through, anything but whole groups. */
  lemma {:induction false} PythonDecodeSucceedsIff(cal: Calendar, s: Bytes)
    requires IsValidCompact(Python, s)
    ensures var q := MatchedFields(Python, s);
            DecodeCompact(Python, cal, s).Ok? <==>
              DigitsValue(q[5]) <= LastSecond(Python) &&
              (q[6] == [Zero] || DigitsValue(q[6]) <= LastSecond(Python)) &&
              (if IsCompact(s) then |q[8]| % 4 != 1 else |q[8]| % 4 == 0)
  {
    var q := MatchedFields(Python, s);
    Base64Url.PaddingThreeRejected(Python, q[8]);
    Base64Url.GroupArith(|q[8]|);
    if IsCompact(s) {
      PythonFieldsSucceedIff(cal, q);
    } else {
      NewlineParts(Python, s);
      var ps := q[..8] + [q[8] + [Newline]];
      assert ps[0] == q[0] && ps[5] == q[5] && ps[6] == q[6] && ps[8] == q[8] + [Newline];
      PythonFieldsSucceedIff(cal, ps);
    }
  }

  /** How decoding fails: the format, field count and version checks, in
      that order, where the grammar already rules out the last two; and
      what a success implies of every field. */
  lemma {:induction false} DecodeErrors(p: Platform, cal: Calendar, s: Bytes)
    ensures !IsValidCompact(p, s) <==> DecodeCompact(p, cal, s) == Err(InvalidFormat)
    ensures DecodeCompact(p, cal, s) != Err(FieldCount)
    ensures DecodeCompact(p, cal, s) != Err(UnsupportedVersion)
    ensures DecodeCompact(p, cal, s).Ok? ==>
              var parts := CompactParts(p, s);
              |parts| == 9 && parts[0] == CompactTag &&
              ParseDecimal(p, parts[5]).Some? && Formats(p, ParseDecimal(p, parts[5]).value) &&
              Base64Url.DecodeText(p, parts[8]) == Some(DecodeCompact(p, cal, s).value.signature) &&
              (p != Python ==> Percent.DecodeField(p, parts[3]).Some? &&
                               Percent.DecodeField(p, parts[4]).Some? &&
                               Percent.DecodeField(p, parts[7]).Some?)
  {
    if IsValidCompact(p, s) {
      ValidParts(p, s);
      var parts := CompactParts(p, s);
      if p == Python {
        FieldsRead(p, cal, parts, DecodePythonFields(cal, parts));
      } else {
        FieldsRead(p, cal, parts, DecodeTypedFields(p, cal, parts));
      }
    }
  }

  /** What a successful field reader has read. */
  lemma {:induction false} FieldsRead(p: Platform, cal: Calendar, parts: seq<Bytes>, r: Result<Decoded, DecodeError>)
    requires |parts| == 9
    requires r == if p == Python then DecodePythonFields(cal, parts) else DecodeTypedFields(p, cal, parts)
    ensures r != Err(InvalidFormat) && r != Err(FieldCount) && r != Err(UnsupportedVersion)
    ensures r.Ok? ==>
              ParseDecimal(p, parts[5]).Some? && Formats(p, ParseDecimal(p, parts[5]).value) &&
              Base64Url.DecodeText(p, parts[8]) == Some(r.value.signature) &&
              (p != Python ==> Percent.DecodeField(p, parts[3]).Some? &&
                               Percent.DecodeField(p, parts[4]).Some? &&
                               Percent.DecodeField(p, parts[7]).Some?)
  {
  }

  /** A text of the grammar splits into nine parts led by the tag. */
  lemma {:induction false} ValidParts(p: Platform, s: Bytes)
    requires IsValidCompact(p, s)
    ensures |CompactParts(p, s)| == 9 && CompactParts(p, s)[0] == CompactTag
  {
    if IsCompact(s) {
      CompactPartsOfCompact(p, s);
    } else {
      NewlineParts(p, s);
    }
  }

  /** An `exp` field of `00`: Python compares the text with `0` and keeps an
      expiry at the epoch; Go and Java compare the number and drop it. */
  lemma {:induction false} ExpSentinelDiverges(cal: Calendar, s: Bytes)
    requires Coherent(Python, cal) && IsCompact(s) && Split(s, Dot)[6] == [Zero, Zero]
    requires DecodeCompact(Python, cal, s).Ok? && DecodeCompact(Go, cal, s).Ok?
    requires DecodeCompact(Java, cal, s).Ok?
    ensures DecodeCompact(Python, cal, s).value.claim.exp == Some(cal.fromUnix(0))
    ensures DecodeCompact(Go, cal, s).value.claim.exp == None
    ensures DecodeCompact(Java, cal, s).value.claim.exp == None
  {
    CompactPartsOfCompact(Python, s);
    CompactPartsOfCompact(Go, s);
    CompactPartsOfCompact(Java, s);
    PythonKeepsDoubleZeroExp(cal, Split(s, Dot));
    TypedDropsDoubleZeroExp(Go, cal, Split(s, Dot));
    TypedDropsDoubleZeroExp(Java, cal, Split(s, Dot));
  }

  lemma {:induction false} PythonKeepsDoubleZeroExp(cal: Calendar, parts: seq<Bytes>)
    requires Coherent(Python, cal) && |parts| == 9 && parts[6] == [Zero, Zero]
    requires DecodePythonFields(cal, parts).Ok?
    ensures DecodePythonFields(cal, parts).value.claim.exp == Some(cal.fromUnix(0))
  {
    DoubleZeroIsZero();
    assert cal.toUnix(cal.fromUnix(0)) == Some(0) && |cal.fromUnix(0)| > 0;
  }

  lemma {:induction false} TypedDropsDoubleZeroExp(p: Platform, cal: Calendar, parts: seq<Bytes>)
    requires p != Python && |parts| == 9 && parts[6] == [Zero, Zero]
    requires DecodeTypedFields(p, cal, parts).Ok?
    ensures DecodeTypedFields(p, cal, parts).value.claim.exp == None
  {
    DoubleZeroIsZero();
  }

  /** The text `00` reads as 0 seconds on every platform. */
  lemma {:induction false} DoubleZeroIsZero()
    ensures forall p: Platform :: ParseDecimal(p, [Zero, Zero]) == Some(0)
  {
    var t: Bytes := [Zero, Zero];
    assert t[..1] == [Zero] && t[..1][..0] == [];
    assert DigitsValue(t[..1][..0]) == 0;
    assert DigitsValue(t[..1]) == 0;
    assert DigitsValue(t) == 0;
  }
}
