/** Carrying a compact text in a verification URL: `generate_verification_url`
    and `extract_compact_from_url` (compact.py:243-276, compact.go:248-266,
    Compact.java:315-344, and the legacy copies in hap-go/compact.go and
    HapCompact.java, which differ only in the validity test they apply).
    The URL parsers (`urlparse`, `url.Parse`, `java.net.URI`) are reduced to
    the cut at the first `#` and the first `?` that locates the query; the
    validity test is a parameter. */
module Urls {
  import opened Wrappers
  import opened Octets
  import opened Sdk
  import opened Percent
  import Grammar

  const Hash: byte := 0x23
  const Semicolon: byte := 0x3B
  const Question: byte := 0x3F

  /** The query parameter that carries the compact text: `c`. */
  const ParamName: Bytes := [0x63]
  const QueryStart: Bytes := [Question] + ParamName + [Equals]

  /** `base + "?c=" + quote(compact, safe="")` / `url.QueryEscape` /
      `URLEncoder.encode`: no dot step here. */
  function GenerateVerificationUrl(p: Platform, base: Bytes, compact: Bytes): Bytes
  {
    base + QueryStart + Escape(p, compact)
  }

  /** The query component: what follows the first `?` in the text before the
      first `#`, or nothing when there is no `?`. */
  function RawQuery(url: Bytes): Option<Bytes>
  {
    var beforeFragment := if Hash in url then url[..IndexOf(url, Hash)] else url;
    if Question in beforeFragment then Some(beforeFragment[IndexOf(beforeFragment, Question) + 1..])
    else None
  }

  /** The `+` of a form-encoded text read as a space (`parse_qsl`). */
  function PlusToSpace(t: Bytes): (r: Bytes)
    ensures |r| == |t|
  {
    if t == [] then [] else [if t[0] == Plus then Space else t[0]] + PlusToSpace(t[1..])
  }

  // ---------------------------------------------------------------------
  // Python: urlparse, then parse_qs

  /** The first value of `c` that `parse_qs` records: pieces without `=` and
      pieces with an empty value are skipped; name and value have `+` read
      as a space and are unquoted. */
  function PythonParamValue(params: seq<Bytes>): Option<Bytes>
  {
    if params == [] then None
    else
      var param := params[0];
      if Equals in param then
        var k := IndexOf(param, Equals);
        if k + 1 < |param| && Unquote(PlusToSpace(param[..k])) == ParamName then
          Some(Unquote(PlusToSpace(param[k + 1..])))
        else PythonParamValue(params[1..])
      else PythonParamValue(params[1..])
  }

  /** `extract_compact_from_url`: the `c` value when it is non-empty and valid. */
  function PythonExtract(valid: Bytes -> bool, url: Bytes): Option<Bytes>
  {
    match RawQuery(url)
    case None => None
    case Some(q) =>
      match PythonParamValue(Split(q, Ampersand))
      case None => None
      case Some(c) => if c != [] && valid(c) then Some(c) else None
  }

  // ---------------------------------------------------------------------
  // Go: url.Parse, then Query().Get("c")

  /** The first value of `c` that `url.ParseQuery` records: empty pieces and
      pieces holding a `;` are skipped, the piece is cut at its first `=`, and
      a piece whose key or value does not unescape is skipped. */
  function GoParamValue(params: seq<Bytes>): Option<Bytes>
  {
    if params == [] then None
    else
      var param := params[0];
      if param == [] || Semicolon in param then GoParamValue(params[1..])
      else
        var key := if Equals in param then param[..IndexOf(param, Equals)] else param;
        var value := if Equals in param then param[IndexOf(param, Equals) + 1..] else [];
        match (Unescape(QueryUnescape, key), Unescape(QueryUnescape, value))
        case (Some(k), Some(v)) => if k == ParamName then Some(v) else GoParamValue(params[1..])
        case _ => GoParamValue(params[1..])
  }

  /** `ExtractCompactFromURL`: the `c` value when it is non-empty and valid;
      `""` (here None) otherwise. */
  function GoExtract(valid: Bytes -> bool, url: Bytes): Option<Bytes>
  {
    match RawQuery(url)
    case None => None
    case Some(q) =>
      match GoParamValue(Split(q, Ampersand))
      case None => None
      case Some(c) => if c != [] && valid(c) then Some(c) else None
  }

  // ---------------------------------------------------------------------
  // Java: java.net.URI, split on `&`, split on `=` with limit 2, URLDecoder

  /** The loop over `query.split("&")`: the first `c=` piece whose value
      `URLDecoder` reads as a valid text; a value it refuses throws, and the
      method's catch turns that into null. */
  function JavaParamValue(valid: Bytes -> bool, params: seq<Bytes>): Option<Bytes>
  {
    if params == [] then None
    else
      var param := params[0];
      if Equals in param && param[..IndexOf(param, Equals)] == ParamName then
        match Unescape(UrlDecoder, param[IndexOf(param, Equals) + 1..])
        case None => None
        case Some(c) => if valid(c) then Some(c) else JavaParamValue(valid, params[1..])
      else JavaParamValue(valid, params[1..])
  }

  /** `extractCompactFromUrl` as written: `new URI(url)` refuses a malformed
      escape, and `getQuery()` hands the loop the query already decoded, which
      `URLDecoder` then decodes a second time. */
  function JavaExtractAsWritten(valid: Bytes -> bool, url: Bytes): Option<Bytes>
  {
    match RawQuery(url)
    case None => None
    case Some(raw) =>
      match Unescape(UriDecoder, raw)
      case None => None
      case Some(query) => JavaParamValue(valid, JavaSplit(query, Ampersand))
  }

  /** `extractCompactFromUrl` reading `getRawQuery()`, so that each value is
      decoded once. */
  function JavaExtract(valid: Bytes -> bool, url: Bytes): Option<Bytes>
  {
    match RawQuery(url)
    case None => None
    case Some(raw) =>
      if Unescape(UriDecoder, raw).None? then None
      else JavaParamValue(valid, JavaSplit(raw, Ampersand))
  }

  /** The Java loop over the parameters, with its early returns. */
  method ScanParamsJava(valid: Bytes -> bool, params: seq<Bytes>) returns (r: Option<Bytes>)
    ensures r == JavaParamValue(valid, params)
  {
    var i := 0;
    while i < |params|
      invariant i <= |params|
      invariant JavaParamValue(valid, params[i..]) == JavaParamValue(valid, params)
    {
      assert params[i..][1..] == params[i + 1..];
      var param := params[i];
      if Equals in param && param[..IndexOf(param, Equals)] == ParamName {
        var decoded := Unescape(UrlDecoder, param[IndexOf(param, Equals) + 1..]);
        if decoded.None? {
          return None;
        }
        if valid(decoded.value) {
          return decoded;
        }
      }
      i := i + 1;
    }
    return None;
  }

  /** `extractCompactFromUrl`, reading the query once. */
  method ExtractCompactFromUrlJava(valid: Bytes -> bool, url: Bytes) returns (r: Option<Bytes>)
    ensures r == JavaExtract(valid, url)
  {
    var raw := RawQuery(url);
    if raw.None? || Unescape(UriDecoder, raw.value).None? {
      return None;
    }
    r := ScanParamsJava(valid, JavaSplit(raw.value, Ampersand));
  }

  /** The extractor each SDK ships, with Java's query read once. */
  function ExtractCompactFromUrl(p: Platform, valid: Bytes -> bool, url: Bytes): Option<Bytes>
  {
    match p
    case Python => PythonExtract(valid, url)
    case Go => GoExtract(valid, url)
    case Java => JavaExtract(valid, url)
  }

  // ---------------------------------------------------------------------
  // Laws

  /** What java.net.URI shows of an escaped text: the text itself, except
      that a form-encoded space stays `+`. */
  function UriView(p: Platform, s: Bytes): (r: Bytes)
    ensures |r| == |s|
  {
    if s == [] then []
    else [if s[0] == Space && p != Python then Plus else s[0]] + UriView(p, s[1..])
  }

  lemma {:induction false} UriViewIdentity(p: Platform, s: Bytes)
    requires p == Python || Space !in s
    ensures UriView(p, s) == s
  {
    if s != [] {
      UriViewIdentity(p, s[1..]);
      assert [s[0]] + s[1..] == s;
    }
  }

  lemma {:induction false} UriDecodesEscapedByte(p: Platform, b: byte, rest: Bytes)
    ensures Unescape(UriDecoder, EscapeByte(p, b) + rest)
         == Prepend(if b == Space && p != Python then Plus else b, Unescape(UriDecoder, rest))
  {
    var t := EscapeByte(p, b) + rest;
    if Unreserved(p, b) || (b == Space && p != Python) {
      assert t[1..] == rest;
    } else {
      assert t[3..] == rest;
      assert HexValue(t[1]) * 16 + HexValue(t[2]) == b as int;
    }
  }

  /** The URI decoder accepts every escaped text and shows it as UriView. */
  lemma {:induction false} UriDecodesEscape(p: Platform, s: Bytes)
    ensures Unescape(UriDecoder, Escape(p, s)) == Some(UriView(p, s))
  {
    if s != [] {
      UriDecodesEscapedByte(p, s[0], Escape(p, s[1..]));
      UriDecodesEscape(p, s[1..]);
    }
  }

  /** An escaped text holds none of the bytes that delimit a URL's query. */
  lemma {:induction false} EscapedHasNoDelimiter(p: Platform, s: Bytes)
    ensures var e := Escape(p, s);
            Hash !in e && Question !in e && Ampersand !in e && Equals !in e && Semicolon !in e &&
            Space !in e && (p == Python ==> Plus !in e)
  {
    EscapedAlphabet(p, s);
  }

  lemma {:induction false} PlusToSpaceIdentity(t: Bytes)
    requires Plus !in t
    ensures PlusToSpace(t) == t
  {
    if t != [] {
      PlusToSpaceIdentity(t[1..]);
      assert [t[0]] + t[1..] == t;
    }
  }

  /** Unescaping never lengthens a text, and shortens one holding a `%`. */
  lemma {:induction false} UnescapeShrinks(u: Unescaper, t: Bytes)
    ensures Unescape(u, t).Some? ==> |Unescape(u, t).value| <= |t|
    ensures Unescape(u, t).Some? && Octets.Percent in t ==> |Unescape(u, t).value| < |t|
  {
    if t != [] {
      if t[0] == Octets.Percent {
        if |t| >= 3 {
          UnescapeShrinks(u, t[3..]);
        }
      } else {
        UnescapeShrinks(u, t[1..]);
        assert t == [t[0]] + t[1..];
      }
    }
  }

  /** The `c=` in front of a value unescapes to itself. */
  lemma {:induction false} UnescapeParamStart(u: Unescaper, t: Bytes)
    ensures Unescape(u, t).None? ==> Unescape(u, ParamName + [Equals] + t).None?
    ensures Unescape(u, t).Some? ==>
              Unescape(u, ParamName + [Equals] + t) == Some(ParamName + [Equals] + Unescape(u, t).value)
  {
    var q := ParamName + [Equals] + t;
    assert q[1..] == [Equals] + t;
    assert q[1..][1..] == t;
    if Unescape(u, t).Some? {
      assert ParamName + [Equals] + Unescape(u, t).value == [q[0]] + ([Equals] + Unescape(u, t).value);
    }
  }

  /** A query that is the single parameter `c=v`, `v` free of `&`. */
  lemma {:induction false} SingleParam(q: Bytes, v: Bytes)
    requires q == ParamName + [Equals] + v && Ampersand !in v
    ensures Split(q, Ampersand) == [q] && JavaSplit(q, Ampersand) == [q]
    ensures Equals in q && IndexOf(q, Equals) == 1
    ensures q[..1] == ParamName && q[2..] == v
  {
    assert q[1] == Equals;
    assert q[..1] == ParamName;
    IndexOfUnique(q, Equals, 1);
    assert Ampersand !in q;
  }

  lemma {:induction false} PythonSingleParam(q: Bytes, v: Bytes)
    requires q == ParamName + [Equals] + v && Ampersand !in v
    ensures PythonParamValue(Split(q, Ampersand)) == if v != [] then Some(Unquote(PlusToSpace(v))) else None
  {
    SingleParam(q, v);
    assert PlusToSpace(ParamName) == ParamName;
    assert Unquote(ParamName) == ParamName;
  }

  lemma {:induction false} GoSingleParam(q: Bytes, v: Bytes)
    requires q == ParamName + [Equals] + v && Ampersand !in v && Semicolon !in v
    ensures GoParamValue(Split(q, Ampersand)) == Unescape(QueryUnescape, v)
  {
    SingleParam(q, v);
    assert Unescape(QueryUnescape, ParamName) == Some(ParamName) by {
      assert ParamName[0] != Octets.Percent && ParamName[0] != Plus && ParamName[1..] == [];
      assert Unescape(QueryUnescape, ParamName[1..]) == Some([]);
      assert [ParamName[0]] + [] == ParamName;
    }
    assert Semicolon !in q;
    assert q[..IndexOf(q, Equals)] == ParamName && q[IndexOf(q, Equals) + 1..] == v;
  }

  lemma {:induction false} JavaSingleParam(valid: Bytes -> bool, q: Bytes, v: Bytes)
    requires q == ParamName + [Equals] + v && Ampersand !in v
    ensures JavaParamValue(valid, JavaSplit(q, Ampersand))
         == match Unescape(UrlDecoder, v)
            case None => None
            case Some(c) => if valid(c) then Some(c) else None
  {
    SingleParam(q, v);
  }

  /** The query of a generated URL is `c=` and the escaped text. */
  lemma {:induction false} GeneratedQuery(p: Platform, base: Bytes, s: Bytes)
    requires Question !in base && Hash !in base
    ensures RawQuery(GenerateVerificationUrl(p, base, s)) == Some(ParamName + [Equals] + Escape(p, s))
  {
    var e := Escape(p, s);
    EscapedHasNoDelimiter(p, s);
    var url := GenerateVerificationUrl(p, base, s);
    assert url == base + [Question] + (ParamName + [Equals] + e);
    assert Hash !in url;
    assert url[..|base|] == base;
    IndexOfUnique(url, Question, |base|);
    assert url[|base| + 1..] == ParamName + [Equals] + e;
  }

  lemma {:induction false} PythonExtractGenerated(valid: Bytes -> bool, base: Bytes, s: Bytes)
    requires Question !in base && Hash !in base
    ensures PythonExtract(valid, GenerateVerificationUrl(Python, base, s))
         == if valid(s) && s != [] then Some(s) else None
  {
    var e := Escape(Python, s);
    GeneratedQuery(Python, base, s);
    EscapedHasNoDelimiter(Python, s);
    PythonSingleParam(ParamName + [Equals] + e, e);
    PlusToSpaceIdentity(e);
    DecodeEscaped(Python, s);
    assert s == [] <==> e == [];
  }

  lemma {:induction false} GoExtractGenerated(valid: Bytes -> bool, base: Bytes, s: Bytes)
    requires Question !in base && Hash !in base
    ensures GoExtract(valid, GenerateVerificationUrl(Go, base, s))
         == if valid(s) && s != [] then Some(s) else None
  {
    var e := Escape(Go, s);
    GeneratedQuery(Go, base, s);
    EscapedHasNoDelimiter(Go, s);
    GoSingleParam(ParamName + [Equals] + e, e);
    DecodeEscaped(Go, s);
  }

  lemma {:induction false} JavaExtractGenerated(valid: Bytes -> bool, base: Bytes, s: Bytes)
    requires Question !in base && Hash !in base
    ensures JavaExtract(valid, GenerateVerificationUrl(Java, base, s))
         == if valid(s) then Some(s) else None
  {
    var e := Escape(Java, s);
    GeneratedQuery(Java, base, s);
    EscapedHasNoDelimiter(Java, s);
    UnescapeParamStart(UriDecoder, e);
    UriDecodesEscape(Java, s);
    JavaSingleParam(valid, ParamName + [Equals] + e, e);
    DecodeEscaped(Java, s);
  }

  /** Extracting from a generated URL returns the embedded text exactly when
      the extractor's validity test accepts it (Python and Go also refuse the
      empty text). */
  lemma {:induction false} ExtractGenerated(p: Platform, valid: Bytes -> bool, base: Bytes, s: Bytes)
    requires Question !in base && Hash !in base
    ensures ExtractCompactFromUrl(p, valid, GenerateVerificationUrl(p, base, s))
         == if valid(s) && (s != [] || p == Java) then Some(s) else None
  {
    match p
    case Python => PythonExtractGenerated(valid, base, s);
    case Go => GoExtractGenerated(valid, base, s);
    case Java => JavaExtractGenerated(valid, base, s);
  }

  /** The same round trip with the compact grammar as the validity test. */
  lemma {:induction false} ExtractGeneratedCompact(p: Platform, base: Bytes, s: Bytes)
    requires Question !in base && Hash !in base
    ensures ExtractCompactFromUrl(p, t => Grammar.IsValidCompact(p, t), GenerateVerificationUrl(p, base, s))
         == if Grammar.IsValidCompact(p, s) then Some(s) else None
  {
    ExtractGenerated(p, t => Grammar.IsValidCompact(p, t), base, s);
    if s == [] {
      assert Split(s, Dot) == [s];
    }
  }

  /** Java as written decodes twice: a text holding a `%` (and no space or
      `&`) never comes back from its own verification URL. */
  lemma {:induction false} JavaAsWrittenDecodesTwice(valid: Bytes -> bool, base: Bytes, s: Bytes)
    requires Question !in base && Hash !in base
    requires Octets.Percent in s && Space !in s && Ampersand !in s
    ensures JavaExtractAsWritten(valid, GenerateVerificationUrl(Java, base, s)) != Some(s)
  {
    var e := Escape(Java, s);
    GeneratedQuery(Java, base, s);
    UnescapeParamStart(UriDecoder, e);
    UriDecodesEscape(Java, s);
    UriViewIdentity(Java, s);
    JavaSingleParam(valid, ParamName + [Equals] + s, s);
    UnescapeShrinks(UrlDecoder, s);
  }

  /** A valid compact text that holds a `%`:
      `HAP1.hap_aaaaaaaaaaaa.m.A..1.0.a%2Eb.AAAA`, whose issuer `a.b` the
      field encoder writes as `a%2Eb`. */
  const EscapedIssuerParts: seq<Bytes> :=
    [Grammar.CompactTag, Grammar.IdPrefix + seq(12, _ => 0x61), [0x6D], [0x41], [],
     [0x31], [Zero], [0x61, Octets.Percent, 0x32, 0x45, 0x62], [0x41, 0x41, 0x41, 0x41]]

  lemma {:induction false} EscapedIssuerFields()
    ensures Grammar.CompactFields(EscapedIssuerParts)
    ensures forall i | 0 <= i < |EscapedIssuerParts| ::
              Dot !in EscapedIssuerParts[i] && Space !in EscapedIssuerParts[i] &&
              Ampersand !in EscapedIssuerParts[i]
    ensures Octets.Percent in EscapedIssuerParts[7]
  {
    var ps := EscapedIssuerParts;
    assert ps[1][..4] == Grammar.IdPrefix;
    assert forall i | 0 <= i < 4 :: ps[1][i] == Grammar.IdPrefix[i];
    assert ps[7][1] == Octets.Percent;
  }

  lemma {:induction false} EscapedIssuerCompact()
    ensures var w := Join(EscapedIssuerParts, Dot);
            Grammar.IsValidCompact(Java, w) && Octets.Percent in w && Space !in w && Ampersand !in w
  {
    var ps := EscapedIssuerParts;
    EscapedIssuerFields();
    SplitOfJoin(ps, Dot);
    InJoin(ps, Dot, Octets.Percent);
    InJoin(ps, Dot, Space);
    InJoin(ps, Dot, Ampersand);
  }
}
