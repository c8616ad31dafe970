/** Percent-escaping. Compact fields are escaped with Python's
    `quote(value, safe="")`, Go's `url.QueryEscape` or Java's `URLEncoder`,
    after which every remaining `.` is replaced by `%2E`; they are read back
    with `unquote`, `url.QueryUnescape` or `URLDecoder`. The same escapers,
    without the dot step, carry a compact text inside a verification URL. */
module Percent {
  import opened Wrappers
  import opened Octets
  import opened Sdk

  /** Bytes the platform's escaper copies unchanged: letters, digits and
      `-_.` everywhere; `~` for Python and Go, `*` instead for Java. */
  predicate Unreserved(p: Platform, b: byte)
  {
    IsAlnum(b) || b == Dash || b == Underscore || b == Dot ||
    (if p == Java then b == Star else b == Tilde)
  }

  /** One byte escaped: copied, a space as `+` (form encoding, Go and Java),
      otherwise `%` and two upper-case hex digits. */
  function EscapeByte(p: Platform, b: byte): Bytes
  {
    if Unreserved(p, b) then [b]
    else if b == Space && p != Python then [Plus]
    else [Percent, UpperHex(b as int / 16), UpperHex(b as int % 16)]
  }

  /** `quote(s, safe="")`, `url.QueryEscape(s)`, `URLEncoder.encode(s, UTF_8)`. */
  function Escape(p: Platform, s: Bytes): Bytes
  {
    if s == [] then [] else EscapeByte(p, s[0]) + Escape(p, s[1..])
  }

  /** `.replace(".", "%2E")` / `strings.ReplaceAll(…, ".", "%2E")`. */
  function ReplaceDots(t: Bytes): Bytes
  {
    if t == [] then []
    else (if t[0] == Dot then Str("%2E") else [t[0]]) + ReplaceDots(t[1..])
  }

  /** `_encode_compact_field` / `encodeCompactField` (compact.py:32-34,
      compact.go:14-17, Compact.java:33-37; Java's null is the empty text). */
  function EncodeField(p: Platform, s: Bytes): Bytes
  {
    ReplaceDots(Escape(p, s))
  }

  /** Python's `unquote`: a `%` followed by two hex digits (either case)
      becomes that byte; every other byte, a stray `%` included, is copied.
      It never fails. */
  function Unquote(t: Bytes): Bytes
    decreases |t|
  {
    if t == [] then []
    else if |t| >= 3 && t[0] == Percent && IsHexDigit(t[1]) && IsHexDigit(t[2]) then
      [(HexValue(t[1]) * 16 + HexValue(t[2])) as byte] + Unquote(t[3..])
    else [t[0]] + Unquote(t[1..])
  }

  /** The unescapers that refuse a malformed escape. */
  datatype Unescaper =
    | QueryUnescape  // Go's url.QueryUnescape: `+` is a space
    | UrlDecoder     // Java's URLDecoder.decode: `+` is a space
    | UriDecoder     // java.net.URI's decoding of a path or query: `+` stays

  /** The byte an escape's two characters stand for, if they are accepted.
      Java's URLDecoder reads them with `Integer.parseInt(…, 16)`, which also
      takes a sign: `+F` is 15 and `-0` is 0, and a negative value is refused. */
  function EscapeValue(u: Unescaper, c1: byte, c2: byte): Option<byte>
  {
    if IsHexDigit(c1) && IsHexDigit(c2) then Some((HexValue(c1) * 16 + HexValue(c2)) as byte)
    else if u == UrlDecoder && c1 == Plus && IsHexDigit(c2) then Some(HexValue(c2) as byte)
    else if u == UrlDecoder && c1 == Dash && IsHexDigit(c2) && HexValue(c2) == 0 then Some(0)
    else None
  }

  function Prepend(b: byte, r: Option<Bytes>): Option<Bytes>
  {
    match r
    case None => None
    case Some(s) => Some([b] + s)
  }

  /** A strict unescaper: None where Go returns an error or Java throws
      (a `%` without two acceptable characters after it). */
  function Unescape(u: Unescaper, t: Bytes): Option<Bytes>
    decreases |t|
  {
    if t == [] then Some([])
    else if t[0] == Percent then
      if |t| < 3 then None
      else
        match EscapeValue(u, t[1], t[2])
        case None => None
        case Some(b) => Prepend(b, Unescape(u, t[3..]))
    else if t[0] == Plus && u != UriDecoder then Prepend(Space, Unescape(u, t[1..]))
    else Prepend(t[0], Unescape(u, t[1..]))
  }

  /** `_decode_compact_field` / `decodeCompactField` (compact.py:37-39,
      compact.go:20-22, Compact.java:42-44). */
  function DecodeField(p: Platform, t: Bytes): Option<Bytes>
  {
    match p
    case Python => Some(Unquote(t))
    case Go => Unescape(QueryUnescape, t)
    case Java => Unescape(UrlDecoder, t)
  }

  // ---------------------------------------------------------------------
  // Laws

  lemma {:induction false} ReplaceDotsAppend(a: Bytes, b: Bytes)
    ensures ReplaceDots(a + b) == ReplaceDots(a) + ReplaceDots(b)
  {
    if a != [] {
      assert (a + b)[0] == a[0];
      assert (a + b)[1..] == a[1..] + b;
      ReplaceDotsAppend(a[1..], b);
    } else {
      assert a + b == b;
    }
  }

  /** Text without a dot passes the dot step unchanged. */
  lemma {:induction false} ReplaceDotsIdentity(t: Bytes)
    requires Dot !in t
    ensures ReplaceDots(t) == t
  {
    if t != [] {
      assert t[0] in t;
      assert forall i | 0 <= i < |t[1..]| :: t[1..][i] == t[i + 1];
      ReplaceDotsIdentity(t[1..]);
      assert [t[0]] + t[1..] == t;
    }
  }

  lemma {:induction false} FieldOfByte(p: Platform, b: byte)
    ensures EncodeField(p, [b]) == ReplaceDots(EscapeByte(p, b))
  {
    assert [b] + [] == [b];
    EncodeFieldCons(p, b, []);
  }

  lemma {:induction false} EncodeFieldCons(p: Platform, b: byte, s: Bytes)
    ensures EncodeField(p, [b] + s) == ReplaceDots(EscapeByte(p, b)) + EncodeField(p, s)
  {
    assert ([b] + s)[1..] == s;
    ReplaceDotsAppend(EscapeByte(p, b), Escape(p, s));
  }

  /** The escape of one byte, after the dot step, holds no `.`. */
  lemma {:induction false} ByteHasNoDot(p: Platform, b: byte)
    ensures Dot !in ReplaceDots(EscapeByte(p, b))
  {
    var e := EscapeByte(p, b);
    if b == Dot {
      assert e == [Dot];
      assert e[1..] == [];
      assert ReplaceDots(e) == Str("%2E");
    } else {
      ReplaceDotsIdentity(e);
    }
  }

  /** An escaped field never contains the separator `.`. */
  lemma {:induction false} EncodedFieldHasNoDot(p: Platform, s: Bytes)
    ensures Dot !in EncodeField(p, s)
  {
    if s != [] {
      assert s == [s[0]] + s[1..];
      EncodeFieldCons(p, s[0], s[1..]);
      ByteHasNoDot(p, s[0]);
      EncodedFieldHasNoDot(p, s[1..]);
    }
  }

  /** An escaped field is empty exactly when the value is. */
  lemma {:induction false} EncodedFieldEmpty(p: Platform, s: Bytes)
    ensures EncodeField(p, s) == [] <==> s == []
  {
    if s != [] {
      assert s == [s[0]] + s[1..];
      EncodeFieldCons(p, s[0], s[1..]);
      assert |EscapeByte(p, s[0])| >= 1;
      assert |ReplaceDots(EscapeByte(p, s[0]))| >= 1;
    }
  }

  lemma {:induction false} PercentTripleDecodes(p: Platform, b: byte, rest: Bytes)
    ensures DecodeField(p, [Percent, UpperHex(b as int / 16), UpperHex(b as int % 16)] + rest)
         == Prepend(b, DecodeField(p, rest))
  {
    var t := [Percent, UpperHex(b as int / 16), UpperHex(b as int % 16)] + rest;
    assert t[3..] == rest;
    assert HexValue(t[1]) * 16 + HexValue(t[2]) == b as int;
  }

  lemma {:induction false} PlainByteDecodes(p: Platform, b: byte, rest: Bytes)
    requires b != Percent && b != Plus
    ensures DecodeField(p, [b] + rest) == Prepend(b, DecodeField(p, rest))
  {
    assert ([b] + rest)[1..] == rest;
  }

  /** Decoding undoes the escape of one byte, whatever follows it. */
  lemma {:induction false} EscapedByteDecodes(p: Platform, b: byte, rest: Bytes)
    ensures DecodeField(p, EscapeByte(p, b) + rest) == Prepend(b, DecodeField(p, rest))
  {
    if Unreserved(p, b) {
      PlainByteDecodes(p, b, rest);
    } else if b == Space && p != Python {
      assert ([Plus] + rest)[1..] == rest;
    } else {
      PercentTripleDecodes(p, b, rest);
    }
  }

  /** Decoding undoes the escape of one byte followed by the dot step. */
  lemma {:induction false} FieldByteDecodes(p: Platform, b: byte, rest: Bytes)
    ensures DecodeField(p, ReplaceDots(EscapeByte(p, b)) + rest) == Prepend(b, DecodeField(p, rest))
  {
    var e := EscapeByte(p, b);
    if b == Dot {
      assert e == [Dot];
      assert e[1..] == [];
      assert ReplaceDots(e) == Str("%2E") + ReplaceDots([]);
      assert Str("%2E") == [Percent, UpperHex(b as int / 16), UpperHex(b as int % 16)];
      PercentTripleDecodes(p, b, rest);
    } else {
      ReplaceDotsIdentity(e);
      EscapedByteDecodes(p, b, rest);
    }
  }

  /** `_decode_compact_field(_encode_compact_field(s)) == s`, on every platform. */
  lemma {:induction false} DecodeEncodedField(p: Platform, s: Bytes)
    ensures DecodeField(p, EncodeField(p, s)) == Some(s)
  {
    if s != [] {
      assert s == [s[0]] + s[1..];
      EncodeFieldCons(p, s[0], s[1..]);
      FieldByteDecodes(p, s[0], EncodeField(p, s[1..]));
      DecodeEncodedField(p, s[1..]);
    }
  }

  /** The escaper without the dot step is undone by the same decoder: the law
      the verification URL's `c` parameter relies on. */
  lemma {:induction false} DecodeEscaped(p: Platform, s: Bytes)
    ensures DecodeField(p, Escape(p, s)) == Some(s)
  {
    if s != [] {
      EscapedByteDecodes(p, s[0], Escape(p, s[1..]));
      DecodeEscaped(p, s[1..]);
      assert [s[0]] + s[1..] == s;
    }
  }

  /** The escaper's output uses only unreserved bytes, `%` and (form
      encoding) `+`; in particular no `&`, `=` or space survives. Every `%`
      starts an escape: two upper-case hex digits follow it. */
  lemma {:induction false} EscapedAlphabet(p: Platform, s: Bytes)
    ensures forall i | 0 <= i < |Escape(p, s)| ::
      var c := Escape(p, s)[i];
      Unreserved(p, c) || c == Percent || (c == Plus && p != Python)
    ensures forall i | 0 <= i < |Escape(p, s)| && Escape(p, s)[i] == Percent ::
      i + 2 < |Escape(p, s)| && IsUpperHexDigit(Escape(p, s)[i + 1]) && IsUpperHexDigit(Escape(p, s)[i + 2])
  {
    if s != [] {
      EscapedAlphabet(p, s[1..]);
      var e, t := EscapeByte(p, s[0]), Escape(p, s[1..]);
      assert Escape(p, s) == e + t;
      forall i | 0 <= i < |e + t|
        ensures var c := (e + t)[i];
                Unreserved(p, c) || c == Percent || (c == Plus && p != Python)
        ensures (e + t)[i] == Percent ==>
                  i + 2 < |e + t| && IsUpperHexDigit((e + t)[i + 1]) && IsUpperHexDigit((e + t)[i + 2])
      {
        if i >= |e| {
          assert (e + t)[i] == t[i - |e|];
          if t[i - |e|] == Percent {
            assert (e + t)[i + 1] == t[i - |e| + 1] && (e + t)[i + 2] == t[i - |e| + 2];
          }
        }
      }
    }
  }

  // ---------------------------------------------------------------------
  // Where the platforms differ

  /** A space: `%20` from Python, `+` from Go and Java. */
  lemma {:induction false} SpaceEscapes()
    ensures EncodeField(Python, [Space]) == Str("%20")
    ensures EncodeField(Go, [Space]) == [Plus] && EncodeField(Java, [Space]) == [Plus]
  {
    var e := [Percent, UpperHex(2), UpperHex(0)];
    assert !Unreserved(Python, Space);
    assert EscapeByte(Python, Space) == e;
    FieldOfByte(Python, Space);
    ReplaceDotsIdentity(e);
    assert Str("%20") == e;
    assert EscapeByte(Go, Space) == [Plus] && EscapeByte(Java, Space) == [Plus];
    FieldOfByte(Go, Space);
    FieldOfByte(Java, Space);
    ReplaceDotsIdentity([Plus]);
  }

  /** Python's `unquote` does not read `+` as a space, so a space escaped by
      Go or Java comes back from Python as `+`. */
  lemma {:induction false} PythonReadsFormSpaceAsPlus()
    ensures DecodeField(Python, EncodeField(Go, [Space])) == Some([Plus])
    ensures DecodeField(Python, EncodeField(Java, [Space])) == Some([Plus])
  {
    SpaceEscapes();
    assert [Plus][1..] == [];
    assert Unquote([Plus]) == [Plus] + Unquote([]);
  }

  /** Java escapes `~`, which Python and Go keep. */
  lemma {:induction false} TildeEscapes()
    ensures EncodeField(Java, [Tilde]) == Str("%7E")
    ensures EncodeField(Python, [Tilde]) == [Tilde] && EncodeField(Go, [Tilde]) == [Tilde]
  {
    var e := [Percent, UpperHex(7), UpperHex(14)];
    assert !Unreserved(Java, Tilde);
    assert EscapeByte(Java, Tilde) == e;
    FieldOfByte(Java, Tilde);
    ReplaceDotsIdentity(e);
    assert Str("%7E") == e;
    FieldOfByte(Python, Tilde);
    FieldOfByte(Go, Tilde);
    ReplaceDotsIdentity([Tilde]);
  }

  /** Java keeps `*`, which Python and Go escape. */
  lemma {:induction false} StarEscapes()
    ensures EncodeField(Java, [Star]) == [Star]
    ensures EncodeField(Python, [Star]) == Str("%2A") && EncodeField(Go, [Star]) == Str("%2A")
  {
    FieldOfByte(Java, Star);
    ReplaceDotsIdentity([Star]);
    var e := [Percent, UpperHex(2), UpperHex(10)];
    assert !Unreserved(Python, Star) && !Unreserved(Go, Star);
    assert EscapeByte(Python, Star) == e && EscapeByte(Go, Star) == e;
    FieldOfByte(Python, Star);
    FieldOfByte(Go, Star);
    ReplaceDotsIdentity(e);
    assert Str("%2A") == e;
  }

  /** A malformed escape: Python copies it, Go and Java refuse it. */
  lemma {:induction false} MalformedEscape()
    ensures DecodeField(Python, [Percent]) == Some([Percent])
    ensures DecodeField(Go, [Percent]) == None && DecodeField(Java, [Percent]) == None
  {
    assert [Percent][1..] == [];
    assert Unquote([Percent]) == [Percent] + Unquote([]);
    assert [Percent] + [] == [Percent];
  }

  /** Java's URLDecoder accepts a signed escape that Go refuses. */
  lemma {:induction false} SignedEscape()
    ensures DecodeField(Java, Str("%+1")) == Some([1])
    ensures DecodeField(Go, Str("%+1")) == None
  {
    var t := Str("%+1");
    assert t == [Percent, Plus, 0x31];
    assert t[3..] == [];
    assert EscapeValue(UrlDecoder, Plus, 0x31) == Some(1);
    var one: byte := 1;
    assert [one] + [] == [one];
    assert Unescape(UrlDecoder, t) == Prepend(one, Unescape(UrlDecoder, []));
  }
}
