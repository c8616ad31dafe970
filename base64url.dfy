/** Unpadded base64url (RFC 4648, section 5): the encoding of signatures in the
    compact format and of the `x` member of an Ed25519 JWK, with the decoder
    each platform applies to it. */
module Base64Url {
  import opened Wrappers
  import opened Octets
  import opened Sdk

  // ---------------------------------------------------------------------
  // The alphabet

  /** The url-safe alphabet `A-Z a-z 0-9 - _`. */
  predicate IsSymbol(c: byte)
  {
    IsAlnum(c) || c == Dash || c == Underscore
  }

  predicate AllSymbols(t: Bytes)
  {
    forall i | 0 <= i < |t| :: IsSymbol(t[i])
  }

  lemma {:induction false} SymbolsHaveNoDot(t: Bytes)
    requires AllSymbols(t)
    ensures Dot !in t && Newline !in t
  {
    forall i | 0 <= i < |t| ensures t[i] != Dot && t[i] != Newline {
      assert IsSymbol(t[i]);
    }
  }

  function Symbol(n: nat): (c: byte)
    requires n < 64
    ensures IsSymbol(c) && SymbolValue(c) == n
  {
    if n < 26 then (0x41 + n) as byte
    else if n < 52 then (0x61 + n - 26) as byte
    else if n < 62 then (0x30 + n - 52) as byte
    else if n == 62 then Dash
    else Underscore
  }

  function SymbolValue(c: byte): (n: nat)
    requires IsSymbol(c)
    ensures n < 64
  {
    if IsUpper(c) then c as int - 0x41
    else if IsLower(c) then c as int - 0x61 + 26
    else if IsDigit(c) then c as int - 0x30 + 52
    else if c == Dash then 62
    else 63
  }

  /** The url-safe alphabet or the standard one's `+` and `/`: Python's
      url-safe decoder maps `-` and `_` onto those before it decodes, so it
      reads both spellings, and so does Nimbus. */
  predicate IsAnySymbol(c: byte)
  {
    IsSymbol(c) || c == Plus || c == Slash
  }

  function AnyValue(c: byte): (n: nat)
    requires IsAnySymbol(c)
    ensures n < 64 && (IsSymbol(c) ==> n == SymbolValue(c))
  {
    if c == Plus then 62 else if c == Slash then 63 else SymbolValue(c)
  }

  // ---------------------------------------------------------------------
  // Encoding and the strict reader

  /** `urlsafe_b64encode(…).rstrip("=")`, `RawURLEncoding.EncodeToString`,
      `getUrlEncoder().withoutPadding()`: three bytes become four symbols; a
      final one or two bytes become two or three. */
  function Encode(b: Bytes): (t: Bytes)
    ensures AllSymbols(t)
    ensures |t| == (4 * |b| + 2) / 3
    decreases |b|
  {
    if |b| == 0 then []
    else if |b| == 1 then
      [Symbol(b[0] as int / 4), Symbol(b[0] as int % 4 * 16)]
    else if |b| == 2 then
      [Symbol(b[0] as int / 4), Symbol(b[0] as int % 4 * 16 + b[1] as int / 16),
       Symbol(b[1] as int % 16 * 4)]
    else
      [Symbol(b[0] as int / 4), Symbol(b[0] as int % 4 * 16 + b[1] as int / 16),
       Symbol(b[1] as int % 16 * 4 + b[2] as int / 64), Symbol(b[2] as int % 64)]
      + Encode(b[3..])
  }

  /** The byte completed by the bits `left` carried over and the next
      symbol's value `v`, at the three places of a group of four that
      complete one; bits beyond the byte are dropped. */
  function Bits0(left: nat, v: nat): byte
  {
    ((left * 4 + v / 16) % 256) as byte
  }

  function Bits1(left: nat, v: nat): byte
  {
    ((left * 16 + v / 4) % 256) as byte
  }

  function Bits2(left: nat, v: nat): byte
  {
    ((left * 64 + v) % 256) as byte
  }

  /** The bytes a run of symbols carries, read four symbols at a time: a
      final two or three symbols carry one or two bytes, a final lone symbol
      none, and bits left over after the last whole byte are ignored. */
  function Unpack(u: Bytes): (b: Bytes)
    requires forall i | 0 <= i < |u| :: IsAnySymbol(u[i])
    ensures |b| == |u| * 3 / 4
    decreases |u|
  {
    if |u| < 2 then []
    else
      var b0 := Bits0(AnyValue(u[0]), AnyValue(u[1]));
      if |u| == 2 then [b0]
      else
        var b1 := Bits1(AnyValue(u[1]) % 16, AnyValue(u[2]));
        if |u| == 3 then [b0, b1]
        else
          assert forall i | 0 <= i < |u| - 4 :: u[4..][i] == u[i + 4];
          [b0, b1, Bits2(AnyValue(u[2]) % 4, AnyValue(u[3]))] + Unpack(u[4..])
  }

  /** The strict reader: text of the url-safe alphabet only, and not a
      length that leaves one symbol over. On such text every platform's
      decoder gives what it gives (`DecodersAgree`). */
  function Decode(t: Bytes): Option<Bytes>
  {
    if |t| % 4 == 1 || !AllSymbols(t) then None
    else
      assert forall i | 0 <= i < |t| :: IsAnySymbol(t[i]);
      Some(Unpack(t))
  }

  /** Decoding undoes encoding. */
  lemma {:induction false} DecodeEncode(b: Bytes)
    ensures Decode(Encode(b)) == Some(b)
  {
    EncodedLength(|b|);
    UnpackEncode(b);
  }

  lemma {:induction false} EncodedLength(n: nat)
    ensures (4 * n + 2) / 3 % 4 != 1
  {
    if n >= 3 {
      EncodedLength(n - 3);
      assert (4 * n + 2) / 3 == (4 * (n - 3) + 2) / 3 + 4;
    }
  }

  lemma {:induction false} UnpackEncode(b: Bytes)
    ensures Unpack(Encode(b)) == b
    decreases |b|
  {
    if |b| == 1 {
      UnpackEncodeShort(b);
    } else if |b| == 2 {
      UnpackEncodeShort(b);
    } else if |b| >= 3 {
      UnpackEncode(b[3..]);
      UnpackEncodeGroup(b);
    }
  }

  /** A final one or two bytes come back from their two or three symbols. */
  lemma {:induction false} UnpackEncodeShort(b: Bytes)
    requires 1 <= |b| <= 2
    ensures Unpack(Encode(b)) == b
  {
    var x := b[0] as int;
    if |b| == 1 {
      var t := [Symbol(x / 4), Symbol(x % 4 * 16)];
      assert Encode(b) == t;
      Bits0Of(x, 0);
      assert Unpack(t) == [Bits0(x / 4, x % 4 * 16)];
      assert b == [b[0]];
    } else {
      var y := b[1] as int;
      var t := [Symbol(x / 4), Symbol(x % 4 * 16 + y / 16), Symbol(y % 16 * 4)];
      assert Encode(b) == t;
      Bits0Of(x, y);
      Bits1Of(x, y, 0);
      assert Unpack(t) == [Bits0(x / 4, x % 4 * 16 + y / 16), Bits1((x % 4 * 16 + y / 16) % 16, y % 16 * 4)];
      assert b == [b[0], b[1]];
    }
  }


  /** Three bytes come back from their four symbols, ahead of the rest. */
  lemma {:induction false} UnpackEncodeGroup(b: Bytes)
    requires |b| >= 3 && Unpack(Encode(b[3..])) == b[3..]
    ensures Unpack(Encode(b)) == b
  {
    var x, y, z := b[0] as int, b[1] as int, b[2] as int;
    var g := [Symbol(x / 4), Symbol(x % 4 * 16 + y / 16), Symbol(y % 16 * 4 + z / 64), Symbol(z % 64)];
    var rest := Encode(b[3..]);
    assert Encode(b) == g + rest;
    UnpackFour(g, rest);
    Bits0Of(x, y);
    Bits1Of(x, y, z);
    Bits2Of(y, z);
    assert b == [b[0], b[1], b[2]] + b[3..];
  }

  /** `Unpack` on one group of four symbols and more after it. */
  lemma {:induction false} UnpackFour(g: Bytes, rest: Bytes)
    requires |g| == 4 && AllSymbols(g) && AllSymbols(rest)
    ensures forall i | 0 <= i < |rest| :: IsAnySymbol(rest[i])
    ensures forall i | 0 <= i < |g + rest| :: IsAnySymbol((g + rest)[i])
    ensures Unpack(g + rest) ==
      [Bits0(SymbolValue(g[0]), SymbolValue(g[1])), Bits1(SymbolValue(g[1]) % 16, SymbolValue(g[2])),
       Bits2(SymbolValue(g[2]) % 4, SymbolValue(g[3]))] + Unpack(rest)
  {
    SymbolsAreAny(g);
    SymbolsAreAny(rest);
    AnyJoin(g, rest);
    var s := g + rest;
    assert s[0] == g[0] && s[1] == g[1] && s[2] == g[2] && s[3] == g[3];
    assert s[4..] == rest;
  }



  /** The three bytes of a group, read back from the values `Encode` gave
      its symbols. */
  lemma {:induction false} Bits0Of(x: nat, y: nat)
    requires x < 256 && y < 256
    ensures Bits0(x / 4, x % 4 * 16 + y / 16) as int == x
  {
    assert (x % 4 * 16 + y / 16) / 16 == x % 4;
  }

  lemma {:induction false} Bits1Of(x: nat, y: nat, z: nat)
    requires x < 256 && y < 256 && z < 256
    ensures Bits1((x % 4 * 16 + y / 16) % 16, y % 16 * 4 + z / 64) as int == y
  {
    assert (x % 4 * 16 + y / 16) % 16 == y / 16;
    assert (y % 16 * 4 + z / 64) / 4 == y % 16;
  }

  lemma {:induction false} Bits2Of(y: nat, z: nat)
    requires y < 256 && z < 256
    ensures Bits2((y % 16 * 4 + z / 64) % 4, z % 64) as int == z
  {
    assert (y % 16 * 4 + z / 64) % 4 == z / 64;
  }

  /** An Ed25519 public key of 32 bytes is written as 43 symbols. */
  lemma {:induction false} KeyLength(b: Bytes)
    requires |b| == 32
    ensures |Encode(b)| == 43
  {
  }

  /** Python restores the padding before decoding: `4 - len % 4` `=` signs
      unless that is four. */
  function Padding(n: nat): (k: nat)
    ensures k < 4 && (n + k) % 4 == 0
  {
    if 4 - n % 4 != 4 then 4 - n % 4 else 0
  }

  /** The length arithmetic of splitting whole groups off a text. */
  lemma {:induction false} GroupArith(m: nat)
    ensures (m - m % 4) % 4 == 0
    ensures Padding(m) == Padding(m % 4) && Padding(m + 1) == Padding(m % 4 + 1)
    ensures Padding(m) == 3 <==> m % 4 == 1
    ensures Padding(m + 1) == 3 <==> m % 4 == 0
  {
  }

  /** Three padding signs are exactly the length every platform's decoder
      refuses on text of the alphabet. A trailing newline, which only
      Python's regex lets through, turns this around: Python then decodes
      exactly the lengths that get three padding signs. */
  lemma {:induction false} PaddingThreeRejected(p: Platform, t: Bytes)
    ensures Padding(|t|) == 3 <==> |t| % 4 == 1
    ensures AllSymbols(t) ==> (DecodeText(p, t).None? <==> Padding(|t|) == 3)
    ensures AllSymbols(t) ==> (PythonDecode(t + [Newline]).Some? <==> Padding(|t| + 1) == 3)
  {
    GroupArith(|t|);
    if AllSymbols(t) {
      DecodersAgree(p, t);
      PythonDecodeNewline(t);
    }
  }

  // ---------------------------------------------------------------------
  // The platforms' decoders

  /** Bytes written in front of a decoder's further output. */
  function Prefix(b: Bytes, r: Option<Bytes>): Option<Bytes>
  {
    match r
    case None => None
    case Some(rest) => Some(b + rest)
  }

  /** Where CPython's `binascii.a2b_base64` stands inside a group of four
      symbols: `q` symbols read, `pads` padding signs counted towards
      closing the group, `left` the bits not yet written. */
  datatype Quad = Quad(q: nat, pads: nat, left: nat)

  const Start := Quad(0, 0, 0)

  datatype Step = Stop | Next(out: Bytes, after: Quad)

  /** One byte read by `a2b_base64` in its default, lenient mode. A byte
      outside the alphabet is skipped; padding counts only after a group's
      second symbol, and ends the input once it fills the group; a symbol
      completes a byte from its second place in a group on. */
  function Read(st: Quad, c: byte): Step
  {
    if c == Equals then
      if st.q >= 2 && st.q + st.pads + 1 >= 4 then Stop
      else Next([], st.(pads := if st.q >= 2 then st.pads + 1 else st.pads))
    else if !IsAnySymbol(c) then Next([], st)
    else
      var v := AnyValue(c);
      if st.q == 0 then Next([], Quad(1, 0, v))
      else if st.q == 1 then Next([Bits0(st.left, v)], Quad(2, 0, v % 16))
      else if st.q == 2 then Next([Bits1(st.left, v)], Quad(3, 0, v % 4))
      else Next([Bits2(st.left, v)], Start)
  }

  /** `a2b_base64` on the rest of its input; a group left open at the end
      is an error. */
  function A2b(t: Bytes, st: Quad): Option<Bytes>
    decreases |t|
  {
    if t == [] then (if st.q == 0 then Some([]) else None)
    else
      match Read(st, t[0])
      case Stop => Some([])
      case Next(out, after) => Prefix(out, A2b(t[1..], after))
  }

  function Pads(k: nat): (r: Bytes)
    ensures |r| == k && forall i | 0 <= i < k :: r[i] == Equals
  {
    seq(k, _ => Equals)
  }

  predicate AllAscii(t: Bytes)
  {
    forall i | 0 <= i < |t| :: t[i] < 0x80
  }

  /** `_base64url_decode` (compact.py, hap-python's verify.py): `=` signs
      added up to a multiple of four, then `urlsafe_b64decode`, which
      refuses text that is not ASCII and otherwise reads it with `A2b`. */
  function PythonDecode(t: Bytes): Option<Bytes>
  {
    if !AllAscii(t) then None else A2b(t + Pads(Padding(|t|)), Start)
  }

  /** `base64.RawURLEncoding.DecodeString`: carriage returns and line feeds
      are skipped; every other byte must be of the url-safe alphabet, and
      padding is refused. */
  function GoDecode(t: Bytes): Option<Bytes>
  {
    Decode(DropLineBreaks(t))
  }

  function DropLineBreaks(t: Bytes): Bytes
    decreases |t|
  {
    if t == [] then []
    else if t[0] == Newline || t[0] == Return then DropLineBreaks(t[1..])
    else [t[0]] + DropLineBreaks(t[1..])
  }

  /** `Base64.getUrlDecoder().decode` (java.util): the url-safe alphabet
      only; a last group of two or three symbols may be filled up to four
      with `==` or `=`, and any other `=` is refused. */
  function JavaDecode(t: Bytes): Option<Bytes>
  {
    if |t| >= 2 && |t| % 4 == 0 && t[|t| - 1] == Equals then
      if t[|t| - 2] == Equals then Decode(t[..|t| - 2]) else Decode(t[..|t| - 1])
    else Decode(t)
  }

  /** Nimbus's `Base64URL.decode`: bytes outside both alphabets (padding
      included) are skipped and the rest is unpacked, a last lone symbol
      dropped; it never fails. */
  function NimbusDecode(t: Bytes): Bytes
  {
    Unpack(KeepSymbols(t))
  }

  function KeepSymbols(t: Bytes): (u: Bytes)
    ensures forall i | 0 <= i < |u| :: IsAnySymbol(u[i])
    decreases |t|
  {
    if t == [] then []
    else if IsAnySymbol(t[0]) then [t[0]] + KeepSymbols(t[1..])
    else KeepSymbols(t[1..])
  }

  /** The decoder each platform applies to a signature: Python's
      `_base64url_decode`, Go's `RawURLEncoding`, java.util's url decoder. */
  function DecodeText(p: Platform, t: Bytes): Option<Bytes>
  {
    match p
    case Python => PythonDecode(t)
    case Go => GoDecode(t)
    case Java => JavaDecode(t)
  }

  /** The decoder each platform applies to a JWK's `x`; Java's is Nimbus. */
  function DecodeKey(p: Platform, t: Bytes): Option<Bytes>
  {
    if p == Java then Some(NimbusDecode(t)) else DecodeText(p, t)
  }

  // ---------------------------------------------------------------------
  // How the decoders agree and differ

  /** On text of the url-safe alphabet every platform's signature decoder is
      the strict reader, and so is its key decoder unless one symbol is left
      over (Nimbus then drops it where the others fail). */
  lemma {:induction false} DecodersAgree(p: Platform, t: Bytes)
    requires AllSymbols(t)
    ensures DecodeText(p, t) == Decode(t)
    ensures |t| % 4 != 1 ==> DecodeKey(p, t) == Decode(t)
  {
    match p
    case Python => PythonDecodeSymbols(t);
    case Go => DropLineBreaksOfSymbols(t);
    case Java =>
      JavaDecodeSymbols(t);
      KeepSymbolsOfSymbols(t);
  }

  lemma {:induction false} JavaDecodeSymbols(t: Bytes)
    requires AllSymbols(t)
    ensures JavaDecode(t) == Decode(t)
  {
    if |t| >= 2 {
      assert IsSymbol(t[|t| - 1]);
    }
  }

  /** Python's reader on text of the alphabet. */
  lemma {:induction false} PythonDecodeSymbols(t: Bytes)
    requires AllSymbols(t)
    ensures PythonDecode(t) == Decode(t)
  {
    var n := |t| - |t| % 4;
    var a, r := t[..n], t[n..];
    GroupArith(|t|);
    SymbolsSplit(t, n);
    var pads := Pads(Padding(|t|));
    assert PythonDecode(t) == A2b(a + (r + pads), Start) by {
      SymbolsAreAscii(t);
      assert t + pads == a + (r + pads);
    }
    SymbolsAreAny(a);
    var ua := Unpack(a);
    assert A2b(a + (r + pads), Start) == Prefix(ua, Decode(r)) by {
      A2bGroups(a, r + pads);
      A2bShort(r);
    }
    assert Decode(t) == Prefix(ua, Decode(r)) by {
      DecodeGroups(a, r);
      assert t == a + r;
    }
  }

  /** Python's reader on text of the alphabet followed by a newline: the
      newline is skipped, and the padding added for it closes the text only
      when the symbols fill whole groups. */
  lemma {:induction false} PythonDecodeNewline(t: Bytes)
    requires AllSymbols(t)
    ensures PythonDecode(t + [Newline]) == if |t| % 4 == 0 then Decode(t) else None
  {
    var n := |t| - |t| % 4;
    var a, r := t[..n], t[n..];
    GroupArith(|t|);
    SymbolsSplit(t, n);
    var pads := Pads(Padding(|t| + 1));
    assert PythonDecode(t + [Newline]) == A2b(a + (r + [Newline] + pads), Start) by {
      assert (t + [Newline])[..|t|] == t;
      SymbolsAscii(t + [Newline]);
      assert t + [Newline] + pads == a + (r + [Newline] + pads);
    }
    SymbolsAreAny(a);
    var ua := Unpack(a);
    assert A2b(a + (r + [Newline] + pads), Start) == Prefix(ua, if r == [] then Some([]) else None) by {
      A2bGroups(a, r + [Newline] + pads);
      A2bShortNewline(r);
    }
    if |t| % 4 == 0 {
      assert a == t;
      assert ua + [] == ua;
    }
  }

  lemma {:induction false} PrefixEmpty(r: Option<Bytes>)
    ensures Prefix([], r) == r
  {
    if r.Some? {
      assert [] + r.value == r.value;
    }
  }

  lemma {:induction false} PrefixPrefix(x: Bytes, y: Bytes, r: Option<Bytes>)
    ensures Prefix(x, Prefix(y, r)) == Prefix(x + y, r)
  {
    if r.Some? {
      assert x + (y + r.value) == x + y + r.value;
    }
  }

  lemma {:induction false} SymbolsSplit(t: Bytes, n: nat)
    requires AllSymbols(t) && n <= |t|
    ensures AllSymbols(t[..n]) && AllSymbols(t[n..])
  {
    assert forall i | 0 <= i < n :: t[..n][i] == t[i];
    assert forall i | 0 <= i < |t| - n :: t[n..][i] == t[n + i];
  }

  lemma {:induction false} SymbolsJoin(a: Bytes, r: Bytes)
    requires AllSymbols(a)
    ensures AllSymbols(a + r) <==> AllSymbols(r)
  {
    if AllSymbols(r) {
      forall i | 0 <= i < |a + r| ensures IsSymbol((a + r)[i]) {
        if i >= |a| {
          assert (a + r)[i] == r[i - |a|];
        }
      }
    }
    if AllSymbols(a + r) {
      forall i | 0 <= i < |r| ensures IsSymbol(r[i]) {
        assert (a + r)[|a| + i] == r[i];
      }
    }
  }

  lemma {:induction false} SymbolsAreAny(t: Bytes)
    ensures AllSymbols(t) ==> forall i | 0 <= i < |t| :: IsAnySymbol(t[i])
  {
  }

  lemma {:induction false} SymbolsAreAscii(t: Bytes)
    requires AllSymbols(t)
    ensures AllAscii(t)
  {
    forall i | 0 <= i < |t| ensures t[i] < 0x80 {
      assert IsSymbol(t[i]);
    }
  }

  lemma {:induction false} SymbolsAscii(t: Bytes)
    requires |t| > 0 && AllSymbols(t[..|t| - 1]) && t[|t| - 1] == Newline
    ensures AllAscii(t)
  {
    SymbolsAreAscii(t[..|t| - 1]);
    forall i | 0 <= i < |t| ensures t[i] < 0x80 {
      if i < |t| - 1 {
        assert t[i] == t[..|t| - 1][i];
      }
    }
  }

  /** `Unpack` on whole groups followed by more symbols. */
  lemma {:induction false} UnpackGroups(a: Bytes, r: Bytes)
    requires |a| % 4 == 0
    requires forall i | 0 <= i < |a| :: IsAnySymbol(a[i])
    requires forall i | 0 <= i < |r| :: IsAnySymbol(r[i])
    ensures forall i | 0 <= i < |a + r| :: IsAnySymbol((a + r)[i])
    ensures Unpack(a + r) == Unpack(a) + Unpack(r)
    decreases |a|
  {
    AnyJoin(a, r);
    if |a| == 0 {
      assert a + r == r;
    } else {
      AnyDrop(a, 4);
      GroupsDrop(|a|);
      UnpackGroups(a[4..], r);
      UnpackGroupStep(a, r);
    }
  }

  /** `UnpackGroups`, one group further. */
  lemma {:induction false} UnpackGroupStep(a: Bytes, r: Bytes)
    requires |a| >= 4
    requires forall i | 0 <= i < |a| :: IsAnySymbol(a[i])
    requires forall i | 0 <= i < |a| - 4 :: IsAnySymbol(a[4..][i])
    requires forall i | 0 <= i < |r| :: IsAnySymbol(r[i])
    requires forall i | 0 <= i < |a + r| :: IsAnySymbol((a + r)[i])
    requires forall i | 0 <= i < |a[4..] + r| :: IsAnySymbol((a[4..] + r)[i])
    requires Unpack(a[4..] + r) == Unpack(a[4..]) + Unpack(r)
    ensures Unpack(a + r) == Unpack(a) + Unpack(r)
  {
    var s := a + r;
    assert s[..4] == a[..4] && s[4..] == a[4..] + r by {
      SplitJoin(a, r, 4);
    }
    UnpackStep(s);
    UnpackStep(a);
    Associative(Unpack(a[..4]), Unpack(a[4..]), Unpack(r));
  }

  lemma {:induction false} Associative(x: Bytes, y: Bytes, z: Bytes)
    ensures x + (y + z) == x + y + z
  {
  }


  lemma {:induction false} GroupsDrop(n: nat)
    requires n % 4 == 0 && n > 0
    ensures n >= 4 && (n - 4) % 4 == 0
  {
  }

  /** One group off the front of a run of symbols. */
  lemma {:induction false} UnpackStep(u: Bytes)
    requires |u| >= 4 && forall i | 0 <= i < |u| :: IsAnySymbol(u[i])
    ensures forall i | 0 <= i < 4 :: IsAnySymbol(u[..4][i])
    ensures forall i | 0 <= i < |u| - 4 :: IsAnySymbol(u[4..][i])
    ensures Unpack(u) == Unpack(u[..4]) + Unpack(u[4..])
  {
    var g := u[..4];
    assert g[0] == u[0] && g[1] == u[1] && g[2] == u[2] && g[3] == u[3];
    assert g[4..] == [];
  }

  lemma {:induction false} AnyJoin(a: Bytes, r: Bytes)
    requires forall i | 0 <= i < |a| :: IsAnySymbol(a[i])
    requires forall i | 0 <= i < |r| :: IsAnySymbol(r[i])
    ensures forall i | 0 <= i < |a + r| :: IsAnySymbol((a + r)[i])
  {
    forall i | 0 <= i < |a + r| ensures IsAnySymbol((a + r)[i]) {
      if i >= |a| {
        assert (a + r)[i] == r[i - |a|];
      }
    }
  }

  lemma {:induction false} AnyDrop(a: Bytes, k: nat)
    requires k <= |a| && forall i | 0 <= i < |a| :: IsAnySymbol(a[i])
    ensures forall i | 0 <= i < |a| - k :: IsAnySymbol(a[k..][i])
  {
    forall i | 0 <= i < |a| - k ensures IsAnySymbol(a[k..][i]) {
      assert a[k..][i] == a[i + k];
    }
  }

  /** The strict reader on whole groups followed by more text. */
  lemma {:induction false} DecodeGroups(a: Bytes, r: Bytes)
    requires AllSymbols(a) && |a| % 4 == 0
    ensures forall i | 0 <= i < |a| :: IsAnySymbol(a[i])
    ensures Decode(a) == Some(Unpack(a))
    ensures Decode(a + r) == Prefix(Unpack(a), Decode(r))
  {
    SymbolsJoin(a, r);
    assert |a + r| % 4 == |r| % 4;
    if AllSymbols(r) {
      UnpackGroups(a, r);
    }
  }

  /** `A2b`, one byte at a time. */
  lemma {:induction false} A2bCons(c: byte, u: Bytes, st: Quad)
    ensures var step := Read(st, c);
            A2b([c] + u, st) == if step.Stop? then Some([]) else Prefix(step.out, A2b(u, step.after))
  {
    assert ([c] + u)[1..] == u;
  }

  /** The first two symbols of a group write its first byte. */
  lemma {:induction false} A2bPair(c0: byte, c1: byte, u: Bytes)
    requires IsSymbol(c0) && IsSymbol(c1)
    ensures A2b([c0] + ([c1] + u), Start)
         == Prefix([Bits0(AnyValue(c0), AnyValue(c1))], A2b(u, Quad(2, 0, AnyValue(c1) % 16)))
  {
    var v0 := AnyValue(c0);
    assert Read(Start, c0) == Next([], Quad(1, 0, v0));
    A2bCons(c0, [c1] + u, Start);
    PrefixEmpty(A2b([c1] + u, Quad(1, 0, v0)));
    A2bCons(c1, u, Quad(1, 0, v0));
  }

  /** The first three symbols of a group write its first two bytes. */
  lemma {:induction false} A2bTriple(c0: byte, c1: byte, c2: byte, u: Bytes)
    requires IsSymbol(c0) && IsSymbol(c1) && IsSymbol(c2)
    ensures A2b([c0] + ([c1] + ([c2] + u)), Start)
         == Prefix([Bits0(AnyValue(c0), AnyValue(c1)), Bits1(AnyValue(c1) % 16, AnyValue(c2))],
                   A2b(u, Quad(3, 0, AnyValue(c2) % 4)))
  {
    var b0, b1 := Bits0(AnyValue(c0), AnyValue(c1)), Bits1(AnyValue(c1) % 16, AnyValue(c2));
    var r := A2b(u, Quad(3, 0, AnyValue(c2) % 4));
    A2bPair(c0, c1, [c2] + u);
    A2bCons(c2, u, Quad(2, 0, AnyValue(c1) % 16));
    PrefixPrefix([b0], [b1], r);
    assert [b0] + [b1] == [b0, b1];
  }

  /** One group of four symbols, read from a group boundary. */
  lemma {:induction false} A2bGroup(g: Bytes, u: Bytes)
    requires |g| == 4 && AllSymbols(g)
    ensures forall i | 0 <= i < |g| :: IsAnySymbol(g[i])
    ensures A2b(g + u, Start) == Prefix(Unpack(g), A2b(u, Start))
  {
    var c0, c1, c2, c3 := g[0], g[1], g[2], g[3];
    assert IsSymbol(c0) && IsSymbol(c1) && IsSymbol(c2) && IsSymbol(c3);
    assert g + u == [c0] + ([c1] + ([c2] + ([c3] + u)));
    var b0, b1 := Bits0(AnyValue(c0), AnyValue(c1)), Bits1(AnyValue(c1) % 16, AnyValue(c2));
    var b2 := Bits2(AnyValue(c2) % 4, AnyValue(c3));
    var r := A2b(u, Start);
    A2bTriple(c0, c1, c2, [c3] + u);
    A2bCons(c3, u, Quad(3, 0, AnyValue(c2) % 4));
    PrefixPrefix([b0, b1], [b2], r);
    assert [b0, b1] + [b2] == [b0, b1, b2];
    assert Unpack(g) == [b0, b1, b2] by {
      assert g[4..] == [];
      assert [b0, b1, b2] + [] == [b0, b1, b2];
    }
  }

  /** Whole groups of symbols, read from a group boundary, give what the
      strict reader gives, in front of whatever follows. */
  lemma {:induction false} A2bGroups(a: Bytes, u: Bytes)
    requires AllSymbols(a) && |a| % 4 == 0
    ensures forall i | 0 <= i < |a| :: IsAnySymbol(a[i])
    ensures A2b(a + u, Start) == Prefix(Unpack(a), A2b(u, Start))
    decreases |a|
  {
    if |a| == 0 {
      PrefixEmpty(A2b(u, Start));
      assert a + u == u;
    } else {
      assert AllSymbols(a[4..]) && |a[4..]| % 4 == 0 by {
        SymbolsSplit(a, 4);
      }
      SymbolsAreAny(a);
      AnyDrop(a, 4);
      A2bGroups(a[4..], u);
      A2bGroupStep(a, u);
    }
  }

  /** The inductive step of A2bGroups: one more group in front. */
  lemma {:induction false} A2bGroupStep(a: Bytes, u: Bytes)
    requires AllSymbols(a) && |a| >= 4
    requires forall i | 0 <= i < |a| :: IsAnySymbol(a[i])
    requires forall i | 0 <= i < |a| - 4 :: IsAnySymbol(a[4..][i])
    requires A2b(a[4..] + u, Start) == Prefix(Unpack(a[4..]), A2b(u, Start))
    ensures A2b(a + u, Start) == Prefix(Unpack(a), A2b(u, Start))
  {
    UnpackStep(a);
    A2bHead(a, u);
    PrefixChain(A2b(a + u, Start), A2b(a[4..] + u, Start), A2b(u, Start),
                Unpack(a[..4]), Unpack(a[4..]), Unpack(a));
  }

  /** The first group of a run of symbols, read by `A2b`. */
  lemma {:induction false} A2bHead(a: Bytes, u: Bytes)
    requires AllSymbols(a) && |a| >= 4
    ensures forall i | 0 <= i < 4 :: IsAnySymbol(a[..4][i])
    ensures A2b(a + u, Start) == Prefix(Unpack(a[..4]), A2b(a[4..] + u, Start))
  {
    SymbolsSplit(a, 4);
    var g, v := a[..4], a[4..] + u;
    assert a + u == g + v by {
      SplitJoin(a, u, 4);
    }
    A2bGroup(g, v);
  }

  lemma {:induction false} SplitJoin(a: Bytes, u: Bytes, k: nat)
    requires k <= |a|
    ensures a + u == a[..k] + (a[k..] + u)
  {
    assert a == a[..k] + a[k..];
  }



  lemma {:induction false} PrefixChain(x: Option<Bytes>, y: Option<Bytes>, z: Option<Bytes>, p: Bytes, q: Bytes, pq: Bytes)
    requires x == Prefix(p, y) && y == Prefix(q, z) && pq == p + q
    ensures x == Prefix(pq, z)
  {
    PrefixPrefix(p, q, z);
  }

  /** Fewer than four symbols with Python's padding. */
  lemma {:induction false} A2bShort(r: Bytes)
    requires AllSymbols(r) && |r| < 4
    ensures A2b(r + Pads(Padding(|r|)), Start) == Decode(r)
  {
    if |r| == 0 {
      assert r + Pads(0) == [];
    } else if |r| == 1 {
      assert r == [r[0]] && Padding(|r|) == 3;
      A2bShortOne(r[0]);
    } else if |r| == 2 {
      A2bShortTwo(r);
    } else {
      A2bShortThree(r);
    }
  }

  lemma {:induction false} A2bShortOne(c: byte)
    requires IsSymbol(c)
    ensures A2b([c] + Pads(3), Start) == None
  {
    var u := [Equals, Equals, Equals];
    assert Pads(3) == u;
    A2bOne(c, u);
  }

  lemma {:induction false} A2bShortTwo(r: Bytes)
    requires AllSymbols(r) && |r| == 2
    ensures A2b(r + Pads(Padding(|r|)), Start) == Decode(r)
  {
    assert IsSymbol(r[0]) && IsSymbol(r[1]);
    var b0 := Bits0(AnyValue(r[0]), AnyValue(r[1]));
    assert A2b(r + Pads(Padding(|r|)), Start) == Some([b0]) by {
      var e: Bytes := [];
      assert r + Pads(2) == [r[0]] + ([r[1]] + ([Equals] + ([Equals] + e)));
      A2bPair(r[0], r[1], [Equals] + ([Equals] + e));
      A2bClosesTwo(AnyValue(r[1]) % 16);
      assert [b0] + [] == [b0];
    }
    assert Decode(r) == Some([b0]) by {
      assert r[2..] == [];
    }
  }

  lemma {:induction false} A2bShortThree(r: Bytes)
    requires AllSymbols(r) && |r| == 3
    ensures A2b(r + Pads(Padding(|r|)), Start) == Decode(r)
  {
    assert IsSymbol(r[0]) && IsSymbol(r[1]) && IsSymbol(r[2]);
    var b0, b1 := Bits0(AnyValue(r[0]), AnyValue(r[1])), Bits1(AnyValue(r[1]) % 16, AnyValue(r[2]));
    assert A2b(r + Pads(Padding(|r|)), Start) == Some([b0, b1]) by {
      var e: Bytes := [];
      assert r + Pads(1) == [r[0]] + ([r[1]] + ([r[2]] + ([Equals] + e)));
      A2bTriple(r[0], r[1], r[2], [Equals] + e);
      A2bClosesThree(AnyValue(r[2]) % 4);
      assert [b0, b1] + [] == [b0, b1];
    }
    assert Decode(r) == Some([b0, b1]);
  }

  /** A lone symbol followed by padding and line feeds leaves its group
      open. */
  lemma {:induction false} A2bOne(c: byte, u: Bytes)
    requires IsSymbol(c)
    requires forall i | 0 <= i < |u| :: u[i] == Equals || u[i] == Newline
    ensures A2b([c] + u, Start) == None
  {
    A2bCons(c, u, Start);
    A2bOpen(u, AnyValue(c));
  }

  lemma {:induction false} A2bOpen(u: Bytes, v: nat)
    requires forall i | 0 <= i < |u| :: u[i] == Equals || u[i] == Newline
    ensures A2b(u, Quad(1, 0, v)) == None
    decreases |u|
  {
    if u != [] {
      assert Read(Quad(1, 0, v), u[0]) == Next([], Quad(1, 0, v));
      A2bOpen(u[1..], v);
    }
  }

  /** `==` after two symbols closes the group. */
  lemma {:induction false} A2bClosesTwo(x: nat)
    ensures A2b([Equals] + ([Equals] + []), Quad(2, 0, x)) == Some([])
  {
    A2bCons(Equals, [], Quad(2, 1, x));
    A2bCons(Equals, [Equals] + [], Quad(2, 0, x));
    PrefixEmpty(Some([]));
  }

  /** `=` after three symbols closes the group. */
  lemma {:induction false} A2bClosesThree(x: nat)
    ensures A2b([Equals] + [], Quad(3, 0, x)) == Some([])
  {
    A2bCons(Equals, [], Quad(3, 0, x));
  }

  /** A line feed and the one `=` added for it leave two symbols' group
      open. */
  lemma {:induction false} A2bOpenTwo(x: nat)
    ensures A2b([Newline] + ([Equals] + []), Quad(2, 0, x)) == None
  {
    A2bCons(Equals, [], Quad(2, 0, x));
    A2bCons(Newline, [Equals] + [], Quad(2, 0, x));
  }

  lemma {:induction false} A2bOpenThree(x: nat)
    ensures A2b([Newline] + [], Quad(3, 0, x)) == None
  {
    A2bCons(Newline, [], Quad(3, 0, x));
  }

  /** Fewer than four symbols, a newline and Python's padding for the
      whole: only the empty remainder closes. */
  lemma {:induction false} A2bShortNewline(r: Bytes)
    requires AllSymbols(r) && |r| < 4
    ensures A2b(r + [Newline] + Pads(Padding(|r| + 1)), Start) == if r == [] then Some([]) else None
  {
    if |r| == 0 {
      A2bNewlineAlone(r);
    } else if |r| == 1 {
      A2bOneNewline(r);
    } else if |r| == 2 {
      A2bTwoNewline(r);
    } else {
      A2bThreeNewline(r);
    }
  }

  lemma {:induction false} A2bNewlineAlone(r: Bytes)
    requires r == []
    ensures A2b(r + [Newline] + Pads(Padding(|r| + 1)), Start) == Some([])
  {
    assert r + [Newline] + Pads(3) == [Newline] + Pads(3);
    A2bCons(Newline, Pads(3), Start);
    A2bPadsOnly(Pads(3));
    PrefixEmpty(Some([]));
  }

  lemma {:induction false} A2bOneNewline(r: Bytes)
    requires AllSymbols(r) && |r| == 1
    ensures A2b(r + [Newline] + Pads(Padding(|r| + 1)), Start) == None
  {
    assert IsSymbol(r[0]);
    assert r + [Newline] + Pads(2) == [r[0]] + [Newline, Equals, Equals];
    A2bOne(r[0], [Newline, Equals, Equals]);
  }

  lemma {:induction false} A2bTwoNewline(r: Bytes)
    requires AllSymbols(r) && |r| == 2
    ensures A2b(r + [Newline] + Pads(Padding(|r| + 1)), Start) == None
  {
    var e: Bytes := [];
    assert IsSymbol(r[0]) && IsSymbol(r[1]);
    assert r + [Newline] + Pads(1) == [r[0]] + ([r[1]] + ([Newline] + ([Equals] + e)));
    A2bPair(r[0], r[1], [Newline] + ([Equals] + e));
    A2bOpenTwo(AnyValue(r[1]) % 16);
  }

  lemma {:induction false} A2bThreeNewline(r: Bytes)
    requires AllSymbols(r) && |r| == 3
    ensures A2b(r + [Newline] + Pads(Padding(|r| + 1)), Start) == None
  {
    var e: Bytes := [];
    assert IsSymbol(r[0]) && IsSymbol(r[1]) && IsSymbol(r[2]);
    assert r + [Newline] + Pads(0) == [r[0]] + ([r[1]] + ([r[2]] + ([Newline] + e)));
    A2bTriple(r[0], r[1], r[2], [Newline] + e);
    A2bOpenThree(AnyValue(r[2]) % 4);
  }

  /** Padding at a group boundary is skipped. */
  lemma {:induction false} A2bPadsOnly(u: Bytes)
    requires forall i | 0 <= i < |u| :: u[i] == Equals
    ensures A2b(u, Start) == Some([])
    decreases |u|
  {
    if u != [] {
      assert Read(Start, u[0]) == Next([], Start);
      A2bPadsOnly(u[1..]);
      PrefixEmpty(Some([]));
    }
  }

  lemma {:induction false} DropLineBreaksOfSymbols(t: Bytes)
    requires AllSymbols(t)
    ensures DropLineBreaks(t) == t
  {
    if t != [] {
      assert IsSymbol(t[0]);
      SymbolsSplit(t, 1);
      DropLineBreaksOfSymbols(t[1..]);
    }
  }

  lemma {:induction false} KeepSymbolsOfSymbols(t: Bytes)
    requires AllSymbols(t)
    ensures KeepSymbols(t) == t
  {
    if t != [] {
      assert IsSymbol(t[0]);
      SymbolsSplit(t, 1);
      KeepSymbolsOfSymbols(t[1..]);
    }
  }

  /** A key written with its padding, 43 symbols and `=`: Python and Java
      import its 32 bytes, Go refuses the `=`. */
  lemma {:induction false} PaddedKeyDiverges(k: Bytes)
    requires |k| == 32
    ensures var x := Encode(k) + [Equals];
            DecodeKey(Python, x) == Some(k) && DecodeKey(Java, x) == Some(k) && DecodeKey(Go, x).None?
  {
    var t := Encode(k);
    DecodeEncode(k);
    KeyLength(k);
    PaddedKeyPython(t);
    PaddedKeyJava(t);
    PaddedKeyGo(t);
  }

  lemma {:induction false} PaddedKeyPython(t: Bytes)
    requires AllSymbols(t) && |t| == 43
    ensures DecodeKey(Python, t + [Equals]) == Decode(t)
  {
    var x := t + [Equals];
    SymbolsAreAscii(t);
    assert AllAscii(x);
    assert x + Pads(Padding(|x|)) == t + Pads(Padding(|t|)) by {
      assert Padding(|x|) == 0 && Padding(|t|) == 1;
      assert Pads(0) == [] && Pads(1) == [Equals];
    }
    PythonDecodeSymbols(t);
  }

  lemma {:induction false} PaddedKeyJava(t: Bytes)
    requires AllSymbols(t) && |t| == 43
    ensures DecodeKey(Java, t + [Equals]) == Decode(t)
  {
    assert KeepSymbols(t + [Equals]) == t by {
      KeepSymbolsSnoc(t, Equals);
      KeepSymbolsOfSymbols(t);
    }
    SymbolsAreAny(t);
    assert Decode(t) == Some(Unpack(t)) by {
      assert |t| % 4 == 3;
    }
  }

  lemma {:induction false} PaddedKeyGo(t: Bytes)
    requires AllSymbols(t)
    ensures DecodeKey(Go, t + [Equals]).None?
  {
    var x := t + [Equals];
    DropLineBreaksSnoc(t, Equals);
    DropLineBreaksOfSymbols(t);
    assert !IsSymbol(DropLineBreaks(x)[|t|]);
  }

  lemma {:induction false} KeepSymbolsSnoc(t: Bytes, c: byte)
    requires !IsAnySymbol(c)
    ensures KeepSymbols(t + [c]) == KeepSymbols(t)
  {
    if t != [] {
      assert (t + [c])[1..] == t[1..] + [c];
      KeepSymbolsSnoc(t[1..], c);
    }
  }

  lemma {:induction false} DropLineBreaksSnoc(t: Bytes, c: byte)
    requires c != Newline && c != Return
    ensures DropLineBreaks(t + [c]) == DropLineBreaks(t) + [c]
  {
    if t != [] {
      assert (t + [c])[1..] == t[1..] + [c];
      DropLineBreaksSnoc(t[1..], c);
    }
  }
}
