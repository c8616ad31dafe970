/** Identifier generation and the content-hash text (sign.py, sign.go,
    HumanAttestation.java, Hap.java and their legacy copies). The random
    source is a parameter: Python's `secrets.choice` and Java's
    `nextInt(62)` hand over indices into the alphabet, Go's `rand.Read`
    hands over bytes (or an error). SHA-256 itself is a parameter too; only
    the text written around the digest is modelled. */
module Ids {
  import opened Wrappers
  import opened Octets
  import opened Sdk
  import Grammar

  /** An index into the 62-character ID alphabet. */
  newtype Pick = i: int | 0 <= i < 62

  /** The alphabet's `i`-th character: `string.ascii_letters + string.digits`
      (lower case first) in Python, `A-Z a-z 0-9` in Go and Java. */
  function AlphabetChar(p: Platform, i: Pick): (b: byte)
    ensures IsAlnum(b)
  {
    var (first, second) := if p == Python then (0x61, 0x41) else (0x41, 0x61);
    if i < 26 then (first + i as int) as byte
    else if i < 52 then (second + i as int - 26) as byte
    else (0x30 + i as int - 52) as byte
  }

  /** `ID_CHARS` / `IDChars` / `HAP_ID_CHARS`. */
  function IdChars(p: Platform): (a: Bytes)
    ensures |a| == 62
  {
    seq(62, i requires 0 <= i < 62 => AlphabetChar(p, i as Pick))
  }

  /** Where an alphanumeric byte sits in the alphabet. */
  function PickOf(p: Platform, b: byte): (i: Pick)
    requires IsAlnum(b)
    ensures AlphabetChar(p, i) == b
  {
    var (first, second) := if p == Python then (0x61, 0x41) else (0x41, 0x61);
    if IsDigit(b) then (b as int - 0x30 + 52) as Pick
    else if first <= b as int < first + 26 then (b as int - first) as Pick
    else (b as int - second + 26) as Pick
  }

  /** The alphabet holds exactly the ASCII letters and digits. */
  lemma {:induction false} AlphabetIsAlnum(p: Platform, b: byte)
    ensures b in IdChars(p) <==> IsAlnum(b)
  {
    if IsAlnum(b) {
      assert IdChars(p)[PickOf(p, b) as int] == b;
    }
  }

  /** The characters the picks select. */
  function Suffix(p: Platform, picks: seq<Pick>): (s: Bytes)
    ensures |s| == |picks|
  {
    seq(|picks|, i requires 0 <= i < |picks| => AlphabetChar(p, picks[i]))
  }

  /** The suffix loop of `generateId` / `GenerateID`: one alphabet character
      per pick, appended in order. */
  method GenerateSuffix(p: Platform, picks: seq<Pick>) returns (suffix: Bytes)
    ensures suffix == Suffix(p, picks)
  {
    suffix := [];
    var i := 0;
    while i < |picks|
      invariant 0 <= i <= |picks|
      invariant suffix == Suffix(p, picks[..i])
    {
      suffix := suffix + [IdChars(p)[picks[i]]];
      i := i + 1;
    }
    assert picks[..i] == picks;
  }

  /** The ID the picks make. */
  function IdOf(p: Platform, picks: seq<Pick>): Bytes
  {
    Grammar.IdPrefix + Suffix(p, picks)
  }

  function TestIdOf(p: Platform, picks: seq<Pick>): Bytes
  {
    Grammar.TestIdPrefix + Suffix(p, picks)
  }

  /** `generate_id` / `generateId` / `generateHapId`: twelve picks make a
      valid ID on every platform. */
  method GenerateId(p: Platform, picks: seq<Pick>) returns (id: Bytes)
    requires |picks| == 12
    ensures id == IdOf(p, picks)
    ensures Grammar.IsId(id) && Grammar.IsValidId(p, id)
  {
    var suffix := GenerateSuffix(p, picks);
    id := Grammar.IdPrefix + suffix;
    IdOfIsId(p, picks);
  }

  /** `generate_test_id` / `generateTestId`: eight picks make a test ID. */
  method GenerateTestId(p: Platform, picks: seq<Pick>) returns (id: Bytes)
    requires |picks| == 8
    ensures id == TestIdOf(p, picks)
    ensures Grammar.IsTestId(id) && Grammar.IsTestIdOn(p, id)
  {
    var suffix := GenerateSuffix(p, picks);
    id := Grammar.TestIdPrefix + suffix;
    TestIdOfIsTestId(p, picks);
  }

  lemma {:induction false} IdOfIsId(p: Platform, picks: seq<Pick>)
    requires |picks| == 12
    ensures Grammar.IsId(IdOf(p, picks))
  {
    var s := IdOf(p, picks);
    assert s[..4] == Grammar.IdPrefix;
    assert s[4..] == Suffix(p, picks);
  }

  lemma {:induction false} TestIdOfIsTestId(p: Platform, picks: seq<Pick>)
    requires |picks| == 8
    ensures Grammar.IsTestId(TestIdOf(p, picks))
  {
    var s := TestIdOf(p, picks);
    assert s[..9] == Grammar.TestIdPrefix;
    assert s[9..] == Suffix(p, picks);
  }

  /** The picks that select a given alphanumeric text. */
  function PicksOf(p: Platform, t: Bytes): (picks: seq<Pick>)
    requires AllAlnum(t)
    ensures |picks| == |t| && Suffix(p, picks) == t
  {
    seq(|t|, i requires 0 <= i < |t| => PickOf(p, t[i]))
  }

  /** Every valid ID is the one some twelve picks make, so the generator
      reaches the whole ID language and nothing else. */
  lemma {:induction false} EveryIdIsGenerated(p: Platform, s: Bytes)
    requires Grammar.IsId(s)
    ensures exists picks: seq<Pick> :: |picks| == 12 && IdOf(p, picks) == s
  {
    var picks := PicksOf(p, s[4..]);
    assert s == s[..4] + s[4..];
    assert IdOf(p, picks) == s;
  }

  /** Every test ID is the one some eight picks make. */
  lemma {:induction false} EveryTestIdIsGenerated(p: Platform, s: Bytes)
    requires Grammar.IsTestId(s)
    ensures exists picks: seq<Pick> :: |picks| == 8 && TestIdOf(p, picks) == s
  {
    var picks := PicksOf(p, s[9..]);
    assert s == s[..9] + s[9..];
    assert TestIdOf(p, picks) == s;
  }

  // ---------------------------------------------------------------------
  // Go: random bytes reduced modulo 62

  /** `IDChars[int(b) % len(IDChars)]` for each random byte. */
  function GoPicks(bytes: Bytes): (picks: seq<Pick>)
    ensures |picks| == |bytes|
  {
    seq(|bytes|, i requires 0 <= i < |bytes| => (bytes[i] as int % 62) as Pick)
  }

  /** The random source failed (`rand.Read` returned an error). */
  datatype EntropyError = EntropyError

  /** `GenerateID` / `GenerateHapID`: the error of the random source is
      passed on with an empty ID; otherwise the twelve bytes, reduced
      modulo 62, pick the suffix. */
  method GoGenerateId(entropy: Option<Bytes>) returns (r: Result<Bytes, EntropyError>)
    requires entropy.Some? ==> |entropy.value| == 12
    ensures entropy.None? <==> r.Err?
    ensures r.Ok? ==> r.value == IdOf(Go, GoPicks(entropy.value)) && Grammar.IsValidId(Go, r.value)
  {
    if entropy.None? {
      return Err(EntropyError);
    }
    var id := GenerateId(Go, GoPicks(entropy.value));
    return Ok(id);
  }

  /** `GenerateTestID` / `GenerateTestHapID`, with eight bytes. */
  method GoGenerateTestId(entropy: Option<Bytes>) returns (r: Result<Bytes, EntropyError>)
    requires entropy.Some? ==> |entropy.value| == 8
    ensures entropy.None? <==> r.Err?
    ensures r.Ok? ==> r.value == TestIdOf(Go, GoPicks(entropy.value)) && Grammar.IsTestIdOn(Go, r.value)
  {
    if entropy.None? {
      return Err(EntropyError);
    }
    var id := GenerateTestId(Go, GoPicks(entropy.value));
    return Ok(id);
  }

  /** Reducing bytes modulo 62 still reaches every character: the byte equal
      to a pick is reduced to that pick. */
  lemma {:induction false} GoReachesEveryId(s: Bytes)
    requires Grammar.IsId(s)
    ensures exists bytes: Bytes :: |bytes| == 12 && IdOf(Go, GoPicks(bytes)) == s
  {
    EveryIdIsGenerated(Go, s);
    var picks: seq<Pick> :| |picks| == 12 && IdOf(Go, picks) == s;
    var bytes := BytesOfPicks(picks);
    assert GoPicks(bytes) == picks;
  }

  /** Picks written as bytes, which Go's reduction leaves as they are. */
  function BytesOfPicks(picks: seq<Pick>): (bytes: Bytes)
    ensures |bytes| == |picks|
    ensures forall i | 0 <= i < |picks| :: bytes[i] as int == picks[i] as int
  {
    seq(|picks|, i requires 0 <= i < |picks| => picks[i] as int as byte)
  }

  // ---------------------------------------------------------------------
  // Content hashes

  const HashPrefix: Bytes := Str("sha256:")

  /** A byte as two lower-case hex digits, high nibble first. */
  function HexPair(b: byte): Bytes
  {
    [LowerHex(b as nat / 16), LowerHex(b as nat % 16)]
  }

  /** `hexdigest()` / `hex.EncodeToString`: two digits per byte. */
  function Hex(d: Bytes): (h: Bytes)
    ensures |h| == 2 * |d|
  {
    if d == [] then [] else Hex(d[..|d| - 1]) + HexPair(d[|d| - 1])
  }

  /** `hash_content` / `HashContent` / `hashContent` on a given digest. */
  function HashText(digest: Bytes): Bytes
  {
    HashPrefix + Hex(digest)
  }

  /** `Integer.toHexString(0xff & b)`: lower-case digits without leading
      zeros. */
  function JavaHexString(b: byte): (h: Bytes)
    ensures 1 <= |h| <= 2
  {
    if b < 16 then [LowerHex(b as nat)] else [LowerHex(b as nat / 16), LowerHex(b as nat % 16)]
  }

  /** Java's `hashContent` loop: each byte's `toHexString`, with a `0`
      written first when it is one digit long, gives the same text as the
      other platforms' hex encoder. */
  method JavaHashContent(digest: Bytes) returns (r: Bytes)
    ensures r == HashText(digest)
  {
    var hex: Bytes := [];
    for i := 0 to |digest|
      invariant hex == Hex(digest[..i])
    {
      var h := JavaHexString(digest[i]);
      if |h| == 1 {
        hex := hex + [Zero];
      }
      hex := hex + h;
      assert digest[..i + 1][..i] == digest[..i];
    }
    assert digest[..|digest|] == digest;
    r := HashPrefix + hex;
  }

  /** The hex text is lower case and reads back, pair by pair, as the
      digest. */
  lemma {:induction false} HexReadsBack(d: Bytes)
    ensures forall i | 0 <= i < |Hex(d)| :: IsHexDigit(Hex(d)[i]) && !IsUpper(Hex(d)[i])
    ensures forall i | 0 <= i < |d| ::
              HexValue(Hex(d)[2 * i]) * 16 + HexValue(Hex(d)[2 * i + 1]) == d[i] as nat
  {
    if d != [] {
      var init := d[..|d| - 1];
      HexReadsBack(init);
      assert Hex(d) == Hex(init) + HexPair(d[|d| - 1]);
      forall i | 0 <= i < |d|
        ensures HexValue(Hex(d)[2 * i]) * 16 + HexValue(Hex(d)[2 * i + 1]) == d[i] as nat
      {
        if i < |d| - 1 {
          assert d[i] == init[i];
        }
      }
    }
  }

  /** A 32-byte SHA-256 digest gives `sha256:` and 64 lower-case hex digits,
      71 octets in all, from which the digest can be read back. */
  lemma {:induction false} HashTextShape(digest: Bytes)
    requires |digest| == 32
    ensures var t := HashText(digest);
            |t| == 71 && t[..7] == HashPrefix &&
            (forall i | 7 <= i < 71 :: IsHexDigit(t[i]) && !IsUpper(t[i])) &&
            (forall i | 0 <= i < 32 :: HexValue(t[7 + 2 * i]) * 16 + HexValue(t[8 + 2 * i]) == digest[i] as nat)
  {
    var t := HashText(digest);
    HexReadsBack(digest);
    assert forall i | 7 <= i < 71 :: t[i] == Hex(digest)[i - 7];
  }

  /** Different digests give different texts. */
  lemma {:induction false} HashTextInjective(d1: Bytes, d2: Bytes)
    requires |d1| == |d2| && HashText(d1) == HashText(d2)
    ensures d1 == d2
  {
    HexReadsBack(d1);
    HexReadsBack(d2);
    assert Hex(d1) == HashText(d1)[7..];
    assert Hex(d2) == HashText(d2)[7..];
    forall i | 0 <= i < |d1| ensures d1[i] == d2[i] {
      assert Hex(d1)[2 * i] == Hex(d2)[2 * i];
      assert Hex(d1)[2 * i + 1] == Hex(d2)[2 * i + 1];
    }
  }
}
