/** Octet strings. Every string the SDKs handle is modelled by its UTF-8
    octets (a Go string already is one); the protocol's own literals are
    ASCII. This module holds the character classes, the split/join on a
    separator and the decimal conversions the codecs share. */
module Octets {

  newtype byte = x: int | 0 <= x < 0x100

  type Bytes = seq<byte>

  /** The octets of an ASCII literal. */
  function Str(s: string): (r: Bytes)
    requires forall i | 0 <= i < |s| :: s[i] as int < 0x80
    ensures |r| == |s|
    ensures forall i | 0 <= i < |s| :: r[i] as int == s[i] as int
  {
    seq(|s|, i requires 0 <= i < |s| => s[i] as int as byte)
  }

  const Newline: byte := 0x0A
  const Return: byte := 0x0D
  const Space: byte := 0x20
  const Ampersand: byte := 0x26
  const Percent: byte := 0x25
  const Star: byte := 0x2A
  const Plus: byte := 0x2B
  const Dash: byte := 0x2D
  const Dot: byte := 0x2E
  const Slash: byte := 0x2F
  const Zero: byte := 0x30
  const Equals: byte := 0x3D
  const Underscore: byte := 0x5F
  const Tilde: byte := 0x7E

  predicate IsDigit(b: byte) { 0x30 <= b <= 0x39 }
  predicate IsUpper(b: byte) { 0x41 <= b <= 0x5A }
  predicate IsLower(b: byte) { 0x61 <= b <= 0x7A }
  predicate IsAlnum(b: byte) { IsDigit(b) || IsUpper(b) || IsLower(b) }

  predicate AllAlnum(s: Bytes) { forall i | 0 <= i < |s| :: IsAlnum(s[i]) }
  predicate AllDigits(s: Bytes) { forall i | 0 <= i < |s| :: IsDigit(s[i]) }

  predicate IsHexDigit(b: byte) { IsDigit(b) || 0x41 <= b <= 0x46 || 0x61 <= b <= 0x66 }
  predicate IsUpperHexDigit(b: byte) { IsDigit(b) || 0x41 <= b <= 0x46 }

  function HexValue(b: byte): (v: nat)
    requires IsHexDigit(b)
    ensures v < 16
  {
    if IsDigit(b) then (b - 0x30) as nat
    else if b <= 0x46 then (b - 0x41) as nat + 10
    else (b - 0x61) as nat + 10
  }

  /** The digit percent-escapes write: 0-9 then A-F. */
  function UpperHex(n: nat): (b: byte)
    requires n < 16
    ensures IsHexDigit(b) && IsUpperHexDigit(b) && HexValue(b) == n
    ensures b != Dot && b != Percent && b != Plus
  {
    if n < 10 then (0x30 + n) as byte else (0x41 + n - 10) as byte
  }

  /** The digit hex digests write: 0-9 then a-f. */
  function LowerHex(n: nat): (b: byte)
    requires n < 16
    ensures IsHexDigit(b) && HexValue(b) == n && !IsUpper(b)
  {
    if n < 10 then (0x30 + n) as byte else (0x61 + n - 10) as byte
  }

  /** Position of the first `b` in `s`. */
  function IndexOf(s: Bytes, b: byte): (k: nat)
    requires b in s
    ensures k < |s| && s[k] == b && b !in s[..k]
  {
    if s[0] == b then 0
    else
      var k := 1 + IndexOf(s[1..], b);
      assert s[..k] == [s[0]] + s[1..][..k - 1];
      k
  }

  /** Position of the last `b` in `s`, or -1 when there is none (Python's
      `rfind`, Go's `strings.LastIndex`, Java's `lastIndexOf`). */
  function LastIndexOf(s: Bytes, b: byte): (k: int)
    ensures -1 <= k < |s|
    ensures k == -1 <==> b !in s
    ensures k >= 0 ==> s[k] == b && b !in s[k + 1..]
  {
    if s == [] then -1
    else if s[|s| - 1] == b then |s| - 1
    else
      var k := LastIndexOf(s[..|s| - 1], b);
      assert s == s[..|s| - 1] + [s[|s| - 1]];
      assert k >= 0 ==> s[k + 1..] == s[..|s| - 1][k + 1..] + [s[|s| - 1]];
      k
  }

  /** The pieces joined back with the separator between them. */
  function Join(parts: seq<Bytes>, sep: byte): Bytes
  {
    if |parts| == 0 then []
    else if |parts| == 1 then parts[0]
    else parts[0] + [sep] + Join(parts[1..], sep)
  }

  /** Python's `str.split(sep)` and Go's `strings.Split`: every occurrence of
      the separator cuts, and empty pieces are kept. */
  function Split(s: Bytes, sep: byte): (parts: seq<Bytes>)
    ensures |parts| >= 1
    ensures forall i | 0 <= i < |parts| :: sep !in parts[i]
    ensures Join(parts, sep) == s
    decreases |s|
  {
    if sep !in s then [s]
    else
      var k := IndexOf(s, sep);
      var rest := Split(s[k + 1..], sep);
      assert s == s[..k] + [sep] + s[k + 1..];
      assert ([s[..k]] + rest)[1..] == rest;
      [s[..k]] + rest
  }

  /** Java's `String.split` with a one-character pattern: a text without the
      separator comes back whole; otherwise the pieces of Split with the
      trailing empty pieces removed. */
  function JavaSplit(s: Bytes, sep: byte): (parts: seq<Bytes>)
  {
    if sep !in s then [s] else DropTrailingEmpty(Split(s, sep))
  }

  function DropTrailingEmpty(ps: seq<Bytes>): (r: seq<Bytes>)
    ensures |r| <= |ps| && r == ps[..|r|]
    ensures |r| > 0 ==> r[|r| - 1] != []
    ensures forall i | |r| <= i < |ps| :: ps[i] == []
  {
    if |ps| > 0 && ps[|ps| - 1] == [] then DropTrailingEmpty(ps[..|ps| - 1]) else ps
  }

  /** Decimal digits of a natural number, without leading zeros. */
  function Digits(n: nat): (r: Bytes)
    ensures |r| >= 1 && AllDigits(r)
  {
    if n < 10 then [(0x30 + n) as byte] else Digits(n / 10) + [(0x30 + n % 10) as byte]
  }

  /** `str(n)`, `strconv.FormatInt(n, 10)` and `String.valueOf(n)`. */
  function FormatInt(n: int): Bytes
  {
    if n < 0 then [Dash] + Digits(-n) else Digits(n)
  }

  /** The value of a digit string, as `int`, `ParseInt` and `parseLong` read it
      before any range check. */
  function DigitsValue(s: Bytes): nat
    requires AllDigits(s)
  {
    if s == [] then 0 else DigitsValue(s[..|s| - 1]) * 10 + (s[|s| - 1] - 0x30) as nat
  }

  // ---------------------------------------------------------------------
  // Laws

  /** Splitting a join of separator-free pieces gives the pieces back. */
  lemma {:induction false} SplitOfJoin(parts: seq<Bytes>, sep: byte)
    requires |parts| >= 1
    requires forall i | 0 <= i < |parts| :: sep !in parts[i]
    ensures Split(Join(parts, sep), sep) == parts
  {
    if |parts| > 1 {
      var s := Join(parts, sep);
      var rest := Join(parts[1..], sep);
      assert s == parts[0] + [sep] + rest;
      assert s[|parts[0]|] == sep;
      var k := IndexOf(s, sep);
      assert s[..k] == parts[0];
      assert s[k + 1..] == rest;
      SplitOfJoin(parts[1..], sep);
    }
  }

  /** Appending a piece appends the separator and the piece. */
  lemma {:induction false} JoinSnoc(parts: seq<Bytes>, last: Bytes, sep: byte)
    requires |parts| >= 1
    ensures Join(parts + [last], sep) == Join(parts, sep) + [sep] + last
  {
    if |parts| > 1 {
      assert (parts + [last])[1..] == parts[1..] + [last];
      JoinSnoc(parts[1..], last, sep);
    }
  }

  /** In `init`, a separator and a separator-free `last`, the last separator
      is the one added. */
  lemma {:induction false} LastIndexOfSnoc(init: Bytes, last: Bytes, sep: byte)
    requires sep !in last
    ensures var s := init + [sep] + last;
            var k := LastIndexOf(s, sep);
            k == |init| && s[..k] == init && s[k + 1..] == last
  {
    var s := init + [sep] + last;
    assert s[|init|] == sep && s[|init| + 1..] == last;
  }

  /** A byte other than the separator added at the end lengthens the last
      piece. */
  lemma {:induction false} SplitSnoc(s: Bytes, x: byte, sep: byte)
    requires x != sep
    ensures var ps := Split(s, sep);
            Split(s + [x], sep) == ps[..|ps| - 1] + [ps[|ps| - 1] + [x]]
  {
    var ps := Split(s, sep);
    var n := |ps|;
    var qs := ps[..n - 1] + [ps[n - 1] + [x]];
    if n > 1 {
      assert ps == ps[..n - 1] + [ps[n - 1]];
      JoinSnoc(ps[..n - 1], ps[n - 1], sep);
      JoinSnoc(ps[..n - 1], ps[n - 1] + [x], sep);
    }
    assert Join(qs, sep) == s + [x];
    assert forall i | 0 <= i < |qs| :: sep !in qs[i];
    SplitOfJoin(qs, sep);
  }

  /** Java's split agrees with Split when the text ends in a non-empty piece. */
  lemma {:induction false} JavaSplitAgrees(s: Bytes, sep: byte)
    requires Split(s, sep)[|Split(s, sep)| - 1] != []
    ensures JavaSplit(s, sep) == Split(s, sep)
  {
  }

  /** When exactly one empty part trails, Java's `split` drops just that one. */
  lemma {:induction false} JavaSplitDropsOneEmpty(s: Bytes, sep: byte)
    requires sep in s
    requires var all := Split(s, sep); |all| >= 2 && all[|all| - 1] == [] && all[|all| - 2] != []
    ensures var all := Split(s, sep); JavaSplit(s, sep) == all[..|all| - 1]
  {
    DropOneEmpty(Split(s, sep));
  }

  lemma {:induction false} DropOneEmpty(ps: seq<Bytes>)
    requires |ps| >= 2 && ps[|ps| - 1] == [] && ps[|ps| - 2] != []
    ensures DropTrailingEmpty(ps) == ps[..|ps| - 1]
  {
    var q := ps[..|ps| - 1];
    assert q[|q| - 1] != [];
    assert DropTrailingEmpty(q) == q;
  }

  /** Reading back the digits of `n` gives `n`. */
  lemma {:induction false} DigitsValueOfDigits(n: nat)
    ensures DigitsValue(Digits(n)) == n
  {
    if n >= 10 {
      var d := Digits(n);
      assert d[..|d| - 1] == Digits(n / 10);
      DigitsValueOfDigits(n / 10);
    }
  }

  /** The digits of `n` are the single digit `0` exactly when `n` is zero. */
  lemma {:induction false} DigitsZero(n: nat)
    ensures Digits(n) == [Zero] <==> n == 0
  {
    if n >= 10 {
      assert |Digits(n)| >= 2;
    }
  }

  /** A join of two or more pieces contains the separator. */
  lemma {:induction false} JoinHasSep(parts: seq<Bytes>, sep: byte)
    requires |parts| >= 2
    ensures sep in Join(parts, sep)
  {
    assert Join(parts, sep)[|parts[0]|] == sep;
  }

  /** The first occurrence is the one with no earlier occurrence. */
  lemma {:induction false} IndexOfUnique(s: Bytes, b: byte, j: nat)
    requires j < |s| && s[j] == b && b !in s[..j]
    ensures IndexOf(s, b) == j
  {
  }

  /** A byte other than the separator is in a join exactly when it is in
      one of the pieces. */
  lemma {:induction false} InJoin(parts: seq<Bytes>, sep: byte, x: byte)
    requires x != sep
    ensures x in Join(parts, sep) <==> exists i | 0 <= i < |parts| :: x in parts[i]
  {
    if |parts| > 1 {
      InJoin(parts[1..], sep, x);
      if x in Join(parts[1..], sep) {
        var i :| 0 <= i < |parts[1..]| && x in parts[1..][i];
        assert x in parts[i + 1];
      }
      if exists i | 0 <= i < |parts| :: x in parts[i] {
        var i :| 0 <= i < |parts| && x in parts[i];
        if i > 0 {
          assert x in parts[1..][i - 1];
        }
      }
    }
  }
}
