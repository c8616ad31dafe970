/** Protocol constants and the textual grammar of HAP identifiers and of the
    compact format (types.py, human_attestation.go, HumanAttestation.java). */
module Grammar {
  import opened Octets
  import opened Sdk
  import Base64Url

  /** `VERSION` / `Version`: the protocol version a signed claim carries. */
  const Version: Bytes := Str("0.1")

  /** `COMPACT_VERSION`; the compact text starts with `HAP` and this digit. */
  const CompactVersion: Bytes := Str("1")
  const CompactTag: Bytes := Str("HAP") + CompactVersion

  const IdPrefix: Bytes := Str("hap_")
  const TestIdPrefix: Bytes := Str("hap_test_")

  /** `^hap_[a-zA-Z0-9]{12}$` matched in full. */
  predicate IsId(s: Bytes)
  {
    |s| == 16 && s[..4] == IdPrefix && AllAlnum(s[4..])
  }

  /** `^hap_test_[a-zA-Z0-9]{8}$` matched in full. */
  predicate IsTestId(s: Bytes)
  {
    |s| == 17 && s[..9] == TestIdPrefix && AllAlnum(s[9..])
  }

  /** Python's `re.match` lets `$` match before one final newline; Go's
      `MatchString` and Java's `matches()` need the whole text. This is the
      text Python also tries the pattern on. */
  predicate NewlineTerminated(s: Bytes)
  {
    |s| > 0 && s[|s| - 1] == Newline
  }

  /** `is_valid_hap_id` / `IsValidID` / `isValidId`. */
  predicate IsValidId(p: Platform, s: Bytes)
  {
    IsId(s) || (p == Python && NewlineTerminated(s) && IsId(s[..|s| - 1]))
  }

  /** `is_test_id` / `IsTestID` / `isTestId`. */
  predicate IsTestIdOn(p: Platform, s: Bytes)
  {
    IsTestId(s) || (p == Python && NewlineTerminated(s) && IsTestId(s[..|s| - 1]))
  }

  /** The compact format's ID field: `hap_[a-zA-Z0-9_]+`. */
  predicate IdField(f: Bytes)
  {
    |f| > 4 && f[..4] == IdPrefix && forall i | 4 <= i < |f| :: IsAlnum(f[i]) || f[i] == Underscore
  }

  lemma {:induction false} IdFieldHasNoDot(f: Bytes)
    requires IdField(f)
    ensures Dot !in f
  {
    forall i | 0 <= i < |f| ensures f[i] != Dot {
      if i < 4 {
        assert f[i] == IdPrefix[i];
      }
    }
  }

  /** The nine dot-free fields of `COMPACT_REGEX`: `HAP1`, an ID, name, issuer
      and an optional domain (`[^.]+`, `[^.]+`, `[^.]*`), two decimal
      timestamps, the method and the base64url signature. */
  predicate CompactFields(ps: seq<Bytes>)
  {
    |ps| == 9 && ps[0] == CompactTag && IdField(ps[1]) &&
    |ps[2]| > 0 && |ps[3]| > 0 &&
    |ps[5]| > 0 && AllDigits(ps[5]) && |ps[6]| > 0 && AllDigits(ps[6]) &&
    |ps[7]| > 0 && |ps[8]| > 0 && Base64Url.AllSymbols(ps[8])
  }

  /** The compact regex matched against the whole text. */
  predicate IsCompact(s: Bytes)
  {
    CompactFields(Split(s, Dot))
  }

  /** `is_valid_compact` / `IsValidCompact` / `isValidCompact`. */
  predicate IsValidCompact(p: Platform, s: Bytes)
  {
    IsCompact(s) || (p == Python && NewlineTerminated(s) && IsCompact(s[..|s| - 1]))
  }

  /** What the regular expression itself says: the text is nine field texts,
      each of its class and so free of `.`, joined by literal dots. */
  ghost predicate CompactRegexMatch(s: Bytes)
  {
    exists ps: seq<Bytes> | |ps| == 9 && (forall i | 0 <= i < 9 :: Dot !in ps[i]) ::
      s == Join(ps, Dot) && CompactFields(ps)
  }

  /** Reading the text by splitting at dots is the regular expression. */
  lemma {:induction false} CompactSplitIsRegex(s: Bytes)
    ensures IsCompact(s) <==> CompactRegexMatch(s)
  {
    if IsCompact(s) {
      var ps := Split(s, Dot);
      assert |ps| == 9 && (forall i | 0 <= i < 9 :: Dot !in ps[i]);
      assert s == Join(ps, Dot) && CompactFields(ps);
    }
    if CompactRegexMatch(s) {
      var ps: seq<Bytes> :| |ps| == 9 && (forall i | 0 <= i < 9 :: Dot !in ps[i]) &&
        s == Join(ps, Dot) && CompactFields(ps);
      SplitOfJoin(ps, Dot);
    }
  }

  /** Every ID the format issues, test or not, fits the compact ID field. */
  lemma {:induction false} IdsFitIdField(s: Bytes)
    requires IsId(s) || IsTestId(s)
    ensures IdField(s)
  {
    if IsTestId(s) {
      assert s[..4] == s[..9][..4];
      forall i | 4 <= i < |s| ensures IsAlnum(s[i]) || s[i] == Underscore {
        if i < 9 {
          assert s[i] == TestIdPrefix[i];
        } else {
          assert s[i] == s[9..][i - 9];
        }
      }
    } else {
      forall i | 4 <= i < |s| ensures IsAlnum(s[i]) {
        assert s[i] == s[4..][i - 4];
      }
    }
  }

  /** No text is both a production ID and a test ID, on any platform: the
      `_` after `test` is not alphanumeric. */
  lemma {:induction false} TestIdIsNotId(p: Platform, s: Bytes)
    ensures !(IsValidId(p, s) && IsTestIdOn(p, s))
  {
    if IsValidId(p, s) && |s| == 17 {
      assert s[..16][4..][4] == s[8];
    }
  }
}
