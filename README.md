# Human Attestation Protocol SDK: a Dafny model

This project models the logic shared by the Python, Go and Java SDKs of the Human Attestation Protocol (HAP). It covers the current packages (`packages/python`, `packages/go`, `packages/java`) and the older `hap-*` packages. An authority issues signed claims that a person spent real effort, for example on a job application. The SDKs:

- build and sign claims;
- publish the authority's Ed25519 keys as JWK records;
- pack a claim and its signature into a short dot-separated text (the *compact format*) for QR codes and links;
- verify a claim by its ID against the authority.

Every operation takes a `Platform` (`Python`, `Go`, `Java`). Where the three SDKs behave differently, the difference is written into the definition and stated by a lemma. The differences covered:

- space escaping;
- the expiry sentinel;
- empty domains;
- Python's trailing newline under `re.match`;
- Java's `split` dropping trailing empty pieces;
- the empty `kid`;
- JWS presence;
- recipient matching.

All text is modelled as octets (`Octets.Bytes`).

Modules:

- `Octets`, `Wrappers`, `Sdk`, `Types`: bytes, splitting and joining, decimal digits, `Option`/`Result`, the claim and JWK records, the calendar and the Ed25519 interface.
- `Percent`: the field escapers (`quote`, `url.QueryEscape`, `URLEncoder`, each followed by the `.` to `%2E` step) and their decoders.
- `Base64Url`: unpadded base64url (section 5 of RFC 4648) and each platform's decoder: Python's padded, lenient `urlsafe_b64decode`, Go's `RawURLEncoding`, which skips line breaks, java.util's url decoder, and Nimbus's `Base64URL`, which Java uses for keys and which skips every byte outside the alphabet.
- `Grammar`: the version constants, the ID, test-ID and compact regular expressions, and Python's trailing-newline reading of `$`.
- `Compact`: the 9-field codec.
- `CompactVerify`: signing and first-key-wins verification of compact texts.
- `Urls`: verification links.
- `LegacyCompact`: the 10-field codec of `hap-go` and `hap-java`, with its `recipient_commitment` branch.
- `Ids`: ID and test-ID generation from given random picks or bytes, and the `sha256:` content-hash format.
- `Claims`: the claim builders, version injection and JWK export.
- `Verify`: online verification by ID, expiry and recipient matching.

How the outside world is represented:

- Timestamps are integers of seconds. ISO-8601/RFC 3339 text is reached through a `Calendar` value: a parser `toUnix` and a formatter `fromUnix`. Its `Coherent` predicate says that parsing a formatted second gives it back.
- Ed25519 is an `Ed25519` value (public key, sign, verify). Its `Correct` predicate says that a signature verifies under the signer's public key. Both predicates are stated only as lemma preconditions.
- Randomness, the clock, HTTP answers, the authority's key set and the parsed JWS are parameters.

Most rows cite one copy of an operation. The other copies are the same code:

- `packages/python/human_attestation/compact.py`, `packages/go/compact.go` and `packages/java/src/main/java/io/bluescroll/humanattestation/Compact.java` for the 9-field codec;
- `packages/hap-go/compact.go` and `packages/hap-java/src/main/java/io/bluescroll/hap/HapCompact.java` for the 10-field codec;
- `packages/go/verify.go`, `packages/hap-go/verify.go`, `packages/hap-python/hap/verify.py`, `packages/java/src/main/java/io/bluescroll/humanattestation/HumanAttestation.java` and `packages/hap-java/src/main/java/io/bluescroll/hap/Hap.java` for verification.

## Model

| member | source | states |
|---|---|---|
| Percent.EncodedFieldHasNoDot | packages/python/human_attestation/compact.py:32-34 | an escaped field never contains the separator `.`, on every platform |
| Percent.EncodedFieldEmpty | packages/go/compact.go:14-17 | an escaped field is empty exactly when the value is |
| Percent.DecodeEncodedField | packages/python/human_attestation/compact.py:32-39 | decoding an escaped field gives the value back, on every platform |
| Percent.DecodeEscaped | packages/python/human_attestation/compact.py:254 | the escaper used for links, without the dot step, is undone by the same decoder |
| Percent.EscapedAlphabet | packages/python/human_attestation/compact.py:34 | escaped output holds only unreserved bytes, `%` with two upper-case hex digits, and `+` for Go and Java |
| Percent.SpaceEscapes | packages/go/compact.go:14-16 | a space is `%20` in Python and `+` in Go and Java |
| Percent.PythonReadsFormSpaceAsPlus | packages/python/human_attestation/compact.py:37-39 | Python's `unquote` reads the `+` that Go and Java write for a space as a `+` |
| Percent.TildeEscapes | packages/java/src/main/java/io/bluescroll/humanattestation/Compact.java:33-37 | Java escapes `~`, which Python and Go keep |
| Percent.StarEscapes | packages/java/src/main/java/io/bluescroll/humanattestation/Compact.java:33-37 | Java keeps `*`, which Python and Go escape |
| Percent.MalformedEscape | packages/go/compact.go:20-22 | a lone `%` is copied by Python and refused by Go and Java |
| Percent.SignedEscape | packages/java/src/main/java/io/bluescroll/humanattestation/Compact.java:42-44 | Java's `URLDecoder` reads `%+1` as a byte, which Go refuses |
| Base64Url.Encode | packages/python/human_attestation/compact.py:42-44 | output uses only `A-Z a-z 0-9 - _`, has no padding, and is `ceil(4n/3)` symbols long |
| Base64Url.DecodersAgree | packages/python/human_attestation/compact.py:47-52 | on text of the url-safe alphabet, Python's padded `urlsafe_b64decode`, Go's `RawURLEncoding` and java.util's url decoder all give the strict reading (none on a length of 1 mod 4, else the unpacked bytes), and so does each key decoder, Nimbus for Java, unless one symbol is left over |
| Base64Url.PythonDecodeNewline | packages/python/human_attestation/compact.py:47-52 | Python's decoder skips a final newline: symbols and a newline decode to the strict reading of the symbols when they fill whole groups, and fail otherwise |
| Base64Url.PaddedKeyDiverges | packages/java/src/main/java/io/bluescroll/humanattestation/Compact.java:265 | a 32-byte key written as its 43 symbols and `=` is imported as that key by Python and by Java's Nimbus decoder, and refused by Go's `RawURLEncoding` |
| Base64Url.DecodeEncode | packages/python/human_attestation/compact.py:42-52 | decoding undoes encoding for every byte string |
| Base64Url.Padding | packages/python/human_attestation/compact.py:49-51 | the `=` signs restored make the length a multiple of 4, fewer than 4 of them |
| Base64Url.PaddingThreeRejected | packages/python/human_attestation/compact.py:49-52 | three restored `=` signs happen exactly for a length of 1 mod 4; on text of the alphabet that is exactly when each platform's signature decoder fails, and behind a newline Python's decoder succeeds exactly when the longer text needs three |
| Base64Url.KeyLength | packages/python/human_attestation/sign.py:75-99 | a 32-byte public key is written as 43 symbols |
| Base64Url.SymbolsHaveNoDot | packages/python/human_attestation/types.py:21 | a base64url text contains neither `.` nor a newline |
| Grammar.CompactSplitIsRegex | packages/python/human_attestation/types.py:21 | reading a text by splitting at dots into nine fields agrees with the compact regular expression |
| Grammar.IdsFitIdField | packages/python/human_attestation/types.py:15-21 | every ID and every test ID fits the compact format's ID field |
| Grammar.IdFieldHasNoDot | packages/python/human_attestation/types.py:21 | the ID field of a compact text holds no `.` |
| Grammar.TestIdIsNotId | packages/python/human_attestation/types.py:15-18 | no text is both an ID and a test ID, on any platform |
| Compact.ParseDecimal | packages/go/compact.go:119-127 | a parsed second fits the platform's integer: 64 bits in Go and Java, unbounded in Python |
| Compact.ParseFormatted | packages/python/human_attestation/compact.py:85 | reading back the decimal text of a second that fits the platform gives the second |
| Compact.EncodeIsPayloadAndSignature | packages/python/human_attestation/compact.py:66-91 | the encoding succeeds exactly when the payload does, and is then the payload, `.` and the base64url signature |
| Compact.EncodeErrors | packages/go/compact.go:50-62 | encoding fails exactly when `at`, or a non-empty `exp`, does not parse, and `at` is reported first |
| Compact.EncodedParts | packages/python/human_attestation/compact.py:79-91 | with an ID and method free of dots, the encoding splits back into its nine fields |
| Compact.EncodedFieldsFit | packages/python/human_attestation/types.py:21 | the nine fields of an encodable claim each fit the grammar |
| Compact.CompactPartsOfCompact | packages/java/src/main/java/io/bluescroll/humanattestation/Compact.java:115 | on a text the grammar accepts, Java's `split` agrees with Python's and Go's |
| Compact.EncodedIsValid | packages/python/human_attestation/compact.py:143-153 | the encoding of an encodable claim is accepted by `is_valid_compact` |
| Compact.NumbersRead | packages/python/human_attestation/compact.py:119-122 | a second the encoder writes is read back by the platform's integer parser, lies in the platform's calendar, and is written `0` exactly when it is 0 |
| Compact.SignatureReads | packages/python/human_attestation/compact.py:42-52 | every platform's signature decoder reads back an encoded signature |
| Compact.PythonReadsEncoding | packages/python/human_attestation/compact.py:119-140 | Python's field readers give back name, domain (when non-empty), issuer, `at`, `exp` (when present) and the signature |
| Compact.TypedReadsEncoding | packages/go/compact.go:104-155 | Go's and Java's field readers give back the same fields, with Go keeping an empty domain |
| Compact.DecodeEncode | packages/python/human_attestation/compact.py:94-140 | decoding an encoded claim returns the rebuilt claim (version set, empty description, effort fields and tier dropped) and the signature, on every platform |
| Compact.ReencodeIsStable | packages/python/human_attestation/compact.py:66-140 | encoding the rebuilt claim gives the same text again, for timestamps within the platform's calendar |
| Compact.PreEpochNotDecodable | packages/python/human_attestation/compact.py:85 | a claim dated before 1970 is encoded with a minus sign that the grammar refuses, so its text never decodes |
| Compact.NewlineParts | packages/python/human_attestation/compact.py:107 | on a text Python's regex accepts only thanks to its final newline, `split` gives the matched fields with the newline kept on the signature |
| Compact.PythonDecodeSucceedsIff | packages/python/human_attestation/compact.py:94-123 | on a text Python's regex accepts, decoding succeeds exactly when `at`, and `exp` unless it is the text `0`, lie within the year 9999 and the signature has a length base64 accepts: not 1 mod 4, or whole groups behind the final newline |
| Compact.DecodeErrors | packages/java/src/main/java/io/bluescroll/humanattestation/Compact.java:110-140 | decoding fails on the format check exactly when the regex refuses the text, and never on the count or version checks after it; a success has nine parts led by the tag, an `at` the platform parses and formats, the returned signature decoded from the last part and, in Go and Java, every escaped field decoded |
| Compact.ExpSentinelDiverges | packages/python/human_attestation/compact.py:122 | an `exp` field of `00` is an epoch expiry in Python and no expiry in Go and Java |
| CompactVerify.ImportKey | packages/python/human_attestation/compact.py:226-227 | a key imports exactly when the platform's key decoder, Nimbus for Java, reads `x` and gives 32 bytes, and is then those bytes |
| CompactVerify.KeyReads | packages/python/human_attestation/compact.py:226-227 | every platform imports a published 32-byte key back from its `x` |
| CompactVerify.TryKeys | packages/python/human_attestation/compact.py:223-238 | keys in order: the result is the decoded claim exactly when it decodes and some key accepts, and otherwise names the failure |
| CompactVerify.KeysAfterFirstAcceptIgnored | packages/python/human_attestation/compact.py:223-236 | once a key accepts, the keys after it do not change the result (first key wins) |
| CompactVerify.ValidCompactHasDot | packages/python/human_attestation/compact.py:216 | a text the grammar accepts has a last dot to split the signature at |
| CompactVerify.TryKeysLoop | packages/go/compact.go:226-245 | the key loop with its early returns computes `TryKeys` |
| CompactVerify.VerifyCompact | packages/python/human_attestation/compact.py:211-240 | the verifier rejects bad text, splits at the last dot, decodes the signature and tries the keys, as `VerifyCompactSpec` states |
| CompactVerify.VerifySignedText | packages/python/human_attestation/compact.py:215-237 | past the format check, the payload is everything before the last dot and the decoded signature goes to the key loop, as the shared `VerifySigned` states |
| CompactVerify.SignIsEncode | packages/python/human_attestation/compact.py:183-197 | a signed text is the encoding of the claim with the signature of its payload |
| CompactVerify.SignedTextSplits | packages/python/human_attestation/compact.py:216-218 | in a signed text the last dot separates exactly the payload and the signature |
| CompactVerify.AcceptedWhenKeyVerifies | packages/python/human_attestation/compact.py:211-234 | a valid text that decodes and whose payload a listed key verifies is accepted with its decoded claim |
| CompactVerify.SignThenVerify | packages/python/human_attestation/compact.py:183-240 | signing, then verifying with a key set that lists the signer's key, accepts and returns the rebuilt claim |
| CompactVerify.GoPanicsOnShortKey | packages/go/compact.go:226-235 | Go as written panics on a listed key whose `x` is not 32 bytes, where the corrected loop skips it |
| CompactVerify.ShortKeyExample | packages/go/compact.go:226-233 | a concrete `x` of 42 symbols decodes to 31 bytes |
| CompactVerify.GoAgreesWithoutShortKeys | packages/go/compact.go:226-245 | where Go as written does not panic, it agrees with the corrected key loop |
| Urls.ScanParamsJava | packages/java/src/main/java/io/bluescroll/humanattestation/Compact.java:331-339 | the parameter loop with its early returns computes the first valid `c` value |
| Urls.ExtractCompactFromUrlJava | packages/java/src/main/java/io/bluescroll/humanattestation/Compact.java:325-344 | Java's extractor, reading the query once, computes `JavaExtract` |
| Urls.UriDecodesEscape | packages/java/src/main/java/io/bluescroll/humanattestation/Compact.java:327-328 | `java.net.URI` accepts every escaped text and shows it decoded once |
| Urls.EscapedHasNoDelimiter | packages/python/human_attestation/compact.py:254 | an escaped compact text holds no `&`, `#`, `?`, `=` or `;` |
| Urls.UnescapeShrinks | packages/go/compact.go:259 | unescaping never lengthens a text, and shortens one holding a `%` |
| Urls.GeneratedQuery | packages/python/human_attestation/compact.py:254 | the query of a generated link is `c=` and the escaped text |
| Urls.PythonSingleParam | packages/python/human_attestation/compact.py:270-271 | `parse_qs` on the single parameter `c=v` gives `v` unquoted, or nothing when `v` is empty |
| Urls.GoSingleParam | packages/go/compact.go:259 | `url.ParseQuery` on `c=v` gives `v` unescaped |
| Urls.JavaSingleParam | packages/java/src/main/java/io/bluescroll/humanattestation/Compact.java:331-336 | Java's loop on `c=v` gives `v` decoded if it is valid |
| Urls.PythonExtractGenerated | packages/python/human_attestation/compact.py:257-276 | Python extracts from its own link exactly the non-empty texts its validity test accepts |
| Urls.GoExtractGenerated | packages/go/compact.go:254-266 | Go extracts from its own link exactly the non-empty texts its validity test accepts |
| Urls.JavaExtractGenerated | packages/java/src/main/java/io/bluescroll/humanattestation/Compact.java:325-344 | Java, reading the query once, extracts from its own link exactly the texts its validity test accepts |
| Urls.ExtractGenerated | packages/python/human_attestation/compact.py:243-276 | on every platform, extracting from a generated link gives back the embedded text exactly when it is accepted |
| Urls.ExtractGeneratedCompact | packages/go/compact.go:249-266 | the same round trip with the compact grammar as the validity test |
| Urls.JavaAsWrittenDecodesTwice | packages/java/src/main/java/io/bluescroll/humanattestation/Compact.java:325-344 | Java as written decodes twice, so a compact text holding `%` never comes back from its own link |
| Urls.EscapedIssuerFields | packages/java/src/main/java/io/bluescroll/humanattestation/Compact.java:90-100 | a concrete nine-field record whose issuer field holds `%2E` fits the grammar |
| Urls.EscapedIssuerCompact | packages/java/src/main/java/io/bluescroll/humanattestation/Compact.java:325-344 | that record is a valid compact text which Java's extractor as written does not return from its own link |
| LegacyCompact.EncodeIsPayloadAndSignature | packages/hap-go/compact.go:66-97 | the 10-field encoding succeeds exactly when the payload does, and is the payload, `.` and the signature |
| LegacyCompact.Rebuild | packages/hap-go/compact.go:155-186 | the decoded claim keeps the type, ID, issuer and timestamps; the type alone decides whether the recipient and commitment or the target and method are filled |
| LegacyCompact.DecodeErrors | packages/hap-go/compact.go:100-123 | decoding fails on the regex, then on a count other than 10, then on the version tag, and a success passed all three |
| LegacyCompact.DecodedShape | packages/hap-go/compact.go:155-186 | a decoded claim carries the fields' ID and type, fills the holder the type selects, and has no `exp` exactly when the field reads as 0 |
| LegacyCompact.ParseInt64 | packages/hap-go/compact.go:140-148 | `ParseInt`/`parseLong` accept only an optional sign followed by digits, and a value they return lies within 64 bits |
| LegacyCompact.ParseInt64Signs | packages/hap-java/src/main/java/io/bluescroll/hap/HapCompact.java:146-147 | a leading `+` is ignored and a leading `-` negates, down to the 64-bit minimum, so a signed `at` or `exp` decodes |
| LegacyCompact.ParseInt64Formatted | packages/hap-go/compact.go:140-148 | every 64-bit second, negative ones included, reads back from its decimal text |
| LegacyCompact.ParseInt64Digits | packages/hap-go/compact.go:140-148 | on unsigned digits the legacy reader agrees with the nine-field codec's |
| LegacyCompact.TagHasNoDot | packages/hap-go/compact.go:84 | the version tag holds no `.` |
| LegacyCompact.EncodedSplits | packages/hap-go/compact.go:83-96 | the ten fields of an encodable claim are free of dots, so the encoding splits back into them |
| LegacyCompact.EncodedParts | packages/hap-java/src/main/java/io/bluescroll/hap/HapCompact.java:123 | the encoding splits back into its ten fields under Java's `split` as well |
| LegacyCompact.ReadsEncoding | packages/hap-go/compact.go:125-170 | the field readers give back name, domain, issuer, `at`, `exp` and the signature |
| LegacyCompact.DecodeEncode | packages/hap-java/src/main/java/io/bluescroll/hap/HapCompact.java:118-180 | decoding an encoded legacy claim returns the rebuilt claim and the signature |
| LegacyCompact.DecodedHolder | packages/hap-java/src/main/java/io/bluescroll/hap/HapCompact.java:160-178 | the rebuilt claim fills the holder its type selects with the encoded name and domain, and the matching method field |
| LegacyCompact.ReencodeIsStable | packages/hap-go/compact.go:66-186 | encoding the rebuilt legacy claim gives the same text again |
| LegacyCompact.TryKeysLoop | packages/hap-go/compact.go:261-280 | the legacy key loop computes the shared first-key-wins `TryKeys` |
| LegacyCompact.VerifyCompact | packages/hap-java/src/main/java/io/bluescroll/hap/HapCompact.java:285-328 | the legacy verifier computes `VerifyCompactSpec` |
| LegacyCompact.VerifySignedText | packages/hap-java/src/main/java/io/bluescroll/hap/HapCompact.java:290-298 | past the regex, the legacy verifier splits at the last dot exactly as the nine-field one does (`VerifySigned`) |
| LegacyCompact.SignThenVerify | packages/hap-go/compact.go:234-281 | signing, then verifying with a key set that lists the signer's key, returns the rebuilt legacy claim |
| LegacyCompact.SignedTextSplits | packages/hap-go/compact.go:251-253 | in a legacy encoding the last dot sits before the signature |
| LegacyCompact.AcceptedWhenKeyVerifies | packages/hap-go/compact.go:245-276 | a valid legacy text that decodes and whose payload a listed key verifies is accepted |
| LegacyCompact.ExtractGenerated | packages/hap-go/compact.go:284-301 | extracting from a generated legacy link gives back exactly the texts the format's regex accepts |
| Ids.AlphabetChar | packages/python/human_attestation/sign.py:24 | every alphabet character is an ASCII letter or digit |
| Ids.PickOf | packages/java/src/main/java/io/bluescroll/humanattestation/HumanAttestation.java:50 | every letter or digit has a position in the 62-character alphabet |
| Ids.AlphabetIsAlnum | packages/python/human_attestation/sign.py:24 | the alphabet holds exactly the ASCII letters and digits |
| Ids.GenerateSuffix | packages/java/src/main/java/io/bluescroll/humanattestation/HumanAttestation.java:76-79 | the suffix loop appends one alphabet character per pick, in order |
| Ids.GenerateId | packages/python/human_attestation/sign.py:27-35 | twelve picks make a valid ID on every platform |
| Ids.GenerateTestId | packages/python/human_attestation/sign.py:38-46 | eight picks make a test ID that `is_test_id` accepts on every platform |
| Ids.IdOfIsId | packages/hap-python/hap/sign.py:32-40 | `hap_` and twelve alphabet characters match the ID expression |
| Ids.TestIdOfIsTestId | packages/hap-python/hap/sign.py:43-51 | `hap_test_` and eight alphabet characters match the test-ID expression |
| Ids.EveryIdIsGenerated | packages/python/human_attestation/sign.py:27-35 | every valid ID is made by some twelve picks |
| Ids.EveryTestIdIsGenerated | packages/python/human_attestation/sign.py:38-46 | every test ID is made by some eight picks |
| Ids.GoGenerateId | packages/go/sign.go:20-32 | a failing random source gives an error; otherwise the twelve bytes reduced modulo 62 pick a valid ID |
| Ids.GoGenerateTestId | packages/go/sign.go:35-47 | the same with eight bytes and a test ID |
| Ids.GoReachesEveryId | packages/hap-go/sign.go:20-32 | reducing bytes modulo 62 still reaches every valid ID |
| Ids.JavaHashContent | packages/java/src/main/java/io/bluescroll/humanattestation/HumanAttestation.java:117-123 | Java's padded `toHexString` loop gives the same text as Python's and Go's hex encoder |
| Ids.HexReadsBack | packages/python/human_attestation/sign.py:198-210 | the hex text is lower case and reads back, pair by pair, as the digest |
| Ids.HashTextShape | packages/go/sign.go:55-58 | a 32-byte digest gives `sha256:` and 64 lower-case hex digits, 71 octets |
| Ids.HashTextInjective | packages/python/human_attestation/sign.py:198-210 | different digests give different texts |
| Claims.CreateClaimFields | packages/python/human_attestation/sign.py:162-193 | the builder always sets version, ID, recipient name, `at`, issuer, method and description; domain and tier only when non-empty, `exp` only when the day count applies, effort dimensions as given |
| Claims.ExpiryDiverges | packages/go/sign.go:152 | Python and Go write different expiries exactly for a negative day count |
| Claims.GoCreateClaim | packages/go/sign.go:128-175 | an ID-generation error is passed on with no claim; otherwise the claim is built around a valid ID |
| Claims.CreatedClaimIsEncodable | packages/python/human_attestation/sign.py:128-195 | a built claim with usable method, name and issuer fits the compact format when its timestamps are at or after 1970, fit the platform's integer and end no later than its calendar |
| Claims.WithVersion | packages/python/human_attestation/sign.py:115 | the claim handed to the signer always has a version |
| Claims.WithVersionChangesOnlyV | packages/python/human_attestation/sign.py:115 | the version is filled in only when missing, nothing else changes, and filling twice is filling once |
| Claims.ExportThenImport | packages/python/human_attestation/sign.py:75-99 | an exported 32-byte key is an `OKP`/`Ed25519` record with the given `kid` and 43 symbols of `x`, and imports back as that key |
| Claims.ExportedKeyAccepts | packages/go/sign.go:70-78 | a signer's exported key accepts that signer's signatures |
| Claims.EffortBuildersDifferOnlyInType | packages/hap-python/hap/sign.py:222-266 | the four effort builders agree on everything but the type tag, and the tags tell the kinds apart |
| Claims.TagsDiffer | packages/hap-go/sign.go:204-320 | the four type tags differ from one another and from `recipient_commitment` |
| Claims.BuiltClaimsFeedTheCodec | packages/hap-python/hap/sign.py:180-219 | the legacy codec takes an effort claim's target and method, and a commitment claim's recipient and commitment; a commitment claim has no tier |
| Claims.GoCreateEffortClaim | packages/hap-go/sign.go:123-153 | an ID-generation error is passed on with no claim; otherwise the effort claim is built around a valid ID |
| Claims.GoCreateRecipientCommitmentClaim | packages/hap-go/sign.go:165-191 | the same for the recipient-commitment builder |
| Verify.InvalidIdIsNotSent | packages/go/verify.go:88-91 | an invalid ID is answered `invalid_format` without consulting the authority |
| Verify.FirstKeyWithKid | packages/hap-python/hap/verify.py:146 | the key found is a listed key with that `kid`, and none is found exactly when no key has it |
| Verify.FirstKeyIsFirst | packages/go/verify.go:153-158 | the key found is the one at the first index with that `kid` |
| Verify.FindKey | packages/java/src/main/java/io/bluescroll/humanattestation/HumanAttestation.java:238-244 | the lookup loop with its `break` finds the first key with that `kid` |
| Verify.VerifySignature | packages/go/verify.go:130-192 | the signature check runs its steps in the source's order, as `VerifySignatureSpec` states, with PyJWT's `exp` refusal on Python between the payload and the issuer |
| Verify.SignatureValidIff | packages/hap-python/hap/verify.py:139-171 | a check succeeds exactly when keys and JWS are present, the `kid` is present, the first key with that `kid` verifies, the payload is a claim, on Python the claim has no `exp`, and its issuer is the one asked; the signed claim is then returned |
| Verify.FailureOrder | packages/go/verify.go:143-189 | a bad signature is reported only after a key was found, and a bad payload, a refused `exp` or an issuer mismatch only for a signature that verified |
| Verify.OnlyFirstKeyTried | packages/java/src/main/java/io/bluescroll/humanattestation/HumanAttestation.java:238-258 | when the first key with the `kid` does not verify, a later key of the same name is never tried |
| Verify.EmptyKidDiverges | packages/java/src/main/java/io/bluescroll/humanattestation/HumanAttestation.java:232-236 | an empty `kid` stops Python and Go at the header; Java looks up a key named "" |
| Verify.SignedByPublishedKey | packages/hap-python/hap/verify.py:139-171 | a claim signed with a published key under its `kid`, by the authority asked, passes the check, except on Python when it has an `exp` |
| Verify.PythonRefusesExpiringClaim | packages/hap-python/hap/verify.py:154-170 | every claim the Python builder makes with an expiry is refused by hap-python's check even when a published key signed it |
| Verify.SignedByPublishedKeyPassesWithoutJwtExp | packages/hap-python/hap/verify.py:154-159 | with PyJWT's `exp` validation off, a claim signed with a published key by the authority asked passes on every platform, as Go and Java already do |
| Verify.VerifiedClaimWasChecked | packages/go/verify.go:195-226 | a claim comes back only for a valid ID and a valid answer, and, when the check is on and a JWS is present, only after it passed; an invalid ID gives no claim |
| Verify.UncheckedClaimIsReturned | packages/hap-python/hap/verify.py:198-207 | with the check off or no JWS present, the answer's claim is returned without looking at keys |
| Verify.DefaultVerifyOptions | packages/go/verify.go:32-38 | the default options turn signature checking on |
| Verify.ChosenOptions | packages/go/verify.go:196-201 | the first options passed are used, else the defaults |
| Verify.ZeroOptionsSkipTheCheck | packages/go/verify.go:196-218 | without options a failing JWS gives no claim; with zero-valued options the answer's claim is returned anyway |
| Verify.ExtractIdFromPath | packages/hap-python/hap/verify.py:221-228 | an extracted ID is valid on the platform and holds no `/` |
| Verify.ExtractIdOfPath | packages/go/verify.go:229-246 | a path ending in `/` and an ID yields that ID on every platform |
| Verify.TrailingSlashDiverges | packages/java/src/main/java/io/bluescroll/humanattestation/HumanAttestation.java:281-296 | with a `/` after the ID only Java still finds it |
| Verify.ExpiredIff | packages/go/verify.go:249-260 | a claim is expired exactly when its expiry parses to an instant strictly before now; only Python can fail to answer, on an unparsable expiry |
| Verify.CreatedClaimExpiry | packages/hap-python/hap/verify.py:243-248 | a claim built to last some days, with an expiry inside the platform's calendar, is unexpired up to its last second and expired after; one built without expiry never expires |
| Verify.RecipientMatchAgrees | packages/go/verify.go:263-265 | the platforms agree on every non-empty domain; asked for "", Go matches a claim without a recipient domain and the others do not |
| Verify.CompanyMatchNeedsKind | packages/hap-python/hap/verify.py:262-272 | only a human-effort or employer-commitment claim can match, a human-effort one by its target's domain |
| Verify.OtherKindsNeverMatch | packages/hap-python/hap/verify.py:272 | a physical-delivery, financial or content claim built for a company is not recognised as being for it |
| Verify.BuiltCommitmentMatches | packages/hap-go/verify.go:269-271 | a recipient commitment built for a domain is recognised by it |

## Left out

- HTTP, timeouts and clients: the authority's answer for an ID and its key set are parameters (`Verify.Fetched`).
- Ed25519 (RFC 8032) and the JWS compact serialization (section 7.1 of RFC 7515): a signature scheme value with a correctness predicate, and a JWS given already parsed. `sign_claim`/`SignClaim` are modelled only by the version injection (`Claims.WithVersion`).
- Verify.VerifySignatureSpec: PyJWT's `exp` validation is modelled as refusing every present `exp`. That is its answer to the ISO-8601 text HAP writes there; an `exp` that `int()` reads (a digit text) it would compare with the clock instead, which the model does not do. Its `nbf` and `iat` checks concern fields a HAP claim does not have.
- SHA-256: the hash format is modelled on a given digest.
- The PKCS#8 and X.509 wrapping in `wrapEd25519PrivateKey`/`wrapEd25519PublicKey`: JCA plumbing.
- Random sources: IDs are generated from given picks or bytes. Java's `nextInt(62)` and Python's `secrets.choice` are uniform picks. Go reduces a byte modulo 62.
- Date-time parsing and formatting, and the clock: the `Calendar` value and an integer `now`. Python's `int(dt.timestamp())` drops fractions of a second, so round trips hold at second granularity only. The calendar's ranges are written out (`Types.FirstSecond`, `Types.LastSecond`); what Go's formatter writes for a second outside the years 0 to 9999 is left unconstrained, since `Types.Coherent` promises round trips only inside the range.
- Claims.CreateClaim: Python's `OverflowError` when now plus the expiry passes the year 9999 is not modelled; the builder formats the second anyway. `Claims.CreatedClaimIsEncodable` and `Verify.CreatedClaimExpiry` therefore require timestamps inside the calendar.
- Compact.ReencodeIsStable: promised only for timestamps inside the platform's calendar, because the calendar says nothing outside it. The same holds for `LegacyCompact.ReencodeIsStable`.
- Verify.CreatedClaimExpiry: promised only for an expiry inside the platform's calendar, for the same reason.
- Grammar.IsValidCompact: Python's `\d` also matches non-ASCII decimal digits, which `int()` reads too. The model's grammar accepts ASCII digits only, so for Python it refuses texts with other digit characters that Python accepts.
- Grammar.CompactSplitIsRegex: states agreement with the ASCII-digit reading of `\d`, for the same reason.
- URL parsing: links are built and read on the query text. ID extraction works on the path (`Verify.ExtractIdFromPath`).
- UTF-8 conversion of field values: fields are their octets.
- Claims.CreateClaim: not modelled for Java, because the Java builder (`Signer.java`) is not part of this model. Its branches are the Go and Python ones.
- The legacy trees refer to constants they do not define: `HAPCompactVersion`, `HAPCompactRegex` and `ClaimTypeRecipientCommitment` in `hap-go`, and `Hap.COMPACT_VERSION` and `Hap.HAP_COMPACT_PATTERN` in `hap-java`. They are parameters of `LegacyCompact.Format`.
  - LegacyCompact.DecodeEncode: requires that the format's regex accepts the encoded text, because that regex is a parameter.
  - `IsTestHapID` in `hap-go` uses an undefined regex and is not modelled.
  - The claim-type constants of `hap-go` are taken to be the same texts as in `hap-python`.
- Go's `SignClaim` injects no version, and Java's signer is not part of this model: `Claims.WithVersion` is the Python behaviour.
- Concurrency, exceptions other than the modelled error results, and logging.
- LegacyCompact.ParseInt64: hap-java's `Long.parseLong` also reads non-ASCII decimal digits; fields are octets here, so only ASCII digits are read.
- Verify.VerifySignatureSpec: key import is `CompactVerify.ImportKey` (a 32-byte `x`) on every platform. How go-jose and nimbus treat a key of another length is library internals.
- Python's current `verify` module is not part of this model. Its behaviour is taken from `hap-python/hap/verify.py` and the Go and Java copies, with Python's recipient match read as `hap-python`'s `to.get("domain") == domain`.

## Findings

| source | as written | input that shows it | evidently intended | confidence | as-written member | corrected member |
|---|---|---|---|---|---|---|
| packages/java/src/main/java/io/bluescroll/humanattestation/Compact.java:325-344 | `extractCompactFromUrl` reads `URI.getQuery()`, which is already decoded, then decodes each value again with `URLDecoder`; `hap-java`'s `HapCompact.java` lines 361-380 do the same | a compact text whose issuer field holds `%2E` (any issuer with a dot), embedded by `generateVerificationUrl` | the text embedded by `generateVerificationUrl` comes back, as in Python and Go | not executed | Urls.JavaAsWrittenDecodesTwice | Urls.ExtractGenerated |
| packages/hap-python/hap/verify.py:154-159 | `jwt.decode` turns off only `verify_aud`, so PyJWT validates `exp` as an integer and raises on the ISO-8601 text the builders write (hap-python/hap/sign.py:173-175); lines 170-171 answer `valid: False` | a claim from the Python builder with `expires_in_days=1`, signed with a published key by the authority asked | the claim passes, as in hap-go and hap-java | not executed | Verify.PythonRefusesExpiringClaim | Verify.SignedByPublishedKeyPassesWithoutJwtExp |
| packages/go/compact.go:226-235 | `VerifyCompact` passes a decoded `x` of any length to `ed25519.Verify`, which panics on a key that is not 32 bytes; `hap-go/compact.go` lines 261-270 do the same | a key set whose first JWK has an `x` of 42 symbols (31 bytes) | such a key is skipped, as the Python and Java verifiers do | not executed | CompactVerify.GoPanicsOnShortKey | CompactVerify.GoAgreesWithoutShortKeys |
