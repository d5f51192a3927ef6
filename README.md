# KeeWeb launcher: bundle selection and signature gate

A model of KeeWeb's desktop launcher script (`desktop/app/main.js`). On every start it
decides whether to load the application bundle shipped with the installer or a newer
`app.asar` that the auto-updater placed in the user-data directory. The downloaded
archive is chosen only when it is strictly fresher on disk and its `package.json` declares
a newer version. Even then it is loaded only after `signatures.json` next to it passes a
fail-closed check. The manifest's self-signature (key `kwResSelf`) must verify over the
serialised rest of the manifest, and every remaining entry must verify against the full
bytes of its file, all under one embedded public key. Any failure there ends the process
with status 1; it never falls back to the shipped bundle.

Files and modules:

- `platform.dfy` (`Platform`): the host as values. File-system maps stand for `statSync`,
  `readFileSync` and `require(...).version`. `Host` also carries `parseJson`, `stringify`
  and `verify`, which are arbitrary functions, so every result holds for any JSON
  serialiser and any signature primitive.
- `versions.dfy` (`Versions`): `split('.')`, unary `+` on each component (NaN included),
  and the component loop as the function `Compare`, with its properties.
- `signatures.dfy` (`Signatures`): `validateSignature` and `validateDataSignature`, the
  fatal outcomes and their diagnostics, and the specification predicates `Trusted` and
  `Justified`.
- `launcher.dfy` (`Launcher`): the top-level selector as a method with main.js's
  `for` loop and `break`s, and the decision predicate `CandidateChosen` it is proved against.

The loop runs over the local version's components only. A missing or non-numeric
candidate component is NaN, which is neither greater nor smaller than anything. So
"1.2.5" is not newer than "1.2", and "1.0" is the same as "1.0.0". Padding the shorter
version with zeros would rank "1.2.1" above "1.2"; the launcher does not.

Unary `+` yields an IEEE double. A component keeps its exact decimal value in the model
(`Num`), and `Greater` compares the doubles that value rounds to (`ToDouble`):
- below 2^53 the double is exact;
- above 2^53 it is rounded to 53 significant bits, ties to even;
- from a 1025-bit value on it is Infinity.

So "9007199254740993" ties with "9007199254740992", and two components beyond 2^1024 tie.

## Model

| member | source | states |
|---|---|---|
| `Versions.Split` | desktop/app/main.js:30-31 | splitting on '.' yields at least one part and no part contains a dot |
| `Versions.JoinSplit` | desktop/app/main.js:30-31 | joining the parts of a split with '.' gives back the original string |
| `Versions.SplitJoin` | desktop/app/main.js:30-31 | splitting the '.'-join of dot-free parts gives back exactly those parts |
| `Versions.SplitLength` | desktop/app/main.js:30-31 | splitting yields exactly one part more than the string has dots |
| `Versions.SplitAppend` | desktop/app/main.js:30-31 | splitting two strings joined by a dot gives the parts of the first followed by the parts of the second |
| `Versions.ParseVersion` | desktop/app/main.js:30-33 | a version has one component per dot-separated part, and a component is a number exactly when its part is all digits |
| `Versions.ParseSingle` | desktop/app/main.js:30-33 | a string without dots parses to the single component `+s` |
| `Versions.ParseThree` | desktop/app/main.js:30-33 | three dot-free parts joined by dots parse to their three numbers, in order |
| `Versions.ParseAppend` | desktop/app/main.js:30-33 | parsing two versions joined by a dot gives the components of the first followed by those of the second |
| `Versions.ToNumber` | desktop/app/main.js:33 | unary `+` on a component gives a number exactly when the component is all decimal digits, and 0 for the empty component; anything else is NaN |
| `Versions.DecimalRoundTrip` | desktop/app/main.js:33 | unary `+` on the decimal numeral of n reads the value n (before rounding to a double) |
| `Versions.LeadingZeroIgnored` | desktop/app/main.js:33 | a leading zero does not change a component's value: "1.01" and "1.1" have equal components |
| `Versions.PrecisionLossTies` | desktop/app/main.js:33 | 2^53 and 2^53 + 1 round to the same double, so neither component is greater than the other |
| `Versions.HugeComponentsTie` | desktop/app/main.js:33 | components of more than 1024 bits are both Infinity and neither is greater |
| `Versions.ToDoubleMonotone` | desktop/app/main.js:33 | rounding an integer to a double never reverses an order: for a <= b the double of a is never greater than the double of b |
| `Versions.GreaterImpliesLarger` | desktop/app/main.js:33-42 | the launcher's `>` on two numeric components (`Greater`, decided on their doubles) holds only when the first number really is the larger |
| `Versions.DoubleBounds` | desktop/app/main.js:33 | above 2^53 the double of a k-bit value lies between 2^(k-1) and 2^k, and is Infinity only for values of at least 1024 bits |
| `Versions.VersionRoundTrip` | desktop/app/main.js:30-33 | a version written as dotted decimals parses back to exactly its numbers (their values before rounding), component by component |
| `Versions.CompareBeyondCandidate` | desktop/app/main.js:33 | from an index past the candidate's last component nothing decides: reading past the end gives NaN |
| `Versions.CompareSelf` | desktop/app/main.js:32-45 | a version compared with itself is never newer or older |
| `Versions.CompareAntisymmetric` | desktop/app/main.js:32-45 | swapping local and candidate turns Newer into Older and back, and keeps Same |
| `Versions.Compare` | desktop/app/main.js:32-45 | the candidate is newer iff at some index present in both versions its component is greater and every earlier component is tied, and older iff the local one's is greater there |
| `Versions.TrailingIgnored` | desktop/app/main.js:32 | candidate components beyond the local version's length never change the result |
| `Versions.LongerCandidateNotNewer` | desktop/app/main.js:32-45 | a candidate that extends the local version with extra components compares Same |
| `Versions.ShorterCandidateNotNewer` | desktop/app/main.js:33-45 | a candidate that is a prefix of the local version compares Same: its missing components are NaN |
| `Signatures.Message` | desktop/app/main.js:89 | a signature failure's diagnostic is "Resource corrupted: " followed by the failing name, and a caught exception's starts with "Error validating signatures: " |
| `Signatures.MessageIdentifiesFailure` | desktop/app/main.js:38-95 | distinct failures of the model (its `Fatal` values) print distinct diagnostics, so the printed text names the failing resource or the manifest's path; a failing entry named "self" and a failing self-signature are the same `Fatal` (see `EntryNamedSelfReadsAsSelfFailure`) |
| `Signatures.DescribeIdentifiesError` | desktop/app/main.js:37-38 | the model's description of a caught exception determines which of its two modelled failures (unreadable file, malformed manifest) occurred and on which path |
| `Signatures.LoadManifest` | desktop/app/main.js:55 | the manifest loads exactly when `signatures.json` exists and parses, and is then the parse result; otherwise the failure is a thrown exception naming that path |
| `Signatures.Entries` | desktop/app/main.js:60 | deleting `kwResSelf` leaves every other key with its value and nothing else |
| `Signatures.ValidateDataSignature` | desktop/app/main.js:70-91 | passes exactly when the signature verifies under the key, and otherwise fails naming its target |
| `Signatures.ValidateSignature` | desktop/app/main.js:54-68 | succeeds iff the manifest loads, has both required keys, its self-signature verifies over the rest, and every remaining entry's file exists and verifies; each failure is one the manifest actually has, in the order load, keys, self, entries; the self check comes first and is the only one made when it fails; a file check is recorded only once the entry's file has been read, and on success every entry was checked |
| `Signatures.SingleCorruptEntryIsNamed` | desktop/app/main.js:63-67 | with a sound manifest and exactly one entry whose file fails its signature, the only failure that can be reported names that entry |
| `Signatures.EntryNamedSelfReadsAsSelfFailure` | desktop/app/main.js:62-66 | with a sound manifest and self-signature, a failing entry named "self" may be reported as `SignatureInvalid("self")` and prints "Resource corrupted: self", the same text as a failing self-signature |
| `Launcher.BaseFile` | desktop/app/main.js:18 | the shipped bundle's freshness is read from the directory itself when it ends in `app.asar`, and from the launcher script otherwise |
| `Launcher.Freshness` | desktop/app/main.js:25-26 | a file's freshness is the later of its modification and status-change times |
| `Launcher.SelectEntryPoint` | desktop/app/main.js:13-50 | validation runs iff the candidate is stat-able, strictly fresher, both versions read and the candidate's is newer; otherwise the shipped directory is kept; once chosen, the candidate is loaded iff it is trusted, and otherwise the process exits with a failure the manifest actually has, printing that failure's `Message` |
| `Launcher.LoadedArchiveIsVerified` | desktop/app/main.js:34-36 | when the user-data bundle is trusted, the archive that will be loaded exists and carries the manifest's `app.asar` signature |
| `Launcher.EqualVersionsKeepBase` | desktop/app/main.js:32-45 | equal version strings never select the candidate |
| `Launcher.UpgradeIsChosen` | desktop/app/main.js:27-34 | a fresher candidate "2.0.0" over a local "1.9.9" is chosen |
| `Launcher.PrecisionLossKeepsBase` | desktop/app/main.js:33 | a fresher candidate "9007199254740993" over a local "9007199254740992" is not chosen, because both round to the same double |
| `Launcher.MissingComponentKeepsBase` | desktop/app/main.js:30-45 | a candidate whose version is a dotted prefix of the local one ("1.0" against "1.0.0") is never chosen |
| `Launcher.ExtraComponentKeepsBase` | desktop/app/main.js:30-45 | a candidate whose version extends the local one with more dotted components ("1.2.5" against "1.2") is never chosen |

## Left out

- Signature mathematics (RSASSA-PKCS1-v1_5 with SHA-256), base64 decoding of signatures and PEM parsing of the key: one arbitrary `verify(key, data, signature)` stands for them. The key is a parameter rather than the embedded constant.
- The fallback that reads `app/resources/public-key.pem` when the key starts with `@@`: it is a build-time placeholder and is dead with the embedded key.
- `JSON.parse` and `JSON.stringify`: arbitrary functions of the bytes and of the map. The bytes the self-signature covers (main.js:61) follow the key order of the file, which a map does not have; `stringify` here is a function of the map alone.
- Manifest values: the model reads the manifest as a map from strings to strings, and any other parse result counts as malformed. main.js is looser:
  - a parse result without the two keys (a JSON array, say) exits with "Invalid signature file";
  - a signature written as a JSON array of bytes, or as a `{"type":"Buffer","data":[…]}` object, is truthy for the key test at main.js:57, and `Buffer.from` accepts it at main.js:87;
  - so main.js can accept such a manifest where the model rejects it.
- Signatures.ValidateSignature: the contract does not say WHICH failing entry is reported when several fail. The launcher reports the first failing one in `Object.keys` order. The model picks entries in an unspecified order, because key order is not modelled.
- Signatures.Message: the text of Node's exceptions (missing file, JSON syntax error) is represented by a fixed description, not Node's exact wording.
- Signatures.MessageIdentifiesFailure: injectivity holds over the model's failures only. A failing entry named "self" and a failing self-signature are one failure in the model and print the same text in main.js, so the printed text cannot tell those two checks apart.
- Signatures.DescribeIdentifiesError: proved for the model's stand-in descriptions. Node's own exception texts do not always name a path: a JSON syntax error names no file, and reading a directory fails with "EISDIR: illegal operation on a directory, read".
- Versions.ToNumber: models unary `+` only on strings of decimal digits and on the empty string (which gives 0). Every other string is NaN, including forms JavaScript would accept: surrounding whitespace, a sign, a fraction, an exponent, hexadecimal, "Infinity".
- Versions.Greater: rounds the exact decimal value correctly to a double. ECMAScript lets an engine treat digits after the 20th significant one as zero before rounding, which can move such a value by one unit in the last place; that latitude is not modelled.
- `path.join` normalisation: `PathJoin` concatenates with '/'.
- Electron's `app.getPath`, `__dirname` and `__filename`: inputs of the method.
- Timestamps: `Date.getTime()` values are integers. Stat data and file contents are independent maps.
- The `require` of `app.js` from the chosen directory: the method returns the directory. Module caching is not modelled.
- `console.error` logging in the swallowed-error branch. `process.exit(1)` is the `Exit` outcome.
