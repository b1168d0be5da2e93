# Election client core, modelled in Dafny

This project models the deterministic core of a mobile voting client. The client
does four things:

- it obtains an anonymous voting token by RSA blind signature (RSABSSA-SHA384-PSS-Randomized, RFC 9474);
- it sends an encrypted one-hot ballot to the ballot box;
- it accepts the ballot box's receipt only when its signature verifies;
- it keeps a salted PIN hash per user in device storage.

Cryptography, storage and HTTP become parameters: function-valued fields of an
environment datatype, or values. The model fixes everything the client itself
decides:

- the codecs: base 64, hex, PEM, UTF-8 and UTF-16;
- byte concatenation;
- the choice of signing path;
- the 32-bit PIN hash;
- the PIN record store;
- request bodies;
- error order and the receipt acceptance rule;
- result assembly.

The modules are:

- `Wrappers`: Option, Result and Outcome, a key handle, and a transport error.
- `Text`: bytes, then these features of JavaScript strings:
  - the white space that `\s` and `trim` see;
  - `trim`;
  - UTF-16 code units;
  - UTF-8, proved injective.
- `Base64`: the padded base 64 of section 4 of RFC 4648, with decoding proved to invert encoding.
- `BlindRsa`: the helpers of `utils/blind-rsa.ts`: base 64 and hex to and from byte arrays, including the browser fallbacks.
- `CryptoUtils`: from `utils/crypto-utils.ts`:
  - `toPem` and `pemToDer`, and their round trip;
  - `concatUint8`, which writes an array in place;
  - the dispatch of `signWithStoredPrivateKey`.
- `Biometric`: `simpleHash` with JavaScript's 32-bit wrap-around, `hashPIN`, and the PIN record store as a class over a map.
- `SubmitBallot`: `submitBallot`: the ballot, the body posted, the acceptance rule for the receipt, and what that rule guarantees.
- `GetTokenSigned`: `getTokenSigned`: its failure policy, the message and provenance payload, the request, and the result.

Two points of the code deserve a note:

- **Receipt tampering.** A receipt check is expected to reject any change to `ballotId` or `ciphertext`. The code hashes `utf8(ballotId)` followed directly by `utf8(ciphertext)`, with no separator. So altering one of the two is detected (`ReceiptBindsCiphertext`, `ReceiptBindsBallotId`), but moving the boundary between them is not (`BoundaryShiftUndetected`). The model keeps the code's digest, because the ballot box must compute the same bytes.
- **Salt lengths.** Signing uses a PSS salt of 48 bytes (`CryptoUtils.PemSaltLength`). Receipt verification uses 64 (`SubmitBallot.ReceiptSaltLength`). The two differ, and both are kept as written.

## Model

| member | source | states |
|---|---|---|
| Text.RemoveWhitespace | utils/crypto-utils.ts:11 | `replace(/\s+/g, "")` leaves text with no `\s` character, no longer than the input, and leaves text without white space unchanged |
| Text.RemoveWhitespaceChar | utils/crypto-utils.ts:11 | one character is dropped exactly when it is white space |
| Text.RemoveWhitespaceAppend | utils/crypto-utils.ts:11 | the pass works piece by piece, so what is kept stays in order; with `RemoveWhitespaceChar` this fixes the result for every text |
| Text.RemoveWhitespaceCounts | utils/crypto-utils.ts:11 | every character other than white space is kept as often as it occurs |
| Text.Trim | utils/crypto-utils.ts:51 | `trim()` gives the part of the input at some offset that neither starts nor ends with white space, with only white space before and after it; text without white space is unchanged |
| Text.Utf16Char | utils/biometric.ts:17 | a character below 2^16 is one code unit, its own value; any other is a high surrogate followed by a low surrogate that together encode it |
| Text.Utf16 | utils/biometric.ts:16-17 | the code units `charCodeAt` reads: one or two per character, each below 2^16 |
| Text.Utf16Append | utils/biometric.ts:16-17 | the code units of a concatenation are those of its parts, one after the other |
| Text.Utf8 | services/getTokenSigned.ts:67 | the UTF-8 bytes of a string, one to four per character |
| Text.TrimKeepsPrefix | utils/crypto-utils.ts:51 | text that starts with a prefix whose first and last characters are not blank still starts with it after `trim()` |
| Text.Utf8Injective | services/submitBallot.ts:65-68 | different strings have different UTF-8 bytes |
| Base64.Encode | utils/crypto-utils.ts:5 | the base 64 text is 4·⌈n/3⌉ characters long, each a symbol of the alphabet or `=` |
| Base64.EncodeIsPlain | utils/crypto-utils.ts:11 | base 64 text contains no white space and no `-`, so the marker and white-space passes of `pemToDer` leave it alone |
| Base64.Decode | utils/crypto-utils.ts:12 | `Buffer.from(b64, "base64")` on well-formed text gives three bytes per quantum, less one per `=` |
| Base64.DecodeEncode | utils/blind-rsa.ts:36-55 | the encoding of any bytes is well formed and decodes back to those bytes |
| BlindRsa.BinaryString | utils/blind-rsa.ts:52-53 | one character per byte, whose code is the byte |
| BlindRsa.Atob | utils/blind-rsa.ts:41 | `atob` gives a binary string whose char codes are the decoded bytes |
| BlindRsa.Btoa | utils/blind-rsa.ts:54 | `btoa` gives well-formed base 64 that `atob` turns back into the same binary string |
| BlindRsa.CharCodesOfBinaryString | utils/blind-rsa.ts:41-45 | the char codes of the binary string of bytes are the bytes |
| BlindRsa.B64ToUint8Array | utils/blind-rsa.ts:36-46 | on both paths, `Buffer` and the `atob` loop, the array holds the bytes that the base 64 text stands for |
| BlindRsa.Uint8ArrayToB64 | utils/blind-rsa.ts:48-55 | on both paths, `Buffer` and the `binary +=` loop with `btoa`, the result is the padded base 64 of the input, 4·⌈n/3⌉ long |
| BlindRsa.B64RoundTrip | utils/blind-rsa.ts:36-55 | `b64ToUint8Array(uint8ArrayToB64(u)) == u` |
| BlindRsa.HexValue | utils/blind-rsa.ts:63 | `parseInt(s, 16)` of k hex digits is below 16^k |
| BlindRsa.HexValueOfPair | utils/blind-rsa.ts:63 | two digits read as 16 times the first plus the second |
| BlindRsa.PairValues | utils/blind-rsa.ts:60-64 | half as many bytes as digits; byte i is `parseInt` of digit pair i, an unpaired last digit being dropped |
| BlindRsa.StripPrefix | utils/blind-rsa.ts:59 | a leading `0x` is cut and the rest kept; text without it is unchanged |
| BlindRsa.HexBytes | utils/blind-rsa.ts:57-66 | half as many bytes as digits after the prefix, byte i being `parseInt` of pair i |
| BlindRsa.HexToUint8Array | utils/blind-rsa.ts:57-66 | the loop, including its extra round on an odd digit count, fills the array with the pair values of the text without its prefix, and gives the empty array for empty text |
| BlindRsa.HexOfEmpty | utils/blind-rsa.ts:58 | the empty string gives the empty array |
| BlindRsa.StripPrefixOnce | utils/blind-rsa.ts:59 | one leading `0x` is dropped; text without one is kept as is; a second `0x` is not removed |
| BlindRsa.LowerHex | services/submitBallot.ts:99 | `toString("hex")` gives two hex digits per byte, all lowercase (`0`-`9`, `a`-`f`) |
| BlindRsa.HexRoundTrip | utils/blind-rsa.ts:57-66 | decoding the lowercase hex of bytes gives the bytes |
| CryptoUtils.Chunks | utils/crypto-utils.ts:6 | `match(/.{1,64}/g)` cuts the text into lines of 1 to 64 characters, all but the last exactly 64, that join back to the text |
| CryptoUtils.Join | utils/crypto-utils.ts:7 | `lines.join(sep)` is as long as the lines together plus one separator between each two |
| CryptoUtils.ToPem | utils/crypto-utils.ts:4-8 | the PEM text starts with `-----BEGIN h-----` and a line feed, and ends with a line feed, `-----END h-----` and a line feed |
| CryptoUtils.ToPemBody | utils/crypto-utils.ts:5-7 | the lines between the armour lines are at most 64 long and together are exactly the base 64 of the DER bytes |
| CryptoUtils.MarkerLength | utils/crypto-utils.ts:11 | a positive result is the length of a match of `/-----[^-]+-----/` at the front (five dashes, a non-empty run without `-`, five dashes), and every such match has that length, so 0 means there is none |
| CryptoUtils.StripMarkers | utils/crypto-utils.ts:11 | the marker pass never lengthens the text |
| CryptoUtils.StripPlain | utils/crypto-utils.ts:11 | text without `-` passes the marker pass unchanged, whatever follows |
| CryptoUtils.PemBody | utils/crypto-utils.ts:11 | after both passes no white space is left |
| CryptoUtils.PemToDer | utils/crypto-utils.ts:10-13 | for text without `-`, the DER bytes are the base 64 decoding of the text with its white space removed |
| CryptoUtils.PemToDerArmoured | utils/crypto-utils.ts:10-13 | for `-----BEGIN h-----` + body + `-----END h-----` + trailer with no `-` in header, body or trailer, both armour lines are cut, white space is dropped and the rest is base 64 decoded |
| CryptoUtils.StripFrontMarker | utils/crypto-utils.ts:11 | a marker with non-empty, dash-free inner text is cut from the front |
| CryptoUtils.PemRoundTrip | utils/crypto-utils.ts:4-13 | `pemToDer(toPem(h, der)) == der` whenever `h` has no `-` |
| CryptoUtils.PemRoundTripNeedsPlainHeader | utils/crypto-utils.ts:11 | with the header `A-B` the marker pass leaves text that starts with `-`, which is outside well-formed base 64, so the round trip is not established for such headers |
| CryptoUtils.TotalLength | utils/crypto-utils.ts:30 | the reduced length is at least the length of every input |
| CryptoUtils.Flatten | utils/crypto-utils.ts:30-31 | the concatenation is as long as the sum of the lengths |
| CryptoUtils.FlattenSlice | utils/crypto-utils.ts:32-36 | input k lies in the result at offset len(0) + … + len(k-1), unchanged |
| CryptoUtils.FlattenPair | utils/crypto-utils.ts:29-38 | two arrays concatenate end to end |
| CryptoUtils.Set | utils/crypto-utils.ts:34 | `out.set(a, offset)` writes `a` at `offset` and leaves every other byte as it was |
| CryptoUtils.ConcatUint8 | utils/crypto-utils.ts:29-38 | the loop leaves the array holding the inputs one after another |
| CryptoUtils.Classify | utils/crypto-utils.ts:51-76 | a secret takes the PEM path, with the DER bytes of the PEM, exactly when its trimmed text starts with `-----BEGIN`; otherwise its base 64 decoding is the secret key when 64 bytes long, the seed when 32, and any other length is the unsupported-format error |
| CryptoUtils.SignWithStoredPrivateKey | utils/crypto-utils.ts:46-80 | PEM: RSA-PSS with salt 48 over the data, failing with the import error when import fails and with its own error when `subtle.sign` is missing. Base 64: detached signature with the 64-byte key, or with the key derived from a 32-byte seed. Any other length: unsupported format |
| CryptoUtils.ClassifyPem | utils/crypto-utils.ts:51-53 | the output of `toPem` (header without `-`) takes the PEM path with its own DER bytes |
| CryptoUtils.ClassifyBase64 | utils/crypto-utils.ts:66-76 | the base 64 of raw bytes is never taken for PEM and is classified by its length |
| Biometric.ToInt32 | utils/biometric.ts:19 | `hash & hash` yields a signed 32-bit value congruent to its operand modulo 2^32, and is the identity on 32-bit values |
| Biometric.StepIsTimes31 | utils/biometric.ts:18-19 | one round as written, `(hash << 5) - hash + char` then `& hash`, equals ToInt32(31·hash + char) |
| Biometric.HashValue | utils/biometric.ts:15-20 | the running hash is always a signed 32-bit value |
| Biometric.SimpleHash | utils/biometric.ts:14-22 | the loop over the code units computes h₀ = 0, hᵢ₊₁ = ToInt32(31·hᵢ + unitᵢ) and returns the hex of the absolute value |
| Biometric.HexOfNat | utils/biometric.ts:21 | `toString(16)` of a number: at least one lowercase hex digit, no leading zero, one digit exactly below 16 |
| Biometric.HexOfNatValue | utils/biometric.ts:21 | `toString(16)` digits read back as the number |
| Biometric.SimpleHashOf | utils/biometric.ts:14-22 | the value `simpleHash` returns is at least one lowercase hex digit |
| Biometric.SimpleHashShape | utils/biometric.ts:21 | the PIN hash is 1 to 8 lowercase hex digits without leading zeros, worth the absolute hash, at most 2^31 |
| Biometric.MinInt32Rendering | utils/biometric.ts:21 | the hash −2^31 renders as `80000000` |
| Biometric.EmptyHash | utils/biometric.ts:15-21 | the empty input hashes to `0` |
| Biometric.SignIsLost | utils/biometric.ts:21 | inputs whose hashes are opposite get the same PIN hash |
| Biometric.HashPin | utils/biometric.ts:27-29 | `hashPIN(pin, salt) == simpleHash(pin + salt)` |
| Biometric.KeyName | utils/biometric.ts:52 | the storage key is `biometric_` followed by the NIC |
| Biometric.KeyNameInjective | utils/biometric.ts:52 | distinct NICs have distinct `biometric_` keys |
| Biometric.PinStore.StorePin | utils/biometric.ts:41-62 | the key `biometric_<nic>` now maps to the record with the salted PIN hash, the salt, biometrics off and the time; no other key changes |
| Biometric.PinStore.VerifyPin | utils/biometric.ts:67-91 | false without a record; otherwise true exactly when the PIN hashed with the record's salt equals its hash |
| Biometric.PinStore.EnableBiometric | utils/biometric.ts:116-139 | on the web or without a record it fails and changes nothing; otherwise it sets only `biometricEnabled` of that record |
| Biometric.PinStore.GetBiometricStatus | utils/biometric.ts:166-187 | the stored record, or none when absent |
| Biometric.StoreThenVerify | utils/biometric.ts:41-86 | after storing a PIN, checking that PIN succeeds |
| Biometric.StoreKeepsOthers | utils/biometric.ts:52-61 | storing for one NIC does not change another NIC's PIN check |
| Biometric.EnableKeepsPins | utils/biometric.ts:129-134 | enabling biometrics changes no PIN check |
| Biometric.VerifyComparesHashes | utils/biometric.ts:84-86 | another PIN passes exactly when its salted hash collides with the stored one |
| Biometric.EnrolThenVerify | utils/biometric.ts:41-139 | store, verify, enable, verify: both checks succeed, and on a device the record ends up enabled |
| SubmitBallot.BallotContent | services/submitBallot.ts:34-36 | the ballot has one entry, the candidate, with value 1 |
| SubmitBallot.AcceptReceipt | services/submitBallot.ts:55-100 | a receipt is returned exactly when the key was fetched and imports, `ballotId` and `signature` are present, and the signature verifies with salt 64 over SHA-256(utf8(ballotId) ‖ utf8(ciphertext)). A missing field, a key that does not import and a signature that does not verify each give their own error. The receipt echoes ballotId and ciphertext, its hash is the hex of the digest, and `success` and `message` default to true and "Ballot submitted successfully" |
| SubmitBallot.SubmitBallot | services/submitBallot.ts:30-101 | transport failures surface in order. The posted body carries the sealed ballot's ciphertext and the token's signature and prepared message unchanged. Once both requests succeed, the outcome is the acceptance rule applied to the ciphertext that was posted, so a receipt comes back exactly when that rule holds |
| SubmitBallot.ReceiptHashIsDigest | services/submitBallot.ts:69-99 | the receipt's `hash` decodes from hex to the verified digest, 64 characters for a 32-byte digest |
| SubmitBallot.ReceiptBindsCiphertext | services/submitBallot.ts:65-92 | if the hash does not collide and a signature binds one digest, a receipt is accepted for at most one ciphertext |
| SubmitBallot.ReceiptBindsBallotId | services/submitBallot.ts:65-92 | under the same assumptions, one signature and ciphertext are accepted with at most one ballot id |
| SubmitBallot.BoundaryShiftUndetected | services/submitBallot.ts:65-68 | (`ab`, `c`) and (`a`, `bc`) hash the same bytes, so a receipt for one is accepted for the other |
| GetTokenSigned.StoredNic | services/getTokenSigned.ts:40 | the NIC is what the secure store holds under `userNIC`, none when absent |
| GetTokenSigned.StoredKey | services/getTokenSigned.ts:41 | the key is what the store holds under `privateKey_` followed by the NIC, or by `null` when there is no NIC |
| GetTokenSigned.HashHex | services/getTokenSigned.ts:49-51 | the hex digest has two characters per digest byte |
| GetTokenSigned.Message | services/getTokenSigned.ts:48-52 | the message to blind, the hex digest decoded, is the SHA-256 digest of utf8(nic + privateKey) |
| GetTokenSigned.ProvenancePayload | services/getTokenSigned.ts:67-68 | the provenance payload is blindedMsg followed by utf8(nic) |
| GetTokenSigned.ProvenanceSplits | services/getTokenSigned.ts:67-68 | for a known blinded length, the payload determines the blinded message and the NIC |
| GetTokenSigned.Exchange | services/getTokenSigned.ts:63-110 | a failed provenance signature, transport error, missing blind signature or failed `finalize` each fail the call with its own error; when all succeed the result is returned. A result holds the base 64 of the finalized signature, the base 64 of the prepared message that was blinded and finalized, and the hex digest. The provenance signature is made over blindedMsg ‖ utf8(nic), and the body is (NIC, base 64 blinded message, base 64 signature) |
| GetTokenSigned.GetTokenSigned | services/getTokenSigned.ts:35-111 | in order: the web platform fails; a missing or empty NIC or key fails; then a failed key request or import fails; once the key imports, the outcome is the exchange with the stored NIC and key; a result carries the hex of SHA-256(nic + key) |
| GetTokenSigned.WebFailsWhateverStored | services/getTokenSigned.ts:36-38 | on the web the call fails whatever the store holds |
| GetTokenSigned.VerifyOutcomeIgnored | services/getTokenSigned.ts:98-104 | replacing local verification with any outcome, an exception included, leaves the result unchanged |
| GetTokenSigned.ResultDecodes | services/getTokenSigned.ts:87-110 | the result decodes to the finalized signature, the prepared message, and, from hex, the digest |

## Left out

- The cryptography: SHA-256, AES-GCM (`encryptBallot`), RSA-OAEP (`encryptKeyWithPublicKey`), WebCrypto import, RSA-PSS sign and verify, tweetnacl's `fromSeed` and `sign.detached`, and the blind-RSA suite. These are foreign library calls and appear as parameters. Randomised steps appear as fixed functions, one per draw of the randomness.
- `pemToCryptoKey`, the suite wrappers `createSuite`, `blind`, `finalize`, `signBlinded` and `verify`, and `ensureBlindRSA`. They only forward to WebCrypto or the blind-RSA library, or load it. `getTokenSigned` receives `pemToCryptoKey` as the parameter `importPublicKey`.
- The lenient decoders. `Buffer`'s base 64 decoder also reads `-` and `_` as the URL-safe digits 62 and 63, stops at the first `=`, and skips every other character outside the alphabet. `hexToUint8Array` on non-hex text depends on `parseInt` giving NaN. Both are restricted by precondition to well-formed base 64 and hex digits. So for a PEM header containing `-`, where the source decodes the leftover marker text to wrong bytes, the model says only that the text is not well formed (`PemRoundTripNeedsPlainHeader`). Server-supplied base 64 and PEM therefore appear in the preconditions of the flows (`SubmitDecodable`, `TokenDecodable`).
- Non-lowercase hex from the digest library. The digest hex is taken to be lowercase.
- `generateSalt` and `Date.now()`. They are parameters of `StorePin`.
- JSON serialisation of the record. The store holds parsed records.
- The web and native storage split. Each `PinStore` stands for the one store of its platform.
- Failures of the storage calls. The model's storage does not fail, so the catch branches of `verifyPIN` and `getBiometricStatus` are not reached.
- Axios instances, interceptors and toasts (services/api.ts). HTTP results are `Result` values with a `TransportError`.
- `isBiometricAvailable` and `authenticateWithBiometric`. They query device hardware.
- Lone surrogates. A string is a sequence of Unicode scalar values, so lone surrogates in JavaScript strings cannot be represented. `charCodeAt` is modelled through the UTF-16 code units of such a string.
- Typed arrays and `Buffer` as objects. Where the source allocates a new array, the methods build it in a fresh Dafny array and return its contents as a sequence.
- The type of the ciphertext. `encryptBallot` is taken to return text, and `String(ciphertext)` is that text.
- Exceptions thrown inside the abstract primitives. Only these are modelled: a failed key import, a failed `finalize`, and local verification throwing. The client catches only the last; the other two propagate to the caller, which the model writes as an error result.
- SignWithStoredPrivateKey: the source's PEM path signs `data.buffer`, the whole backing `ArrayBuffer`, and the model signs `data`. The two agree when `data` fills its buffer, as at the one call site, where `data` is the fresh array `concatUint8` returns.
