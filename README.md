# jay-z field-level envelope encryption, modelled in Dafny

jay-z encrypts chosen fields of a record (a DynamoDB item, say) under a data key that a key
provider hands out. This project models the bookkeeping around the cryptography:

- which fields an encryptor takes out of a record and which it leaves;
- how the ciphertexts are laid out: one blob in the current format, one ciphertext per field
  in the legacy format;
- how decryption puts the fields back;
- how binary values survive JSON serialization;
- how the amortizing key provider counts, caches and derives keys;
- how the orchestrator passes items and batches to its encryptor.

The cryptography is not modelled. Secretbox sealing and opening, key derivation and base64
come in as a `Sodium.Library` of functions. The JSON text layer comes in as a
`Serialization.Codec`. The properties that need these to be correct take their laws as
preconditions:

- `Sodium.Laws`: opening a sealed box with its own nonce and key gives the message back, key
  derivation is injective in the subkey id, and base64 round-trips;
- `Serialization.Lawful`: parsing the text of a tree gives the tree back, and decoding the
  UTF-8 of a text gives the text back.

`Sodium.LawsSatisfiable` and `CodecWitness.LawfulSatisfiable` show that each set of laws can
hold. Nonces and random keys are
parameters of the operations that draw them.

Modules, one per source file:

| module | models |
|---|---|
| `Wrappers` | Option/Result and the errors the code throws |
| `Sodium` | key derivation into a buffer, `memzero` |
| `Values` | records as maps with explicit `undefined` and `null`, and field selection |
| `Serialization` | `src/main/encryptors/serialization.ts` |
| `Numbers` | `Number.prototype.toString` and `parseInt` on key ids |
| `Types` | the `KeyType` subkey ids of `src/main/types.ts` |
| `KeyProviders` | `FixedKeyProvider`, `CountingKeyProvider` and the `KeyProvider` interface |
| `KdfKeyProvider` | `LibsodiumKdfKeyProvider` |
| `FieldEncryptors` | `src/main/encryptors/LibsodiumEncryptor.ts` and `LegacyLibsodiumEncryptor.ts` |
| `LibsodiumEncryptor` | `src/main/LibsodiumEncryptor.ts` |
| `JayZ` | `src/main/JayZ.ts` |
| `CodecWitness` | a lawful text codec, so that `Serialization.Lawful` can hold |

Three behaviours of the code are easy to miss:

- The encryptors erase the derived key only on the success path. A failing `open` or
  `deserialize` throws first and leaves the key in memory. `Decrypt` states both cases.
- A selected field whose value is `null` is not encrypted. It stays in the plaintext part,
  just like `undefined`.
- A rejected source-key promise stays cached in `LibsodiumKdfKeyProvider`. Later calls reuse
  the rejection until the counter runs out; nothing rolls the cache back. The model caches an
  `Outcome` for this reason.

Two per-field encryptors share one model. `toBuffer` is `serialize`. `convertBinaryFieldsToBuffers`
applies the same node rules as `convertJsonBuffers`, including the TypeError when a `null` is
reached. The `legacyDecrypt` of the current encryptor runs the same loop, so
`LibsodiumEncryptor.LegacyDecrypt` calls `FieldEncryptors.Decrypt`.

`convertJsonBuffers` hands a buffer-shaped object to `Buffer.from`, which does more than copy
`data`. A truthy own `valueOf` member is called and throws a TypeError. A `valueOf` of `""`
gives an empty buffer. A `length` member wins over `data`: it gives that many bytes read from
the members "0", "1", ..., or an empty buffer when it is not a positive number.
`Serialization.LengthOverridesData` shows `{"type": "Buffer", "data": [7], "length": 2}`
coming back as the bytes [0, 0], and `Serialization.TruthyValueOfThrows` shows
`"valueOf": 1` making deserialization throw.

A second edge case the round trip exposes: if the selected fields are exactly
`type: "Buffer"` and an array `data`, the decrypted blob is turned into a Buffer. Spreading a
Buffer copies its index properties, so both fields are lost and "0", "1", ... appear in their
place. `LibsodiumEncryptor.BufferShapedSelectionLost` exhibits this for `data: [7]`, which
decrypts to `{"0": 7}`. The round-trip lemmas therefore require a `Clean` value: no `null` or
`undefined` anywhere inside, and no object of that shape.

## Model

| member | source | states |
|---|---|---|
| `Sodium.DeriveKey` | src/main/LibsodiumEncryptor.ts:99-108 | a fresh buffer holds the kdf output requested at length crypto_secretbox_KEYBYTES = 32 for the given subkey id of the data key, in context "__jayz__" |
| `Sodium.Memzero` | src/main/LibsodiumEncryptor.ts:48 | every byte of the buffer is zero afterwards |
| `Sodium.LawsSatisfiable` | src/main/LibsodiumEncryptor.ts:42-46 | the inverse, injectivity and base64 laws the round trips assume can all hold at once |
| `Values.Truthy` | src/main/encryptors/LegacyLibsodiumEncryptor.ts:65 | JavaScript truthiness: undefined, null, false, 0 and "" are falsy, every other value is truthy |
| `Values.Present` | src/main/LibsodiumEncryptor.ts:36 | the encryptors' test for a value to encrypt: neither undefined nor null |
| `Values.Selected` | src/main/LibsodiumEncryptor.ts:33-40 | a field is selected iff it is named and its value is neither undefined nor null; its value is kept |
| `Values.Remainder` | src/main/LibsodiumEncryptor.ts:29-40 | a field stays iff it is not a named field with a value other than undefined/null; its value is unchanged |
| `Values.PartitionRestores` | src/main/LibsodiumEncryptor.ts:29-40 | selection and remainder have disjoint key sets whose union is the item's, and the selection spread over the remainder is the item |
| `Values.SelectStep` | src/main/LibsodiumEncryptor.ts:34-40 | one more named field moves exactly that field from remainder to selection when it is present, and changes nothing otherwise |
| `Serialization.Serialize` | src/main/encryptors/serialization.ts:5-8 | the text codec applied to the value's stringify tree; defined for every value except undefined |
| `Serialization.BufferJson` | src/main/encryptors/serialization.ts:5-7 | a Buffer stringifies as exactly the members `type: "Buffer"` and `data`, with one number per byte in order |
| `Serialization.FromJson` | src/main/encryptors/serialization.ts:12 | the value JSON.parse builds: never undefined and never a Buffer |
| `Serialization.Deserialize` | src/main/encryptors/serialization.ts:11-14 | TypeError when the bytes are not UTF-8, SyntaxError when the text does not parse; otherwise the conversion, failing only with TypeError; a success is never undefined |
| `Serialization.LooksLikeBuffer` | src/main/encryptors/serialization.ts:37-38 | an object is buffer-shaped when its `data` is an array and its `type` is the string "Buffer" |
| `Serialization.BufferFrom` | src/main/encryptors/serialization.ts:22 | Buffer.from's copy of an array-like: one byte per element, each its ToUint8 conversion |
| `Serialization.ToUint8` | src/main/encryptors/serialization.ts:22 | a number becomes the byte congruent to it modulo 256 (itself when in 0..255), a boolean 1 or 0, anything else 0 |
| `Serialization.ArrayLike` | src/main/encryptors/serialization.ts:22 | the `length` elements Buffer.from reads from an object: member i is the property named by i in decimal, undefined when missing |
| `Serialization.BufferFromObject` | src/main/encryptors/serialization.ts:22 | Buffer.from on a buffer-shaped object: TypeError exactly when its own `valueOf` is truthy; empty for `valueOf: ""`; with a `length`, that many index-keyed bytes or empty when it is not a positive number; otherwise one byte per `data` element |
| `Serialization.ToJson` | src/main/encryptors/serialization.ts:5-8 | stringify writes no text exactly for undefined; undefined members are dropped, undefined elements become null, a Buffer becomes its `{type, data}` form |
| `Serialization.IsJsonBuffer` | src/main/encryptors/serialization.ts:37-39 | throws exactly on null; true exactly for an object whose `data` is an array and whose `type` is "Buffer" |
| `Serialization.Converted` | src/main/encryptors/serialization.ts:20-30 | a JSON buffer becomes the bytes Buffer.from makes of it; other objects keep their keys, arrays their length; strings, numbers and booleans are unchanged |
| `Serialization.ConvertJsonBuffers` | src/main/encryptors/serialization.ts:20-30 | the in-place recursive conversion equals the reference conversion, and throws TypeError exactly when a null is reached or Buffer.from throws |
| `Serialization.Conversion` | src/main/encryptors/serialization.ts:20-30 | the conversion succeeds exactly for convertible values; every failure, a null reached among them, is a TypeError |
| `Serialization.ConvertMembers` | src/main/encryptors/serialization.ts:23-26 | the `forEach` over an object's keys succeeds exactly when every member converts, and then holds each converted member |
| `Serialization.ConvertElements` | src/main/encryptors/LibsodiumEncryptor.ts:107-110 | the same loop over an array's indices succeeds exactly when every element converts, and then holds each converted element |
| `Serialization.NullMemberThrows` | src/main/encryptors/serialization.ts:21-25 | a null member of a non-buffer object makes the conversion throw, whatever else the object holds |
| `Serialization.ToJsonRestores` | src/main/encryptors/serialization.ts:11-30 | the parsed tree of a clean value, buffers converted, is the value again, binary values at any depth included |
| `Serialization.SerializeRoundTrip` | src/main/encryptors/serialization.ts:5-14 | deserialize(serialize(v)) == v for every clean value, given a lawful text codec |
| `Serialization.BinaryRestores` | src/main/encryptors/serialization.ts:5-22 | a Buffer's `{type, data}` form parses and converts back to the same bytes |
| `Serialization.PlainRestores` | src/main/encryptors/serialization.ts:5-12 | a value with no undefined and no Buffer inside parses back from its stringify tree unchanged |
| `Serialization.Reparsed` | src/main/encryptors/serialization.ts:5-14 | under a lawful codec, deserialize(serialize(v)) is the conversion of the tree stringify writes for v |
| `Serialization.LengthOverridesData` | src/main/encryptors/serialization.ts:20-22 | a stored `{type: "Buffer", data: [7], length: 2}` deserializes to the bytes [0, 0] |
| `Serialization.LengthItemReparsed` | src/main/encryptors/serialization.ts:5-12 | that object parses back to itself |
| `Serialization.LengthItemBytes` | src/main/encryptors/serialization.ts:22 | Buffer.from on that object gives [0, 0] |
| `Serialization.TruthyValueOfThrows` | src/main/encryptors/serialization.ts:20-22 | a stored `{type: "Buffer", data: [7], valueOf: 1}` makes deserialization fail with a TypeError |
| `Serialization.ValueOfItemReparsed` | src/main/encryptors/serialization.ts:5-12 | that object parses back to itself |
| `CodecWitness.LawfulSatisfiable` | src/main/encryptors/serialization.ts:5-14 | some text codec parses back every tree it writes and decodes every text it encodes, so the serialization round trips can be applied |
| `CodecWitness.TextRoundTrip` | src/main/encryptors/serialization.ts:6-12 | the witness's text of a byte string reads back as those bytes |
| `Numbers.ToDecimal` | src/main/key-providers/LibsodiumKdfKeyProvider.ts:40 | the decimal text of a key id is a non-empty string of digits with no leading zero |
| `Numbers.DigitValue` | src/main/key-providers/LibsodiumKdfKeyProvider.ts:48 | a digit's value is below the radix; only 0-9, and a-f/A-F in radix 16, are digits; a decimal digit has its decimal value |
| `Numbers.DigitsValue` | src/main/key-providers/LibsodiumKdfKeyProvider.ts:48 | the number a run of k digits denotes is below radix^k |
| `Numbers.IsWhiteSpace` | src/main/key-providers/LibsodiumKdfKeyProvider.ts:48 | the white space parseInt skips: every StrWhiteSpaceChar, the line terminators included |
| `Numbers.AllDigitsPrefix` | src/main/key-providers/LibsodiumKdfKeyProvider.ts:48 | a string made only of decimal digits is the digit run parseInt reads |
| `Numbers.DecimalValue` | src/main/key-providers/LibsodiumKdfKeyProvider.ts:40 | the digits written for n denote n |
| `Numbers.TrimStart` | src/main/key-providers/LibsodiumKdfKeyProvider.ts:48 | parseInt drops exactly the leading white space (every StrWhiteSpaceChar): a suffix whose first character is not white space, with only white space before it |
| `Numbers.DigitPrefix` | src/main/key-providers/LibsodiumKdfKeyProvider.ts:48 | the longest run of digits at the front: a prefix made of digits, followed by a non-digit or the end |
| `Numbers.ParseInt` | src/main/key-providers/LibsodiumKdfKeyProvider.ts:48 | parseInt without a radix: white space and one sign skipped, "0x" selects hexadecimal, NaN (None) when no digit follows |
| `Numbers.DecimalInjective` | src/main/key-providers/LibsodiumKdfKeyProvider.ts:40 | different ids have different decimal texts |
| `Numbers.ParseDecimal` | src/main/key-providers/LibsodiumKdfKeyProvider.ts:40-48 | parseInt(String(n)) == n for every non-negative integer |
| `Numbers.ParseDigits` | src/main/key-providers/LibsodiumKdfKeyProvider.ts:48 | parseInt of a numeral without sign, white space or leading zero is the value of its digits |
| `KeyProviders.FixedKeyProvider.GenerateDataKey` | src/main/key-providers/FixedKeyProvider.ts:24-29 | fails exactly when the stored text is not base64; otherwise the plaintext and wrapped keys are both its decoding, with no metadata |
| `KeyProviders.FixedKeyProvider.DecryptDataKey` | src/main/key-providers/FixedKeyProvider.ts:31-33 | returns its input unchanged |
| `KeyProviders.ForLibsodium` | src/main/key-providers/FixedKeyProvider.ts:16-20 | under the base64 law the provider issues the 32 random bytes as both plaintext and wrapped key |
| `KeyProviders.FixedRoundTrip` | src/main/key-providers/FixedKeyProvider.ts:24-33 | unwrapping the issued wrapped key gives the issued plaintext key |
| `KeyProviders.CountingKeyProvider.constructor` | src/test/key-providers/CountingKeyProvider.ts:6 | `keysIssued` starts at 0 |
| `KeyProviders.CountingKeyProvider.GenerateDataKey` | src/test/key-providers/CountingKeyProvider.ts:8-16 | `keysIssued` grows by exactly one; plaintext and wrapped key are the same random bytes |
| `KeyProviders.CountingKeyProvider.DecryptDataKey` | src/test/key-providers/CountingKeyProvider.ts:18-20 | returns a copy equal to its input and leaves `keysIssued` as it was |
| `KeyProviders.KeyProvider.Issued` | src/main/key-providers/KeyProvider.ts:1-4 | what each provider yields; every provider here issues equal plaintext and wrapped keys without metadata |
| `KeyProviders.KeyProvider.GenerateDataKey` | src/main/key-providers/KeyProvider.ts:2 | dispatches to the provider; only the counting provider's counter changes, by one |
| `KeyProviders.KeyProvider.DecryptDataKey` | src/main/key-providers/KeyProvider.ts:3 | both providers unwrap a key to itself |
| `KdfKeyProvider.Period` | src/main/key-providers/LibsodiumKdfKeyProvider.ts:28 | a threshold below 1 behaves as 1, otherwise the threshold itself |
| `KdfKeyProvider.KeyIdAt` | src/main/key-providers/LibsodiumKdfKeyProvider.ts:19-33 | the id the i-th call uses, in closed form ((i-1) mod N)+1; `KeyIdStep` proves it follows the code's counter |
| `KdfKeyProvider.SourceCallsAt` | src/main/key-providers/LibsodiumKdfKeyProvider.ts:28-29 | how often the source was asked after i calls, in closed form ceil(i/N) |
| `KdfKeyProvider.DivModUnique` | src/main/key-providers/LibsodiumKdfKeyProvider.ts:28-33 | quotient and remainder are unique (used for the counter's closed form) |
| `KdfKeyProvider.KeyIdRange` | src/main/key-providers/LibsodiumKdfKeyProvider.ts:28-33 | the i-th call's id is ((i-1) mod N)+1, in 1..N, and reaches the threshold exactly at N |
| `KdfKeyProvider.KeyIdStep` | src/main/key-providers/LibsodiumKdfKeyProvider.ts:28-33 | one more call restarts the id at 1 and asks the source once more exactly when the id had reached the threshold, else adds one to the id |
| `KdfKeyProvider.FirstCall` | src/main/key-providers/LibsodiumKdfKeyProvider.ts:28-30 | the first call asks the source once and uses id 1 |
| `KdfKeyProvider.Derived` | src/main/key-providers/LibsodiumKdfKeyProvider.ts:35-43 | a call's key is the subkey of the source's plaintext key, with the source's wrapped key unchanged and the id in decimal; a rejected source rejects it |
| `KdfKeyProvider.KeyIdOf` | src/main/key-providers/LibsodiumKdfKeyProvider.ts:48 | id 1 without metadata, else parseInt of the recorded id; unreadable or negative ids are refused |
| `KdfKeyProvider.Rederived` | src/main/key-providers/LibsodiumKdfKeyProvider.ts:46-51 | fails with InvalidKeyId exactly when no id can be read; otherwise the subkey of the unwrapped key at that id |
| `KdfKeyProvider.DecryptRederives` | src/main/key-providers/LibsodiumKdfKeyProvider.ts:36-51 | decrypting an issued key with its metadata gives its plaintext back; without metadata too, for id 1 |
| `KdfKeyProvider.DistinctIdsDistinctKeys` | src/main/key-providers/LibsodiumKdfKeyProvider.ts:36 | different ids on one source key give different plaintext keys, under KDF injectivity |
| `KdfKeyProvider.LibsodiumKdfKeyProvider.Valid` | src/main/key-providers/LibsodiumKdfKeyProvider.ts:17-33 | the provider invariant: no cache and id 1 before the first call; afterwards a cache, the closed-form id and the closed-form number of source calls; a cached source key's plaintext equals its wrapped key |
| `KdfKeyProvider.LibsodiumKdfKeyProvider.Advanced` | src/main/key-providers/LibsodiumKdfKeyProvider.ts:28-33 | one call's state change: a refresh caches the source's new key and resets the id to 1, otherwise the id grows by one; the counting source issues a key exactly on a refresh |
| `KdfKeyProvider.LibsodiumKdfKeyProvider.Refreshes` | src/main/key-providers/LibsodiumKdfKeyProvider.ts:28 | a call asks the source exactly when nothing is cached or `keyId >= numKeysToDerivePerDataKey` |
| `KdfKeyProvider.LibsodiumKdfKeyProvider.constructor` | src/main/key-providers/LibsodiumKdfKeyProvider.ts:17-25 | a fresh provider has no cached key and `keyId == 1` |
| `KdfKeyProvider.LibsodiumKdfKeyProvider.Reserve` | src/main/key-providers/LibsodiumKdfKeyProvider.ts:28-33 | refreshes the cache and sets `keyId := 1` exactly when nothing is cached or `keyId >= numKeysToDerivePerDataKey`, else only increments `keyId`; the source's counter moves only on a refresh |
| `KdfKeyProvider.LibsodiumKdfKeyProvider.Finish` | src/main/key-providers/LibsodiumKdfKeyProvider.ts:35-43 | as written: the key and metadata use the counter as it is when the call resumes |
| `KdfKeyProvider.FinishReserved` | src/main/key-providers/LibsodiumKdfKeyProvider.ts:35-43 | corrected: the key and metadata use the id the call reserved |
| `KdfKeyProvider.LibsodiumKdfKeyProvider.GenerateDataKey` | src/main/key-providers/LibsodiumKdfKeyProvider.ts:27-44 | after i sequential calls the id is ((i-1) mod N)+1 and the source was asked ceil(i/N) times; the result is the subkey at that id of the cached source key, and `decryptDataKey` on its wrapped key and metadata gives its plaintext key back |
| `KdfKeyProvider.LibsodiumKdfKeyProvider.DecryptDataKey` | src/main/key-providers/LibsodiumKdfKeyProvider.ts:46-51 | re-derives at the recorded id and changes neither the cache nor the counter |
| `KdfKeyProvider.SequentialReuse` | src/main/key-providers/LibsodiumKdfKeyProvider.ts:27-44 | three sequential calls with N=2 over a counting source: ids "1","2","1", the first two share the wrapped key but not the plaintext key, two keys issued |
| `KdfKeyProvider.InterleavedAsWritten` | src/main/key-providers/LibsodiumKdfKeyProvider.ts:28-40 | three interleaved calls as written: two keys issued, but the first two calls return the same key, both labelled "1" |
| `KdfKeyProvider.InterleavedReserved` | src/main/key-providers/LibsodiumKdfKeyProvider.ts:28-40 | the same interleaving with reserved ids: ids "1","2","1" and distinct first two keys |
| `FieldEncryptors.SealField` | src/main/encryptors/LegacyLibsodiumEncryptor.ts:46 | one field's ciphertext: the secretbox of its serialization, as a buffer |
| `FieldEncryptors.Sealed` | src/main/encryptors/LegacyLibsodiumEncryptor.ts:43-48 | one ciphertext per selected present field, all under one nonce and one key |
| `FieldEncryptors.SealedStep` | src/main/encryptors/LegacyLibsodiumEncryptor.ts:43-48 | one more named field adds its ciphertext exactly when its value is neither undefined nor null, and changes nothing otherwise |
| `FieldEncryptors.Encrypt` | src/main/encryptors/LibsodiumEncryptor.ts:36-62 | the item with each selected present field replaced by its ciphertext under the call's nonce and the encryption subkey; the subkey is zeroed |
| `FieldEncryptors.EncryptedShape` | src/main/encryptors/LegacyLibsodiumEncryptor.ts:43-52 | same keys as the item; selected present fields become binary ciphertexts; all other fields are unchanged |
| `FieldEncryptors.SharedNonce` | src/main/encryptors/LibsodiumEncryptor.ts:40-54 | with one nonce and key per call, two fields with equal values get equal ciphertexts |
| `FieldEncryptors.OpenField` | src/main/encryptors/LegacyLibsodiumEncryptor.ts:64-68 | falsy values are skipped; a truthy value must be a buffer, must open and must deserialize, each failure with its own error |
| `FieldEncryptors.Opened` | src/main/encryptors/LegacyLibsodiumEncryptor.ts:63-69 | the `forEach` of decrypt: fields are read from the original item and written into the copy, and the first failing field ends the call |
| `FieldEncryptors.Decrypt` | src/main/encryptors/LibsodiumEncryptor.ts:64-91 | the field loop's result; the subkey is zeroed on success and still holds the subkey on failure |
| `FieldEncryptors.Overlay` | src/main/encryptors/LegacyLibsodiumEncryptor.ts:59-69 | the decrypted item has the item's keys |
| `FieldEncryptors.OpenedIsOverlay` | src/main/encryptors/LegacyLibsodiumEncryptor.ts:63-69 | the loop succeeds exactly when every named field opens; then named truthy fields hold their plaintext and all others keep their values |
| `FieldEncryptors.DecryptIsOverlay` | src/main/encryptors/LibsodiumEncryptor.ts:72-87 | decryption fails exactly when a named field fails, and otherwise is the overlay of the item |
| `FieldEncryptors.FieldRoundTrip` | src/main/encryptors/LegacyLibsodiumEncryptor.ts:46-67 | a clean value's ciphertext opens and parses back to it |
| `FieldEncryptors.RoundTrip` | src/main/encryptors/LibsodiumEncryptor.ts:47-87 | decrypting an encrypted item with the same nonce, key and field list gives the item back |
| `FieldEncryptors.SealedFieldOpens` | src/main/encryptors/LibsodiumEncryptor.ts:47-87 | a named field of the encrypted item opens to its plaintext when it was encrypted and is skipped otherwise |
| `LibsodiumEncryptor.Encrypt` | src/main/LibsodiumEncryptor.ts:25-51 | the plaintext part is the remainder; one ciphertext seals the serialized selection under the call's nonce and the encryption subkey; the subkey is zeroed |
| `LibsodiumEncryptor.Blob` | src/main/LibsodiumEncryptor.ts:42-46 | under the secretbox law, opening the blob with the call's nonce and encryption subkey gives the serialized selection |
| `LibsodiumEncryptor.Indexed` | src/main/LibsodiumEncryptor.ts:67-72 | an array-like value's own properties: exactly the keys "0", "1", ... below its length, each holding its element |
| `LibsodiumEncryptor.Spread` | src/main/LibsodiumEncryptor.ts:67-72 | an object spreads its fields; an array, a string and a Buffer spread their index keys with their elements, characters and bytes; null, undefined, booleans and numbers spread nothing |
| `LibsodiumEncryptor.Decrypted` | src/main/LibsodiumEncryptor.ts:53-97 | no blob dispatches to the legacy loop, which throws without a field list; a blob must open and deserialize, and its fields override the item's |
| `LibsodiumEncryptor.Decrypt` | src/main/LibsodiumEncryptor.ts:53-73 | returns the reference result; the subkey is zeroed on success and left in memory when open or deserialize fails |
| `LibsodiumEncryptor.LegacyDecrypt` | src/main/LibsodiumEncryptor.ts:75-97 | the per-field loop over `fieldsToDecrypt`; TypeError when the list is absent |
| `LibsodiumEncryptor.RoundTrip` | src/main/LibsodiumEncryptor.ts:29-72 | decrypting what encrypt produced restores the item, its undefined and null selected fields included |
| `LibsodiumEncryptor.BufferShapedBlob` | src/main/encryptors/serialization.ts:5-30 | the selection `{type: "Buffer", data: [7]}` deserializes to the Buffer [7] |
| `LibsodiumEncryptor.BufferShapedReparsed` | src/main/encryptors/serialization.ts:5-12 | the selection `{type: "Buffer", data: [7]}` parses back to itself |
| `LibsodiumEncryptor.BufferShapedPartition` | src/main/LibsodiumEncryptor.ts:29-40 | naming both of its fields selects the whole record and leaves nothing in plain text |
| `LibsodiumEncryptor.OneByteSpread` | src/main/LibsodiumEncryptor.ts:67-72 | spreading the Buffer [7] gives exactly `{"0": 7}` |
| `LibsodiumEncryptor.BufferShapedSelectionLost` | src/main/LibsodiumEncryptor.ts:64-72 | a selection `{type: "Buffer", data: [7]}` decrypts to `{"0": 7}`: both fields are lost |
| `JayZ.All` | src/main/JayZ.ts:33 | all values in order when every result succeeds, else the first failure in input order |
| `JayZ.JayZ.EncryptItem` | src/main/JayZ.ts:19-23 | the encryptor's encrypted item for the item and its fields |
| `JayZ.JayZ.EncryptItems` | src/main/JayZ.ts:25-34 | [] for an empty batch; otherwise one encrypted item per input, in order, failing exactly when one fails |
| `JayZ.JayZ.DecryptItem` | src/main/JayZ.ts:36-39 | the encryptor's decrypted item |
| `JayZ.JayZ.DecryptItems` | src/main/JayZ.ts:41-48 | [] for an empty batch; otherwise one decrypted item per input, in order |
| `JayZ.BatchRoundTrip` | src/main/JayZ.ts:25-48 | if the encryptor's decrypt undoes its encrypt, decrypting an encrypted batch gives its items back in order |
| `JayZ.EmptyBatches` | src/main/JayZ.ts:28-30 | empty batches succeed even with an encryptor that always fails |

## Left out

- Cryptography: XSalsa20-Poly1305, crypto_kdf_derive_from_key, randombytes_buf and base64 are functions given as parameters, not implementations. libsodium's checks on key and subkey lengths are not modelled.
- JSON text: fast-json-stable-stringify, JSON.parse, `from_string` and `to_string` are the four functions of the `Codec` parameter. Only the value-to-tree step and `convertJsonBuffers` are computed.
- Concurrency: the model evaluates a batch's items one after another, while `Promise.all` in src/main/JayZ.ts starts them all at once and rejects with the first rejection in time; the model reports the first failure in input order. For the KDF provider, only the reserve/finish split of one call is modelled.
- KMS: src/main/key-providers/KmsKeyProvider.ts and src/main/KMSDataKeyProvider.ts are network clients and are not part of this model. The `KeyProvider` sum has no KDF-provider variant, so a KDF provider cannot wrap another KDF provider.
- JayZ.JayZ.EncryptItem: the encryptor JayZ delegates to is not part of this model. It is a pair of functions, so its own key-provider calls and the key-reuse counts it drives are not modelled.
- Envelope metadata assembly (`__jayz__metadata`) and legacy/V1 detection by metadata shape: the code that builds them is not part of this model, so the metadata shapes, `EncryptionScheme` and `MetadataVersion` of src/main/types.ts are not declared either.
- Numbers are integers: floating point and `Buffer.from`'s ToNumber conversion of non-numeric `data` elements are not modelled. Booleans convert to 0/1; anything else becomes 0.
- Serialization.BufferFromObject: a fractional or NaN `length` cannot occur with integer numbers, and the RangeError `Buffer.from` throws for a `length` too large to allocate is not modelled; such a length gives that many bytes.
- Binary values are Node Buffers. A plain `Uint8Array`, which stringifies as an index-keyed object, is not modelled.
- FieldEncryptors.OpenField: libsodium-wrappers accepts a string ciphertext by UTF-8 encoding it; the model rejects any non-buffer ciphertext with InvalidCiphertext.
- LibsodiumEncryptor.Spread: strings are sequences of Unicode characters, so a character outside the Basic Multilingual Plane spreads as one property where JavaScript spreads its two UTF-16 code units.
- Sodium.DeriveKey: the kdf has no length law (an output of fixed length cannot be injective in an unbounded subkey id), so the buffer's length of 32 is requested but not promised.
- KdfKeyProvider.KeyIdOf: what crypto_kdf_derive_from_key does with a NaN or negative subkey id is modelled as an InvalidKeyId failure. Ids of 2^53 and above and 64-bit truncation are not modelled.
- CountingKeyProvider returns the same array as plaintext and wrapped key. Keys are values here, so that aliasing is not modelled.
- The KDF test's check that a derived key differs from its source key needs a property of the KDF beyond injectivity in the id, so it is not stated.

## Findings

| source | as written | input that shows it | evidently intended | confidence | as-written member | corrected member |
|---|---|---|---|---|---|---|
| src/main/key-providers/LibsodiumKdfKeyProvider.ts:35-40 | after `await this.key`, the key is derived and labelled with `this.keyId` as it is when the call resumes | three `generateDataKey` calls started together with `numKeysToDerivePerDataKey: 2` over a counting source, the order src/test/key-providers/LibsodiumKdfKeyProvider.test.ts:53-57 uses: the counter is back at 1 when they resume, so calls 1 and 2 return the same plaintext key, both labelled "1" | each call derives with the id it reserved before the `await` (1, 2, 1), so calls sharing a source key get different keys | high; not executed | `KdfKeyProvider.LibsodiumKdfKeyProvider.Finish`, exhibited by `KdfKeyProvider.InterleavedAsWritten` | `KdfKeyProvider.FinishReserved`, used by `KdfKeyProvider.LibsodiumKdfKeyProvider.GenerateDataKey` and proved in `KdfKeyProvider.InterleavedReserved` |
