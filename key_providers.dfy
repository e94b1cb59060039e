/** The `KeyProvider` interface (src/main/key-providers/KeyProvider.ts) and the two providers
    that are not network clients: `FixedKeyProvider`, which hands out one fixed key, and the
    test helper `CountingKeyProvider`, which hands out a fresh random key per call and counts
    how many it issued.

    The interface becomes the sum type `KeyProvider` over the two. Random bytes are a
    parameter of the operations that draw them. A rejected promise is a `Failure`. */
module KeyProviders {
  import opened Wrappers
  import opened Sodium

  /** `KeyMetadata`: what a provider records beside a wrapped key (a decimal key id). */
  datatype KeyMetadata = KeyMetadata(keyId: string)

  /** `GenerateDataKeyResult`: a plaintext data key, its wrapped form and optional metadata. */
  datatype DataKey = DataKey(plaintextKey: Bytes, encryptedKey: Bytes, metadata: Option<KeyMetadata>)

  /** `FixedKeyProvider`: the key is kept as base64 text and decoded on every request. */
  datatype FixedKeyProvider = FixedKeyProvider(dataKey: string) {

    /** `generateDataKey`: both halves decode the stored text, so they are the same bytes;
        text that is not base64 makes `from_base64` throw and the promise reject. */
    function GenerateDataKey(lib: Library): (r: Outcome<DataKey>)
      ensures r.Failure? <==> lib.fromBase64(dataKey).None?
      ensures r.Failure? ==> r.error == InvalidBase64
      ensures r.Success? ==>
        && r.value.plaintextKey == r.value.encryptedKey == lib.fromBase64(dataKey).value
        && r.value.metadata.None?
    {
      match lib.fromBase64(dataKey)
      case None => Failure(InvalidBase64)
      case Some(k) => Success(DataKey(k, k, None))
    }

    /** `decryptDataKey`: the "wrapped" key is the key. */
    function DecryptDataKey(key: Bytes): (r: Bytes)
      ensures r == key
    {
      key
    }
  }

  /** `FixedKeyProvider.forLibsodium`: a provider over 32 random bytes (`random`), stored as
      base64. */
  function ForLibsodium(lib: Library, random: Bytes): (p: FixedKeyProvider)
    requires |random| == KDF_KEYBYTES
    ensures Laws(lib) ==> p.GenerateDataKey(lib) == Success(DataKey(random, random, None))
  {
    FixedKeyProvider(lib.toBase64(random))
  }

  /** Unwrapping what `generateDataKey` wrapped gives its plaintext key, on every call. */
  lemma FixedRoundTrip(p: FixedKeyProvider, lib: Library)
    requires p.GenerateDataKey(lib).Success?
    ensures p.DecryptDataKey(p.GenerateDataKey(lib).value.encryptedKey)
            == p.GenerateDataKey(lib).value.plaintextKey
  {
  }

  /** `CountingKeyProvider`: `keysIssued` counts the keys handed out. */
  class CountingKeyProvider {
    var keysIssued: int

    constructor ()
      ensures keysIssued == 0
    {
      keysIssued := 0;
    }

    /** `generateDataKey`: one more key issued; the plaintext and wrapped halves are the same
        fresh random bytes. */
    method GenerateDataKey(random: Bytes) returns (r: DataKey)
      requires |random| == KDF_KEYBYTES
      modifies this
      ensures keysIssued == old(keysIssued) + 1
      ensures r == DataKey(random, random, None)
    {
      keysIssued := keysIssued + 1;
      r := DataKey(random, random, None);
    }

    /** `decryptDataKey`: a copy of its input; nothing is counted. */
    method DecryptDataKey(encryptedDataKey: Bytes) returns (r: Bytes)
      ensures r == encryptedDataKey
    {
      r := encryptedDataKey[..];
    }
  }

  /** A source of data keys, as `LibsodiumKdfKeyProvider` sees one. */
  datatype KeyProvider = Fixed(fixed: FixedKeyProvider) | Counting(counter: CountingKeyProvider) {

    /** The objects `generateDataKey` may update. */
    function Footprint(): set<object> {
      match this
      case Fixed(_) => {}
      case Counting(c) => {c}
    }

    /** What `generateDataKey` yields when the random bytes it would draw are `random`. */
    function Issued(lib: Library, random: Bytes): (r: Outcome<DataKey>)
      ensures Fixed? ==> r == fixed.GenerateDataKey(lib)
      ensures Counting? ==> r == Success(DataKey(random, random, None))
      ensures r.Success? ==> r.value.plaintextKey == r.value.encryptedKey && r.value.metadata.None?
    {
      match this
      case Fixed(p) => p.GenerateDataKey(lib)
      case Counting(_) => Success(DataKey(random, random, None))
    }

    method GenerateDataKey(lib: Library, random: Bytes) returns (r: Outcome<DataKey>)
      requires |random| == KDF_KEYBYTES
      modifies Footprint()
      ensures r == Issued(lib, random)
      ensures Counting? ==> counter.keysIssued == old(counter.keysIssued) + 1
    {
      match this
      case Fixed(p) =>
        r := p.GenerateDataKey(lib);
      case Counting(c) =>
        var k := c.GenerateDataKey(random);
        r := Success(k);
    }

    /** `decryptDataKey`: both providers hand the wrapped key back as the plaintext key. */
    method DecryptDataKey(encryptedDataKey: Bytes) returns (r: Bytes)
      ensures r == encryptedDataKey
    {
      match this
      case Fixed(p) =>
        r := p.DecryptDataKey(encryptedDataKey);
      case Counting(c) =>
        r := c.DecryptDataKey(encryptedDataKey);
    }
  }
}
