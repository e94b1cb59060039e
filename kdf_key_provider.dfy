/** `LibsodiumKdfKeyProvider` (src/main/key-providers/LibsodiumKdfKeyProvider.ts): caches one
    data key from a source provider and derives `numKeysToDerivePerDataKey` subkeys from it,
    numbered 1, 2, ..., with crypto_kdf_derive_from_key before asking the source again.

    `generateDataKey` is an async function with one `await`. The part before the `await`
    (`Reserve`) updates the cache and the counter; the part after it (`Finish`) derives the key.
    The source re-reads `this.keyId` after the `await`, so two calls whose halves interleave
    can both use whichever id the counter holds when they resume. `Finish` models that code as
    written; `FinishReserved` uses the id the call reserved, and `GenerateDataKey` is
    `Reserve` followed by `FinishReserved`. In sequential use the two finishes agree. */
module KdfKeyProvider {
  import opened Wrappers
  import opened Sodium
  import opened Numbers
  import opened KeyProviders

  // ---------------------------------------------------------------------------------------
  // The counter in closed form

  /** The number of subkeys derived per source key: a threshold below 1 behaves as 1, since
      `keyId >= threshold` then holds on every call. */
  function Period(numKeys: int): (p: nat)
    ensures p >= 1
    ensures numKeys >= 1 ==> p == numKeys
  {
    if numKeys < 1 then 1 else numKeys
  }

  /** The key id the `calls`-th call (counting from 1) derives with. */
  function KeyIdAt(calls: nat, numKeys: int): nat
    requires calls >= 1
  {
    (calls - 1) % Period(numKeys) + 1
  }

  /** How many times the source provider has been asked after `calls` calls. */
  function SourceCallsAt(calls: nat, numKeys: int): nat {
    if calls == 0 then 0 else (calls - 1) / Period(numKeys) + 1
  }

  /** Euclidean division has exactly one quotient and remainder. */
  lemma DivModUnique(x: int, d: int, q: int, r: int)
    requires d > 0 && 0 <= r < d && x == q * d + r
    ensures x / d == q && x % d == r
  {
    var q', r' := x / d, x % d;
    assert (q' - q) * d == r - r';
    if q' != q {
      var k := if q' > q then q' - q else q - q';
      assert k * d == r - r' || k * d == r' - r;
      MultipleAtLeast(k, d);
    }
  }

  lemma MultipleAtLeast(k: int, d: int)
    requires k >= 1 && d > 0
    ensures k * d >= d
  {
  }

  /** Key ids run from 1 to the period, and the refresh test `keyId >= numKeys` holds exactly
      at the last id of a period. */
  lemma KeyIdRange(calls: nat, numKeys: int)
    requires calls >= 1
    ensures 1 <= KeyIdAt(calls, numKeys) <= Period(numKeys)
    ensures KeyIdAt(calls, numKeys) >= numKeys <==> KeyIdAt(calls, numKeys) == Period(numKeys)
  {
  }

  /** One more call: the id restarts at 1 and the source is asked once more exactly when the
      previous id reached the threshold; otherwise the id goes up by one. */
  lemma {:induction false} KeyIdStep(calls: nat, numKeys: int)
    requires calls >= 1
    ensures KeyIdAt(calls, numKeys) >= numKeys ==>
      KeyIdAt(calls + 1, numKeys) == 1 && SourceCallsAt(calls + 1, numKeys) == SourceCallsAt(calls, numKeys) + 1
    ensures KeyIdAt(calls, numKeys) < numKeys ==>
      KeyIdAt(calls + 1, numKeys) == KeyIdAt(calls, numKeys) + 1
      && SourceCallsAt(calls + 1, numKeys) == SourceCallsAt(calls, numKeys)
  {
    var p := Period(numKeys);
    var q, r := (calls - 1) / p, (calls - 1) % p;
    assert calls == q * p + r + 1;
    KeyIdRange(calls, numKeys);
    if r + 1 == p {
      assert calls == (q + 1) * p + 0;
      DivModUnique(calls, p, q + 1, 0);
    } else {
      DivModUnique(calls, p, q, r + 1);
    }
  }

  /** The first call fetches and uses id 1. */
  lemma FirstCall(numKeys: int)
    ensures KeyIdAt(1, numKeys) == 1 && SourceCallsAt(1, numKeys) == 1
  {
  }

  // ---------------------------------------------------------------------------------------
  // Deriving and re-deriving keys

  /** The result of a call that awaited `source` and derives with `keyId`: the subkey of the
      source's plaintext key, the source's wrapped key unchanged, and the id in decimal. A
      rejected source rejects the call. */
  function Derived(lib: Library, source: Outcome<DataKey>, keyId: nat): (r: Outcome<DataKey>)
    ensures r.Failure? <==> source.Failure?
    ensures r.Failure? ==> r.error == source.error
    ensures r.Success? ==>
      && r.value.plaintextKey == Subkey(lib, source.value.plaintextKey, keyId)
      && r.value.encryptedKey == source.value.encryptedKey
      && r.value.metadata == Some(KeyMetadata(ToDecimal(keyId)))
  {
    match source
    case Failure(e) => Failure(e)
    case Success(k) =>
      Success(DataKey(Subkey(lib, k.plaintextKey, keyId), k.encryptedKey, Some(KeyMetadata(ToDecimal(keyId)))))
  }

  /** The key id `decryptDataKey` reads: `parseInt(metadata.keyId)`, or 1 when there is no
      metadata (keys issued before ids were recorded). An id parseInt cannot read, or a
      negative one, is refused. */
  function KeyIdOf(metadata: Option<KeyMetadata>): (r: Option<nat>)
    ensures metadata.None? ==> r == Some(1)
    ensures metadata.Some? ==> match ParseInt(metadata.value.keyId)
                               case None => r.None?
                               case Some(n) => r == (if n < 0 then None else Some(n))
  {
    match metadata
    case None => Some(1)
    case Some(m) =>
      match ParseInt(m.keyId)
      case None => None
      case Some(n) => if n < 0 then None else Some(n)
  }

  /** `decryptDataKey` over a source whose unwrapping is the identity (both providers here). */
  function Rederived(lib: Library, encryptedDataKey: Bytes, metadata: Option<KeyMetadata>): (r: Outcome<Bytes>)
    ensures r.Failure? <==> KeyIdOf(metadata).None?
    ensures r.Failure? ==> r.error == InvalidKeyId
    ensures r.Success? ==> r.value == Subkey(lib, encryptedDataKey, KeyIdOf(metadata).value)
  {
    match KeyIdOf(metadata)
    case None => Failure(InvalidKeyId)
    case Some(id) => Success(Subkey(lib, encryptedDataKey, id))
  }

  /** Decrypting what a call issued, with the metadata it issued, gives its plaintext key back;
      without metadata this holds for keys derived with id 1. */
  lemma DecryptRederives(lib: Library, source: DataKey, keyId: nat)
    requires source.plaintextKey == source.encryptedKey
    ensures var issued := Derived(lib, Success(source), keyId).value;
      && Rederived(lib, issued.encryptedKey, issued.metadata) == Success(issued.plaintextKey)
      && (keyId == 1 ==> Rederived(lib, issued.encryptedKey, None) == Success(issued.plaintextKey))
  {
    ParseDecimal(keyId);
  }

  /** Under the KDF's injectivity, two ids on one source key give two different keys. */
  lemma DistinctIdsDistinctKeys(lib: Library, source: DataKey, id1: nat, id2: nat)
    requires Laws(lib) && id1 != id2
    ensures Derived(lib, Success(source), id1).value.plaintextKey
            != Derived(lib, Success(source), id2).value.plaintextKey
  {
  }

  /** What one call remembers across its `await`: the promise it awaits and the id the counter
      held when it left the synchronous part. */
  datatype Reservation = Reservation(source: Outcome<DataKey>, keyId: nat)

  class LibsodiumKdfKeyProvider {
    const keyProvider: KeyProvider
    const numKeysToDerivePerDataKey: int
    /** The cached source promise; `None` until the first call. */
    var key: Option<Outcome<DataKey>>
    var keyId: int
    /** Calls made so far and how many of them asked the source provider. */
    ghost var calls: nat
    ghost var sourceCalls: nat

    /** The cache and the counter are what `calls` sequential reservations leave behind, and a
        cached source key wraps to itself (both source providers issue equal halves). */
    ghost predicate Valid()
      reads this
    {
      && this !in keyProvider.Footprint()
      && (key.Some? && key.value.Success? ==> key.value.value.plaintextKey == key.value.value.encryptedKey)
      && (calls == 0 ==> key.None? && keyId == 1 && sourceCalls == 0)
      && (calls > 0 ==>
            && key.Some?
            && keyId == KeyIdAt(calls, numKeysToDerivePerDataKey)
            && sourceCalls == SourceCallsAt(calls, numKeysToDerivePerDataKey))
    }

    /** A fresh provider has no cached key and `keyId == 1`. */
    constructor (keyProvider: KeyProvider, numKeysToDerivePerDataKey: int)
      ensures Valid()
      ensures this.keyProvider == keyProvider
      ensures this.numKeysToDerivePerDataKey == numKeysToDerivePerDataKey
      ensures key.None? && keyId == 1 && calls == 0
    {
      this.keyProvider := keyProvider;
      this.numKeysToDerivePerDataKey := numKeysToDerivePerDataKey;
      key := None;
      keyId := 1;
      calls := 0;
      sourceCalls := 0;
    }

    /** The test that sends a call to the source provider. */
    predicate Refreshes()
      reads this
    {
      key.None? || keyId >= numKeysToDerivePerDataKey
    }

    /** The state change of one call: a refresh caches the source's new key and restarts the
        id at 1, anything else only increments the id; the counting source issues one key
        exactly on a refresh. */
    twostate predicate Advanced(lib: Library, random: Bytes)
      reads this, keyProvider.Footprint()
    {
      && calls == old(calls) + 1
      && (old(Refreshes()) ==>
            && key == Some(keyProvider.Issued(lib, random))
            && keyId == 1
            && sourceCalls == old(sourceCalls) + 1)
      && (!old(Refreshes()) ==>
            && key == old(key)
            && keyId == old(keyId) + 1
            && sourceCalls == old(sourceCalls))
      && (keyProvider.Counting? ==>
            keyProvider.counter.keysIssued == old(keyProvider.counter.keysIssued) + (sourceCalls - old(sourceCalls)))
    }

    /** Lines before the `await`: refresh or increment, and remember the promise and the id. */
    method Reserve(lib: Library, random: Bytes) returns (t: Reservation)
      requires Valid() && |random| == KDF_KEYBYTES
      modifies this, keyProvider.Footprint()
      ensures Valid() && Advanced(lib, random)
      ensures key.Some? && t == Reservation(key.value, keyId)
    {
      if key.None? || keyId >= numKeysToDerivePerDataKey {
        var source := keyProvider.GenerateDataKey(lib, random);
        key := Some(source);
        keyId := 1;
        sourceCalls := sourceCalls + 1;
      } else {
        keyId := keyId + 1;
      }
      if calls > 0 {
        KeyIdRange(calls, numKeysToDerivePerDataKey);
        KeyIdStep(calls, numKeysToDerivePerDataKey);
      }
      calls := calls + 1;
      t := Reservation(key.value, keyId);
    }

    /** Lines after the `await`, as written: derivation and metadata use the counter as it is
        when the call resumes, not the id the call reserved. */
    function Finish(lib: Library, t: Reservation): (r: Outcome<DataKey>)
      requires Valid()
      reads this
      ensures r.Failure? <==> t.source.Failure?
      ensures r.Success? ==>
        && r.value.plaintextKey == Subkey(lib, t.source.value.plaintextKey, keyId)
        && r.value.encryptedKey == t.source.value.encryptedKey
        && r.value.metadata == Some(KeyMetadata(ToDecimal(keyId)))
    {
      Derived(lib, t.source, keyId as nat)
    }

    /** `generateDataKey`, sequentially: the new state is one step of the counter and the key is
        the subkey with the new id of the cached source key. */
    method GenerateDataKey(lib: Library, random: Bytes) returns (r: Outcome<DataKey>)
      requires Valid() && |random| == KDF_KEYBYTES
      modifies this, keyProvider.Footprint()
      ensures Valid() && Advanced(lib, random)
      ensures keyId == KeyIdAt(calls, numKeysToDerivePerDataKey)
      ensures sourceCalls == SourceCallsAt(calls, numKeysToDerivePerDataKey)
      ensures key.Some? && r == Derived(lib, key.value, keyId)
      ensures r.Success? ==> Rederived(lib, r.value.encryptedKey, r.value.metadata) == Success(r.value.plaintextKey)
    {
      var t := Reserve(lib, random);
      r := FinishReserved(lib, t);
      if r.Success? {
        DecryptRederives(lib, t.source.value, t.keyId);
      }
    }

    /** `decryptDataKey`: unwraps with the source provider and re-derives at the recorded id;
        the cache and the counter are not touched. */
    method DecryptDataKey(lib: Library, encryptedDataKey: Bytes, metadata: Option<KeyMetadata>)
      returns (r: Outcome<Bytes>)
      ensures r == Rederived(lib, encryptedDataKey, metadata)
    {
      var sourceKey := keyProvider.DecryptDataKey(encryptedDataKey);
      match KeyIdOf(metadata)
      case None =>
        r := Failure(InvalidKeyId);
      case Some(id) =>
        r := Success(Subkey(lib, sourceKey, id));
    }
  }

  /** Lines after the `await` with the id the call reserved. */
  function FinishReserved(lib: Library, t: Reservation): (r: Outcome<DataKey>)
    ensures r.Failure? <==> t.source.Failure?
    ensures r.Success? ==>
      && r.value.plaintextKey == Subkey(lib, t.source.value.plaintextKey, t.keyId)
      && r.value.encryptedKey == t.source.value.encryptedKey
      && r.value.metadata == Some(KeyMetadata(ToDecimal(t.keyId)))
  {
    Derived(lib, t.source, t.keyId)
  }

  // ---------------------------------------------------------------------------------------
  // Three calls over a counting source with two keys per source key

  /** Sequential calls: ids 1, 2, 1; the first two share the wrapped key but not the plaintext
      key, and the source issued two keys. */
  method SequentialReuse(lib: Library, random1: Bytes, random2: Bytes, random3: Bytes)
    returns (k1: Outcome<DataKey>, k2: Outcome<DataKey>, k3: Outcome<DataKey>, keysIssued: int)
    requires |random1| == |random2| == |random3| == KDF_KEYBYTES
    ensures keysIssued == 2
    ensures k1.Success? && k2.Success? && k3.Success?
    ensures k1.value.metadata == Some(KeyMetadata("1"))
    ensures k2.value.metadata == Some(KeyMetadata("2"))
    ensures k3.value.metadata == Some(KeyMetadata("1"))
    ensures k1.value.encryptedKey == k2.value.encryptedKey == random1
    ensures k3.value.encryptedKey == random3
    ensures Laws(lib) ==> k1.value.plaintextKey != k2.value.plaintextKey
  {
    var counter := new CountingKeyProvider();
    var provider := new LibsodiumKdfKeyProvider(Counting(counter), 2);
    assert ToDecimal(1) == "1" && ToDecimal(2) == "2";
    k1 := provider.GenerateDataKey(lib, random1);
    assert provider.keyId == 1 && provider.key == Some(Success(DataKey(random1, random1, None)));
    assert counter.keysIssued == 1;
    k2 := provider.GenerateDataKey(lib, random2);
    assert provider.keyId == 2 && provider.key == Some(Success(DataKey(random1, random1, None)));
    assert counter.keysIssued == 1;
    k3 := provider.GenerateDataKey(lib, random3);
    assert provider.keyId == 1 && provider.key == Some(Success(DataKey(random3, random3, None)));
    keysIssued := counter.keysIssued;
  }

  /** The source as written, with all three synchronous parts run before any call resumes
      (what `Promise.all` over three calls does): the counter is back at 1 when they resume,
      so the first two calls return the same plaintext key, both labelled "1". The source
      still issued two keys. */
  method InterleavedAsWritten(lib: Library, random1: Bytes, random2: Bytes, random3: Bytes)
    returns (k1: Outcome<DataKey>, k2: Outcome<DataKey>, k3: Outcome<DataKey>, keysIssued: int)
    requires |random1| == |random2| == |random3| == KDF_KEYBYTES
    ensures keysIssued == 2
    ensures k1.Success? && k2.Success? && k3.Success?
    ensures k1 == k2
    ensures k1.value.metadata == k2.value.metadata == k3.value.metadata == Some(KeyMetadata("1"))
  {
    var counter := new CountingKeyProvider();
    var provider := new LibsodiumKdfKeyProvider(Counting(counter), 2);
    var t1 := provider.Reserve(lib, random1);
    var t2 := provider.Reserve(lib, random2);
    var t3 := provider.Reserve(lib, random3);
    k1 := provider.Finish(lib, t1);
    k2 := provider.Finish(lib, t2);
    k3 := provider.Finish(lib, t3);
    keysIssued := counter.keysIssued;
    assert ToDecimal(1) == "1";
  }

  /** The same interleaving with each call keeping its reserved id: ids 1, 2, 1 as in
      sequential use, and the first two plaintext keys differ. */
  method InterleavedReserved(lib: Library, random1: Bytes, random2: Bytes, random3: Bytes)
    returns (k1: Outcome<DataKey>, k2: Outcome<DataKey>, k3: Outcome<DataKey>, keysIssued: int)
    requires |random1| == |random2| == |random3| == KDF_KEYBYTES
    ensures keysIssued == 2
    ensures k1.Success? && k2.Success? && k3.Success?
    ensures k1.value.metadata == Some(KeyMetadata("1"))
    ensures k2.value.metadata == Some(KeyMetadata("2"))
    ensures k3.value.metadata == Some(KeyMetadata("1"))
    ensures Laws(lib) ==> k1.value.plaintextKey != k2.value.plaintextKey
  {
    var counter := new CountingKeyProvider();
    var provider := new LibsodiumKdfKeyProvider(Counting(counter), 2);
    var t1 := provider.Reserve(lib, random1);
    var t2 := provider.Reserve(lib, random2);
    var t3 := provider.Reserve(lib, random3);
    k1 := FinishReserved(lib, t1);
    k2 := FinishReserved(lib, t2);
    k3 := FinishReserved(lib, t3);
    keysIssued := counter.keysIssued;
    assert ToDecimal(1) == "1" && ToDecimal(2) == "2";
  }
}
