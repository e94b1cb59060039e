/** The per-field encryptors of src/main/encryptors/LibsodiumEncryptor.ts and
    src/main/encryptors/LegacyLibsodiumEncryptor.ts.

    Both classes behave the same: `toBuffer` is `serialize`, and `JSON.parse(to_string(.))`
    followed by `convertBinaryFieldsToBuffers` is `deserialize` (the two buffer converters
    apply identical node rules). `encrypt` replaces each selected field that is neither
    undefined nor null by its own ciphertext, all under one nonce and one derived key;
    `decrypt` replaces each named field whose value is truthy by its opened and parsed
    plaintext. The `legacyDecrypt` of src/main/LibsodiumEncryptor.ts is the same loop as
    `decrypt` here. */
module FieldEncryptors {
  import opened Wrappers
  import opened Sodium
  import opened Types
  import opened Values
  import opened Serialization

  /** `EncryptResult`: the item with its selected fields encrypted, and the nonce used. */
  datatype EncryptResult = EncryptResult(encryptedItem: Record, nonce: Bytes)

  /** The ciphertext of one field value. */
  function SealField(lib: Library, codec: Codec, v: Value, nonce: Bytes, key: Bytes): Value
    requires !v.Undefined?
  {
    Binary(lib.secretbox(Serialize(codec, v), nonce, key))
  }

  /** The `encryptedFields` dictionary one call builds: one ciphertext for each selected field
      that is neither undefined nor null, every one under the same nonce and key. */
  function Sealed(lib: Library, codec: Codec, item: Record, fieldsToEncrypt: seq<string>, nonce: Bytes, key: Bytes)
    : (s: Record)
    ensures s.Keys == Selected(item, fieldsToEncrypt).Keys
    ensures forall k :: k in s ==> s[k] == SealField(lib, codec, item[k], nonce, key)
  {
    map k | k in Selected(item, fieldsToEncrypt) :: SealField(lib, codec, item[k], nonce, key)
  }

  /** One more named field adds its ciphertext exactly when its value is neither undefined nor null. */
  lemma SealedStep(lib: Library, codec: Codec, item: Record, fields: seq<string>, f: string, nonce: Bytes, key: Bytes)
    ensures Sealed(lib, codec, item, fields + [f], nonce, key)
            == if Present(Get(item, f)) then Sealed(lib, codec, item, fields, nonce, key)[f := SealField(lib, codec, item[f], nonce, key)]
               else Sealed(lib, codec, item, fields, nonce, key)
  {
    SelectStep(item, fields, f);
  }

  /** `encrypt`: derives the encryption subkey, fills `encryptedFields` field by field, zeroes
      the subkey and returns `{...item, ...encryptedFields}` with the nonce (drawn by the
      caller of the model: `nonce` is the output of `randombytes_buf`). */
  method Encrypt(lib: Library, codec: Codec, item: Record, fieldsToEncrypt: seq<string>, key: Bytes, nonce: Bytes)
    returns (r: EncryptResult, ghost encryptionKey: array<uint8>)
    requires |nonce| == SECRETBOX_NONCEBYTES
    ensures r.nonce == nonce
    ensures r.encryptedItem == item + Sealed(lib, codec, item, fieldsToEncrypt, nonce, Subkey(lib, key, ENCRYPTION))
    ensures fresh(encryptionKey) && Zeroed(encryptionKey[..])
  {
    var subkey := DeriveKey(lib, key, ENCRYPTION);
    encryptionKey := subkey;
    var encryptedFields: Record := map[];
    var i := 0;
    while i < |fieldsToEncrypt|
      invariant 0 <= i <= |fieldsToEncrypt|
      invariant subkey[..] == Subkey(lib, key, ENCRYPTION)
      invariant encryptedFields == Sealed(lib, codec, item, fieldsToEncrypt[..i], nonce, subkey[..])
    {
      var fieldName := fieldsToEncrypt[i];
      var fieldValue := Get(item, fieldName);
      SealedStep(lib, codec, item, fieldsToEncrypt[..i], fieldName, nonce, subkey[..]);
      assert fieldsToEncrypt[..i + 1] == fieldsToEncrypt[..i] + [fieldName];
      if Present(fieldValue) {
        encryptedFields := encryptedFields[fieldName := SealField(lib, codec, fieldValue, nonce, subkey[..])];
      }
      i := i + 1;
    }
    assert fieldsToEncrypt[..i] == fieldsToEncrypt;
    Memzero(subkey);
    r := EncryptResult(item + encryptedFields, nonce);
  }

  /** The encrypted item has the item's keys; a selected field that is neither undefined nor
      null holds its ciphertext, every other field its old value. */
  lemma EncryptedShape(lib: Library, codec: Codec, item: Record, fieldsToEncrypt: seq<string>, nonce: Bytes, key: Bytes)
    ensures var e := item + Sealed(lib, codec, item, fieldsToEncrypt, nonce, key);
      && e.Keys == item.Keys
      && (forall k :: k in item && k in fieldsToEncrypt && Present(item[k]) ==>
            e[k] == SealField(lib, codec, item[k], nonce, key) && e[k].Binary?)
      && (forall k :: k in item && !(k in fieldsToEncrypt && Present(item[k])) ==> e[k] == item[k])
  {
  }

  /** One nonce and one key for all fields: two selected fields with equal values get equal
      ciphertexts, so equality of encrypted fields is visible in an encrypted item. */
  lemma SharedNonce(lib: Library, codec: Codec, item: Record, fieldsToEncrypt: seq<string>, nonce: Bytes, key: Bytes,
                    f: string, g: string)
    requires f in Selected(item, fieldsToEncrypt) && g in Selected(item, fieldsToEncrypt) && item[f] == item[g]
    ensures Sealed(lib, codec, item, fieldsToEncrypt, nonce, key)[f] == Sealed(lib, codec, item, fieldsToEncrypt, nonce, key)[g]
  {
  }

  // ---------------------------------------------------------------------------------------
  // Decryption

  /** One field of `decrypt`: a falsy value is left as it is (None); a truthy one must be a
      byte buffer (InvalidCiphertext otherwise), must open under the nonce and key
      (AuthenticationFailed otherwise) and must deserialize. */
  function OpenField(lib: Library, codec: Codec, cipherText: Value, nonce: Bytes, key: Bytes): (r: Outcome<Option<Value>>)
    ensures !Truthy(cipherText) <==> r == Success(None)
    ensures Truthy(cipherText) && !cipherText.Binary? ==> r == Failure(InvalidCiphertext)
    ensures cipherText.Binary? ==> match lib.open(cipherText.bytes, nonce, key)
                                   case None => r == Failure(AuthenticationFailed)
                                   case Some(m) => match Deserialize(codec, m)
                                                   case Failure(e) => r == Failure(e)
                                                   case Success(v) => r == Success(Some(v))
  {
    if !Truthy(cipherText) then Success(None)
    else if !cipherText.Binary? then Failure(InvalidCiphertext)
    else match lib.open(cipherText.bytes, nonce, key)
      case None => Failure(AuthenticationFailed)
      case Some(m) =>
        match Deserialize(codec, m)
        case Failure(e) => Failure(e)
        case Success(v) => Success(Some(v))
  }

  /** The `forEach` of `decrypt` from a given field on: each field is read from the original
      `item` and written into `acc`; the first failing field ends the call. */
  function Opened(lib: Library, codec: Codec, item: Record, fields: seq<string>, nonce: Bytes, key: Bytes, acc: Record)
    : Outcome<Record>
    decreases |fields|
  {
    if fields == [] then Success(acc)
    else
      match OpenField(lib, codec, Get(item, fields[0]), nonce, key)
      case Failure(e) => Failure(e)
      case Success(None) => Opened(lib, codec, item, fields[1..], nonce, key, acc)
      case Success(Some(v)) => Opened(lib, codec, item, fields[1..], nonce, key, acc[fields[0] := v])
  }

  /** `decrypt` (and `legacyDecrypt`): copies the item, overwrites each field of
      `fieldsToDecrypt` whose value is truthy with its plaintext, zeroes the subkey and returns
      the copy. A field that fails throws before the subkey is zeroed. */
  method Decrypt(lib: Library, codec: Codec, item: Record, fieldsToDecrypt: seq<string>, nonce: Bytes, key: Bytes)
    returns (r: Outcome<Record>, ghost decryptionKey: array<uint8>)
    ensures r == Opened(lib, codec, item, fieldsToDecrypt, nonce, Subkey(lib, key, ENCRYPTION), item)
    ensures fresh(decryptionKey)
    ensures r.Success? ==> Zeroed(decryptionKey[..])
    ensures r.Failure? ==> decryptionKey[..] == Subkey(lib, key, ENCRYPTION)
  {
    var subkey := DeriveKey(lib, key, ENCRYPTION);
    decryptionKey := subkey;
    var decryptedItem := item;
    var i := 0;
    while i < |fieldsToDecrypt|
      invariant 0 <= i <= |fieldsToDecrypt|
      invariant subkey[..] == Subkey(lib, key, ENCRYPTION)
      invariant Opened(lib, codec, item, fieldsToDecrypt, nonce, subkey[..], item)
                == Opened(lib, codec, item, fieldsToDecrypt[i..], nonce, subkey[..], decryptedItem)
    {
      var fieldName := fieldsToDecrypt[i];
      assert fieldsToDecrypt[i..][0] == fieldName && fieldsToDecrypt[i..][1..] == fieldsToDecrypt[i + 1..];
      var outcome := OpenField(lib, codec, Get(item, fieldName), nonce, subkey[..]);
      match outcome {
        case Failure(e) =>
          return Failure(e), decryptionKey;
        case Success(None) =>
        case Success(Some(v)) =>
          decryptedItem := decryptedItem[fieldName := v];
      }
      i := i + 1;
    }
    Memzero(subkey);
    r := Success(decryptedItem);
  }

  /** The reference for decryption: every field of the item, replaced by its plaintext where it
      is named and truthy. */
  function Overlay(lib: Library, codec: Codec, item: Record, fields: seq<string>, nonce: Bytes, key: Bytes): (d: Record)
    requires forall f :: f in fields ==> OpenField(lib, codec, Get(item, f), nonce, key).Success?
    ensures d.Keys == item.Keys
  {
    map k | k in item ::
      if k in fields && Truthy(item[k]) then OpenField(lib, codec, Get(item, k), nonce, key).value.value else item[k]
  }

  /** Decryption fails exactly when some named field fails to open, and otherwise yields the
      overlay: named truthy fields decrypted, every other field copied unchanged. */
  lemma {:induction false} OpenedIsOverlay(lib: Library, codec: Codec, item: Record, fields: seq<string>,
                                          nonce: Bytes, key: Bytes, acc: Record)
    requires acc.Keys == item.Keys
    ensures Opened(lib, codec, item, fields, nonce, key, acc).Success?
            <==> forall f :: f in fields ==> OpenField(lib, codec, Get(item, f), nonce, key).Success?
    ensures Opened(lib, codec, item, fields, nonce, key, acc).Success? ==>
      var d := Opened(lib, codec, item, fields, nonce, key, acc).value;
      && d.Keys == item.Keys
      && forall k :: k in d ==>
           d[k] == if k in fields && Truthy(item[k]) then OpenField(lib, codec, item[k], nonce, key).value.value
                   else acc[k]
    decreases |fields|
  {
    if fields != [] {
      var f := fields[0];
      var o := OpenField(lib, codec, Get(item, f), nonce, key);
      if o.Success? {
        var acc' := if o.value.Some? then acc[f := o.value.value] else acc;
        OpenedIsOverlay(lib, codec, item, fields[1..], nonce, key, acc');
        assert forall g :: g in fields <==> g == f || g in fields[1..];
      }
    }
  }

  /** `decrypt` from the copy of the item is the overlay. */
  lemma DecryptIsOverlay(lib: Library, codec: Codec, item: Record, fields: seq<string>, nonce: Bytes, key: Bytes)
    ensures Opened(lib, codec, item, fields, nonce, key, item).Success?
            <==> forall f :: f in fields ==> OpenField(lib, codec, Get(item, f), nonce, key).Success?
    ensures Opened(lib, codec, item, fields, nonce, key, item).Success? ==>
      Opened(lib, codec, item, fields, nonce, key, item).value == Overlay(lib, codec, item, fields, nonce, key)
  {
    OpenedIsOverlay(lib, codec, item, fields, nonce, key, item);
  }

  /** One field round trip: the ciphertext of a clean value opens and parses back to it. */
  lemma FieldRoundTrip(lib: Library, codec: Codec, v: Value, nonce: Bytes, key: Bytes)
    requires Laws(lib) && Lawful(codec) && Clean(v)
    ensures OpenField(lib, codec, SealField(lib, codec, v, nonce, key), nonce, key) == Success(Some(v))
  {
    SerializeRoundTrip(codec, v);
  }

  /** decrypt(encrypt(item)) == item with the same nonce and key and the same field list, when
      every encrypted value is clean. Selected fields that are undefined or null were left in
      place by `encrypt` and are falsy, so `decrypt` leaves them too. */
  lemma RoundTrip(lib: Library, codec: Codec, item: Record, fields: seq<string>, nonce: Bytes, key: Bytes)
    requires Laws(lib) && Lawful(codec)
    requires forall k :: k in Selected(item, fields) ==> Clean(item[k])
    ensures Opened(lib, codec, item + Sealed(lib, codec, item, fields, nonce, key), fields, nonce, key,
                   item + Sealed(lib, codec, item, fields, nonce, key))
            == Success(item)
  {
    var e := item + Sealed(lib, codec, item, fields, nonce, key);
    EncryptedShape(lib, codec, item, fields, nonce, key);
    forall f | f in fields
      ensures OpenField(lib, codec, Get(e, f), nonce, key)
              == if f in Selected(item, fields) then Success(Some(item[f])) else Success(None)
    {
      SealedFieldOpens(lib, codec, item, fields, nonce, key, f);
    }
    DecryptIsOverlay(lib, codec, e, fields, nonce, key);
    assert Overlay(lib, codec, e, fields, nonce, key) == item;
  }

  /** A named field of the encrypted item opens to its plaintext when it was selected, and is
      left as it is otherwise. */
  lemma SealedFieldOpens(lib: Library, codec: Codec, item: Record, fields: seq<string>, nonce: Bytes, key: Bytes,
                         f: string)
    requires Laws(lib) && Lawful(codec)
    requires forall k :: k in Selected(item, fields) ==> Clean(item[k])
    requires f in fields
    ensures OpenField(lib, codec, Get(item + Sealed(lib, codec, item, fields, nonce, key), f), nonce, key)
            == if f in Selected(item, fields) then Success(Some(item[f])) else Success(None)
  {
    EncryptedShape(lib, codec, item, fields, nonce, key);
    if f in Selected(item, fields) {
      FieldRoundTrip(lib, codec, item[f], nonce, key);
    }
  }
}
