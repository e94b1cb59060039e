/** The current encryptor, src/main/LibsodiumEncryptor.ts: the selected fields of a record
    are taken out of it and encrypted together as one serialized object; decryption opens
    that blob and spreads its fields back over the remaining record, or, when no blob is
    given, decrypts field by field as the older format did. */
module LibsodiumEncryptor {
  import opened Wrappers
  import opened Sodium
  import opened Types
  import opened Values
  import opened Serialization
  import opened Numbers
  import FieldEncryptors

  /** `EncryptResult`: the fields left in clear, the nonce, and the one ciphertext. */
  datatype EncryptResult = EncryptResult(plaintextFields: Record, nonce: Bytes, encryptedFields: Bytes)

  /** `DecryptParams | LegacyDecryptParams`: `encryptedFields` is absent in the legacy form,
      which names in `fieldsToDecrypt` the fields encrypted in place. */
  datatype DecryptParams = DecryptParams(
    encryptedItem: Record,
    nonce: Bytes,
    dataKey: Bytes,
    encryptedFields: Option<Bytes>,
    fieldsToDecrypt: Option<seq<string>>
  )

  /** The blob one `encrypt` call produces: the selected fields as one object, serialized and
      sealed under the nonce and the encryption subkey of `dataKey`. */
  function Blob(lib: Library, codec: Codec, item: Record, fieldsToEncrypt: seq<string>, dataKey: Bytes, nonce: Bytes)
    : (b: Bytes)
    ensures Laws(lib) ==>
      lib.open(b, nonce, Subkey(lib, dataKey, ENCRYPTION)) == Some(Serialize(codec, Obj(Selected(item, fieldsToEncrypt))))
  {
    lib.secretbox(Serialize(codec, Obj(Selected(item, fieldsToEncrypt))), nonce, Subkey(lib, dataKey, ENCRYPTION))
  }

  /** `encrypt`: copies the item, moves each selected field that is neither undefined nor null
      from the copy into `itemToEncrypt`, seals `itemToEncrypt` once and zeroes the subkey.
      `nonce` is the output of `randombytes_buf`. */
  method Encrypt(lib: Library, codec: Codec, item: Record, fieldsToEncrypt: seq<string>, dataKey: Bytes, nonce: Bytes)
    returns (r: EncryptResult, ghost encryptionKey: array<uint8>)
    requires |nonce| == SECRETBOX_NONCEBYTES
    ensures r.plaintextFields == Remainder(item, fieldsToEncrypt)
    ensures r.nonce == nonce
    ensures r.encryptedFields == Blob(lib, codec, item, fieldsToEncrypt, dataKey, nonce)
    ensures fresh(encryptionKey) && Zeroed(encryptionKey[..])
  {
    var plaintextFields := item;
    var subkey := DeriveKey(lib, dataKey, ENCRYPTION);
    encryptionKey := subkey;
    var itemToEncrypt: Record := map[];
    var i := 0;
    assert fieldsToEncrypt[..0] == [];
    while i < |fieldsToEncrypt|
      invariant 0 <= i <= |fieldsToEncrypt|
      invariant subkey[..] == Subkey(lib, dataKey, ENCRYPTION)
      invariant itemToEncrypt == Selected(item, fieldsToEncrypt[..i])
      invariant plaintextFields == Remainder(item, fieldsToEncrypt[..i])
    {
      var fieldName := fieldsToEncrypt[i];
      var fieldValue := Get(item, fieldName);
      SelectStep(item, fieldsToEncrypt[..i], fieldName);
      assert fieldsToEncrypt[..i + 1] == fieldsToEncrypt[..i] + [fieldName];
      if Present(fieldValue) {
        itemToEncrypt := itemToEncrypt[fieldName := fieldValue];
        plaintextFields := plaintextFields - {fieldName};
      }
      i := i + 1;
    }
    assert fieldsToEncrypt[..i] == fieldsToEncrypt;
    var encryptedFields := lib.secretbox(Serialize(codec, Obj(itemToEncrypt)), nonce, subkey[..]);
    Memzero(subkey);
    r := EncryptResult(plaintextFields, nonce, encryptedFields);
  }

  /** Every key of `m` is the decimal text of an index below `n`. */
  ghost predicate IndexKeysOnly(m: Record, n: nat) {
    forall k :: k in m ==> exists i: nat :: i < n && k == ToDecimal(i)
  }

  /** The own enumerable properties of an array-like value: "0", "1", ... with its elements. */
  function Indexed(es: seq<Value>): (m: Record)
    ensures forall i: nat :: i < |es| ==> ToDecimal(i) in m && m[ToDecimal(i)] == es[i]
    ensures IndexKeysOnly(m, |es|)
  {
    if es == [] then map[]
    else
      var n := |es| - 1;
      DecimalInjective();
      Indexed(es[..n])[ToDecimal(n) := es[n]]
  }

  /** `{...encryptedItem, ...fieldValues}`: what spreading a value contributes. An object
      gives its fields; an array, a string and a Buffer give their indices as keys, with the
      elements, the one-character strings and the bytes as numbers; null, undefined, booleans
      and numbers give nothing. */
  function Spread(v: Value): (m: Record)
    ensures v.Obj? ==> m == v.fields
    ensures v.Arr? ==> IndexKeysOnly(m, |v.elems|)
                       && forall i: nat :: i < |v.elems| ==> ToDecimal(i) in m && m[ToDecimal(i)] == v.elems[i]
    ensures v.Str? ==> IndexKeysOnly(m, |v.s|)
                       && forall i: nat :: i < |v.s| ==> ToDecimal(i) in m && m[ToDecimal(i)] == Str([v.s[i]])
    ensures v.Binary? ==> IndexKeysOnly(m, |v.bytes|)
                          && forall i: nat :: i < |v.bytes| ==>
                               ToDecimal(i) in m && m[ToDecimal(i)] == Num(v.bytes[i] as int)
    ensures v.Undefined? || v.Null? || v.Bool? || v.Num? ==> m == map[]
  {
    match v
    case Obj(fields) => fields
    case Arr(es) => Indexed(es)
    case Str(s) => Indexed(seq(|s|, i requires 0 <= i < |s| => Str([s[i]])))
    case Binary(bytes) => Indexed(seq(|bytes|, i requires 0 <= i < |bytes| => Num(bytes[i] as int)))
    case _ => map[]
  }

  /** What `decrypt` returns. Without `encryptedFields` it is `legacyDecrypt`, which throws on
      a missing `fieldsToDecrypt` (`undefined.forEach`). With it, the blob must open
      (AuthenticationFailed otherwise) and deserialize, and its fields are spread over the
      item. */
  function Decrypted(lib: Library, codec: Codec, params: DecryptParams): (r: Outcome<Record>)
    ensures params.encryptedFields.None? && params.fieldsToDecrypt.None? ==> r == Failure(TypeError)
    ensures params.encryptedFields.None? && params.fieldsToDecrypt.Some? ==>
      r == FieldEncryptors.Opened(lib, codec, params.encryptedItem, params.fieldsToDecrypt.value, params.nonce,
                                  Subkey(lib, params.dataKey, ENCRYPTION), params.encryptedItem)
    ensures params.encryptedFields.Some? ==>
      match lib.open(params.encryptedFields.value, params.nonce, Subkey(lib, params.dataKey, ENCRYPTION))
      case None => r == Failure(AuthenticationFailed)
      case Some(bytes) => match Deserialize(codec, bytes)
                          case Failure(e) => r == Failure(e)
                          case Success(v) => r == Success(params.encryptedItem + Spread(v))
  {
    var key := Subkey(lib, params.dataKey, ENCRYPTION);
    match params.encryptedFields
    case None =>
      (match params.fieldsToDecrypt
       case None => Failure(TypeError)
       case Some(fields) =>
         FieldEncryptors.Opened(lib, codec, params.encryptedItem, fields, params.nonce, key, params.encryptedItem))
    case Some(blob) =>
      match lib.open(blob, params.nonce, key)
      case None => Failure(AuthenticationFailed)
      case Some(bytes) =>
        match Deserialize(codec, bytes)
        case Failure(e) => Failure(e)
        case Success(v) => Success(params.encryptedItem + Spread(v))
  }

  /** `decrypt`, dispatching to `legacyDecrypt` exactly when `encryptedFields` is absent. The
      subkey is zeroed on success only: a failing `open` or `deserialize` throws first and
      leaves it in memory. */
  method Decrypt(lib: Library, codec: Codec, params: DecryptParams)
    returns (r: Outcome<Record>, ghost decryptionKey: array<uint8>)
    ensures r == Decrypted(lib, codec, params)
    ensures fresh(decryptionKey)
    ensures r.Success? ==> Zeroed(decryptionKey[..])
    ensures r.Failure? ==> decryptionKey[..] == Subkey(lib, params.dataKey, ENCRYPTION)
  {
    if params.encryptedFields.None? {
      r, decryptionKey := LegacyDecrypt(lib, codec, params);
      return;
    }
    var subkey := DeriveKey(lib, params.dataKey, ENCRYPTION);
    decryptionKey := subkey;
    var jsonBytes := lib.open(params.encryptedFields.value, params.nonce, subkey[..]);
    if jsonBytes.None? {
      return Failure(AuthenticationFailed), decryptionKey;
    }
    var fieldValues := Deserialize(codec, jsonBytes.value);
    if fieldValues.Failure? {
      return Failure(fieldValues.error), decryptionKey;
    }
    Memzero(subkey);
    r := Success(params.encryptedItem + Spread(fieldValues.value));
  }

  /** `legacyDecrypt`: the subkey is derived before `fieldsToDecrypt` is read. */
  method LegacyDecrypt(lib: Library, codec: Codec, params: DecryptParams)
    returns (r: Outcome<Record>, ghost decryptionKey: array<uint8>)
    requires params.encryptedFields.None?
    ensures r == Decrypted(lib, codec, params)
    ensures fresh(decryptionKey)
    ensures r.Success? ==> Zeroed(decryptionKey[..])
    ensures r.Failure? ==> decryptionKey[..] == Subkey(lib, params.dataKey, ENCRYPTION)
  {
    if params.fieldsToDecrypt.None? {
      var subkey := DeriveKey(lib, params.dataKey, ENCRYPTION);
      return Failure(TypeError), subkey;
    }
    r, decryptionKey := FieldEncryptors.Decrypt(lib, codec, params.encryptedItem, params.fieldsToDecrypt.value,
                                                params.nonce, params.dataKey);
  }

  /** decrypt(encrypt(item)) == item: with the plaintext fields, nonce, data key and blob of
      one `encrypt` call, decryption restores the item, its undefined and null selected fields
      included, provided the selected fields form a clean value (no null or undefined inside,
      and not themselves shaped like a JSON buffer). */
  lemma RoundTrip(lib: Library, codec: Codec, item: Record, fieldsToEncrypt: seq<string>, dataKey: Bytes, nonce: Bytes,
                  fieldsToDecrypt: Option<seq<string>>)
    requires Laws(lib) && Lawful(codec)
    requires Clean(Obj(Selected(item, fieldsToEncrypt)))
    ensures Decrypted(lib, codec, DecryptParams(Remainder(item, fieldsToEncrypt), nonce, dataKey,
                                                Some(Blob(lib, codec, item, fieldsToEncrypt, dataKey, nonce)),
                                                fieldsToDecrypt))
            == Success(item)
  {
    SerializeRoundTrip(codec, Obj(Selected(item, fieldsToEncrypt)));
    PartitionRestores(item, fieldsToEncrypt);
  }

  /** Why the round trip needs the selection not to look like a buffer: a record whose selected
      fields are exactly `type: "Buffer"` and `data: [7]` comes back as a one-byte Buffer, whose
      spread is the index key "0", so decryption loses both fields and adds "0". */
  lemma BufferShapedSelectionLost(lib: Library, codec: Codec, dataKey: Bytes, nonce: Bytes)
    requires Laws(lib) && Lawful(codec)
    ensures var item := map["type" := Str("Buffer"), "data" := Arr([Num(7)])];
      Decrypted(lib, codec, DecryptParams(Remainder(item, ["type", "data"]), nonce, dataKey,
                                          Some(Blob(lib, codec, item, ["type", "data"], dataKey, nonce)), None))
      == Success(map["0" := Num(7)])
  {
    var item := map["type" := Str("Buffer"), "data" := Arr([Num(7)])];
    var fields := ["type", "data"];
    BufferShapedPartition();
    BufferShapedBlob(codec);
    OneByteSpread();
  }

  /** Naming both fields of `{type: "Buffer", data: [7]}` selects the whole record. */
  lemma BufferShapedPartition()
    ensures var item := map["type" := Str("Buffer"), "data" := Arr([Num(7)])];
      Selected(item, ["type", "data"]) == item && Remainder(item, ["type", "data"]) == map[]
  {
    var item := map["type" := Str("Buffer"), "data" := Arr([Num(7)])];
    assert Selected(item, ["type", "data"]) == item;
  }

  /** The selection `{type: "Buffer", data: [7]}` deserializes to the Buffer [7]. */
  lemma BufferShapedBlob(codec: Codec)
    requires Lawful(codec)
    ensures Deserialize(codec, Serialize(codec, Obj(map["type" := Str("Buffer"), "data" := Arr([Num(7)])])))
            == Success(Binary([7]))
  {
    var item := map["type" := Str("Buffer"), "data" := Arr([Num(7)])];
    Reparsed(codec, Obj(item));
    BufferShapedReparsed();
    assert BufferFrom([Num(7)]) == [7];
    assert BufferFromObject(item) == Success([7]);
  }

  /** The selection `{type: "Buffer", data: [7]}` parses back to itself. */
  lemma BufferShapedReparsed()
    ensures FromJson(ToJson(Obj(map["type" := Str("Buffer"), "data" := Arr([Num(7)])])).value)
            == Obj(map["type" := Str("Buffer"), "data" := Arr([Num(7)])])
  {
    var item := map["type" := Str("Buffer"), "data" := Arr([Num(7)])];
    assert Plain(Arr([Num(7)]));
    assert Plain(Obj(item));
    PlainRestores(Obj(item));
  }

  /** Spreading the one-byte Buffer [7] over an empty item gives the single property "0": 7. */
  lemma OneByteSpread()
    ensures Spread(Binary([7])) == map["0" := Num(7)]
    ensures map[] + Spread(Binary([7])) == map["0" := Num(7)]
  {
    var spread := Spread(Binary([7]));
    assert ToDecimal(0) == "0";
    assert "0" in spread && spread["0"] == Num(7);
    assert spread.Keys == {"0"};
  }
}
