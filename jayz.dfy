/** The orchestrator of src/main/JayZ.ts: encrypts and decrypts items, one at a time or in
    batches, by delegating to an encryptor fixed at construction.

    The encryptor JayZ is built with (`encrypt({item, fieldsToEncrypt})`,
    `decrypt({item})`, which obtain their own data keys) is not part of this model; it is a
    parameter given as two functions. A batch runs its items in input order and fails with
    the first failure in that order. */
module JayZ {
  import opened Wrappers
  import opened Values

  /** `EncryptItemProps`: an item and the names of the fields to encrypt. */
  datatype EncryptItemProps = EncryptItemProps(item: Record, fieldsToEncrypt: seq<string>)

  /** The encryptor's two operations, reduced to the item each yields. */
  datatype Encryptor = Encryptor(
    encrypt: EncryptItemProps -> Outcome<Record>,
    decrypt: Record -> Outcome<Record>
  )

  /** `Promise.all` over results already computed in order: all values when every result
      succeeded, else the first failure. */
  function All<T>(rs: seq<Outcome<T>>): (r: Outcome<seq<T>>)
    ensures r.Success? <==> forall i :: 0 <= i < |rs| ==> rs[i].Success?
    ensures r.Success? ==> |r.value| == |rs| && forall i :: 0 <= i < |rs| ==> rs[i] == Success(r.value[i])
    ensures r.Failure? ==>
      exists i :: 0 <= i < |rs| && rs[i] == Failure(r.error) && forall j :: 0 <= j < i ==> rs[j].Success?
  {
    if rs == [] then Success([])
    else
      match rs[0]
      case Failure(e) => Failure(e)
      case Success(v) =>
        match All(rs[1..])
        case Failure(e) => Failure(e)
        case Success(vs) => Success([v] + vs)
  }

  /** A JayZ instance; being a value, its encryptor can never be replaced. */
  datatype JayZ = JayZ(encryptor: Encryptor) {

    /** `encryptItem`: exactly the encryptor's `encryptedItem` for the item and its fields. */
    function EncryptItem(props: EncryptItemProps): (r: Outcome<Record>)
      ensures r == encryptor.encrypt(EncryptItemProps(props.item, props.fieldsToEncrypt))
    {
      encryptor.encrypt(props)
    }

    /** `encryptItems`: an empty batch gives [] at once; otherwise one encrypted item per input,
        in input order. */
    function EncryptItems(itemsToEncrypt: seq<EncryptItemProps>): (r: Outcome<seq<Record>>)
      ensures itemsToEncrypt == [] ==> r == Success([])
      ensures r.Success? <==> forall i :: 0 <= i < |itemsToEncrypt| ==> EncryptItem(itemsToEncrypt[i]).Success?
      ensures r.Success? ==>
        && |r.value| == |itemsToEncrypt|
        && forall i :: 0 <= i < |itemsToEncrypt| ==> r.value[i] == EncryptItem(itemsToEncrypt[i]).value
    {
      if |itemsToEncrypt| == 0 then Success([])
      else
        var rs := seq(|itemsToEncrypt|, i requires 0 <= i < |itemsToEncrypt| => EncryptItem(itemsToEncrypt[i]));
        assert forall i :: 0 <= i < |itemsToEncrypt| ==> rs[i] == EncryptItem(itemsToEncrypt[i]);
        All(rs)
    }

    /** `decryptItem`: exactly the encryptor's `decryptedItem`. */
    function DecryptItem(item: Record): (r: Outcome<Record>)
      ensures r == encryptor.decrypt(item)
    {
      encryptor.decrypt(item)
    }

    /** `decryptItems`: an empty batch gives [] at once; otherwise one item per input, in order. */
    function DecryptItems(itemsToDecrypt: seq<Record>): (r: Outcome<seq<Record>>)
      ensures itemsToDecrypt == [] ==> r == Success([])
      ensures r.Success? <==> forall i :: 0 <= i < |itemsToDecrypt| ==> DecryptItem(itemsToDecrypt[i]).Success?
      ensures r.Success? ==>
        && |r.value| == |itemsToDecrypt|
        && forall i :: 0 <= i < |itemsToDecrypt| ==> r.value[i] == DecryptItem(itemsToDecrypt[i]).value
    {
      if |itemsToDecrypt| == 0 then Success([])
      else
        var rs := seq(|itemsToDecrypt|, i requires 0 <= i < |itemsToDecrypt| => DecryptItem(itemsToDecrypt[i]));
        assert forall i :: 0 <= i < |itemsToDecrypt| ==> rs[i] == DecryptItem(itemsToDecrypt[i]);
        All(rs)
    }
  }

  /** An encryptor whose decrypt undoes its encrypt. */
  ghost predicate Inverse(e: Encryptor) {
    forall p :: e.encrypt(p).Success? ==> e.decrypt(e.encrypt(p).value) == Success(p.item)
  }

  /** Batches inherit the encryptor's round trip: decrypting an encrypted batch gives the items
      back, in order. */
  lemma BatchRoundTrip(jayz: JayZ, itemsToEncrypt: seq<EncryptItemProps>)
    requires Inverse(jayz.encryptor)
    requires jayz.EncryptItems(itemsToEncrypt).Success?
    ensures jayz.DecryptItems(jayz.EncryptItems(itemsToEncrypt).value)
            == Success(seq(|itemsToEncrypt|, i requires 0 <= i < |itemsToEncrypt| => itemsToEncrypt[i].item))
  {
    var encrypted := jayz.EncryptItems(itemsToEncrypt).value;
    forall i | 0 <= i < |encrypted| ensures jayz.DecryptItem(encrypted[i]) == Success(itemsToEncrypt[i].item) {
      assert jayz.encryptor.encrypt(itemsToEncrypt[i]) == Success(encrypted[i]);
    }
    var r := jayz.DecryptItems(encrypted);
    var items := seq(|itemsToEncrypt|, i requires 0 <= i < |itemsToEncrypt| => itemsToEncrypt[i].item);
    assert r.Success?;
    assert forall i :: 0 <= i < |items| ==> r.value[i] == items[i];
    assert r.value == items;
  }

  /** An empty batch succeeds even with an encryptor that always fails: it is never consulted. */
  lemma EmptyBatches(e: Error)
    ensures var failing := JayZ(Encryptor(p => Failure(e), item => Failure(e)));
      failing.EncryptItems([]) == Success([]) && failing.DecryptItems([]) == Success([])
  {
  }
}
