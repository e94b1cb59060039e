/** JavaScript values as they appear in records, and the field selection that every encryptor
    applies to a record. */
module Values {
  import opened Sodium

  /** A JavaScript value. `Binary` is a Node Buffer / Uint8Array; numbers are integers. */
  datatype Value =
    | Undefined
    | Null
    | Bool(b: bool)
    | Num(n: int)
    | Str(s: string)
    | Arr(elems: seq<Value>)
    | Obj(fields: map<string, Value>)
    | Binary(bytes: Bytes)

  /** A record: field names to values; a key may be present with the value `undefined`. */
  type Record = map<string, Value>

  /** `item[name]`: a missing property reads as `undefined`. */
  function Get(item: Record, name: string): Value {
    if name in item then item[name] else Undefined
  }

  /** The encryptors' test `fieldValue !== undefined && fieldValue !== null`. */
  predicate Present(v: Value) {
    !v.Undefined? && !v.Null?
  }

  /** JavaScript truthiness, as tested by `if (cipherText)`. */
  predicate Truthy(v: Value) {
    match v
    case Undefined => false
    case Null => false
    case Bool(b) => b
    case Num(n) => n != 0
    case Str(s) => s != ""
    case _ => true
  }

  /** The fields an encryptor takes out of `item` for `fieldsToEncrypt`: the selected fields
      whose value is neither undefined nor null, with their values. */
  function Selected(item: Record, fieldsToEncrypt: seq<string>): (s: Record)
    ensures forall k :: k in s <==> k in fieldsToEncrypt && Present(Get(item, k))
    ensures forall k :: k in s ==> k in item && s[k] == item[k]
  {
    map k | k in item && k in fieldsToEncrypt && Present(item[k]) :: item[k]
  }

  /** What stays visible after the selected fields are removed: every other field, including
      selected fields whose value is undefined or null. */
  function Remainder(item: Record, fieldsToEncrypt: seq<string>): (p: Record)
    ensures forall k :: k in p <==> k in item && !(k in fieldsToEncrypt && Present(item[k]))
    ensures forall k :: k in p ==> p[k] == item[k]
  {
    map k | k in item && !(k in fieldsToEncrypt && Present(item[k])) :: item[k]
  }

  /** Selection splits a record: the two parts have disjoint key sets whose union is the
      record's, and putting the selected fields back over the remainder restores the record. */
  lemma PartitionRestores(item: Record, fieldsToEncrypt: seq<string>)
    ensures Selected(item, fieldsToEncrypt).Keys !! Remainder(item, fieldsToEncrypt).Keys
    ensures Selected(item, fieldsToEncrypt).Keys + Remainder(item, fieldsToEncrypt).Keys == item.Keys
    ensures Remainder(item, fieldsToEncrypt) + Selected(item, fieldsToEncrypt) == item
  {
    var s, p := Selected(item, fieldsToEncrypt), Remainder(item, fieldsToEncrypt);
    assert (p + s).Keys == item.Keys;
  }

  /** One more selected name moves at most that field from the remainder to the selection. */
  lemma SelectStep(item: Record, fields: seq<string>, f: string)
    ensures Present(Get(item, f)) ==>
      && Selected(item, fields + [f]) == Selected(item, fields)[f := item[f]]
      && Remainder(item, fields + [f]) == Remainder(item, fields) - {f}
    ensures !Present(Get(item, f)) ==>
      && Selected(item, fields + [f]) == Selected(item, fields)
      && Remainder(item, fields + [f]) == Remainder(item, fields)
  {
    var s, s' := Selected(item, fields), Selected(item, fields + [f]);
    var p, p' := Remainder(item, fields), Remainder(item, fields + [f]);
    if Present(Get(item, f)) {
      assert s'.Keys == s.Keys + {f};
      assert p'.Keys == p.Keys - {f};
    } else {
      assert s'.Keys == s.Keys;
      assert p'.Keys == p.Keys;
    }
  }
}
