/** serialize / deserialize of src/main/encryptors/serialization.ts.

    `serialize` is fast-json-stable-stringify followed by UTF-8 encoding; `deserialize` is UTF-8
    decoding, JSON.parse and `convertJsonBuffers`. The text layer is foreign and is taken as
    a `Codec` parameter that maps JSON trees to text and text to bytes, and back; what the model
    computes concretely is how a JavaScript value becomes a JSON tree (the `toJSON` step of
    stringify, which turns a Buffer into `{type: "Buffer", data: [...]}` and drops `undefined`)
    and how `convertJsonBuffers` turns such nodes back into binary through `Buffer.from`. */
module Serialization {
  import opened Wrappers
  import opened Sodium
  import opened Values
  import opened Numbers

  /** A JSON document, as produced by JSON.parse. */
  datatype Json =
    | JNull
    | JBool(b: bool)
    | JNum(n: int)
    | JStr(s: string)
    | JArr(elems: seq<Json>)
    | JObj(members: map<string, Json>)

  /** The text layer, in two steps each way: stable stringify writes a tree as text and
      `from_string` encodes the text as UTF-8; `to_string` decodes UTF-8 (None where its
      fatal decoder rejects the bytes) and JSON.parse reads the text (None where it throws). */
  datatype Codec = Codec(
    stringify: Json -> string,
    encode: string -> Bytes,
    decode: Bytes -> Option<string>,
    parse: string -> Option<Json>
  )

  /** Parsing the text of a tree gives the tree back (stable stringify is deterministic and
      key order is immaterial for maps), and decoding the UTF-8 of a text gives the text. */
  ghost predicate Lawful(codec: Codec) {
    && (forall j :: codec.parse(codec.stringify(j)) == Some(j))
    && (forall t :: codec.decode(codec.encode(t)) == Some(t))
  }

  /** Buffer.prototype.toJSON: exactly the members `type: "Buffer"` and `data`, one number per byte. */
  function BufferJson(bytes: Bytes): (j: Json)
    ensures j.JObj? && j.members.Keys == {"type", "data"} && j.members["type"] == JStr("Buffer")
    ensures j.members["data"].JArr? && |j.members["data"].elems| == |bytes|
    ensures forall i :: 0 <= i < |bytes| ==> j.members["data"].elems[i] == JNum(bytes[i] as int)
  {
    JObj(map["type" := JStr("Buffer"),
             "data" := JArr(seq(|bytes|, i requires 0 <= i < |bytes| => JNum(bytes[i] as int)))])
  }

  /** The tree stable stringify writes for a value: None for `undefined` (no text at all);
      `undefined` object members are omitted and `undefined` array elements become null. */
  function ToJson(v: Value): (r: Option<Json>)
    ensures r.None? <==> v.Undefined?
  {
    match v
    case Undefined => None
    case Null => Some(JNull)
    case Bool(b) => Some(JBool(b))
    case Num(n) => Some(JNum(n))
    case Str(s) => Some(JStr(s))
    case Arr(es) => Some(JArr(seq(|es|, i requires 0 <= i < |es| => ToJson(es[i]).GetOr(JNull))))
    case Obj(m) => Some(JObj(map k | k in m && !m[k].Undefined? :: ToJson(m[k]).value))
    case Binary(bytes) => Some(BufferJson(bytes))
  }

  /** The JavaScript value JSON.parse builds from a tree. */
  function FromJson(j: Json): (v: Value)
    ensures !v.Undefined? && !v.Binary?
  {
    match j
    case JNull => Null
    case JBool(b) => Bool(b)
    case JNum(n) => Num(n)
    case JStr(s) => Str(s)
    case JArr(es) => Arr(seq(|es|, i requires 0 <= i < |es| => FromJson(es[i])))
    case JObj(m) => Obj(map k | k in m :: FromJson(m[k]))
  }

  /** `serialize`. Its callers only pass values that are not `undefined`. */
  function Serialize(codec: Codec, v: Value): Bytes
    requires !v.Undefined?
  {
    codec.encode(codec.stringify(ToJson(v).value))
  }

  /** `deserialize`: `to_string`, then JSON.parse, then `convertJsonBuffers`. `to_string`
      rethrows a decoding failure as a TypeError; JSON.parse throws a SyntaxError. */
  function Deserialize(codec: Codec, bytes: Bytes): (r: Outcome<Value>)
    ensures codec.decode(bytes).None? ==> r == Failure(TypeError)
    ensures codec.decode(bytes).Some? && codec.parse(codec.decode(bytes).value).None? ==> r == Failure(SyntaxError)
    ensures r.Failure? ==> r.error == SyntaxError || r.error == TypeError
    ensures r.Success? ==> !r.value.Undefined?
  {
    match codec.decode(bytes)
    case None => Failure(TypeError)
    case Some(text) =>
      match codec.parse(text)
      case None => Failure(SyntaxError)
      case Some(j) => Conversion(FromJson(j))
  }

  // ---------------------------------------------------------------------------------------
  // convertJsonBuffers and isJsonBuffer

  /** The shape `isJsonBuffer` accepts: `data` is an array and `type` is the string "Buffer". */
  predicate LooksLikeBuffer(m: map<string, Value>) {
    "data" in m && m["data"].Arr? && "type" in m && m["type"] == Str("Buffer")
  }

  /** `isJsonBuffer(obj)`: reading `obj.data` throws when `obj` is null. */
  function IsJsonBuffer(v: Value): (r: Outcome<bool>)
    ensures r.Failure? <==> v.Null?
    ensures r == Success(true) <==> v.Obj? && LooksLikeBuffer(v.fields)
  {
    match v
    case Null => Failure(TypeError)
    case Obj(m) => Success(LooksLikeBuffer(m))
    case _ => Success(false)
  }

  /** Buffer.from's ToUint8 conversion of an array element: a number becomes the byte congruent
      to it modulo 256, a boolean 1 or 0, anything else 0. */
  function ToUint8(v: Value): (r: uint8)
    ensures v.Num? ==> (v.n - r as int) % 0x100 == 0
    ensures v.Num? && 0 <= v.n < 0x100 ==> r as int == v.n
    ensures !v.Num? && !v.Bool? ==> r == 0
  {
    match v
    case Num(n) => (n % 0x100) as uint8
    case Bool(b) => if b then 1 else 0
    case _ => 0
  }

  /** Buffer.from's copy of an array-like of `length` elements (fromArrayLike). */
  function BufferFrom(data: seq<Value>): (bytes: Bytes)
    ensures |bytes| == |data|
    ensures forall i :: 0 <= i < |data| ==> bytes[i] == ToUint8(data[i])
  {
    seq(|data|, i requires 0 <= i < |data| => ToUint8(data[i]))
  }

  /** The `length` elements Buffer.from reads from an object: its members "0", "1", ...,
      a missing one reading as undefined. */
  function ArrayLike(m: map<string, Value>, length: nat): (es: seq<Value>)
    ensures |es| == length
    ensures forall i: nat :: i < length ==> es[i] == Get(m, ToDecimal(i))
  {
    seq(length, i requires 0 <= i < length => Get(m, ToDecimal(i)))
  }

  /** `Buffer.from(obj)` on a parsed object that `isJsonBuffer` accepted. An own `valueOf`
      member shadows Object.prototype.valueOf: a truthy one is called and throws (it is no
      function); the empty string makes it `Buffer.from("")`. Then `fromObject` reads
      `length` before `type` and `data`: a `length` that is not a number gives an empty
      buffer, a number gives that many elements read by index; only without `length` are
      the `data` elements copied. */
  function BufferFromObject(m: map<string, Value>): (r: Outcome<Bytes>)
    requires LooksLikeBuffer(m)
    ensures r.Failure? <==> Truthy(Get(m, "valueOf"))
    ensures r.Failure? ==> r.error == TypeError
    ensures !Truthy(Get(m, "valueOf")) && Get(m, "valueOf") == Str("") ==> r == Success([])
    ensures !Truthy(Get(m, "valueOf")) && Get(m, "valueOf") != Str("") && Get(m, "length") != Undefined ==>
      r == Success(match m["length"] case Num(n) => if n <= 0 then [] else BufferFrom(ArrayLike(m, n)) case _ => [])
    ensures !("valueOf" in m) && !("length" in m) ==> r == Success(BufferFrom(m["data"].elems))
  {
    var valueOf := Get(m, "valueOf");
    if Truthy(valueOf) then Failure(TypeError)
    else if valueOf == Str("") then Success([])
    else if Get(m, "length") != Undefined then
      match m["length"]
      case Num(n) => if n <= 0 then Success([]) else Success(BufferFrom(ArrayLike(m, n)))
      case _ => Success([])
    else Success(BufferFrom(m["data"].elems))
  }

  /** The conversion does not throw: no `null` is reached. Nodes inside a JSON buffer are not
      visited, every other object member and array element is. */
  predicate Convertible(v: Value) {
    match v
    case Null => false
    case Obj(m) => if LooksLikeBuffer(m) then BufferFromObject(m).Success? else forall k :: k in m ==> Convertible(m[k])
    case Arr(es) => forall i :: 0 <= i < |es| ==> Convertible(es[i])
    case _ => true
  }

  /** The value `convertJsonBuffers` returns when it does not throw. */
  function Converted(v: Value): (r: Value)
    requires Convertible(v)
    ensures v.Obj? && LooksLikeBuffer(v.fields) ==> r == Binary(BufferFromObject(v.fields).value)
    ensures v.Obj? && !LooksLikeBuffer(v.fields) ==> r.Obj? && r.fields.Keys == v.fields.Keys
    ensures v.Arr? ==> r.Arr? && |r.elems| == |v.elems|
    ensures !v.Obj? && !v.Arr? ==> r == v
  {
    match v
    case Obj(m) =>
      if LooksLikeBuffer(m) then Binary(BufferFromObject(m).value)
      else Obj(map k | k in m :: Converted(m[k]))
    case Arr(es) => Arr(seq(|es|, i requires 0 <= i < |es| => Converted(es[i])))
    case _ => v
  }

  /** `convertJsonBuffers` as a result: TypeError when a null is reached. */
  function Conversion(v: Value): (r: Outcome<Value>)
    ensures r.Success? <==> Convertible(v)
    ensures r.Failure? ==> r.error == TypeError
    ensures v.Null? ==> r == Failure(TypeError)
  {
    if Convertible(v) then Success(Converted(v)) else Failure(TypeError)
  }

  /** `convertJsonBuffers(obj)`: a JSON buffer becomes a Buffer; an object or array has each
      member overwritten by its own conversion, keeping its keys; anything else is returned as
      it is. Reaching `null` throws. */
  method ConvertJsonBuffers(v: Value) returns (r: Outcome<Value>)
    ensures r == Conversion(v)
    decreases v, 1
  {
    var isBuffer := IsJsonBuffer(v);
    if isBuffer.Failure? {
      return Failure(TypeError);
    }
    if isBuffer.value {
      var bytes := BufferFromObject(v.fields);
      return if bytes.Success? then Success(Binary(bytes.value)) else Failure(bytes.error);
    }
    match v {
      case Obj(m) =>
        var out := ConvertMembers(m);
        r := if out.Success? then Success(Obj(out.value)) else Failure(out.error);
      case Arr(es) =>
        var out := ConvertElements(es);
        r := if out.Success? then Success(Arr(out.value)) else Failure(out.error);
      case _ =>
        r := Success(v);
    }
  }

  /** The `forEach` over `Object.keys(obj)` that overwrites each member of a non-buffer object. */
  method ConvertMembers(m: map<string, Value>) returns (r: Outcome<map<string, Value>>)
    requires !LooksLikeBuffer(m)
    ensures r.Success? <==> Convertible(Obj(m))
    ensures r.Success? ==> r.value == Converted(Obj(m)).fields
    ensures r.Failure? ==> r.error == TypeError
    decreases Obj(m), 0
  {
    var out := m;
    var todo := m.Keys;
    while todo != {}
      invariant todo <= m.Keys && out.Keys == m.Keys
      invariant forall k :: k in m && k !in todo ==> Convertible(m[k]) && out[k] == Converted(m[k])
      decreases todo
    {
      var k :| k in todo;
      var c := ConvertJsonBuffers(m[k]);
      if c.Failure? {
        return Failure(TypeError);
      }
      out := out[k := c.value];
      todo := todo - {k};
    }
    assert out == Converted(Obj(m)).fields;
    r := Success(out);
  }

  /** The same `forEach` over the indices of an array. */
  method ConvertElements(es: seq<Value>) returns (r: Outcome<seq<Value>>)
    ensures r.Success? <==> Convertible(Arr(es))
    ensures r.Success? ==> r.value == Converted(Arr(es)).elems
    ensures r.Failure? ==> r.error == TypeError
    decreases Arr(es), 0
  {
    var out := es;
    var i := 0;
    while i < |es|
      invariant 0 <= i <= |es| && |out| == |es|
      invariant forall j :: 0 <= j < i ==> Convertible(es[j]) && out[j] == Converted(es[j])
    {
      var c := ConvertJsonBuffers(es[i]);
      if c.Failure? {
        return Failure(TypeError);
      }
      out := out[i := c.value];
      i := i + 1;
    }
    assert out == Converted(Arr(es)).elems;
    r := Success(out);
  }

  /** Reaching a null member throws, whatever the rest of the object holds. */
  lemma NullMemberThrows(m: map<string, Value>, k: string)
    requires k in m && m[k] == Null && !LooksLikeBuffer(m)
    ensures Conversion(Obj(m)) == Failure(TypeError)
  {
    assert !Convertible(m[k]);
  }

  // ---------------------------------------------------------------------------------------
  // Round trip

  /** Values that survive serialization unchanged: no null or undefined at any depth (null
      makes convertJsonBuffers throw, undefined is dropped or becomes null) and no object that
      already has the JSON-buffer shape (it would come back as binary). */
  predicate Clean(v: Value) {
    match v
    case Undefined => false
    case Null => false
    case Arr(es) => forall i :: 0 <= i < |es| ==> Clean(es[i])
    case Obj(m) => !LooksLikeBuffer(m) && forall k :: k in m ==> Clean(m[k])
    case _ => true
  }

  /** Parsing the tree of a clean value and converting its buffers gives the value back. */
  lemma {:induction false} ToJsonRestores(v: Value)
    requires Clean(v)
    ensures ToJson(v).Some?
    ensures Convertible(FromJson(ToJson(v).value))
    ensures Converted(FromJson(ToJson(v).value)) == v
  {
    match v {
      case Binary(bytes) =>
        BinaryRestores(bytes);
      case Arr(es) =>
        var w := FromJson(ToJson(v).value);
        forall i | 0 <= i < |es|
          ensures w.elems[i] == FromJson(ToJson(es[i]).value)
          ensures Convertible(w.elems[i]) && Converted(w.elems[i]) == es[i]
        {
          ToJsonRestores(es[i]);
        }
        assert Converted(w).elems == es;
      case Obj(m) =>
        var w := FromJson(ToJson(v).value);
        assert w.fields.Keys == m.Keys;
        forall k | k in m
          ensures w.fields[k] == FromJson(ToJson(m[k]).value)
          ensures Convertible(w.fields[k]) && Converted(w.fields[k]) == m[k]
        {
          ToJsonRestores(m[k]);
        }
        ShapeKept(m, w.fields, "data");
        ShapeKept(m, w.fields, "type");
        assert !LooksLikeBuffer(w.fields);
        assert Converted(w).fields == m;
      case _ =>
    }
  }

  /** The `{type, data}` form of a Buffer parses and converts back to the same bytes. */
  lemma BinaryRestores(bytes: Bytes)
    ensures Convertible(FromJson(BufferJson(bytes)))
    ensures Converted(FromJson(BufferJson(bytes))) == Binary(bytes)
  {
    var j := BufferJson(bytes);
    var w := FromJson(j);
    assert w.fields.Keys == {"type", "data"};
    assert w.fields["type"] == FromJson(JStr("Buffer")) == Str("Buffer");
    var nums := j.members["data"].elems;
    assert w.fields["data"] == FromJson(JArr(nums));
    var data := w.fields["data"].elems;
    assert |data| == |bytes|;
    forall i | 0 <= i < |bytes| ensures ToUint8(data[i]) == bytes[i] {
      assert data[i] == FromJson(nums[i]) == Num(bytes[i] as int);
    }
    assert BufferFrom(data) == bytes;
    assert BufferFromObject(w.fields) == Success(bytes);
  }

  /** Through serialization a member keeps its being an array and its being the string "Buffer". */
  lemma ShapeKept(m: map<string, Value>, w: map<string, Value>, k: string)
    requires w.Keys == m.Keys
    requires forall k' :: k' in m ==> Clean(m[k']) && ToJson(m[k']).Some? &&
                                      w[k'] == FromJson(ToJson(m[k']).value)
    ensures k in m ==> (w[k].Arr? <==> m[k].Arr?)
    ensures k in m ==> (w[k] == Str("Buffer") <==> m[k] == Str("Buffer"))
  {
  }

  /** deserialize(serialize(v)) == v for every clean value, binary values at any depth included. */
  lemma SerializeRoundTrip(codec: Codec, v: Value)
    requires Lawful(codec) && Clean(v)
    ensures Deserialize(codec, Serialize(codec, v)) == Success(v)
  {
    ToJsonRestores(v);
    var text := codec.stringify(ToJson(v).value);
    assert codec.decode(codec.encode(text)) == Some(text);
    assert codec.parse(text) == Some(ToJson(v).value);
  }

  /** A value JSON.parse can build: no undefined and no Buffer anywhere inside. */
  predicate Plain(v: Value) {
    match v
    case Undefined => false
    case Binary(_) => false
    case Arr(es) => forall i :: 0 <= i < |es| ==> Plain(es[i])
    case Obj(m) => forall k :: k in m ==> Plain(m[k])
    case _ => true
  }

  /** The tree stable stringify writes for a plain value parses back to that value. */
  lemma {:induction false} PlainRestores(v: Value)
    requires Plain(v)
    ensures ToJson(v).Some? && FromJson(ToJson(v).value) == v
  {
    match v {
      case Arr(es) =>
        var w := FromJson(ToJson(v).value);
        forall i | 0 <= i < |es| ensures w.elems[i] == es[i] {
          PlainRestores(es[i]);
        }
      case Obj(m) =>
        var w := FromJson(ToJson(v).value);
        assert w.fields.Keys == m.Keys;
        forall k | k in m ensures w.fields[k] == m[k] {
          PlainRestores(m[k]);
        }
      case _ =>
    }
  }

  /** What deserialize(serialize(v)) computes for any value: the conversion of the parsed tree. */
  lemma Reparsed(codec: Codec, v: Value)
    requires Lawful(codec) && !v.Undefined?
    ensures Deserialize(codec, Serialize(codec, v)) == Conversion(FromJson(ToJson(v).value))
  {
    var text := codec.stringify(ToJson(v).value);
    assert codec.decode(codec.encode(text)) == Some(text);
    assert codec.parse(text) == Some(ToJson(v).value);
  }

  /** A stored object `{type: "Buffer", data: [7], length: 2}` comes back as the two bytes read
      from its (missing) members "0" and "1", not as the `data` byte. */
  lemma LengthOverridesData(codec: Codec)
    requires Lawful(codec)
    ensures Deserialize(codec, Serialize(codec, Obj(map["type" := Str("Buffer"), "data" := Arr([Num(7)]),
                                                        "length" := Num(2)])))
            == Success(Binary([0, 0]))
  {
    var item := map["type" := Str("Buffer"), "data" := Arr([Num(7)]), "length" := Num(2)];
    Reparsed(codec, Obj(item));
    LengthItemReparsed();
    LengthItemBytes();
  }

  lemma LengthItemReparsed()
    ensures FromJson(ToJson(Obj(map["type" := Str("Buffer"), "data" := Arr([Num(7)]), "length" := Num(2)])).value)
            == Obj(map["type" := Str("Buffer"), "data" := Arr([Num(7)]), "length" := Num(2)])
  {
    var item := map["type" := Str("Buffer"), "data" := Arr([Num(7)]), "length" := Num(2)];
    assert Plain(Arr([Num(7)]));
    assert Plain(Obj(item));
    PlainRestores(Obj(item));
  }

  lemma LengthItemBytes()
    ensures BufferFromObject(map["type" := Str("Buffer"), "data" := Arr([Num(7)]), "length" := Num(2)])
            == Success([0, 0])
  {
    var item := map["type" := Str("Buffer"), "data" := Arr([Num(7)]), "length" := Num(2)];
    assert Get(item, "valueOf") == Undefined && Get(item, "length") == Num(2);
    assert ToDecimal(0) == "0" && ToDecimal(1) == "1";
    assert Get(item, "0") == Undefined && Get(item, "1") == Undefined;
    var es := ArrayLike(item, 2);
    assert es[0] == Undefined && es[1] == Undefined;
    var bytes := BufferFrom(es);
    assert bytes[0] == 0 && bytes[1] == 0;
    assert bytes == [0, 0];
  }

  /** A stored object `{type: "Buffer", data: [7], valueOf: 1}` makes deserialization throw a
      TypeError: Buffer.from calls the number 1. */
  lemma TruthyValueOfThrows(codec: Codec)
    requires Lawful(codec)
    ensures Deserialize(codec, Serialize(codec, Obj(map["type" := Str("Buffer"), "data" := Arr([Num(7)]),
                                                        "valueOf" := Num(1)])))
            == Failure(TypeError)
  {
    var item := map["type" := Str("Buffer"), "data" := Arr([Num(7)]), "valueOf" := Num(1)];
    Reparsed(codec, Obj(item));
    ValueOfItemReparsed();
    assert LooksLikeBuffer(item) && Truthy(Get(item, "valueOf"));
  }

  lemma ValueOfItemReparsed()
    ensures FromJson(ToJson(Obj(map["type" := Str("Buffer"), "data" := Arr([Num(7)]), "valueOf" := Num(1)])).value)
            == Obj(map["type" := Str("Buffer"), "data" := Arr([Num(7)]), "valueOf" := Num(1)])
  {
    var item := map["type" := Str("Buffer"), "data" := Arr([Num(7)]), "valueOf" := Num(1)];
    assert Plain(Arr([Num(7)]));
    assert Plain(Obj(item));
    PlainRestores(Obj(item));
  }
}
