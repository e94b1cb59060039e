/** A lawful JSON text layer exists, so the round trips that assume `Serialization.Lawful` are
    not vacuous. The witness is a self-delimiting byte encoding of JSON trees: natural numbers
    in unary, sequences and objects as lists ended by a 0 byte, every node behind a tag byte;
    its text holds one character per byte, and text is encoded as a list of code points. */
module CodecWitness {
  import opened Wrappers
  import opened Sodium
  import opened Serialization

  // ---------------------------------------------------------------------------------------
  // Encoding

  function NatEnc(n: nat): Bytes {
    if n == 0 then [0] else [1] + NatEnc(n - 1)
  }

  /** Integers folded onto the naturals: 0, -1, 1, -2, 2, ... */
  function IntEnc(n: int): Bytes {
    NatEnc(if n >= 0 then 2 * n else -2 * n - 1)
  }

  function StrEnc(s: string): Bytes {
    if s == [] then [0] else [1] + NatEnc(s[0] as int) + StrEnc(s[1..])
  }

  /** The key an object's encoding writes next. */
  ghost function PickKey(keys: set<string>): (k: string)
    requires keys != {}
    ensures k in keys
  {
    var k :| k in keys; k
  }

  ghost function Enc(j: Json): Bytes
    decreases j
  {
    match j
    case JNull => [0]
    case JBool(b) => [1] + [if b then 1 else 0]
    case JNum(n) => [2] + IntEnc(n)
    case JStr(s) => [3] + StrEnc(s)
    case JArr(es) => [4] + ListEnc(es)
    case JObj(m) => [5] + MapEnc(m, m.Keys)
  }

  ghost function ListEnc(es: seq<Json>): Bytes
    decreases es
  {
    if es == [] then [0] else [1] + Enc(es[0]) + ListEnc(es[1..])
  }

  /** The members of `m` whose keys are in `keys`. */
  ghost function MapEnc(m: map<string, Json>, keys: set<string>): Bytes
    requires keys <= m.Keys
    decreases JObj(m), keys
  {
    if keys == {} then [0]
    else
      var k := PickKey(keys);
      [1] + StrEnc(k) + Enc(m[k]) + MapEnc(m, keys - {k})
  }

  // ---------------------------------------------------------------------------------------
  // Decoding: each decoder reads one encoding off the front and returns what is left

  function NatDec(b: Bytes): (r: Option<(nat, Bytes)>)
    ensures r.Some? ==> |r.value.1| < |b|
  {
    if b == [] then None
    else if b[0] == 0 then Some((0, b[1..]))
    else if b[0] == 1 then
      match NatDec(b[1..])
      case None => None
      case Some((n, rest)) => Some((n + 1, rest))
    else None
  }

  function IntDec(b: Bytes): (r: Option<(int, Bytes)>)
    ensures r.Some? ==> |r.value.1| < |b|
  {
    match NatDec(b)
    case None => None
    case Some((z, rest)) => Some((if z % 2 == 0 then z / 2 else -(z + 1) / 2, rest))
  }

  function StrDec(b: Bytes): (r: Option<(string, Bytes)>)
    ensures r.Some? ==> |r.value.1| < |b|
    decreases |b|
  {
    if b == [] then None
    else if b[0] == 0 then Some(([], b[1..]))
    else if b[0] == 1 then
      match NatDec(b[1..])
      case None => None
      case Some((z, rest)) =>
        if !(z < 0xD800 || 0xE000 <= z < 0x11_0000) then None
        else
          match StrDec(rest)
          case None => None
          case Some((s, rest')) => Some(([z as char] + s, rest'))
    else None
  }

  function Dec(b: Bytes): (r: Option<(Json, Bytes)>)
    ensures r.Some? ==> |r.value.1| < |b|
    decreases |b|, 1
  {
    if b == [] then None
    else if b[0] == 0 then Some((JNull, b[1..]))
    else if b[0] == 1 then
      if |b| >= 2 && b[1] <= 1 then Some((JBool(b[1] == 1), b[2..])) else None
    else if b[0] == 2 then
      match IntDec(b[1..])
      case None => None
      case Some((n, rest)) => Some((JNum(n), rest))
    else if b[0] == 3 then
      match StrDec(b[1..])
      case None => None
      case Some((s, rest)) => Some((JStr(s), rest))
    else if b[0] == 4 then
      match ListDec(b[1..])
      case None => None
      case Some((es, rest)) => Some((JArr(es), rest))
    else if b[0] == 5 then
      match MapDec(b[1..])
      case None => None
      case Some((m, rest)) => Some((JObj(m), rest))
    else None
  }

  function ListDec(b: Bytes): (r: Option<(seq<Json>, Bytes)>)
    ensures r.Some? ==> |r.value.1| < |b|
    decreases |b|, 0
  {
    if b == [] then None
    else if b[0] == 0 then Some(([], b[1..]))
    else if b[0] == 1 then
      match Dec(b[1..])
      case None => None
      case Some((j, rest)) =>
        match ListDec(rest)
        case None => None
        case Some((es, rest')) => Some(([j] + es, rest'))
    else None
  }

  function MapDec(b: Bytes): (r: Option<(map<string, Json>, Bytes)>)
    ensures r.Some? ==> |r.value.1| < |b|
    decreases |b|, 0
  {
    if b == [] then None
    else if b[0] == 0 then Some((map[], b[1..]))
    else if b[0] == 1 then
      match StrDec(b[1..])
      case None => None
      case Some((k, rest)) =>
        match Dec(rest)
        case None => None
        case Some((j, rest')) =>
          match MapDec(rest')
          case None => None
          case Some((m, rest'')) => Some((m[k := j], rest''))
    else None
  }

  // ---------------------------------------------------------------------------------------
  // Each decoder undoes its encoder, whatever follows

  lemma {:induction false} NatRoundTrip(n: nat, rest: Bytes)
    ensures NatDec(NatEnc(n) + rest) == Some((n, rest))
  {
    if n > 0 {
      NatRoundTrip(n - 1, rest);
      assert (NatEnc(n) + rest)[1..] == NatEnc(n - 1) + rest;
    }
  }

  lemma IntRoundTrip(n: int, rest: Bytes)
    ensures IntDec(IntEnc(n) + rest) == Some((n, rest))
  {
    var z: nat := if n >= 0 then 2 * n else -2 * n - 1;
    NatRoundTrip(z, rest);
    if n >= 0 {
      assert z == n * 2 + 0;
      assert z % 2 == 0 && z / 2 == n;
    } else {
      assert z == (-n - 1) * 2 + 1;
      assert z % 2 == 1 && (z + 1) / 2 == -n;
    }
  }

  /** A 1 byte followed by two encodings and the rest. */
  lemma Pair(x: Bytes, y: Bytes, rest: Bytes)
    ensures var b := [1 as uint8] + x + y + rest; b != [] && b[0] == 1 && b[1..] == x + (y + rest)
  {
    var b := [1 as uint8] + x + y + rest;
    assert b == [1 as uint8] + (x + (y + rest));
  }

  /** One character read by `StrDec`. */
  lemma StrDecStep(b: Bytes, z: nat, t: string, r1: Bytes, r2: Bytes)
    requires b != [] && b[0] == 1 && (z < 0xD800 || 0xE000 <= z < 0x11_0000)
    requires NatDec(b[1..]) == Some((z, r1)) && StrDec(r1) == Some((t, r2))
    ensures StrDec(b) == Some(([z as char] + t, r2))
  {
  }

  /** One element read by `ListDec`. */
  lemma ListDecStep(b: Bytes, j: Json, es: seq<Json>, r1: Bytes, r2: Bytes)
    requires b != [] && b[0] == 1
    requires Dec(b[1..]) == Some((j, r1)) && ListDec(r1) == Some((es, r2))
    ensures ListDec(b) == Some(([j] + es, r2))
  {
  }

  lemma {:induction false} StrRoundTrip(s: string, rest: Bytes)
    ensures StrDec(StrEnc(s) + rest) == Some((s, rest))
  {
    if s != [] {
      var c, t := s[0], s[1..];
      var z: nat := c as int;
      assert z < 0xD800 || 0xE000 <= z < 0x11_0000;
      assert z as char == c;
      var b := StrEnc(s) + rest;
      var tail := StrEnc(t) + rest;
      assert StrEnc(s) == [1 as uint8] + NatEnc(z) + StrEnc(t);
      Pair(NatEnc(z), StrEnc(t), rest);
      NatRoundTrip(z, tail);
      StrRoundTrip(t, rest);
      StrDecStep(b, z, t, tail, rest);
      assert [c] + t == s;
    }
  }

  lemma {:induction false} RoundTrip(j: Json, rest: Bytes)
    ensures Dec(Enc(j) + rest) == Some((j, rest))
    decreases j
  {
    var b := Enc(j) + rest;
    match j {
      case JNull =>
      case JBool(v) =>
        assert b[1] == if v then 1 else 0;
        assert b[2..] == rest;
      case JNum(n) =>
        assert b[1..] == IntEnc(n) + rest;
        IntRoundTrip(n, rest);
      case JStr(s) =>
        assert b[1..] == StrEnc(s) + rest;
        StrRoundTrip(s, rest);
      case JArr(es) =>
        assert b[1..] == ListEnc(es) + rest;
        ListRoundTrip(es, rest);
      case JObj(m) =>
        assert b[1..] == MapEnc(m, m.Keys) + rest;
        MapRoundTrip(m, m.Keys, rest);
        assert Restrict(m, m.Keys) == m;
    }
  }

  lemma {:induction false} ListRoundTrip(es: seq<Json>, rest: Bytes)
    ensures ListDec(ListEnc(es) + rest) == Some((es, rest))
    decreases es
  {
    if es != [] {
      var tail := ListEnc(es[1..]) + rest;
      assert ListEnc(es) == [1 as uint8] + Enc(es[0]) + ListEnc(es[1..]);
      Pair(Enc(es[0]), ListEnc(es[1..]), rest);
      RoundTrip(es[0], tail);
      ListRoundTrip(es[1..], rest);
      ListDecStep(ListEnc(es) + rest, es[0], es[1..], tail, rest);
      assert [es[0]] + es[1..] == es;
    }
  }

  /** The members of `m` whose keys are in `keys`. */
  function Restrict(m: map<string, Json>, keys: set<string>): map<string, Json>
    requires keys <= m.Keys
  {
    map k | k in keys :: m[k]
  }

  lemma RestrictStep(m: map<string, Json>, keys: set<string>, k: string)
    requires keys <= m.Keys && k in keys
    ensures Restrict(m, keys - {k})[k := m[k]] == Restrict(m, keys)
  {
  }

  lemma Tagged(x: Bytes, y: Bytes, z: Bytes, rest: Bytes)
    ensures var b := [1 as uint8] + x + y + z + rest; b[0] == 1 && b[1..] == x + (y + (z + rest))
  {
    var b := [1 as uint8] + x + y + z + rest;
    assert b == [1 as uint8] + (x + (y + (z + rest)));
  }

  /** One member read by `MapDec`. */
  lemma MapDecStep(b: Bytes, k: string, j: Json, m: map<string, Json>, r1: Bytes, r2: Bytes, r3: Bytes)
    requires b != [] && b[0] == 1
    requires StrDec(b[1..]) == Some((k, r1)) && Dec(r1) == Some((j, r2)) && MapDec(r2) == Some((m, r3))
    ensures MapDec(b) == Some((m[k := j], r3))
  {
  }

  lemma {:induction false} MapRoundTrip(m: map<string, Json>, keys: set<string>, rest: Bytes)
    requires keys <= m.Keys
    ensures MapDec(MapEnc(m, keys) + rest) == Some((Restrict(m, keys), rest))
    decreases JObj(m), keys
  {
    if keys == {} {
      assert Restrict(m, keys) == map[];
    } else {
      var k := PickKey(keys);
      var tail := MapEnc(m, keys - {k}) + rest;
      var afterKey := Enc(m[k]) + tail;
      var b := MapEnc(m, keys) + rest;
      assert MapEnc(m, keys) == [1] + StrEnc(k) + Enc(m[k]) + MapEnc(m, keys - {k});
      Tagged(StrEnc(k), Enc(m[k]), MapEnc(m, keys - {k}), rest);
      StrRoundTrip(k, afterKey);
      RoundTrip(m[k], tail);
      MapRoundTrip(m, keys - {k}, rest);
      MapDecStep(b, k, m[k], Restrict(m, keys - {k}), afterKey, tail, rest);
      RestrictStep(m, keys, k);
    }
  }

  /** Bytes written as text, one character per byte. */
  function ToText(b: Bytes): (t: string)
    ensures |t| == |b|
  {
    seq(|b|, i requires 0 <= i < |b| => b[i] as char)
  }

  /** The inverse of ToText: text made of characters below 256 read as bytes. */
  function FromText(t: string): Option<Bytes> {
    if forall i :: 0 <= i < |t| ==> t[i] as int < 0x100
    then Some(seq(|t|, i requires 0 <= i < |t| => t[i] as int as uint8))
    else None
  }

  lemma TextRoundTrip(b: Bytes)
    ensures FromText(ToText(b)) == Some(b)
  {
    var t := ToText(b);
    assert forall i :: 0 <= i < |t| ==> t[i] as int == b[i] as int;
    var back := seq(|t|, i requires 0 <= i < |t| => t[i] as int as uint8);
    assert back == b;
  }

  /** The witness: the tree encoding written as text, text encoded character by character, and
      decoders that accept exactly one whole encoding. */
  lemma LawfulSatisfiable() returns (codec: Codec)
    ensures Lawful(codec)
  {
    codec := Codec(
      j => ToText(Enc(j)),
      t => StrEnc(t),
      b => match StrDec(b) case Some((t, rest)) => if rest == [] then Some(t) else None
                           case None => None,
      t => match FromText(t)
           case Some(b) => (match Dec(b) case Some((j, rest)) => if rest == [] then Some(j) else None
                                          case None => None)
           case None => None);
    forall j ensures codec.parse(codec.stringify(j)) == Some(j) {
      TextRoundTrip(Enc(j));
      RoundTrip(j, []);
      assert Enc(j) + [] == Enc(j);
    }
    forall t ensures codec.decode(codec.encode(t)) == Some(t) {
      StrRoundTrip(t, []);
      assert StrEnc(t) + [] == StrEnc(t);
    }
  }
}
