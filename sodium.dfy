/** The libsodium primitives the system calls, taken as parameters.

    Authenticated encryption (crypto_secretbox_easy / crypto_secretbox_open_easy), key
    derivation (crypto_kdf_derive_from_key) and base64 are foreign code. The model does not
    implement them: every operation that uses them receives a `Library` of functions, and
    the properties that depend on their correctness assume `Laws(lib)`. */
module Sodium {
  import opened Wrappers

  newtype uint8 = x: int | 0 <= x < 0x100

  type Bytes = seq<uint8>

  /** crypto_secretbox_KEYBYTES, crypto_secretbox_NONCEBYTES, crypto_kdf_KEYBYTES. */
  const SECRETBOX_KEYBYTES: nat := 32
  const SECRETBOX_NONCEBYTES: nat := 24
  const KDF_KEYBYTES: nat := 32

  /** The 8-character key-derivation context every component passes to crypto_kdf_derive_from_key. */
  const CONTEXT: string := "__jayz__"

  datatype Library = Library(
    secretbox: (Bytes, Bytes, Bytes) -> Bytes,         // (message, nonce, key) -> ciphertext
    open: (Bytes, Bytes, Bytes) -> Option<Bytes>,      // (ciphertext, nonce, key) -> message, None on forgery
    kdf: (nat, nat, string, Bytes) -> Bytes,           // (subkey length, subkey id, context, master key)
    toBase64: Bytes -> string,
    fromBase64: string -> Option<Bytes>
  )

  /** What the model relies on: opening a box with the nonce and key it was sealed with gives the
      message back; subkeys with different ids from one master key differ; base64 round-trips. */
  ghost predicate Laws(lib: Library) {
    && (forall m, n, k :: lib.open(lib.secretbox(m, n, k), n, k) == Some(m))
    && (forall len, id1, id2, ctx, key ::
          id1 != id2 ==> lib.kdf(len, id1, ctx, key) != lib.kdf(len, id2, ctx, key))
    && (forall b :: lib.fromBase64(lib.toBase64(b)) == Some(b))
  }

  /** The laws are consistent: a (cryptographically useless) library satisfies them, so the
      lemmas that assume them are not vacuous. */
  lemma LawsSatisfiable() returns (lib: Library)
    ensures Laws(lib)
  {
    lib := Library(
      (m: Bytes, n: Bytes, k: Bytes) => m,
      (c: Bytes, n: Bytes, k: Bytes) => Some(c),
      (len: nat, id: nat, ctx: string, key: Bytes) => seq(id, _ => 0 as uint8),
      (b: Bytes) => seq(|b|, i requires 0 <= i < |b| => (b[i] as int) as char),
      (s: string) => Some(seq(|s|, i requires 0 <= i < |s| =>
                               if (s[i] as int) < 0x100 then (s[i] as int) as uint8 else 0))
    );
    forall len: nat, id1: nat, id2: nat, ctx: string, key: Bytes | id1 != id2
      ensures lib.kdf(len, id1, ctx, key) != lib.kdf(len, id2, ctx, key)
    {
      assert |lib.kdf(len, id1, ctx, key)| == id1;
      assert |lib.kdf(len, id2, ctx, key)| == id2;
    }
    forall b: Bytes ensures lib.fromBase64(lib.toBase64(b)) == Some(b) {
      var s := lib.toBase64(b);
      var back := seq(|s|, i requires 0 <= i < |s| =>
                    if (s[i] as int) < 0x100 then (s[i] as int) as uint8 else 0);
      assert lib.fromBase64(s) == Some(back);
      assert |back| == |b|;
      forall i | 0 <= i < |b| ensures back[i] == b[i] {
        assert s[i] as int == b[i] as int;
      }
      assert back == b;
    }
  }

  /** The 32-byte subkey number `id` of `key` in the "__jayz__" context. */
  function Subkey(lib: Library, key: Bytes, id: nat): Bytes {
    lib.kdf(SECRETBOX_KEYBYTES, id, CONTEXT, key)
  }

  ghost predicate Zeroed(s: Bytes) {
    forall i :: 0 <= i < |s| ==> s[i] == 0
  }

  /** The private `deriveKey` of each encryptor: a fresh key buffer holding the subkey. */
  method DeriveKey(lib: Library, dataKey: Bytes, keyType: nat) returns (key: array<uint8>)
    ensures fresh(key)
    ensures key[..] == Subkey(lib, dataKey, keyType)
  {
    var derived := Subkey(lib, dataKey, keyType);
    key := new uint8[|derived|](i requires 0 <= i < |derived| => derived[i]);
  }

  /** sodium's `memzero`: overwrites every byte of the buffer with zero. */
  method Memzero(buf: array<uint8>)
    modifies buf
    ensures Zeroed(buf[..])
  {
    var i := 0;
    while i < buf.Length
      invariant 0 <= i <= buf.Length
      invariant forall j :: 0 <= j < i ==> buf[j] == 0
    {
      buf[i] := 0;
      i := i + 1;
    }
  }
}
