/** Authenticated encryption as the log and the tables use it: any cipher whose decryption
    inverts its encryption, and the fallback of src/crypto.cpp as one such cipher. */
module Crypto {
  import opened Bytes
  import opened Results
  import opened Crc

  const NONCE_BYTES: nat := 12
  const TAG_BYTES: nat := 16
  const KEY_BYTES: nat := 32

  datatype Blob = Blob(nonce: bytes, tag: bytes, ciphertext: bytes)

  // Encryption draws its nonce from `seed`; it may fail.
  datatype Cipher = Cipher(encrypt: (bytes, nat) -> Option<Blob>, decrypt: Blob -> Option<bytes>)

  ghost predicate Lawful(c: Cipher) {
    forall plain, seed :: c.encrypt(plain, seed).Some? ==> Seals(c, plain, c.encrypt(plain, seed).value)
  }

  ghost predicate Seals(c: Cipher, plain: bytes, blob: Blob) {
    && |blob.nonce| == NONCE_BYTES
    && |blob.tag| == TAG_BYTES
    && |blob.ciphertext| == |plain|
    && c.decrypt(blob) == Some(plain)
  }

  // ---------- Bytewise XOR ----------

  function XorByte(a: byte, b: byte): byte {
    ((a as bv8) ^ (b as bv8)) as int
  }

  function MaskByte(t: byte, k: byte, n: byte): byte {
    ((t as bv8) ^ (k as bv8) ^ (n as bv8)) as int
  }

  lemma MaskByteTwice(t: byte, k: byte, n: byte)
    ensures MaskByte(MaskByte(t, k, n), k, n) == t
  {
    ByteRoundTrip(t);
    BitsRoundTrip((t as bv8) ^ (k as bv8) ^ (n as bv8));
    MaskCancels(t as bv8, k as bv8, n as bv8);
  }

  lemma MaskCancels(t: bv8, k: bv8, n: bv8)
    ensures t ^ k ^ n ^ k ^ n == t
  {
  }

  // ---------- The fallback cipher ----------

  // The i-th byte of v, least significant first: `(v >> (8 * i)) & 0xFF`.
  function ByteOf(v: nat, i: nat): byte {
    (v / Pow256(i)) % 256
  }

  function Nonce(key: bytes, seed: nat): bytes
    requires |key| == KEY_BYTES
  {
    seq(NONCE_BYTES, i requires 0 <= i < NONCE_BYTES => XorByte(ByteOf(seed, i % 8), key[i % KEY_BYTES]))
  }

  function Masked(key: bytes, nonce: bytes, text: bytes): bytes
    requires |key| == KEY_BYTES && |nonce| == NONCE_BYTES
  {
    seq(|text|, i requires 0 <= i < |text| => MaskByte(text[i], key[i % KEY_BYTES], nonce[i % NONCE_BYTES]))
  }

  function Tag(key: bytes, authenticated: bytes): bytes
    requires |key| == KEY_BYTES
  {
    var c := Checksum(authenticated);
    seq(TAG_BYTES, i requires 0 <= i < TAG_BYTES => XorByte(ByteOf(c, i % 4), key[(i + 7) % KEY_BYTES]))
  }

  function FallbackEncrypt(key: bytes, plain: bytes, aad: bytes, seed: nat): Blob
    requires |key| == KEY_BYTES
  {
    var nonce := Nonce(key, seed);
    var ciphertext := Masked(key, nonce, plain);
    Blob(nonce, Tag(key, ciphertext + aad), ciphertext)
  }

  function FallbackDecrypt(key: bytes, blob: Blob, aad: bytes): Option<bytes>
    requires |key| == KEY_BYTES && |blob.nonce| == NONCE_BYTES
  {
    if blob.tag == Tag(key, blob.ciphertext + aad) then Some(Masked(key, blob.nonce, blob.ciphertext)) else None
  }

  lemma MaskTwice(key: bytes, nonce: bytes, text: bytes)
    requires |key| == KEY_BYTES && |nonce| == NONCE_BYTES
    ensures Masked(key, nonce, Masked(key, nonce, text)) == text
  {
    var once := Masked(key, nonce, text);
    forall i | 0 <= i < |text| ensures Masked(key, nonce, once)[i] == text[i] {
      MaskByteTwice(text[i], key[i % KEY_BYTES], nonce[i % NONCE_BYTES]);
    }
  }

  /** Decryption inverts encryption under the same additional data, and accepts exactly one tag. */
  lemma FallbackRoundTrip(key: bytes, plain: bytes, aad: bytes, seed: nat)
    requires |key| == KEY_BYTES
    ensures FallbackDecrypt(key, FallbackEncrypt(key, plain, aad, seed), aad) == Some(plain)
    ensures forall blob: Blob :: blob.nonce == Nonce(key, seed) && blob.ciphertext == Masked(key, blob.nonce, plain) ==>
              (FallbackDecrypt(key, blob, aad) == Some(plain) <==> blob == FallbackEncrypt(key, plain, aad, seed))
  {
    MaskTwice(key, Nonce(key, seed), plain);
  }

  // The fallback as the log and the tables use it, without additional data.
  function FallbackCipher(key: bytes): Cipher
    requires |key| == KEY_BYTES
  {
    Cipher((plain: bytes, seed: nat) => Some(FallbackEncrypt(key, plain, [], seed)),
           (blob: Blob) => if |blob.nonce| == NONCE_BYTES then FallbackDecrypt(key, blob, []) else None)
  }

  lemma FallbackIsLawful(key: bytes)
    requires |key| == KEY_BYTES
    ensures Lawful(FallbackCipher(key))
  {
    var c := FallbackCipher(key);
    forall plain, seed | c.encrypt(plain, seed).Some? ensures Seals(c, plain, c.encrypt(plain, seed).value) {
      FallbackRoundTrip(key, plain, [], seed);
    }
  }

  // ---------- The code ----------

  method FillTag(key: bytes, authenticated: bytes) returns (tag: bytes)
    requires |key| == KEY_BYTES
    ensures tag == Tag(key, authenticated)
  {
    var c := TableChecksum(authenticated);
    var a := new byte[TAG_BYTES];
    for i := 0 to TAG_BYTES
      invariant forall k :: 0 <= k < i ==> a[k] == XorByte(ByteOf(c, k % 4), key[(k + 7) % KEY_BYTES])
    {
      a[i] := XorByte(ByteOf(c, i % 4), key[(i + 7) % KEY_BYTES]);
    }
    tag := a[..];
  }

  method Mask(key: bytes, nonce: bytes, text: bytes) returns (masked: bytes)
    requires |key| == KEY_BYTES && |nonce| == NONCE_BYTES
    ensures masked == Masked(key, nonce, text)
  {
    var a := new byte[|text|];
    for i := 0 to |text|
      invariant forall k :: 0 <= k < i ==> a[k] == MaskByte(text[k], key[k % KEY_BYTES], nonce[k % NONCE_BYTES])
    {
      a[i] := MaskByte(text[i], key[i % KEY_BYTES], nonce[i % NONCE_BYTES]);
    }
    masked := a[..];
  }

  method Encrypt(key: bytes, plain: bytes, aad: bytes, seed: nat) returns (blob: Blob)
    requires |key| == KEY_BYTES
    ensures blob == FallbackEncrypt(key, plain, aad, seed)
  {
    var a := new byte[NONCE_BYTES];
    for i := 0 to NONCE_BYTES
      invariant forall k :: 0 <= k < i ==> a[k] == XorByte(ByteOf(seed, k % 8), key[k % KEY_BYTES])
    {
      a[i] := XorByte(ByteOf(seed, i % 8), key[i % KEY_BYTES]);
    }
    var nonce := a[..];
    assert nonce == Nonce(key, seed);
    var ciphertext := Mask(key, nonce, plain);
    var tag := FillTag(key, ciphertext + aad);
    blob := Blob(nonce, tag, ciphertext);
  }

  method Decrypt(key: bytes, blob: Blob, aad: bytes) returns (plain: Option<bytes>)
    requires |key| == KEY_BYTES && |blob.nonce| == NONCE_BYTES
    ensures plain == FallbackDecrypt(key, blob, aad)
  {
    var expected := FillTag(key, blob.ciphertext + aad);
    if expected != blob.tag {
      return None;
    }
    var text := Mask(key, blob.nonce, blob.ciphertext);
    plain := Some(text);
  }
}
