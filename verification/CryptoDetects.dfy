/** What the fallback cipher (src/crypto.cpp) does to single bytes, and which changes of a ciphertext its tag
    exposes. */
module CryptoDetects {
  import opened Bytes
  import opened Results
  import opened Crc
  import opened CrcDetects
  import opened Crypto

  lemma XorByteInjective(a: byte, b: byte, k: byte)
    requires XorByte(a, k) == XorByte(b, k)
    ensures a == b
  {
    var x, y := (a as bv8) ^ (k as bv8), (b as bv8) ^ (k as bv8);
    BitsRoundTrip(x);
    BitsRoundTrip(y);
    XorCancels(a as bv8, b as bv8, k as bv8);
    ByteRoundTrip(a);
    ByteRoundTrip(b);
  }

  lemma XorCancels(x: bv8, y: bv8, k: bv8)
    ensures x ^ k == y ^ k ==> x == y
  {
  }

  // A digit that is masked alike on both sides is the same.
  lemma MaskedDigit(c: nat, d: nat, n: nat, i: nat, k: byte)
    requires i < n && XorByte(ByteOf(c, i), k) == XorByte(ByteOf(d, i), k)
    ensures Le(c, n)[i] == Le(d, n)[i]
  {
    XorByteInjective(ByteOf(c, i), ByteOf(d, i), k);
    LeByte(c, n, i);
    LeByte(d, n, i);
  }

  lemma SameDigits(c: nat, d: nat, n: nat)
    requires c < Pow256(n) && d < Pow256(n) && forall i :: 0 <= i < n ==> Le(c, n)[i] == Le(d, n)[i]
    ensures c == d
  {
    assert Le(c, n) == Le(d, n);
    LeRoundTrip(c, n);
    LeRoundTrip(d, n);
  }

  lemma TagDigit(key: bytes, data: bytes, i: nat)
    requires |key| == KEY_BYTES && i < 16
    ensures Tag(key, data)[i] == XorByte(ByteOf(Checksum(data), i % 4), key[i + 7])
  {
    assert (i + 7) % KEY_BYTES == i + 7;
  }

  /** Two inputs have the same tag if and only if they have the same checksum. */
  lemma TagIsChecksum(key: bytes, a: bytes, b: bytes)
    requires |key| == KEY_BYTES
    ensures Tag(key, a) == Tag(key, b) <==> Checksum(a) == Checksum(b)
  {
    if Tag(key, a) == Tag(key, b) {
      var c, d := Checksum(a), Checksum(b);
      forall i | 0 <= i < 4 ensures Le(c, 4)[i] == Le(d, 4)[i] {
        assert i % 4 == i;
        TagDigit(key, a, i);
        TagDigit(key, b, i);
        MaskedDigit(c, d, 4, i, key[i + 7]);
      }
      WordSizes();
      SameDigits(c, d, 4);
    }
  }

  /** A ciphertext changed within 32 consecutive bits is refused, whatever its nonce. */
  lemma ChangedTextIsRefused(key: bytes, blob: Blob, text: bytes, aad: bytes, p: nat)
    requires |key| == KEY_BYTES && |blob.nonce| == NONCE_BYTES && FallbackDecrypt(key, blob, aad).Some?
    requires Burst(blob.ciphertext + aad, text + aad, p)
    ensures FallbackDecrypt(key, blob.(ciphertext := text), aad) == None
  {
    TagIsChecksum(key, blob.ciphertext + aad, text + aad);
    BurstIsDetected(blob.ciphertext + aad, text + aad, p);
  }

  lemma MaskedByte(t: byte, k: byte, n: byte)
    ensures XorByte(MaskByte(t, k, n), t) == XorByte(k, n)
  {
    BitsRoundTrip((t as bv8) ^ (k as bv8) ^ (n as bv8));
    MaskIsStream(t as bv8, k as bv8, n as bv8);
  }

  lemma MaskIsStream(t: bv8, k: bv8, n: bv8)
    ensures t ^ k ^ n ^ t == k ^ n
  {
  }

  /** Text and ciphertext differ, byte by byte, by the key repeated every 32 bytes and the nonce repeated
      every 12. */
  lemma CipherIsStream(key: bytes, plain: bytes, aad: bytes, seed: nat, i: nat)
    requires |key| == KEY_BYTES && i < |plain|
    ensures var blob := FallbackEncrypt(key, plain, aad, seed);
            XorByte(blob.ciphertext[i], plain[i]) == XorByte(key[i % 32], blob.nonce[i % 12])
  {
    MaskedByte(plain[i], key[i % 32], Nonce(key, seed)[i % 12]);
  }

  lemma NonceDigit(key: bytes, seed: nat, i: nat)
    requires |key| == KEY_BYTES && i < 8
    ensures Nonce(key, seed)[i] == XorByte(ByteOf(seed, i), key[i])
  {
    assert i % 8 == i && i % KEY_BYTES == i;
  }

  /** Two encryptions use the same nonce if and only if they draw the same 64 bits. */
  lemma NonceIsSeed(key: bytes, s: nat, t: nat)
    requires |key| == KEY_BYTES && s < UINT64_SIZE && t < UINT64_SIZE
    ensures Nonce(key, s) == Nonce(key, t) <==> s == t
  {
    if Nonce(key, s) == Nonce(key, t) {
      forall i | 0 <= i < 8 ensures Le(s, 8)[i] == Le(t, 8)[i] {
        NonceDigit(key, s, i);
        NonceDigit(key, t, i);
        MaskedDigit(s, t, 8, i, key[i]);
      }
      WordSizes();
      SameDigits(s, t, 8);
    }
  }
}
