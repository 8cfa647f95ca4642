/** The Bloom filter of a table (src/sstable.cpp), for any hash function. */
module Bloom {
  import opened Bytes

  // The i-th hash of a key.
  type Hash = (bytes, nat) -> nat

  // ---------- Bits of a byte ----------

  predicate TestBit(x: bv8, j: nat)
    requires j < 8
  {
    x & ((1 as bv8) << j) != 0
  }

  function OrBit(x: bv8, j: nat): bv8
    requires j < 8
  {
    x | ((1 as bv8) << j)
  }

  predicate HasBit(b: byte, j: nat)
    requires j < 8
  {
    TestBit(b as bv8, j)
  }

  function WithBit(b: byte, j: nat): byte
    requires j < 8
  {
    OrBit(b as bv8, j) as int
  }

  lemma WithBitSets(b: byte, j: nat, k: nat)
    requires j < 8 && k < 8
    ensures HasBit(WithBit(b, j), k) <==> k == j || HasBit(b, k)
  {
    var x := b as bv8;
    var y := OrBit(x, j);
    assert WithBit(b, j) as bv8 == y by { BitsRoundTrip(y); }
    assert TestBit(y, k) <==> k == j || TestBit(x, k) by { OrSets(x, j, k); }
  }

  lemma OrSets(x: bv8, j: nat, k: nat)
    requires j < 8 && k < 8
    ensures TestBit(OrBit(x, j), k) <==> k == j || TestBit(x, k)
  {
  }

  predicate BitSet(bits: bytes, p: nat)
    requires p / 8 < |bits|
  {
    HasBit(bits[p / 8], p % 8)
  }

  // ---------- What a filter answers ----------

  datatype Filter = Filter(bitCount: nat, hashCount: nat, bits: bytes)

  predicate WellSized(f: Filter) {
    |f.bits| == (f.bitCount + 7) / 8
  }

  // Every bit has a byte.
  predicate InBounds(f: Filter) {
    f.bitCount <= 8 * |f.bits|
  }

  ghost predicate Covers(hash: Hash, f: Filter, key: bytes)
    requires InBounds(f)
  {
    f.bitCount > 0 ==> forall i :: 0 <= i < f.hashCount ==> BitSet(f.bits, hash(key, i) % f.bitCount)
  }

  method MightContain(hash: Hash, f: Filter, key: bytes) returns (r: bool)
    requires InBounds(f)
    ensures r <==> Covers(hash, f, key)
    ensures r <==> f.bitCount == 0 || forall i :: 0 <= i < f.hashCount ==> BitSet(f.bits, hash(key, i) % f.bitCount)
  {
    if f.bitCount == 0 || f.hashCount == 0 {
      return true;
    }
    for i := 0 to f.hashCount
      invariant forall j :: 0 <= j < i ==> BitSet(f.bits, hash(key, j) % f.bitCount)
    {
      var bit := hash(key, i) % f.bitCount;
      if !HasBit(f.bits[bit / 8], bit % 8) {
        return false;
      }
    }
    r := true;
  }

  // ---------- Building a filter in place ----------

  class BloomFilter {
    const hash: Hash
    const bitCount: nat
    const hashCount: nat
    const bits: array<byte>
    ghost var added: set<bytes>

    ghost function Value(): Filter
      reads bits
    {
      Filter(bitCount, hashCount, bits[..])
    }

    // No key once added is answered with "no".
    ghost predicate Valid()
      reads this, bits
    {
      && WellSized(Value())
      && forall k :: k in added ==> Covers(hash, Value(), k)
    }

    constructor (hash: Hash, bitCount: nat, hashCount: nat)
      ensures Valid() && fresh(bits) && added == {}
      ensures this.hash == hash && this.bitCount == bitCount && this.hashCount == hashCount
      ensures forall p :: 0 <= p < bitCount ==> !BitSet(bits[..], p)
    {
      this.hash, this.bitCount, this.hashCount := hash, bitCount, hashCount;
      bits := new byte[(bitCount + 7) / 8](_ => 0);
      added := {};
      new;
      forall p | 0 <= p < bitCount ensures !BitSet(bits[..], p) {
        ZeroHasNoBit(p % 8);
      }
    }

    /** Adding sets exactly the key's bits, and every key added before stays covered. */
    method Add(key: bytes)
      requires Valid()
      modifies this, bits
      ensures Valid() && added == old(added) + {key}
      ensures forall p :: 0 <= p < bitCount ==>
        (BitSet(bits[..], p) <==>
           old(BitSet(bits[..], p)) || exists i :: 0 <= i < hashCount && p == hash(key, i) % bitCount)
    {
      added := added + {key};
      if bitCount == 0 || hashCount == 0 {
        return;
      }
      ghost var before := bits[..];
      for i := 0 to hashCount
        modifies bits
        invariant forall p :: 0 <= p < bitCount ==>
          (BitSet(bits[..], p) <==> BitSet(before, p) || exists j :: 0 <= j < i && p == hash(key, j) % bitCount)
      {
        SetBit(bits, hash(key, i) % bitCount);
      }
      assert Covers(hash, Value(), key);
    }
  }

  method SetBit(bits: array<byte>, bit: nat)
    requires bit / 8 < bits.Length
    modifies bits
    ensures forall p: nat :: p / 8 < bits.Length ==> (BitSet(bits[..], p) <==> p == bit || old(BitSet(bits[..], p)))
  {
    ghost var before := bits[..];
    bits[bit / 8] := WithBit(bits[bit / 8], bit % 8);
    SetBitAt(before, bits[..], bit);
  }

  lemma SetBitAt(bits: bytes, bits': bytes, bit: nat)
    requires bit / 8 < |bits| && bits' == bits[bit / 8 := WithBit(bits[bit / 8], bit % 8)]
    ensures forall p: nat :: p / 8 < |bits| ==> (BitSet(bits', p) <==> p == bit || BitSet(bits, p))
  {
    forall p: nat | p / 8 < |bits| ensures BitSet(bits', p) <==> p == bit || BitSet(bits, p) {
      if p / 8 == bit / 8 {
        WithBitSets(bits[bit / 8], bit % 8, p % 8);
      }
    }
  }

  lemma ZeroHasNoBit(j: nat)
    requires j < 8
    ensures !HasBit(0, j)
  {
  }
}
