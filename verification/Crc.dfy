/** CRC-32 (src/util.cpp): the table-driven loop computes the bit-at-a-time checksum. */
module Crc {
  import opened Bytes

  const POLYNOMIAL: bv32 := 0xEDB88320

  // One bit of polynomial division.
  function ShiftBit(c: bv32): bv32 {
    if c & 1 == 1 then POLYNOMIAL ^ (c >> 1) else c >> 1
  }

  function Xor(a: bv32, b: bv32): bv32 {
    a ^ b
  }

  function Iterate<T>(f: T -> T, x: T, n: nat): T
    decreases n, x
  {
    if n == 0 then x else Iterate(f, f(x), n - 1)
  }

  function Fold<T>(step: (T, byte) -> T, c: T, data: bytes): T
    decreases data, c
  {
    if data == [] then c else Fold(step, step(c, data[0]), data[1..])
  }

  // The definition: each byte is added into the register, which is then divided bit by bit.
  function DivideByte(c: bv32, b: byte): bv32 {
    Iterate(ShiftBit, Xor(c, b as bv32), 8)
  }

  function Crc32(data: bytes): bv32 {
    Xor(Fold(DivideByte, 0xFFFF_FFFF, data), 0xFFFF_FFFF)
  }

  function Checksum(data: bytes): (c: nat)
    ensures c < UINT32_SIZE
  {
    Crc32(data) as int
  }

  // ---------- The shift step is linear over XOR ----------

  lemma ShiftOfXor(a: bv32, b: bv32)
    ensures ShiftBit(a ^ b) == ShiftBit(a) ^ ShiftBit(b)
  {
    LowBitOfXor(a, b);
    HighBitsOfXor(a, b);
    var p, x, y := POLYNOMIAL, a >> 1, b >> 1;
    XorRegroup(p, x, y);
  }

  lemma LowBitOfXor(a: bv32, b: bv32)
    ensures (a ^ b) & 1 == (a & 1) ^ (b & 1)
    ensures a & 1 == 0 || a & 1 == 1
    ensures b & 1 == 0 || b & 1 == 1
  {
  }

  lemma HighBitsOfXor(a: bv32, b: bv32)
    ensures (a ^ b) >> 1 == (a >> 1) ^ (b >> 1)
  {
  }

  lemma XorRegroup(p: bv32, x: bv32, y: bv32)
    ensures p ^ (x ^ y) == (p ^ x) ^ y == x ^ (p ^ y)
    ensures x ^ y == (p ^ x) ^ (p ^ y)
  {
  }

  ghost predicate Linear<T(!new)>(f: T -> T, plus: (T, T) -> T) {
    forall x, y :: f(plus(x, y)) == plus(f(x), f(y))
  }

  lemma {:induction false} IterateIsLinear<T(!new)>(f: T -> T, plus: (T, T) -> T, x: T, y: T, n: nat)
    requires Linear(f, plus)
    ensures Iterate(f, plus(x, y), n) == plus(Iterate(f, x, n), Iterate(f, y, n))
    decreases n, x
  {
    if n > 0 {
      assert f(plus(x, y)) == plus(f(x), f(y));
      IterateIsLinear(f, plus, f(x), f(y), n - 1);
    }
  }

  // Iterating over a sum, one part of which is known.
  lemma IterateSum<T(!new)>(f: T -> T, plus: (T, T) -> T, c: T, x: T, y: T, x': T, n: nat)
    requires Linear(f, plus) && c == plus(x, y) && Iterate(f, x, n) == x'
    ensures Iterate(f, c, n) == plus(x', Iterate(f, y, n))
  {
    IterateIsLinear(f, plus, x, y, n);
  }

  lemma ShiftIsLinearEverywhere()
    ensures Linear(ShiftBit, Xor)
  {
    forall a, b ensures ShiftBit(Xor(a, b)) == Xor(ShiftBit(a), ShiftBit(b)) {
      ShiftOfXor(a, b);
    }
  }

  // ---------- Eight shifts are one table lookup ----------

  lemma EightSteps<T>(f: T -> T, x: T)
    ensures Iterate(f, x, 8) == f(f(f(f(f(f(f(f(x))))))))
  {
    var x2 := f(f(x));
    assert Iterate(f, x, 8) == Iterate(f, f(x), 7) == Iterate(f, x2, 6);
    var x4 := f(f(x2));
    assert Iterate(f, x2, 6) == Iterate(f, f(x2), 5) == Iterate(f, x4, 4);
    var x6 := f(f(x4));
    assert Iterate(f, x4, 4) == Iterate(f, f(x4), 3) == Iterate(f, x6, 2);
    assert Iterate(f, x6, 2) == Iterate(f, f(x6), 1) == Iterate(f, f(f(x6)), 0);
  }

  // A register without low byte is only moved down by eight shifts.
  lemma HighPartShifts(c: bv32)
    requires c & 0xFF == 0
    ensures Iterate(ShiftBit, c, 8) == c >> 8
  {
    EightSteps(ShiftBit, c);
  }

  lemma SplitLowByte(c: bv32)
    ensures c == Xor(c & 0xFFFF_FF00, c & 0xFF)
    ensures (c & 0xFFFF_FF00) & 0xFF == 0
    ensures (c & 0xFFFF_FF00) >> 8 == c >> 8
  {
  }

  // Eight division steps are a lookup by the low byte and a shift of the rest.
  lemma EightShiftsAreOneLookup(c: bv32)
    ensures Iterate(ShiftBit, c, 8) == Xor(Iterate(ShiftBit, c & 0xFF, 8), c >> 8)
  {
    var high, low, rest := c & 0xFFFF_FF00, c & 0xFF, c >> 8;
    assert c == Xor(high, low) && Iterate(ShiftBit, high, 8) == rest by {
      SplitLowByte(c);
      HighPartShifts(high);
    }
    assert Linear(ShiftBit, Xor) by { ShiftIsLinearEverywhere(); }
    IterateSum(ShiftBit, Xor, c, high, low, rest, 8);
    XorCommutes(rest, Iterate(ShiftBit, low, 8));
  }

  lemma XorCommutes(a: bv32, b: bv32)
    ensures Xor(a, b) == Xor(b, a)
  {
  }

  // ---------- The code ----------

  function Entry(i: byte): bv32 {
    Iterate(ShiftBit, i as bv32, 8)
  }

  function LowByte(x: bv32): (i: byte)
    ensures i as bv32 == x & 0xFF
  {
    LowByteFits(x);
    WordRoundTrip(x & 0xFF);
    (x & 0xFF) as int
  }

  lemma WordRoundTrip(x: bv32)
    ensures (x as int) as bv32 == x
  {
  }

  lemma LowByteFits(x: bv32)
    ensures (x & 0xFF) as int < 256
  {
  }

  lemma EntryOfLowByte(x: bv32)
    ensures Entry(LowByte(x)) == Iterate(ShiftBit, x & 0xFF, 8)
  {
  }

  lemma LookupStep(x: bv32, high: bv32)
    requires x >> 8 == high
    ensures Iterate(ShiftBit, x, 8) == Xor(Entry(LowByte(x)), high)
  {
    var lookup := Iterate(ShiftBit, x & 0xFF, 8);
    assert Entry(LowByte(x)) == lookup by { EntryOfLowByte(x); }
    assert Iterate(ShiftBit, x, 8) == Xor(lookup, high) by { EightShiftsAreOneLookup(x); }
  }

  // A value that fits the low byte leaves the rest of the register alone.
  lemma LowOnly(c: bv32, v: bv32)
    requires v <= 255
    ensures Xor(c, v) >> 8 == c >> 8
  {
  }

  lemma StepWith(c: bv32, v: bv32, x: bv32)
    requires v <= 255 && x == Xor(c, v)
    ensures Iterate(ShiftBit, x, 8) == Xor(Entry(LowByte(x)), c >> 8)
  {
    var high := c >> 8;
    assert x >> 8 == high by { LowOnly(c, v); }
    LookupStep(x, high);
  }

  lemma ByteIsLow(b: byte)
    ensures b as bv32 <= 255
  {
  }

  lemma TableStep(c: bv32, b: byte)
    ensures DivideByte(c, b) == Xor(Entry(LowByte(Xor(c, b as bv32))), c >> 8)
  {
    var v := b as bv32;
    ByteIsLow(b);
    StepWith(c, v, Xor(c, v));
  }

  lemma FoldStep<T>(step: (T, byte) -> T, c: T, data: bytes, i: nat)
    requires i < |data|
    ensures Fold(step, c, data[i..]) == Fold(step, step(c, data[i]), data[i + 1..])
  {
  }

  method TableEntry(i: bv32) returns (c: bv32)
    ensures c == Iterate(ShiftBit, i, 8)
  {
    c := i;
    for j := 0 to 8
      invariant Iterate(ShiftBit, c, 8 - j) == Iterate(ShiftBit, i, 8)
    {
      c := ShiftBit(c);
    }
  }

  method BuildTable() returns (table: array<bv32>)
    ensures fresh(table) && table.Length == 256
    ensures forall i: byte :: table[i] == Entry(i)
  {
    table := new bv32[256];
    for i := 0 to 256
      invariant forall k: byte :: k < i ==> table[k] == Entry(k)
    {
      table[i] := TableEntry(i as bv32);
    }
  }

  /** The table-driven loop refines the bit-at-a-time definition, for every byte string. */
  method TableCrc32(data: bytes) returns (crc: bv32)
    ensures crc == Crc32(data)
  {
    var table := BuildTable();
    var c: bv32 := 0xFFFF_FFFF;
    for i := 0 to |data|
      invariant forall b: byte :: table[b] == Entry(b)
      invariant Fold(DivideByte, c, data[i..]) == Fold(DivideByte, 0xFFFF_FFFF, data)
    {
      FoldStep(DivideByte, c, data, i);
      TableStep(c, data[i]);
      c := Xor(table[LowByte(Xor(c, data[i] as bv32))], c >> 8);
    }
    crc := Xor(c, 0xFFFF_FFFF);
  }

  method TableChecksum(data: bytes) returns (c: nat)
    ensures c == Checksum(data)
  {
    var crc := TableCrc32(data);
    c := crc as int;
  }
}
