/** Bytes, little-endian integers (`append_le` and `read_le`, include/vaultkv/util.h) and the
    byte order of keys. */
module Bytes {
  type byte = x: int | 0 <= x < 256
  type bytes = seq<byte>

  function Pow256(n: nat): (p: nat)
    ensures p > 0
  {
    if n == 0 then 1 else 256 * Pow256(n - 1)
  }

  const UINT16_SIZE: nat := 0x1_0000
  const UINT32_SIZE: nat := 0x1_0000_0000
  const UINT64_SIZE: nat := 0x1_0000_0000_0000_0000

  lemma WordSizes()
    ensures Pow256(1) == 0x100 && Pow256(2) == UINT16_SIZE && Pow256(4) == UINT32_SIZE && Pow256(8) == UINT64_SIZE
  {
  }

  // The n low bytes of v, least significant first.
  function Le(v: nat, n: nat): (s: bytes)
    ensures |s| == n
  {
    if n == 0 then [] else [v % 256] + Le(v / 256, n - 1)
  }

  function LeValue(s: bytes): nat {
    if s == [] then 0 else s[0] + 256 * LeValue(s[1..])
  }

  // Reading back gives the value truncated to the word: exactly the value if it fits.
  lemma {:induction false} LeRoundTrip(v: nat, n: nat)
    ensures LeValue(Le(v, n)) == v % Pow256(n)
    ensures v < Pow256(n) ==> LeValue(Le(v, n)) == v
  {
    if n > 0 {
      LeRoundTrip(v / 256, n - 1);
      assert Le(v, n)[1..] == Le(v / 256, n - 1);
      ModSplit(v, Pow256(n - 1));
    } else {
      assert v % 1 == 0;
    }
  }

  lemma ModSplit(v: nat, p: nat)
    requires p > 0
    ensures v % (256 * p) == v % 256 + 256 * ((v / 256) % p)
  {
    var q, r := v / 256, v % 256;
    var q1, r1 := q / p, q % p;
    assert v == 256 * q + r && q == p * q1 + r1;
    assert v == (256 * p) * q1 + (256 * r1 + r);
    RemainderIs(v, 256 * p, q1, 256 * r1 + r);
  }

  lemma RemainderIs(v: nat, d: nat, q: nat, r: nat)
    requires v == d * q + r && r < d
    ensures v % d == r && v / d == q
  {
    var q', r' := v / d, v % d;
    assert v == d * q' + r' && 0 <= r' < d;
    Distribute(d, q, q');
    if q > q' { AtLeastOne(d, q - q'); }
    if q < q' { AtLeastOne(d, q' - q); Distribute(d, q', q); }
  }

  lemma Distribute(d: int, a: int, b: int)
    ensures d * (a - b) == d * a - d * b
  {
  }

  lemma AtLeastOne(d: nat, n: nat)
    requires n >= 1
    ensures d * n >= d
  {
  }

  // A value that fits a word of two, four or eight bytes is read back.
  lemma Words()
    ensures forall v :: 0 <= v < UINT16_SIZE ==> LeValue(Le(v, 2)) == v
    ensures forall v :: 0 <= v < UINT32_SIZE ==> LeValue(Le(v, 4)) == v
    ensures forall v :: 0 <= v < UINT64_SIZE ==> LeValue(Le(v, 8)) == v
  {
    WordSizes();
    forall v, n | 0 <= v && n in {2, 4, 8} ensures v < Pow256(n) ==> LeValue(Le(v, n)) == v {
      LeRoundTrip(v, n);
    }
  }

  // Every byte string is the encoding of its own value.
  lemma {:induction false} LeUnique(s: bytes)
    ensures LeValue(s) < Pow256(|s|)
    ensures Le(LeValue(s), |s|) == s
  {
    if s != [] {
      LeUnique(s[1..]);
      var v := LeValue(s);
      assert v % 256 == s[0] && v / 256 == LeValue(s[1..]);
    }
  }

  /** The i-th byte is the i-th digit to base 256. */
  lemma {:induction false} LeByte(v: nat, n: nat, i: nat)
    requires i < n
    ensures Le(v, n)[i] == (v / Pow256(i)) % 256
  {
    if i > 0 {
      LeByte(v / 256, n - 1, i - 1);
      DivideTwice(v, Pow256(i - 1));
    }
  }

  lemma DivideTwice(v: nat, p: nat)
    requires p > 0
    ensures v / 256 / p == v / (256 * p)
  {
    var q, r := v / 256, v % 256;
    var q1, r1 := q / p, q % p;
    assert v == 256 * q + r && q == p * q1 + r1;
    assert v == (256 * p) * q1 + (256 * r1 + r);
    RemainderIs(v, 256 * p, q1, 256 * r1 + r);
  }

  // ---------- Slices ----------

  // The first piece of a concatenation, and what is left behind it.
  lemma Peel(a: bytes, b: bytes, tail: bytes)
    ensures ((a + b) + tail)[..|a|] == a && ((a + b) + tail)[|a|..] == b + tail
  {
  }

  lemma TakeSnoc<T>(s: seq<T>, i: nat)
    requires i < |s|
    ensures s[..i + 1] == s[..i] + [s[i]]
  {
  }

  lemma Associate<T>(a: seq<T>, b: seq<T>, c: seq<T>)
    ensures a + (b + c) == (a + b) + c
  {
  }

  // ---------- The loops of append_le and read_le ----------

  method AppendLe(out: bytes, value: nat, width: nat) returns (r: bytes)
    ensures r == out + Le(value, width)
  {
    r := out;
    var rest := value;
    for i := 0 to width
      invariant r + Le(rest, width - i) == out + Le(value, width)
    {
      assert Le(rest, width - i) == [rest % 256] + Le(rest / 256, width - i - 1);
      r := r + [rest % 256];
      rest := rest / 256;
    }
  }

  method WriteLe(value: nat, width: nat) returns (r: bytes)
    ensures r == Le(value, width)
  {
    r := AppendLe([], value, width);
    assert r == Le(value, width);
  }

  method ReadLe(s: bytes, offset: nat, width: nat) returns (v: nat)
    requires offset + width <= |s|
    ensures v == LeValue(s[offset..offset + width])
  {
    v := 0;
    var unit: nat := 1;
    for i := 0 to width
      invariant unit == Pow256(i)
      invariant v == LeValue(s[offset..offset + i])
    {
      LeValueSnoc(s[offset..offset + i], s[offset + i]);
      assert s[offset..offset + i + 1] == s[offset..offset + i] + [s[offset + i]];
      v := v + s[offset + i] * unit;
      unit := 256 * unit;
    }
  }

  lemma {:induction false} LeValueSnoc(s: bytes, b: byte)
    ensures LeValue(s + [b]) == LeValue(s) + b * Pow256(|s|)
  {
    if s == [] {
      assert LeValue([b]) == b + 256 * LeValue([b][1..]);
    } else {
      LeValueSnoc(s[1..], b);
      assert (s + [b])[1..] == s[1..] + [b];
      assert 256 * (b * Pow256(|s| - 1)) == b * Pow256(|s|);
    }
  }

  // ---------- Byte order ----------

  predicate Less(a: bytes, b: bytes) {
    b != [] && (a == [] || a[0] < b[0] || (a[0] == b[0] && Less(a[1..], b[1..])))
  }

  // Up to position i the two agree, and there the first one ends or has the smaller byte.
  predicate Precedes(a: bytes, b: bytes, i: nat) {
    i <= |a| && i < |b| && a[..i] == b[..i] && (i == |a| || a[i] < b[i])
  }

  /** Strings are compared at the first byte in which they differ, as numbers from 0 to 255; a proper prefix
      comes first. */
  lemma {:induction false} LessByPosition(a: bytes, b: bytes)
    ensures Less(a, b) <==> exists i: nat :: Precedes(a, b, i)
  {
    if b != [] && a != [] && a[0] == b[0] {
      LessByPosition(a[1..], b[1..]);
      if Less(a, b) {
        var i: nat :| Precedes(a[1..], b[1..], i);
        assert Precedes(a, b, i + 1) by { PrecedesCons(a, b, i); }
      }
      if i: nat :| Precedes(a, b, i) {
        assert i > 0;
        PrecedesCons(a, b, i - 1);
      }
    } else if Less(a, b) {
      assert Precedes(a, b, 0);
    }
  }

  lemma PrecedesCons(a: bytes, b: bytes, i: nat)
    requires a != [] && b != [] && a[0] == b[0]
    ensures Precedes(a, b, i + 1) <==> Precedes(a[1..], b[1..], i)
  {
    if i < |a| && i + 1 < |b| {
      assert a[..i + 1] == [a[0]] + a[1..][..i] && b[..i + 1] == [b[0]] + b[1..][..i];
    }
  }

  lemma {:induction false} LessIrreflexive(a: bytes)
    ensures !Less(a, a)
  {
    if a != [] { LessIrreflexive(a[1..]); }
  }

  lemma {:induction false} LessTransitive(a: bytes, b: bytes, c: bytes)
    requires Less(a, b) && Less(b, c)
    ensures Less(a, c)
  {
    if a != [] && a[0] == b[0] == c[0] { LessTransitive(a[1..], b[1..], c[1..]); }
  }

  lemma {:induction false} LessTotal(a: bytes, b: bytes)
    ensures a == b || Less(a, b) || Less(b, a)
  {
    if a != [] && b != [] && a[0] == b[0] {
      LessTotal(a[1..], b[1..]);
      assert a == [a[0]] + a[1..] && b == [b[0]] + b[1..];
    }
  }

  lemma LessAsymmetric(a: bytes, b: bytes)
    requires Less(a, b)
    ensures !Less(b, a) && a != b
  {
  }

  // `compare(0, prefix.size(), prefix) == 0`
  predicate HasPrefix(k: bytes, prefix: bytes) {
    |prefix| <= |k| && k[..|prefix|] == prefix
  }

  // No key with the prefix is below the prefix.
  lemma {:induction false} PrefixIsLeast(k: bytes, prefix: bytes)
    requires HasPrefix(k, prefix)
    ensures !Less(k, prefix)
  {
    if prefix != [] {
      assert k[..|prefix|][1..] == k[1..][..|prefix| - 1];
      PrefixIsLeast(k[1..], prefix[1..]);
    }
  }

  // The keys with a prefix are adjacent: past one that lacks it, all lack it.
  lemma {:induction false} PrefixIsContiguous(a: bytes, b: bytes, prefix: bytes)
    requires !Less(a, prefix) && !HasPrefix(a, prefix) && Less(a, b)
    ensures !HasPrefix(b, prefix)
  {
    if HasPrefix(b, prefix) {
      assert b[0] == b[..|prefix|][0] == prefix[0];
      assert a[0] == b[0] by {
        assert a != [];
      }
      assert b[..|prefix|][1..] == b[1..][..|prefix| - 1];
      assert |prefix| <= |a| ==> a[..|prefix|] == [a[0]] + a[1..][..|prefix| - 1];
      PrefixIsContiguous(a[1..], b[1..], prefix[1..]);
    }
  }

  // ---------- Bytes as bit vectors ----------

  lemma BitsRoundTrip(x: bv8)
    ensures (x as int) as bv8 == x
  {
  }

  lemma Successor(x: bv8)
    requires x as int < 255
    ensures (x + 1) as int == x as int + 1
  {
  }

  lemma {:induction false} BitsOfByte(a: byte) returns (x: bv8)
    ensures x as int == a
  {
    x := 0;
    if a > 0 {
      x := BitsOfByte(a - 1);
      Successor(x);
      x := x + 1;
    }
  }

  lemma ByteRoundTrip(a: byte)
    ensures (a as bv8) as int == a
  {
    var x := BitsOfByte(a);
    BitsRoundTrip(x);
  }
}
