/** CRC-32 run backwards: whatever follows, four bytes in front can be chosen to give any checksum. */
module CrcInverse {
  import opened Bytes
  import opened Crc

  // ---------- Undoing a division step ----------

  function UnshiftBit(d: bv32): bv32 {
    if d & 0x8000_0000 == 0 then d << 1 else ((d ^ POLYNOMIAL) << 1) | 1
  }

  lemma UndoEven(d: bv32)
    requires d & 0x8000_0000 == 0
    ensures (d << 1) & 1 == 0 && (d << 1) >> 1 == d
  {
  }

  lemma UndoOdd(x: bv32)
    requires x & 0x8000_0000 == 0
    ensures ((x << 1) | 1) & 1 == 1 && ((x << 1) | 1) >> 1 == x
  {
  }

  lemma TopBitCancels(d: bv32)
    requires d & 0x8000_0000 != 0
    ensures (d ^ POLYNOMIAL) & 0x8000_0000 == 0 && POLYNOMIAL ^ (d ^ POLYNOMIAL) == d
  {
  }

  lemma ShiftUndoes(d: bv32)
    ensures ShiftBit(UnshiftBit(d)) == d
  {
    if d & 0x8000_0000 == 0 {
      UndoEven(d);
    } else {
      TopBitCancels(d);
      UndoOdd(d ^ POLYNOMIAL);
    }
  }

  lemma {:induction false} IterateLast<T>(f: T -> T, x: T, n: nat)
    ensures Iterate(f, x, n + 1) == f(Iterate(f, x, n))
    decreases n, x
  {
    if n > 0 { IterateLast(f, f(x), n - 1); }
  }

  lemma {:induction false} IterateUndoes<T(!new)>(f: T -> T, g: T -> T, x: T, n: nat)
    requires forall y :: f(g(y)) == y
    ensures Iterate(f, Iterate(g, x, n), n) == x
    decreases n, x
  {
    if n > 0 {
      IterateLast(g, x, n - 1);
      IterateUndoes(f, g, x, n - 1);
    }
  }

  // The register from which n division steps lead to d.
  function Before(d: bv32, n: nat): bv32 {
    Iterate(UnshiftBit, d, n)
  }

  lemma BeforeLeads(d: bv32, n: nat)
    ensures Iterate(ShiftBit, Before(d, n), n) == d
  {
    forall y ensures ShiftBit(UnshiftBit(y)) == y { ShiftUndoes(y); }
    IterateUndoes(ShiftBit, UnshiftBit, d, n);
  }

  lemma XorTwice(a: bv32, b: bv32)
    ensures Xor(Xor(a, b), b) == a
  {
  }

  lemma ByteUndone(d: bv32, b: byte)
    ensures DivideByte(Xor(Before(d, 8), b as bv32), b) == d
  {
    XorTwice(Before(d, 8), b as bv32);
    BeforeLeads(d, 8);
  }

  /** For every register there is one from which some bytes lead to it. */
  lemma {:induction false} FoldUndone(data: bytes, d: bv32) returns (c: bv32)
    ensures Fold(DivideByte, c, data) == d
    decreases data
  {
    c := d;
    if data != [] {
      var c1 := FoldUndone(data[1..], d);
      ByteUndone(c1, data[0]);
      c := Xor(Before(c1, 8), data[0] as bv32);
    }
  }

  // ---------- Four bytes are one word ----------

  lemma {:induction false} IterateSplits<T>(f: T -> T, x: T, m: nat, n: nat)
    ensures Iterate(f, x, m + n) == Iterate(f, Iterate(f, x, m), n)
    decreases m, x
  {
    if m > 0 { IterateSplits(f, f(x), m - 1, n); }
  }

  // Adding v after m steps is adding u before them, if m steps take u to v.
  lemma AddBefore(x: bv32, u: bv32, v: bv32, m: nat, n: nat)
    requires Iterate(ShiftBit, u, m) == v
    ensures Iterate(ShiftBit, Xor(Iterate(ShiftBit, x, m), v), n) == Iterate(ShiftBit, Xor(x, u), m + n)
  {
    ShiftIsLinearEverywhere();
    IterateIsLinear(ShiftBit, Xor, x, u, m);
    IterateSplits(ShiftBit, Xor(x, u), m, n);
  }

  lemma MovesDown(u: bv32, v: bv32)
    requires u & 0xFF == 0 && u >> 8 == v
    ensures Iterate(ShiftBit, u, 8) == v
  {
    HighPartShifts(u);
  }

  // Two and three times eight steps.
  lemma MovesDownTwice(u: bv32, u1: bv32, v: bv32)
    requires u & 0xFF == 0 && u >> 8 == u1 && u1 & 0xFF == 0 && u1 >> 8 == v
    ensures Iterate(ShiftBit, u, 16) == v
  {
    MovesDown(u, u1);
    MovesDown(u1, v);
    IterateSplits(ShiftBit, u, 8, 8);
  }

  lemma MovesDownThrice(u: bv32, u1: bv32, u2: bv32, v: bv32)
    requires u & 0xFF == 0 && u >> 8 == u1 && u1 & 0xFF == 0 && u1 >> 8 == u2 && u2 & 0xFF == 0 && u2 >> 8 == v
    ensures Iterate(ShiftBit, u, 24) == v
  {
    MovesDown(u, u1);
    MovesDownTwice(u1, u2, v);
    IterateSplits(ShiftBit, u, 8, 16);
  }

  lemma SecondByte(w: bv32)
    ensures Iterate(ShiftBit, w & 0xFF00, 8) == (w >> 8) & 0xFF
  {
    assert (w & 0xFF00) & 0xFF == 0 && (w & 0xFF00) >> 8 == (w >> 8) & 0xFF by { SecondMoves(w); }
    MovesDown(w & 0xFF00, (w >> 8) & 0xFF);
  }

  lemma SecondMoves(w: bv32)
    ensures (w & 0xFF00) & 0xFF == 0 && (w & 0xFF00) >> 8 == (w >> 8) & 0xFF
  {
  }

  lemma ThirdByte(w: bv32)
    ensures Iterate(ShiftBit, w & 0xFF_0000, 16) == (w >> 16) & 0xFF
  {
    var u, u1, v := w & 0xFF_0000, (w >> 8) & 0xFF00, (w >> 16) & 0xFF;
    assert u & 0xFF == 0 && u >> 8 == u1 && u1 & 0xFF == 0 && u1 >> 8 == v by { ThirdMoves(w); }
    MovesDownTwice(u, u1, v);
  }

  lemma ThirdMoves(w: bv32)
    ensures (w & 0xFF_0000) & 0xFF == 0 && (w & 0xFF_0000) >> 8 == (w >> 8) & 0xFF00
    ensures ((w >> 8) & 0xFF00) & 0xFF == 0 && ((w >> 8) & 0xFF00) >> 8 == (w >> 16) & 0xFF
  {
  }

  lemma FourthByte(w: bv32)
    ensures Iterate(ShiftBit, w & 0xFF00_0000, 24) == (w >> 24) & 0xFF
  {
    var u, u1, u2, v := w & 0xFF00_0000, (w >> 8) & 0xFF_0000, (w >> 16) & 0xFF00, (w >> 24) & 0xFF;
    assert u & 0xFF == 0 && u >> 8 == u1 && u1 & 0xFF == 0 && u1 >> 8 == u2 && u2 & 0xFF == 0 && u2 >> 8 == v by {
      FourthMoves(w);
    }
    MovesDownThrice(u, u1, u2, v);
  }

  lemma FourthMoves(w: bv32)
    ensures (w & 0xFF00_0000) & 0xFF == 0 && (w & 0xFF00_0000) >> 8 == (w >> 8) & 0xFF_0000
    ensures ((w >> 8) & 0xFF_0000) & 0xFF == 0 && ((w >> 8) & 0xFF_0000) >> 8 == (w >> 16) & 0xFF00
    ensures ((w >> 16) & 0xFF00) & 0xFF == 0 && ((w >> 16) & 0xFF00) >> 8 == (w >> 24) & 0xFF
  {
  }

  lemma XorAssociates(a: bv32, b: bv32, c: bv32)
    ensures Xor(Xor(a, b), c) == Xor(a, Xor(b, c))
  {
  }

  lemma PartsMakeWord(w: bv32)
    ensures Xor(w & 0xFF, Xor(w & 0xFF00, Xor(w & 0xFF_0000, w & 0xFF00_0000))) == w
  {
  }

  lemma PartsAddUp(s: bv32, w: bv32, p0: bv32, p1: bv32, p2: bv32, p3: bv32)
    requires Xor(p0, Xor(p1, Xor(p2, p3))) == w
    ensures Xor(Xor(Xor(Xor(s, p0), p1), p2), p3) == Xor(s, w)
  {
    XorAssociates(Xor(Xor(s, p0), p1), p2, p3);
    XorAssociates(Xor(s, p0), p1, Xor(p2, p3));
    XorAssociates(s, p0, Xor(p1, Xor(p2, p3)));
  }

  function WordBytes(w: bv32): bytes {
    [LowByte(w), LowByte(w >> 8), LowByte(w >> 16), LowByte(w >> 24)]
  }

  // Four steps, through the given registers.
  lemma FoldFour<T>(step: (T, byte) -> T, b: bytes, c: T, c1: T, c2: T, c3: T, c4: T)
    requires |b| == 4 && step(c, b[0]) == c1 && step(c1, b[1]) == c2 && step(c2, b[2]) == c3 && step(c3, b[3]) == c4
    ensures Fold(step, c, b) == c4
  {
    assert b[0..] == b && b[4..] == [];
    FoldStep(step, c, b, 0);
    FoldStep(step, c1, b, 1);
    FoldStep(step, c2, b, 2);
    FoldStep(step, c3, b, 3);
  }

  // Four values that the parts of a word move down to.
  lemma PartsStep(s: bv32, p0: bv32, p1: bv32, p2: bv32, p3: bv32, v1: bv32, v2: bv32, v3: bv32)
    requires Iterate(ShiftBit, p1, 8) == v1 && Iterate(ShiftBit, p2, 16) == v2 && Iterate(ShiftBit, p3, 24) == v3
    ensures var c1 := Iterate(ShiftBit, Xor(s, p0), 8);
            var c2 := Iterate(ShiftBit, Xor(c1, v1), 8);
            var c3 := Iterate(ShiftBit, Xor(c2, v2), 8);
            Iterate(ShiftBit, Xor(c3, v3), 8) == Iterate(ShiftBit, Xor(Xor(Xor(Xor(s, p0), p1), p2), p3), 32)
  {
    AddBefore(Xor(s, p0), p1, v1, 8, 8);
    AddBefore(Xor(Xor(s, p0), p1), p2, v2, 16, 8);
    AddBefore(Xor(Xor(Xor(s, p0), p1), p2), p3, v3, 24, 8);
  }

  lemma StepIs(c: bv32, b: byte, v: bv32)
    requires b as bv32 == v
    ensures DivideByte(c, b) == Iterate(ShiftBit, Xor(c, v), 8)
  {
  }

  // The i-th byte of a word as a step.
  lemma WordByteStep(c: bv32, x: bv32)
    ensures DivideByte(c, LowByte(x)) == Iterate(ShiftBit, Xor(c, x & 0xFF), 8)
  {
    StepIs(c, LowByte(x), x & 0xFF);
  }

  lemma WordSteps(s: bv32, w: bv32, p0: bv32, v1: bv32, v2: bv32, v3: bv32)
    requires p0 == w & 0xFF && v1 == (w >> 8) & 0xFF && v2 == (w >> 16) & 0xFF && v3 == (w >> 24) & 0xFF
    ensures var c1 := Iterate(ShiftBit, Xor(s, p0), 8);
            var c2 := Iterate(ShiftBit, Xor(c1, v1), 8);
            var c3 := Iterate(ShiftBit, Xor(c2, v2), 8);
            Fold(DivideByte, s, WordBytes(w)) == Iterate(ShiftBit, Xor(c3, v3), 8)
  {
    var c1 := Iterate(ShiftBit, Xor(s, p0), 8);
    var c2 := Iterate(ShiftBit, Xor(c1, v1), 8);
    var c3 := Iterate(ShiftBit, Xor(c2, v2), 8);
    WordByteStep(s, w);
    WordByteStep(c1, w >> 8);
    WordByteStep(c2, w >> 16);
    WordByteStep(c3, w >> 24);
    FoldFour(DivideByte, WordBytes(w), s, c1, c2, c3, Iterate(ShiftBit, Xor(c3, v3), 8));
  }

  // Dividing the four bytes of a word is dividing the word.
  lemma WordStep(s: bv32, w: bv32)
    ensures Fold(DivideByte, s, WordBytes(w)) == Iterate(ShiftBit, Xor(s, w), 32)
  {
    var p0, p1, p2, p3 := w & 0xFF, w & 0xFF00, w & 0xFF_0000, w & 0xFF00_0000;
    var v1, v2, v3 := (w >> 8) & 0xFF, (w >> 16) & 0xFF, (w >> 24) & 0xFF;
    WordSteps(s, w, p0, v1, v2, v3);
    SecondByte(w);
    ThirdByte(w);
    FourthByte(w);
    PartsStep(s, p0, p1, p2, p3, v1, v2, v3);
    PartsMakeWord(w);
    PartsAddUp(s, w, p0, p1, p2, p3);
  }

  // ---------- Any checksum ----------

  lemma {:induction false} FoldConcat<T>(step: (T, byte) -> T, c: T, a: bytes, b: bytes)
    ensures Fold(step, c, a + b) == Fold(step, Fold(step, c, a), b)
    decreases a, c
  {
    if a == [] {
      assert a + b == b;
    } else {
      FoldConcat(step, step(c, a[0]), a[1..], b);
      assert (a + b)[1..] == a[1..] + b;
    }
  }

  // Four bytes take any register to any other.
  lemma FourBytesReach(s: bv32, d: bv32) returns (word: bytes)
    ensures |word| == 4 && Fold(DivideByte, s, word) == d
  {
    var from := Before(d, 32);
    var w := Xor(from, s);
    word := WordBytes(w);
    WordStep(s, w);
    XorRestores(from, s);
    BeforeLeads(d, 32);
  }

  lemma XorRestores(a: bv32, s: bv32)
    ensures Xor(s, Xor(a, s)) == a
  {
  }

  /** Four bytes in front of any others give any checksum. */
  lemma AnyChecksum(tail: bytes, target: bv32) returns (word: bytes)
    ensures |word| == 4 && Crc32(word + tail) == target
  {
    var last := Xor(target, 0xFFFF_FFFF);
    var c := FoldUndone(tail, last);
    word := FourBytesReach(0xFFFF_FFFF, c);
    FoldConcat(DivideByte, 0xFFFF_FFFF, word, tail);
    XorTwice(target, 0xFFFF_FFFF);
  }
}
