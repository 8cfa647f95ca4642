/** What CRC-32 detects (src/util.cpp): the checksum of data followed by its checksum is a constant, and data
    changed within 32 consecutive bits has another checksum. */
module CrcDetects {
  import opened Bytes
  import opened Crc
  import opened CrcInverse

  // ---------- The residue ----------

  // Eight steps at a time.
  lemma AllOnesSteps()
    ensures Iterate(ShiftBit, 0xFFFF_FFFF, 32) == 0xDEBB_20E3
  {
    EightSteps(ShiftBit, 0xFFFF_FFFF);
    EightSteps(ShiftBit, 0x2DFD_1072);
    EightSteps(ShiftBit, 0xBE26_ED00);
    EightSteps(ShiftBit, 0x00BE_26ED);
    FourTimesEight(ShiftBit, 0xFFFF_FFFF, 0x2DFD_1072, 0xBE26_ED00, 0x00BE_26ED);
  }

  lemma FourTimesEight<T>(f: T -> T, x: T, x1: T, x2: T, x3: T)
    requires Iterate(f, x, 8) == x1 && Iterate(f, x1, 8) == x2 && Iterate(f, x2, 8) == x3
    ensures Iterate(f, x, 32) == Iterate(f, x3, 8)
  {
    IterateSplits(f, x, 8, 24);
    IterateSplits(f, x1, 8, 16);
    IterateSplits(f, x2, 8, 8);
  }

  // The solver converts words to numbers only where little else is known about them, hence the small steps.
  lemma MaskedValue(x: bv32, y: bv32)
    ensures ((x << 8) | (y & 0xFF)) as int == 256 * ((x & 0xFF_FFFF) as int) + (y & 0xFF) as int
  {
  }

  lemma NamedValue(x: bv32, y: bv32, x': bv32, y': bv32, w': bv32)
    requires x' == x & 0xFF_FFFF && y' == y & 0xFF && w' == (x << 8) | (y & 0xFF)
    ensures w' as int == 256 * (x' as int) + y' as int
  {
    MaskedValue(x, y);
  }

  lemma SameValue(x: bv32, y: bv32, w: bv32, x': bv32, y': bv32, w': bv32)
    requires w' == w && x' == x && y' == y && w' as int == 256 * (x' as int) + y' as int
    ensures w as int == 256 * (x as int) + y as int
  {
  }

  lemma UnmaskedValue(x: bv32, y: bv32, w: bv32, x': bv32, y': bv32, w': bv32)
    requires x' == x & 0xFF_FFFF && y' == y & 0xFF && w' == (x << 8) | (y & 0xFF)
    requires w' == w && x' == x && y' == y
    ensures w as int == 256 * (x as int) + y as int
  {
    NamedValue(x, y, x', y', w');
    SameValue(x, y, w, x', y', w');
  }

  lemma MasksAreIdle(x: bv32, y: bv32)
    requires x <= 0xFF_FFFF && y <= 0xFF
    ensures x & 0xFF_FFFF == x && y & 0xFF == y && (x << 8) | (y & 0xFF) == (x << 8) | y
  {
  }

  lemma JoinedValue(x: bv32, y: bv32, w: bv32)
    requires x <= 0xFF_FFFF && y <= 0xFF && w == (x << 8) | y
    ensures w as int == 256 * (x as int) + y as int
  {
    MasksAreIdle(x, y);
    UnmaskedValue(x, y, w, x & 0xFF_FFFF, y & 0xFF, (x << 8) | (y & 0xFF));
  }

  lemma SplitWord(w: bv32)
    ensures w >> 8 <= 0xFF_FFFF && w & 0xFF <= 0xFF && w == ((w >> 8) << 8) | (w & 0xFF)
  {
  }

  lemma SplitValue(w: bv32)
    ensures w as int == 256 * ((w >> 8) as int) + (w & 0xFF) as int
  {
    var x, y := w >> 8, w & 0xFF;
    assert x <= 0xFF_FFFF && y <= 0xFF && w == (x << 8) | y by { SplitWord(w); }
    JoinedValue(x, y, w);
  }

  lemma FirstByte(v: nat, v1: nat, b: byte, n: nat)
    requires v == 256 * v1 + b
    ensures Le(v, n + 1) == [b] + Le(v1, n)
  {
    assert v % 256 == b && v / 256 == v1;
  }

  // Four bytes of a value that is split off byte by byte.
  lemma FourBytes<T(!new)>(val: T -> nat, low: T -> byte, shift: T -> T, w: T, w1: T, w2: T, w3: T)
    requires forall x :: val(x) == 256 * val(shift(x)) + low(x)
    requires w1 == shift(w) && w2 == shift(w1) && w3 == shift(w2)
    ensures Le(val(w), 4) == [low(w), low(w1), low(w2), low(w3)]
  {
    FirstByte(val(w), val(w1), low(w), 3);
    FirstByte(val(w1), val(w2), low(w1), 2);
    FirstByte(val(w2), val(w3), low(w2), 1);
    FirstByte(val(w3), val(shift(w3)), low(w3), 0);
  }

  lemma ShiftsAdd(w: bv32)
    ensures w >> 16 == (w >> 8) >> 8 && w >> 24 == (w >> 16) >> 8
  {
  }

  function ShiftByte(w: bv32): bv32 {
    w >> 8
  }

  function Value(w: bv32): nat {
    w as int
  }

  lemma ValueSplits()
    ensures forall w :: Value(w) == 256 * Value(ShiftByte(w)) + LowByte(w)
  {
    forall w ensures Value(w) == 256 * Value(ShiftByte(w)) + LowByte(w) { SplitValue(w); }
  }

  lemma WordIsLe(w: bv32)
    ensures Le(Value(w), 4) == WordBytes(w)
  {
    ValueSplits();
    ShiftsAdd(w);
    FourBytes(Value, LowByte, ShiftByte, w, w >> 8, w >> 16, w >> 24);
  }

  lemma Complement(s: bv32)
    ensures Xor(s, Xor(s, 0xFFFF_FFFF)) == 0xFFFF_FFFF
  {
  }

  /** Data followed by its checksum, least significant byte first, always has the same checksum. */
  lemma ResidueIsConstant(data: bytes)
    ensures Crc32(data + Le(Checksum(data), 4)) == 0x2144_DF1C
  {
    var s := Fold(DivideByte, 0xFFFF_FFFF, data);
    var w := Crc32(data);
    WordIsLe(w);
    FoldConcat(DivideByte, 0xFFFF_FFFF, data, WordBytes(w));
    WordStep(s, w);
    Complement(s);
    AllOnesSteps();
  }

  // ---------- Bit by bit ----------

  // The low bits of a word, in the order the division takes them.
  function LowBits(x: bv32, n: nat): (s: seq<bool>)
    ensures |s| == n
    decreases n
  {
    if n == 0 then [] else [x & 1 != 0] + LowBits(x >> 1, n - 1)
  }

  function ByteBits(b: byte): (s: seq<bool>)
    ensures |s| == 8
  {
    LowBits(b as bv32, 8)
  }

  function Spread<T>(f: byte -> seq<T>, data: bytes): (s: seq<T>)
    requires forall b :: |f(b)| == 8
    ensures |s| == 8 * |data|
  {
    if data == [] then [] else f(data[0]) + Spread(f, data[1..])
  }

  function Bits(data: bytes): (s: seq<bool>)
    ensures |s| == 8 * |data|
  {
    Spread(ByteBits, data)
  }

  function FoldBits<T>(step: (T, bool) -> T, c: T, s: seq<bool>): T
    decreases s, c
  {
    if s == [] then c else FoldBits(step, step(c, s[0]), s[1..])
  }

  function One(b: bool): bv32 {
    if b then 1 else 0
  }

  function DivideBit(c: bv32, b: bool): bv32 {
    ShiftBit(Xor(c, One(b)))
  }

  lemma {:induction false} FoldBitsConcat<T>(step: (T, bool) -> T, c: T, a: seq<bool>, b: seq<bool>)
    ensures FoldBits(step, c, a + b) == FoldBits(step, FoldBits(step, c, a), b)
    decreases a, c
  {
    if a == [] {
      assert a + b == b;
    } else {
      FoldBitsConcat(step, step(c, a[0]), a[1..], b);
      assert (a + b)[1..] == a[1..] + b;
    }
  }

  function Gather<T>(put: (bool, T) -> T, none: T, s: seq<bool>): T {
    if s == [] then none else put(s[0], Gather(put, none, s[1..]))
  }

  function PutBit(b: bool, w: bv32): bv32 {
    Xor(One(b), w << 1)
  }

  // At most 32 bits as a word, the first one lowest.
  function WordOf(s: seq<bool>): bv32 {
    Gather(PutBit, 0, s)
  }

  // Of the first k values on the way up none has its top bit set.
  predicate Stays<T>(top: T -> bool, up: T -> T, w: T, k: nat)
    decreases k
  {
    k == 0 || (!top(w) && Stays(top, up, up(w), k - 1))
  }

  lemma {:induction false} StaysSum<T(!new)>(top: T -> bool, up: T -> T, plus: (T, T) -> T, a: T, b: T, k: nat)
    requires Linear(up, plus) && forall x, y :: !top(x) && !top(y) ==> !top(plus(x, y))
    requires Stays(top, up, a, k) && Stays(top, up, b, k)
    ensures Stays(top, up, plus(a, b), k)
    decreases k
  {
    if k > 0 { StaysSum(top, up, plus, up(a), up(b), k - 1); }
  }

  predicate TopBit(w: bv32) {
    w & 0x8000_0000 != 0
  }

  function Up(w: bv32): bv32 {
    w << 1
  }

  // The top k bits are clear.
  predicate Clear(w: bv32, k: nat) {
    Stays(TopBit, Up, w, k)
  }

  lemma ClearSum(a: bv32, b: bv32, k: nat)
    requires Clear(a, k) && Clear(b, k)
    ensures Clear(Xor(a, b), k)
  {
    forall x, y ensures Up(Xor(x, y)) == Xor(Up(x), Up(y)) { SumMovesUp(x, y); }
    forall x, y | !TopBit(x) && !TopBit(y) ensures !TopBit(Xor(x, y)) { SumIsClear(x, y); }
    StaysSum(TopBit, Up, Xor, a, b, k);
  }

  lemma SumMovesUp(a: bv32, b: bv32)
    ensures (a ^ b) << 1 == (a << 1) ^ (b << 1)
  {
  }

  lemma SumIsClear(a: bv32, b: bv32)
    requires a & 0x8000_0000 == 0 && b & 0x8000_0000 == 0
    ensures Xor(a, b) & 0x8000_0000 == 0
  {
  }

  lemma {:induction false} StaysLess<T>(top: T -> bool, up: T -> T, w: T, k: nat, m: nat)
    requires Stays(top, up, w, k) && m <= k
    ensures Stays(top, up, w, m)
    decreases m
  {
    if m > 0 { StaysLess(top, up, up(w), k - 1, m - 1); }
  }

  lemma {:induction false} ZeroIsClear(k: nat)
    ensures Clear(0, k)
  {
    if k > 0 { ZeroIsClear(k - 1); }
  }

  lemma StaysFour<T>(top: T -> bool, up: T -> T, w: T, k: nat)
    requires !top(w) && !top(up(w)) && !top(up(up(w))) && !top(up(up(up(w))))
    requires Stays(top, up, up(up(up(up(w)))), k)
    ensures Stays(top, up, w, k + 4)
  {
    assert Stays(top, up, up(up(up(w))), k + 1);
    assert Stays(top, up, up(up(w)), k + 2);
    assert Stays(top, up, up(w), k + 3);
  }

  // Four clear bits more.
  lemma ClearFour(w: bv32, w': bv32, k: nat)
    requires w & 0xF000_0000 == 0 && w << 4 == w' && Clear(w', k)
    ensures Clear(w, k + 4)
  {
    FourMoves(w);
    StaysFour(TopBit, Up, w, k);
  }

  lemma FourMoves(w: bv32)
    requires w & 0xF000_0000 == 0
    ensures !TopBit(w) && !TopBit(Up(w)) && !TopBit(Up(Up(w))) && !TopBit(Up(Up(Up(w))))
    ensures Up(Up(Up(Up(w)))) == w << 4
  {
  }

  lemma UnitIsClear()
    ensures Clear(1, 31)
  {
    assert Clear(0x4000_0000, 1) && Clear(0x2000_0000, 2);
    assert Clear(0x1000_0000, 3);
    ClearFour(0x0100_0000, 0x1000_0000, 3);
    ClearFour(0x0010_0000, 0x0100_0000, 7);
    ClearFour(0x0001_0000, 0x0010_0000, 11);
    ClearFour(0x0000_1000, 0x0001_0000, 15);
    ClearFour(0x0000_0100, 0x0000_1000, 19);
    ClearFour(0x0000_0010, 0x0000_0100, 23);
    ClearFour(0x0000_0001, 0x0000_0010, 27);
  }

  lemma OneIsClear(b: bool, k: nat)
    requires k <= 31
    ensures Clear(One(b), k)
  {
    if b {
      UnitIsClear();
      StaysLess(TopBit, Up, 1, 31, k);
    } else {
      ZeroIsClear(k);
    }
  }

  lemma BitInFront(b: bool, w: bv32, k: nat)
    requires k <= 31 && Clear(w, k + 1)
    ensures Clear(PutBit(b, w), k)
  {
    OneIsClear(b, k);
    ClearSum(One(b), w << 1, k);
  }

  lemma {:induction false} GatherKeeps<T(!new)>(put: (bool, T) -> T, none: T, ok: (T, nat) -> bool, s: seq<bool>)
    requires |s| <= 32 && ok(none, 32)
    requires forall b, w, k: nat :: k <= 31 && ok(w, k + 1) ==> ok(put(b, w), k)
    ensures ok(Gather(put, none, s), 32 - |s|)
  {
    if s != [] {
      GatherKeeps(put, none, ok, s[1..]);
    }
  }

  lemma WordIsClear(s: seq<bool>)
    requires |s| <= 32
    ensures Clear(WordOf(s), 32 - |s|)
  {
    ZeroIsClear(32);
    forall b, w, k: nat | k <= 31 && Clear(w, k + 1) ensures Clear(PutBit(b, w), k) { BitInFront(b, w, k); }
    GatherKeeps(PutBit, 0, Clear, s);
  }

  lemma TopIsClear(s: seq<bool>)
    requires |s| <= 31
    ensures WordOf(s) & 0x8000_0000 == 0
  {
    WordIsClear(s);
  }

  // ---------- Up to 32 bits are one word ----------

  lemma UpIsUndone(w: bv32)
    requires w & 0x8000_0000 == 0
    ensures ShiftBit(w << 1) == w
  {
    UndoEven(w);
  }

  // A linear step on three summands, the last of which it takes to w.
  lemma StepOfSum<T(!new)>(f: T -> T, plus: (T, T) -> T, a: T, b: T, u: T, w: T, x: T)
    requires Linear(f, plus) && x == plus(plus(a, b), u) && f(u) == w
    ensures f(x) == plus(f(plus(a, b)), w)
  {
    assert f(plus(plus(a, b), u)) == plus(f(plus(a, b)), f(u));
  }

  // Dividing by a bit in front of a word.
  lemma BitStep(c: bv32, one: bv32, w1: bv32, x: bv32)
    requires w1 & 0x8000_0000 == 0 && x == Xor(c, Xor(one, w1 << 1))
    ensures ShiftBit(x) == Xor(ShiftBit(Xor(c, one)), w1)
  {
    var u := w1 << 1;
    assert x == Xor(Xor(c, one), u) by { XorAssociates(c, one, u); }
    assert ShiftBit(u) == w1 by { UpIsUndone(w1); }
    ShiftIsLinearEverywhere();
    StepOfSum(ShiftBit, Xor, c, one, u, w1, x);
  }

  lemma FoldBitsCons<T>(f: T -> T, step: (T, bool) -> T, c: T, s: seq<bool>, c1: T, x: T, x1: T)
    requires s != [] && step(c, s[0]) == c1 && f(x) == x1
    requires FoldBits(step, c1, s[1..]) == Iterate(f, x1, |s| - 1)
    ensures FoldBits(step, c, s) == Iterate(f, x, |s|)
  {
  }

  lemma {:induction false} BitsAreWord(c: bv32, s: seq<bool>)
    requires |s| <= 32
    ensures FoldBits(DivideBit, c, s) == Iterate(ShiftBit, Xor(c, WordOf(s)), |s|)
    decreases s
  {
    if s == [] {
      XorZero(c);
    } else {
      var c1, w1 := DivideBit(c, s[0]), WordOf(s[1..]);
      var x := Xor(c, WordOf(s));
      assert w1 & 0x8000_0000 == 0 by { TopIsClear(s[1..]); }
      assert ShiftBit(x) == Xor(c1, w1) by { BitStep(c, One(s[0]), w1, x); }
      BitsAreWord(c1, s[1..]);
      FoldBitsCons(ShiftBit, DivideBit, c, s, c1, x, Xor(c1, w1));
    }
  }

  lemma XorZero(c: bv32)
    ensures Xor(c, 0) == c
  {
  }

  lemma {:induction false} NoBitsNoWord(s: seq<bool>)
    requires |s| <= 32 && WordOf(s) == 0
    ensures forall i :: 0 <= i < |s| ==> !s[i]
  {
    if s != [] {
      TopIsClear(s[1..]);
      ZeroParts(s[0], WordOf(s[1..]));
      NoBitsNoWord(s[1..]);
    }
  }

  lemma ZeroParts(b: bool, w1: bv32)
    requires w1 & 0x8000_0000 == 0 && Xor(One(b), w1 << 1) == 0
    ensures !b && w1 == 0
  {
  }

  // ---------- Bytes are eight bits ----------

  // The word has no bits but its n lowest.
  predicate Narrow(x: bv32, n: nat)
    decreases n
  {
    if n == 0 then x == 0 else Narrow(x >> 1, n - 1)
  }

  lemma ByteIsNarrow(x: bv32)
    requires x <= 255
    ensures Narrow(x, 8)
  {
    var x2 := (x >> 1) >> 1;
    var x4 := (x2 >> 1) >> 1;
    var x6 := (x4 >> 1) >> 1;
    assert (x6 >> 1) >> 1 == 0 by { EightMoves(x); }
    assert Narrow(x6, 2);
    assert Narrow(x4, 4);
    assert Narrow(x2, 6);
  }

  lemma EightMoves(x: bv32)
    requires x <= 255
    ensures (((((((x >> 1) >> 1) >> 1) >> 1) >> 1) >> 1) >> 1) >> 1 == 0
  {
  }

  lemma {:induction false} LowBitsAreWord(x: bv32, n: nat)
    requires Narrow(x, n)
    ensures WordOf(LowBits(x, n)) == x
    decreases n
  {
    if n > 0 {
      LowBitsAreWord(x >> 1, n - 1);
      assert LowBits(x, n)[1..] == LowBits(x >> 1, n - 1);
      LowestBit(x);
    }
  }

  lemma LowestBit(x: bv32)
    ensures Xor(One(x & 1 != 0), (x >> 1) << 1) == x
  {
  }

  lemma BitsDivideByte(c: bv32, b: byte)
    ensures FoldBits(DivideBit, c, ByteBits(b)) == DivideByte(c, b)
  {
    ByteIsLow(b);
    ByteIsNarrow(b as bv32);
    LowBitsAreWord(b as bv32, 8);
    BitsAreWord(c, ByteBits(b));
  }

  lemma {:induction false} FoldIsBits(c: bv32, data: bytes)
    ensures Fold(DivideByte, c, data) == FoldBits(DivideBit, c, Bits(data))
    decreases data
  {
    if data != [] {
      FoldBitsConcat(DivideBit, c, ByteBits(data[0]), Bits(data[1..]));
      BitsDivideByte(c, data[0]);
      FoldIsBits(DivideByte(c, data[0]), data[1..]);
    }
  }

  // ---------- Changed bits ----------

  ghost function Changes(a: seq<bool>, b: seq<bool>): (s: seq<bool>)
    requires |a| == |b|
    ensures |s| == |a|
  {
    seq(|a|, i requires 0 <= i < |a| => a[i] != b[i])
  }

  lemma ChangedStep<T(!new)>(f: T -> T, plus: (T, T) -> T, c: T, d: T, a: T, b: T, z: T)
    requires Linear(f, plus) && z == plus(plus(c, a), plus(d, b))
    ensures plus(f(plus(c, a)), f(plus(d, b))) == f(z)
  {
  }

  lemma ChangedBit(c: bv32, d: bv32, a: bool, b: bool)
    ensures Xor(DivideBit(c, a), DivideBit(d, b)) == DivideBit(Xor(c, d), a != b)
  {
    var x, y, e := One(a), One(b), One(a != b);
    assert e == Xor(x, y) by { OneOfChange(a, b); }
    XorAssociates(c, d, e);
    XorAssociates(d, x, y);
    XorCommutes(d, x);
    XorAssociates(x, d, y);
    XorAssociates(c, x, Xor(d, y));
    ShiftIsLinearEverywhere();
    ChangedStep(ShiftBit, Xor, c, d, x, y, Xor(Xor(c, d), e));
  }

  lemma OneOfChange(a: bool, b: bool)
    ensures One(a != b) == Xor(One(a), One(b))
  {
  }

  lemma {:induction false} ChangesFold(c: bv32, d: bv32, a: seq<bool>, b: seq<bool>)
    requires |a| == |b|
    ensures Xor(FoldBits(DivideBit, c, a), FoldBits(DivideBit, d, b)) == FoldBits(DivideBit, Xor(c, d), Changes(a, b))
    decreases a
  {
    if a != [] {
      ChangedBit(c, d, a[0], b[0]);
      ChangesFold(DivideBit(c, a[0]), DivideBit(d, b[0]), a[1..], b[1..]);
      assert Changes(a, b)[1..] == Changes(a[1..], b[1..]);
    }
  }

  ghost predicate Unset(s: seq<bool>) {
    forall i :: 0 <= i < |s| ==> !s[i]
  }

  lemma {:induction false} UnsetFold(c: bv32, s: seq<bool>)
    requires Unset(s)
    ensures FoldBits(DivideBit, c, s) == Iterate(ShiftBit, c, |s|)
    decreases s
  {
    if s != [] {
      XorZero(c);
      UnsetFold(ShiftBit(c), s[1..]);
    }
  }

  lemma ShiftKeepsSet(c: bv32)
    requires c != 0
    ensures ShiftBit(c) != 0
  {
    if c & 1 == 1 { OddStaysSet(c); } else { EvenStaysSet(c); }
  }

  lemma OddStaysSet(c: bv32)
    ensures POLYNOMIAL ^ (c >> 1) != 0
  {
  }

  lemma EvenStaysSet(c: bv32)
    requires c != 0 && c & 1 != 1
    ensures c >> 1 != 0
  {
  }

  lemma {:induction false} StepsKeep<T(!new)>(f: T -> T, zero: T, c: T, n: nat)
    requires forall x :: x != zero ==> f(x) != zero
    requires c != zero
    ensures Iterate(f, c, n) != zero
    decreases n, c
  {
    if n > 0 { StepsKeep(f, zero, f(c), n - 1); }
  }

  lemma StepsKeepSet(c: bv32, n: nat)
    requires c != 0
    ensures Iterate(ShiftBit, c, n) != 0
  {
    forall x: bv32 | x != 0 ensures ShiftBit(x) != 0 { ShiftKeepsSet(x); }
    StepsKeep(ShiftBit, 0, c, n);
  }

  lemma {:induction false} ZeroStays(n: nat)
    ensures Iterate(ShiftBit, 0, n) == 0
  {
    if n > 0 { ZeroStays(n - 1); }
  }

  // ---------- Bursts ----------

  /** The two differ, and all bits in which they do lie within 32 consecutive ones from p on. */
  ghost predicate Burst(a: bytes, b: bytes, p: nat) {
    && |a| == |b| && a != b
    && forall i :: 0 <= i < 8 * |a| && Bits(a)[i] != Bits(b)[i] ==> p <= i < p + 32
  }

  lemma SameByte(a: byte, b: byte)
    requires ByteBits(a) == ByteBits(b)
    ensures a == b
  {
    ByteIsLow(a);
    ByteIsLow(b);
    ByteIsNarrow(a as bv32);
    ByteIsNarrow(b as bv32);
    LowBitsAreWord(a as bv32, 8);
    LowBitsAreWord(b as bv32, 8);
    SameNumber(a, b);
  }

  lemma SameNumber(a: byte, b: byte)
    requires a as bv32 == b as bv32
    ensures a == b
  {
    var x := WordOfByte(a);
    var y := WordOfByte(b);
  }

  lemma WordOfByte(a: byte) returns (x: bv32)
    ensures a as bv32 == x && x as int == a
  {
    ByteRoundTrip(a);
    x := Widened(a as bv8);
    WordRoundTrip(x);
  }

  lemma Widened(y: bv8) returns (x: bv32)
    ensures x as int == y as int
  {
    x := y as bv32;
  }

  // Different bytes have different bits.
  lemma {:induction false} BitsDiffer(a: bytes, b: bytes)
    requires |a| == |b| && Bits(a) == Bits(b)
    ensures a == b
  {
    if a != [] {
      assert Bits(a)[..8] == ByteBits(a[0]) && Bits(b)[..8] == ByteBits(b[0]);
      assert Bits(a)[8..] == Bits(a[1..]) && Bits(b)[8..] == Bits(b[1..]);
      SameByte(a[0], b[0]);
      BitsDiffer(a[1..], b[1..]);
      assert a == [a[0]] + a[1..] && b == [b[0]] + b[1..];
    }
  }

  // A register that starts clear is set behind at most 32 bits some of which are set.
  lemma WindowIsSeen(w: seq<bool>)
    requires |w| <= 32 && !Unset(w)
    ensures FoldBits(DivideBit, 0, w) != 0
  {
    BitsAreWord(0, w);
    if WordOf(w) == 0 { NoBitsNoWord(w); }
    XorZeroLeft(WordOf(w));
    StepsKeepSet(WordOf(w), |w|);
  }

  lemma XorZeroLeft(c: bv32)
    ensures Xor(0, c) == c
  {
  }

  lemma WindowFolds(front: seq<bool>, w: seq<bool>, back: seq<bool>)
    requires Unset(front) && Unset(back) && |w| <= 32 && !Unset(w)
    ensures FoldBits(DivideBit, 0, front + w + back) != 0
  {
    var d := FoldBits(DivideBit, 0, w);
    FoldBitsConcat(DivideBit, 0, front + w, back);
    FoldBitsConcat(DivideBit, 0, front, w);
    UnsetFold(0, front);
    ZeroStays(|front|);
    WindowIsSeen(w);
    UnsetFold(d, back);
    StepsKeepSet(d, |back|);
  }

  lemma NothingChanged(a: seq<bool>, b: seq<bool>)
    requires |a| == |b| && Unset(Changes(a, b))
    ensures a == b
  {
    assert forall i :: 0 <= i < |a| ==> Changes(a, b)[i] == (a[i] != b[i]);
  }

  ghost predicate Within(s: seq<bool>, from: nat, to: nat) {
    from <= to <= |s| && forall i :: 0 <= i < |s| && s[i] ==> from <= i < to
  }

  lemma WindowOf(s: seq<bool>, from: nat, to: nat)
    requires Within(s, from, to) && !Unset(s)
    ensures Unset(s[..from]) && Unset(s[to..]) && !Unset(s[from..to])
    ensures s == s[..from] + s[from..to] + s[to..]
  {
    var i :| 0 <= i < |s| && s[i];
    assert s[from..to][i - from];
  }

  lemma BurstFolds(s: seq<bool>, p: nat)
    requires !Unset(s) && forall i :: 0 <= i < |s| && s[i] ==> p <= i < p + 32
    ensures FoldBits(DivideBit, 0, s) != 0
  {
    var from := if p < |s| then p else |s|;
    var to := if p + 32 < |s| then p + 32 else |s|;
    WindowOf(s, from, to);
    WindowFolds(s[..from], s[from..to], s[to..]);
  }

  // What the byte at k spreads to.
  lemma {:induction false} SpreadAt<T>(f: byte -> seq<T>, data: bytes, k: nat, j: nat)
    requires k < |data| && j < 8 && forall b :: |f(b)| == 8
    ensures Spread(f, data)[8 * k + j] == f(data[k])[j]
    decreases data
  {
    if k > 0 { SpreadAt(f, data[1..], k - 1, j); }
  }

  // Positions at which two spread strings differ come from different bytes.
  lemma SpreadDiffers<T>(f: byte -> seq<T>, a: bytes, b: bytes, i: nat)
    requires |a| == |b| && i < 8 * |a| && forall b :: |f(b)| == 8
    requires Spread(f, a)[i] != Spread(f, b)[i]
    ensures a[i / 8] != b[i / 8]
  {
    SpreadAt(f, a, i / 8, i % 8);
    SpreadAt(f, b, i / 8, i % 8);
  }

  /** In particular four consecutive bytes may change. */
  lemma BytesAreBurst(a: bytes, b: bytes, k: nat)
    requires |a| == |b| && a != b && forall i :: 0 <= i < |a| && a[i] != b[i] ==> k <= i < k + 4
    ensures Burst(a, b, 8 * k)
  {
    forall i | 0 <= i < 8 * |a| && Bits(a)[i] != Bits(b)[i] ensures 8 * k <= i < 8 * k + 32 {
      SpreadDiffers(ByteBits, a, b, i);
    }
  }

  /** A change within 32 consecutive bits changes the checksum. */
  lemma BurstIsDetected(a: bytes, b: bytes, p: nat)
    requires Burst(a, b, p)
    ensures Checksum(a) != Checksum(b)
  {
    var s := Changes(Bits(a), Bits(b));
    assert !Unset(s) by {
      if Unset(s) {
        NothingChanged(Bits(a), Bits(b));
        BitsDiffer(a, b);
      }
    }
    BurstFolds(s, p);
    RegistersDiffer(a, b, s);
  }

  lemma RegistersDiffer(a: bytes, b: bytes, s: seq<bool>)
    requires |a| == |b| && s == Changes(Bits(a), Bits(b)) && FoldBits(DivideBit, 0, s) != 0
    ensures Checksum(a) != Checksum(b)
  {
    var x, y := Fold(DivideByte, 0xFFFF_FFFF, a), Fold(DivideByte, 0xFFFF_FFFF, b);
    FoldIsBits(0xFFFF_FFFF, a);
    FoldIsBits(0xFFFF_FFFF, b);
    ChangesFold(0xFFFF_FFFF, 0xFFFF_FFFF, Bits(a), Bits(b));
    XorSelf(0xFFFF_FFFF);
    DifferentChecksums(x, y);
  }

  lemma XorSelf(c: bv32)
    ensures Xor(c, c) == 0
  {
  }

  lemma DifferentChecksums(x: bv32, y: bv32)
    requires Xor(x, y) != 0
    ensures Value(Xor(x, 0xFFFF_FFFF)) != Value(Xor(y, 0xFFFF_FFFF))
  {
    var x', y' := Xor(x, 0xFFFF_FFFF), Xor(y, 0xFFFF_FFFF);
    assert x' != y' by { XorApart(x, y); }
    WordRoundTrip(x');
    WordRoundTrip(y');
  }

  lemma XorApart(x: bv32, y: bv32)
    requires Xor(x, y) != 0
    ensures Xor(x, 0xFFFF_FFFF) != Xor(y, 0xFFFF_FFFF)
  {
  }
}
