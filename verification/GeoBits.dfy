/** Interleaved geo codes: the bit arithmetic on 32- and 64-bit words. */
module GeoBits {
  import opened BitNumbers

  function Spread(v: bv32): bv64
  {
    var r0 := v as bv64;
    var r1 := (r0 | (r0 << 16)) & 0x0000FFFF0000FFFF;
    var r2 := (r1 | (r1 << 8)) & 0x00FF00FF00FF00FF;
    var r3 := (r2 | (r2 << 4)) & 0x0F0F0F0F0F0F0F0F;
    var r4 := (r3 | (r3 << 2)) & 0x3333333333333333;
    (r4 | (r4 << 1)) & 0x5555555555555555
  }

  function Interleave(x: bv32, y: bv32): bv64
  {
    Spread(x) | (Spread(y) << 1)
  }

  function Compact(v: bv64): bv32
  {
    var r0 := v & 0x5555555555555555;
    var r1 := (r0 | (r0 >> 1)) & 0x3333333333333333;
    var r2 := (r1 | (r1 >> 2)) & 0x0F0F0F0F0F0F0F0F;
    var r3 := (r2 | (r2 >> 4)) & 0x00FF00FF00FF00FF;
    var r4 := (r3 | (r3 >> 8)) & 0x0000FFFF0000FFFF;
    var r5 := (r4 | (r4 >> 16)) & 0x00000000FFFFFFFF;
    r5 as bv32
  }

  lemma CompactInterleave(x: bv32, y: bv32)
    ensures Compact(Interleave(x, y)) == x
    ensures Compact(Interleave(x, y) >> 1) == y
  {
  }

  lemma InterleaveCompact(c: bv64)
    ensures Interleave(Compact(c), Compact(c >> 1)) == c
  {
  }

  lemma ShiftedX(x: bv32, y: bv32)
    ensures Compact(Interleave(x, y) >> 2) == x >> 1
  {
  }

  lemma ShiftedY(x: bv32, y: bv32)
    ensures Compact((Interleave(x, y) >> 2) >> 1) == y >> 1
  {
  }

  lemma FromParts(w: bv64, w1: bv64, x: bv32, y: bv32)
    requires w1 == w >> 1 && Compact(w) == x && Compact(w1) == y
    ensures w == Interleave(x, y)
  {
    InterleaveCompact(w);
  }

  lemma ShiftOnce(x: bv32, y: bv32, w: bv64, x': bv32, y': bv32)
    requires w == Interleave(x, y) >> 2 && x' == x >> 1 && y' == y >> 1
    ensures w == Interleave(x', y')
  {
    ShiftedX(x, y);
    ShiftedY(x, y);
    hide Interleave, Compact;
    FromParts(w, w >> 1, x', y');
  }

  function Half32(x: bv32): bv32
  {
    x >> 1
  }

  /** A 32-bit word shifted right once, `k` times. */
  function Shr32(x: bv32, k: nat): bv32
  {
    if k == 0 then x else Shr32(Half32(x), k - 1)
  }

  lemma TwoHalves(w: bv64)
    ensures Half(Half(w)) == w >> 2
  {
  }

  lemma HalvedTwice(x: bv32, y: bv32)
    ensures Half(Half(Interleave(x, y))) == Interleave(Half32(x), Half32(y))
  {
    TwoHalves(Interleave(x, y));
    ShiftOnce(x, y, Interleave(x, y) >> 2, Half32(x), Half32(y));
    hide Interleave, Half;
  }

  lemma ShrTwoMore(w: bv64, k: nat)
    ensures Shr(w, 2 * (k + 1)) == Shr(Half(Half(w)), 2 * k)
  {
    assert Shr(w, 2 * k + 2) == Shr(Half(w), 2 * k + 1) == Shr(Half(Half(w)), 2 * k);
  }

  /** Shifting a code right by two bits a time shifts both its halves by one. */
  lemma {:induction false} ShiftMany(x: bv32, y: bv32, k: nat)
    ensures Shr(Interleave(x, y), 2 * k) == Interleave(Shr32(x, k), Shr32(y, k))
    decreases k
  {
    hide Interleave, Half, Half32;
    if k > 0 {
      HalvedTwice(x, y);
      ShrTwoMore(Interleave(x, y), k - 1);
      ShiftMany(Half32(x), Half32(y), k - 1);
    }
  }

  /** A 32-bit word is one of 64 bits. */
  function Wide(x: bv32): bv64
  {
    x as bv64
  }

  lemma WideShiftedOnce(x: bv32)
    ensures Wide(x >> 1) == Half(Wide(x))
  {
  }

  lemma WideHalf(x: bv32)
    ensures Wide(Half32(x)) == Half(Wide(x))
  {
    WideShiftedOnce(x);
    hide Wide, Half;
  }

  lemma {:induction false} WideShifted(x: bv32, k: nat)
    ensures Wide(Shr32(x, k)) == Shr(Wide(x), k)
    decreases k
  {
    if k > 0 {
      WideHalf(x);
      WideShifted(Half32(x), k - 1);
    }
  }

  /** Codes agree exactly when both halves do. */
  lemma InterleaveInjective(x: bv32, y: bv32, x': bv32, y': bv32)
    ensures Interleave(x, y) == Interleave(x', y') <==> x == x' && y == y'
  {
    CompactInterleave(x, y);
    CompactInterleave(x', y');
    hide Interleave, Compact;
  }

  /** The number a 32-bit word stands for. */
  function Number32(x: bv32): nat
  {
    Number(Wide(x), 32)
  }

  lemma BigBit()
    ensures Shr(0x1_0000_0000, 32) == 1
  {
    hide Shr;
    ShrNine(0x1_0000_0000);
    ShrTwice(0x1_0000_0000, 9, 23);
    ShrNine(0x80_0000);
    ShrTwice(0x80_0000, 9, 14);
    ShrNine(0x4000);
    ShrTwice(0x4000, 9, 5);
    ShrThree(0x20);
    ShrTwice(0x20, 3, 2);
    ShrTwo(4);
  }

  lemma ShrTwo(w: bv64)
    ensures Shr(w, 2) == w >> 2
  {
    assert Shr(w, 2) == Shr(Half(w), 1) == Shr(Half(Half(w)), 0);
  }

  lemma NarrowEnough(w: bv64)
    requires Shr(w, 32) == 0
    ensures w < 0x1_0000_0000
  {
    if AtMost(0x1_0000_0000, w) {
      ShrMonotone(0x1_0000_0000, w, 32);
      BigBit();
    }
  }

  /** The 32-bit word of a number. */
  function Word32(n: nat): bv32
  {
    WordWithin(n, 32);
    NarrowEnough(Word(n, 32));
    Word(n, 32) as bv32
  }

  lemma WideWord(n: nat)
    ensures Wide(Word32(n)) == Word(n, 32)
  {
    WordWithin(n, 32);
    NarrowEnough(Word(n, 32));
  }

  lemma Number32OfWord(n: nat)
    requires n < Pow2(32)
    ensures Number32(Word32(n)) == n
  {
    WideWord(n);
    NumberOfWord(n, 32);
  }

  lemma OnesGone()
    ensures Shr(0xFFFF_FFFF, 32) == 0
  {
    hide Shr;
    ShrNine(0xFFFF_FFFF);
    ShrTwice(0xFFFF_FFFF, 9, 23);
    ShrNine(0x7F_FFFF);
    ShrTwice(0x7F_FFFF, 9, 14);
    ShrNine(0x3FFF);
    ShrTwice(0x3FFF, 9, 5);
    ShrThree(0x1F);
    ShrTwice(0x1F, 3, 2);
    ShrTwo(3);
  }

  lemma WideFits(x: bv32)
    ensures Shr(Wide(x), 32) == 0
  {
    WideSmall(x);
    ShrMonotone(Wide(x), 0xFFFF_FFFF, 32);
    OnesGone();
  }

  lemma WideSmall(x: bv32)
    ensures AtMost(Wide(x), 0xFFFF_FFFF)
  {
  }

  lemma WideInjective(x: bv32, y: bv32)
    requires Wide(x) == Wide(y)
    ensures x == y
  {
  }

  lemma Number32Injective(x: bv32, y: bv32)
    requires Number32(x) == Number32(y)
    ensures x == y
  {
    WideFits(x);
    WideFits(y);
    NumberInjective(Wide(x), Wide(y), 32);
    WideInjective(x, y);
  }

  lemma Number32Shifted(x: bv32, k: nat)
    requires k <= 32
    ensures Number32(Shr32(x, k)) == Number32(x) / Pow2(k)
  {
    WideFits(x);
    WideShifted(x, k);
    ShrTwice(Wide(x), k, 32 - k);
    NumberShifted(Wide(x), k, 32);
    NumberPadded(Shr(Wide(x), k), 32 - k, k);
  }

  /** Number32 of the next word. */
  lemma Number32OfNext(x: bv32)
    requires x != 0xFFFF_FFFF
    ensures Number32(x + 1) == Number32(x) + 1
  {
    WideNext(x);
    WideFits(x + 1);
    NumberOfNext(Wide(x), 32);
  }

  lemma WideNext(x: bv32)
    requires x != 0xFFFF_FFFF
    ensures Wide(x + 1) == Next(Wide(x)) && Wide(x) != ALL_ONES
  {
  }

  predicate AtMost32(x: bv32, y: bv32)
  {
    x <= y
  }

  lemma LowBits(x: bv32, y: bv32)
    ensures LowBit(Interleave(x, y)) <==> LowBit(Wide(x))
    ensures LowBit(Half(Interleave(x, y))) <==> LowBit(Wide(y))
  {
  }

  /** Bit `i` of the first word is bit `2i` of the code. */
  lemma EvenBits(x: bv32, y: bv32, i: nat)
    ensures LowBit(Shr(Interleave(x, y), 2 * i)) <==> LowBit(Shr(Wide(x), i))
  {
    hide Interleave, LowBit, Half, Wide, Shr, Shr32;
    ShiftMany(x, y, i);
    WideShifted(x, i);
    LowBits(Shr32(x, i), Shr32(y, i));
  }

  /** Bit `i` of the second word is bit `2i + 1` of the code. */
  lemma OddBits(x: bv32, y: bv32, i: nat)
    ensures LowBit(Shr(Interleave(x, y), 2 * i + 1)) <==> LowBit(Shr(Wide(y), i))
  {
    hide Interleave, LowBit, Half, Wide, Shr, Shr32;
    ShiftMany(x, y, i);
    WideShifted(y, i);
    LowBits(Shr32(x, i), Shr32(y, i));
    ShrTwice(Interleave(x, y), 2 * i, 1);
    ShrOne(Shr(Interleave(x, y), 2 * i));
  }

  lemma ShrOne(w: bv64)
    ensures Shr(w, 1) == Half(w)
  {
    assert Shr(w, 1) == Shr(Half(w), 0);
  }

  function Shl32(x: bv32, k: nat): bv32
    decreases k
  {
    if k == 0 then x else Shl32(Double32(x), k - 1)
  }

  function Double32(x: bv32): bv32
  {
    x << 1
  }

  lemma DoubledX(c: bv64)
    ensures Compact(c << 2) == Double32(Compact(c))
  {
  }

  lemma TwoAppends(c: bv64)
    ensures Append(Append(c, false), false) == c << 2
  {
  }

  lemma ShlTwoMore(c: bv64, k: nat)
    ensures Shl(c, 2 * (k + 1)) == Shl(Append(Append(c, false), false), 2 * k)
  {
    assert Shl(c, 2 * k + 2) == Shl(Append(c, false), 2 * k + 1) == Shl(Append(Append(c, false), false), 2 * k);
  }

  /** Shifting a code left by two bits a time shifts its first half by one. */
  lemma {:induction false} CompactShiftedLeft(c: bv64, k: nat)
    ensures Compact(Shl(c, 2 * k)) == Shl32(Compact(c), k)
    decreases k
  {
    hide Compact, Append, Double32;
    if k > 0 {
      ShlTwoMore(c, k - 1);
      TwoAppends(c);
      DoubledX(c);
      CompactShiftedLeft(c << 2, k - 1);
    }
  }

  lemma {:induction false} Shl32Last(x: bv32, k: nat)
    ensures Shl32(x, k + 1) == Double32(Shl32(x, k))
    decreases k
  {
    if k > 0 {
      Shl32Last(Double32(x), k - 1);
    }
  }

  lemma DoubledHalf(x: bv32, h: bv32)
    requires AtMost32(h, Half32(x))
    ensures AtMost32(Double32(h), x)
  {
  }

  lemma AtMostItself(x: bv32)
    ensures AtMost32(x, x)
  {
  }

  /** Clearing the low bits does not go up. */
  lemma {:induction false} ClearedBelow(x: bv32, k: nat)
    ensures AtMost32(Shl32(Shr32(x, k), k), x)
    decreases k
  {
    hide Half32, Double32, AtMost32;
    if k == 0 {
      AtMostItself(x);
    } else {
      ClearedBelow(Half32(x), k - 1);
      Shl32Last(Shr32(x, k), k - 1);
      DoubledHalf(x, Shl32(Shr32(x, k), k - 1));
    }
  }

  lemma Number32Monotone(x: bv32, y: bv32)
    requires AtMost32(x, y)
    ensures Number32(x) <= Number32(y)
  {
    WideMonotone(x, y);
    hide Wide, AtMost, AtMost32, Number;
    WideFits(x);
    WideFits(y);
    NumberMonotone(Wide(x), Wide(y), 32);
  }

  lemma WideMonotone(x: bv32, y: bv32)
    requires AtMost32(x, y)
    ensures AtMost(Wide(x), Wide(y))
  {
  }

  /** A word whose number is below `2^31` has a clear top bit. */
  lemma TopBitClear(x: bv32)
    requires Number32(x) < Pow2(31)
    ensures Shr(Wide(x), 31) == 0 && x < 0x8000_0000
  {
    Number32Shifted(x, 31);
    SmallQuotient(Number32(x), Pow2(31));
    NumberOfZero(32);
    assert Wide(0) == 0;
    hide Number, Pow2, Wide;
    Number32Injective(Shr32(x, 31), 0);
    WideShifted(x, 31);
    BelowTop(x);
  }

  lemma BelowTop(x: bv32)
    requires Shr(Wide(x), 31) == 0
    ensures x < 0x8000_0000
  {
    if AtMost32(0x8000_0000, x) {
      HalfOfBig();
      ShrMonotone(0x8000_0000, Wide(x), 31);
      BigBit();
    }
  }

  lemma HalfOfBig()
    ensures Shr(0x8000_0000, 31) == Shr(0x1_0000_0000, 32)
  {
    assert Half(0x1_0000_0000) == 0x8000_0000;
  }

  lemma Halved(x: bv32)
    requires x < 0x8000_0000
    ensures Half32(Double32(x)) == x && !LowBit(Wide(Double32(x)))
  {
  }

  lemma Doubled32(x: bv32)
    requires Number32(x) < Pow2(31)
    ensures Number32(Double32(x)) == 2 * Number32(x)
  {
    TopBitClear(x);
    Halved(x);
    WideHalf(Double32(x));
    NumberPadded(Wide(x), 31, 1);
    hide Half32, Double32, Wide, LowBit, Half, Shr;
  }

  /** Shifting a 32-bit word left multiplies, while nothing is lost. */
  lemma {:induction false} Number32ShiftedLeft(x: bv32, k: nat)
    requires Number32(x) * Pow2(k) < Pow2(32)
    ensures Number32(Shl32(x, k)) == Number32(x) * Pow2(k)
    decreases k
  {
    hide Number32, Double32;
    if k > 0 {
      Split(Number32(x), Pow2(k - 1));
      Doubled32(x);
      Number32ShiftedLeft(Double32(x), k - 1);
    }
  }
}
