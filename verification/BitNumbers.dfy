/** Words as numbers: the numbers their bits stand for. */
module BitNumbers {

  predicate LowBit(w: bv64)
  {
    w & 1 == 1
  }

  function Half(w: bv64): bv64
  {
    w >> 1
  }

  function Append(w: bv64, low: bool): bv64
  {
    (w << 1) | (if low then 1 else 0)
  }

  /** Go's shift to the right: as if shifted once, `k` times. */
  function Shr(w: bv64, k: nat): bv64
  {
    if k == 0 then w else Shr(Half(w), k - 1)
  }

  /** The number that the low `bits` bits of a word stand for. */
  function Number(w: bv64, bits: nat): nat
  {
    if bits == 0 then 0 else (if LowBit(w) then 1 else 0) + 2 * Number(Half(w), bits - 1)
  }

  function Pow2(k: nat): (p: nat)
    ensures p >= 1
  {
    if k == 0 then 1 else 2 * Pow2(k - 1)
  }

  /** The word of a number that fits in `bits` bits. */
  function Word(n: nat, bits: nat): bv64
  {
    if bits == 0 then 0 else Append(Word(n / 2, bits - 1), n % 2 == 1)
  }

  predicate AtMost(w: bv64, v: bv64)
  {
    w <= v
  }

  const TOP: bv64 := 0x8000_0000_0000_0000

  lemma {:induction false} ShrMonotone(w: bv64, v: bv64, k: nat)
    requires AtMost(w, v)
    ensures AtMost(Shr(w, k), Shr(v, k))
    decreases k
  {
    if k > 0 {
      HalfMonotone(w, v);
      hide Half, AtMost;
      ShrMonotone(Half(w), Half(v), k - 1);
    }
  }

  lemma HalfMonotone(w: bv64, v: bv64)
    requires AtMost(w, v)
    ensures AtMost(Half(w), Half(v))
  {
  }

  lemma {:induction false} ShrTwice(w: bv64, a: nat, b: nat)
    ensures Shr(w, a + b) == Shr(Shr(w, a), b)
  {
    if a > 0 {
      ShrTwice(Half(w), a - 1, b);
    }
  }

  lemma {:induction false} ShrZero(k: nat)
    ensures Shr(0, k) == 0
  {
    if k > 0 {
      assert Half(0) == 0;
      ShrZero(k - 1);
    }
  }

  lemma ShrThree(w: bv64)
    ensures Shr(w, 3) == w >> 3
  {
    assert Shr(w, 3) == Shr(Half(w), 2) == Shr(Half(Half(w)), 1) == Shr(Half(Half(Half(w))), 0);
  }

  lemma ShiftNine(w: bv64)
    ensures w >> 9 == ((w >> 3) >> 3) >> 3
  {
  }

  lemma ShrNine(w: bv64)
    ensures Shr(w, 9) == w >> 9
  {
    hide Shr;
    var a := w >> 3;
    var b := a >> 3;
    ShrThree(w);
    ShrTwice(w, 3, 6);
    ShrThree(a);
    ShrTwice(a, 3, 3);
    ShrThree(b);
    ShiftNine(w);
  }

  lemma TopAlone()
    ensures Shr(TOP, 63) == 1
  {
    var a, b, c, d, e, f := TOP >> 9, TOP >> 18, TOP >> 27, TOP >> 36, TOP >> 45, TOP >> 54;
    hide Shr;
    ShrNine(TOP);
    ShrTwice(TOP, 9, 54);
    ShrNine(a);
    ShrTwice(a, 9, 45);
    ShrNine(b);
    ShrTwice(b, 9, 36);
    ShrNine(c);
    ShrTwice(c, 9, 27);
    ShrNine(d);
    ShrTwice(d, 9, 18);
    ShrNine(e);
    ShrTwice(e, 9, 9);
    ShrNine(f);
  }

  /** A word that vanishes when shifted by 63 or less has its top bit clear. */
  lemma TopClear(w: bv64, k: nat)
    requires k <= 63 && Shr(w, k) == 0
    ensures w < TOP
  {
    if AtMost(TOP, w) {
      ShrTwice(w, k, 63 - k);
      ShrZero(63 - k);
      ShrMonotone(TOP, w, 63);
      TopAlone();
    }
  }

  lemma AppendSplits(w: bv64, low: bool)
    requires w < TOP
    ensures Half(Append(w, low)) == w && LowBit(Append(w, low)) == low
  {
  }

  lemma {:induction false} WordWithin(n: nat, bits: nat)
    requires bits <= 64
    ensures Shr(Word(n, bits), bits) == 0
    decreases bits, 1
  {
    if bits > 0 {
      WordSplits(n, bits);
      WordWithin(n / 2, bits - 1);
    }
  }

  lemma WordSplits(n: nat, bits: nat)
    requires 0 < bits <= 64
    ensures Half(Word(n, bits)) == Word(n / 2, bits - 1) && (LowBit(Word(n, bits)) <==> n % 2 == 1)
    decreases bits, 0
  {
    hide Append, Half, LowBit;
    ghost var half := n / 2;
    WordWithin(half, bits - 1);
    TopClear(Word(n / 2, bits - 1), bits - 1);
    AppendSplits(Word(n / 2, bits - 1), n % 2 == 1);
  }

  lemma {:induction false} NumberOfWord(n: nat, bits: nat)
    requires bits <= 64 && n < Pow2(bits)
    ensures Number(Word(n, bits), bits) == n
  {
    if bits > 0 {
      WordSplits(n, bits);
      hide Word, Half, LowBit;
      NumberOfWord(n / 2, bits - 1);
    }
  }

  lemma {:induction false} NumberBound(w: bv64, bits: nat)
    ensures Number(w, bits) < Pow2(bits)
  {
    if bits > 0 {
      hide Half, LowBit;
      NumberBound(Half(w), bits - 1);
    }
  }

  lemma SameHalves(w: bv64, v: bv64)
    requires Half(w) == Half(v) && LowBit(w) == LowBit(v)
    ensures w == v
  {
  }

  /** Bits beyond those set add nothing. */
  lemma {:induction false} NumberPadded(w: bv64, bits: nat, more: nat)
    requires Shr(w, bits) == 0
    ensures Number(w, bits + more) == Number(w, bits)
    decreases bits
  {
    if bits == 0 {
      NumberOfZero(more);
    } else {
      NumberPadded(Half(w), bits - 1, more);
    }
  }

  lemma {:induction false} NumberOfZero(bits: nat)
    ensures Number(0, bits) == 0
  {
    if bits > 0 {
      assert Half(0) == 0 && !LowBit(0);
      NumberOfZero(bits - 1);
    }
  }

  /** A word is determined by its number. */
  lemma {:induction false} NumberInjective(w: bv64, v: bv64, bits: nat)
    requires Shr(w, bits) == 0 && Shr(v, bits) == 0 && Number(w, bits) == Number(v, bits)
    ensures w == v
  {
    if bits > 0 {
      hide Half, LowBit;
      NumberInjective(Half(w), Half(v), bits - 1);
      SameHalves(w, v);
    }
  }

  const ALL_ONES: bv64 := 0xFFFF_FFFF_FFFF_FFFF

  /** The word after this one, wrapping around. */
  function Next(w: bv64): bv64
  {
    w + 1
  }

  lemma NextParts(w: bv64)
    requires w != ALL_ONES
    ensures LowBit(w) ==> !LowBit(Next(w)) && Half(Next(w)) == Next(Half(w))
    ensures !LowBit(w) ==> LowBit(Next(w)) && Half(Next(w)) == Half(w)
    ensures Half(w) != ALL_ONES && Next(w) != 0
  {
  }

  lemma {:induction false} NumberOfNext(w: bv64, bits: nat)
    requires w != ALL_ONES && Shr(Next(w), bits) == 0
    ensures Number(Next(w), bits) == Number(w, bits) + 1
    decreases bits
  {
    hide Half, LowBit, Next;
    NextParts(w);
    if bits > 0 && LowBit(w) {
      NumberOfNext(Half(w), bits - 1);
    }
  }

  /** Shifting right divides. */
  lemma {:induction false} NumberShifted(w: bv64, k: nat, bits: nat)
    requires k <= bits
    ensures Number(Shr(w, k), bits - k) == Number(w, bits) / Pow2(k)
  {
    if k > 0 {
      hide Half, LowBit;
      NumberShifted(Half(w), k - 1, bits - 1);
      DivStep(Number(Half(w), bits - 1), if LowBit(w) then 1 else 0, Pow2(k - 1));
    }
  }

  lemma DivStep(n: nat, low: nat, p: nat)
    requires low < 2 && p >= 1
    ensures (low + 2 * n) / (2 * p) == n / p
  {
    var q, r := n / p, n % p;
    assert n == q * p + r;
    assert low + 2 * n == q * (2 * p) + (low + 2 * r) && low + 2 * r < 2 * p;
    DivUnique(low + 2 * n, 2 * p, q, low + 2 * r);
  }

  lemma DivUnique(n: nat, d: nat, q: nat, r: nat)
    requires d >= 1 && n == q * d + r && r < d
    ensures n / d == q
  {
    var q' := n / d;
    assert n == q' * d + n % d;
    assert q' < q ==> (q' + 1) * d <= q * d;
    assert q < q' ==> (q + 1) * d <= q' * d;
  }

  /** Words and their numbers are in the same order. */
  lemma {:induction false} NumberMonotone(w: bv64, v: bv64, bits: nat)
    requires AtMost(w, v) && Shr(w, bits) == 0 && Shr(v, bits) == 0
    ensures Number(w, bits) <= Number(v, bits)
    decreases bits
  {
    hide Half, AtMost, LowBit;
    if bits > 0 {
      HalfMonotone(w, v);
      NumberMonotone(Half(w), Half(v), bits - 1);
      if Number(Half(w), bits - 1) == Number(Half(v), bits - 1) {
        NumberInjective(Half(w), Half(v), bits - 1);
        LowBitDecides(w, v);
      }
    }
  }

  lemma LowBitDecides(w: bv64, v: bv64)
    requires AtMost(w, v) && Half(w) == Half(v)
    ensures LowBit(w) ==> LowBit(v)
  {
  }

  lemma OnesShifted()
    ensures Shr(ALL_ONES, 64) == 0
  {
    var a, b, c, d, e, f := ALL_ONES >> 9, ALL_ONES >> 18, ALL_ONES >> 27, ALL_ONES >> 36, ALL_ONES >> 45,
      ALL_ONES >> 54;
    hide Shr;
    ShrNine(ALL_ONES);
    ShrTwice(ALL_ONES, 9, 55);
    ShrNine(a);
    ShrTwice(a, 9, 46);
    ShrNine(b);
    ShrTwice(b, 9, 37);
    ShrNine(c);
    ShrTwice(c, 9, 28);
    ShrNine(d);
    ShrTwice(d, 9, 19);
    ShrNine(e);
    ShrTwice(e, 9, 10);
    ShrNine(f);
    ShrTwice(f, 9, 1);
    LastHalf();
  }

  lemma LastHalf()
    ensures Shr(1, 1) == 0
  {
    assert Shr(1, 1) == Shr(Half(1), 0);
  }

  /** Every word has 64 bits. */
  lemma AllGone(w: bv64)
    ensures Shr(w, 64) == 0
  {
    assert AtMost(w, ALL_ONES);
    ShrMonotone(w, ALL_ONES, 64);
    OnesShifted();
  }

  /** Go's shift to the left. */
  function Shl(w: bv64, k: nat): bv64
    decreases k
  {
    if k == 0 then w else Shl(Append(w, false), k - 1)
  }

  lemma TopClearIf(w: bv64)
    requires 2 * Number(w, 64) < Pow2(64)
    ensures w < TOP
  {
    hide Number, Shr, Half, LowBit, Pow2;
    NumberShifted(w, 63, 64);
    AllGone(w);
    ShrTwice(w, 63, 1);
    PowTop();
    SmallQuotient(Number(w, 64), Pow2(63));
    NumberOfZero(1);
    ShrZero(1);
    NumberInjective(Shr(w, 63), 0, 1);
    TopClear(w, 63);
  }

  lemma SmallQuotient(n: nat, d: nat)
    requires n < d
    ensures n / d == 0
  {
  }

  lemma PowTop()
    ensures Pow2(64) == 2 * Pow2(63)
  {
  }

  /** Shifting left multiplies, while nothing is lost. */
  lemma {:induction false} NumberShiftedLeft(w: bv64, k: nat)
    requires Number(w, 64) * Pow2(k) < Pow2(64)
    ensures Number(Shl(w, k), 64) == Number(w, 64) * Pow2(k)
    decreases k
  {
    hide Append, Number;
    if k > 0 {
      Split(Number(w, 64), Pow2(k - 1));
      Doubled(w);
      NumberShiftedLeft(Append(w, false), k - 1);
    }
  }

  lemma Split(n: nat, p: nat)
    requires p >= 1
    ensures n * (2 * p) == 2 * n * p >= 2 * n
  {
  }

  lemma Doubled(w: bv64)
    requires 2 * Number(w, 64) < Pow2(64)
    ensures Number(Append(w, false), 64) == 2 * Number(w, 64)
  {
    hide Append, Number, Shr;
    TopClearIf(w);
    NumberOfAppend(w, false, 63);
    TopShifted(w);
    NumberPadded(w, 63, 1);
  }

  lemma NumberOfAppend(w: bv64, low: bool, bits: nat)
    requires w < TOP
    ensures Number(Append(w, low), bits + 1) == (if low then 1 else 0) + 2 * Number(w, bits)
  {
    AppendSplits(w, low);
    hide Append, Half, LowBit;
  }

  lemma TopShifted(w: bv64)
    requires w < TOP
    ensures Shr(w, 63) == 0
  {
    hide Shr;
    MaxShifted();
    assert AtMost(w, 0x7FFF_FFFF_FFFF_FFFF);
    ShrMonotone(w, 0x7FFF_FFFF_FFFF_FFFF, 63);
  }

  lemma MaxShifted()
    ensures Shr(0x7FFF_FFFF_FFFF_FFFF, 63) == 0
  {
    assert Half(ALL_ONES) == 0x7FFF_FFFF_FFFF_FFFF;
    OnesShifted();
  }
}
