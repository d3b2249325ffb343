/** Leading and trailing zero counts (`oslabs/abstract-machine/klib/src/int64.c`). */
module CountZeros {
  import opened Bits

  // ------------------------------------------------------------------ counting zeros

  /** The mask `-(cond)` of a 32-bit word. */
  function Mask(cond: bool): nat {
    if cond then W32 - 1 else 0
  }

  /** One narrowing step of `__clzsi2`: the zeros skipped if the half selected by `mask` is empty. */
  function SkipIfZero(x: nat, mask: nat, h: nat): nat {
    if And(x, mask) == 0 then h else 0
  }

  /** `__clzsi2`; each stage is the source's "return r + clz(x)" for the width still open. */
  function ClzSI2(a: nat): nat {
    var t := SkipIfZero(a, 0xFFFF_0000, 16);
    t + Clz16(Shr(a, 16 - t))
  }

  function Clz16(x: nat): nat {
    var t := SkipIfZero(x, 0xFF00, 8);
    t + Clz8(Shr(x, 8 - t))
  }

  function Clz8(x: nat): nat {
    var t := SkipIfZero(x, 0xF0, 4);
    t + Clz4(Shr(x, 4 - t))
  }

  function Clz4(x: nat): nat {
    var t := SkipIfZero(x, 0xC, 2);
    t + Clz2(Shr(x, 2 - t))
  }

  /** The branch-free last stage, `(2 - x) & -((x & 2) == 0)`. */
  function Clz2(x: nat): nat {
    And((W32 + 2 - x % W32) % W32, Mask(And(x, 2) == 0))
  }

  /** `__ctzsi2`, staged in the same way. */
  function CtzSI2(a: nat): nat {
    var t := SkipIfZero(a, 0xFFFF, 16);
    t + Ctz16(Shr(a, t))
  }

  function Ctz16(x: nat): nat {
    var t := SkipIfZero(x, 0xFF, 8);
    t + Ctz8(Shr(x, t))
  }

  function Ctz8(x: nat): nat {
    var t := SkipIfZero(x, 0xF, 4);
    t + Ctz4(Shr(x, t))
  }

  function Ctz4(x: nat): nat {
    var t := SkipIfZero(x, 3, 2);
    t + Ctz2(And(Shr(x, t), 3))
  }

  /** The branch-free last stage, `(2 - (x >> 1)) & -((x & 1) == 0)`. */
  function Ctz2(x: nat): nat {
    And((W32 + 2 - Shr(x, 1) % W32) % W32, Mask(And(x, 1) == 0))
  }

  /** Bit `n` is the highest set bit of `x`. */
  predicate HighestBit(x: nat, n: nat) {
    Pow2(n) <= x < Pow2(n + 1)
  }

  /** Bit `n` is the lowest set bit of `x`. */
  predicate LowestBit(x: nat, n: nat) {
    Low(x, n) == 0 && Shr(x, n) % 2 == 1
  }

  /** One halving step of `ClzSI2`: keep the high half of `2h` bits, or the low half if the high one is empty. */
  lemma ClzStep(x: nat, h: nat, t: nat, y: nat)
    requires x < Pow2(2 * h)
    requires t == SkipIfZero(x, Scale(Pow2(h) - 1, h), h)
    requires y == Shr(x, h - t)
    ensures y < Pow2(h)
    ensures x == 0 <==> y == 0
    ensures x == 0 ==> t == h
    ensures forall n: nat :: HighestBit(y, n) ==> HighestBit(x, n + (h - t))
  {
    var top := Shr(x, h);
    AndField(x, h, h);
    ShrSmaller(x, h, 2 * h);
    LowSmall(top, h);
    Split(x, h);
    ScaleMono(0, top, h);
    if t == 0 {
      forall n: nat | HighestBit(y, n) ensures HighestBit(x, n + h) {
        HighestBitScaled(x, y, n, h);
      }
    }
  }

  lemma HighestBitScaled(x: nat, y: nat, n: nat, h: nat)
    requires y == Shr(x, h) && HighestBit(y, n)
    ensures HighestBit(x, n + h)
  {
    Split(x, h);
    ScaleMono(Pow2(n), y, h);
    ScaleMono(y, Pow2(n + 1), h);
    ScaleMul(Pow2(n), h);
    ScaleMul(Pow2(n + 1), h);
    Pow2Add(n, h);
    Pow2Add(n + 1, h);
  }

  lemma {:induction false} AndAllOnes(x: nat)
    requires x < W32
    ensures And(x, W32 - 1) == x
  {
    Pow2Constants();
    AndMask(x, 32);
    LowSmall(x, 32);
  }

  /** `clz` counts from the top of `w` bits. */
  ghost predicate CountsLeading(x: nat, clz: nat, w: nat) {
    && (x == 0 ==> clz == w)
    && (x > 0 ==> clz < w && HighestBit(x, w - 1 - clz))
  }

  lemma Clz2Counts(x: nat)
    requires x < 4
    ensures CountsLeading(x, Clz2(x), 2)
  {
    assert x % W32 == x;
    assert And(x, 2) == 2 * And(x / 2, 1);
    assert x >= 2 ==> And(x / 2, 1) == 1;
    if x < 2 {
      AndAllOnes(2 - x);
    }
    assert Pow2(2) == 4;
  }

  /** The masks of the halving steps. */
  lemma HalvingMasks()
    ensures Scale(Pow2(16) - 1, 16) == 0xFFFF_0000 && Scale(Pow2(8) - 1, 8) == 0xFF00
    ensures Scale(Pow2(4) - 1, 4) == 0xF0 && Scale(Pow2(2) - 1, 2) == 0xC
    ensures Pow2(16) - 1 == 0xFFFF && Pow2(8) - 1 == 0xFF && Pow2(4) - 1 == 0xF && Pow2(2) - 1 == 3
    ensures Pow2(32) == W32
  {
    Pow2Constants();
    ScaleMul(Pow2(16) - 1, 16);
    ScaleMul(Pow2(8) - 1, 8);
    ScaleMul(Pow2(4) - 1, 4);
  }

  lemma ClzStage(x: nat, h: nat, mask: nat, t: nat, y: nat, clz: nat)
    requires x < Pow2(2 * h) && mask == Scale(Pow2(h) - 1, h)
    requires t == SkipIfZero(x, mask, h) && y == Shr(x, h - t)
    requires y < Pow2(h) ==> CountsLeading(y, clz, h)
    ensures CountsLeading(x, t + clz, 2 * h)
  {
    ClzStep(x, h, t, y);
  }

  lemma Clz4Counts(x: nat)
    requires x < 16
    ensures CountsLeading(x, Clz4(x), 4)
  {
    HalvingMasks();
    var t := SkipIfZero(x, 0xC, 2);
    var y := Shr(x, 2 - t);
    if y < 4 { Clz2Counts(y); }
    ClzStage(x, 2, 0xC, t, y, Clz2(y));
  }

  lemma Clz8Counts(x: nat)
    requires x < 256
    ensures CountsLeading(x, Clz8(x), 8)
  {
    HalvingMasks();
    var t := SkipIfZero(x, 0xF0, 4);
    var y := Shr(x, 4 - t);
    if y < 16 { Clz4Counts(y); }
    ClzStage(x, 4, 0xF0, t, y, Clz4(y));
  }

  lemma Clz16Counts(x: nat)
    requires x < 0x10000
    ensures CountsLeading(x, Clz16(x), 16)
  {
    HalvingMasks();
    var t := SkipIfZero(x, 0xFF00, 8);
    var y := Shr(x, 8 - t);
    if y < 256 { Clz8Counts(y); }
    ClzStage(x, 8, 0xFF00, t, y, Clz8(y));
  }

  /** `__clzsi2` counts the leading zeros: bit `31 - r` is the highest set bit; 0 gives 32. */
  lemma ClzCounts(a: nat)
    requires a < W32
    ensures a == 0 ==> ClzSI2(a) == 32
    ensures a > 0 ==> ClzSI2(a) <= 31 && HighestBit(a, 31 - ClzSI2(a))
  {
    HalvingMasks();
    var t := SkipIfZero(a, 0xFFFF_0000, 16);
    var y := Shr(a, 16 - t);
    if y < 0x10000 { Clz16Counts(y); }
    ClzStage(a, 16, 0xFFFF_0000, t, y, Clz16(y));
  }

  lemma CtzStep(x: nat, h: nat, n: nat)
    requires Low(x, h) == 0 && LowestBit(Shr(x, h), n)
    ensures LowestBit(x, n + h)
  {
    LowSplit(x, h, n);
    ShrShr(x, h, n);
    ScaleMono(0, 0, h);
  }

  /** One halving step of `CtzSI2`: drop the low `h` bits of the low `2h` if they are all zero. */
  lemma CtzHalve(x: nat, h: nat, t: nat, y: nat)
    requires t == SkipIfZero(x, Pow2(h) - 1, h)
    requires y == Shr(x, t)
    ensures Low(x, 2 * h) != 0 ==> Low(y, h) != 0
    ensures x == 0 ==> t == h && y == 0
    ensures forall n: nat :: LowestBit(y, n) ==> LowestBit(x, n + t)
  {
    AndMask(x, h);
    LowSplit(x, h, h);
    ScaleMono(0, 0, h);
    if x == 0 {
      LowSmall(0, h);
    }
    forall n: nat | LowestBit(y, n) ensures LowestBit(x, n + t) {
      CtzStep(x, t, n);
    }
  }

  /** `ctz` is the position of the lowest set bit, if the low `w` bits hold one; 0 gives `w`. */
  ghost predicate CountsTrailing(x: nat, ctz: nat, w: nat) {
    && (x == 0 ==> ctz == w)
    && (Low(x, w) != 0 ==> ctz < w && LowestBit(x, ctz))
  }

  lemma Ctz2Counts(x: nat)
    ensures CountsTrailing(x, Ctz2(And(x, 3)), 2)
  {
    AndMask(x, 2);
    assert Pow2(2) == 4;
    var y := And(x, 3);
    assert Low(x, 2) == 2 * Low(x / 2, 1) + x % 2;
    assert Low(x / 2, 1) == x / 2 % 2;
    assert y % 2 == x % 2;
    Ctz2Value(y);
    OneBit(x);
  }

  lemma OneBit(x: nat)
    ensures Low(x, 1) == x % 2 && Shr(x, 1) == x / 2
  {
    assert Low(x / 2, 0) == 0 && Shr(x / 2, 0) == x / 2;
  }

  lemma Ctz2Value(y: nat)
    requires y < 4
    ensures Ctz2(y) == if y == 0 then 2 else if y == 2 then 1 else 0
  {
    OneBit(y);
    assert And(y, 1) == y % 2;
    if y % 2 == 0 {
      AndAllOnes(2 - y / 2);
    }
  }

  lemma CtzStage(x: nat, h: nat, t: nat, y: nat, ctz: nat)
    requires t == SkipIfZero(x, Pow2(h) - 1, h)
    requires y == Shr(x, t) && CountsTrailing(y, ctz, h)
    ensures CountsTrailing(x, t + ctz, 2 * h)
  {
    CtzHalve(x, h, t, y);
  }

  lemma Ctz4Counts(x: nat)
    ensures CountsTrailing(x, Ctz4(x), 4)
  {
    HalvingMasks();
    var t := SkipIfZero(x, 3, 2);
    Ctz2Counts(Shr(x, t));
    CtzStage(x, 2, t, Shr(x, t), Ctz2(And(Shr(x, t), 3)));
  }

  lemma Ctz8Counts(x: nat)
    ensures CountsTrailing(x, Ctz8(x), 8)
  {
    HalvingMasks();
    var t := SkipIfZero(x, 0xF, 4);
    Ctz4Counts(Shr(x, t));
    CtzStage(x, 4, t, Shr(x, t), Ctz4(Shr(x, t)));
  }

  lemma Ctz16Counts(x: nat)
    ensures CountsTrailing(x, Ctz16(x), 16)
  {
    HalvingMasks();
    var t := SkipIfZero(x, 0xFF, 8);
    Ctz8Counts(Shr(x, t));
    CtzStage(x, 8, t, Shr(x, t), Ctz8(Shr(x, t)));
  }

  lemma Ctz32Counts(x: nat)
    ensures CountsTrailing(x, CtzSI2(x), 32)
  {
    HalvingMasks();
    var t := SkipIfZero(x, 0xFFFF, 16);
    var y := Shr(x, t);
    Ctz16Counts(y);
    CtzStage(x, 16, t, y, Ctz16(y));
  }

  /** `__ctzsi2` counts the trailing zeros: bit `r` is the lowest set bit; 0 gives 32. */
  lemma CtzCounts(a: nat)
    requires a < W32
    ensures a == 0 ==> CtzSI2(a) == 32
    ensures a > 0 ==> CtzSI2(a) <= 31 && LowestBit(a, CtzSI2(a))
  {
    Ctz32Counts(a);
    LowIsSelf(a);
  }

  lemma LowIsSelf(a: nat)
    requires a < W32
    ensures Low(a, 32) == a
  {
    Pow2Constants();
    LowSmall(a, 32);
  }
}
