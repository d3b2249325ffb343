/** 64-bit division on 32-bit halves (`oslabs/abstract-machine/klib/src/int64.c`).

A double word is `Join(high, low)`.  `Prepare` is the case analysis of `__udivmoddi4`, `ShiftSubtract`
its loop, and the signed forms are built on both as in the source.
 */
module Division {
  import opened Bits
  import opened CountZeros

  function Join(h: nat, l: nat): nat {
    h * W32 + l
  }

  /** `q` and `r` are the quotient and remainder of `a` by `b`. */
  predicate IsDivMod(a: nat, b: nat, q: nat, r: nat) {
    a == q * b + r && r < b
  }

  /** Either an early return of `__udivmoddi4`, or the registers with which its loop starts. */
  datatype Setup =
    | Done(q: nat, r: nat)
    | Loop(qh: nat, ql: nat, rh: nat, rl: nat, sr: nat)

  /** The registers hold `q = n << (64 - sr)` and `r = n >> sr`, and `sr` places the top bit of `n`
      one below the top bit of `d`. */
  predicate Ready(n: nat, d: nat, s: Setup)
    requires s.Loop?
  {
    && s.qh < W32 && s.ql < W32 && s.rh < W32 && s.rl < W32
    && 1 <= s.sr <= 63
    && Join(s.rh, s.rl) == Shr(n, s.sr)
    && Join(s.qh, s.ql) == Scale(Low(n, s.sr), 64 - s.sr)
    && Shr(n, s.sr) < d
    && (d < W63 || (s.sr == 1 && n >= W63))
  }

  // ------------------------------------------------------------------ halves

  lemma WordScale(h: nat)
    ensures Scale(h, 32) == h * W32
  {
    Pow2Constants();
    ScaleMul(h, 32);
  }

  lemma JoinScale(h: nat, l: nat)
    requires l < W32
    ensures Join(h, l) == Scale(h, 32) + l
    ensures Shr(Join(h, l), 32) == h && Low(Join(h, l), 32) == l
  {
    Pow2Constants();
    ScaleMul(h, 32);
    ShrScale(h, 32, l);
  }

  lemma JoinHighest(h: nat, l: nat, k: nat)
    requires l < W32 && HighestBit(h, k)
    ensures HighestBit(Join(h, l), k + 32)
  {
    JoinScale(h, l);
    HighestBitScaled(Join(h, l), h, k, 32);
  }

  /** The bits that a shift by `t` moves from `h` into the word below, above those of `l`. */
  lemma MergeHalves(h: nat, l: nat, t: nat)
    requires h < W32 && l < W32 && 1 <= t <= 31
    ensures Or(Shl(h, 32 - t, 32), Shr(l, t)) == Scale(Low(h, t), 32 - t) + Shr(l, t) < W32
  {
    Pow2Constants();
    ShrSmaller(l, t, 32);
    LowScale(h, 32 - t, 32);
    OrDisjoint(Low(h, t), 32 - t, Shr(l, t));
    Split(h, t);
    LowScaleBound(Low(h, t), t, 32 - t, Shr(l, t));
  }

  lemma Regroup(hi: nat, lo: nat, x: nat, a: nat, b: nat)
    ensures Scale(Scale(hi, a) + lo, a + b) + Scale(x, a)
         == Scale(Scale(hi, a + b) + (Scale(lo, b) + x), a)
  {
    ScaleAdd(Scale(hi, a), lo, a + b);
    ScaleScale(hi, a, a + b);
    ScaleScale(hi, a + b, a);
    ScaleScale(lo, b, a);
    ScaleAdd(Scale(hi, a + b), Scale(lo, b) + x, a);
    ScaleAdd(Scale(lo, b), x, a);
  }

  /** Shifting a double word right by less than a word. */
  lemma ShiftRightSmall(nh: nat, nl: nat, sr: nat)
    requires nh < W32 && nl < W32 && 1 <= sr <= 31
    ensures Join(Shr(nh, sr), Or(Shl(nh, 32 - sr, 32), Shr(nl, sr))) == Shr(Join(nh, nl), sr)
    ensures Low(Join(nh, nl), sr) == Low(nl, sr)
    ensures Or(Shl(nh, 32 - sr, 32), Shr(nl, sr)) < W32
  {
    var mid := Or(Shl(nh, 32 - sr, 32), Shr(nl, sr));
    MergeHalves(nh, nl, sr);
    Split(nh, sr);
    Split(nl, sr);
    JoinScale(nh, nl);
    JoinScale(Shr(nh, sr), mid);
    Regroup(Shr(nh, sr), Low(nh, sr), Shr(nl, sr), sr, 32 - sr);
    ShrScale(Join(Shr(nh, sr), mid), sr, Low(nl, sr));
  }

  lemma LowScaleBound(lo: nat, a: nat, b: nat, x: nat)
    requires lo < Pow2(a) && x < Pow2(b)
    ensures Scale(lo, b) + x < Pow2(a + b)
  {
    ScaleMono(lo, Pow2(a), b);
    ScaleMul(Pow2(a), b);
    Pow2Add(a, b);
  }

  lemma SetupSmall(nh: nat, nl: nat, sr: nat)
    requires nh < W32 && nl < W32 && 1 <= sr <= 31
    ensures Shl(nl, 32 - sr, 32) < W32
    ensures Join(Shl(nl, 32 - sr, 32), 0) == Scale(Low(Join(nh, nl), sr), 64 - sr)
  {
    Pow2Constants();
    ShiftRightSmall(nh, nl, sr);
    LowScale(nl, 32 - sr, 32);
    Split(Scale(nl, 32 - sr), 32);
    ScaleScale(Low(nl, sr), 32 - sr, 32);
    ScaleMul(Shl(nl, 32 - sr, 32), 32);
  }

  lemma SetupWord(nh: nat, nl: nat)
    requires nh < W32 && nl < W32
    ensures Join(0, nh) == Shr(Join(nh, nl), 32)
    ensures Join(nl, 0) == Scale(Low(Join(nh, nl), 32), 32)
  {
    JoinScale(nh, nl);
    JoinScale(nl, 0);
  }

  lemma SetupLarge(nh: nat, nl: nat, sr: nat)
    requires nh < W32 && nl < W32 && 33 <= sr <= 63
    ensures Shl(nl, 64 - sr, 32) < W32
    ensures Or(Shl(nh, 64 - sr, 32), Shr(nl, sr - 32)) < W32
    ensures Join(Or(Shl(nh, 64 - sr, 32), Shr(nl, sr - 32)), Shl(nl, 64 - sr, 32))
         == Scale(Low(Join(nh, nl), sr), 64 - sr)
    ensures Shr(Join(nh, nl), sr) == Shr(nh, sr - 32)
  {
    var t := sr - 32;
    var n := Join(nh, nl);
    JoinScale(nh, nl);
    ShrShr(n, 32, t);
    LowSplit(n, 32, t);
    Pow2Constants();
    LowScale(nl, 32 - t, 32);
    Split(Scale(nl, 32 - t), 32);
    SetupLargeQuotient(nh, nl, t);
  }

  lemma SetupLargeQuotient(nh: nat, nl: nat, t: nat)
    requires nh < W32 && nl < W32 && 1 <= t <= 31
    ensures Or(Shl(nh, 32 - t, 32), Shr(nl, t)) < W32
    ensures Join(Or(Shl(nh, 32 - t, 32), Shr(nl, t)), Scale(Low(nl, t), 32 - t))
         == Scale(Scale(Low(nh, t), 32) + nl, 32 - t)
  {
    var mid := Or(Shl(nh, 32 - t, 32), Shr(nl, t));
    MergeHalves(nh, nl, t);
    Split(nl, t);
    WordScale(mid);
    RegroupHigh(Low(nh, t), Shr(nl, t), Low(nl, t), t, 32 - t);
  }

  lemma RegroupHigh(lo: nat, x: nat, rest: nat, a: nat, b: nat)
    ensures Scale(Scale(lo, b) + x, a + b) + Scale(rest, b)
         == Scale(Scale(lo, a + b) + (Scale(x, a) + rest), b)
  {
    ScaleAdd(Scale(lo, b), x, a + b);
    ScaleScale(lo, b, a + b);
    ScaleScale(lo, a + b, b);
    ScaleScale(x, a, b);
    ScaleAdd(Scale(lo, a + b), Scale(x, a) + rest, b);
    ScaleAdd(Scale(x, a), rest, b);
  }

  // ------------------------------------------------------------------ choosing the shift

  /** With `sr` one more than the distance of the top bits, `n >> sr` is below `d`. */
  lemma ShiftBelowDivisor(n: nat, hn: nat, d: nat, hd: nat, sr: nat)
    requires HighestBit(n, hn) && HighestBit(d, hd) && hd <= hn && sr == hn - hd + 1
    ensures Shr(n, sr) < d
  {
    ShrSmaller(n, sr, hn + 1);
  }

  lemma TopBitOf63(n: nat, hn: nat)
    requires HighestBit(n, hn) && n < W64
    ensures hn <= 63
    ensures hn == 63 <==> n >= W63
  {
    Pow2Constants();
    if hn >= 64 { Pow2Mono(64, hn); }
    if hn < 63 { Pow2Mono(hn + 1, 63); }
  }

  /** The guard of the sign trick: a divisor of 64 bits is reached with one step, from a dividend of 64 bits. */
  lemma WideDivisor(n: nat, hn: nat, d: nat, hd: nat, sr: nat)
    requires n < W64 && d < W64
    requires HighestBit(n, hn) && HighestBit(d, hd) && hd <= hn && sr == hn - hd + 1
    ensures d < W63 || (sr == 1 && n >= W63)
  {
    TopBitOf63(n, hn);
    TopBitOf63(d, hd);
  }

  lemma SmallerTopBit(n: nat, hn: nat, d: nat, hd: nat)
    requires HighestBit(n, hn) && HighestBit(d, hd) && hn < hd
    ensures n < d
  {
    Pow2Mono(hn + 1, hd);
  }

  // ------------------------------------------------------------------ powers of two as divisors

  lemma {:induction false} CtzOfPow2(k: nat, c: nat)
    requires LowestBit(Pow2(k), c)
    ensures c == k
  {
    if c < k {
      Pow2Shr(k, c);
    } else if k < c {
      Pow2Mono(k, c);
      LowSmall(Pow2(k), c);
    }
  }

  lemma {:induction false} Pow2Shr(k: nat, c: nat)
    requires c < k
    ensures Shr(Pow2(k), c) == Pow2(k - c) == 2 * Pow2(k - c - 1)
  {
    if c > 0 {
      Pow2Shr(k - 1, c - 1);
    }
  }

  lemma ShiftDivides(n: nat, k: nat)
    ensures IsDivMod(n, Pow2(k), Shr(n, k), Low(n, k))
  {
    Split(n, k);
    ScaleMul(Shr(n, k), k);
  }

  /** Dividing by a power of two in the high word. */
  lemma HighPow2(nh: nat, nl: nat, k: nat)
    requires nl < W32
    ensures IsDivMod(Join(nh, nl), Join(Pow2(k), 0), Shr(nh, k), Join(Low(nh, k), nl))
  {
    ShiftDivides(nh, k);
    MulAssoc(Shr(nh, k), Pow2(k), W32);
  }

  lemma HighWords(nh: nat, dh: nat)
    requires dh > 0
    ensures IsDivMod(Join(nh, 0), Join(dh, 0), nh / dh, Join(nh % dh, 0))
  {
    MulAssoc(nh / dh, dh, W32);
  }

  lemma NotPow2(x: nat, k: nat)
    requires !IsPow2(x) && HighestBit(x, k)
    ensures k >= 1 && x >= 3
  {
    assert Pow2(0) == 1 && Pow2(1) == 2;
    assert IsPow2(1) && IsPow2(2);
  }

  /** The shift computed from the leading zeros `cn` and `cd` of two high words. */
  lemma ShiftOfHighs(nh: nat, nl: nat, dh: nat, dl: nat, cn: nat, cd: nat)
    requires nh < W32 && nl < W32 && dh < W32 && dl < W32 && cn <= 31 && cd <= 31
    requires HighestBit(nh, 31 - cn) && HighestBit(dh, 31 - cd)
    ensures cd < cn ==> Join(nh, nl) < Join(dh, dl)
    ensures cd >= cn ==>
              var sr := cd - cn + 1;
              && Shr(Join(nh, nl), sr) < Join(dh, dl)
              && (Join(dh, dl) < W63 || (sr == 1 && Join(nh, nl) >= W63))
  {
    var hn, hd := 63 - cn, 63 - cd;
    var n, d := Join(nh, nl), Join(dh, dl);
    JoinHighest(nh, nl, 31 - cn);
    JoinHighest(dh, dl, 31 - cd);
    if hn < hd {
      SmallerTopBit(n, hn, d, hd);
    } else {
      ShiftBelowDivisor(n, hn, d, hd, hn - hd + 1);
      WideDivisor(n, hn, d, hd, hn - hd + 1);
    }
  }

  /** The shift for a divisor of one word. */
  lemma ShiftOfLow(nh: nat, nl: nat, dl: nat, cn: nat, cd: nat)
    requires nl < W32 && cn <= 31 && cd <= 31
    requires HighestBit(nh, 31 - cn) && HighestBit(dl, 31 - cd)
    ensures Shr(Join(nh, nl), 33 + cd - cn) < dl
  {
    JoinHighest(nh, nl, 31 - cn);
    ShiftBelowDivisor(Join(nh, nl), 63 - cn, dl, 31 - cd, 33 + cd - cn);
  }

  /** `q = n << (64 - sr); r = n >> sr` for `sr` below a word, on halves. */
  function LoadSmall(nh: nat, nl: nat, sr: nat): Setup
    requires 1 <= sr <= 31
  {
    Loop(Shl(nl, 32 - sr, 32), 0, Shr(nh, sr), Or(Shl(nh, 32 - sr, 32), Shr(nl, sr)), sr)
  }

  function LoadWord(nh: nat, nl: nat): Setup {
    Loop(nl, 0, 0, nh, 32)
  }

  function LoadLarge(nh: nat, nl: nat, sr: nat): Setup
    requires 33 <= sr <= 63
  {
    Loop(Or(Shl(nh, 64 - sr, 32), Shr(nl, sr - 32)), Shl(nl, 64 - sr, 32), 0, Shr(nh, sr - 32), sr)
  }

  lemma LoadSmallReady(nh: nat, nl: nat, d: nat, sr: nat)
    requires nh < W32 && nl < W32 && 1 <= sr <= 31
    requires Shr(Join(nh, nl), sr) < d
    requires d < W63 || (sr == 1 && Join(nh, nl) >= W63)
    ensures Ready(Join(nh, nl), d, LoadSmall(nh, nl, sr))
  {
    ShiftRightSmall(nh, nl, sr);
    SetupSmall(nh, nl, sr);
    ShrMono(nh, W32, sr);
    Split(nh, sr);
    ScaleMono(0, Shr(nh, sr), sr);
    ShrBelow(nh, sr);
  }

  lemma {:induction false} ShrBelow(x: nat, k: nat)
    ensures Shr(x, k) <= x
  {
    if k > 0 {
      ShrBelow(x / 2, k - 1);
    }
  }

  lemma LoadWordReady(nh: nat, nl: nat, d: nat)
    requires nh < W32 && nl < W32
    requires Shr(Join(nh, nl), 32) < d < W63
    ensures Ready(Join(nh, nl), d, LoadWord(nh, nl))
  {
    SetupWord(nh, nl);
  }

  lemma LoadLargeReady(nh: nat, nl: nat, d: nat, sr: nat)
    requires nh < W32 && nl < W32 && 33 <= sr <= 63
    requires Shr(Join(nh, nl), sr) < d < W63
    ensures Ready(Join(nh, nl), d, LoadLarge(nh, nl, sr))
  {
    SetupLarge(nh, nl, sr);
    ShrBelow(nh, sr - 32);
  }

  lemma LowPow2(nh: nat, nl: nat, k: nat)
    requires nh < W32 && nl < W32 && k <= 31
    ensures k == 0 ==> IsDivMod(Join(nh, nl), 1, Join(nh, nl), 0)
    ensures k > 0 ==> IsDivMod(Join(nh, nl), Pow2(k),
                               Join(Shr(nh, k), Or(Shl(nh, 32 - k, 32), Shr(nl, k))), Low(nl, k))
  {
    if k > 0 {
      ShiftRightSmall(nh, nl, k);
      ShiftDivides(Join(nh, nl), k);
    }
  }

  lemma DivByLarger(a: nat, b: nat)
    requires a < b
    ensures IsDivMod(a, b, 0, a)
  {
  }

  /** The unsigned difference `clz(d) - clz(n)`. */
  function ClzDiff(cd: nat, cn: nat): (sr: nat)
    requires cd <= 31 && cn <= 31
    ensures cd >= cn ==> sr == cd - cn
    ensures cd < cn ==> sr > 31
  {
    (cd + W32 - cn) % W32
  }

  method BuiltinClz(x: nat) returns (c: nat)
    requires 0 < x < W32
    ensures c <= 31 && HighestBit(x, 31 - c)
  {
    ClzCounts(x);
    c := ClzSI2(x);
  }

  method BuiltinCtz(x: nat) returns (c: nat)
    requires 0 < x < W32
    ensures c <= 31 && LowestBit(x, c)
  {
    CtzCounts(x);
    c := CtzSI2(x);
  }

  /** A divisor passing the test `d & (d - 1) == 0` is `1 << ctz(d)`, and `d - 1` is its mask. */
  lemma Pow2Divisor(d: nat, c: nat, x: nat)
    requires d > 0 && And(d, d - 1) == 0 && LowestBit(d, c)
    ensures d == Pow2(c)
    ensures And(x, d - 1) == Low(x, c)
  {
    AndPred(d);
    var k: nat :| d == Pow2(k);
    CtzOfPow2(k, c);
    AndMask(x, c);
  }

  lemma NonPow2Divisor(d: nat, k: nat)
    requires d > 0 && And(d, d - 1) != 0 && HighestBit(d, k)
    ensures k >= 1
  {
    AndPred(d);
    NotPow2(d, k);
  }

  // ------------------------------------------------------------------ __udivmoddi4

  /** `K 0 / K 0`. */
  method DivideHighs(nh: nat, dh: nat) returns (s: Setup)
    requires 0 < dh
    ensures s.Done? && IsDivMod(Join(nh, 0), Join(dh, 0), s.q, s.r)
  {
    HighWords(nh, dh);
    s := Done(nh / dh, Join(nh % dh, 0));
  }

  /** `K X / K 0`: the divisor has an empty low word. */
  method PrepareHighDivisor(nh: nat, nl: nat, dh: nat) returns (s: Setup)
    requires 0 < nh < W32 && nl < W32 && 0 < dh < W32
    ensures s.Done? ==> IsDivMod(Join(nh, nl), Join(dh, 0), s.q, s.r)
    ensures s.Loop? ==> Ready(Join(nh, nl), Join(dh, 0), s)
  {
    if nl == 0 {
      s := DivideHighs(nh, dh);
      return;
    }
    if And(dh, dh - 1) == 0 {
      var k := BuiltinCtz(dh);
      Pow2Divisor(dh, k, nh);
      HighPow2(nh, nl, k);
      return Done(Shr(nh, k), Join(And(nh, dh - 1), nl));
    }
    var cd := BuiltinClz(dh);
    var cn := BuiltinClz(nh);
    NonPow2Divisor(dh, 31 - cd);
    ShiftOfHighs(nh, nl, dh, 0, cn, cd);
    var sr := ClzDiff(cd, cn);
    if sr > 30 {
      DivByLarger(Join(nh, nl), Join(dh, 0));
      return Done(0, Join(nh, nl));
    }
    LoadSmallReady(nh, nl, Join(dh, 0), sr + 1);
    return LoadSmall(nh, nl, sr + 1);
  }

  /** `K X / 0 K`: the divisor fits in one word. */
  method PrepareLowDivisor(nh: nat, nl: nat, dl: nat) returns (s: Setup)
    requires 0 < nh < W32 && nl < W32 && 0 < dl < W32
    ensures s.Done? ==> IsDivMod(Join(nh, nl), dl, s.q, s.r)
    ensures s.Loop? ==> Ready(Join(nh, nl), dl, s)
  {
    if And(dl, dl - 1) == 0 {
      var k := BuiltinCtz(dl);
      Pow2Divisor(dl, k, nl);
      LowPow2(nh, nl, k);
      if dl == 1 {
        Pow2Mono(0, k);
        return Done(Join(nh, nl), And(nl, dl - 1));
      }
      return Done(Join(Shr(nh, k), Or(Shl(nh, 32 - k, 32), Shr(nl, k))), And(nl, dl - 1));
    }
    var cd := BuiltinClz(dl);
    var cn := BuiltinClz(nh);
    NonPow2Divisor(dl, 31 - cd);
    ShiftOfLow(nh, nl, dl, cn, cd);
    var sr := 33 + cd - cn;
    if sr == 32 {
      LoadWordReady(nh, nl, dl);
      return LoadWord(nh, nl);
    } else if sr < 32 {
      LoadSmallReady(nh, nl, dl, sr);
      return LoadSmall(nh, nl, sr);
    }
    LoadLargeReady(nh, nl, dl, sr);
    return LoadLarge(nh, nl, sr);
  }

  /** `K X / K K`: both words of the divisor are in use. */
  method PrepareWideDivisor(nh: nat, nl: nat, dh: nat, dl: nat) returns (s: Setup)
    requires 0 < nh < W32 && nl < W32 && 0 < dh < W32 && 0 < dl < W32
    ensures s.Done? ==> IsDivMod(Join(nh, nl), Join(dh, dl), s.q, s.r)
    ensures s.Loop? ==> Ready(Join(nh, nl), Join(dh, dl), s)
  {
    var cd := BuiltinClz(dh);
    var cn := BuiltinClz(nh);
    ShiftOfHighs(nh, nl, dh, dl, cn, cd);
    var sr := ClzDiff(cd, cn);
    if sr > 31 {
      DivByLarger(Join(nh, nl), Join(dh, dl));
      return Done(0, Join(nh, nl));
    }
    if sr + 1 == 32 {
      LoadWordReady(nh, nl, Join(dh, dl));
      return LoadWord(nh, nl);
    }
    LoadSmallReady(nh, nl, Join(dh, dl), sr + 1);
    return LoadSmall(nh, nl, sr + 1);
  }

  /** The case analysis of `__udivmoddi4`; its case `K X / 0 0`, a division by zero, needs `b == 0`. */
  method Prepare(a: nat, b: nat) returns (s: Setup)
    requires a < W64 && 0 < b < W64
    ensures s.Done? ==> IsDivMod(a, b, s.q, s.r)
    ensures s.Loop? ==> Ready(a, b, s)
  {
    var nh, nl := a / W32, a % W32;
    var dh, dl := b / W32, b % W32;
    if nh == 0 {
      if dh == 0 {
        return Done(nl / dl, nl % dl);
      }
      return Done(0, nl);
    }
    if dl == 0 {
      s := PrepareHighDivisor(nh, nl, dh);
    } else if dh == 0 {
      s := PrepareLowDivisor(nh, nl, dl);
    } else {
      s := PrepareWideDivisor(nh, nl, dh, dl);
    }
  }

  // ------------------------------------------------------------------ the shift-subtract loop

  /** One word shifted left by one, a bit entering at the bottom and one leaving at the top. */
  lemma ShiftInBit(h: nat, c: nat)
    requires h < W32 && c < 2
    ensures Shr(h, 31) < 2
    ensures Or(Shl(h, 1, 32), c) == 2 * h + c - W32 * Shr(h, 31)
    ensures 0 <= 2 * h + c - W32 * Shr(h, 31) < W32
  {
    Pow2Constants();
    ShrSmaller(h, 31, 32);
    LowScale(h, 1, 32);
    OrDisjoint(Low(h, 31), 1, c);
    Split(h, 31);
    ScaleMul(Shr(h, 31), 31);
  }

  /** The same on a double word, as the loop does it on halves. */
  lemma ShiftInPair(h: nat, l: nat, c: nat)
    requires h < W32 && l < W32 && c < 2
    ensures Or(Shl(h, 1, 32), Shr(l, 31)) < W32 && Or(Shl(l, 1, 32), c) < W32
    ensures Join(Or(Shl(h, 1, 32), Shr(l, 31)), Or(Shl(l, 1, 32), c))
         == 2 * Join(h, l) + c - W64 * Shr(h, 31)
    ensures Shr(h, 31) < 2
  {
    ShiftInBit(l, c);
    ShiftInBit(h, Shr(l, 31));
  }

  /** The sign of `d - r - 1` as a 64-bit word, spread over all bits: all ones iff `r >= d`. */
  function SignMask(d: nat, r: nat): nat {
    var diff := (d + W64 + W64 - r - 1) % W64;
    if diff >= W63 then W64 - 1 else 0
  }

  /** The comparison by sign cannot overflow under the guard of the loop. */
  lemma SignTrick(d: nat, r: nat)
    requires d < W64 && r < W64 && r < 2 * d
    requires d < W63 || r >= W63
    ensures SignMask(d, r) == if r >= d then W64 - 1 else 0
  {
  }

  lemma MaskedDivisor(d: nat, s: nat)
    requires d < W64 && (s == 0 || s == W64 - 1)
    ensures And(d, s) == (if s == 0 then 0 else d)
    ensures And(s, 1) == (if s == 0 then 0 else 1)
  {
    Pow2Constants();
    AndMask(d, 64);
    LowSmall(d, 64);
    AndMask(s, 1);
    assert Low(s, 1) == s % 2;
  }

  /** Bit `sr - 1` of `n` is the next one to enter the remainder. */
  lemma NextBit(n: nat, sr: nat)
    requires sr > 0
    ensures var y := Shr(n, sr - 1);
            && y / 2 == Shr(n, sr)
            && Low(n, sr) == Scale(y % 2, sr - 1) + Low(n, sr - 1)
  {
    var y := Shr(n, sr - 1);
    ShrShr(n, sr - 1, 1);
    LowSplit(n, sr - 1, 1);
    assert Shr(y, 1) == y / 2 && Low(y, 1) == y % 2;
  }

  /** Moving the quotient register up by one: the next bit of `n` comes out at position 64. */
  lemma QuotientUp(n: nat, sr: nat, low: nat, carry: nat)
    requires 1 <= sr <= 63
    ensures 2 * (Scale(Low(n, sr), 64 - sr) + low) + carry
         == Scale(Shr(n, sr - 1) % 2, 64) + (Scale(Low(n, sr - 1), 65 - sr) + (2 * low + carry))
  {
    var bit, rest := Shr(n, sr - 1) % 2, Low(n, sr - 1);
    NextBit(n, sr);
    ScaleAdd(Scale(bit, sr - 1), rest, 65 - sr);
    ScaleScale(bit, sr - 1, 65 - sr);
  }

  lemma QuotientFits(n: nat, sr: nat, low: nat, carry: nat)
    requires 1 <= sr <= 63 && carry < 2 && low < Pow2(64 - sr)
    ensures Scale(Low(n, sr - 1), 65 - sr) + (2 * low + carry) < W64
    ensures 2 * low + carry < Pow2(65 - sr)
  {
    Pow2Constants();
    Split(n, sr - 1);
    LowScaleBound(Low(n, sr - 1), sr - 1, 65 - sr, 2 * low + carry);
  }

  /** Shifting the quotient register: the bit of `n` leaves at the top, the quotient bits move up. */
  lemma QuotientShift(n: nat, sr: nat, low: nat, carry: nat, q: nat, top: nat, q': nat)
    requires 1 <= sr <= 63 && carry < 2 && low < Pow2(64 - sr)
    requires q == Scale(Low(n, sr), 64 - sr) + low
    requires q' < W64 && 2 * q + carry == W64 * top + q'
    ensures top == Shr(n, sr - 1) % 2
    ensures q' == Scale(Low(n, sr - 1), 65 - sr) + (2 * low + carry)
  {
    QuotientUp(n, sr, low, carry);
    QuotientFits(n, sr, low, carry);
    BitAt64(Shr(n, sr - 1) % 2);
  }

  lemma BitAt64(bit: nat)
    ensures Scale(bit, 64) == W64 * bit
  {
    Pow2Constants();
    ScaleMul(bit, 64);
  }

  /** The state of the loop after some steps: with `sr` bits of `n` still in the quotient register,
      the bits consumed so far are divided, their quotient being `2 * low + carry`. */
  ghost predicate Divided(n: nat, d: nat, sr: nat, q: nat, r: nat, low: nat, carry: nat) {
    && sr <= 63 && carry < 2 && low < Pow2(64 - sr)
    && q == Scale(Low(n, sr), 64 - sr) + low
    && Shr(n, sr) == (2 * low + carry) * d + r
    && r < d
  }

  lemma DividedStart(n: nat, d: nat, s: Setup)
    requires s.Loop? && Ready(n, d, s)
    ensures Divided(n, d, s.sr, Join(s.qh, s.ql), Join(s.rh, s.rl), 0, 0)
  {
  }

  /** One iteration: `r:q` moves up by one bit and `d` is subtracted if it fits. */
  lemma DividedStep(n: nat, d: nat, sr: nat, q: nat, r: nat, low: nat, carry: nat, top: nat, q': nat)
    requires Divided(n, d, sr, q, r, low, carry) && sr > 0
    requires q' < W64 && 2 * q + carry == W64 * top + q'
    ensures top == Shr(n, sr - 1) % 2
    ensures 2 * r + top >= d ==> Divided(n, d, sr - 1, q', 2 * r + top - d, 2 * low + carry, 1)
    ensures 2 * r + top < d ==> Divided(n, d, sr - 1, q', 2 * r + top, 2 * low + carry, 0)
  {
    var qq := 2 * low + carry;
    QuotientShift(n, sr, low, carry, q, top, q');
    QuotientFits(n, sr, low, carry);
    NextBit(n, sr);
    assert Shr(n, sr - 1) == 2 * (qq * d) + (2 * r + top);
    DoubleQuotient(qq, d);
  }

  lemma DoubleQuotient(qq: nat, d: nat)
    ensures 2 * (qq * d) == (2 * qq + 0) * d
    ensures 2 * (qq * d) + d == (2 * qq + 1) * d
  {
  }

  lemma DividedEnd(n: nat, d: nat, q: nat, r: nat, low: nat, carry: nat)
    requires Divided(n, d, 0, q, r, low, carry) && n < W64
    ensures IsDivMod(n, d, 2 * q + carry, r)
    ensures 2 * q + carry < W64
  {
    ScaleZero(64);
    assert Shr(n, 0) == n && Low(n, 0) == 0;
    assert q == low;
    QuotientBounded(2 * q + carry, d, n, r);
  }

  lemma ScaleZero(k: nat)
    ensures Scale(0, k) == 0
  {
    ScaleMono(0, 0, k);
  }

  lemma QuotientBounded(q: nat, d: nat, n: nat, r: nat)
    requires n == q * d + r && r < d
    ensures q <= n
  {
    if q > 0 {
      assert q * d >= q;
    }
  }

  /** The shifted remainder still fits in 64 bits, and satisfies the guard of the sign trick. */
  lemma NoOverflow(n: nat, d: nat, sr: nat, q: nat, r: nat, low: nat, carry: nat, top: nat)
    requires Divided(n, d, sr, q, r, low, carry) && sr > 0 && n < W64 && d < W64
    requires top == Shr(n, sr - 1) % 2
    requires d < W63 || (sr == 1 && n >= W63 && low == carry == 0)
    ensures 2 * r + top < W64
    ensures 2 * r + top < 2 * d
    ensures d < W63 || 2 * r + top >= W63
  {
    if d >= W63 {
      NextBit(n, 1);
      assert Shr(n, 0) == n;
    }
  }

  lemma LastShift(q: nat, carry: nat)
    requires carry < 2 && 2 * q + carry < W64
    ensures Or(Shl(q, 1, 64), carry) == 2 * q + carry
  {
    Pow2Constants();
    OrDisjoint(q, 1, carry);
    LowSmall(2 * q, 64);
  }

  /** The comparison and subtraction at the end of the loop body, by masks. */
  method SubtractIfFits(d: nat, rh: nat, rl: nat) returns (rh': nat, rl': nat, carry': nat)
    requires d < W64 && rh < W32 && rl < W32
    requires Join(rh, rl) < 2 * d && (d < W63 || Join(rh, rl) >= W63)
    ensures rh' < W32 && rl' < W32
    ensures Join(rh, rl) >= d ==> Join(rh', rl') == Join(rh, rl) - d && carry' == 1
    ensures Join(rh, rl) < d ==> Join(rh', rl') == Join(rh, rl) && carry' == 0
  {
    var r := Join(rh, rl);
    var mask := SignMask(d, r);
    SignTrick(d, r);
    MaskedDivisor(d, mask);
    carry' := And(mask, 1);
    var rest := (r + W64 - And(d, mask)) % W64;
    rh', rl' := rest / W32, rest % W32;
  }

  /** The body of the loop. */
  method Step(ghost n: nat, d: nat, ghost sr: nat, qh: nat, ql: nat, rh: nat, rl: nat, ghost low: nat, carry: nat)
    returns (qh': nat, ql': nat, rh': nat, rl': nat, carry': nat)
    requires n < W64 && d < W64 && qh < W32 && ql < W32 && rh < W32 && rl < W32
    requires Divided(n, d, sr, Join(qh, ql), Join(rh, rl), low, carry) && sr > 0
    requires d < W63 || (sr == 1 && n >= W63 && low == carry == 0)
    ensures qh' < W32 && ql' < W32 && rh' < W32 && rl' < W32
    ensures Divided(n, d, sr - 1, Join(qh', ql'), Join(rh', rl'), 2 * low + carry, carry')
  {
    ghost var top := Shr(qh, 31);
    ShiftInPair(qh, ql, carry);
    ShiftInPair(rh, rl, top);
    var rh1 := Or(Shl(rh, 1, 32), Shr(rl, 31));
    var rl1 := Or(Shl(rl, 1, 32), Shr(qh, 31));
    qh' := Or(Shl(qh, 1, 32), Shr(ql, 31));
    ql' := Or(Shl(ql, 1, 32), carry);
    DividedStep(n, d, sr, Join(qh, ql), Join(rh, rl), low, carry, top, Join(qh', ql'));
    NoOverflow(n, d, sr, Join(qh, ql), Join(rh, rl), low, carry, top);
    NoCarryOut(Join(rh, rl), top, Shr(rh, 31), Join(rh1, rl1));
    rh', rl', carry' := SubtractIfFits(d, rh1, rl1);
  }

  lemma NoCarryOut(r: nat, top: nat, out: nat, r': nat)
    requires 2 * r + top < W64 && r' == 2 * r + top - W64 * out
    ensures out == 0 && r' == 2 * r + top
  {
  }

  /** The loop of `__udivmoddi4` on halves. */
  method ShiftSubtract(n: nat, d: nat, s: Setup) returns (q: nat, r: nat)
    requires n < W64 && d < W64 && s.Loop? && Ready(n, d, s)
    ensures IsDivMod(n, d, q, r) && q < W64
  {
    var qh: nat, ql: nat, rh: nat, rl: nat := s.qh, s.ql, s.rh, s.rl;
    var sr: nat, carry: nat := s.sr, 0;
    ghost var low: nat := 0;
    DividedStart(n, d, s);
    while sr > 0
      invariant qh < W32 && ql < W32 && rh < W32 && rl < W32
      invariant Divided(n, d, sr, Join(qh, ql), Join(rh, rl), low, carry)
      invariant sr == 0 || d < W63 || (sr == 1 && n >= W63 && low == carry == 0)
    {
      ghost var low' := 2 * low + carry;
      qh, ql, rh, rl, carry := Step(n, d, sr, qh, ql, rh, rl, low, carry);
      low := low';
      sr := sr - 1;
    }
    DividedEnd(n, d, Join(qh, ql), Join(rh, rl), low, carry);
    LastShift(Join(qh, ql), carry);
    q := Or(Shl(Join(qh, ql), 1, 64), carry);
    r := Join(rh, rl);
  }

  /** `__udivmoddi4`: quotient and remainder of two unsigned 64-bit words. */
  method UDivMod(a: nat, b: nat) returns (q: nat, r: nat)
    requires a < W64 && 0 < b < W64
    ensures IsDivMod(a, b, q, r)
    ensures q < W64 && r < W64
  {
    var s := Prepare(a, b);
    match s
    case Done(q', r') =>
      q, r := q', r';
      QuotientBounded(q, b, a, r);
    case Loop(_, _, _, _, _) =>
      q, r := ShiftSubtract(a, b, s);
  }

  // ------------------------------------------------------------------ signed division

  const MIN64: int := -0x8000_0000_0000_0000

  predicate IsInt64(x: int) {
    MIN64 <= x < 0x8000_0000_0000_0000
  }

  /** The two's complement word of a signed value, and back. */
  function ToU(x: int): nat
    requires IsInt64(x)
  {
    if x < 0 then x + W64 else x
  }

  function ToS(u: nat): int {
    if u < W63 then u else u - W64
  }

  /** `x >> 63` of a signed word: all ones if negative. */
  function SignOf(x: int): nat {
    if x < 0 then W64 - 1 else 0
  }

  /** `(u ^ s) - s` in 64-bit arithmetic, `s` being a sign mask. */
  function FlipSign(u: nat, s: nat): nat
    requires s < W64
  {
    (Xor(u, s) + (W64 - s)) % W64
  }

  function Abs(x: int): nat {
    if x < 0 then -x else x
  }

  lemma FlipSignMeans(u: nat, s: nat)
    requires u < W64 && (s == 0 || s == W64 - 1)
    ensures FlipSign(u, s) == if s == 0 || u == 0 then u else W64 - u
  {
    if s != 0 {
      Pow2Constants();
      XorOnes(u, 64);
    } else {
      assert Xor(u, 0) == u;
    }
  }

  /** Negating by mask gives the magnitude, also of the most negative value. */
  lemma FlipSignAbs(x: int)
    requires IsInt64(x)
    ensures FlipSign(ToU(x), SignOf(x)) == Abs(x) < W64
  {
    FlipSignMeans(ToU(x), SignOf(x));
  }

  /** C's `/` and `%`: truncation toward zero, the remainder taking the sign of the dividend. */
  function TruncDiv(a: int, b: int): int
    requires b != 0
  {
    if (a < 0) == (b < 0) then Abs(a) / Abs(b) else -(Abs(a) / Abs(b))
  }

  function TruncMod(a: int, b: int): int
    requires b != 0
  {
    if a < 0 then -(Abs(a) % Abs(b)) else Abs(a) % Abs(b)
  }

  predicate IsTruncDivMod(a: int, b: int, q: int, m: int) {
    && a == q * b + m
    && Abs(m) < Abs(b)
    && (a >= 0 ==> m >= 0) && (a <= 0 ==> m <= 0)
  }

  lemma NegMul(q: int, b: int)
    ensures (-q) * b == -(q * b) == q * (-b)
    ensures (-q) * (-b) == q * b
  {
  }

  lemma SignedFromUnsigned(a: int, b: int, q: nat, r: nat)
    requires b != 0 && IsDivMod(Abs(a), Abs(b), q, r)
    ensures IsTruncDivMod(a, b, if (a < 0) == (b < 0) then q else 0 - q, if a < 0 then 0 - r else r)
  {
    NegMul(q, b);
  }

  lemma TruncDivModSatisfies(a: int, b: int)
    requires b != 0
    ensures IsTruncDivMod(a, b, TruncDiv(a, b), TruncMod(a, b))
  {
    var q, r := Abs(a) / Abs(b), Abs(a) % Abs(b);
    assert IsDivMod(Abs(a), Abs(b), q, r);
    SignedFromUnsigned(a, b, q, r);
  }

  /** Magnitudes of a truncating division. */
  lemma TruncDivModMagnitudes(a: int, b: int, q: int, m: int)
    requires b != 0 && IsTruncDivMod(a, b, q, m)
    ensures Abs(a) == (if (a < 0) == (b < 0) then q else 0 - q) * Abs(b) + Abs(m)
  {
    NegMul(q, b);
  }

  /** `TruncDiv` and `TruncMod` are the only pair satisfying the law of truncating division. */
  lemma TruncDivModLaw(a: int, b: int, q: int, m: int)
    requires b != 0
    ensures IsTruncDivMod(a, b, q, m) <==> q == TruncDiv(a, b) && m == TruncMod(a, b)
  {
    TruncDivModSatisfies(a, b);
    if IsTruncDivMod(a, b, q, m) {
      TruncDivModMagnitudes(a, b, q, m);
      DivUnique(Abs(a), Abs(b), if (a < 0) == (b < 0) then q else 0 - q, Abs(m));
    }
  }

  lemma MaskXor(x: int, y: int)
    ensures Xor(SignOf(x), SignOf(y)) == if (x < 0) == (y < 0) then 0 else W64 - 1
  {
    Pow2Constants();
    XorOnes(W64 - 1, 64);
  }

  /** Only `INT64_MIN / -1` has a quotient of 2^63. */
  lemma QuotientRange(a: int, b: int, q: nat, r: nat)
    requires IsInt64(a) && IsDivMod(Abs(a), Abs(b), q, r)
    ensures q <= W63
    ensures q == W63 ==> a == MIN64 && Abs(b) == 1
  {
    QuotientBounded(q, Abs(b), Abs(a), r);
    if Abs(b) >= 2 && q > 0 {
      assert q * Abs(b) >= 2 * q by { MulAtLeast(Abs(b) - 1, q); MulSub(Abs(b), 1, q); }
    }
  }

  /** The sign of the quotient applied by mask, with wrap-around only at 2^63. */
  lemma SignQuotient(q: nat, s: nat)
    requires q <= W63 && (s == 0 || s == W64 - 1)
    ensures ToS(FlipSign(q, s)) == if s != 0 || q == W63 then 0 - q else q
  {
    FlipSignMeans(q, s);
  }

  /** `__divdi3`: the truncated quotient, except that `INT64_MIN / -1` wraps to `INT64_MIN`. */
  method Div(a: int, b: int) returns (q: int)
    requires IsInt64(a) && IsInt64(b) && b != 0
    ensures IsInt64(q)
    ensures a == MIN64 && b == -1 ==> q == MIN64
    ensures !(a == MIN64 && b == -1) ==> q == TruncDiv(a, b)
  {
    var sa, sb := SignOf(a), SignOf(b);
    FlipSignAbs(a);
    FlipSignAbs(b);
    var ua, ub := FlipSign(ToU(a), sa), FlipSign(ToU(b), sb);
    var s := Xor(sa, sb);
    MaskXor(a, b);
    var uq, ur := UDivMod(ua, ub);
    q := ToS(FlipSign(uq, s));
    QuotientRange(a, b, uq, ur);
    SignQuotient(uq, s);
    DivUnique(Abs(a), Abs(b), uq, ur);
  }

  /** `__moddi3`. */
  method Mod(a: int, b: int) returns (m: int)
    requires IsInt64(a) && IsInt64(b) && b != 0
    ensures m == TruncMod(a, b)
  {
    var sa, sb := SignOf(a), SignOf(b);
    FlipSignAbs(a);
    FlipSignAbs(b);
    var uq, ur := UDivMod(FlipSign(ToU(a), sa), FlipSign(ToU(b), sb));
    m := ToS(FlipSign(ur, sa));
    SignQuotient(ur, sa);
    DivUnique(Abs(a), Abs(b), uq, ur);
  }

  /** A value reduced to a signed 64-bit word. */
  function Wrap(x: int): int {
    ToS(x % W64)
  }

  /** `__divmoddi4`: the remainder is right even when the quotient overflows. */
  method DivMod(a: int, b: int) returns (q: int, m: int)
    requires IsInt64(a) && IsInt64(b) && b != 0
    ensures a == MIN64 && b == -1 ==> q == MIN64
    ensures !(a == MIN64 && b == -1) ==> q == TruncDiv(a, b)
    ensures m == TruncMod(a, b)
  {
    q := Div(a, b);
    m := Wrap(a - q * b);
    if !(a == MIN64 && b == -1) {
      TruncDivModLaw(a, b, q, TruncMod(a, b));
    }
  }
}
