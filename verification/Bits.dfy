/** Bit operations of the C sources, on unbounded naturals.

A machine word of `w` bits is a natural below `Pow2(w)`.  Shifts, truncation, `And`, `Or` and `Xor`
are defined bit by bit; the lemmas give their arithmetic meaning on the shapes the sources use:
masks, disjoint fields, complements, buddies and the power-of-two test `x & (x - 1)`.
 */
module Bits {

  const W32: nat := 0x1_0000_0000
  const W63: nat := 0x8000_0000_0000_0000
  const W64: nat := 0x1_0000_0000_0000_0000

  function Pow2(n: nat): (r: nat)
    ensures r > 0
  {
    if n == 0 then 1 else 2 * Pow2(n - 1)
  }

  /** `x << k` without truncation. */
  function Scale(x: nat, k: nat): nat {
    if k == 0 then x else 2 * Scale(x, k - 1)
  }

  /** `x >> k` of an unsigned word. */
  function Shr(x: nat, k: nat): nat {
    if k == 0 then x else Shr(x / 2, k - 1)
  }

  /** The lowest `k` bits of `x`. */
  function Low(x: nat, k: nat): nat {
    if k == 0 then 0 else 2 * Low(x / 2, k - 1) + x % 2
  }

  /** `x << k` in a word of `w` bits: the bits moved past the top are lost. */
  function Shl(x: nat, k: nat, w: nat): nat {
    Low(Scale(x, k), w)
  }

  function And(x: nat, y: nat): nat {
    if x == 0 || y == 0 then 0
    else 2 * And(x / 2, y / 2) + (if x % 2 == 1 && y % 2 == 1 then 1 else 0)
  }

  function Or(x: nat, y: nat): nat {
    if x == 0 then y
    else if y == 0 then x
    else 2 * Or(x / 2, y / 2) + (if x % 2 == 1 || y % 2 == 1 then 1 else 0)
  }

  function Xor(x: nat, y: nat): nat {
    if x == 0 then y
    else if y == 0 then x
    else 2 * Xor(x / 2, y / 2) + (if x % 2 == y % 2 then 0 else 1)
  }

  ghost predicate IsPow2(x: nat) {
    exists k: nat :: x == Pow2(k)
  }

  // ------------------------------------------------------------------ powers of two

  lemma {:induction false} Pow2Mono(a: nat, b: nat)
    requires a <= b
    ensures Pow2(a) <= Pow2(b)
    ensures a < b ==> 2 * Pow2(a) <= Pow2(b)
  {
    if a < b {
      Pow2Mono(a, b - 1);
    }
  }

  lemma {:induction false} Pow2Add(a: nat, b: nat)
    ensures Pow2(a + b) == Pow2(a) * Pow2(b)
  {
    if a > 0 {
      Pow2Add(a - 1, b);
      MulAssoc(2, Pow2(a - 1), Pow2(b));
    }
  }

  lemma Pow2Constants()
    ensures Pow2(8) == 256 && Pow2(12) == 4096 && Pow2(16) == 0x10000
    ensures Pow2(31) == 0x8000_0000 && Pow2(32) == 0x1_0000_0000
    ensures Pow2(63) == 0x8000_0000_0000_0000 && Pow2(64) == 0x1_0000_0000_0000_0000
  {
    assert Pow2(4) == 16;
    Pow2Add(4, 4); Pow2Add(8, 4); Pow2Add(8, 8); Pow2Add(16, 16); Pow2Add(32, 32);
  }

  // ------------------------------------------------------------------ multiplication and division

  lemma MulAtLeast(a: int, d: int)
    requires a >= 1 && d > 0
    ensures a * d >= d
  {
  }

  lemma MulSub(a: int, b: int, d: int)
    ensures (a - b) * d == a * d - b * d
  {
  }

  lemma MulAssoc(a: int, b: int, c: int)
    ensures a * b * c == a * (b * c)
  {
  }

  /** A quotient is characterised by its remainder. */
  lemma DivUnique(x: int, d: int, q: int, r: int)
    requires d > 0 && 0 <= r < d && x == q * d + r
    ensures x / d == q && x % d == r
  {
    var q', r' := x / d, x % d;
    MulSub(q', q, d);
    MulSub(q, q', d);
    if q < q' {
      MulAtLeast(q' - q, d);
    } else if q' < q {
      MulAtLeast(q - q', d);
    }
  }

  // ------------------------------------------------------------------ shifts

  lemma {:induction false} ScaleMul(x: nat, k: nat)
    ensures Scale(x, k) == x * Pow2(k)
  {
    if k > 0 {
      ScaleMul(x, k - 1);
      MulAssoc(2, x, Pow2(k - 1));
    }
  }

  /** A number is its high part above its low part. */
  lemma {:induction false} Split(x: nat, k: nat)
    ensures x == Scale(Shr(x, k), k) + Low(x, k)
    ensures Low(x, k) < Pow2(k)
  {
    if k > 0 {
      Split(x / 2, k - 1);
    }
  }

  /** `Shr` and `Low` are quotient and remainder by `2^k`. */
  lemma ShrDiv(x: nat, k: nat)
    ensures Shr(x, k) == x / Pow2(k)
    ensures Low(x, k) == x % Pow2(k)
  {
    Split(x, k);
    ScaleMul(Shr(x, k), k);
    DivUnique(x, Pow2(k), Shr(x, k), Low(x, k));
  }

  lemma {:induction false} ShrScale(x: nat, k: nat, r: nat)
    requires r < Pow2(k)
    ensures Shr(Scale(x, k) + r, k) == x
    ensures Low(Scale(x, k) + r, k) == r
  {
    if k > 0 {
      ShrScale(x, k - 1, r / 2);
      assert (Scale(x, k) + r) / 2 == Scale(x, k - 1) + r / 2;
    }
  }

  lemma {:induction false} ShrShr(x: nat, a: nat, b: nat)
    ensures Shr(Shr(x, a), b) == Shr(x, a + b)
  {
    if a > 0 {
      ShrShr(x / 2, a - 1, b);
    }
  }

  lemma {:induction false} ScaleScale(x: nat, a: nat, b: nat)
    ensures Scale(Scale(x, a), b) == Scale(x, a + b)
  {
    if b > 0 {
      ScaleScale(x, a, b - 1);
    }
  }

  lemma {:induction false} ScaleAdd(x: nat, y: nat, k: nat)
    ensures Scale(x + y, k) == Scale(x, k) + Scale(y, k)
  {
    if k > 0 {
      ScaleAdd(x, y, k - 1);
    }
  }

  lemma {:induction false} ScaleMono(x: nat, y: nat, k: nat)
    requires x <= y
    ensures Scale(x, k) <= Scale(y, k)
    ensures x < y ==> Scale(x, k) + Pow2(k) <= Scale(y, k)
    ensures Scale(1, k) == Pow2(k) && Scale(0, k) == 0
  {
    if k > 0 {
      ScaleMono(x, y, k - 1);
    }
  }

  lemma {:induction false} ShrMono(x: nat, y: nat, k: nat)
    requires x <= y
    ensures Shr(x, k) <= Shr(y, k)
  {
    if k > 0 {
      ShrMono(x / 2, y / 2, k - 1);
    }
  }

  /** The bits of `x` between positions `a` and `a + b`, above those below `a`. */
  lemma {:induction false} LowSplit(x: nat, a: nat, b: nat)
    ensures Low(x, a + b) == Scale(Low(Shr(x, a), b), a) + Low(x, a)
  {
    if a > 0 {
      LowSplit(x / 2, a - 1, b);
    }
  }

  lemma {:induction false} LowScale(x: nat, s: nat, w: nat)
    requires s <= w
    ensures Low(Scale(x, s), w) == Scale(Low(x, w - s), s)
  {
    if s > 0 {
      LowScale(x, s - 1, w - 1);
      assert Scale(x, s) / 2 == Scale(x, s - 1);
    }
  }

  lemma {:induction false} LowSmall(x: nat, k: nat)
    requires x < Pow2(k)
    ensures Low(x, k) == x && Shr(x, k) == 0
  {
    if k > 0 {
      LowSmall(x / 2, k - 1);
    }
  }

  lemma ShrSmaller(x: nat, k: nat, w: nat)
    requires x < Pow2(w) && k <= w
    ensures Shr(x, k) < Pow2(w - k)
  {
    Split(x, k);
    if Shr(x, k) >= Pow2(w - k) {
      ScaleMono(Pow2(w - k), Shr(x, k), k);
      ScaleMul(Pow2(w - k), k);
      Pow2Add(w - k, k);
    }
  }

  // ------------------------------------------------------------------ masks and fields

  lemma {:induction false} AndMask(x: nat, k: nat)
    ensures And(x, Pow2(k) - 1) == Low(x, k)
  {
    if k == 0 {
    } else if x == 0 {
      LowSmall(0, k);
    } else {
      AndMask(x / 2, k - 1);
      assert (Pow2(k) - 1) / 2 == Pow2(k - 1) - 1;
    }
  }

  lemma AndEven(x: nat, y: nat)
    ensures And(x, 2 * y) == 2 * And(x / 2, y)
  {
  }

  lemma {:induction false} AndScaled(x: nat, m: nat, s: nat)
    ensures And(x, Scale(m, s)) == Scale(And(Shr(x, s), m), s)
  {
    if s > 0 {
      AndScaled(x / 2, m, s - 1);
      AndEven(x, Scale(m, s - 1));
    }
  }

  /** `(x & mask) >> s` extracts the field of `b` bits at position `s`. */
  lemma AndField(x: nat, b: nat, s: nat)
    ensures And(x, Scale(Pow2(b) - 1, s)) == Scale(Low(Shr(x, s), b), s)
    ensures Shr(And(x, Scale(Pow2(b) - 1, s)), s) == Low(Shr(x, s), b)
  {
    AndScaled(x, Pow2(b) - 1, s);
    AndMask(Shr(x, s), b);
    ShrScale(Low(Shr(x, s), b), s, 0);
  }

  lemma {:induction false} OrEven(x: nat, y: nat)
    ensures Or(2 * x, y) == 2 * Or(x, y / 2) + y % 2
    ensures Or(y, 2 * x) == 2 * Or(y / 2, x) + y % 2
  {
    var e := 2 * x;
    assert e / 2 == x && e % 2 == 0;
    if x == 0 || y == 0 {
    } else {
      assert Or(e, y) == 2 * Or(e / 2, y / 2) + y % 2;
      assert Or(y, e) == 2 * Or(y / 2, e / 2) + y % 2;
    }
  }

  lemma {:induction false} OrPositive(x: nat, y: nat)
    requires x > 0 || y > 0
    ensures Or(x, y) > 0
  {
    if x > 1 && y > 0 {
      OrPositive(x / 2, y / 2);
    } else if x > 0 && y > 1 {
      OrPositive(x / 2, y / 2);
    }
  }

  lemma {:induction false} OrAssoc(x: nat, y: nat, z: nat)
    ensures Or(Or(x, y), z) == Or(x, Or(y, z))
  {
    if x != 0 && y != 0 && z != 0 {
      var p, q := Or(x, y), Or(y, z);
      OrPositive(x, y);
      OrPositive(y, z);
      assert p / 2 == Or(x / 2, y / 2) && q / 2 == Or(y / 2, z / 2);
      OrAssoc(x / 2, y / 2, z / 2);
    }
  }

  /** `|` of fields that do not meet is addition. */
  lemma {:induction false} OrDisjoint(a: nat, k: nat, b: nat)
    requires b < Pow2(k)
    ensures Or(Scale(a, k), b) == Scale(a, k) + b
    ensures Or(b, Scale(a, k)) == Scale(a, k) + b
  {
    if k > 0 {
      OrDisjoint(a, k - 1, b / 2);
      OrEven(Scale(a, k - 1), b);
    }
  }

  // ------------------------------------------------------------------ exclusive or

  /** `^` with all ones is the complement. */
  lemma {:induction false} XorOnes(x: nat, k: nat)
    requires x < Pow2(k)
    ensures Xor(x, Pow2(k) - 1) == Pow2(k) - 1 - x
  {
    if k == 0 || x == 0 {
    } else {
      XorOnes(x / 2, k - 1);
      assert (Pow2(k) - 1) / 2 == Pow2(k - 1) - 1;
    }
  }

  /** The index of the buddy: the lowest bit flipped. */
  function Flip(i: nat): (j: nat)
    ensures j / 2 == i / 2 && j != i
    ensures forall m: nat :: m / 2 == i / 2 ==> m == i || m == j
  {
    if i % 2 == 0 then i + 1 else i - 1
  }

  lemma XorEven(x: nat, y: nat)
    ensures Xor(2 * x, 2 * y) == 2 * Xor(x, y)
  {
  }

  /** Toggling bit `k` of a multiple of `2^k` moves to the other half of the enclosing `2^(k+1)`. */
  lemma {:induction false} XorBit(i: nat, k: nat)
    ensures Xor(Scale(i, k), Pow2(k)) == Scale(Flip(i), k)
  {
    if k == 0 {
      assert i != 0 ==> Xor(i / 2, 0) == i / 2;
    } else {
      XorBit(i, k - 1);
      XorEven(Scale(i, k - 1), Pow2(k - 1));
    }
  }

  // ------------------------------------------------------------------ the power-of-two test

  lemma {:induction false} AndSelf(x: nat)
    ensures And(x, x) == x
  {
    if x > 0 {
      AndSelf(x / 2);
    }
  }

  /** `x & (x - 1)` vanishes exactly on the powers of two (and on 0). */
  lemma {:induction false} AndPred(x: nat)
    requires x > 0
    ensures And(x, x - 1) == 0 <==> IsPow2(x)
  {
    if x == 1 {
      assert x == Pow2(0);
    } else if x % 2 == 1 {
      AndSelf(x / 2);
      assert (x - 1) / 2 == x / 2;
      forall k: nat ensures x != Pow2(k) {
        assert k == 0 || Pow2(k) == 2 * Pow2(k - 1);
      }
    } else {
      AndPred(x / 2);
      assert (x - 1) / 2 == x / 2 - 1;
      if IsPow2(x / 2) {
        var k: nat :| x / 2 == Pow2(k);
        assert x == Pow2(k + 1);
      }
      if IsPow2(x) {
        var k: nat :| x == Pow2(k);
        assert x / 2 == Pow2(k - 1);
      }
    }
  }
}
