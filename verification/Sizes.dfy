/** Size classes and block orders of `oslabs/kernel/src/pmm.c`. */
module Sizes {
  import opened Bits
  import opened BuddyTheory

  const NCLASS: nat := 9
  /** `class_size` of the source. */
  const CLASS_SIZE: seq<nat> := [8, 16, 32, 64, 128, 256, 512, 1024, 2048]

  /** The least `k` with `n <= 2^k`. */
  function LogUp(n: nat): nat {
    if n <= 1 then 0 else 1 + LogUp((n + 1) / 2)
  }

  lemma {:induction false} LogUpLeast(n: nat)
    ensures n <= Pow2(LogUp(n))
    ensures LogUp(n) > 0 ==> Pow2(LogUp(n) - 1) < n
  {
    if n > 1 {
      LogUpLeast((n + 1) / 2);
    }
  }

  lemma LogUpUnique(n: nat, k: nat)
    requires n <= Pow2(k) && (k > 0 ==> Pow2(k - 1) < n)
    ensures k == LogUp(n)
  {
    LogUpLeast(n);
    if k < LogUp(n) {
      Pow2Mono(k, LogUp(n) - 1);
    } else if LogUp(n) < k {
      Pow2Mono(LogUp(n), k - 1);
    }
  }

  lemma {:induction false} LogUpAtMost(n: nat, k: nat)
    ensures n <= Pow2(k) <==> LogUp(n) <= k
  {
    LogUpLeast(n);
    if LogUp(n) <= k {
      Pow2Mono(LogUp(n), k);
    } else {
      Pow2Mono(k, LogUp(n) - 1);
    }
  }

  lemma {:induction false} LogUpMono(m: nat, n: nat)
    requires m <= n
    ensures LogUp(m) <= LogUp(n)
  {
    LogUpLeast(n);
    LogUpAtMost(m, LogUp(n));
  }

  function Max(a: nat, b: nat): nat {
    if a < b then b else a
  }

  /** The class whose cells are the next power of two of `size`, if one is that large. */
  function ClassOf(size: nat): int {
    var k := LogUp(Max(size, 8));
    if k <= 11 then k - 3 else -1
  }

  /** The order of the smallest block for `size`, saturating at `MAX_ORDER`. */
  function OrderOf(size: nat): nat {
    var k := LogUp(Max(size, 4096));
    if k <= MAX_ORDER + 12 then (if k < 12 then 0 else k - 12) else MAX_ORDER
  }

  lemma SmallLogs()
    ensures Pow2(3) == 8 && Pow2(4) == 16 && Pow2(5) == 32 && Pow2(6) == 64 && Pow2(7) == 128
    ensures Pow2(8) == 256 && Pow2(9) == 512 && Pow2(10) == 1024 && Pow2(11) == 2048 && Pow2(12) == 4096
  {
  }

  lemma ClassSizes(i: nat)
    requires i < NCLASS
    ensures CLASS_SIZE[i] == Pow2(i + 3)
  {
    SmallLogs();
  }

  /** `next_pow2`; above 2^63 the C loop would overflow and not end. */
  method NextPow2(n: nat) returns (p: nat)
    requires n <= W63
    ensures p == Pow2(LogUp(n))
  {
    p := 1;
    ghost var k := 0;
    while p < n
      invariant p == Pow2(k) && (k > 0 ==> Pow2(k - 1) < n)
      decreases n - p
    {
      p := 2 * p;
      k := k + 1;
    }
    LogUpUnique(n, k);
  }

  /** `size_to_class`. */
  method SizeToClass(size: nat) returns (cls: int)
    requires size <= W63
    ensures cls == ClassOf(size)
  {
    var s := NextPow2(if size < 8 then 8 else size);
    ghost var k := LogUp(Max(size, 8));
    LogUpMono(8, Max(size, 8));
    LogUpUnique(8, 3);
    var i := 0;
    while i < NCLASS
      invariant 0 <= i <= NCLASS
      invariant forall j :: 0 <= j < i ==> CLASS_SIZE[j] < s
      invariant k >= i + 3
    {
      ClassSizes(i);
      if CLASS_SIZE[i] >= s {
        if k > i + 3 { Pow2Mono(i + 3, k); }
        return i;
      }
      i := i + 1;
    }
    return -1;
  }

  /** `size_to_order`. */
  method SizeToOrder(size: nat) returns (order: nat)
    ensures order == OrderOf(size)
  {
    SmallLogs();
    var need := if size < 4096 then 4096 else size;
    order := 0;
    var block := 4096;
    while block < need && order < MAX_ORDER
      invariant order <= MAX_ORDER && block == Pow2(order + 12)
      invariant order > 0 ==> Pow2(order + 11) < need
    {
      block := 2 * block;
      order := order + 1;
    }
    if need <= block {
      assert order == 0 ==> Pow2(order + 11) == 2048;
      LogUpUnique(need, order + 12);
    } else {
      LogUpLeast(need);
      if LogUp(need) <= MAX_ORDER + 12 { Pow2Mono(LogUp(need), MAX_ORDER + 12); }
    }
  }

  /** A cell of the chosen class is the next power of two of the size, and at least 8. */
  lemma ClassFits(size: nat)
    requires ClassOf(size) >= 0
    ensures ClassOf(size) < NCLASS
    ensures size <= Pow2(ClassOf(size) + 3)
    ensures LogUp(size) <= ClassOf(size) + 3
  {
    LogFits(size, Max(size, 8), ClassOf(size) + 3);
  }

  /** And no smaller cell would do. */
  lemma ClassIsLeast(size: nat)
    requires ClassOf(size) >= 0
    ensures size <= 8 ==> ClassOf(size) == 0
    ensures size > 8 ==> LogUp(size) == ClassOf(size) + 3
  {
    if size <= 8 {
      LogOfClassBounds();
      assert Max(size, 8) == 8;
    }
  }

  lemma LogFits(size: nat, m: nat, k: nat)
    requires size <= m && k == LogUp(m)
    ensures size <= Pow2(k) && LogUp(size) <= k
  {
    LogUpAtMost(m, k);
    LogUpMono(size, m);
  }

  lemma LogOfClassBounds()
    ensures LogUp(8) == 3 && LogUp(2048) == 11 && LogUp(4096) == 12
  {
    SmallLogs();
    LogUpUnique(8, 3);
    LogUpUnique(2048, 11);
    LogUpUnique(4096, 12);
  }

  lemma ClassExists(size: nat)
    ensures ClassOf(size) >= -1
    ensures ClassOf(size) >= 0 <==> size <= 2048
  {
    LogOfClassBounds();
    LogUpMono(8, Max(size, 8));
    SmallLogs();
    LogUpAtMost(Max(size, 8), 11);
  }

  /** The block of the chosen order holds `size` bytes iff `size` is at most 256 MiB: above that the
      order saturates, and the source hands out a block that is too small. */
  lemma OrderFits(size: nat)
    ensures OrderOf(size) <= MAX_ORDER
    ensures size <= Pow2(OrderOf(size) + 12) <==> size <= Pow2(MAX_ORDER + 12)
  {
    var m := Max(size, 4096);
    LogOfClassBounds();
    LogUpMono(4096, m);
    LogUpLeast(m);
    LogUpAtMost(m, MAX_ORDER + 12);
    Pow2Mono(12, MAX_ORDER + 12);
    SmallLogs();
    if LogUp(m) <= MAX_ORDER + 12 {
      Pow2Mono(LogUp(m), MAX_ORDER + 12);
    }
  }

  /** Up to a page the order is 0; above it the block is the next power of two of the size. */
  lemma OrderIsLeast(size: nat)
    requires size <= Pow2(MAX_ORDER + 12)
    ensures size <= 4096 ==> OrderOf(size) == 0
    ensures size > 4096 ==> OrderOf(size) + 12 == LogUp(size)
  {
    SmallLogs();
    LogUpAtMost(size, MAX_ORDER + 12);
    LogUpAtMost(Max(size, 4096), 12);
  }

  /** Every size above 256 MiB is given too small a block. */
  lemma Saturates(size: nat)
    requires size > Pow2(MAX_ORDER + 12)
    ensures Pow2(OrderOf(size) + 12) < size
  {
    OrderFits(size);
  }

  lemma FirstTooLarge() returns (size: nat)
    ensures size == 0x1000_0001 && size == Pow2(MAX_ORDER + 12) + 1
  {
    Pow2Constants();
    Pow2Add(16, 12);
    size := 0x1000_0001;
  }

  /** The first such size. */
  lemma SaturatedOrder() returns (size: nat)
    ensures size == 0x1000_0001 && Pow2(OrderOf(size) + 12) < size
  {
    size := FirstTooLarge();
    Saturates(size);
  }
}
