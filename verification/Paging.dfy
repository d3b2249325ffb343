/** Addresses, table indices and table entries of the x86 page tables
(`oslabs/abstract-machine/am/src/x86/qemu/vme.c`), in both configurations.

The page number of an address has an *entry number* at every level: the number of the entry it uses
among all entries that level could have.  Level 0 is the pointer `as->ptr` itself, a table of one
entry.
 */
module Paging {
  import opened Bits

  datatype Mmu = X86_64 | I386

  const PTE_P: nat := 1
  const PTE_W: nat := 2
  const PTE_U: nat := 4

  function Levels(m: Mmu): nat {
    match m case X86_64 => 4 case I386 => 2
  }

  function IndexBits(m: Mmu, i: nat): nat {
    if i == 0 then 0 else match m case X86_64 => 9 case I386 => 10
  }

  function Shift(m: Mmu, i: nat): nat {
    match m
    case X86_64 => if i == 0 then 0 else if i == 1 then 39 else if i == 2 then 30 else if i == 3 then 21 else 12
    case I386 => if i == 0 then 0 else if i == 1 then 22 else 12
  }

  function Mask(m: Mmu, i: nat): nat {
    match m
    case X86_64 =>
      if i == 0 then 0 else if i == 1 then 0xff80_0000_0000 else if i == 2 then 0x7f_c000_0000
      else if i == 3 then 0x3fe0_0000 else 0x1f_f000
    case I386 => if i == 0 then 0 else if i == 1 then 0xffc0_0000 else 0x3f_f000
  }

  function WordBits(m: Mmu): nat {
    match m case X86_64 => 64 case I386 => 32
  }

  /** `~(pgsize - 1)`. */
  function PageMask(m: Mmu): nat {
    match m case X86_64 => 0xffff_ffff_ffff_f000 case I386 => 0xffff_f000
  }

  /** The half-open user area, and the first-level entries that belong to the kernel. */
  function UserStart(m: Mmu): nat {
    match m case X86_64 => 0x1000_0000_0000 case I386 => 0x4000_0000
  }

  function UserEnd(m: Mmu): nat {
    match m case X86_64 => 0x1080_0000_0000 case I386 => 0x8000_0000
  }

  predicate KernelEntry(m: Mmu, e: nat) {
    match m case X86_64 => e < 1 case I386 => e < 256 || e >= 1012
  }

  // ------------------------------------------------------------------ indices

  /** `indexof`. */
  function IndexOf(m: Mmu, addr: nat, i: nat): nat {
    Shr(And(addr, Mask(m, i)), Shift(m, i))
  }

  /** The entry number of page `pn` at level `i`. */
  function EntryNo(m: Mmu, pn: nat, i: nat): nat
    requires i <= Levels(m)
    decreases Levels(m) - i
  {
    if i == Levels(m) then pn else Shr(EntryNo(m, pn, i + 1), IndexBits(m, i + 1))
  }

  lemma MaskIsField(m: Mmu, i: nat)
    requires 1 <= i <= Levels(m)
    ensures Mask(m, i) == Scale(Pow2(IndexBits(m, i)) - 1, Shift(m, i))
  {
    Pow2Constants();
    Pow2Add(8, 1); Pow2Add(8, 2); Pow2Add(32, 7); Pow2Add(16, 5); Pow2Add(16, 6);
    assert Pow2(31) == 2 * Pow2(30);
    ScaleMul(Pow2(IndexBits(m, i)) - 1, Shift(m, i));
  }

  lemma {:induction false} ShiftIsEntryNo(m: Mmu, addr: nat, i: nat)
    requires 1 <= i <= Levels(m)
    ensures Shr(addr, Shift(m, i)) == EntryNo(m, addr / 4096, i)
    decreases Levels(m) - i
  {
    if i == Levels(m) {
      ShrDiv(addr, Shift(m, i));
      Pow2Constants();
    } else {
      ShiftIsEntryNo(m, addr, i + 1);
      ShrShr(addr, Shift(m, i + 1), IndexBits(m, i + 1));
    }
  }

  /** `indexof` is the low part of the entry number. */
  lemma IndexIsLow(m: Mmu, addr: nat, i: nat)
    requires i <= Levels(m)
    ensures IndexOf(m, addr, i) == Low(EntryNo(m, addr / 4096, i), IndexBits(m, i))
  {
    if i > 0 {
      MaskIsField(m, i);
      AndField(addr, IndexBits(m, i), Shift(m, i));
      ShiftIsEntryNo(m, addr, i);
    }
  }

  /** Page numbers are determined by their entry numbers at any two neighbouring levels, index by index. */
  lemma EntrySplit(m: Mmu, e: nat, e': nat, i: nat)
    requires Shr(e, IndexBits(m, i)) == Shr(e', IndexBits(m, i)) && Low(e, IndexBits(m, i)) == Low(e', IndexBits(m, i))
    ensures e == e'
  {
    Split(e, IndexBits(m, i));
    Split(e', IndexBits(m, i));
  }

  /** Two addresses take the same indices on all levels, and have the same bits above, iff they share a page. */
  lemma {:induction false} SameIndices(m: Mmu, a: nat, b: nat, i: nat)
    requires i <= Levels(m)
    ensures EntryNo(m, a / 4096, i) == EntryNo(m, b / 4096, i) && (forall k :: i < k <= Levels(m) ==> IndexOf(m, a, k) == IndexOf(m, b, k))
            <==> a / 4096 == b / 4096
    decreases Levels(m) - i
  {
    if i < Levels(m) {
      SameIndices(m, a, b, i + 1);
      IndexIsLow(m, a, i + 1);
      IndexIsLow(m, b, i + 1);
      if EntryNo(m, a / 4096, i) == EntryNo(m, b / 4096, i) && IndexOf(m, a, i + 1) == IndexOf(m, b, i + 1) {
        EntrySplit(m, EntryNo(m, a / 4096, i + 1), EntryNo(m, b / 4096, i + 1), i + 1);
      }
    }
  }

  lemma TopShift(m: Mmu)
    ensures Pow2(Shift(m, 1)) == (match m case X86_64 => 0x80_0000_0000 case I386 => 0x40_0000)
    ensures Pow2(IndexBits(m, 1)) == (match m case X86_64 => 512 case I386 => 1024)
  {
    Pow2Constants();
    Pow2Add(32, 7); Pow2Add(16, 6); Pow2Add(8, 1); Pow2Add(8, 2);
  }

  /** User addresses start from the single top entry and never through a kernel entry. */
  lemma UserEntries(m: Mmu, addr: nat)
    requires UserStart(m) <= addr < UserEnd(m)
    ensures EntryNo(m, addr / 4096, 0) == 0
    ensures !KernelEntry(m, EntryNo(m, addr / 4096, 1))
  {
    var e := EntryNo(m, addr / 4096, 1);
    ShiftIsEntryNo(m, addr, 1);
    ShrDiv(addr, Shift(m, 1));
    TopShift(m);
    assert match m case X86_64 => e == 32 case I386 => 256 <= e < 512;
    LowSmall(e, IndexBits(m, 1));
  }

  /** The kernel areas of `vm_areas`; the last one ends at the top of a 32-bit address space. */
  predicate IsKernelAddress(m: Mmu, addr: nat) {
    match m
    case X86_64 => addr < 0x0080_0000_0000
    case I386 => addr < 0x4000_0000 || 0xfd00_0000 <= addr < 0x1_0000_0000
  }

  /** The kernel entries are exactly those of the kernel areas. */
  lemma KernelEntries(m: Mmu, addr: nat)
    requires EntryNo(m, addr / 4096, 1) < Pow2(IndexBits(m, 1))
    ensures KernelEntry(m, EntryNo(m, addr / 4096, 1)) <==> IsKernelAddress(m, addr)
  {
    ShiftIsEntryNo(m, addr, 1);
    ShrDiv(addr, Shift(m, 1));
    TopShift(m);
  }

  // ------------------------------------------------------------------ entries

  predicate Present(w: nat) { w % 2 == 1 }

  predicate User(w: nat) { w / 4 % 2 == 1 }

  predicate Writable(w: nat) { w / 2 % 2 == 1 }

  /** The page an entry points to. */
  function Base(w: nat): nat { w - w % 4096 }

  /** `baseof`. */
  function BaseOf(m: Mmu, w: nat): nat {
    And(w, PageMask(m))
  }

  lemma BaseOfIsBase(m: Mmu, w: nat)
    requires w < Pow2(WordBits(m))
    ensures BaseOf(m, w) == Base(w)
  {
    var b := WordBits(m) - Shift(m, Levels(m));
    Pow2Constants();
    Pow2Add(b, Shift(m, Levels(m)));
    assert PageMask(m) == Scale(Pow2(b) - 1, Shift(m, Levels(m))) by {
      ScaleMul(Pow2(b) - 1, Shift(m, Levels(m)));
    }
    AndField(w, b, Shift(m, Levels(m)));
    ShrSmaller(w, Shift(m, Levels(m)), WordBits(m));
    LowSmall(Shr(w, Shift(m, Levels(m))), b);
    Split(w, Shift(m, Levels(m)));
    ShrDiv(w, Shift(m, Levels(m)));
  }

  /** The bit tests of the source. */
  lemma FlagTests(w: nat)
    ensures And(w, PTE_P) != 0 <==> Present(w)
    ensures And(w, PTE_U) != 0 <==> User(w)
  {
    assert And(w, 1) == (if w % 2 == 1 then 1 else 0);
    assert And(w, 4) == 2 * And(w / 2, 2) && And(w / 2, 2) == 2 * And(w / 4, 1);
  }

  lemma FlagsUnder(a: nat, flags: nat)
    requires flags < 4096
    ensures Base(4096 * a + flags) == 4096 * a
    ensures Present(4096 * a + flags) <==> Present(flags)
    ensures User(4096 * a + flags) <==> User(flags)
  {
    BaseUnder(a, flags);
    BitUnder(2048 * a, flags);
    BitUnder(512 * a, flags / 4);
    assert (4096 * a + flags) / 4 == 1024 * a + flags / 4;
  }

  lemma BaseUnder(a: nat, flags: nat)
    requires flags < 4096
    ensures (4096 * a + flags) % 4096 == flags
  {
  }

  lemma BitUnder(half: nat, flags: nat)
    ensures (2 * half + flags) % 2 == flags % 2
  {
  }

  lemma OrFlags(a: nat, flags: nat)
    requires flags < 4096
    ensures Or(4096 * a, flags) == 4096 * a + flags
  {
    var k := Shift(X86_64, 4);
    Pow2Constants();
    ScaleMul(a, k);
    OrDisjoint(a, k, flags);
  }

  /** Or-ing flags into a page address keeps the two apart. */
  lemma EntryParts(base: nat, flags: nat)
    requires base % 4096 == 0 && flags < 4096
    ensures Or(base, flags) == base + flags
    ensures Base(base + flags) == base
    ensures Present(base + flags) <==> Present(flags)
    ensures User(base + flags) <==> User(flags)
  {
    var a := base / 4096;
    FlagsUnder(a, flags);
    OrFlags(a, flags);
  }
}
