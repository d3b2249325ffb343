/** The physical memory allocator (`oslabs/kernel/src/pmm.c`): buddy blocks, page descriptors and
per-CPU slab caches, tied step by step to the runs of `PmmRuns`.

Each method is one atomic step, except `KAlloc` and `KFree`, which are the calls a CPU makes when no
other CPU interleaves.  `live` and `transit` are history variables.
 */
module Pmm {
  import opened Common
  import opened Bits
  import opened BuddyTheory
  import BuddyAllocator
  import opened Sizes
  import opened PmmRuns

  const PAGE_SIZE: nat := 4096
  const DESC_BYTES: nat := 12       // sizeof(page_desc_t)

  function RoundDown(x: nat): (r: nat)
    ensures r % PAGE_SIZE == 0 && r <= x < r + PAGE_SIZE
  {
    x - x % PAGE_SIZE
  }

  /** Where the data region starts: after a descriptor for every page of the heap. */
  function DataStart(heapStart: nat, heapEnd: nat): nat
    requires heapStart <= heapEnd
  {
    RoundDown(heapStart + (heapEnd - heapStart) / PAGE_SIZE * DESC_BYTES + PAGE_SIZE - 1)
  }

  /** The descriptors end before the data region, and the region before the heap does. */
  lemma RegionBounds(heapStart: nat, heapEnd: nat)
    requires heapStart <= heapEnd && DataStart(heapStart, heapEnd) <= RoundDown(heapEnd)
    ensures var start := DataStart(heapStart, heapEnd);
            var total := (RoundDown(heapEnd) - start) / PAGE_SIZE;
            && start % PAGE_SIZE == 0
            && heapStart + total * DESC_BYTES <= start && start + total * PAGE_SIZE <= heapEnd < start + (total + 1) * PAGE_SIZE
            && start < heapStart + (heapEnd - heapStart) / PAGE_SIZE * DESC_BYTES + PAGE_SIZE
  {
    var n, start := (heapEnd - heapStart) / PAGE_SIZE, DataStart(heapStart, heapEnd);
    StartBounds(heapStart, n, start);
    TotalBounds(start, RoundDown(heapEnd), (RoundDown(heapEnd) - start) / PAGE_SIZE);
    assert (RoundDown(heapEnd) - start) / PAGE_SIZE <= n;
  }

  lemma StartBounds(heapStart: nat, n: nat, start: nat)
    requires start == RoundDown(heapStart + n * DESC_BYTES + PAGE_SIZE - 1)
    ensures start % PAGE_SIZE == 0 && heapStart + n * DESC_BYTES <= start < heapStart + n * DESC_BYTES + PAGE_SIZE
  {
  }

  lemma TotalBounds(start: nat, end: nat, total: nat)
    requires start <= end && start % PAGE_SIZE == 0 && end % PAGE_SIZE == 0 && total == (end - start) / PAGE_SIZE
    ensures start + total * PAGE_SIZE == end
  {
  }

  /** The arithmetic of `pmm_init`. */
  method Region(heapStart: nat, heapEnd: nat) returns (start: nat, total: nat)
    requires heapStart <= heapEnd && DataStart(heapStart, heapEnd) <= RoundDown(heapEnd)
    ensures start == DataStart(heapStart, heapEnd) && start % PAGE_SIZE == 0
    ensures heapStart + total * DESC_BYTES <= start && start + total * PAGE_SIZE <= heapEnd < start + (total + 1) * PAGE_SIZE
    ensures start < heapStart + (heapEnd - heapStart) / PAGE_SIZE * DESC_BYTES + PAGE_SIZE
  {
    RegionBounds(heapStart, heapEnd);
    start := DataStart(heapStart, heapEnd);
    total := (RoundDown(heapEnd) - start) / PAGE_SIZE;
  }

  /** `desc_of` of the page boundary at or below `ptr`. */
  function DescIndex(cfg: Config, ptr: nat): (i: nat)
    requires cfg.start <= ptr && cfg.start % PAGE_SIZE == 0
    ensures i == PageOf(cfg, ptr)
  {
    (RoundDown(ptr) - cfg.start) / PAGE_SIZE
  }

  /** When `kalloc` has nothing to give. */
  ghost predicate CannotAlloc(s: State, free: set<nat>, cpu: nat, size: nat) {
    || size == 0
    || (if size <= 2048 then CacheEmpty(s, cpu, ClassOf(size)) && free == {}
        else !exists b: Block :: b.order == OrderOf(size) && Within(b, free))
  }

  predicate CacheEmpty(s: State, cpu: nat, cls: int) {
    cpu < |s.caches| && 0 <= cls < |s.caches[cpu]| && s.caches[cpu][cls] == []
  }

  ghost predicate Steps(cfg: Config, s: State, step: Step, s': State) {
    Shape(cfg, s) && PmmRuns.Next(cfg, s, step, s')
  }

  /** The steps of one `kalloc`: from the own list, after a refill of it, or from the buddy lists. */
  ghost predicate Allocates(cfg: Config, s: State, cpu: nat, size: nat, s': State) {
    if ClassOf(size) < 0 then exists b: Block :: Steps(cfg, s, AllocLarge(size, b, s'.free), s')
    else if !CacheEmpty(s, cpu, ClassOf(size)) then Steps(cfg, s, AllocCached(cpu, size), s')
    else exists page: nat :: RefillsAndPops(cfg, s, cpu, ClassOf(size), size, page, s')
  }

  ghost predicate RefillsAndPops(cfg: Config, s: State, cpu: nat, cls: nat, size: nat, page: nat, s': State) {
    exists mid :: Refills(cfg, s, cpu, cls, page, mid) && Steps(cfg, mid, AllocCached(cpu, size), s')
  }

  /** `slab_refill`, both halves. */
  ghost predicate Refills(cfg: Config, s: State, cpu: nat, cls: nat, page: nat, s': State) {
    exists mid: State :: Steps(cfg, s, PmmRuns.RefillTake(cpu, cls, page, mid.free), mid) && Steps(cfg, mid, PmmRuns.RefillCarve(cpu), s')
  }

  /** Only the lists of one CPU differ. */
  ghost predicate OthersKeep(caches: seq<seq<seq<nat>>>, caches': seq<seq<seq<nat>>>, cpu: nat) {
    |caches'| == |caches| && forall d :: 0 <= d < |caches| && d != cpu ==> caches'[d] == caches[d]
  }

  predicate HasCell(caches: seq<seq<seq<nat>>>, cpu: nat, cls: int) {
    cpu < |caches| && 0 <= cls < |caches[cpu]| && caches[cpu][cls] != []
  }

  /** The step of one `kfree`: what the descriptor of the page says. */
  ghost predicate Frees(cfg: Config, s: State, cpu: nat, ptr: nat, s': State) {
    && cfg.start <= ptr && PageOf(cfg, ptr) < |s.desc|
    && match s.desc[PageOf(cfg, ptr)].kind
       case PgSlab => Steps(cfg, s, FreeCell(cpu, ptr), s')
       case PgBuddy => Steps(cfg, s, FreeLarge(ptr, s'.free), s')
       case PgFree => false
  }

  class Allocator {
    const cfg: Config
    const buddy: BuddyAllocator.Allocator
    var pgtab: seq<Desc>
    var caches: seq<seq<seq<nat>>>
    ghost var transit: map<nat, Transit>
    ghost var live: map<nat, nat>

    ghost function View(): State
      reads this, buddy
    {
      State(buddy.Blocks(), pgtab, caches, transit, live)
    }

    ghost predicate Valid()
      reads this, buddy
    {
      && buddy.Valid() && buddy.start == cfg.start && buddy.total == cfg.total
      && cfg.start % PAGE_SIZE == 0
      && Inv(cfg, View())
    }

    /** `pmm_init`: the descriptors fit below the data region, which is page aligned and free. */
    constructor (heapStart: nat, heapEnd: nat, cpus: nat)
      requires heapStart <= heapEnd && DataStart(heapStart, heapEnd) <= RoundDown(heapEnd)
      ensures Valid() && Init(cfg, View()) && cfg.cpus == cpus
      ensures heapStart + cfg.total * DESC_BYTES <= cfg.start
      ensures cfg.start + cfg.total * PAGE_SIZE <= heapEnd < cfg.start + (cfg.total + 1) * PAGE_SIZE
      ensures cfg.start < heapStart + (heapEnd - heapStart) / PAGE_SIZE * DESC_BYTES + PAGE_SIZE
    {
      var start, total := Region(heapStart, heapEnd);
      var b := new BuddyAllocator.Allocator(start, total);
      cfg := Config(start, total, cpus);
      buddy := b;
      pgtab := seq(total, _ => Desc(PgFree, 0, 0));
      caches := seq(cpus, _ => seq(NCLASS, _ => []));
      transit := map[];
      live := map[];
      new;
      InitInv(cfg, View());
    }

    /** The locked half of `slab_refill`; it fails iff no page is free. */
    method RefillTake(cpu: nat, cls: nat) returns (r: Option<nat>)
      requires Valid() && cpu < cfg.cpus && cls < NCLASS && cpu !in transit
      modifies this`transit, buddy
      ensures Valid()
      ensures r.None? <==> old(buddy.Free()) == {}
      ensures r.None? ==> View() == old(View())
      ensures r.Some? ==> PmmRuns.Next(cfg, old(View()), PmmRuns.RefillTake(cpu, cls, r.value, buddy.Blocks()), View())
      ensures live == old(live) && caches == old(caches) && pgtab == old(pgtab)
      ensures r.Some? ==> transit == old(transit)[cpu := Transit(r.value, cls)]
    {
      NoFreePage(buddy.Free());
      var p := buddy.Alloc(0);
      match p
      case None =>
        return None;
      case Some(addr) =>
        var page := (addr - cfg.start) / PAGE_SIZE;
        PageBlock(cfg.start, addr);
        transit := transit[cpu := Transit(page, cls)];
        StepInv(cfg, old(View()), PmmRuns.RefillTake(cpu, cls, page, buddy.Blocks()), View());
        return Some(page);
    }

    /** The unlocked half of `slab_refill`: describe the page and thread its cells onto the own list. */
    method RefillCarve(cpu: nat, page: nat, cls: nat)
      requires Valid() && cpu in transit && transit[cpu] == Transit(page, cls)
      modifies this`pgtab, this`caches, this`transit
      ensures Valid()
      ensures PmmRuns.Next(cfg, old(View()), PmmRuns.RefillCarve(cpu), View())
      ensures live == old(live) && HasCell(caches, cpu, cls) && transit == old(transit) - {cpu}
      ensures OthersKeep(old(caches), caches, cpu)
    {
      ClassSizes(cls);
      assert cpu < |caches| && |caches[cpu]| == NCLASS;
      var cells := ThreadCells(cfg.start + page * PAGE_SIZE, cls, caches[cpu][cls]);
      pgtab := pgtab[page := pgtab[page].(kind := PgSlab, objSize := CLASS_SIZE[cls])];
      caches := WithList(caches, cpu, cls, cells);
      transit := transit - {cpu};
      StepInv(cfg, old(View()), PmmRuns.RefillCarve(cpu), View());
    }

    /** The slab fast path of `kalloc`. */
    method PopCell(cpu: nat, cls: nat, ghost size: nat) returns (ptr: nat)
      requires Valid() && cpu < cfg.cpus && size > 0 && 0 <= ClassOf(size) == cls < NCLASS && caches[cpu][cls] != []
      modifies this`caches, this`live
      ensures Valid()
      ensures PmmRuns.Next(cfg, old(View()), AllocCached(cpu, size), View())
      ensures ptr !in old(live) && live == old(live)[ptr := size]
      ensures OthersKeep(old(caches), caches, cpu) && ptr == old(caches)[cpu][cls][0]
    {
      ptr := caches[cpu][cls][0];
      assert Holds(View(), Slot(cpu, cls, 0), ptr);
      caches := WithList(caches, cpu, cls, caches[cpu][cls][1..]);
      live := live[ptr := size];
      StepInv(cfg, old(View()), AllocCached(cpu, size), View());
    }

    /** The large path of `kalloc`: fails iff no aligned run of the needed order is free. */
    method AllocBlock(size: nat) returns (r: Option<nat>)
      requires Valid() && ClassOf(size) < 0
      modifies this`pgtab, this`live, buddy
      ensures Valid()
      ensures r.None? ==> View() == old(View())
      ensures r.None? <==> !exists b: Block :: b.order == OrderOf(size) && Within(b, old(buddy.Free()))
      ensures r.Some? ==> live == old(live)[r.value := size] && r.value !in old(live)
      ensures r.Some? ==> cfg.start <= r.value
                          && PmmRuns.Next(cfg, old(View()),
                                          AllocLarge(size, BuddyAllocator.BlockAt(cfg.start, OrderOf(size), r.value), buddy.Blocks()),
                                          View())
    {
      OrderFits(size);
      var order := SizeToOrder(size);
      r := buddy.Alloc(order);
      if r.Some? {
        var ptr := r.value;
        ghost var b := BuddyAllocator.BlockAt(cfg.start, order, ptr);
        AddressPage(cfg, b);
        HasFirst(b);
        assert FirstPage(b) < cfg.total;
        FreshBlock(cfg, old(View()), b);
        var page := (ptr - cfg.start) / PAGE_SIZE;
        pgtab := pgtab[page := pgtab[page].(kind := PgBuddy, order := order)];
        live := live[ptr := size];
        StepInv(cfg, old(View()), AllocLarge(size, b, buddy.Blocks()), View());
      }
    }

    /** `slab_refill` without interleaving. */
    method Refill(cpu: nat, cls: nat) returns (ok: bool, ghost page: nat)
      requires Valid() && cpu < cfg.cpus && cpu !in transit && cls < NCLASS
      modifies this, buddy
      ensures Valid() && transit == old(transit) && live == old(live) && ok == (old(buddy.Free()) != {})
      ensures if ok then Refills(cfg, old(View()), cpu, cls, page, View()) else View() == old(View())
      ensures OthersKeep(old(caches), caches, cpu) && (ok ==> HasCell(caches, cpu, cls))
    {
      var p := RefillTake(cpu, cls);
      ok, page := p.Some?, 0;
      if ok {
        page := p.value;
        ghost var mid := View();
        RefillCarve(cpu, p.value, cls);
        assert Steps(cfg, mid, PmmRuns.RefillCarve(cpu), View());
      }
    }

    /** The slab path of `kalloc` when the own list is empty. */
    method RefillAndPop(cpu: nat, cls: nat, ghost size: nat) returns (r: Option<nat>)
      requires Valid() && cpu < cfg.cpus && cpu !in transit && size > 0 && 0 <= ClassOf(size) == cls < NCLASS
      modifies this, buddy
      ensures Valid() && transit == old(transit)
      ensures r.None? <==> old(buddy.Free()) == {}
      ensures r.None? ==> View() == old(View())
      ensures r.Some? ==> r.value !in old(live) && live == old(live)[r.value := size]
      ensures r.Some? ==> exists page: nat :: RefillsAndPops(cfg, old(View()), cpu, cls, size, page, View())
      ensures OthersKeep(old(caches), caches, cpu)
    {
      var ok;
      ghost var page;
      ok, page := Refill(cpu, cls);
      if !ok {
        return None;
      }
      ghost var mid := View();
      var ptr := PopCell(cpu, cls, size);
      assert Steps(cfg, mid, AllocCached(cpu, size), View());
      assert RefillsAndPops(cfg, old(View()), cpu, cls, size, page, View());
      r := Some(ptr);
    }

    /** `kalloc` on one CPU, without interleaving: by the steps of the runs, a fresh pointer, live with the
        size asked for; NULL iff the size is 0, or the CPU's list is empty and no page is free, or the buddy
        allocator has nothing that large. */
    method KAlloc(cpu: nat, size: nat) returns (r: Option<nat>)
      requires Valid() && cpu < cfg.cpus && cpu !in transit && size <= W63
      modifies this, buddy
      ensures Valid() && transit == old(transit)
      ensures r.None? <==> CannotAlloc(old(View()), old(buddy.Free()), cpu, size)
      ensures r.None? ==> View() == old(View())
      ensures r.Some? ==> r.value !in old(live) && live == old(live)[r.value := size]
      ensures r.Some? ==> Allocates(cfg, old(View()), cpu, size, View())
      ensures OthersKeep(old(caches), caches, cpu)
      ensures HasCell(old(caches), cpu, ClassOf(size)) && size > 0 ==> r == Some(old(caches)[cpu][ClassOf(size)][0])
    {
      if size == 0 {
        return None;
      }
      ClassExists(size);
      var cls := SizeToClass(size);
      if cls >= 0 {
        ClassFits(size);
        if caches[cpu][cls] == [] {
          r := RefillAndPop(cpu, cls, size);
          return;
        }
        var ptr := PopCell(cpu, cls, size);
        return Some(ptr);
      }
      r := AllocBlock(size);
    }

    /** `kfree` of a cell: onto the list of the freeing CPU. */
    method FreeToSlab(cpu: nat, ptr: nat)
      requires Valid() && cpu < cfg.cpus && ptr in live && cfg.start <= ptr
      requires PageOf(cfg, ptr) < |pgtab| && pgtab[PageOf(cfg, ptr)].kind == PgSlab
      modifies this`caches, this`live
      ensures Valid() && live == old(live) - {ptr}
      ensures PmmRuns.Next(cfg, old(View()), FreeCell(cpu, ptr), View())
      ensures OthersKeep(old(caches), caches, cpu)
      ensures cpu < |caches| && HeadIs(caches[cpu], ClassOf(old(live)[ptr]), ptr)
    {
      FreedCell(cfg, View(), ptr);
      CellSizeBound(cfg, View(), ptr);
      var cls := SizeToClass(pgtab[PageOf(cfg, ptr)].objSize);
      ClassFits(live[ptr]);
      caches := WithList(caches, cpu, cls, [ptr] + caches[cpu][cls]);
      live := live - {ptr};
      StepInv(cfg, old(View()), FreeCell(cpu, ptr), View());
    }

    /** `kfree` of a block: back to the buddy allocator, with the recorded order. */
    method FreeToBuddy(ptr: nat)
      requires Valid() && ptr in live && cfg.start <= ptr
      requires PageOf(cfg, ptr) < |pgtab| && pgtab[PageOf(cfg, ptr)].kind == PgBuddy
      modifies this`pgtab, this`live, buddy
      ensures Valid() && live == old(live) - {ptr}
      ensures PmmRuns.Next(cfg, old(View()), FreeLarge(ptr, buddy.Blocks()), View())
    {
      var idx := PageOf(cfg, ptr);
      FreedBlock(cfg, View(), ptr);
      LiveNotFree(cfg, View(), BuddyAllocator.BlockAt(cfg.start, pgtab[idx].order, ptr));
      pgtab := pgtab[idx := pgtab[idx].(kind := PgFree)];
      buddy.Release(pgtab[idx].order, ptr);
      live := live - {ptr};
      StepInv(cfg, old(View()), FreeLarge(ptr, buddy.Blocks()), View());
    }

    /** `kfree` of a live pointer, or of NULL, from any CPU. */
    method KFree(cpu: nat, ptr: Option<nat>)
      requires Valid() && cpu < cfg.cpus && (ptr.Some? ==> ptr.value in live)
      modifies this, buddy
      ensures Valid() && transit == old(transit)
      ensures ptr.None? ==> View() == old(View())
      ensures ptr.Some? ==> live == old(live) - {ptr.value}
      ensures ptr.Some? ==> Frees(cfg, old(View()), cpu, ptr.value, View())
      ensures OthersKeep(old(caches), caches, cpu)
      ensures ptr.Some? && ClassOf(old(live)[ptr.value]) >= 0 ==>
                cpu < |caches| && HeadIs(caches[cpu], ClassOf(old(live)[ptr.value]), ptr.value)
    {
      if ptr.Some? {
        LivePage(cfg, View(), ptr.value);
        var idx := DescIndex(cfg, ptr.value);
        if pgtab[idx].kind == PgSlab {
          FreeToSlab(cpu, ptr.value);
        } else if pgtab[idx].kind == PgBuddy {
          FreeToBuddy(ptr.value);
        }
      }
    }
  }

  /** A cell freed on a CPU is what the next `kalloc` of that class returns there. */
  method FreeThenAlloc(m: Allocator, cpu: nat, ptr: nat, size: nat) returns (r: Option<nat>)
    requires m.Valid() && cpu < m.cfg.cpus && cpu !in m.transit && ptr in m.live
    requires 0 < size <= 2048 && ClassOf(size) == ClassOf(m.live[ptr])
    modifies m, m.buddy
    ensures m.Valid() && r == Some(ptr)
  {
    ClassExists(size);
    Pow2Constants();
    m.KFree(cpu, Some(ptr));
    r := m.KAlloc(cpu, size);
  }

  /** The loop of `slab_refill`: the cells of the page end up in front of the list, the last one first. */
  method ThreadCells(base: nat, cls: nat, list: seq<nat>) returns (cells: seq<nat>)
    requires cls < NCLASS
    ensures cells == Carved(base, cls) + list
  {
    var cell := CLASS_SIZE[cls];
    ClassSizes(cls);
    var n := PAGE_SIZE / cell;
    CellCount(cls);
    cells := list;
    ghost var all := Carved(base, cls);
    for i := 0 to n
      invariant n == Pow2(9 - cls) == |all|
      invariant cells == all[n - i..] + list
    {
      CellAddress(base, cls, i);
      assert all[n - 1 - i..] == [all[n - 1 - i]] + all[n - i..];
      cells := [base + i * cell] + cells;
    }
    assert all[0..] == all;
  }

  lemma CellSizeBound(cfg: Config, s: State, ptr: nat)
    requires Inv(cfg, s) && ptr in s.live && LiveCell(cfg, s, ptr)
    ensures s.desc[PageOf(cfg, ptr)].objSize <= W63
  {
    Pow2Constants();
    ClassFits(s.live[ptr]);
    Pow2Mono(ClassOf(s.live[ptr]) + 3, 63);
  }

  lemma NoFreePage(free: set<nat>)
    ensures free != {} <==> exists b: Block :: b.order == 0 && Within(b, free)
  {
    forall b: Block | b.order == 0 && Within(b, free) ensures free != {} {
      assert Has(b, b.index);
    }
    if free != {} {
      var x :| x in free;
      assert Within(Block(0, x), free);
    }
  }

  lemma PageBlock(start: nat, addr: nat)
    requires BuddyAllocator.IsBlockAddress(start, 0, addr)
    ensures BuddyAllocator.BlockAt(start, 0, addr) == Block(0, (addr - start) / PAGE_SIZE)
  {
    ShrPage(addr - start);
  }

  lemma CellCount(cls: nat)
    requires cls < NCLASS
    ensures PAGE_SIZE / CLASS_SIZE[cls] == Pow2(9 - cls)
  {
    SmallLogs();
  }

  lemma CellAddress(base: nat, cls: nat, i: nat)
    requires cls < NCLASS && i < Pow2(9 - cls)
    ensures Carved(base, cls)[Pow2(9 - cls) - 1 - i] == base + i * CLASS_SIZE[cls]
  {
    ClassSizes(cls);
    ScaleMul(i, cls + 3);
  }

  /** A block just taken from the free pages was not live. */
  lemma FreshBlock(cfg: Config, s: State, b: Block)
    requires Inv(cfg, s) && FirstPage(b) in FreePages(s.free, cfg.total)
    ensures BuddyAllocator.Address(cfg.start, b) !in s.live
  {
    var a := BuddyAllocator.Address(cfg.start, b);
    FreeDescriptor(cfg, s, FirstPage(b));
    AddressPage(cfg, b);
    if a in s.live && LiveLarge(cfg, s, a) {
      AddressPage(cfg, BuddyAllocator.BlockAt(cfg.start, OrderOf(s.live[a]), a));
    }
  }

  /** The page of a live pointer is described as slab or as start of a block. */
  lemma LivePage(cfg: Config, s: State, a: nat)
    requires Inv(cfg, s) && a in s.live
    ensures cfg.start <= a && PageOf(cfg, a) < |s.desc| && s.desc[PageOf(cfg, a)].kind != PgFree
  {
    if LiveLarge(cfg, s, a) {
      AddressPage(cfg, BuddyAllocator.BlockAt(cfg.start, OrderOf(s.live[a]), a));
    }
  }

  lemma LiveNotFree(cfg: Config, s: State, b: Block)
    requires Inv(cfg, s) && LiveBlock(s, b)
    ensures Pages(b) !! FreePages(s.free, cfg.total)
    ensures InRegion(b, cfg.total)
  {
    TiledSplit(cfg, s);
    forall x | x in Pages(b) ensures x !in FreePages(s.free, cfg.total) {
      HasPages(b, x);
      assert Uses(s, InBlock(b), x);
    }
  }
}
