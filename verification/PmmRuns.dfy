/** Runs of the physical memory allocator over any number of CPUs (`oslabs/kernel/src/pmm.c`).

A step is a section under `buddy_lock`, or work on the running CPU's own slab lists.  `slab_refill`
is two steps: the locked take of a page, and the unlocked carving of it.  `live` remembers the size
asked for at every pointer handed out and not yet freed.
 */
module PmmRuns {
  import opened Common
  import opened Bits
  import opened BuddyTheory
  import opened BuddyAllocator
  import opened Sizes

  datatype Kind = PgFree | PgBuddy | PgSlab

  datatype Desc = Desc(kind: Kind, order: nat, objSize: nat)

  /** A page taken by `slab_refill` for class `cls` and not carved yet. */
  datatype Transit = Transit(page: nat, cls: nat)

  datatype Config = Config(start: nat, total: nat, cpus: nat)

  datatype State = State(
    free: set<Block>,               // the buddy lists
    desc: seq<Desc>,                // pgtab
    caches: seq<seq<seq<nat>>>,     // per CPU and class, cell addresses
    transit: map<nat, Transit>,     // per CPU
    live: map<nat, nat>)

  /** The page number of an address, as `desc_of` computes it. */
  function PageOf(cfg: Config, a: nat): nat
    requires cfg.start <= a
  {
    (a - cfg.start) / PAGE_SIZE
  }

  // ------------------------------------------------------------------ who owns a page

  /** A block handed out by the buddy allocator, as its first descriptor records it. */
  predicate LiveBlock(s: State, b: Block) {
    && b.order <= MAX_ORDER
    && FirstPage(b) < |s.desc|
    && s.desc[FirstPage(b)].kind == PgBuddy
    && s.desc[FirstPage(b)].order == b.order
  }

  datatype Owner = InFree(block: Block) | InBlock(block: Block) | InSlab | InTransit(cpu: nat)

  predicate Owns(s: State, o: Owner, x: nat) {
    match o
    case InFree(b) => b in s.free && Has(b, x)
    case InBlock(b) => LiveBlock(s, b) && Has(b, x)
    case InSlab => x < |s.desc| && s.desc[x].kind == PgSlab
    case InTransit(c) => c in s.transit && s.transit[c].page == x
  }

  ghost predicate Owned(s: State, x: nat) {
    exists o :: Owns(s, o, x)
  }

  /** Free blocks, live blocks, slab pages and pages in transit tile the region: every page has
      exactly one owner. */
  ghost predicate Tiled(cfg: Config, s: State) {
    && (forall x: nat :: x < cfg.total ==> Owned(s, x))
    && (forall x: nat, o, o' :: Owns(s, o, x) && Owns(s, o', x) ==> o == o')
  }

  // ------------------------------------------------------------------ who owns a cell

  /** The cells of class `cls` lie on pages described as slabs of that class. */
  predicate IsCell(cfg: Config, s: State, cls: nat, a: nat) {
    && cls < NCLASS
    && cfg.start <= a
    && PageOf(cfg, a) < |s.desc|
    && s.desc[PageOf(cfg, a)].kind == PgSlab
    && s.desc[PageOf(cfg, a)].objSize == Pow2(cls + 3)
    && Low(a - cfg.start, cls + 3) == 0
  }

  datatype Slot = Slot(cpu: nat, cls: nat, pos: nat)

  predicate Holds(s: State, l: Slot, a: nat) {
    && l.cpu < |s.caches| && l.cls < |s.caches[l.cpu]| && l.pos < |s.caches[l.cpu][l.cls]|
    && s.caches[l.cpu][l.cls][l.pos] == a
  }

  /** Every cell is live or on exactly one list, at one position, of its class. */
  ghost predicate CellsOwned(cfg: Config, s: State) {
    && (forall l, a :: Holds(s, l, a) ==> IsCell(cfg, s, l.cls, a) && a !in s.live)
    && (forall l, l', a :: Holds(s, l, a) && Holds(s, l', a) ==> l == l')
    && (forall cls, a :: IsCell(cfg, s, cls, a) && a !in s.live ==> exists l :: Holds(s, l, a))
  }

  // ------------------------------------------------------------------ descriptors and live pointers

  predicate LiveCell(cfg: Config, s: State, a: nat)
    requires a in s.live
  {
    ClassOf(s.live[a]) >= 0 && IsCell(cfg, s, ClassOf(s.live[a]), a)
  }

  predicate LiveLarge(cfg: Config, s: State, a: nat)
    requires a in s.live
  {
    && ClassOf(s.live[a]) < 0
    && IsBlockAddress(cfg.start, OrderOf(s.live[a]), a)
    && LiveBlock(s, BlockAt(cfg.start, OrderOf(s.live[a]), a))
  }

  ghost predicate Described(cfg: Config, s: State) {
    && (forall a :: a in s.live ==> LiveCell(cfg, s, a) || LiveLarge(cfg, s, a))
    && (forall b :: LiveBlock(s, b) ==> InRegion(b, cfg.total) && Address(cfg.start, b) in s.live)
    && (forall h: nat :: h < |s.desc| && s.desc[h].kind == PgBuddy ==>
          LiveBlock(s, Block(s.desc[h].order, Shr(h, s.desc[h].order))) && Low(h, s.desc[h].order) == 0)
  }

  ghost predicate Shape(cfg: Config, s: State) {
    && Coalesced(s.free, cfg.total)
    && |s.desc| == cfg.total
    && |s.caches| == cfg.cpus
    && (forall c :: 0 <= c < cfg.cpus ==> |s.caches[c]| == NCLASS)
    && (forall c :: c in s.transit ==> c < cfg.cpus && s.transit[c].page < cfg.total && s.transit[c].cls < NCLASS)
  }

  ghost predicate Inv(cfg: Config, s: State) {
    Shape(cfg, s) && Tiled(cfg, s) && CellsOwned(cfg, s) && Described(cfg, s)
  }

  // ------------------------------------------------------------------ steps

  /** The cells of a page in the order in which `slab_refill` leaves them: the last one first. */
  function Carved(base: nat, cls: nat): (cells: seq<nat>)
    requires cls < NCLASS
  {
    seq(Pow2(9 - cls), i requires 0 <= i < Pow2(9 - cls) => base + Scale(Pow2(9 - cls) - 1 - i, cls + 3))
  }

  /** The buddy lists before and after taking `b`. */
  ghost predicate Taken(free: set<Block>, free': set<Block>, n: nat, b: Block) {
    && Coalesced(free', n)
    && InRegion(b, n)
    && Pages(b) <= FreePages(free, n)
    && FreePages(free', n) == FreePages(free, n) - Pages(b)
  }

  datatype Step =
    | AllocCached(cpu: nat, size: nat)
    | RefillTake(cpu: nat, cls: nat, page: nat, free': set<Block>)
    | RefillCarve(cpu: nat)
    | AllocLarge(size: nat, block: Block, free': set<Block>)
    | FreeCell(cpu: nat, ptr: nat)
    | FreeLarge(ptr: nat, free': set<Block>)

  /** The running CPU's list of one class replaced. */
  function WithList(caches: seq<seq<seq<nat>>>, cpu: nat, cls: nat, cells: seq<nat>): seq<seq<seq<nat>>>
    requires cpu < |caches| && cls < |caches[cpu]|
  {
    caches[cpu := caches[cpu][cls := cells]]
  }

  /** The class recorded for the page of `ptr`, as `kfree` computes it. */
  function ClassAt(cfg: Config, s: State, ptr: nat): int
    requires cfg.start <= ptr && PageOf(cfg, ptr) < |s.desc|
  {
    ClassOf(s.desc[PageOf(cfg, ptr)].objSize)
  }

  ghost predicate Next(cfg: Config, s: State, step: Step, s': State)
    requires Shape(cfg, s)
  {
    match step
    case AllocCached(cpu, size) =>
      var cls := ClassOf(size);
      && size > 0 && cpu < cfg.cpus && 0 <= cls < NCLASS && s.caches[cpu][cls] != []
      && var a := s.caches[cpu][cls][0];
         s' == s.(caches := WithList(s.caches, cpu, cls, s.caches[cpu][cls][1..]), live := s.live[a := size])
    case RefillTake(cpu, cls, page, free') =>
      && cpu < cfg.cpus && cls < NCLASS && cpu !in s.transit
      && Taken(s.free, free', cfg.total, Block(0, page))
      && s' == s.(free := free', transit := s.transit[cpu := Transit(page, cls)])
    case RefillCarve(cpu) =>
      && cpu in s.transit
      && var t := s.transit[cpu];
         s' == s.(desc := s.desc[t.page := s.desc[t.page].(kind := PgSlab, objSize := CLASS_SIZE[t.cls])],
                  caches := WithList(s.caches, cpu, t.cls,
                                     Carved(cfg.start + t.page * PAGE_SIZE, t.cls) + s.caches[cpu][t.cls]),
                  transit := s.transit - {cpu})
    case AllocLarge(size, b, free') =>
      && ClassOf(size) < 0 && b.order == OrderOf(size)
      && Taken(s.free, free', cfg.total, b) && FirstPage(b) < |s.desc|
      && s' == s.(free := free',
                  desc := s.desc[FirstPage(b) := s.desc[FirstPage(b)].(kind := PgBuddy, order := b.order)],
                  live := s.live[Address(cfg.start, b) := size])
    case FreeCell(cpu, ptr) =>
      && cpu < cfg.cpus && ptr in s.live && cfg.start <= ptr
      && PageOf(cfg, ptr) < |s.desc|
      && s.desc[PageOf(cfg, ptr)].kind == PgSlab
      && var cls := ClassAt(cfg, s, ptr);
         && 0 <= cls < NCLASS
         && s' == s.(caches := WithList(s.caches, cpu, cls, [ptr] + s.caches[cpu][cls]), live := s.live - {ptr})
    case FreeLarge(ptr, free') =>
      && ptr in s.live && cfg.start <= ptr
      && var h := PageOf(cfg, ptr);
         && h < |s.desc| && s.desc[h].kind == PgBuddy
         && var b := BlockAt(cfg.start, s.desc[h].order, ptr);
            && Coalesced(free', cfg.total)
            && FreePages(free', cfg.total) == FreePages(s.free, cfg.total) + Pages(b)
            && s' == s.(free := free', desc := s.desc[h := s.desc[h].(kind := PgFree)], live := s.live - {ptr})
  }

  /** The CPU that makes a step on its own lists; the others are steps under `buddy_lock` alone. */
  function Maker(step: Step): Option<nat> {
    match step
    case AllocCached(cpu, _) => Some(cpu)
    case RefillTake(cpu, _, _, _) => Some(cpu)
    case RefillCarve(cpu) => Some(cpu)
    case FreeCell(cpu, _) => Some(cpu)
    case _ => None
  }

  /** No CPU touches the slab lists of another, which therefore need no lock. */
  lemma OwnListsOnly(cfg: Config, s: State, step: Step, s': State, d: nat)
    requires Shape(cfg, s) && Next(cfg, s, step, s') && d < cfg.cpus && Maker(step) != Some(d)
    ensures d < |s'.caches| && s'.caches[d] == s.caches[d]
    ensures (d in s'.transit <==> d in s.transit) && (d in s.transit ==> s'.transit[d] == s.transit[d])
  {
  }

  ghost predicate Init(cfg: Config, s: State) {
    && Coalesced(s.free, cfg.total) && FreePages(s.free, cfg.total) == AllPages(cfg.total)
    && |s.desc| == cfg.total && (forall x :: 0 <= x < cfg.total ==> s.desc[x].kind == PgFree)
    && |s.caches| == cfg.cpus
    && (forall c :: 0 <= c < cfg.cpus ==> |s.caches[c]| == NCLASS && forall k :: 0 <= k < NCLASS ==> s.caches[c][k] == [])
    && s.transit == map[] && s.live == map[]
  }

  lemma InitInv(cfg: Config, s: State)
    requires Init(cfg, s)
    ensures Inv(cfg, s)
  {
    assert forall b :: !LiveBlock(s, b);
    forall x: nat | x < cfg.total ensures Owned(s, x) {
      FreeHasOwner(cfg, s, x);
    }
    assert forall l, a :: !Holds(s, l, a);
    assert forall cls, a :: !IsCell(cfg, s, cls, a);
    assert Tiled(cfg, s);
    assert CellsOwned(cfg, s);
    assert Described(cfg, s);
  }

  lemma FreeHasOwner(cfg: Config, s: State, x: nat)
    requires x in FreePages(s.free, cfg.total)
    ensures Owned(s, x)
  {
    var b :| b in s.free && Has(b, x);
    assert Owns(s, InFree(b), x);
  }

  // ------------------------------------------------------------------ tiling

  /** Owners other than the free lists. */
  predicate Uses(s: State, o: Owner, x: nat) {
    !o.InFree? && Owns(s, o, x)
  }

  ghost predicate Used(s: State, x: nat) {
    exists o :: Uses(s, o, x)
  }

  /** The tiling with the free pages as a set. */
  ghost predicate TiledAround(s: State, n: nat, pages: set<nat>) {
    && (forall x: nat :: x < n && x !in pages ==> Used(s, x))
    && (forall x: nat, o :: Uses(s, o, x) ==> x !in pages)
    && (forall x: nat, o, o' :: Uses(s, o, x) && Uses(s, o', x) ==> o == o')
  }

  lemma CoveredIsFreePage(blocks: set<Block>, n: nat, b: Block, x: nat)
    requires Coalesced(blocks, n) && b in blocks && Has(b, x)
    ensures x in FreePages(blocks, n)
  {
    assert InRegion(b, n);
  }

  lemma TiledSplit(cfg: Config, s: State)
    requires Coalesced(s.free, cfg.total)
    ensures Tiled(cfg, s) <==> TiledAround(s, cfg.total, FreePages(s.free, cfg.total))
  {
    var pages := FreePages(s.free, cfg.total);
    forall x: nat, o | Owns(s, o, x) && o.InFree? ensures x in pages {
      CoveredIsFreePage(s.free, cfg.total, o.block, x);
    }
    if Tiled(cfg, s) {
      forall x: nat | x < cfg.total && x !in pages ensures Used(s, x) {
        assert Owned(s, x);
        var o :| Owns(s, o, x);
        assert Uses(s, o, x);
      }
      forall x: nat, o | Uses(s, o, x) ensures x !in pages {
        if x in pages {
          var b :| b in s.free && Has(b, x);
          assert Owns(s, InFree(b), x);
        }
      }
    }
    if TiledAround(s, cfg.total, pages) {
      forall x: nat | x < cfg.total ensures Owned(s, x) {
        if x in pages {
          FreeHasOwner(cfg, s, x);
        } else {
          assert Used(s, x);
          var o :| Uses(s, o, x);
        }
      }
      forall x: nat, o, o' | Owns(s, o, x) && Owns(s, o', x) ensures o == o' {
        assert Uses(s, o, x) || o.InFree?;
        assert Uses(s, o', x) || o'.InFree?;
      }
    }
  }

  /** A block leaves the free lists and gets `owner`. */
  lemma TileTake(cfg: Config, s: State, s': State, b: Block, owner: Owner)
    requires Shape(cfg, s) && Tiled(cfg, s) && Taken(s.free, s'.free, cfg.total, b)
    requires forall x: nat, o :: Uses(s', o, x) <==> Uses(s, o, x) || (o == owner && Has(b, x))
    ensures Tiled(cfg, s')
  {
    var pages, pages' := FreePages(s.free, cfg.total), FreePages(s'.free, cfg.total);
    TiledSplit(cfg, s);
    forall x: nat ensures Has(b, x) <==> x in Pages(b) {
      HasPages(b, x);
    }
    forall x: nat | x < cfg.total && x !in pages' ensures Used(s', x) {
      if x in pages {
        assert Uses(s', owner, x);
      } else {
        assert Used(s, x);
        var o :| Uses(s, o, x);
        assert Uses(s', o, x);
      }
    }
    assert TiledAround(s', cfg.total, pages');
    TiledSplit(cfg, s');
  }

  /** The pages of `b` lose `owner` and become free. */
  lemma TileGive(cfg: Config, s: State, s': State, b: Block, owner: Owner)
    requires Shape(cfg, s) && Tiled(cfg, s) && Coalesced(s'.free, cfg.total)
    requires FreePages(s'.free, cfg.total) == FreePages(s.free, cfg.total) + Pages(b)
    requires forall x: nat :: Has(b, x) ==> Uses(s, owner, x)
    requires forall x: nat, o :: Uses(s', o, x) <==> Uses(s, o, x) && o != owner
    requires forall x: nat :: Uses(s, owner, x) ==> Has(b, x)
    ensures Tiled(cfg, s')
  {
    var pages, pages' := FreePages(s.free, cfg.total), FreePages(s'.free, cfg.total);
    TiledSplit(cfg, s);
    forall x: nat ensures Has(b, x) <==> x in Pages(b) {
      HasPages(b, x);
    }
    forall x: nat | x < cfg.total && x !in pages' ensures Used(s', x) {
      assert Used(s, x);
      var o :| Uses(s, o, x);
      assert Uses(s', o, x);
    }
    assert TiledAround(s', cfg.total, pages');
    TiledSplit(cfg, s');
  }

  // ------------------------------------------------------------------ the buddy steps

  /** Slab descriptors are the same, so are the cells. */
  lemma SameCells(cfg: Config, s: State, s': State)
    requires |s.desc| == |s'.desc|
    requires forall x :: 0 <= x < |s.desc| && (s.desc[x].kind == PgSlab || s'.desc[x].kind == PgSlab) ==> s.desc[x] == s'.desc[x]
    ensures forall cls, a :: IsCell(cfg, s, cls, a) <==> IsCell(cfg, s', cls, a)
  {
  }

  /** A page that is free in the tiling is described as neither slab nor start of a block. */
  lemma FreeDescriptor(cfg: Config, s: State, x: nat)
    requires Shape(cfg, s) && Tiled(cfg, s) && Described(cfg, s) && x in FreePages(s.free, cfg.total)
    ensures s.desc[x].kind == PgFree
  {
    TiledSplit(cfg, s);
    assert !Uses(s, InSlab, x);
    if s.desc[x].kind == PgBuddy {
      HeadOfLiveBlock(cfg, s, x);
    }
  }

  lemma LargeTiled(cfg: Config, s: State, s': State, b: Block)
    requires Shape(cfg, s) && Tiled(cfg, s) && Taken(s.free, s'.free, cfg.total, b)
    requires FirstPage(b) < |s.desc| && s.desc[FirstPage(b)].kind == PgFree
    requires s'.desc == s.desc[FirstPage(b) := s.desc[FirstPage(b)].(kind := PgBuddy, order := b.order)]
    requires s'.transit == s.transit
    ensures Tiled(cfg, s')
    ensures forall c :: LiveBlock(s', c) <==> LiveBlock(s, c) || c == b
  {
    var h := FirstPage(b);
    forall c ensures LiveBlock(s', c) <==> LiveBlock(s, c) || c == b {
      if c.order == b.order && FirstPage(c) == h {
        SameFirstPage(b, c);
      }
    }
    assert forall x: nat, o :: Uses(s', o, x) <==> Uses(s, o, x) || (o == InBlock(b) && Has(b, x));
    TileTake(cfg, s, s', b, InBlock(b));
  }

  lemma SameFirstPage(b: Block, c: Block)
    requires b.order == c.order && FirstPage(b) == FirstPage(c)
    ensures b == c
  {
    HasFirst(b);
    HasFirst(c);
  }

  /** A page described as the start of a buddy block is used by it. */
  lemma HeadOfLiveBlock(cfg: Config, s: State, h: nat)
    requires Described(cfg, s) && h < |s.desc| && s.desc[h].kind == PgBuddy
    ensures var b := Block(s.desc[h].order, Shr(h, s.desc[h].order));
            LiveBlock(s, b) && FirstPage(b) == h && Uses(s, InBlock(b), h)
  {
    var k := s.desc[h].order;
    Split(h, k);
  }

  /** The address of a block lies on its first page. */
  lemma AddressPage(cfg: Config, b: Block)
    ensures PageOf(cfg, Address(cfg.start, b)) == FirstPage(b)
  {
    ScaleScale(b.index, b.order, PAGE_SHIFT);
    Pow2Constants();
    ScaleMul(FirstPage(b), PAGE_SHIFT);
  }

  lemma AllocLargeInv(cfg: Config, s: State, size: nat, b: Block, free': set<Block>, s': State)
    requires Inv(cfg, s) && Next(cfg, s, AllocLarge(size, b, free'), s')
    ensures Inv(cfg, s')
  {
    HasFirst(b);
    HasPages(b, FirstPage(b));
    FreeDescriptor(cfg, s, FirstPage(b));
    LargeTiled(cfg, s, s', b);
    AddressPage(cfg, b);
    AddressOfBlock(cfg.start, b);
    SameCells(cfg, s, s');
    LiveChange(cfg, s, s', Address(cfg.start, b));
    DescribedHeads(cfg, s, s', b);
    forall c | c in s'.live ensures LiveCell(cfg, s', c) || LiveLarge(cfg, s', c) {
      assert c != Address(cfg.start, b) ==> c in s.live;
    }
  }

  /** Cells stay owned when the liveness of an address that is no cell changes. */
  lemma LiveChange(cfg: Config, s: State, s': State, a: nat)
    requires CellsOwned(cfg, s) && s'.caches == s.caches
    requires forall cls, c :: IsCell(cfg, s, cls, c) <==> IsCell(cfg, s', cls, c)
    requires forall cls :: !IsCell(cfg, s, cls, a)
    requires forall c :: c != a ==> (c in s.live <==> c in s'.live)
    ensures CellsOwned(cfg, s')
  {
    assert forall l, c :: Holds(s', l, c) <==> Holds(s, l, c);
  }

  lemma DescribedHeads(cfg: Config, s: State, s': State, b: Block)
    requires Described(cfg, s) && FirstPage(b) < |s.desc| && b.order <= MAX_ORDER
    requires s'.desc == s.desc[FirstPage(b) := s.desc[FirstPage(b)].(kind := PgBuddy, order := b.order)]
    ensures forall h: nat :: h < |s'.desc| && s'.desc[h].kind == PgBuddy ==>
              LiveBlock(s', Block(s'.desc[h].order, Shr(h, s'.desc[h].order))) && Low(h, s'.desc[h].order) == 0
  {
    HasFirst(b);
    ShrScale(b.index, b.order, 0);
    forall h: nat | h < |s'.desc| && s'.desc[h].kind == PgBuddy
      ensures LiveBlock(s', Block(s'.desc[h].order, Shr(h, s'.desc[h].order))) && Low(h, s'.desc[h].order) == 0
    {
      if h != FirstPage(b) {
        HeadOfLiveBlock(cfg, s, h);
      }
    }
  }

  /** The pointer given to `kfree` on a buddy page is the address of the block described there. */
  lemma FreedBlock(cfg: Config, s: State, ptr: nat)
    requires Inv(cfg, s) && ptr in s.live && cfg.start <= ptr
    requires PageOf(cfg, ptr) < |s.desc| && s.desc[PageOf(cfg, ptr)].kind == PgBuddy
    ensures var h := PageOf(cfg, ptr);
            var b := BlockAt(cfg.start, s.desc[h].order, ptr);
            LiveBlock(s, b) && FirstPage(b) == h && Address(cfg.start, b) == ptr
  {
    assert !LiveCell(cfg, s, ptr);
    assert LiveLarge(cfg, s, ptr);
    AddressPage(cfg, BlockAt(cfg.start, OrderOf(s.live[ptr]), ptr));
  }

  lemma FreeLargeInv(cfg: Config, s: State, ptr: nat, free': set<Block>, s': State)
    requires Inv(cfg, s) && Next(cfg, s, FreeLarge(ptr, free'), s')
    ensures Inv(cfg, s')
  {
    var h := PageOf(cfg, ptr);
    var b := BlockAt(cfg.start, s.desc[h].order, ptr);
    FreedBlock(cfg, s, ptr);
    FreeLargeTiled(cfg, s, s', b);
    SameCells(cfg, s, s');
    LiveChange(cfg, s, s', ptr);
    FreedDescribed(cfg, s, s', ptr, b);
  }

  lemma FreeLargeTiled(cfg: Config, s: State, s': State, b: Block)
    requires Shape(cfg, s) && Tiled(cfg, s) && LiveBlock(s, b)
    requires s'.desc == s.desc[FirstPage(b) := s.desc[FirstPage(b)].(kind := PgFree)] && s'.transit == s.transit
    requires Coalesced(s'.free, cfg.total)
    requires FreePages(s'.free, cfg.total) == FreePages(s.free, cfg.total) + Pages(b)
    ensures Tiled(cfg, s')
    ensures forall c :: LiveBlock(s', c) <==> LiveBlock(s, c) && c != b
  {
    forall c ensures LiveBlock(s', c) <==> LiveBlock(s, c) && c != b {
      if LiveBlock(s, c) && FirstPage(c) == FirstPage(b) {
        SameFirstPage(b, c);
      }
    }
    assert forall x: nat, o :: Uses(s', o, x) <==> Uses(s, o, x) && o != InBlock(b);
    TileGive(cfg, s, s', b, InBlock(b));
  }

  lemma FreedDescribed(cfg: Config, s: State, s': State, ptr: nat, b: Block)
    requires Described(cfg, s) && LiveBlock(s, b) && Address(cfg.start, b) == ptr
    requires s'.live == s.live - {ptr}
    requires s'.desc == s.desc[FirstPage(b) := s.desc[FirstPage(b)].(kind := PgFree)]
    requires forall c :: LiveBlock(s', c) <==> LiveBlock(s, c) && c != b
    requires forall cls, a :: IsCell(cfg, s, cls, a) <==> IsCell(cfg, s', cls, a)
    ensures Described(cfg, s')
  {
    forall c | LiveBlock(s', c) ensures Address(cfg.start, c) in s'.live {
      AddressOfBlock(cfg.start, c);
      AddressPage(cfg, c);
      AddressPage(cfg, b);
      if FirstPage(c) == FirstPage(b) {
        SameFirstPage(c, b);
      }
    }
    forall a | a in s'.live ensures LiveCell(cfg, s', a) || LiveLarge(cfg, s', a) {
      assert a in s.live && a != ptr;
    }
    forall h: nat | h < |s'.desc| && s'.desc[h].kind == PgBuddy
      ensures LiveBlock(s', Block(s'.desc[h].order, Shr(h, s'.desc[h].order))) && Low(h, s'.desc[h].order) == 0
    {
      HeadOfLiveBlock(cfg, s, h);
    }
  }

  // ------------------------------------------------------------------ the slab steps

  lemma SameLists(cfg: Config, s: State, s': State)
    requires CellsOwned(cfg, s) && s'.desc == s.desc && s'.caches == s.caches && s'.live == s.live
    ensures CellsOwned(cfg, s')
  {
    SameCells(cfg, s, s');
    assert forall l, c :: Holds(s', l, c) <==> Holds(s, l, c);
    forall cls, a | IsCell(cfg, s', cls, a) && a !in s'.live ensures exists l :: Holds(s', l, a) {
      assert IsCell(cfg, s, cls, a);
      var l :| Holds(s, l, a);
      assert Holds(s', l, a);
    }
  }

  lemma SameDescribed(cfg: Config, s: State, s': State)
    requires Described(cfg, s) && s'.desc == s.desc && s'.live == s.live
    ensures Described(cfg, s')
  {
    forall a | a in s'.live ensures LiveCell(cfg, s', a) || LiveLarge(cfg, s', a) {
      assert LiveCell(cfg, s, a) || LiveLarge(cfg, s, a);
    }
    forall b | LiveBlock(s', b) ensures InRegion(b, cfg.total) && Address(cfg.start, b) in s'.live {
      assert LiveBlock(s, b);
    }
  }

  /** A page goes from the buddy lists to the refill of one CPU. */
  lemma TransitTiled(cfg: Config, s: State, s': State, cpu: nat, page: nat)
    requires Shape(cfg, s) && Tiled(cfg, s) && Taken(s.free, s'.free, cfg.total, Block(0, page)) && cpu !in s.transit
    requires cpu in s'.transit && s'.transit == s.transit[cpu := s'.transit[cpu]] && s'.transit[cpu].page == page
    requires s'.desc == s.desc
    ensures Tiled(cfg, s')
  {
    var b := Block(0, page);
    assert forall x: nat :: Has(b, x) <==> x == page;
    assert forall c :: LiveBlock(s', c) <==> LiveBlock(s, c);
    forall x: nat, o ensures Uses(s', o, x) <==> Uses(s, o, x) || (o == InTransit(cpu) && Has(b, x)) {
    }
    TileTake(cfg, s, s', b, InTransit(cpu));
  }

  lemma RefillTakeInv(cfg: Config, s: State, cpu: nat, cls: nat, page: nat, free': set<Block>, s': State)
    requires Inv(cfg, s) && Next(cfg, s, RefillTake(cpu, cls, page, free'), s')
    ensures Inv(cfg, s')
  {
    TransitTiled(cfg, s, s', cpu, page);
    SameLists(cfg, s, s');
    SameDescribed(cfg, s, s');
    assert Has(Block(0, page), page);
  }

  /** Slots after cells are pushed in front of one list. */
  lemma HoldsPrepend(s: State, s': State, cpu: nat, cls: nat, front: seq<nat>, l: Slot, a: nat)
    requires cpu < |s.caches| && cls < |s.caches[cpu]|
    requires s'.caches == WithList(s.caches, cpu, cls, front + s.caches[cpu][cls])
    ensures l.cpu == cpu && l.cls == cls ==>
              (Holds(s', l, a) <==> if l.pos < |front| then front[l.pos] == a
                                    else Holds(s, l.(pos := l.pos - |front|), a))
    ensures !(l.cpu == cpu && l.cls == cls) ==> (Holds(s', l, a) <==> Holds(s, l, a))
  {
  }

  /** Slots after the first cell of one list is taken. */
  lemma HoldsPop(s: State, s': State, cpu: nat, cls: nat, l: Slot, a: nat)
    requires cpu < |s.caches| && cls < |s.caches[cpu]| && s.caches[cpu][cls] != []
    requires s'.caches == WithList(s.caches, cpu, cls, s.caches[cpu][cls][1..])
    ensures l.cpu == cpu && l.cls == cls ==> (Holds(s', l, a) <==> Holds(s, l.(pos := l.pos + 1), a))
    ensures !(l.cpu == cpu && l.cls == cls) ==> (Holds(s', l, a) <==> Holds(s, l, a))
  {
  }

  lemma AllocCachedInv(cfg: Config, s: State, cpu: nat, size: nat, s': State)
    requires Inv(cfg, s) && Next(cfg, s, AllocCached(cpu, size), s')
    ensures Inv(cfg, s')
  {
    var cls: nat := ClassOf(size);
    var a0 := s.caches[cpu][cls][0];
    assert Holds(s, Slot(cpu, cls, 0), a0);
    SameOwners(cfg, s, s');
    SameCells(cfg, s, s');
    PopCell(cfg, s, s', cpu, cls);
    DescribedMore(cfg, s, s', a0, size);
  }

  lemma DescribedMore(cfg: Config, s: State, s': State, a: nat, size: nat)
    requires Described(cfg, s) && s'.desc == s.desc && s'.live == s.live[a := size]
    requires ClassOf(size) >= 0 && IsCell(cfg, s, ClassOf(size), a)
    ensures Described(cfg, s')
  {
    assert forall c :: LiveBlock(s', c) <==> LiveBlock(s, c);
    forall c | c in s'.live ensures LiveCell(cfg, s', c) || LiveLarge(cfg, s', c) {
      if c != a {
        assert LiveCell(cfg, s, c) || LiveLarge(cfg, s, c);
      }
    }
  }

  lemma PopCell(cfg: Config, s: State, s': State, cpu: nat, cls: nat)
    requires CellsOwned(cfg, s) && cpu < |s.caches| && cls < |s.caches[cpu]| && s.caches[cpu][cls] != []
    requires s'.caches == WithList(s.caches, cpu, cls, s.caches[cpu][cls][1..])
    requires s'.live.Keys == s.live.Keys + {s.caches[cpu][cls][0]}
    requires forall k, c :: IsCell(cfg, s, k, c) <==> IsCell(cfg, s', k, c)
    ensures CellsOwned(cfg, s')
  {
    assert Holds(s, Slot(cpu, cls, 0), s.caches[cpu][cls][0]);
    forall l, a | Holds(s', l, a) ensures IsCell(cfg, s', l.cls, a) && a !in s'.live {
      HoldsPop(s, s', cpu, cls, l, a);
    }
    forall l, l', a | Holds(s', l, a) && Holds(s', l', a) ensures l == l' {
      HoldsPop(s, s', cpu, cls, l, a);
      HoldsPop(s, s', cpu, cls, l', a);
    }
    forall k, a | IsCell(cfg, s', k, a) && a !in s'.live ensures exists l :: Holds(s', l, a) {
      assert IsCell(cfg, s, k, a);
      var l :| Holds(s, l, a);
      var l' := if l.cpu == cpu && l.cls == cls then l.(pos := l.pos - 1) else l;
      HoldsPop(s, s', cpu, cls, l', a);
    }
  }

  lemma SameOwners(cfg: Config, s: State, s': State)
    requires Shape(cfg, s) && Tiled(cfg, s) && s'.free == s.free && s'.desc == s.desc && s'.transit == s.transit
    ensures Tiled(cfg, s')
  {
    assert forall c :: LiveBlock(s', c) <==> LiveBlock(s, c);
    assert forall x: nat, o :: Uses(s', o, x) <==> Uses(s, o, x);
    TiledSplit(cfg, s);
    forall x: nat | Used(s, x) ensures Used(s', x) {
      var o :| Uses(s, o, x);
      assert Uses(s', o, x);
    }
    TiledSplit(cfg, s');
  }

  lemma LogUpOfPow2(k: nat)
    ensures LogUp(Pow2(k)) == k
  {
    LogUpUnique(Pow2(k), k);
  }

  /** `size_to_class` of a cell size is its class. */
  lemma ClassOfCell(cls: nat)
    requires cls < NCLASS
    ensures ClassOf(Pow2(cls + 3)) == cls
  {
    LogUpOfPow2(cls + 3);
    Pow2Mono(3, cls + 3);
    assert Pow2(3) == 8;
  }

  lemma FreeCellInv(cfg: Config, s: State, cpu: nat, ptr: nat, s': State)
    requires Inv(cfg, s) && Next(cfg, s, FreeCell(cpu, ptr), s')
    ensures Inv(cfg, s')
  {
    FreedCell(cfg, s, ptr);
    SameOwners(cfg, s, s');
    SameCells(cfg, s, s');
    PushCell(cfg, s, s', cpu, ClassAt(cfg, s, ptr), ptr);
    DescribedLess(cfg, s, s', ptr);
  }

  lemma DescribedLess(cfg: Config, s: State, s': State, ptr: nat)
    requires Described(cfg, s) && s'.desc == s.desc && s'.live == s.live - {ptr}
    requires forall b :: LiveBlock(s, b) ==> Address(cfg.start, b) != ptr
    ensures Described(cfg, s')
  {
    assert forall c :: LiveBlock(s', c) <==> LiveBlock(s, c);
    forall a | a in s'.live ensures LiveCell(cfg, s', a) || LiveLarge(cfg, s', a) {
      assert a in s.live && s'.live[a] == s.live[a];
      assert LiveCell(cfg, s, a) || LiveLarge(cfg, s, a);
    }
  }

  lemma PushCell(cfg: Config, s: State, s': State, cpu: nat, cls: nat, ptr: nat)
    requires CellsOwned(cfg, s) && cpu < |s.caches| && cls < |s.caches[cpu]|
    requires ptr in s.live && IsCell(cfg, s, cls, ptr)
    requires s'.caches == WithList(s.caches, cpu, cls, [ptr] + s.caches[cpu][cls])
    requires s'.live.Keys == s.live.Keys - {ptr}
    requires forall k, c :: IsCell(cfg, s, k, c) <==> IsCell(cfg, s', k, c)
    ensures CellsOwned(cfg, s')
  {
    forall l, a | Holds(s', l, a) ensures IsCell(cfg, s', l.cls, a) && a !in s'.live {
      HoldsPrepend(s, s', cpu, cls, [ptr], l, a);
    }
    forall l, l', a | Holds(s', l, a) && Holds(s', l', a) ensures l == l' {
      HoldsPrepend(s, s', cpu, cls, [ptr], l, a);
      HoldsPrepend(s, s', cpu, cls, [ptr], l', a);
    }
    forall k, a | IsCell(cfg, s', k, a) && a !in s'.live ensures exists l :: Holds(s', l, a) {
      if a == ptr {
        assert Holds(s', Slot(cpu, cls, 0), a);
      } else {
        assert IsCell(cfg, s, k, a);
        var l :| Holds(s, l, a);
        var l' := if l.cpu == cpu && l.cls == cls then l.(pos := l.pos + 1) else l;
        HoldsPrepend(s, s', cpu, cls, [ptr], l', a);
      }
    }
  }

  /** A live pointer on a slab page is a cell, and `kfree` finds its class. */
  lemma FreedCell(cfg: Config, s: State, ptr: nat)
    requires Inv(cfg, s) && ptr in s.live && cfg.start <= ptr
    requires PageOf(cfg, ptr) < |s.desc| && s.desc[PageOf(cfg, ptr)].kind == PgSlab
    ensures ClassAt(cfg, s, ptr) == ClassOf(s.live[ptr]) >= 0 && IsCell(cfg, s, ClassAt(cfg, s, ptr), ptr)
    ensures forall b :: LiveBlock(s, b) ==> Address(cfg.start, b) != ptr
  {
    if LiveLarge(cfg, s, ptr) {
      AddressPage(cfg, BlockAt(cfg.start, OrderOf(s.live[ptr]), ptr));
    }
    assert LiveCell(cfg, s, ptr);
    ClassOfCell(ClassOf(s.live[ptr]));
    forall b | LiveBlock(s, b) ensures Address(cfg.start, b) != ptr {
      AddressPage(cfg, b);
    }
  }

  // ------------------------------------------------------------------ carving a page

  /** `a` is a cell of page `page` cut into class `cls`. */
  predicate CellOfPage(cfg: Config, page: nat, cls: nat, a: nat) {
    cfg.start <= a && PageOf(cfg, a) == page && Low(a - cfg.start, cls + 3) == 0
  }

  /** A page of `2^(m+k)` bytes cut into `2^m` pieces of `2^k` bytes. */
  lemma PieceOfPage(page: nat, off: nat, m: nat, k: nat)
    requires off < Pow2(m + k)
    ensures Shr(Scale(page, m + k) + off, k) == Scale(page, m) + Shr(off, k)
    ensures Low(Scale(page, m + k) + off, k) == Low(off, k)
    ensures Shr(off, k) < Pow2(m)
  {
    ScaleScale(page, m, k);
    Split(off, k);
    ScaleAdd(Scale(page, m), Shr(off, k), k);
    ShrScale(Scale(page, m) + Shr(off, k), k, Low(off, k));
    ShrSmaller(off, k, m + k);
  }

  lemma PageScale(page: nat)
    ensures Scale(page, 12) == page * PAGE_SIZE
    ensures Pow2(12) == PAGE_SIZE
  {
    Pow2Constants();
    ScaleMul(page, 12);
  }

  lemma PieceBound(i: nat, m: nat, k: nat)
    requires i < Pow2(m)
    ensures Scale(i, k) < Pow2(m + k)
    ensures Shr(Scale(i, k), k) == i && Low(Scale(i, k), k) == 0
  {
    ScaleMono(i, Pow2(m), k);
    ScaleMul(Pow2(m), k);
    Pow2Add(m, k);
    ShrScale(i, k, 0);
  }

  lemma CarvedAt(cfg: Config, page: nat, cls: nat, i: nat)
    requires cls < NCLASS && i < Pow2(9 - cls)
    ensures CellOfPage(cfg, page, cls, cfg.start + page * PAGE_SIZE + Scale(i, cls + 3))
    ensures Shr(page * PAGE_SIZE + Scale(i, cls + 3), cls + 3) == Scale(page, 9 - cls) + i
  {
    PageScale(page);
    PieceBound(i, 9 - cls, cls + 3);
    PieceOfPage(page, Scale(i, cls + 3), 9 - cls, cls + 3);
  }

  /** A cell of a page is a multiple of its size away from the start of the page. */
  lemma CellOffset(cfg: Config, page: nat, cls: nat, a: nat) returns (q: nat)
    requires cls < NCLASS && CellOfPage(cfg, page, cls, a)
    ensures q < Pow2(9 - cls) && a == cfg.start + page * PAGE_SIZE + Scale(q, cls + 3)
  {
    var off := (a - cfg.start) % PAGE_SIZE;
    PageScale(page);
    PieceOfPage(page, off, 9 - cls, cls + 3);
    Split(off, cls + 3);
    q := Shr(off, cls + 3);
  }

  /** The carved cells are exactly the cells of the page. */
  lemma CarvedCells(cfg: Config, page: nat, cls: nat, a: nat) returns (i: nat)
    requires cls < NCLASS && CellOfPage(cfg, page, cls, a)
    ensures i < Pow2(9 - cls) && Carved(cfg.start + page * PAGE_SIZE, cls)[i] == a
  {
    var q := CellOffset(cfg, page, cls, a);
    i := Pow2(9 - cls) - 1 - q;
  }

  lemma CarvedDistinct(cfg: Config, page: nat, cls: nat, i: nat, j: nat)
    requires cls < NCLASS && i < Pow2(9 - cls) && j < Pow2(9 - cls)
    requires Carved(cfg.start + page * PAGE_SIZE, cls)[i] == Carved(cfg.start + page * PAGE_SIZE, cls)[j]
    ensures i == j
  {
    var base, u, v := cfg.start + page * PAGE_SIZE, Pow2(9 - cls) - 1 - i, Pow2(9 - cls) - 1 - j;
    assert Carved(base, cls)[i] == base + Scale(u, cls + 3);
    assert Carved(base, cls)[j] == base + Scale(v, cls + 3);
    CarvedAt(cfg, page, cls, u);
    CarvedAt(cfg, page, cls, v);
    assert u == v;
  }

  lemma CarveCells(cfg: Config, s: State, s': State, cpu: nat, cls: nat, page: nat)
    requires CellsOwned(cfg, s) && cpu < |s.caches| && cls < NCLASS && |s.caches[cpu]| == NCLASS
    requires page < |s.desc| && s.desc[page].kind != PgSlab
    requires s'.desc == s.desc[page := s.desc[page].(kind := PgSlab, objSize := Pow2(cls + 3))]
    requires s'.caches == WithList(s.caches, cpu, cls, Carved(cfg.start + page * PAGE_SIZE, cls) + s.caches[cpu][cls])
    requires s'.live == s.live && forall a :: CellOfPage(cfg, page, cls, a) ==> a !in s.live
    ensures CellsOwned(cfg, s')
  {
    var front := Carved(cfg.start + page * PAGE_SIZE, cls);
    forall i: nat | i < |front| ensures CellOfPage(cfg, page, cls, front[i]) {
      CarvedAt(cfg, page, cls, Pow2(9 - cls) - 1 - i);
    }
    CarvedIsCell(cfg, s, s', cls, page);
    forall l, a | Holds(s', l, a) ensures IsCell(cfg, s', l.cls, a) && a !in s'.live {
      HoldsPrepend(s, s', cpu, cls, front, l, a);
    }
    forall l, l', a | Holds(s', l, a) && Holds(s', l', a) ensures l == l' {
      HoldsPrepend(s, s', cpu, cls, front, l, a);
      HoldsPrepend(s, s', cpu, cls, front, l', a);
      if l.cpu == cpu && l.cls == cls && l.pos < |front| && l'.cpu == cpu && l'.cls == cls && l'.pos < |front| {
        CarvedDistinct(cfg, page, cls, l.pos, l'.pos);
      }
    }
    forall k, a | IsCell(cfg, s', k, a) && a !in s'.live ensures exists l :: Holds(s', l, a) {
      if IsCell(cfg, s, k, a) {
        var l :| Holds(s, l, a);
        StillHeld(s, s', cpu, cls, front, l, a);
      } else {
        NewlyHeld(cfg, s, s', cpu, cls, page, a);
      }
    }
  }

  lemma NewlyHeld(cfg: Config, s: State, s': State, cpu: nat, cls: nat, page: nat, a: nat)
    requires cpu < |s.caches| && cls < NCLASS && |s.caches[cpu]| == NCLASS && CellOfPage(cfg, page, cls, a)
    requires s'.caches == WithList(s.caches, cpu, cls, Carved(cfg.start + page * PAGE_SIZE, cls) + s.caches[cpu][cls])
    ensures exists l :: Holds(s', l, a)
  {
    var i := CarvedCells(cfg, page, cls, a);
    HoldsPrepend(s, s', cpu, cls, Carved(cfg.start + page * PAGE_SIZE, cls), Slot(cpu, cls, i), a);
  }

  lemma StillHeld(s: State, s': State, cpu: nat, cls: nat, front: seq<nat>, l: Slot, a: nat)
    requires cpu < |s.caches| && cls < |s.caches[cpu]| && Holds(s, l, a)
    requires s'.caches == WithList(s.caches, cpu, cls, front + s.caches[cpu][cls])
    ensures exists l' :: Holds(s', l', a)
  {
    var l' := if l.cpu == cpu && l.cls == cls then l.(pos := l.pos + |front|) else l;
    HoldsPrepend(s, s', cpu, cls, front, l', a);
    assert Holds(s', l', a);
  }

  lemma Pow2Injective(a: nat, b: nat)
    requires Pow2(a) == Pow2(b)
    ensures a == b
  {
    LogUpOfPow2(a);
    LogUpOfPow2(b);
  }

  lemma CarvedIsCell(cfg: Config, s: State, s': State, cls: nat, page: nat)
    requires cls < NCLASS && page < |s.desc| && s.desc[page].kind != PgSlab
    requires s'.desc == s.desc[page := s.desc[page].(kind := PgSlab, objSize := Pow2(cls + 3))]
    ensures forall k, a :: IsCell(cfg, s', k, a) <==> IsCell(cfg, s, k, a) || (k == cls && CellOfPage(cfg, page, cls, a))
  {
    forall k: nat, a: nat ensures IsCell(cfg, s', k, a) <==> IsCell(cfg, s, k, a) || (k == cls && CellOfPage(cfg, page, cls, a)) {
      if IsCell(cfg, s', k, a) && PageOf(cfg, a) == page {
        Pow2Injective(k + 3, cls + 3);
      }
    }
  }

  lemma RefillCarveInv(cfg: Config, s: State, cpu: nat, s': State)
    requires Inv(cfg, s) && Next(cfg, s, RefillCarve(cpu), s')
    ensures Inv(cfg, s')
  {
    var t := s.transit[cpu];
    ClassSizes(t.cls);
    assert Uses(s, InTransit(cpu), t.page);
    TransitDescriptor(cfg, s, cpu);
    CarveTiled(cfg, s, s', cpu);
    CarveCells(cfg, s, s', cpu, t.cls, t.page);
    CarveDescribed(cfg, s, s', t.page);
  }

  /** A page in transit is described as neither slab nor start of a block, and nothing on it is live. */
  lemma TransitDescriptor(cfg: Config, s: State, cpu: nat)
    requires Inv(cfg, s) && cpu in s.transit
    ensures s.desc[s.transit[cpu].page].kind == PgFree
    ensures forall a :: cfg.start <= a && PageOf(cfg, a) == s.transit[cpu].page ==> a !in s.live
  {
    var x := s.transit[cpu].page;
    TiledSplit(cfg, s);
    assert Uses(s, InTransit(cpu), x);
    assert !Uses(s, InSlab, x);
    if s.desc[x].kind == PgBuddy {
      HeadOfLiveBlock(cfg, s, x);
    }
    forall a | cfg.start <= a && PageOf(cfg, a) == x ensures a !in s.live {
      if a in s.live && LiveLarge(cfg, s, a) {
        AddressPage(cfg, BlockAt(cfg.start, OrderOf(s.live[a]), a));
      }
    }
  }

  lemma CarveTiled(cfg: Config, s: State, s': State, cpu: nat)
    requires Shape(cfg, s) && Tiled(cfg, s) && cpu in s.transit && s'.free == s.free
    requires s.desc[s.transit[cpu].page].kind == PgFree
    requires exists d: Desc :: d.kind == PgSlab && s'.desc == s.desc[s.transit[cpu].page := d]
    requires s'.transit == s.transit - {cpu}
    ensures Tiled(cfg, s')
  {
    var p := s.transit[cpu].page;
    assert forall c :: LiveBlock(s', c) <==> LiveBlock(s, c);
    assert forall x: nat, o :: Uses(s', o, x) <==> (Uses(s, o, x) && o != InTransit(cpu)) || (o == InSlab && x == p);
    TiledSplit(cfg, s);
    assert Uses(s, InTransit(cpu), p);
    forall x: nat | Used(s, x) ensures Used(s', x) {
      var o :| Uses(s, o, x);
      assert Uses(s', if o == InTransit(cpu) then InSlab else o, x);
    }
    TiledSplit(cfg, s');
  }

  lemma CarveDescribed(cfg: Config, s: State, s': State, page: nat)
    requires Described(cfg, s) && page < |s.desc| && s.desc[page].kind == PgFree
    requires exists d: Desc :: d.kind == PgSlab && s'.desc == s.desc[page := d]
    requires s'.live == s.live
    ensures Described(cfg, s')
  {
    var d: Desc :| d.kind == PgSlab && s'.desc == s.desc[page := d];
    forall c ensures LiveBlock(s', c) <==> LiveBlock(s, c) {
      CarveKeepsBlock(s, s', page, d, c);
    }
    forall a | a in s'.live ensures LiveCell(cfg, s', a) || LiveLarge(cfg, s', a) {
      CarveKeepsLive(cfg, s, s', page, d, a);
    }
    forall h: nat | h < |s'.desc| && s'.desc[h].kind == PgBuddy
      ensures LiveBlock(s', Block(s'.desc[h].order, Shr(h, s'.desc[h].order))) && Low(h, s'.desc[h].order) == 0
    {
      assert s'.desc[h] == s.desc[h];
    }
  }

  lemma CarveKeepsBlock(s: State, s': State, page: nat, d: Desc, c: Block)
    requires page < |s.desc| && s.desc[page].kind == PgFree && d.kind == PgSlab && s'.desc == s.desc[page := d]
    ensures LiveBlock(s', c) <==> LiveBlock(s, c)
  {
  }

  lemma CarveKeepsLive(cfg: Config, s: State, s': State, page: nat, d: Desc, a: nat)
    requires a in s.live && (LiveCell(cfg, s, a) || LiveLarge(cfg, s, a)) && page < |s.desc| && s.desc[page].kind == PgFree
    requires d.kind == PgSlab && s'.desc == s.desc[page := d] && s'.live == s.live
    ensures LiveCell(cfg, s', a) || LiveLarge(cfg, s', a)
  {
    if LiveLarge(cfg, s, a) {
      CarveKeepsBlock(s, s', page, d, BlockAt(cfg.start, OrderOf(s.live[a]), a));
    }
  }

  // ------------------------------------------------------------------ every run

  lemma StepInv(cfg: Config, s: State, step: Step, s': State)
    requires Inv(cfg, s) && Next(cfg, s, step, s')
    ensures Inv(cfg, s')
  {
    match step
    case AllocCached(cpu, size) => AllocCachedInv(cfg, s, cpu, size, s');
    case RefillTake(cpu, cls, page, free') => RefillTakeInv(cfg, s, cpu, cls, page, free', s');
    case RefillCarve(cpu) => RefillCarveInv(cfg, s, cpu, s');
    case AllocLarge(size, b, free') => AllocLargeInv(cfg, s, size, b, free', s');
    case FreeCell(cpu, ptr) => FreeCellInv(cfg, s, cpu, ptr, s');
    case FreeLarge(ptr, free') => FreeLargeInv(cfg, s, ptr, free', s');
  }

  /** A run: states joined by steps of any CPUs, in any order. */
  ghost predicate IsRun(cfg: Config, states: seq<State>, steps: seq<Step>) {
    && |states| == |steps| + 1
    && Init(cfg, states[0])
    && forall i :: 0 <= i < |steps| ==> Shape(cfg, states[i]) && Next(cfg, states[i], steps[i], states[i + 1])
  }

  /** The invariant holds in every state of every run. */
  lemma {:induction false} RunInv(cfg: Config, states: seq<State>, steps: seq<Step>, i: nat)
    requires IsRun(cfg, states, steps) && i < |states|
    ensures Inv(cfg, states[i])
  {
    if i == 0 {
      InitInv(cfg, states[0]);
    } else {
      RunInv(cfg, states, steps, i - 1);
      StepInv(cfg, states[i - 1], steps[i - 1], states[i]);
    }
  }

  // ------------------------------------------------------------------ the lists of one CPU

  /** Steps `i` to `j` are all made by others. */
  ghost predicate OthersOnly(steps: seq<Step>, cpu: nat, i: nat, j: nat) {
    forall k :: i <= k < j && k < |steps| ==> Maker(steps[k]) != Some(cpu)
  }

  lemma {:induction false} ListsStay(cfg: Config, states: seq<State>, steps: seq<Step>, cpu: nat, i: nat, j: nat)
    requires IsRun(cfg, states, steps) && i <= j < |states| && cpu < cfg.cpus && OthersOnly(steps, cpu, i, j)
    ensures |states[i].caches| == |states[j].caches| == cfg.cpus && states[j].caches[cpu] == states[i].caches[cpu]
    decreases j - i
  {
    RunInv(cfg, states, steps, j);
    if i < j {
      ListsStay(cfg, states, steps, cpu, i, j - 1);
      OwnListsOnly(cfg, states[j - 1], steps[j - 1], states[j], cpu);
    }
  }

  /** `a` is the first cell of a list. */
  predicate HeadIs(lists: seq<seq<nat>>, cls: int, a: nat) {
    0 <= cls < |lists| && lists[cls] != [] && lists[cls][0] == a
  }

  lemma FreedOnTop(cfg: Config, s: State, cpu: nat, ptr: nat, s': State)
    requires Inv(cfg, s) && Next(cfg, s, FreeCell(cpu, ptr), s')
    ensures cpu < |s'.caches| && ptr in s.live && HeadIs(s'.caches[cpu], ClassOf(s.live[ptr]), ptr)
  {
    FreedCell(cfg, s, ptr);
  }

  lemma TopIsPopped(cfg: Config, s: State, cpu: nat, size: nat, s': State, a: nat)
    requires Inv(cfg, s) && Next(cfg, s, AllocCached(cpu, size), s') && HeadIs(s.caches[cpu], ClassOf(size), a)
    ensures a !in s.live && s'.live == s.live[a := size]
  {
    assert Holds(s, Slot(cpu, ClassOf(size), 0), a);
  }

  /** In every run: the cell a CPU freed last is the one it allocates next from that class, whatever the other
      CPUs do in between. */
  lemma LastFreedFirst(cfg: Config, states: seq<State>, steps: seq<Step>, cpu: nat, ptr: nat, size: nat, i: nat, j: nat)
    requires IsRun(cfg, states, steps) && i < j < |steps| && ptr in states[i].live
    requires steps[i] == FreeCell(cpu, ptr) && steps[j] == AllocCached(cpu, size) && OthersOnly(steps, cpu, i + 1, j)
    requires ClassOf(size) == ClassOf(states[i].live[ptr])
    ensures ptr !in states[j].live && states[j + 1].live == states[j].live[ptr := size]
  {
    RunInv(cfg, states, steps, i);
    RunInv(cfg, states, steps, j);
    FreedOnTop(cfg, states[i], cpu, ptr, states[i + 1]);
    ListsStay(cfg, states, steps, cpu, i + 1, j);
    TopIsPopped(cfg, states[j], cpu, size, states[j + 1], ptr);
  }

  // ------------------------------------------------------------------ what callers get

  /** Log of the size of what was handed out at `a`: a cell, or a block of pages. */
  function ExtentLog(s: State, a: nat): nat
    requires a in s.live
  {
    if ClassOf(s.live[a]) >= 0 then ClassOf(s.live[a]) + 3 else OrderOf(s.live[a]) + PAGE_SHIFT
  }

  /** Byte `y` belongs to what was handed out at `a`. */
  predicate InExtent(cfg: Config, s: State, a: nat, y: nat)
    requires a in s.live
  {
    a <= y < a + Pow2(ExtentLog(s, a))
  }

  lemma SamePiece(x: nat, y: nat, k: nat)
    requires Low(x, k) == 0 && x <= y < x + Pow2(k)
    ensures Shr(y, k) == Shr(x, k)
  {
    Split(x, k);
    ShrScale(Shr(x, k), k, y - x);
  }

  lemma BlockAddressAligned(start: nat, k: nat, a: nat)
    requires IsBlockAddress(start, k, a)
    ensures Low(a - start, k + PAGE_SHIFT) == 0
  {
    ShrScale(BlockAt(start, k, a).index, k + PAGE_SHIFT, 0);
  }

  /** What was handed out at `a` is aligned in the region. */
  lemma ExtentAligned(cfg: Config, s: State, a: nat)
    requires a in s.live && (LiveCell(cfg, s, a) || LiveLarge(cfg, s, a))
    ensures cfg.start <= a && Low(a - cfg.start, ExtentLog(s, a)) == 0
  {
    if ClassOf(s.live[a]) < 0 {
      BlockAddressAligned(cfg.start, OrderOf(s.live[a]), a);
    }
  }

  /** The owner of the pages under a live pointer. */
  function OwnerOf(cfg: Config, s: State, a: nat): Owner
    requires a in s.live && cfg.start <= a
  {
    if ClassOf(s.live[a]) >= 0 then InSlab else InBlock(BlockAt(cfg.start, OrderOf(s.live[a]), a))
  }

  lemma ExtentOwner(cfg: Config, s: State, a: nat, y: nat)
    requires a in s.live && (LiveCell(cfg, s, a) || LiveLarge(cfg, s, a)) && InExtent(cfg, s, a, y)
    ensures cfg.start <= a <= y && Owns(s, OwnerOf(cfg, s, a), PageOf(cfg, y))
    ensures ClassOf(s.live[a]) >= 0 ==> PageOf(cfg, y) == PageOf(cfg, a)
  {
    if LiveLarge(cfg, s, a) {
      LargeOwner(cfg, s, a, y);
    } else {
      CellOwner(cfg, s, a, y);
    }
  }

  lemma CellOwner(cfg: Config, s: State, a: nat, y: nat)
    requires a in s.live && LiveCell(cfg, s, a) && InExtent(cfg, s, a, y)
    ensures cfg.start <= a <= y && Owns(s, InSlab, PageOf(cfg, y)) && PageOf(cfg, y) == PageOf(cfg, a)
  {
    var k: nat := ClassOf(s.live[a]) + 3;
    CellInPage(a - cfg.start, y - cfg.start, k);
  }

  lemma CellInPage(x: nat, y: nat, k: nat)
    requires k <= 12 && Low(x, k) == 0 && x <= y < x + Pow2(k)
    ensures x / PAGE_SIZE == y / PAGE_SIZE
  {
    SamePiece(x, y, k);
    PieceInPage(x, y, k);
  }

  lemma LargeOwner(cfg: Config, s: State, a: nat, y: nat)
    requires a in s.live && LiveLarge(cfg, s, a) && InExtent(cfg, s, a, y)
    ensures cfg.start <= a <= y && Owns(s, OwnerOf(cfg, s, a), PageOf(cfg, y))
  {
    BlockAddressAligned(cfg.start, OrderOf(s.live[a]), a);
    SamePiece(a - cfg.start, y - cfg.start, OrderOf(s.live[a]) + PAGE_SHIFT);
    PageOfPiece(y - cfg.start, OrderOf(s.live[a]));
  }

  lemma PageOfPiece(off: nat, order: nat)
    ensures Shr(off / PAGE_SIZE, order) == Shr(off, order + PAGE_SHIFT)
  {
    ShrPage(off);
    ShrShr(off, PAGE_SHIFT, order);
  }

  lemma PieceInPage(x: nat, y: nat, k: nat)
    requires k <= 12 && Shr(x, k) == Shr(y, k)
    ensures x / PAGE_SIZE == y / PAGE_SIZE
  {
    ShrPage(x);
    ShrPage(y);
    ShrShr(x, k, 12 - k);
    ShrShr(y, k, 12 - k);
  }

  lemma ShrPage(off: nat)
    ensures Shr(off, PAGE_SHIFT) == off / PAGE_SIZE
  {
    Pow2Constants();
    ShrDiv(off, PAGE_SHIFT);
  }

  /** Live allocations never overlap. */
  lemma LiveDisjoint(cfg: Config, s: State, a: nat, a': nat, y: nat)
    requires Inv(cfg, s) && a in s.live && a' in s.live
    requires InExtent(cfg, s, a, y) && InExtent(cfg, s, a', y)
    ensures a == a'
  {
    ExtentOwner(cfg, s, a, y);
    ExtentOwner(cfg, s, a', y);
    SameExtentLog(cfg, s, a, a');
    SameExtent(cfg, s, a, a', y);
  }

  lemma SameExtent(cfg: Config, s: State, a: nat, a': nat, y: nat)
    requires a in s.live && (LiveCell(cfg, s, a) || LiveLarge(cfg, s, a))
    requires a' in s.live && (LiveCell(cfg, s, a') || LiveLarge(cfg, s, a')) && ExtentLog(s, a) == ExtentLog(s, a')
    requires InExtent(cfg, s, a, y) && InExtent(cfg, s, a', y)
    ensures a == a'
  {
    var k := ExtentLog(s, a);
    var x := PieceStart(cfg, s, a, y, k);
    var x' := PieceStart(cfg, s, a', y, k);
    OnePiece(x, x', y - cfg.start, k);
  }

  lemma PieceStart(cfg: Config, s: State, a: nat, y: nat, k: nat) returns (x: nat)
    requires a in s.live && (LiveCell(cfg, s, a) || LiveLarge(cfg, s, a)) && k == ExtentLog(s, a) && InExtent(cfg, s, a, y)
    ensures a == cfg.start + x && Low(x, k) == 0 && x <= y - cfg.start < x + Pow2(k)
  {
    ExtentAligned(cfg, s, a);
    x := a - cfg.start;
  }

  /** A byte lies in one aligned piece. */
  lemma OnePiece(x: nat, x': nat, y: nat, k: nat)
    requires Low(x, k) == 0 && x <= y < x + Pow2(k) && Low(x', k) == 0 && x' <= y < x' + Pow2(k)
    ensures x == x'
  {
    SamePiece(x, y, k);
    SamePiece(x', y, k);
    Split(x, k);
    Split(x', k);
  }

  lemma SameExtentLog(cfg: Config, s: State, a: nat, a': nat)
    requires a in s.live && (LiveCell(cfg, s, a) || LiveLarge(cfg, s, a)) && cfg.start <= a
    requires a' in s.live && (LiveCell(cfg, s, a') || LiveLarge(cfg, s, a')) && cfg.start <= a'
    requires OwnerOf(cfg, s, a) == OwnerOf(cfg, s, a')
    requires ClassOf(s.live[a]) >= 0 && ClassOf(s.live[a']) >= 0 ==> PageOf(cfg, a) == PageOf(cfg, a')
    ensures ExtentLog(s, a) == ExtentLog(s, a')
  {
    if ClassOf(s.live[a]) >= 0 {
      Pow2Injective(ClassOf(s.live[a]) + 3, ClassOf(s.live[a']) + 3);
    }
  }

  /** An allocation lies in the data region. */
  lemma LiveInRegion(cfg: Config, s: State, a: nat, y: nat)
    requires Described(cfg, s) && |s.desc| == cfg.total && a in s.live && InExtent(cfg, s, a, y)
    ensures cfg.start <= y && PageOf(cfg, y) < cfg.total
  {
    ExtentOwner(cfg, s, a, y);
    if LiveLarge(cfg, s, a) {
      assert InRegion(BlockAt(cfg.start, OrderOf(s.live[a]), a), cfg.total);
    }
  }

  /** An allocation holds the requested size iff that is at most 256 MiB. */
  lemma LiveFits(cfg: Config, s: State, a: nat)
    requires a in s.live
    ensures s.live[a] <= Pow2(ExtentLog(s, a)) <==> s.live[a] <= Pow2(MAX_ORDER + 12)
  {
    OrderFits(s.live[a]);
    ClassExists(s.live[a]);
    if ClassOf(s.live[a]) >= 0 {
      ClassFits(s.live[a]);
      Pow2Mono(11, MAX_ORDER + 12);
      SmallLogs();
    }
  }

  /** In a page-aligned region an allocation of up to a page is aligned to the next power of two of its
      size; a larger one, up to 256 MiB, is exactly when the region starts at such a multiple. */
  lemma LiveAligned(cfg: Config, s: State, a: nat)
    requires Described(cfg, s) && a in s.live && cfg.start % PAGE_SIZE == 0 && 0 < s.live[a] <= Pow2(MAX_ORDER + 12)
    ensures s.live[a] <= PAGE_SIZE ==> a % Pow2(LogUp(s.live[a])) == 0
    ensures s.live[a] > PAGE_SIZE ==>
              (a % Pow2(LogUp(s.live[a])) == 0 <==> cfg.start % Pow2(LogUp(s.live[a])) == 0)
  {
    var k := LogUp(s.live[a]);
    var x, e := LivePiece(cfg, s, a);
    AlignedSum(cfg.start, x, k, e);
    if s.live[a] <= PAGE_SIZE {
      PageMultiple(cfg.start, k);
    }
  }

  lemma LivePiece(cfg: Config, s: State, a: nat) returns (x: nat, e: nat)
    requires Described(cfg, s) && a in s.live && s.live[a] <= Pow2(MAX_ORDER + 12)
    ensures a == cfg.start + x && Low(x, e) == 0 && LogUp(s.live[a]) <= e
    ensures s.live[a] <= PAGE_SIZE ==> LogUp(s.live[a]) <= 12
  {
    ExtentAligned(cfg, s, a);
    ExtentLeast(s, a);
    x, e := a - cfg.start, ExtentLog(s, a);
  }

  lemma AlignedSum(start: nat, off: nat, k: nat, log: nat)
    requires k <= log && Low(off, log) == 0
    ensures (start + off) % Pow2(k) == 0 <==> start % Pow2(k) == 0
  {
    AlignedLess(off, k, log);
    MultipleSum(start, off, k);
  }

  /** The extent is at least the next power of two of the size. */
  lemma ExtentLeast(s: State, a: nat)
    requires a in s.live && s.live[a] <= Pow2(MAX_ORDER + 12)
    ensures LogUp(s.live[a]) <= ExtentLog(s, a)
    ensures s.live[a] <= PAGE_SIZE ==> LogUp(s.live[a]) <= 12
  {
    var size := s.live[a];
    ClassExists(size);
    OrderIsLeast(size);
    LogOfClassBounds();
    if ClassOf(size) >= 0 {
      ClassFits(size);
    }
    if size <= 4096 {
      LogUpMono(size, 4096);
    }
  }

  /** Adding a multiple of `2^k` does not change being one. */
  lemma MultipleSum(x: nat, y: nat, k: nat)
    requires Low(y, k) == 0
    ensures (x + y) % Pow2(k) == 0 <==> x % Pow2(k) == 0
  {
    LowSum(x, y, k);
    ShrDiv(x, k);
    ShrDiv(x + y, k);
  }

  lemma LowSum(x: nat, y: nat, k: nat)
    requires Low(y, k) == 0
    ensures Low(x + y, k) == Low(x, k)
  {
    Split(x, k);
    Split(y, k);
    ScaleAdd(Shr(x, k), Shr(y, k), k);
    ShrScale(Shr(x, k) + Shr(y, k), k, Low(x, k));
  }

  lemma AlignedLess(x: nat, k: nat, e: nat)
    requires k <= e && Low(x, e) == 0
    ensures Low(x, k) == 0
  {
    LowSplit(x, k, e - k);
  }

  lemma PageMultiple(x: nat, k: nat)
    requires x % PAGE_SIZE == 0 && k <= 12
    ensures x % Pow2(k) == 0
  {
    Pow2Constants();
    ShrDiv(x, 12);
    AlignedLess(x, k, 12);
    ShrDiv(x, k);
  }

  /** Allocating a block and giving it back restores the free lists. */
  lemma AllocFreeRestores(free: set<Block>, taken: set<Block>, free': set<Block>, n: nat, b: Block)
    requires Coalesced(free, n) && Taken(free, taken, n, b)
    requires Coalesced(free', n) && FreePages(free', n) == FreePages(taken, n) + Pages(b)
    ensures free' == free
  {
    assert FreePages(free', n) == FreePages(free, n);
    Determined(free, free', n);
  }

  lemma TwoPages(b: Block)
    requires b == Block(1, 0)
    ensures (forall x: nat :: Has(b, x) <==> x < 2) && Pages(b) == {0, 1}
    ensures FreePages({b}, 2) == {0, 1} && AllPages(2) == {0, 1} && FreePages({}, 2) == {}
    ensures Coalesced({b}, 2) && Coalesced({}, 2)
  {
    forall x: nat ensures Has(b, x) <==> x < 2 {
      assert Shr(x, 1) == x / 2;
    }
    assert Covered({b}, 0) && Covered({b}, 1);
  }

  lemma EightKiB()
    ensures ClassOf(8192) < 0 && OrderOf(8192) == 1
  {
    LogUpOfPow2(13);
    SmallLogs();
  }

  /** Alignment above a page is not guaranteed: on a heap whose data starts at one page past a multiple of
      8192, a run hands out 8192 bytes at an address that is not a multiple of 8192. */
  lemma LargeCanBeMisaligned() returns (cfg: Config, states: seq<State>, steps: seq<Step>, a: nat)
    ensures cfg.start % PAGE_SIZE == 0 && IsRun(cfg, states, steps)
    ensures var s := states[|states| - 1]; a in s.live && s.live[a] == 8192 && a % 8192 != 0
  {
    cfg := Config(PAGE_SIZE, 2, 0);
    var b := Block(1, 0);
    var s0 := State({b}, [Desc(PgFree, 0, 0), Desc(PgFree, 0, 0)], [], map[], map[]);
    var s1 := State({}, [Desc(PgBuddy, 1, 0), Desc(PgFree, 0, 0)], [], map[], map[PAGE_SIZE := 8192]);
    TwoPages(b);
    EightKiB();
    ScaleMono(0, 0, 1 + PAGE_SHIFT);
    assert FirstPage(b) == 0;
    states, steps, a := [s0, s1], [AllocLarge(8192, b, {})], PAGE_SIZE;
    assert Next(cfg, s0, steps[0], s1);
  }
}
