/** The tracked pages of user processes: loading an image, mmap, fork and reaping in
`oslabs/kernel/src/uproc.c`.

`frames` holds the physical frames in use and their contents.  `supply` is what `pmm->alloc` returns
during a call: frames not in use, and failure once it is exhausted.  A full mapping table and, except
in mmap, a failed allocation are panics, after which the machine is halted.
 */
module UserMemory {
  import opened Common
  import Bits

  const PROT_READ: nat := 2
  const PROT_WRITE: nat := 4
  const PGSIZE: nat := 4096
  const USER_BASE: nat := 0x4000_0000
  const USER_HEAP: nat := 0x5000_0000
  const USER_END: nat := 0xc000_0000
  const STK_PAGES: nat := 32
  const BSS_SLACK: nat := 128 * 1024
  const PROC_MAXMAP: nat := 1024

  type Page = seq<int>
  type Frames = map<nat, Page>

  datatype Vmap = Vmap(va: nat, pa: nat, prot: nat)

  datatype Space = Space(maps: seq<Vmap>, heapTop: nat)

  type Spaces = map<nat, Space>

  datatype Outcome = Done | Failed | Panic

  function ZeroPage(): Page { seq(4096, _ => 0) }

  // ------------------------------------------------------------------ frames

  /** Mapping `i` of process `p` is frame `pa`. */
  predicate Owns(spaces: Spaces, p: nat, i: nat, pa: nat) {
    p in spaces && i < |spaces[p].maps| && spaces[p].maps[i].pa == pa
  }

  /** Every tracked frame is in use and tracked once, by one process. */
  ghost predicate FramesOk(frames: Frames, spaces: Spaces) {
    && (forall p, i, pa :: Owns(spaces, p, i, pa) ==> pa in frames)
    && (forall p, i, q, j, pa :: Owns(spaces, p, i, pa) && Owns(spaces, q, j, pa) ==> p == q && i == j)
    && (forall p :: p in spaces ==> |spaces[p].maps| <= PROC_MAXMAP)
    && (forall p, i :: p in spaces && 0 <= i < |spaces[p].maps| ==> InUserSpace(spaces[p].maps[i].va))
  }

  /** The check of `map` on an address. */
  predicate InUserSpace(va: nat) {
    USER_BASE <= va < USER_END
  }

  ghost predicate Fresh(frames: Frames, supply: seq<nat>) {
    && (forall i :: 0 <= i < |supply| ==> supply[i] !in frames)
    && (forall i, j :: 0 <= i < j < |supply| ==> supply[i] != supply[j])
  }

  /** Mapping `i` goes to frame `supply[i]`. */
  ghost predicate Planned(plan: seq<Vmap>, pages: seq<Page>, supply: seq<nat>) {
    |plan| == |pages| && |plan| <= |supply| && forall i :: 0 <= i < |plan| ==> plan[i].pa == supply[i]
  }

  /** Process `p` has gained the first `k` mappings of `plan`, to fresh frames with the contents `pages`;
      every other mapping and every frame in use before is as it was. */
  ghost predicate Placed(frames: Frames, spaces: Spaces, frames': Frames, spaces': Spaces, p: nat, plan: seq<Vmap>, pages: seq<Page>, k: nat)
    requires k <= |plan| == |pages|
  {
    && p in spaces
    && spaces' == spaces[p := spaces[p].(maps := spaces[p].maps + plan[..k])]
    && (forall pa :: pa in frames ==> pa in frames' && frames'[pa] == frames[pa])
    && (forall pa :: pa in frames' ==> pa in frames || exists i :: 0 <= i < k && plan[i].pa == pa)
    && (forall i :: 0 <= i < k ==> plan[i].pa in frames' && frames'[plan[i].pa] == pages[i])
  }

  lemma PlacedNone(frames: Frames, spaces: Spaces, p: nat, plan: seq<Vmap>, pages: seq<Page>)
    requires p in spaces && |plan| == |pages|
    ensures Placed(frames, spaces, frames, spaces, p, plan, pages, 0)
  {
    assert spaces[p].maps + plan[..0] == spaces[p].maps;
  }

  lemma NextIsFresh(frames: Frames, spaces: Spaces, frames': Frames, spaces': Spaces, p: nat, plan: seq<Vmap>, pages: seq<Page>, k: nat, supply: seq<nat>)
    requires Fresh(frames, supply) && Planned(plan, pages, supply) && k < |plan|
    requires Placed(frames, spaces, frames', spaces', p, plan, pages, k)
    ensures plan[k].pa !in frames'
  {
  }

  lemma PlacedOne(frames: Frames, spaces: Spaces, frames1: Frames, spaces1: Spaces, p: nat, plan: seq<Vmap>, pages: seq<Page>, k: nat)
    requires k < |plan| == |pages| && Placed(frames, spaces, frames1, spaces1, p, plan, pages, k) && plan[k].pa !in frames1
    ensures Placed(frames, spaces, frames1[plan[k].pa := pages[k]],
                   spaces1[p := spaces1[p].(maps := spaces1[p].maps + [plan[k]])], p, plan, pages, k + 1)
  {
    assert plan[..k + 1] == plan[..k] + [plan[k]];
    assert spaces[p].maps + plan[..k + 1] == spaces1[p].maps + [plan[k]];
  }

  /** One more mapping, to a fresh frame. */
  lemma AddMap(frames: Frames, spaces: Spaces, p: nat, m: Vmap, page: Page)
    requires FramesOk(frames, spaces) && p in spaces && m.pa !in frames && |spaces[p].maps| < PROC_MAXMAP && InUserSpace(m.va)
    ensures FramesOk(frames[m.pa := page], spaces[p := spaces[p].(maps := spaces[p].maps + [m])])
  {
    var spaces' := spaces[p := spaces[p].(maps := spaces[p].maps + [m])];
    forall q, i, pa | Owns(spaces', q, i, pa) ensures Owns(spaces, q, i, pa) || (q == p && i == |spaces[p].maps| && pa == m.pa) {
    }
  }

  /** `n` consecutive pages from `base`, in the frames of `supply`, as far as it goes. */
  ghost function Ascending(base: nat, n: nat, prot: nat, supply: seq<nat>): seq<Vmap> {
    seq(Min(n, |supply|), i requires 0 <= i < Min(n, |supply|) => Vmap(base + 4096 * i, supply[i], prot))
  }

  /** How many consecutive pages from `base` are user addresses. */
  function InRange(base: nat): nat {
    if InUserSpace(base) then (USER_END - base + 4095) / 4096 else 0
  }

  /** How many pages from `base` a call can map before a frame, a mapping or an address runs out. */
  function Available(space: Space, base: nat, frames: nat): nat {
    var room := if |space.maps| <= PROC_MAXMAP then PROC_MAXMAP - |space.maps| else 0;
    Min(frames, Min(room, InRange(base)))
  }

  lemma AvailableMore(space: Space, base: nat, frames: nat, k: nat)
    requires k <= Available(space, base, frames) && |space.maps| <= PROC_MAXMAP
    ensures k < Available(space, base, frames) <==>
              k < frames && |space.maps| + k < PROC_MAXMAP && InUserSpace(base + 4096 * k)
  {
  }

  class Memory {
    var frames: Frames
    var spaces: Spaces
    var freed: seq<nat>

    ghost predicate Valid()
      reads this
    {
      FramesOk(frames, spaces)
    }

    /** `up_map` of a fresh frame: `true` unless the mapping table is full or the address no user address. */
    method UpMap(p: nat, va: nat, pa: nat, prot: nat, page: Page) returns (ok: bool)
      requires Valid() && p in spaces && pa !in frames
      modifies this`frames, this`spaces
      ensures Valid() && ok == (old(|spaces[p].maps|) < PROC_MAXMAP && InUserSpace(va))
      ensures ok ==> frames == old(frames)[pa := page]
                     && spaces == old(spaces)[p := old(spaces)[p].(maps := old(spaces)[p].maps + [Vmap(va, pa, prot)])]
      ensures !ok ==> frames == old(frames) && spaces == old(spaces)
    {
      if |spaces[p].maps| >= PROC_MAXMAP || !InUserSpace(va) {
        return false;
      }
      AddMap(frames, spaces, p, Vmap(va, pa, prot), page);
      frames := frames[pa := page];
      spaces := spaces[p := spaces[p].(maps := spaces[p].maps + [Vmap(va, pa, prot)])];
      ok := true;
    }

    /** Allocate a frame, fill it and map it: the `k`-th mapping of `plan`. */
    method Place(p: nat, va: nat, prot: nat, page: Page, supply: seq<nat>, k: nat,
                 ghost frames0: Frames, ghost spaces0: Spaces, ghost plan: seq<Vmap>, ghost pages: seq<Page>)
      returns (outcome: Outcome)
      requires Valid() && Fresh(frames0, supply) && Planned(plan, pages, supply) && k <= |plan|
      requires Placed(frames0, spaces0, frames, spaces, p, plan, pages, k)
      requires k < |supply| ==> k < |plan| && plan[k] == Vmap(va, supply[k], prot) && pages[k] == page
      modifies this`frames, this`spaces
      ensures Valid()
      ensures outcome == if k >= |supply| then Failed
                         else if |old(spaces)[p].maps| >= PROC_MAXMAP || !InUserSpace(va) then Panic else Done
      ensures outcome == Done ==> k < |plan| && Placed(frames0, spaces0, frames, spaces, p, plan, pages, k + 1)
      ensures outcome != Done ==> frames == old(frames) && spaces == old(spaces)
    {
      if k >= |supply| {
        return Failed;
      }
      NextIsFresh(frames0, spaces0, frames, spaces, p, plan, pages, k, supply);
      PlacedOne(frames0, spaces0, frames, spaces, p, plan, pages, k);
      var ok := UpMap(p, va, supply[k], prot, page);
      outcome := if ok then Done else Panic;
    }

    /** The loop of `sys_mmap`: zeroed pages from `base`.  A failed allocation leaves the pages mapped so far. */
    method MapZeroed(p: nat, base: nat, n: nat, prot: nat, supply: seq<nat>) returns (outcome: Outcome, k: nat)
      requires Valid() && p in spaces && Fresh(frames, supply)
      modifies this`frames, this`spaces
      ensures Valid() && k == Min(n, Available(old(spaces)[p], base, |supply|)) && k <= |supply|
      ensures var plan := Ascending(base, n, prot, supply);
              Placed(old(frames), old(spaces), frames, spaces, p, plan, seq(|plan|, _ => ZeroPage()), k)
      ensures outcome == if k == n then Done else if k == |supply| then Failed else Panic
    {
      ghost var plan := Ascending(base, n, prot, supply);
      ghost var pages := seq(|plan|, _ => ZeroPage());
      k := 0;
      PlacedNone(frames, spaces, p, plan, pages);
      while k < n
        invariant k <= n && k <= |plan| && Valid() && k <= Available(old(spaces)[p], base, |supply|)
        invariant Placed(old(frames), old(spaces), frames, spaces, p, plan, pages, k)
      {
        AvailableMore(old(spaces)[p], base, |supply|, k);
        assert k < |supply| ==> plan[k] == Vmap(base + 4096 * k, supply[k], prot);
        outcome := Place(p, base + 4096 * k, prot, ZeroPage(), supply, k, old(frames), old(spaces), plan, pages);
        if outcome != Done {
          return;
        }
        k := k + 1;
      }
      outcome := Done;
    }

    /** The mapping part of `sys_mmap`. */
    method MapFrom(p: nat, base: nat, n: nat, addr: nat, prot: nat, supply: seq<nat>) returns (outcome: Outcome, k: nat)
      requires Valid() && p in spaces && Fresh(frames, supply)
      modifies this`frames, this`spaces
      ensures Valid() && k == Min(n, Available(old(spaces)[p], base, |supply|)) && k <= |supply|
      ensures outcome == if k == n then Done else if k == |supply| then Failed else Panic
      ensures Grown(old(frames), old(spaces), frames, spaces, p, Ascending(base, n, prot, supply), k)
      ensures spaces[p].heapTop == if outcome == Done && addr == 0 then base + 4096 * n else old(spaces)[p].heapTop
    {
      outcome, k := MapZeroed(p, base, n, prot, supply);
      if outcome == Done && addr == 0 {
        HeapKeeps(frames, spaces, p, base + 4096 * n);
        spaces := spaces[p := spaces[p].(heapTop := base + 4096 * n)];
      }
    }

    /** `sys_mmap`.  `k` is the number of pages mapped: as many as were asked for, or as many as frames, mapping
        table and user space allow.  Only complete success moves the heap. */
    method Mmap(p: nat, addr: nat, length: int, prot: nat, unmap: bool, supply: seq<nat>)
      returns (outcome: Outcome, base: nat, k: nat)
      requires Valid() && p in spaces && Fresh(frames, supply)
      modifies this`frames, this`spaces
      ensures Valid()
      ensures var n, start := Asked(length, unmap), StartOf(old(spaces)[p], addr);
              var available := Available(old(spaces)[p], start, |supply|);
              && k == Min(n, available) && k <= |supply|
              && outcome == (if n == 0 then Failed else if available >= n then Done else if k == |supply| then Failed else Panic)
              && Grown(old(frames), old(spaces), frames, spaces, p, Ascending(start, n, AmProt(prot), supply), k)
              && (outcome == Done ==> base == start)
              && spaces[p].heapTop == if outcome == Done && addr == 0 then start + 4096 * n else old(spaces)[p].heapTop
      ensures outcome == Done ==> Covers(spaces[p], base, length) && 4096 * k < length + 4096
      ensures outcome == Done ==> base % 4096 == 0 && base <= (if addr != 0 then addr else old(spaces)[p].heapTop) < base + 4096
      ensures LaidOut(old(spaces)[p]) ==>
                (LaidOut(spaces[p]) <==> MmapIsTidy(old(spaces)[p], addr, length, unmap, |supply|))
      ensures Distinct(spaces[p]) <==>
                Distinct(old(spaces)[p]) && forall i :: 0 <= i < k ==> Unmapped(old(spaces)[p], StartOf(old(spaces)[p], addr), i)
      ensures old(Tidy()) && MmapIsTidy(old(spaces)[p], addr, length, unmap, |supply|) ==> Tidy()
    {
      ghost var space := spaces[p];
      base := 0;
      if length <= 0 {
        NothingMapped(frames, spaces, p);
        MmapKeeps(space, spaces[p], addr, length, unmap, supply, AmProt(prot), 0);
        return Failed, 0, 0;
      }
      base := StartOf(spaces[p], addr);
      var n := Pages(length);
      if unmap {
        NothingMapped(frames, spaces, p);
        MmapKeeps(space, spaces[p], addr, length, unmap, supply, AmProt(prot), 0);
        return Failed, base, 0;
      }
      outcome, k := MapFrom(p, base, n, addr, AmProt(prot), supply);
      GrownMaps(old(frames), old(spaces), frames, spaces, p, Ascending(base, n, AmProt(prot), supply), k);
      MmapKeeps(space, spaces[p], addr, length, unmap, supply, AmProt(prot), k);
      PagesBound(length);
      RoundedBounds(if addr != 0 then addr else space.heapTop);
      if outcome == Done {
        PagesCover(spaces[p], |space.maps|, base, n, length);
      }
    }

    /** Every process is laid out: image, stack and heap apart, the heap pointer behind the heap. */
    ghost predicate Tidy()
      reads this
    {
      forall q :: q in spaces ==> LaidOut(spaces[q])
    }

    /** `proc_alloc` and `proc_load_image`: a new process, laid out. */
    method Spawn(p: nat, bin: seq<int>, supply: seq<nat>) returns (outcome: Outcome)
      requires Valid() && p !in spaces && Fresh(frames, supply)
      modifies this`frames, this`spaces
      ensures Valid() && outcome == if ImagePages(|bin|) + STK_PAGES <= Min(|supply|, PROC_MAXMAP) then Done else Panic
      ensures outcome == Done ==> p in spaces && spaces == old(spaces)[p := spaces[p]] && Layout(spaces[p], ImagePages(|bin|), 0)
      ensures outcome == Done ==> forall pa :: pa in frames ==> pa in old(frames) || pa in supply
      ensures outcome == Done && old(Tidy()) ==> Tidy()
    {
      NewSpace(frames, spaces, p);
      spaces := spaces[p := Space([], USER_HEAP)];
      outcome := LoadImage(p, bin, supply);
    }

    /** The first loop of `proc_load_image`: the image and its zeroed slack. */
    method LoadBytes(p: nat, bin: seq<int>, npg: nat, supply: seq<nat>, ghost plan: seq<Vmap>, ghost pages: seq<Page>)
      returns (ok: bool)
      requires Valid() && p in spaces && Fresh(frames, supply)
      requires Planned(plan, pages, supply) && |plan| == Min(npg + STK_PAGES, |supply|)
      requires forall i :: 0 <= i < Min(npg, |plan|) ==>
                 plan[i] == Vmap(USER_BASE + 4096 * i, supply[i], READ_WRITE) && pages[i] == ImagePage(bin, i)
      modifies this`frames, this`spaces
      ensures Valid() && ok == (npg <= |supply| && |old(spaces)[p].maps| + npg <= PROC_MAXMAP)
      ensures ok ==> npg <= |plan| && Placed(old(frames), old(spaces), frames, spaces, p, plan, pages, npg)
    {
      PlacedNone(frames, spaces, p, plan, pages);
      var k, va := 0, USER_BASE;
      while k < npg
        invariant k <= npg && k <= |plan| && va == USER_BASE + 4096 * k && Valid() && |old(spaces)[p].maps| + k <= PROC_MAXMAP
        invariant Placed(old(frames), old(spaces), frames, spaces, p, plan, pages, k)
      {
        var outcome := Place(p, va, READ_WRITE, ImagePage(bin, k), supply, k, old(frames), old(spaces), plan, pages);
        if outcome != Done {
          return false;
        }
        k, va := k + 1, va + PGSIZE;
      }
      ok := true;
    }

    /** Its second loop: the stack, downwards from the end of user space. */
    method LoadStack(p: nat, npg: nat, supply: seq<nat>, ghost frames0: Frames, ghost spaces0: Spaces,
                     ghost plan: seq<Vmap>, ghost pages: seq<Page>) returns (ok: bool)
      requires Valid() && Fresh(frames0, supply) && Planned(plan, pages, supply) && |plan| == Min(npg + STK_PAGES, |supply|)
      requires npg <= |plan| && Placed(frames0, spaces0, frames, spaces, p, plan, pages, npg)
      requires forall i :: npg <= i < |plan| ==> plan[i] == Vmap(USER_END - 4096 * (i - npg + 1), supply[i], READ_WRITE) && pages[i] == ZeroPage()
      modifies this`frames, this`spaces
      ensures Valid() && ok == (npg + STK_PAGES <= |supply| && |spaces0[p].maps| + npg + STK_PAGES <= PROC_MAXMAP)
      ensures ok ==> |plan| == npg + STK_PAGES && Placed(frames0, spaces0, frames, spaces, p, plan, pages, |plan|)
    {
      assert spaces[p].maps == spaces0[p].maps + plan[..npg];
      var i := 0;
      while i < STK_PAGES
        invariant i <= STK_PAGES && npg + i <= |plan| && Valid() && |spaces0[p].maps| + npg + i <= PROC_MAXMAP
        invariant Placed(frames0, spaces0, frames, spaces, p, plan, pages, npg + i)
      {
        assert npg + i < |supply| ==> plan[npg + i] == Vmap(USER_END - 4096 * (i + 1), supply[npg + i], READ_WRITE);
        var outcome := Place(p, USER_END - 4096 * (i + 1), READ_WRITE, ZeroPage(), supply, npg + i, frames0, spaces0, plan, pages);
        if outcome != Done {
          return false;
        }
        i := i + 1;
      }
      ok := true;
    }

    /** `proc_load_image` into an empty address space: the image, its slack and the stack. */
    method LoadImage(p: nat, bin: seq<int>, supply: seq<nat>) returns (outcome: Outcome)
      requires Valid() && p in spaces && spaces[p].maps == [] && Fresh(frames, supply)
      modifies this`frames, this`spaces
      ensures Valid() && outcome == if ImagePages(|bin|) + STK_PAGES <= Min(|supply|, PROC_MAXMAP) then Done else Panic
      ensures outcome == Done ==>
                var plan := ImagePlan(|bin|, supply);
                && |plan| == ImagePages(|bin|) + STK_PAGES
                && Placed(old(frames), old(spaces), frames, spaces, p, plan, ImageContents(bin, |plan|), |plan|)
      ensures outcome == Done ==> Covers(spaces[p], USER_BASE, |bin| + BSS_SLACK) && AllWritable(spaces[p])
      ensures outcome == Done && old(spaces)[p].heapTop == USER_HEAP ==> Layout(spaces[p], ImagePages(|bin|), 0)
    {
      ghost var plan := ImagePlan(|bin|, supply);
      ghost var pages := ImageContents(bin, |plan|);
      ghost var frames0, spaces0 := frames, spaces;
      var ok := LoadBytes(p, bin, ImagePages(|bin|), supply, plan, pages);
      if ok {
        ok := LoadStack(p, ImagePages(|bin|), supply, frames0, spaces0, plan, pages);
      }
      if ok {
        LoadLaysOut(frames0, spaces0, frames, spaces, p, |bin|, supply, pages);
      }
      outcome := if ok then Done else Panic;
    }

    /** The copy loop of `sys_fork`. */
    method CopyMaps(parent: nat, child: nat, supply: seq<nat>, ghost plan: seq<Vmap>, ghost pages: seq<Page>) returns (ok: bool)
      requires Valid() && parent in spaces && child in spaces && parent != child && Fresh(frames, supply)
      requires plan == CopyPlan(spaces[parent].maps, supply) && IsContents(frames, spaces[parent].maps, pages) && |pages| == |plan|
      requires spaces[child].maps == []
      modifies this`frames, this`spaces
      ensures Valid() && ok == (|supply| >= |old(spaces)[parent].maps|)
      ensures ok ==> |plan| == |old(spaces)[parent].maps|
                     && Placed(old(frames), old(spaces), frames, spaces, child, plan, pages, |plan|)
    {
      PlacedNone(frames, spaces, child, plan, pages);
      var i, maps := 0, spaces[parent].maps;
      while i < |maps|
        invariant i <= |maps| && i <= |plan| && Valid()
        invariant Placed(old(frames), old(spaces), frames, spaces, child, plan, pages, i)
      {
        var m := maps[i];
        assert Owns(old(spaces), parent, i, m.pa);
        var outcome := Place(child, m.va, m.prot, frames[m.pa], supply, i, old(frames), old(spaces), plan, pages);
        if outcome != Done {
          return false;
        }
        i := i + 1;
      }
      ok := true;
    }

    /** `sys_fork`, as far as memory is concerned: equal contents at equal addresses, in fresh frames. */
    method Fork(parent: nat, child: nat, supply: seq<nat>) returns (outcome: Outcome)
      requires Valid() && parent in spaces && child !in spaces && Fresh(frames, supply)
      modifies this`frames, this`spaces
      ensures Valid() && outcome == if |supply| >= |old(spaces)[parent].maps| then Done else Panic
      ensures outcome == Done && old(Tidy()) ==> Tidy()
      ensures outcome == Done ==>
                && parent in spaces && child in spaces && IsCopy(old(frames), spaces[parent], frames, spaces[child])
                && spaces == old(spaces)[child := spaces[child]]
                && (forall pa :: pa in old(frames) ==> pa in frames && frames[pa] == old(frames)[pa])
                && (forall i :: 0 <= i < |spaces[child].maps| ==> spaces[child].maps[i].pa !in old(frames))
    {
      NewSpace(frames, spaces, child);
      spaces := spaces[child := Space([], USER_HEAP)];
      ghost var spaces0 := spaces;
      ghost var plan := CopyPlan(spaces[parent].maps, supply);
      ghost var pages := ContentsOf(frames, spaces, parent, |plan|);
      var ok := CopyMaps(parent, child, supply, plan, pages);
      if !ok {
        return Panic;
      }
      assert spaces[child].maps == plan;
      HeapKeeps(frames, spaces, child, spaces[parent].heapTop);
      spaces := spaces[child := spaces[child].(heapTop := spaces[parent].heapTop)];
      CopyIsCopy(old(frames), spaces0, parent, plan, pages, frames, supply, spaces[child]);
      if LaidOut(spaces0[parent]) {
        ForkLaysOut(old(frames), spaces0[parent], frames, spaces[child]);
      }
      outcome := Done;
    }

    /** `proc_free_mem` of a reaped process: each of its frames is freed once. */
    method FreeMem(p: nat)
      requires Valid() && p in spaces
      modifies this`frames, this`spaces, this`freed
      ensures Valid() && spaces == old(spaces) - {p} && (old(Tidy()) ==> Tidy())
      ensures freed == old(freed) + FramesOf(old(spaces)[p].maps)
      ensures forall pa :: pa in frames <==> pa in old(frames) && pa !in FramesOf(old(spaces)[p].maps)
      ensures forall pa :: pa in frames ==> frames[pa] == old(frames)[pa]
    {
      var maps := spaces[p].maps;
      var i := 0;
      while i < |maps|
        invariant spaces == old(spaces) && i <= |maps| && freed == old(freed) + FramesOf(maps[..i])
        invariant forall pa :: pa in frames <==> pa in old(frames) && pa !in FramesOf(maps[..i])
        invariant forall pa :: pa in frames ==> frames[pa] == old(frames)[pa]
      {
        assert Owns(spaces, p, i, maps[i].pa);
        assert forall j :: 0 <= j < i ==> Owns(spaces, p, j, maps[j].pa);
        assert maps[i].pa in frames;
        assert maps[..i + 1] == maps[..i] + [maps[i]];
        frames := frames - {maps[i].pa};
        freed := freed + [maps[i].pa];
        i := i + 1;
      }
      assert maps[..i] == maps;
      FreedKeeps(old(frames), spaces, p, frames);
      spaces := spaces - {p};
    }
  }

  const READ_WRITE: nat := 3

  function Rounded(x: nat): nat { x - x % 4096 }

  function Pages(length: int): nat
    requires length > 0
  {
    (length + 4095) / 4096
  }

  lemma PagesBound(length: int)
    requires length > 0
    ensures length <= 4096 * Pages(length) < length + 4096
  {
  }

  lemma RoundedBounds(x: nat)
    ensures Rounded(x) % 4096 == 0 && Rounded(x) <= x < Rounded(x) + 4096
  {
  }

  /** Byte `a` lies in a mapped page. */
  predicate IsMapped(space: Space, a: nat) {
    exists j :: 0 <= j < |space.maps| && space.maps[j].va <= a < space.maps[j].va + 4096
  }

  ghost predicate Covers(space: Space, start: nat, bytes: nat) {
    forall a: nat :: start <= a < start + bytes ==> IsMapped(space, a)
  }

  /** Every page can be read and written. */
  predicate AllWritable(space: Space) {
    forall i :: 0 <= i < |space.maps| ==> GrantsBoth(space.maps[i].prot)
  }

  predicate GrantsBoth(prot: nat) { prot % 2 == 1 && prot / 2 % 2 == 1 }

  /** Consecutive pages cover as many bytes as they have. */
  lemma PagesCover(space: Space, first: nat, base: nat, n: nat, bytes: nat)
    requires first + n <= |space.maps| && bytes <= 4096 * n
    requires forall i :: 0 <= i < n ==> space.maps[first + i].va == base + 4096 * i
    ensures Covers(space, base, bytes)
  {
    forall a: nat | base <= a < base + bytes ensures IsMapped(space, a) {
      var i := (a - base) / 4096;
      assert space.maps[first + i].va == base + 4096 * i;
    }
  }

  /** The pages a call asks for; none if it is refused outright. */
  function Asked(length: int, unmap: bool): nat {
    if length <= 0 || unmap then 0 else Pages(length)
  }

  /** Where an mmap starts: at the address given, or at the heap pointer. */
  function StartOf(space: Space, addr: nat): nat {
    Rounded(if addr != 0 then addr else space.heapTop)
  }

  /** The AM protection of a PROT value: read is the default. */
  function AmProt(prot: nat): nat {
    var p := (if prot / 2 % 2 == 1 then 1 else 0) + (if prot / 4 % 2 == 1 then 2 else 0);
    if p == 0 then 1 else p
  }

  /** A page can be written iff that was asked for, and read unless only writing was. */
  lemma AmProtGrants(prot: nat)
    ensures AmProt(prot) / 2 % 2 == 1 <==> Bits.And(prot, PROT_WRITE) != 0
    ensures AmProt(prot) % 2 == 1 <==> Bits.And(prot, PROT_READ) != 0 || Bits.And(prot, PROT_WRITE) == 0
  {
    assert Bits.And(prot, 2) == 2 * Bits.And(prot / 2, 1);
    assert Bits.And(prot / 2, 1) == (if prot / 2 % 2 == 1 then 1 else 0);
    assert Bits.And(prot / 4, 1) == (if prot / 4 % 2 == 1 then 1 else 0);
    assert Bits.And(prot, 4) == 2 * Bits.And(prot / 2, 2) && Bits.And(prot / 2, 2) == 2 * Bits.And(prot / 4, 1);
  }

  /** The effect of mmap on everything but the heap pointer. */
  ghost predicate Grown(frames: Frames, spaces: Spaces, frames': Frames, spaces': Spaces, p: nat, plan: seq<Vmap>, k: nat)
    requires k <= |plan|
  {
    && p in spaces && p in spaces'
    && Placed(frames, spaces, frames', spaces'[p := spaces'[p].(heapTop := spaces[p].heapTop)], p, plan, seq(|plan|, _ => ZeroPage()), k)
  }

  lemma GrownMaps(frames: Frames, spaces: Spaces, frames': Frames, spaces': Spaces, p: nat, plan: seq<Vmap>, k: nat)
    requires k <= |plan| && Grown(frames, spaces, frames', spaces', p, plan, k)
    ensures spaces'[p].maps == spaces[p].maps + plan[..k] && spaces'.Keys == spaces.Keys
    ensures forall q :: q in spaces && q != p ==> spaces'[q] == spaces[q]
  {
    var restored := spaces'[p := spaces'[p].(heapTop := spaces[p].heapTop)];
    assert restored.Keys == spaces'.Keys && restored[p].maps == spaces'[p].maps;
    assert forall q :: q in spaces && q != p ==> restored[q] == spaces'[q];
  }

  lemma HeapKeeps(frames: Frames, spaces: Spaces, p: nat, top: nat)
    requires FramesOk(frames, spaces) && p in spaces
    ensures FramesOk(frames, spaces[p := spaces[p].(heapTop := top)])
  {
    var spaces' := spaces[p := spaces[p].(heapTop := top)];
    forall q, i, pa ensures Owns(spaces', q, i, pa) <==> Owns(spaces, q, i, pa) {
    }
  }

  lemma NewSpace(frames: Frames, spaces: Spaces, p: nat)
    requires FramesOk(frames, spaces) && p !in spaces
    ensures FramesOk(frames, spaces[p := Space([], USER_HEAP)])
  {
    var spaces' := spaces[p := Space([], USER_HEAP)];
    forall q, i, pa ensures Owns(spaces', q, i, pa) <==> Owns(spaces, q, i, pa) {
    }
  }

  lemma FreedKeeps(frames: Frames, spaces: Spaces, p: nat, frames': Frames)
    requires FramesOk(frames, spaces) && p in spaces
    requires forall pa :: pa in frames' <==> pa in frames && pa !in FramesOf(spaces[p].maps)
    ensures FramesOk(frames', spaces - {p})
  {
    var spaces' := spaces - {p};
    forall q, i, pa | Owns(spaces', q, i, pa) ensures Owns(spaces, q, i, pa) && pa in frames' {
      assert Owns(spaces, q, i, pa);
      forall j | 0 <= j < |spaces[p].maps| ensures FramesOf(spaces[p].maps)[j] != pa {
        assert Owns(spaces, p, j, spaces[p].maps[j].pa);
      }
    }
  }

  function FramesOf(maps: seq<Vmap>): (pas: seq<nat>)
    ensures |pas| == |maps| && forall i :: 0 <= i < |maps| ==> pas[i] == maps[i].pa
  {
    seq(|maps|, i requires 0 <= i < |maps| => maps[i].pa)
  }

  // ------------------------------------------------------------------ images

  function ImagePages(len: nat): nat {
    (len + BSS_SLACK + PGSIZE - 1) / PGSIZE
  }

  /** Page `i` of an image: its bytes, then zeros. */
  function ImagePage(bin: seq<int>, i: nat): Page {
    var off := 4096 * i;
    if off >= |bin| then ZeroPage()
    else if |bin| - off >= 4096 then bin[off..off + 4096]
    else bin[off..] + seq(4096 - (|bin| - off), _ => 0)
  }

  /** Every byte of the image, and zeros behind it, whatever the page boundaries. */
  lemma ImageByte(bin: seq<int>, i: nat, j: nat)
    requires j < 4096
    ensures |ImagePage(bin, i)| == 4096
    ensures ImagePage(bin, i)[j] == if 4096 * i + j < |bin| then bin[4096 * i + j] else 0
  {
  }

  ghost function ImagePlan(len: nat, supply: seq<nat>): seq<Vmap> {
    var n := ImagePages(len);
    seq(Min(n + STK_PAGES, |supply|), i requires 0 <= i < Min(n + STK_PAGES, |supply|) =>
      Vmap(if i < n then USER_BASE + 4096 * i else USER_END - 4096 * (i - n + 1), supply[i], READ_WRITE))
  }

  ghost function ImageContents(bin: seq<int>, k: nat): seq<Page> {
    seq(k, i => if 0 <= i < ImagePages(|bin|) then ImagePage(bin, i) else ZeroPage())
  }

  ghost function CopyPlan(maps: seq<Vmap>, supply: seq<nat>): seq<Vmap> {
    seq(Min(|maps|, |supply|), i requires 0 <= i < Min(|maps|, |supply|) => Vmap(maps[i].va, supply[i], maps[i].prot))
  }

  /** The contents of the first pages of `maps`. */
  ghost predicate IsContents(frames: Frames, maps: seq<Vmap>, pages: seq<Page>) {
    |pages| <= |maps| && forall i :: 0 <= i < |pages| ==> maps[i].pa in frames && pages[i] == frames[maps[i].pa]
  }

  ghost function ContentsOf(frames: Frames, spaces: Spaces, p: nat, k: nat): (pages: seq<Page>)
    requires FramesOk(frames, spaces) && p in spaces && k <= |spaces[p].maps|
    ensures IsContents(frames, spaces[p].maps, pages) && |pages| == k
  {
    assert forall i :: 0 <= i < k ==> Owns(spaces, p, i, spaces[p].maps[i].pa);
    seq(k, i requires 0 <= i < k => frames[spaces[p].maps[i].pa])
  }

  lemma CopyIsCopy(frames: Frames, spaces: Spaces, parent: nat, plan: seq<Vmap>, pages: seq<Page>, frames': Frames, supply: seq<nat>, child: Space)
    requires parent in spaces && plan == CopyPlan(spaces[parent].maps, supply) && |plan| == |spaces[parent].maps| == |pages|
    requires IsContents(frames, spaces[parent].maps, pages) && child == Space(plan, spaces[parent].heapTop)
    requires forall i :: 0 <= i < |plan| ==> plan[i].pa in frames' && frames'[plan[i].pa] == pages[i]
    ensures IsCopy(frames, spaces[parent], frames', child)
  {
  }

  /** `child` has the contents of `parent` at the same addresses. */
  ghost predicate IsCopy(frames: Frames, parent: Space, frames': Frames, child: Space) {
    && |child.maps| == |parent.maps| && child.heapTop == parent.heapTop
    && forall i :: 0 <= i < |child.maps| ==>
         && child.maps[i].va == parent.maps[i].va && child.maps[i].prot == parent.maps[i].prot
         && child.maps[i].pa in frames' && parent.maps[i].pa in frames
         && frames'[child.maps[i].pa] == frames[parent.maps[i].pa]
  }

  // ------------------------------------------------------------------ address layout

  /** `n` image pages, then the stack, then `h` heap pages; the heap pointer is behind the last. */
  ghost predicate Layout(space: Space, n: nat, h: nat) {
    && |space.maps| == n + STK_PAGES + h <= PROC_MAXMAP && space.heapTop == USER_HEAP + 4096 * h
    && (forall i :: 0 <= i < n ==> space.maps[i].va == USER_BASE + 4096 * i)
    && (forall i :: n <= i < n + STK_PAGES ==> space.maps[i].va == USER_END - 4096 * (i - n + 1))
    && (forall i :: n + STK_PAGES <= i < |space.maps| ==> space.maps[i].va == USER_HEAP + 4096 * (i - n - STK_PAGES))
  }

  ghost predicate LaidOut(space: Space) {
    exists n: nat, h: nat :: Layout(space, n, h)
  }

  ghost predicate Distinct(space: Space) {
    forall i, j :: 0 <= i < j < |space.maps| ==> space.maps[i].va != space.maps[j].va
  }

  /** The bound of 1024 mappings keeps image, heap and stack apart. */
  lemma LayoutDistinct(space: Space)
    requires LaidOut(space)
    ensures Distinct(space)
    ensures forall i :: 0 <= i < |space.maps| ==> USER_BASE <= space.maps[i].va < USER_END
  {
    var n: nat, h: nat :| Layout(space, n, h);
  }

  /** While all calls are tidy, all addresses of every process are distinct. */
  lemma AllDistinct(m: Memory)
    requires m.Tidy()
    ensures forall p :: p in m.spaces ==> Distinct(m.spaces[p])
  {
    forall p | p in m.spaces ensures Distinct(m.spaces[p]) {
      LayoutDistinct(m.spaces[p]);
    }
  }

  lemma PlanWritable(space: Space, len: nat, supply: seq<nat>)
    requires space.maps == ImagePlan(len, supply)
    ensures AllWritable(space)
  {
    assert GrantsBoth(READ_WRITE);
  }

  /** A loaded image is laid out. */
  lemma LoadLaysOut(frames: Frames, spaces: Spaces, frames': Frames, spaces': Spaces, p: nat, len: nat, supply: seq<nat>, pages: seq<Page>)
    requires var plan := ImagePlan(len, supply);
             |plan| == |pages| == ImagePages(len) + STK_PAGES && Placed(frames, spaces, frames', spaces', p, plan, pages, |plan|)
    requires FramesOk(frames', spaces') && spaces[p].maps == []
    ensures spaces[p].heapTop == USER_HEAP ==> Layout(spaces'[p], ImagePages(len), 0)
    ensures Covers(spaces'[p], USER_BASE, len + BSS_SLACK) && AllWritable(spaces'[p])
  {
    var plan := ImagePlan(len, supply);
    assert |spaces'[p].maps| <= PROC_MAXMAP;
    assert spaces'[p].maps == plan;
    PlanWritable(spaces'[p], len, supply);
    PagesCover(spaces'[p], 0, USER_BASE, ImagePages(len), len + BSS_SLACK);
  }

  /** A fork is laid out like its parent. */
  lemma ForkLaysOut(frames: Frames, parent: Space, frames': Frames, child: Space)
    requires IsCopy(frames, parent, frames', child) && LaidOut(parent)
    ensures LaidOut(child)
  {
    var n: nat, h: nat :| Layout(parent, n, h);
    assert Layout(child, n, h);
  }

  /** A page is mapped at `va`. */
  predicate Maps(space: Space, va: nat) {
    exists i :: 0 <= i < |space.maps| && space.maps[i].va == va
  }

  /** Page `i` from `start` is not mapped. */
  predicate Unmapped(space: Space, start: nat, i: nat) {
    !Maps(space, start + 4096 * i)
  }

  /** What a caller can know before an mmap: it is refused, or there is nothing left to map with, or it is
      at the heap and everything it asks for is there. */
  predicate MmapIsTidy(space: Space, addr: nat, length: int, unmap: bool, frames: nat) {
    var n, available := Asked(length, unmap), Available(space, StartOf(space, addr), frames);
    n == 0 || available == 0 || (addr == 0 && available >= n)
  }

  lemma NothingMapped(frames: Frames, spaces: Spaces, p: nat)
    requires p in spaces
    ensures forall plan :: Grown(frames, spaces, frames, spaces, p, plan, 0)
  {
    forall plan ensures Grown(frames, spaces, frames, spaces, p, plan, 0) {
      PlacedNone(frames, spaces, p, plan, seq(|plan|, _ => ZeroPage()));
      assert spaces[p := spaces[p].(heapTop := spaces[p].heapTop)] == spaces;
    }
  }

  /** Mapping more pages at a laid out heap keeps the layout iff there are none or the heap pointer moves. */
  lemma HeapGrows(space: Space, plan: seq<Vmap>, k: nat, moved: bool)
    requires LaidOut(space) && k <= |plan| && |space.maps| + k <= PROC_MAXMAP
    requires moved ==> forall i :: 0 <= i < k ==> plan[i].va == space.heapTop + 4096 * i
    ensures LaidOut(Space(space.maps + plan[..k], if moved then space.heapTop + 4096 * k else space.heapTop)) <==> k == 0 || moved
  {
    var n: nat, h: nat :| Layout(space, n, h);
    var space' := Space(space.maps + plan[..k], if moved then space.heapTop + 4096 * k else space.heapTop);
    if k == 0 || moved {
      assert Layout(space', n, h + k);
    } else {
      assert space'.maps[n].va == USER_END - 4096;
      forall n': nat, h': nat ensures !Layout(space', n', h') {
        assert |space'.maps| == n' + STK_PAGES + h' && space'.heapTop == USER_HEAP + 4096 * h' ==> n < n';
      }
    }
  }

  /** New mappings leave the addresses distinct iff none of them was mapped. */
  lemma NewAddresses(maps: seq<Vmap>, top: nat, start: nat, plan: seq<Vmap>, k: nat, top': nat)
    requires k <= |plan| && forall i :: 0 <= i < k ==> plan[i].va == start + 4096 * i
    ensures Distinct(Space(maps + plan[..k], top')) <==>
              Distinct(Space(maps, top)) && forall i :: 0 <= i < k ==> Unmapped(Space(maps, top), start, i)
  {
    var after := maps + plan[..k];
    assert forall i :: 0 <= i < |maps| ==> after[i] == maps[i];
    assert forall i :: 0 <= i < k ==> after[|maps| + i] == plan[i];
    if Distinct(Space(after, top')) {
      forall i | 0 <= i < k ensures Unmapped(Space(maps, top), start, i) {
        forall j | 0 <= j < |maps| ensures maps[j].va != plan[i].va {
          assert after[j].va != after[|maps| + i].va;
        }
      }
      assert forall i, j :: 0 <= i < j < |maps| ==> after[i].va != after[j].va;
    }
    if Distinct(Space(maps, top)) && forall i :: 0 <= i < k ==> Unmapped(Space(maps, top), start, i) {
      forall i, j | 0 <= i < j < |after| ensures after[i].va != after[j].va {
        if j >= |maps| && i < |maps| {
          assert Unmapped(Space(maps, top), start, j - |maps|);
        }
      }
    }
  }

  lemma HeapAligned(space: Space)
    requires LaidOut(space)
    ensures StartOf(space, 0) == space.heapTop
  {
    var n: nat, h: nat :| Layout(space, n, h);
  }

  /** The effect of an mmap on the layout and on the addresses of its process, whatever the call. */
  lemma MmapKeeps(space: Space, space': Space, addr: nat, length: int, unmap: bool, supply: seq<nat>, prot: nat, k: nat)
    requires |space.maps| <= PROC_MAXMAP
    requires k == Min(Asked(length, unmap), Available(space, StartOf(space, addr), |supply|)) && k <= |supply|
    requires space'.maps == space.maps + Ascending(StartOf(space, addr), Asked(length, unmap), prot, supply)[..k]
    requires space'.heapTop == if 0 < Asked(length, unmap) == k && addr == 0
                               then StartOf(space, addr) + 4096 * k else space.heapTop
    ensures LaidOut(space) ==> (LaidOut(space') <==> MmapIsTidy(space, addr, length, unmap, |supply|))
    ensures Distinct(space') <==>
              Distinct(space) && forall i :: 0 <= i < k ==> Unmapped(space, StartOf(space, addr), i)
  {
    var start, n := StartOf(space, addr), Asked(length, unmap);
    var plan := Ascending(start, n, prot, supply);
    NewAddresses(space.maps, space.heapTop, start, plan, k, space'.heapTop);
    assert space == Space(space.maps, space.heapTop) && space' == Space(space.maps + plan[..k], space'.heapTop);
    if LaidOut(space) {
      var moved := 0 < n == k && addr == 0;
      HeapAligned(space);
      HeapGrows(space, plan, k, moved);
      assert space' == Space(space.maps + plan[..k], if moved then space.heapTop + 4096 * k else space.heapTop);
    }
  }

  /** A halfway failure, concretely: two pages are asked for when one frame is left; the next mmap of one page
      succeeds at the same address. */
  method FailureCollides(m: Memory, p: nat, a: nat, b: nat)
    requires m.Valid() && m.Tidy() && p in m.spaces && |m.spaces[p].maps| <= PROC_MAXMAP - 2
    requires a != b && a !in m.frames && b !in m.frames
    modifies m
    ensures m.Valid() && p in m.spaces && !Distinct(m.spaces[p])
  {
    ghost var space := m.spaces[p];
    HeapInRange(space);
    var first, base, k := m.Mmap(p, 0, 8192, 6, false, [a]);
    assert first == Failed && k == 1;
    ghost var plan := Ascending(StartOf(space, 0), 2, AmProt(6), [a]);
    GrownMaps(old(m.frames), old(m.spaces), m.frames, m.spaces, p, plan, 1);
    assert m.spaces[p].maps[|space.maps|].va == StartOf(space, 0);
    assert !Unmapped(m.spaces[p], StartOf(space, 0), 0);
    var second, base', k' := m.Mmap(p, 0, 4096, 6, false, [b]);
    assert second == Done && k' == 1;
  }

  lemma HeapInRange(space: Space)
    requires LaidOut(space) && |space.maps| <= PROC_MAXMAP - 2
    ensures StartOf(space, 0) == space.heapTop && InRange(space.heapTop) >= 2
  {
    var n: nat, h: nat :| Layout(space, n, h);
  }

  /** An explicit address, concretely: an mmap of one page at the start of the image succeeds and maps that
      address a second time. */
  method AddressCollides(m: Memory, p: nat, bin: seq<int>, supply: seq<nat>, a: nat)
    requires m.Valid() && p !in m.spaces && Fresh(m.frames, supply) && a !in m.frames && a !in supply
    requires ImagePages(|bin|) + STK_PAGES <= Min(|supply|, PROC_MAXMAP - 1)
    modifies m
    ensures m.Valid() && p in m.spaces && !Distinct(m.spaces[p])
  {
    var loaded := m.Spawn(p, bin, supply);
    assert m.spaces[p].maps[0].va == USER_BASE;
    assert !Unmapped(m.spaces[p], StartOf(m.spaces[p], USER_BASE), 0);
    var outcome, base, k := m.Mmap(p, USER_BASE, 1, 6, false, [a]);
    assert outcome == Done && k == 1;
  }
}
