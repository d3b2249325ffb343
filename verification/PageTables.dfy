/** Page tables in place: `protect`, `ptwalk`, `map` and `unprotect` of
`oslabs/abstract-machine/am/src/x86/qemu/vme.c`.

`mem` holds every table page in use, of this address space, of the kernel and of others; `pool` is the
sequence of pages `pgalloc` will return, and `freed` the pages given to `pgfree`.  An empty pool is the
panic of `pgallocz`, after which the machine is halted.
 */
module PageTables {
  import opened Common
  import opened Bits
  import opened Paging
  import opened PageTree

  const MMAP_NONE: nat := 0
  const MMAP_WRITE: nat := 2

  datatype Outcome = Done | OutOfMemory | BadCall

  /** `base | PTE_P | PTE_W | PTE_U` and its variants. */
  lemma EntryWord(base: nat, rest: nat)
    requires base % 4096 == 0 && (rest == PTE_W + PTE_U || rest == PTE_U)
    ensures Or(Or(base, PTE_P), rest) == base + PTE_P + rest
    ensures Present(base + PTE_P + rest) && User(base + PTE_P + rest) && Base(base + PTE_P + rest) == base
    ensures Writable(base + PTE_P + rest) <==> rest != PTE_U
  {
    OrAssoc(base, PTE_P, rest);
    assert Or(PTE_P, rest) == PTE_P + rest;
    EntryParts(base, PTE_P + rest);
  }

  ghost predicate PoolOk(m: Mmu, mem: Mem, pool: seq<nat>) {
    && (forall i :: 0 <= i < |pool| ==> pool[i] % 4096 == 0 && pool[i] + 4096 <= Pow2(WordBits(m)) && pool[i] !in mem)
    && (forall i, j :: 0 <= i < j < |pool| ==> pool[i] != pool[j])
  }

  /** The tables `keys` of an address space, apart from `as->ptr` itself. */
  ghost function Pages(tabs: Tabs, keys: set<Key>): set<nat>
    requires keys <= tabs.Keys
  {
    set k | k in keys && k.level >= 1 :: tabs[k]
  }

  /** Growing an address space: its tables stay where they are, every translation stays the same, and so
      do all table pages of others. */
  ghost predicate Extends(m: Mmu, mem: Mem, tabs: Tabs, mem': Mem, tabs': Tabs) {
    && TablesOk(m, mem, tabs) && TablesOk(m, mem', tabs')
    && (forall pn :: Flat(m, mem', tabs', pn) == Flat(m, mem, tabs, pn))
    && (forall k :: k in tabs ==> k in tabs' && tabs'[k] == tabs[k])
    && Frame(mem, tabs, mem', tabs')
  }

  ghost predicate Frame(mem: Mem, tabs: Tabs, mem': Mem, tabs': Tabs) {
    forall b :: b in mem && b !in tabs.Values ==> b in mem' && mem'[b] == mem[b] && b !in tabs'.Values
  }

  lemma ExtendsTrans(m: Mmu, mem: Mem, tabs: Tabs, mem1: Mem, tabs1: Tabs, mem2: Mem, tabs2: Tabs)
    requires Extends(m, mem, tabs, mem1, tabs1) && Extends(m, mem1, tabs1, mem2, tabs2)
    ensures Extends(m, mem, tabs, mem2, tabs2)
  {
    forall pn ensures Flat(m, mem2, tabs2, pn) == Flat(m, mem, tabs, pn) {
      assert Flat(m, mem1, tabs1, pn) == Flat(m, mem, tabs, pn);
    }
  }

  lemma GrowExtends(m: Mmu, mem: Mem, tabs: Tabs, i: nat, e: nat, base: nat, w: nat)
    requires Tree(m, mem, tabs) && i < Levels(m)
    requires TableKey(m, i, e) in tabs && Key(i + 1, e) !in tabs && !(i == 1 && KernelEntry(m, e))
    requires base !in mem && base % 4096 == 0
    requires Present(w) && User(w) && Writable(w) && Base(w) == base && w < Pow2(WordBits(m))
    ensures var mem1 := mem[base := Zeros(Pow2(IndexBits(m, i + 1)))];
            var tabs' := tabs[Key(i + 1, e) := base];
            && TablesOk(m, mem1, tabs')
            && var mem' := Written(m, mem1, tabs', i, e, w);
               Tree(m, mem', tabs') && Extends(m, mem, tabs, mem', tabs') && mem'.Keys == mem.Keys + {base}
  {
    GrowKeeps(m, mem, tabs, i, e, base, w);
    var mem1 := mem[base := Zeros(Pow2(IndexBits(m, i + 1)))];
    var tabs' := tabs[Key(i + 1, e) := base];
    var mem' := Written(m, mem1, tabs', i, e, w);
    assert tabs[TableKey(m, i, e)] in tabs.Values;
    assert mem'.Keys == mem.Keys + {base};
    forall b | b in mem && b !in tabs.Values ensures b in mem' && mem'[b] == mem[b] && b !in tabs'.Values {
    }
  }

  /** How many tables a walk to page `pn` lacks below level `i`. */
  ghost function Missing(m: Mmu, tabs: Tabs, pn: nat, i: nat): nat
    decreases Levels(m) - i
  {
    if i >= Levels(m) then 0
    else (if Key(i + 1, EntryNo(m, pn, i)) in tabs then 0 else 1) + Missing(m, tabs, pn, i + 1)
  }

  lemma {:induction false} MissingBelow(m: Mmu, tabs: Tabs, pn: nat, i: nat, key: Key, base: nat)
    requires key.level <= i
    ensures Missing(m, tabs[key := base], pn, i) == Missing(m, tabs, pn, i)
    decreases Levels(m) - i
  {
    if i < Levels(m) {
      MissingBelow(m, tabs, pn, i + 1, key, base);
    }
  }

  class AddrSpace {
    const m: Mmu
    const self: nat        // the address of as->ptr
    var mem: Mem
    var pool: seq<nat>
    var freed: seq<nat>
    ghost var tabs: Tabs

    ghost predicate Valid()
      reads this
    {
      Tree(m, mem, tabs) && PoolOk(m, mem, pool) && tabs[Key(0, 0)] == self
    }

    /** `protect`: a fresh top table that shares the kernel's entries and translates no user page. */
    constructor (m: Mmu, self: nat, mem: Mem, kpt: seq<nat>, pool: seq<nat>)
      requires PoolOk(m, mem, pool) && pool != [] && self !in mem && self !in pool
      requires |kpt| == Pow2(IndexBits(m, 1)) && forall e :: 0 <= e < |kpt| && KernelEntry(m, e) ==> !User(kpt[e])
      ensures Valid() && this.m == m && this.self == self
      ensures forall pn :: Flat(m, this.mem, tabs, pn) == None
      ensures forall e :: 0 <= e < |kpt| && KernelEntry(m, e) ==>
                Key(1, 0) in tabs && tabs[Key(1, 0)] in this.mem && e < |this.mem[tabs[Key(1, 0)]]|
                && this.mem[tabs[Key(1, 0)]][e] == kpt[e]
      ensures forall b :: b in mem ==> b in this.mem && this.mem[b] == mem[b] && b !in tabs.Values
      ensures freed == []
    {
      this.m := m;
      this.self := self;
      this.mem := mem;
      this.pool := pool;
      freed := [];
      tabs := map[Key(0, 0) := self];
      new;
      var upt := PgAllocZ(1);
      var row := CopyKernel(m, kpt);
      this.mem := this.mem[upt := row];
      EntryWord(upt, PTE_U);
      this.mem := this.mem[self := [Or(Or(upt, PTE_P), PTE_U)]];
      tabs := tabs[Key(1, 0) := upt];
      FreshTree(m, this.mem, tabs, self, upt);
    }

    /** `pgallocz`. */
    method PgAllocZ(i: nat) returns (base: nat)
      requires PoolOk(m, mem, pool) && pool != []
      modifies this`mem, this`pool
      ensures base == old(pool[0]) && pool == old(pool)[1..]
      ensures mem == old(mem)[base := Zeros(Pow2(IndexBits(m, i)))] && PoolOk(m, mem, pool)
    {
      base := pool[0];
      pool := pool[1..];
      var n, row: seq<nat> := Pow2(IndexBits(m, i)), [];
      while |row| < n
        invariant |row| <= n && forall j :: 0 <= j < |row| ==> row[j] == 0
      {
        row := row + [0];
      }
      assert row == Zeros(n);
      mem := mem[base := row];
    }

    /** `&pt[indexof(va)]` and its contents. */
    method Slot(i: nat, va: nat, cur: nat) returns (index: nat, entry: nat)
      requires TablesOk(m, mem, tabs) && i <= Levels(m)
      requires TableKey(m, i, EntryNo(m, va / 4096, i)) in tabs && cur == tabs[TableKey(m, i, EntryNo(m, va / 4096, i))]
      ensures index == Low(EntryNo(m, va / 4096, i), IndexBits(m, i)) && index < |mem[cur]|
      ensures entry == mem[cur][index] == Read(m, mem, tabs, i, EntryNo(m, va / 4096, i))
    {
      index := IndexOf(m, va, i);
      IndexIsLow(m, va, i);
      Split(EntryNo(m, va / 4096, i), IndexBits(m, i));
      entry := mem[cur][index];
    }

    /** Hang a fresh table under an absent entry. */
    method Grow(i: nat, cur: nat, index: nat, ghost e: nat) returns (next: nat)
      requires Valid() && i < Levels(m) && pool != []
      requires TableKey(m, i, e) in tabs && cur == tabs[TableKey(m, i, e)] && index == Low(e, IndexBits(m, i))
      requires Key(i + 1, e) !in tabs && !(i == 1 && KernelEntry(m, e))
      modifies this`mem, this`pool, this`tabs
      ensures Valid() && tabs == old(tabs)[Key(i + 1, e) := next] && pool == old(pool)[1..]
      ensures Extends(m, old(mem), old(tabs), mem, tabs)
    {
      ghost var mem0, tabs0 := mem, tabs;
      next := PgAllocZ(i + 1);
      var w := Or(Or(next, PTE_P), PTE_W + PTE_U);
      EntryWord(next, PTE_W + PTE_U);
      GrowExtends(m, mem0, tabs0, i, e, next, w);
      tabs := tabs[Key(i + 1, e) := next];
      Split(e, IndexBits(m, i));
      assert TableOk(m, mem, tabs, TableKey(m, i, e));
      var row: seq<nat> := mem[cur][index := w];
      mem := mem[cur := row];
    }

    /** One level of `ptwalk`: the table below the entry of `va`, allocated if absent. */
    method Descend(i: nat, va: nat, cur: nat) returns (ok: bool, next: nat)
      requires Valid() && i < Levels(m)
      requires var e := EntryNo(m, va / 4096, i);
               TableKey(m, i, e) in tabs && cur == tabs[TableKey(m, i, e)] && !(i == 1 && KernelEntry(m, e))
      modifies this`mem, this`pool, this`tabs
      ensures Valid() && Extends(m, old(mem), old(tabs), mem, tabs)
      ensures var key := Key(i + 1, EntryNo(m, va / 4096, i));
              if key in old(tabs) then ok && next == tabs[key] && unchanged(this)
              else if old(pool) == [] then !ok && unchanged(this)
              else ok && tabs == old(tabs)[key := next] && pool == old(pool)[1..]
    {
      ghost var e := EntryNo(m, va / 4096, i);
      var index, entry := Slot(i, va, cur);
      assert EntryOk(m, mem, tabs, i, e);
      FlagTests(entry);
      if And(entry, PTE_P) == 0 {
        if pool == [] {
          return false, 0;
        }
        next := Grow(i, cur, index, e);
      } else {
        BaseOfIsBase(m, entry);
        next := BaseOf(m, entry);
      }
      ok := true;
    }

    /** `ptwalk`: the slot of `va` in the last level.  It fails iff it lacks more tables than there are free
        pages, and takes exactly those it lacks.  Two addresses get the same slot iff they share a page
        (see `SlotsOfPages`). */
    method PtWalk(va: nat) returns (ok: bool, table: nat, index: nat)
      requires Valid() && UserStart(m) <= va < UserEnd(m)
      modifies this`mem, this`pool, this`tabs
      ensures Valid() && Extends(m, old(mem), old(tabs), mem, tabs)
      ensures ok == (Missing(m, old(tabs), va / 4096, 0) <= |old(pool)|)
      ensures if ok then IsSlot(m, mem, tabs, va / 4096, table, index) && |pool| == |old(pool)| - Missing(m, old(tabs), va / 4096, 0)
              else pool == []
      ensures TableKey(m, Levels(m), va / 4096) in old(tabs) ==> ok && unchanged(this)
    {
      ghost var pn := va / 4096;
      UserEntries(m, va);
      var cur, i := self, 0;
      while i < Levels(m)
        invariant i <= Levels(m) && Valid() && Extends(m, old(mem), old(tabs), mem, tabs)
        invariant TableKey(m, i, EntryNo(m, pn, i)) in tabs && cur == tabs[TableKey(m, i, EntryNo(m, pn, i))]
        invariant TableKey(m, Levels(m), pn) in old(tabs) ==> unchanged(this)
        invariant |pool| - Missing(m, tabs, pn, i) == |old(pool)| - Missing(m, old(tabs), pn, 0)
      {
        ghost var mem1, tabs1 := mem, tabs;
        assert TableKey(m, i + 1, EntryNo(m, pn, i + 1)) == Key(i + 1, EntryNo(m, pn, i));
        if TableKey(m, Levels(m), pn) in old(tabs) {
          TablesAbove(m, mem, tabs, i + 1, pn);
        }
        ok, cur := Descend(i, va, cur);
        MissingBelow(m, tabs1, pn, i + 1, Key(i + 1, EntryNo(m, pn, i)), cur);
        ExtendsTrans(m, old(mem), old(tabs), mem1, tabs1, mem, tabs);
        if !ok {
          return false, 0, 0;
        }
        i := i + 1;
      }
      var entry;
      index, entry := Slot(i, va, cur);
      table := cur;
      ok := true;
    }

    /** Store `w` in the slot of page `pn`. */
    method Store(table: nat, index: nat, w: nat, ghost pn: nat)
      requires Valid() && IsSlot(m, mem, tabs, pn, table, index) && (Present(w) ==> User(w))
      modifies this`mem
      ensures Valid() && IsSlot(m, mem, tabs, pn, table, index)
      ensures Flat(m, mem, tabs, pn) == if Present(w) then Some(w) else None
      ensures forall q :: q != pn ==> Flat(m, mem, tabs, q) == Flat(m, old(mem), old(tabs), q)
      ensures Frame(old(mem), tabs, mem, tabs)
    {
      SetLeaf(m, mem, tabs, pn, w);
      Split(pn, IndexBits(m, Levels(m)));
      assert TableOk(m, mem, tabs, TableKey(m, Levels(m), pn));
      assert tabs[TableKey(m, Levels(m), pn)] in tabs.Values;
      var row: seq<nat> := mem[table][index := w];
      mem := mem[table := row];
    }

    /** The checks and the store of `map`, once the slot is known. */
    method SetEntry(table: nat, index: nat, pa: nat, prot: nat, ghost pn: nat) returns (outcome: Outcome)
      requires Valid() && IsSlot(m, mem, tabs, pn, table, index) && pa % 4096 == 0
      modifies this`mem
      ensures Valid() && IsSlot(m, mem, tabs, pn, table, index) && Frame(old(mem), tabs, mem, tabs)
      ensures outcome == if prot == MMAP_NONE <==> Flat(m, old(mem), old(tabs), pn) == None then BadCall else Done
      ensures outcome == Done ==> Flat(m, mem, tabs, pn) == if prot == MMAP_NONE then None else Some(Pte(pa, prot))
      ensures forall q :: outcome != Done || q != pn ==> Flat(m, mem, tabs, q) == Flat(m, old(mem), old(tabs), q)
    {
      Split(pn, IndexBits(m, Levels(m)));
      assert TableOk(m, mem, tabs, TableKey(m, Levels(m), pn));
      var entry := mem[table][index];
      FlagTests(entry);
      if prot == MMAP_NONE {
        if And(entry, PTE_P) == 0 {
          return BadCall;
        }
        Store(table, index, 0, pn);
      } else {
        if And(entry, PTE_P) != 0 {
          return BadCall;
        }
        PteWord(pa, prot);
        Store(table, index, Or(Or(Or(pa, PTE_P), PTE_U), if And(prot, MMAP_WRITE) != 0 then PTE_W else 0), pn);
      }
      outcome := Done;
    }

    /** `map`: exactly the translation of the page of `va` changes, and only if the call is accepted; memory
        runs out iff the walk lacks more tables than there are free pages. */
    method Map(va: nat, pa: nat, prot: nat) returns (outcome: Outcome)
      requires Valid()
      modifies this`mem, this`pool, this`tabs
      ensures Valid() && Frame(old(mem), old(tabs), mem, tabs)
      ensures outcome == if !Legal(m, va, pa) then BadCall
                         else if Missing(m, old(tabs), va / 4096, 0) > |old(pool)| then OutOfMemory
                         else if prot == MMAP_NONE <==> Flat(m, old(mem), old(tabs), va / 4096) == None then BadCall
                         else Done
      ensures outcome == Done ==> Flat(m, mem, tabs, va / 4096) == if prot == MMAP_NONE then None else Some(Pte(pa, prot))
      ensures forall q :: outcome != Done || q != va / 4096 ==> Flat(m, mem, tabs, q) == Flat(m, old(mem), old(tabs), q)
    {
      if !Legal(m, va, pa) {
        return BadCall;
      }
      ghost var pn := va / 4096;
      var ok, table, index := PtWalk(va);
      if !ok {
        return OutOfMemory;
      }
      ghost var mem1, tabs1 := mem, tabs;
      assert Flat(m, mem, tabs, pn) == Flat(m, old(mem), old(tabs), pn);
      outcome := SetEntry(table, index, pa, prot, pn);
      FrameTrans(old(mem), old(tabs), mem1, tabs1, mem, tabs);
      if outcome == Done {
        ok, table, index := PtWalk(va);
      }
    }

    /** `pgfree`: only a page in use can be freed, and then it is in use no more. */
    method PgFree(base: nat)
      requires base in mem
      modifies this`mem, this`freed
      ensures mem == old(mem) - {base} && freed == old(freed) + [base]
    {
      mem := mem - {base};
      freed := freed + [base];
    }

    /** One entry of a table being torn down: the tables below it are freed. */
    method TeardownEntry(level: nat, pt: nat, index: nat, ghost key: Key, ghost e: nat, ghost mem0: Mem)
      requires Tearable(m, mem0, tabs, level, pt, key) && TableKey(m, level, e) == key && index == Low(e, IndexBits(m, level))
      requires Intact(mem, mem0, tabs, {key}) && Intact(mem, mem0, tabs, Subtree(m, tabs, Key(level + 1, e)))
      modifies this`mem, this`freed
      ensures Freed(old(mem), old(freed), mem, freed, Pages(tabs, Subtree(m, tabs, Key(level + 1, e))))
      decreases Levels(m) + 1 - level, 0
    {
      ChildEntry(m, mem0, tabs, key, e);
      Split(e, IndexBits(m, level));
      assert key in {key};
      var entry := mem[pt][index];
      FlagTests(entry);
      if And(entry, PTE_P) != 0 && And(entry, PTE_U) != 0 {
        Teardown(level + 1, BaseOf(m, entry), Key(level + 1, e), mem0);
      }
    }

    /** The end of `teardown`: the table itself goes, unless it is `as->ptr`. */
    method FreeTable(level: nat, pt: nat, ghost key: Key)
      requires key in tabs && key.level == level && tabs[key] == pt && pt in mem
      modifies this`mem, this`freed
      ensures Freed(old(mem), old(freed), mem, freed, Pages(tabs, {key}))
    {
      if level >= 1 {
        assert Pages(tabs, {key}) == {pt};
        PgFree(pt);
      } else {
        assert Pages(tabs, {key}) == {};
      }
    }

    /** One turn of the loop of `teardown`, begun with `start` and `freed0`. */
    method TeardownTurn(level: nat, pt: nat, index: nat, ghost key: Key, ghost mem0: Mem, ghost start: Mem, ghost freed0: seq<nat>)
      requires Tearable(m, mem0, tabs, level, pt, key) && index < Pow2(IndexBits(m, level))
      requires Intact(start, mem0, tabs, Subtree(m, tabs, key))
      requires Freed(start, freed0, mem, freed, Pages(tabs, Before(m, tabs, key, index)))
      modifies this`mem, this`freed
      ensures Freed(start, freed0, mem, freed, Pages(tabs, Before(m, tabs, key, index + 1)))
      decreases Levels(m) + 1 - level, 1
    {
      ghost var e := TurnReady(m, mem0, tabs, key, index, start, mem);
      ghost var mem1, freed1 := mem, freed;
      TeardownEntry(level, pt, index, key, e, mem0);
      FreedMore(tabs, start, freed0, mem1, freed1, mem, freed,
        Before(m, tabs, key, index), Subtree(m, tabs, Key(level + 1, e)));
    }

    /** `teardown`: every table of the subtree is freed exactly once, `as->ptr` itself excepted. */
    method Teardown(level: nat, pt: nat, ghost key: Key, ghost mem0: Mem)
      requires level <= Levels(m) + 1
      requires level <= Levels(m) ==> Tearable(m, mem0, tabs, level, pt, key) && Intact(mem, mem0, tabs, Subtree(m, tabs, key))
      modifies this`mem, this`freed
      ensures level > Levels(m) ==> unchanged(this)
      ensures level <= Levels(m) ==> Freed(old(mem), old(freed), mem, freed, Pages(tabs, Subtree(m, tabs, key)))
      decreases Levels(m) + 1 - level, 4
    {
      if level > Levels(m) {
        return;
      }
      TeardownTable(level, pt, key, mem0);
    }

    /** The loop of `teardown`, begun with `start` and `freed0`. */
    method TeardownLoop(level: nat, pt: nat, ghost key: Key, ghost mem0: Mem, ghost start: Mem, ghost freed0: seq<nat>)
      requires Tearable(m, mem0, tabs, level, pt, key) && Intact(start, mem0, tabs, Subtree(m, tabs, key))
      requires Freed(start, freed0, mem, freed, Pages(tabs, Before(m, tabs, key, 0)))
      modifies this`mem, this`freed
      ensures Freed(start, freed0, mem, freed, Pages(tabs, Before(m, tabs, key, Pow2(IndexBits(m, level)))))
      decreases Levels(m) + 1 - level, 2
    {
      var n, index := Pow2(IndexBits(m, level)), 0;
      while index < n
        invariant index <= n && Freed(start, freed0, mem, freed, Pages(tabs, Before(m, tabs, key, index)))
      {
        TeardownTurn(level, pt, index, key, mem0, start, freed0);
        index := index + 1;
      }
    }

    /** The loop of `teardown` and what follows it. */
    method TeardownTable(level: nat, pt: nat, ghost key: Key, ghost mem0: Mem)
      requires Tearable(m, mem0, tabs, level, pt, key) && level <= Levels(m) && Intact(mem, mem0, tabs, Subtree(m, tabs, key))
      modifies this`mem, this`freed
      ensures Freed(old(mem), old(freed), mem, freed, Pages(tabs, Subtree(m, tabs, key)))
      decreases Levels(m) + 1 - level, 3
    {
      NothingFreed(m, tabs, key, mem, freed);
      TeardownLoop(level, pt, key, mem0, mem, freed);
      FinishTable(level, pt, key, mem0, old(mem), old(freed));
    }

    /** After the loop of `teardown`, begun with `start` and `freed0`: the table itself. */
    method FinishTable(level: nat, pt: nat, ghost key: Key, ghost mem0: Mem, ghost start: Mem, ghost freed0: seq<nat>)
      requires Injective(tabs) && key in tabs && key.level == level && tabs[key] == pt
      requires Intact(start, mem0, tabs, Subtree(m, tabs, key))
      requires Freed(start, freed0, mem, freed, Pages(tabs, Before(m, tabs, key, Pow2(IndexBits(m, level)))))
      modifies this`mem, this`freed
      ensures Freed(start, freed0, mem, freed, Pages(tabs, Subtree(m, tabs, key)))
    {
      ghost var done := Before(m, tabs, key, Pow2(IndexBits(m, level)));
      BeforeAll(m, tabs, key);
      RestIntact(start, mem, mem0, tabs, done, Subtree(m, tabs, key), {key});
      assert key in {key};
      ghost var mem1, freed1 := mem, freed;
      FreeTable(level, pt, key);
      FreedMore(tabs, start, freed0, mem1, freed1, mem, freed, done, {key});
    }

    /** `unprotect`: all tables of this address space are freed, each once, and no page of the kernel, of
        another address space or of data. */
    method Unprotect()
      requires Valid()
      modifies this`mem, this`freed
      ensures Freed(old(mem), old(freed), mem, freed, Pages(tabs, tabs.Keys))
    {
      assert Subtree(m, tabs, Key(0, 0)) == tabs.Keys by {
        forall k | k in tabs ensures Under(m, k, Key(0, 0)) {
          AllUnderRoot(m, mem, tabs, k);
        }
      }
      assert forall k :: k in tabs ==> TableOk(m, mem, tabs, k);
      Teardown(0, self, Key(0, 0), mem);
    }
  }

  /** From `mem` to `mem'` exactly the pages `gone` were freed, each once. */
  ghost predicate Freed(mem: Mem, freed: seq<nat>, mem': Mem, freed': seq<nat>, gone: set<nat>) {
    mem' == mem - gone && multiset(freed') == multiset(freed) + multiset(gone)
  }

  lemma NothingFreed(m: Mmu, tabs: Tabs, key: Key, mem: Mem, freed: seq<nat>)
    ensures Freed(mem, freed, mem, freed, Pages(tabs, Before(m, tabs, key, 0)))
  {
    BeforeNone(m, tabs, key);
    assert Pages(tabs, {}) == {};
    assert mem - {} == mem;
  }

  ghost predicate Injective(tabs: Tabs) {
    forall k, k' :: k in tabs && k' in tabs && tabs[k] == tabs[k'] ==> k == k'
  }

  /** Freeing the pages of two disjoint groups of tables, one after the other. */
  lemma FreedMore(tabs: Tabs, mem: Mem, freed: seq<nat>, mem1: Mem, freed1: seq<nat>, mem2: Mem, freed2: seq<nat>, a: set<Key>, b: set<Key>)
    requires Injective(tabs) && a <= tabs.Keys && b <= tabs.Keys && a !! b
    requires Freed(mem, freed, mem1, freed1, Pages(tabs, a)) && Freed(mem1, freed1, mem2, freed2, Pages(tabs, b))
    ensures Freed(mem, freed, mem2, freed2, Pages(tabs, a + b))
  {
    assert Pages(tabs, a + b) == Pages(tabs, a) + Pages(tabs, b);
    assert Pages(tabs, a) !! Pages(tabs, b);
    assert multiset(Pages(tabs, a + b)) == multiset(Pages(tabs, a)) + multiset(Pages(tabs, b));
  }

  /** Freeing some tables leaves the others intact. */
  lemma RestIntact(start: Mem, mem: Mem, mem0: Mem, tabs: Tabs, gone: set<Key>, whole: set<Key>, keys: set<Key>)
    requires Injective(tabs) && gone <= tabs.Keys && gone !! keys && keys <= whole
    requires mem == start - Pages(tabs, gone) && Intact(start, mem0, tabs, whole)
    ensures Intact(mem, mem0, tabs, keys)
  {
  }

  /** After `index` turns of the loop of `teardown`: entry `e`, the next one, and all below it are intact, and
      not among what was freed. */
  lemma TurnReady(m: Mmu, mem0: Mem, tabs: Tabs, key: Key, index: nat, start: Mem, mem: Mem) returns (e: nat)
    requires Injective(tabs) && key in tabs && index < Pow2(IndexBits(m, key.level))
    requires Intact(start, mem0, tabs, Subtree(m, tabs, key))
    requires mem == start - Pages(tabs, Before(m, tabs, key, index))
    ensures TableKey(m, key.level, e) == key && index == Low(e, IndexBits(m, key.level))
    ensures Intact(mem, mem0, tabs, {key}) && Intact(mem, mem0, tabs, Subtree(m, tabs, Key(key.level + 1, e)))
    ensures Before(m, tabs, key, index) !! Subtree(m, tabs, Key(key.level + 1, e))
    ensures Before(m, tabs, key, index + 1) == Before(m, tabs, key, index) + Subtree(m, tabs, Key(key.level + 1, e))
  {
    var b, whole, done := IndexBits(m, key.level), Subtree(m, tabs, key), Before(m, tabs, key, index);
    e := Scale(key.prefix, b) + index;
    ShrScale(key.prefix, b, index);
    BeforeNext(m, tabs, key, e);
    RestIntact(start, mem, mem0, tabs, done, whole, Subtree(m, tabs, Key(key.level + 1, e)));
    RestIntact(start, mem, mem0, tabs, done, whole, {key});
  }

  /** A table page of this address space, to be torn down as the subtree of `key`. */
  ghost predicate Tearable(m: Mmu, mem: Mem, tabs: Tabs, level: nat, pt: nat, key: Key) {
    Tree(m, mem, tabs) && key in tabs && key.level == level && tabs[key] == pt
  }

  /** The tables `keys` are still in memory, as they were in `mem0`. */
  ghost predicate Intact(mem: Mem, mem0: Mem, tabs: Tabs, keys: set<Key>) {
    forall k :: k in keys ==> k in tabs && tabs[k] in mem && tabs[k] in mem0 && mem[tabs[k]] == mem0[tabs[k]]
  }

  /** What `teardown` finds in an entry: a user entry iff there is a table below (and data below a leaf). */
  lemma ChildEntry(m: Mmu, mem: Mem, tabs: Tabs, key: Key, e: nat)
    requires Tree(m, mem, tabs) && key in tabs && TableKey(m, key.level, e) == key
    ensures TableOk(m, mem, tabs, key)
    ensures var w := Read(m, mem, tabs, key.level, e);
            if key.level < Levels(m) then
              && (Present(w) && User(w) <==> Key(key.level + 1, e) in tabs)
              && (Present(w) && User(w) ==> BaseOf(m, w) == tabs[Key(key.level + 1, e)])
            else Subtree(m, tabs, Key(key.level + 1, e)) == {}
    ensures Key(key.level + 1, e) !in tabs ==> Subtree(m, tabs, Key(key.level + 1, e)) == {}
  {
    var child := Key(key.level + 1, e);
    assert EntryOk(m, mem, tabs, key.level, e);
    var w := Read(m, mem, tabs, key.level, e);
    if key.level < Levels(m) && Present(w) && User(w) {
      BaseOfIsBase(m, w);
    }
    forall k | k in tabs && Under(m, k, child) ensures child in tabs {
      TopIsTable(m, mem, tabs, k, child);
    }
  }

  /** The top table of a new address space: the kernel's entries and zeros. */
  ghost predicate TopRow(m: Mmu, kpt: seq<nat>, row: seq<nat>, done: nat) {
    && |row| == |kpt| == Pow2(IndexBits(m, 1))
    && forall e :: 0 <= e < |row| ==> row[e] == if e < done && KernelEntry(m, e) then kpt[e] else 0
  }

  /** The loops of `protect` over the kernel areas, one first-level entry at a time.  The area that ends
      at the top of a 32-bit address space ends at entry 1024. */
  method CopyKernel(m: Mmu, kpt: seq<nat>) returns (row: seq<nat>)
    requires |kpt| == Pow2(IndexBits(m, 1))
    ensures TopRow(m, kpt, row, |kpt|)
  {
    TopShift(m);
    row := Zeros(|kpt|);
    var areas := match m case X86_64 => [(0, 1)] case I386 => [(0, 256), (1012, 1024)];
    for a := 0 to |areas|
      invariant TopRow(m, kpt, row, if a == 0 then 0 else areas[a - 1].1)
    {
      var e := areas[a].0;
      while e < areas[a].1
        invariant areas[a].0 <= e <= areas[a].1 && TopRow(m, kpt, row, e)
      {
        var index := IndexOf(m, Scale(e, Shift(m, 1)), 1);
        TopIndex(m, e);
        row := row[index := kpt[index]];
        e := e + 1;
      }
    }
  }

  lemma TopIndex(m: Mmu, e: nat)
    requires e < Pow2(IndexBits(m, 1))
    ensures IndexOf(m, Scale(e, Shift(m, 1)), 1) == e
  {
    MaskIsField(m, 1);
    AndField(Scale(e, Shift(m, 1)), IndexBits(m, 1), Shift(m, 1));
    ShrScale(e, Shift(m, 1), 0);
    LowSmall(e, IndexBits(m, 1));
  }

  /** The tree of a new address space. */
  lemma FreshTree(m: Mmu, mem: Mem, tabs: Tabs, self: nat, upt: nat)
    requires tabs == map[Key(0, 0) := self, Key(1, 0) := upt] && self != upt && self in mem && upt in mem
    requires upt % 4096 == 0 && upt + 4096 <= Pow2(WordBits(m)) && mem[self] == [upt + PTE_P + PTE_U]
    requires |mem[upt]| == Pow2(IndexBits(m, 1))
    requires forall e :: 0 <= e < |mem[upt]| ==> if KernelEntry(m, e) then !User(mem[upt][e]) else mem[upt][e] == 0
    ensures Tree(m, mem, tabs) && forall pn :: Flat(m, mem, tabs, pn) == None
  {
    EntryWord(upt, PTE_U);
    forall i, e ensures EntryOk(m, mem, tabs, i, e) {
      Split(e, IndexBits(m, i));
      if TableKey(m, i, e) == Key(1, 0) {
        assert e == Low(e, IndexBits(m, 1)) by { ScaleMono(0, 0, IndexBits(m, 1)); }
      }
    }
  }

  predicate Legal(m: Mmu, va: nat, pa: nat) {
    UserStart(m) <= va < UserEnd(m) && va % 4096 == 0 && pa % 4096 == 0
  }

  /** The entry of a page mapped to `pa`. */
  function Pte(pa: nat, prot: nat): nat {
    pa + PTE_P + PTE_U + if prot / 2 % 2 == 1 then PTE_W else 0
  }

  lemma PteWord(pa: nat, prot: nat)
    requires pa % 4096 == 0
    ensures Or(Or(Or(pa, PTE_P), PTE_U), if And(prot, MMAP_WRITE) != 0 then PTE_W else 0) == Pte(pa, prot)
    ensures Present(Pte(pa, prot)) && User(Pte(pa, prot)) && Base(Pte(pa, prot)) == pa
  {
    EntryWord(pa, PTE_U);
    EntryWord(pa, PTE_W + PTE_U);
    OrAssoc(Or(pa, PTE_P), PTE_U, PTE_W);
    assert Or(PTE_U, PTE_W) == PTE_W + PTE_U;
    WriteTest(prot);
  }

  /** What the hardware finds for a page after a successful `map`: the page given, open to user code, and writable
      iff that was asked for. */
  lemma MappedTranslates(m: Mmu, mem: Mem, tabs: Tabs, va: nat, pa: nat, prot: nat)
    requires Tree(m, mem, tabs) && Legal(m, va, pa) && Flat(m, mem, tabs, va / 4096) == Some(Pte(pa, prot))
    ensures var w := Walk(m, mem, tabs[Key(0, 0)], 0, va / 4096);
            w.Some? && Base(w.value) == pa && Present(w.value) && User(w.value)
    ensures MayWrite(m, mem, tabs[Key(0, 0)], 0, va / 4096) <==> And(prot, MMAP_WRITE) != 0
  {
    UserEntries(m, va);
    WalkIsFlat(m, mem, tabs, va / 4096);
    WriteFrom(m, mem, tabs, 0, va / 4096);
    PteWord(pa, prot);
    WriteTest(prot);
    PteWritable(pa, prot);
  }

  lemma PteWritable(pa: nat, prot: nat)
    requires pa % 4096 == 0
    ensures Writable(Pte(pa, prot)) <==> prot / 2 % 2 == 1
  {
  }

  lemma WriteTest(prot: nat)
    ensures And(prot, MMAP_WRITE) != 0 <==> prot / 2 % 2 == 1
  {
    assert And(prot, 2) == 2 * And(prot / 2, 1);
  }

  lemma FrameTrans(mem: Mem, tabs: Tabs, mem1: Mem, tabs1: Tabs, mem2: Mem, tabs2: Tabs)
    requires Frame(mem, tabs, mem1, tabs1) && Frame(mem1, tabs1, mem2, tabs2)
    ensures Frame(mem, tabs, mem2, tabs2)
  {
  }

  /** The slot of page `pn`. */
  ghost predicate IsSlot(m: Mmu, mem: Mem, tabs: Tabs, pn: nat, table: nat, index: nat) {
    && TableKey(m, Levels(m), pn) in tabs && table == tabs[TableKey(m, Levels(m), pn)]
    && index == Low(pn, IndexBits(m, Levels(m)))
  }

  /** Walks give the same slot for two addresses iff they share a page. */
  lemma SlotsOfPages(m: Mmu, mem: Mem, tabs: Tabs, a: nat, b: nat, table: nat, index: nat, table': nat, index': nat)
    requires TablesOk(m, mem, tabs)
    requires IsSlot(m, mem, tabs, a / 4096, table, index) && IsSlot(m, mem, tabs, b / 4096, table', index')
    ensures table == table' && index == index' <==> a / 4096 == b / 4096
  {
    if table == table' && index == index' {
      SlotsDistinct(m, mem, tabs, Levels(m), a / 4096, Levels(m), b / 4096);
    }
  }
}
