/** The tree of page tables of one address space and the flat map it stands for
(`oslabs/abstract-machine/am/src/x86/qemu/vme.c`).

`tabs` says which table page serves which part of the address space: `Key(i, e)` is the table of level
`i` that hangs off entry number `e` of level `i - 1`, and `Key(0, 0)` is the pointer `as->ptr`.
 */
module PageTree {
  import opened Common
  import opened Bits
  import opened Paging

  datatype Key = Key(level: nat, prefix: nat)

  type Mem = map<nat, seq<nat>>
  type Tabs = map<Key, nat>

  /** The table that holds entry number `e` of level `i`. */
  function TableKey(m: Mmu, i: nat, e: nat): Key {
    Key(i, Shr(e, IndexBits(m, i)))
  }

  ghost predicate TableOk(m: Mmu, mem: Mem, tabs: Tabs, k: Key)
    requires k in tabs
  {
    && k.level <= Levels(m) && tabs[k] in mem && |mem[tabs[k]]| == Pow2(IndexBits(m, k.level))
    && (k.level >= 1 ==> tabs[k] % 4096 == 0)
  }

  /** Entry number `e` of level `i`. */
  ghost function Read(m: Mmu, mem: Mem, tabs: Tabs, i: nat, e: nat): nat
    requires TableKey(m, i, e) in tabs && TableOk(m, mem, tabs, TableKey(m, i, e))
  {
    Split(e, IndexBits(m, i));
    mem[tabs[TableKey(m, i, e)]][Low(e, IndexBits(m, i))]
  }

  ghost predicate TablesOk(m: Mmu, mem: Mem, tabs: Tabs) {
    && Key(0, 0) in tabs
    && (forall k :: k in tabs ==> TableOk(m, mem, tabs, k))
    && (forall k, k' :: k in tabs && k' in tabs && tabs[k] == tabs[k'] ==> k == k')
    && (forall k {:trigger ParentOk(m, tabs, k)} :: k in tabs ==> ParentOk(m, tabs, k))
  }

  ghost predicate ParentOk(m: Mmu, tabs: Tabs, k: Key) {
    if k.level == 0 then k.prefix == 0 else TableKey(m, k.level - 1, k.prefix) in tabs
  }

  /** An entry above the last level: either it belongs to the kernel and is not a user entry, or it is
      present exactly if there is a table below, and points to it without restricting it; `as->ptr` itself is no
      table of the hardware. */
  ghost predicate Linked(m: Mmu, mem: Mem, tabs: Tabs, i: nat, e: nat)
    requires TableKey(m, i, e) in tabs && TableOk(m, mem, tabs, TableKey(m, i, e))
  {
    var w := Read(m, mem, tabs, i, e);
    if i == 1 && KernelEntry(m, e) then
      !User(w) && Key(i + 1, e) !in tabs
    else
      && (Present(w) <==> Key(i + 1, e) in tabs)
      && (Present(w) ==> User(w) && (i >= 1 ==> Writable(w)) && w < Pow2(WordBits(m)) && Base(w) == tabs[Key(i + 1, e)])
  }

  ghost predicate EntryOk(m: Mmu, mem: Mem, tabs: Tabs, i: nat, e: nat) {
    TableKey(m, i, e) in tabs && TableOk(m, mem, tabs, TableKey(m, i, e)) ==>
      if i < Levels(m) then Linked(m, mem, tabs, i, e)
      else Present(Read(m, mem, tabs, i, e)) ==> User(Read(m, mem, tabs, i, e))
  }

  ghost predicate Tree(m: Mmu, mem: Mem, tabs: Tabs) {
    TablesOk(m, mem, tabs) && forall i, e :: EntryOk(m, mem, tabs, i, e)
  }

  // ------------------------------------------------------------------ the flat map

  /** The translation of page `pn`: its entry in the last level, if there is a table and it is present. */
  ghost function Flat(m: Mmu, mem: Mem, tabs: Tabs, pn: nat): Option<nat>
    requires TablesOk(m, mem, tabs)
  {
    if TableKey(m, Levels(m), pn) in tabs && Present(Read(m, mem, tabs, Levels(m), pn))
    then Some(Read(m, mem, tabs, Levels(m), pn)) else None
  }

  /** The walk a user access makes in hardware: from table page `base` of level `i`. */
  ghost function Walk(m: Mmu, mem: Mem, base: nat, i: nat, pn: nat): Option<nat>
    requires i <= Levels(m)
    decreases Levels(m) - i
  {
    var j := Low(EntryNo(m, pn, i), IndexBits(m, i));
    if base !in mem || j >= |mem[base]| then None
    else
      var w := mem[base][j];
      if !Present(w) || !User(w) then None
      else if i == Levels(m) then Some(w)
      else Walk(m, mem, Base(w), i + 1, pn)
  }

  /** The tables above a table exist. */
  lemma {:induction false} TablesAbove(m: Mmu, mem: Mem, tabs: Tabs, i: nat, pn: nat)
    requires TablesOk(m, mem, tabs) && i <= Levels(m)
    requires TableKey(m, Levels(m), pn) in tabs
    ensures TableKey(m, i, EntryNo(m, pn, i)) in tabs
    decreases Levels(m) - i
  {
    if i < Levels(m) {
      TablesAbove(m, mem, tabs, i + 1, pn);
      assert ParentOk(m, tabs, TableKey(m, i + 1, EntryNo(m, pn, i + 1)));
    }
  }

  /** One level of the walk. */
  lemma WalkStep(m: Mmu, mem: Mem, tabs: Tabs, i: nat, pn: nat)
    requires i <= Levels(m)
    requires TableKey(m, i, EntryNo(m, pn, i)) in tabs && TableOk(m, mem, tabs, TableKey(m, i, EntryNo(m, pn, i)))
    ensures var w := Read(m, mem, tabs, i, EntryNo(m, pn, i));
            Walk(m, mem, tabs[TableKey(m, i, EntryNo(m, pn, i))], i, pn) ==
              if !Present(w) || !User(w) then None
              else if i == Levels(m) then Some(w)
              else Walk(m, mem, Base(w), i + 1, pn)
  {
    Split(EntryNo(m, pn, i), IndexBits(m, i));
  }

  /** From any of its tables on, the walk finds exactly the flat translation. */
  lemma {:induction false} WalkFrom(m: Mmu, mem: Mem, tabs: Tabs, i: nat, pn: nat)
    requires Tree(m, mem, tabs) && i <= Levels(m)
    requires TableKey(m, i, EntryNo(m, pn, i)) in tabs
    ensures Walk(m, mem, tabs[TableKey(m, i, EntryNo(m, pn, i))], i, pn) == Flat(m, mem, tabs, pn)
    decreases Levels(m) - i
  {
    var e := EntryNo(m, pn, i);
    assert EntryOk(m, mem, tabs, i, e) && TableOk(m, mem, tabs, TableKey(m, i, e));
    WalkStep(m, mem, tabs, i, pn);
    if i < Levels(m) {
      assert Linked(m, mem, tabs, i, e);
      assert TableKey(m, i + 1, EntryNo(m, pn, i + 1)) == Key(i + 1, e);
      if Key(i + 1, e) in tabs {
        WalkFrom(m, mem, tabs, i + 1, pn);
      } else if TableKey(m, Levels(m), pn) in tabs {
        TablesAbove(m, mem, tabs, i + 1, pn);
      }
    }
  }

  /** The page tables refine the flat map: the hardware walk from `as->ptr` gives its value on every page. */
  lemma WalkIsFlat(m: Mmu, mem: Mem, tabs: Tabs, pn: nat)
    requires Tree(m, mem, tabs) && EntryNo(m, pn, 0) == 0
    ensures Walk(m, mem, tabs[Key(0, 0)], 0, pn) == Flat(m, mem, tabs, pn)
  {
    WalkFrom(m, mem, tabs, 0, pn);
  }

  /** Whether a user write gets through: every entry on the way must allow it, below `as->ptr`. */
  ghost predicate MayWrite(m: Mmu, mem: Mem, base: nat, i: nat, pn: nat)
    requires i <= Levels(m)
    decreases Levels(m) - i
  {
    var j := Low(EntryNo(m, pn, i), IndexBits(m, i));
    && base in mem && j < |mem[base]|
    && var w := mem[base][j];
       && Present(w) && User(w) && (i >= 1 ==> Writable(w))
       && (i < Levels(m) ==> MayWrite(m, mem, Base(w), i + 1, pn))
  }

  lemma WriteStep(m: Mmu, mem: Mem, tabs: Tabs, i: nat, pn: nat)
    requires i <= Levels(m)
    requires TableKey(m, i, EntryNo(m, pn, i)) in tabs && TableOk(m, mem, tabs, TableKey(m, i, EntryNo(m, pn, i)))
    ensures var w := Read(m, mem, tabs, i, EntryNo(m, pn, i));
            MayWrite(m, mem, tabs[TableKey(m, i, EntryNo(m, pn, i))], i, pn) <==>
              && Present(w) && User(w) && (i >= 1 ==> Writable(w))
              && (i < Levels(m) ==> MayWrite(m, mem, Base(w), i + 1, pn))
  {
    Split(EntryNo(m, pn, i), IndexBits(m, i));
  }

  /** The last entry alone decides. */
  lemma {:induction false} WriteFrom(m: Mmu, mem: Mem, tabs: Tabs, i: nat, pn: nat)
    requires Tree(m, mem, tabs) && i <= Levels(m) && TableKey(m, i, EntryNo(m, pn, i)) in tabs
    ensures MayWrite(m, mem, tabs[TableKey(m, i, EntryNo(m, pn, i))], i, pn) <==>
              Flat(m, mem, tabs, pn).Some? && Writable(Flat(m, mem, tabs, pn).value)
    decreases Levels(m) - i
  {
    var e := EntryNo(m, pn, i);
    assert EntryOk(m, mem, tabs, i, e) && TableOk(m, mem, tabs, TableKey(m, i, e));
    WriteStep(m, mem, tabs, i, pn);
    if i < Levels(m) {
      assert Linked(m, mem, tabs, i, e);
      assert TableKey(m, i + 1, EntryNo(m, pn, i + 1)) == Key(i + 1, e);
      if Key(i + 1, e) in tabs {
        WriteFrom(m, mem, tabs, i + 1, pn);
      } else if TableKey(m, Levels(m), pn) in tabs {
        TablesAbove(m, mem, tabs, i + 1, pn);
      }
    }
  }

  // ------------------------------------------------------------------ a new table

  /** Two entries in the same slot are the same entry. */
  lemma SlotsDistinct(m: Mmu, mem: Mem, tabs: Tabs, i: nat, e: nat, i': nat, e': nat)
    requires TablesOk(m, mem, tabs) && TableKey(m, i, e) in tabs && TableKey(m, i', e') in tabs
    requires tabs[TableKey(m, i, e)] == tabs[TableKey(m, i', e')] && Low(e, IndexBits(m, i)) == Low(e', IndexBits(m, i'))
    ensures i == i' && e == e'
  {
    EntrySplit(m, e, e', i);
  }

  function Zeros(n: nat): seq<nat> {
    seq(n, _ => 0)
  }

  /** Memory after entry `e` of level `i` was set to `w`. */
  ghost function Written(m: Mmu, mem: Mem, tabs: Tabs, i: nat, e: nat, w: nat): Mem
    requires TableKey(m, i, e) in tabs && TableOk(m, mem, tabs, TableKey(m, i, e))
  {
    Split(e, IndexBits(m, i));
    var t := tabs[TableKey(m, i, e)];
    var row: seq<nat> := mem[t][Low(e, IndexBits(m, i)) := w];
    mem[t := row]
  }

  /** Writing an entry changes that entry only. */
  lemma ReadWritten(m: Mmu, mem: Mem, tabs: Tabs, i: nat, e: nat, w: nat)
    requires TablesOk(m, mem, tabs) && TableKey(m, i, e) in tabs
    ensures var mem' := Written(m, mem, tabs, i, e, w);
            && TablesOk(m, mem', tabs)
            && (forall i', e' :: TableKey(m, i', e') in tabs ==>
                  Read(m, mem', tabs, i', e') == if i' == i && e' == e then w else Read(m, mem, tabs, i', e'))
  {
    var mem' := Written(m, mem, tabs, i, e, w);
    Split(e, IndexBits(m, i));
    forall k | k in tabs ensures TableOk(m, mem', tabs, k) {
      assert TableOk(m, mem, tabs, k);
    }
    forall i', e' | TableKey(m, i', e') in tabs
      ensures Read(m, mem', tabs, i', e') == if i' == i && e' == e then w else Read(m, mem, tabs, i', e')
    {
      Split(e', IndexBits(m, i'));
      if tabs[TableKey(m, i, e)] == tabs[TableKey(m, i', e')] && Low(e, IndexBits(m, i)) == Low(e', IndexBits(m, i')) {
        SlotsDistinct(m, mem, tabs, i, e, i', e');
      }
    }
  }

  /** A fresh zeroed page as the table below entry `e` of level `i`, not linked yet. */
  lemma AddTable(m: Mmu, mem: Mem, tabs: Tabs, i: nat, e: nat, base: nat)
    requires TablesOk(m, mem, tabs) && i < Levels(m)
    requires TableKey(m, i, e) in tabs && Key(i + 1, e) !in tabs
    requires base !in mem && base % 4096 == 0
    ensures var mem' := mem[base := Zeros(Pow2(IndexBits(m, i + 1)))];
            var tabs' := tabs[Key(i + 1, e) := base];
            && TablesOk(m, mem', tabs')
            && (forall i', e' :: TableKey(m, i', e') in tabs' ==>
                  Read(m, mem', tabs', i', e') ==
                    if TableKey(m, i', e') == Key(i + 1, e) then 0 else Read(m, mem, tabs, i', e'))
  {
    var mem' := mem[base := Zeros(Pow2(IndexBits(m, i + 1)))];
    var tabs' := tabs[Key(i + 1, e) := base];
    forall k | k in tabs' ensures TableOk(m, mem', tabs', k) && ParentOk(m, tabs', k) {
      assert k in tabs ==> TableOk(m, mem, tabs, k) && ParentOk(m, tabs, k);
    }
    forall i', e' | TableKey(m, i', e') in tabs'
      ensures Read(m, mem', tabs', i', e') ==
                if TableKey(m, i', e') == Key(i + 1, e) then 0 else Read(m, mem, tabs, i', e')
    {
      Split(e', IndexBits(m, i'));
    }
  }

  /** What linking a fresh table below entry `e` of level `i` does to every entry. */
  ghost predicate Grown(m: Mmu, mem: Mem, tabs: Tabs, mem': Mem, tabs': Tabs, i: nat, e: nat, w: nat)
    requires TablesOk(m, mem, tabs) && TablesOk(m, mem', tabs')
  {
    && Key(i + 1, e) !in tabs && Present(w) && User(w) && Writable(w) && w < Pow2(WordBits(m))
    && tabs' == tabs[Key(i + 1, e) := Base(w)]
    && (forall i', e' :: TableKey(m, i', e') in tabs' ==>
          Read(m, mem', tabs', i', e') ==
            if i' == i && e' == e then w
            else if TableKey(m, i', e') == Key(i + 1, e) then 0
            else Read(m, mem, tabs, i', e'))
  }

  lemma GrownEntry(m: Mmu, mem: Mem, tabs: Tabs, mem': Mem, tabs': Tabs, i: nat, e: nat, w: nat, i': nat, e': nat)
    requires TablesOk(m, mem, tabs) && TablesOk(m, mem', tabs') && Grown(m, mem, tabs, mem', tabs', i, e, w)
    requires TableKey(m, i, e) in tabs && i < Levels(m) && !(i == 1 && KernelEntry(m, e)) && EntryOk(m, mem, tabs, i', e')
    ensures EntryOk(m, mem', tabs', i', e')
  {
    if TableKey(m, i', e') == Key(i + 1, e) {
      NoTableBelow(m, tabs, i, e, i', e');
      assert TableKey(m, i', e') in tabs' && !(i' == i && e' == e);
    } else if TableKey(m, i', e') in tabs' {
      assert TableKey(m, i', e') in tabs;
      assert Key(i' + 1, e') == Key(i + 1, e) <==> i' == i && e' == e;
    }
  }

  /** Below an absent table there are no tables. */
  lemma NoTableBelow(m: Mmu, tabs: Tabs, i: nat, e: nat, i': nat, e': nat)
    requires (forall k :: k in tabs ==> ParentOk(m, tabs, k)) && Key(i + 1, e) !in tabs && TableKey(m, i', e') == Key(i + 1, e)
    ensures Key(i' + 1, e') !in tabs
  {
    assert Key(i' + 1, e') in tabs ==> ParentOk(m, tabs, Key(i' + 1, e'));
  }

  lemma GrownFlat(m: Mmu, mem: Mem, tabs: Tabs, mem': Mem, tabs': Tabs, i: nat, e: nat, w: nat, pn: nat)
    requires TablesOk(m, mem, tabs) && TablesOk(m, mem', tabs') && Grown(m, mem, tabs, mem', tabs', i, e, w)
    requires i < Levels(m)
    ensures Flat(m, mem', tabs', pn) == Flat(m, mem, tabs, pn)
  {
    var k, n := TableKey(m, Levels(m), pn), Levels(m);
    if k == Key(i + 1, e) {
      assert Read(m, mem', tabs', n, pn) == 0;
    } else if k in tabs {
      assert Read(m, mem', tabs', n, pn) == Read(m, mem, tabs, n, pn);
    }
  }

  /** The allocation of `ptwalk`: a fresh page, linked under an absent entry.  The tree stays a tree and
      no translation changes. */
  lemma GrowKeeps(m: Mmu, mem: Mem, tabs: Tabs, i: nat, e: nat, base: nat, w: nat)
    requires Tree(m, mem, tabs) && i < Levels(m)
    requires TableKey(m, i, e) in tabs && Key(i + 1, e) !in tabs && !(i == 1 && KernelEntry(m, e))
    requires base !in mem && base % 4096 == 0
    requires Present(w) && User(w) && Writable(w) && Base(w) == base && w < Pow2(WordBits(m))
    ensures var mem1 := mem[base := Zeros(Pow2(IndexBits(m, i + 1)))];
            var tabs' := tabs[Key(i + 1, e) := base];
            && TablesOk(m, mem1, tabs')
            && Tree(m, Written(m, mem1, tabs', i, e, w), tabs')
            && (forall pn :: Flat(m, Written(m, mem1, tabs', i, e, w), tabs', pn) == Flat(m, mem, tabs, pn))
  {
    var mem1 := mem[base := Zeros(Pow2(IndexBits(m, i + 1)))];
    var tabs' := tabs[Key(i + 1, e) := base];
    AddTable(m, mem, tabs, i, e, base);
    ReadWritten(m, mem1, tabs', i, e, w);
    var mem' := Written(m, mem1, tabs', i, e, w);
    assert Grown(m, mem, tabs, mem', tabs', i, e, w);
    forall i', e' ensures EntryOk(m, mem', tabs', i', e') {
      assert EntryOk(m, mem, tabs, i', e');
      GrownEntry(m, mem, tabs, mem', tabs', i, e, w, i', e');
    }
    forall pn ensures Flat(m, mem', tabs', pn) == Flat(m, mem, tabs, pn) {
      GrownFlat(m, mem, tabs, mem', tabs', i, e, w, pn);
    }
  }

  // ------------------------------------------------------------------ a new translation

  /** Writing the last-level entry of page `pn` changes the translation of that page only. */
  lemma SetLeaf(m: Mmu, mem: Mem, tabs: Tabs, pn: nat, w: nat)
    requires Tree(m, mem, tabs) && TableKey(m, Levels(m), pn) in tabs && (Present(w) ==> User(w))
    ensures var mem' := Written(m, mem, tabs, Levels(m), pn, w);
            && Tree(m, mem', tabs)
            && Flat(m, mem', tabs, pn) == (if Present(w) then Some(w) else None)
            && (forall q :: q != pn ==> Flat(m, mem', tabs, q) == Flat(m, mem, tabs, q))
  {
    var mem' := Written(m, mem, tabs, Levels(m), pn, w);
    ReadWritten(m, mem, tabs, Levels(m), pn, w);
    forall i, e ensures EntryOk(m, mem', tabs, i, e) {
      assert EntryOk(m, mem, tabs, i, e);
    }
  }

  // ------------------------------------------------------------------ subtrees

  /** `k` is `top` or below it. */
  predicate Under(m: Mmu, k: Key, top: Key)
    decreases k.level
  {
    k == top || (k.level > top.level && Under(m, TableKey(m, k.level - 1, k.prefix), top))
  }

  ghost function Subtree(m: Mmu, tabs: Tabs, top: Key): set<Key> {
    set k | k in tabs && Under(m, k, top)
  }

  /** A key strictly below a table is below exactly one of its entries. */
  lemma {:induction false} UnderEntry(m: Mmu, k: Key, i: nat, e: nat)
    ensures Under(m, k, Key(i + 1, e)) ==> Under(m, k, TableKey(m, i, e))
    ensures k.level > i + 1 ==> (Under(m, k, Key(i + 1, e)) <==> Under(m, TableKey(m, k.level - 1, k.prefix), Key(i + 1, e)))
    decreases k.level
  {
    if k != Key(i + 1, e) && k.level > i + 1 {
      UnderEntry(m, TableKey(m, k.level - 1, k.prefix), i, e);
    }
  }

  /** The entry of `top` through which `k`, strictly below it, is reached. */
  function Via(m: Mmu, k: Key, top: Key): (e: nat)
    requires Under(m, k, top) && k != top
    ensures TableKey(m, top.level, e) == top && Under(m, k, Key(top.level + 1, e))
    decreases k.level
  {
    if TableKey(m, k.level - 1, k.prefix) == top then k.prefix
    else Via(m, TableKey(m, k.level - 1, k.prefix), top)
  }

  lemma {:induction false} UnderUnique(m: Mmu, k: Key, level: nat, e: nat, e': nat)
    requires Under(m, k, Key(level, e)) && Under(m, k, Key(level, e'))
    ensures e == e'
    decreases k.level
  {
    if k.level > level {
      UnderUnique(m, TableKey(m, k.level - 1, k.prefix), level, e, e');
    }
  }

  /** Every table hangs off `as->ptr`. */
  lemma {:induction false} AllUnderRoot(m: Mmu, mem: Mem, tabs: Tabs, k: Key)
    requires TablesOk(m, mem, tabs) && k in tabs
    ensures Under(m, k, Key(0, 0))
    decreases k.level
  {
    assert ParentOk(m, tabs, k);
    if k.level > 0 {
      AllUnderRoot(m, mem, tabs, TableKey(m, k.level - 1, k.prefix));
    }
  }

  lemma {:induction false} TopIsTable(m: Mmu, mem: Mem, tabs: Tabs, k: Key, top: Key)
    requires TablesOk(m, mem, tabs) && k in tabs && Under(m, k, top)
    ensures top in tabs
    decreases k.level
  {
    assert ParentOk(m, tabs, k);
    if k != top {
      TopIsTable(m, mem, tabs, TableKey(m, k.level - 1, k.prefix), top);
    }
  }

  /** The tables below the first `n` entries of `top`. */
  ghost function Before(m: Mmu, tabs: Tabs, top: Key, n: nat): set<Key> {
    set k | k in tabs && Under(m, k, top) && k != top && Low(Via(m, k, top), IndexBits(m, top.level)) < n
  }

  lemma BeforeNone(m: Mmu, tabs: Tabs, top: Key)
    ensures Before(m, tabs, top, 0) == {}
  {
  }

  lemma BeforeAll(m: Mmu, tabs: Tabs, top: Key)
    requires top in tabs
    ensures Before(m, tabs, top, Pow2(IndexBits(m, top.level))) + {top} == Subtree(m, tabs, top)
    ensures top !in Before(m, tabs, top, Pow2(IndexBits(m, top.level)))
  {
    var all := Before(m, tabs, top, Pow2(IndexBits(m, top.level)));
    forall k | k in Subtree(m, tabs, top) && k != top ensures k in all {
      Split(Via(m, k, top), IndexBits(m, top.level));
    }
  }

  lemma ViaIs(m: Mmu, k: Key, top: Key, e: nat)
    requires TableKey(m, top.level, e) == top
    ensures Under(m, k, Key(top.level + 1, e)) <==> Under(m, k, top) && k != top && Via(m, k, top) == e
  {
    if Under(m, k, Key(top.level + 1, e)) {
      UnderEntry(m, k, top.level, e);
      UnderLevel(m, k, Key(top.level + 1, e));
      UnderUnique(m, k, top.level + 1, e, Via(m, k, top));
    }
  }

  lemma {:induction false} UnderLevel(m: Mmu, k: Key, top: Key)
    requires Under(m, k, top)
    ensures k.level >= top.level
  {
  }

  /** The tables below one more entry. */
  lemma BeforeNext(m: Mmu, tabs: Tabs, top: Key, e: nat)
    requires TableKey(m, top.level, e) == top
    ensures var n := Low(e, IndexBits(m, top.level));
            && Before(m, tabs, top, n + 1) == Before(m, tabs, top, n) + Subtree(m, tabs, Key(top.level + 1, e))
            && Before(m, tabs, top, n) !! Subtree(m, tabs, Key(top.level + 1, e))
            && Before(m, tabs, top, n + 1) <= Subtree(m, tabs, top) && top !in Before(m, tabs, top, n + 1)
  {
    var n := Low(e, IndexBits(m, top.level));
    forall k ensures k in Before(m, tabs, top, n + 1) <==>
                     k in Before(m, tabs, top, n) || k in Subtree(m, tabs, Key(top.level + 1, e))
    {
      ViaIs(m, k, top, e);
      if k in tabs && Under(m, k, top) && k != top && Low(Via(m, k, top), IndexBits(m, top.level)) == n {
        EntrySplit(m, Via(m, k, top), e, top.level);
      }
    }
    forall k | k in Subtree(m, tabs, Key(top.level + 1, e)) ensures k !in Before(m, tabs, top, n) {
      ViaIs(m, k, top, e);
    }
  }
}
