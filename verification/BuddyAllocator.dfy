/** The buddy allocator of `oslabs/kernel/src/pmm.c`, called with `buddy_lock` held.

Free blocks are kept by address in one list per order; the intrusive links through the first bytes of
each free block are the sequences of `freeLists`.
 */
module BuddyAllocator {
  import opened Common
  import opened Bits
  import opened BuddyTheory

  const PAGE_SIZE: nat := 4096
  const PAGE_SHIFT: nat := 12

  ghost predicate Distinct(s: seq<nat>) {
    forall i, j :: 0 <= i < j < |s| ==> s[i] != s[j]
  }

  /** The address of a block in a data region starting at `start`. */
  function Address(start: nat, b: Block): nat {
    start + Scale(b.index, b.order + PAGE_SHIFT)
  }

  /** The block of order `k` whose address is `a`. */
  function BlockAt(start: nat, k: nat, a: nat): Block
    requires start <= a
  {
    Block(k, Shr(a - start, k + PAGE_SHIFT))
  }

  predicate IsBlockAddress(start: nat, k: nat, a: nat) {
    start <= a && Address(start, BlockAt(start, k, a)) == a
  }

  ghost predicate WellFormed(lists: seq<seq<nat>>, start: nat) {
    && |lists| == MAX_ORDER + 1
    && (forall k, a :: 0 <= k <= MAX_ORDER && a in lists[k] ==> IsBlockAddress(start, k, a))
    && (forall k :: 0 <= k <= MAX_ORDER ==> Distinct(lists[k]))
  }

  /** The free lists as a set of blocks. */
  ghost function BlocksOf(lists: seq<seq<nat>>, start: nat): set<Block> {
    set k, a | 0 <= k < |lists| && a in lists[k] && start <= a :: BlockAt(start, k, a)
  }

  lemma AddressOfBlock(start: nat, b: Block)
    ensures IsBlockAddress(start, b.order, Address(start, b))
    ensures BlockAt(start, b.order, Address(start, b)) == b
  {
    ShrScale(b.index, b.order + PAGE_SHIFT, 0);
  }

  /** A block is free iff its address is on the list of its order. */
  lemma Listed(lists: seq<seq<nat>>, start: nat, b: Block)
    requires WellFormed(lists, start)
    ensures b in BlocksOf(lists, start) <==> b.order <= MAX_ORDER && Address(start, b) in lists[b.order]
  {
    AddressOfBlock(start, b);
    if b.order <= MAX_ORDER && Address(start, b) in lists[b.order] {
      assert BlockAt(start, b.order, Address(start, b)) in BlocksOf(lists, start);
    }
  }

  lemma PushAdds(lists: seq<seq<nat>>, start: nat, b: Block)
    requires WellFormed(lists, start) && b.order <= MAX_ORDER && b !in BlocksOf(lists, start)
    ensures var lists' := lists[b.order := [Address(start, b)] + lists[b.order]];
            WellFormed(lists', start) && BlocksOf(lists', start) == BlocksOf(lists, start) + {b}
  {
    var a := Address(start, b);
    var lists' := lists[b.order := [a] + lists[b.order]];
    AddressOfBlock(start, b);
    Listed(lists, start, b);
    forall k, c | 0 <= k <= MAX_ORDER && c in lists'[k] ensures IsBlockAddress(start, k, c) {
      assert k == b.order ==> c == a || c in lists[k];
    }
    forall c ensures c in BlocksOf(lists', start) <==> c in BlocksOf(lists, start) + {b} {
      Listed(lists, start, c);
      Listed(lists', start, c);
      if c.order == b.order && Address(start, c) == a {
        AddressOfBlock(start, c);
      }
    }
  }

  /** The sequence `s` without its element at `j`. */
  function Without(s: seq<nat>, j: nat): seq<nat>
    requires j < |s|
  {
    s[..j] + s[j + 1..]
  }

  lemma WithoutElement(s: seq<nat>, j: nat, c: nat)
    requires j < |s| && Distinct(s)
    ensures Distinct(Without(s, j))
    ensures c in Without(s, j) <==> c in s && c != s[j]
  {
    var t := Without(s, j);
    forall i | 0 <= i < |t| ensures t[i] == s[if i < j then i else i + 1] {}
    if c in s && c != s[j] {
      var i :| 0 <= i < |s| && s[i] == c;
      assert t[if i < j then i else i - 1] == c;
    }
  }

  lemma RemoveDrops(lists: seq<seq<nat>>, start: nat, b: Block, j: nat)
    requires WellFormed(lists, start) && b.order <= MAX_ORDER
    requires j < |lists[b.order]| && lists[b.order][j] == Address(start, b)
    ensures var lists' := lists[b.order := Without(lists[b.order], j)];
            WellFormed(lists', start) && BlocksOf(lists', start) == BlocksOf(lists, start) - {b}
  {
    var a := Address(start, b);
    var lists' := lists[b.order := Without(lists[b.order], j)];
    forall k, c | 0 <= k <= MAX_ORDER && c in lists'[k] ensures IsBlockAddress(start, k, c) {
      if k == b.order { WithoutElement(lists[k], j, c); }
    }
    WithoutElement(lists[b.order], j, a);
    forall c ensures c in BlocksOf(lists', start) <==> c in BlocksOf(lists, start) - {b} {
      Listed(lists, start, c);
      Listed(lists', start, c);
      if c.order == b.order {
        WithoutElement(lists[b.order], j, Address(start, c));
        AddressOfBlock(start, c);
        AddressOfBlock(start, b);
      }
    }
  }

  /** Toggling one bit of the offset finds the buddy. */
  lemma BuddyByXor(start: nat, b: Block)
    ensures start + Xor(Address(start, b) - start, Pow2(b.order + PAGE_SHIFT)) == Address(start, Buddy(b))
  {
    XorBit(b.index, b.order + PAGE_SHIFT);
  }

  /** The merged block starts at the lower of the two addresses. */
  lemma ParentAddress(start: nat, b: Block)
    ensures Address(start, Parent(b))
         == if Address(start, Buddy(b)) < Address(start, b) then Address(start, Buddy(b)) else Address(start, b)
  {
    var k, i := b.order + PAGE_SHIFT, b.index;
    ScaleMono(i - i % 2, i - i % 2 + 1, k);
    ScaleScale(i / 2, 1, k);
    assert Scale(i / 2, 1) == i - i % 2;
  }

  /** The address arithmetic of splitting. */
  lemma HalfAddresses(start: nat, b: Block)
    requires b.order > 0
    ensures Address(start, LeftHalf(b)) == Address(start, b)
    ensures Address(start, RightHalf(b)) == Address(start, b) + Pow2(b.order - 1 + PAGE_SHIFT)
  {
    var k := b.order - 1 + PAGE_SHIFT;
    ScaleScale(b.index, 1, k);
    ScaleAdd(2 * b.index, 1, k);
    ScaleMono(0, 1, k);
    assert Scale(b.index, 1) == 2 * b.index;
  }

  lemma EmptyLists(lists: seq<seq<nat>>, start: nat)
    requires |lists| == MAX_ORDER + 1 && forall k :: 0 <= k <= MAX_ORDER ==> lists[k] == []
    ensures WellFormed(lists, start) && BlocksOf(lists, start) == {}
  {
  }

  lemma PageBytes(k: nat)
    ensures Pow2(k + PAGE_SHIFT) == Pow2(k) * PAGE_SIZE
    ensures forall x: nat :: Scale(x, PAGE_SHIFT) == x * PAGE_SIZE
  {
    Pow2Constants();
    Pow2Add(k, PAGE_SHIFT);
    forall x: nat ensures Scale(x, PAGE_SHIFT) == x * PAGE_SIZE {
      ScaleMul(x, PAGE_SHIFT);
    }
  }

  /** Byte alignment of page `c` is alignment of its number. */
  lemma PageAligned(c: nat, k: nat)
    ensures c * PAGE_SIZE % Pow2(k + PAGE_SHIFT) == 0 <==> Low(c, k) == 0
  {
    PageBytes(k);
    ShrDiv(c * PAGE_SIZE, k + PAGE_SHIFT);
    LowScale(c, PAGE_SHIFT, k + PAGE_SHIFT);
    Split(c, k);
  }

  /** The block carved at page `c` with the order chosen by `SeedOrder`. */
  lemma SeedBlock(start: nat, total: nat, c: nat, order: nat) returns (b: Block)
    requires c < total && order <= MAX_ORDER
    requires order > 0 ==> c * PAGE_SIZE + Pow2(order + PAGE_SHIFT) <= total * PAGE_SIZE
                           && c * PAGE_SIZE % Pow2(order + PAGE_SHIFT) == 0
    requires order < MAX_ORDER ==> c * PAGE_SIZE + Pow2(order + 1 + PAGE_SHIFT) > total * PAGE_SIZE
                                   || c * PAGE_SIZE % Pow2(order + 1 + PAGE_SHIFT) != 0
    ensures b.order == order && FirstPage(b) == c && c + Pow2(order) <= total && CannotDouble(b, total)
    ensures Address(start, b) == start + c * PAGE_SIZE
    ensures Pow2(order + PAGE_SHIFT) == Pow2(order) * PAGE_SIZE
  {
    b := Block(order, Shr(c, order));
    Split(c, order);
    PageAligned(c, order);
    PageBytes(order);
    ScaleScale(b.index, order, PAGE_SHIFT);
    if order < MAX_ORDER {
      PageBytes(order + 1);
      PageAligned(c, order + 1);
      LowScale(b.index, order, order + 1);
      assert Low(b.index, 1) == b.index % 2;
      ScaleMono(0, 0, order);
    }
  }

  class Allocator {
    const start: nat
    const total: nat          // data pages
    var freeLists: seq<seq<nat>>

    ghost function Blocks(): set<Block>
      reads this
    {
      BlocksOf(freeLists, start)
    }

    ghost function Free(): set<nat>
      reads this
    {
      FreePages(Blocks(), total)
    }

    ghost predicate Valid()
      reads this
    {
      WellFormed(freeLists, start) && Coalesced(Blocks(), total)
    }

    /** `pmm_init`: every page of the region is free, carved into the largest aligned blocks that fit. */
    constructor (start: nat, total: nat)
      ensures this.start == start && this.total == total
      ensures Valid()
      ensures Free() == AllPages(total)
    {
      this.start := start;
      this.total := total;
      freeLists := seq(MAX_ORDER + 1, _ => []);
      new;
      EmptyLists(freeLists, start);
      Seed();
    }

    /** The largest order that is aligned at page `c` and fits before the end of the region. */
    method SeedOrder(cur: nat, end: nat) returns (order: nat)
      requires start <= cur < end
      ensures order <= MAX_ORDER
      ensures order > 0 ==> cur + Pow2(order + PAGE_SHIFT) <= end && (cur - start) % Pow2(order + PAGE_SHIFT) == 0
      ensures order < MAX_ORDER ==>
                cur + Pow2(order + 1 + PAGE_SHIFT) > end || (cur - start) % Pow2(order + 1 + PAGE_SHIFT) != 0
    {
      order := MAX_ORDER;
      while order > 0
        invariant order <= MAX_ORDER
        invariant order < MAX_ORDER ==>
                    cur + Pow2(order + 1 + PAGE_SHIFT) > end || (cur - start) % Pow2(order + 1 + PAGE_SHIFT) != 0
      {
        if cur + Pow2(order + PAGE_SHIFT) <= end && (cur - start) % Pow2(order + PAGE_SHIFT) == 0 {
          break;
        }
        order := order - 1;
      }
    }

    method Seed()
      requires WellFormed(freeLists, start) && Blocks() == {}
      modifies this
      ensures Valid()
      ensures Free() == AllPages(total)
    {
      var cur: nat, end: nat := start, start + total * PAGE_SIZE;
      ghost var c := 0;                       // pages carved so far
      while cur < end
        invariant WellFormed(freeLists, start)
        invariant cur == start + c * PAGE_SIZE
        invariant Seeded(Blocks(), c, total)
        decreases end - cur
      {
        var order := SeedOrder(cur, end);
        ghost var b := SeedBlock(start, total, c, order);
        SeedNext(Blocks(), b, total);
        AddressOfBlock(start, b);
        Push(order, cur);
        cur := cur + Pow2(order + PAGE_SHIFT);
        c := c + Pow2(order);
      }
      assert Free() == AllPages(total);
    }

    method Push(order: nat, blk: nat)
      requires WellFormed(freeLists, start) && order <= MAX_ORDER
      requires IsBlockAddress(start, order, blk) && BlockAt(start, order, blk) !in Blocks()
      modifies this
      ensures WellFormed(freeLists, start)
      ensures Blocks() == old(Blocks()) + {BlockAt(start, order, blk)}
    {
      PushAdds(freeLists, start, BlockAt(start, order, blk));
      freeLists := freeLists[order := [blk] + freeLists[order]];
    }

    method Pop(order: nat) returns (blk: nat)
      requires WellFormed(freeLists, start) && order <= MAX_ORDER && freeLists[order] != []
      modifies this
      ensures WellFormed(freeLists, start)
      ensures IsBlockAddress(start, order, blk)
      ensures BlockAt(start, order, blk) in old(Blocks())
      ensures Blocks() == old(Blocks()) - {BlockAt(start, order, blk)}
    {
      blk := freeLists[order][0];
      assert blk in freeLists[order];
      Listed(freeLists, start, BlockAt(start, order, blk));
      RemoveDrops(freeLists, start, BlockAt(start, order, blk), 0);
      freeLists := freeLists[order := freeLists[order][1..]];
      assert freeLists[order] == Without(old(freeLists)[order], 0);
    }

    /** Search the list of `order` for the block at `addr` and unlink it. */
    method Unlink(order: nat, addr: nat) returns (found: bool)
      requires WellFormed(freeLists, start) && order <= MAX_ORDER && IsBlockAddress(start, order, addr)
      modifies this
      ensures WellFormed(freeLists, start)
      ensures found <==> BlockAt(start, order, addr) in old(Blocks())
      ensures Blocks() == old(Blocks()) - {BlockAt(start, order, addr)}
      ensures !found ==> freeLists == old(freeLists)
    {
      var j := 0;
      Listed(freeLists, start, BlockAt(start, order, addr));
      while j < |freeLists[order]|
        invariant 0 <= j <= |freeLists[order]|
        invariant freeLists == old(freeLists)
        invariant addr !in freeLists[order][..j]
      {
        if freeLists[order][j] == addr {
          RemoveDrops(freeLists, start, BlockAt(start, order, addr), j);
          freeLists := freeLists[order := Without(freeLists[order], j)];
          return true;
        }
        j := j + 1;
      }
      assert freeLists[order][..j] == freeLists[order];
      return false;
    }

    /** The smallest order from `order` on with a free block, or `MAX_ORDER + 1`. */
    method FirstNonEmpty(order: nat) returns (k: nat)
      requires WellFormed(freeLists, start) && order <= MAX_ORDER
      ensures order <= k <= MAX_ORDER + 1
      ensures k <= MAX_ORDER ==> freeLists[k] != []
      ensures k > MAX_ORDER ==> forall c :: c in Blocks() ==> c.order < order
    {
      k := order;
      while k <= MAX_ORDER && freeLists[k] == []
        invariant order <= k <= MAX_ORDER + 1
        invariant forall j :: order <= j < k ==> freeLists[j] == []
      {
        k := k + 1;
      }
      if k > MAX_ORDER {
        forall c | c in Blocks() ensures c.order < order {
          Listed(freeLists, start, c);
        }
      }
    }

    /** Split the block of order `k0` at `blk` down to `order`, listing the right halves. */
    method SplitDown(k0: nat, order: nat, blk: nat, ghost pages: set<nat>)
      requires order <= k0 <= MAX_ORDER && WellFormed(freeLists, start)
      requires IsBlockAddress(start, k0, blk) && Holding(Blocks(), BlockAt(start, k0, blk), total, pages)
      modifies this
      ensures WellFormed(freeLists, start)
      ensures IsBlockAddress(start, order, blk) && Holding(Blocks(), BlockAt(start, order, blk), total, pages)
    {
      var k := k0;
      ghost var b := BlockAt(start, k, blk);
      while k > order
        invariant order <= k <= MAX_ORDER
        invariant IsBlockAddress(start, k, blk) && b == BlockAt(start, k, blk)
        invariant WellFormed(freeLists, start)
        invariant Holding(Blocks(), b, total, pages)
      {
        SplitHeld(Blocks(), b, total, pages);
        HalfAddresses(start, b);
        NotListed(Blocks(), b, total, pages, RightHalf(b));
        AddressOfBlock(start, LeftHalf(b));
        AddressOfBlock(start, RightHalf(b));
        b := LeftHalf(b);
        k := k - 1;
        Push(k, blk + Pow2(k + PAGE_SHIFT));
      }
    }

    /** `buddy_alloc`: fails iff no aligned run of `2^order` free pages exists, and otherwise takes one
        such run, the lists staying coalesced. */
    method Alloc(order: nat) returns (r: Option<nat>)
      requires Valid() && order <= MAX_ORDER
      modifies this
      ensures Valid()
      ensures r.None? <==> !exists b: Block :: b.order == order && Within(b, old(Free()))
      ensures r.None? ==> freeLists == old(freeLists)
      ensures r.Some? ==>
                && IsBlockAddress(start, order, r.value)
                && InRegion(BlockAt(start, order, r.value), total)
                && Pages(BlockAt(start, order, r.value)) <= old(Free())
                && Free() == old(Free()) - Pages(BlockAt(start, order, r.value))
    {
      ghost var pages := Free();
      RunExists(Blocks(), total, order);
      var k := FirstNonEmpty(order);
      if k > MAX_ORDER {
        return None;
      }
      var blk := Pop(k);
      Take(old(Blocks()), BlockAt(start, k, blk), total);
      SplitDown(k, order, blk, pages);
      Kept(Blocks(), BlockAt(start, order, blk), total, pages);
      return Some(blk);
    }

    /** One round of coalescing: merge with the buddy if it is free. */
    method Merge(order: nat, addr: nat, ghost pages: set<nat>) returns (found: bool, merged: nat)
      requires order < MAX_ORDER && WellFormed(freeLists, start)
      requires IsBlockAddress(start, order, addr) && Holding(Blocks(), BlockAt(start, order, addr), total, pages)
      modifies this
      ensures WellFormed(freeLists, start)
      ensures !found ==> merged == addr && freeLists == old(freeLists) && Buddy(BlockAt(start, order, addr)) !in Blocks()
      ensures found ==> IsBlockAddress(start, order + 1, merged)
                        && Holding(Blocks(), BlockAt(start, order + 1, merged), total, pages)
    {
      ghost var b := BlockAt(start, order, addr);
      BuddyByXor(start, b);
      ParentAddress(start, b);
      AddressOfBlock(start, Buddy(b));
      AddressOfBlock(start, Parent(b));
      var buddy := start + Xor(addr - start, Pow2(order + PAGE_SHIFT));
      merged := addr;
      found := Unlink(order, buddy);
      if found {
        MergeHeld(old(Blocks()), b, total, pages);
        if buddy < addr {
          merged := buddy;
        }
      }
    }

    /** `buddy_free`: gives the block back, merging with free buddies as far as possible. */
    method Release(order0: nat, blk: nat)
      requires Valid() && order0 <= MAX_ORDER && IsBlockAddress(start, order0, blk)
      requires InRegion(BlockAt(start, order0, blk), total)
      requires Pages(BlockAt(start, order0, blk)) !! Free()
      modifies this
      ensures Valid()
      ensures Free() == old(Free()) + Pages(BlockAt(start, order0, blk))
    {
      var order: nat, addr: nat := order0, blk;
      ghost var pages := Free() + Pages(BlockAt(start, order, addr));
      BuddyTheory.Release(Blocks(), BlockAt(start, order, addr), total);
      var merging := true;
      while order < MAX_ORDER && merging
        invariant order <= MAX_ORDER
        invariant IsBlockAddress(start, order, addr)
        invariant WellFormed(freeLists, start)
        invariant Holding(Blocks(), BlockAt(start, order, addr), total, pages)
        invariant !merging && order < MAX_ORDER ==> Buddy(BlockAt(start, order, addr)) !in Blocks()
        decreases MAX_ORDER - order, merging
      {
        merging, addr := Merge(order, addr, pages);
        if merging {
          order := order + 1;
        }
      }
      ghost var b := BlockAt(start, order, addr);
      NotListed(Blocks(), b, total, pages, b);
      Put(Blocks(), b, total, pages);
      Push(order, addr);
    }
  }

  /** The block in hand, and any part of it, is on no list. */
  lemma NotListed(blocks: set<Block>, b: Block, n: nat, pages: set<nat>, c: Block)
    requires Holding(blocks, b, n, pages)
    requires c == b || (b.order > 0 && c == RightHalf(b))
    ensures c !in blocks
  {
    HasFirst(c);
    if c != b {
      HasHalves(b, FirstPage(c));
    }
  }
}
