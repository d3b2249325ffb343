/** Aligned power-of-two blocks of pages, and why a coalesced free list is canonical.

A block of order `k` and index `i` holds the pages `x` with `x >> k == i`, so alignment relative to
the start of the region is built in.  `Coalesced` is the invariant of the buddy allocator
(`oslabs/kernel/src/pmm.c`): blocks inside the region, pairwise disjoint, no two free buddies below
the largest order.
 */
module BuddyTheory {
  import opened Bits

  const MAX_ORDER: nat := 16

  datatype Block = Block(order: nat, index: nat)

  predicate Has(b: Block, x: nat) {
    Shr(x, b.order) == b.index
  }

  function FirstPage(b: Block): nat {
    Scale(b.index, b.order)
  }

  function Pages(b: Block): set<nat> {
    set x: nat | x < FirstPage(b) + Pow2(b.order) && Has(b, x)
  }

  function Parent(b: Block): Block {
    Block(b.order + 1, b.index / 2)
  }

  function Buddy(b: Block): Block {
    Block(b.order, Flip(b.index))
  }

  function LeftHalf(b: Block): Block
    requires b.order > 0
  {
    Block(b.order - 1, 2 * b.index)
  }

  function RightHalf(b: Block): Block
    requires b.order > 0
  {
    Block(b.order - 1, 2 * b.index + 1)
  }

  // ------------------------------------------------------------------ pages of a block

  /** The pages of a block are `2^order` consecutive ones from its first page. */
  lemma HasRange(b: Block, x: nat)
    ensures Has(b, x) <==> FirstPage(b) <= x < FirstPage(b) + Pow2(b.order)
  {
    var i := Shr(x, b.order);
    Split(x, b.order);
    if i < b.index {
      ScaleMono(i, b.index, b.order);
    } else if b.index < i {
      ScaleMono(b.index, i, b.order);
    }
  }

  lemma HasPages(b: Block, x: nat)
    ensures Has(b, x) <==> x in Pages(b)
  {
    HasRange(b, x);
  }

  lemma HasFirst(b: Block)
    ensures Has(b, FirstPage(b))
  {
    ShrScale(b.index, b.order, 0);
  }

  lemma HasParent(b: Block, x: nat)
    ensures Has(Parent(b), x) <==> Has(b, x) || Has(Buddy(b), x)
  {
    ShrShr(x, b.order, 1);
    var y := Shr(x, b.order);
    assert Shr(y, 1) == y / 2;
  }

  lemma HasHalves(b: Block, x: nat)
    requires b.order > 0
    ensures Has(b, x) <==> Has(LeftHalf(b), x) || Has(RightHalf(b), x)
  {
    HasParent(LeftHalf(b), x);
  }

  /** The block of order `k` around `b`. */
  function Enclosing(b: Block, k: nat): Block
    requires b.order <= k
  {
    Block(k, Shr(b.index, k - b.order))
  }

  lemma HasEnclosing(b: Block, k: nat, x: nat)
    requires b.order <= k && Has(b, x)
    ensures Has(Enclosing(b, k), x)
  {
    ShrShr(x, b.order, k - b.order);
  }

  lemma EnclosingParent(b: Block, k: nat)
    requires b.order < k
    ensures Enclosing(b, k) == Enclosing(Parent(b), k)
  {
  }

  // ------------------------------------------------------------------ free lists as sets

  ghost predicate Covered(blocks: set<Block>, x: nat) {
    exists b :: b in blocks && Has(b, x)
  }

  /** The free pages of a region of `n` pages. */
  ghost function FreePages(blocks: set<Block>, n: nat): set<nat> {
    set x | 0 <= x < n && Covered(blocks, x)
  }

  /** All pages of a region of `n` pages. */
  function AllPages(n: nat): (s: set<nat>)
    ensures forall x :: x in s <==> 0 <= x < n
  {
    if n == 0 then {} else AllPages(n - 1) + {n - 1}
  }

  ghost predicate Within(b: Block, pages: set<nat>) {
    forall x: nat :: Has(b, x) ==> x in pages
  }

  ghost predicate InRegion(b: Block, n: nat) {
    b.order <= MAX_ORDER && forall x: nat :: Has(b, x) ==> x < n
  }

  ghost predicate PairwiseDisjoint(blocks: set<Block>) {
    forall a, b, x: nat :: a in blocks && b in blocks && Has(a, x) && Has(b, x) ==> a == b
  }

  ghost predicate Coalesced(blocks: set<Block>, n: nat) {
    && (forall b :: b in blocks ==> InRegion(b, n))
    && PairwiseDisjoint(blocks)
    && (forall b :: b in blocks && b.order < MAX_ORDER ==> Buddy(b) !in blocks)
  }

  /** A largest aligned block of free pages. */
  ghost predicate Maximal(b: Block, pages: set<nat>) {
    && b.order <= MAX_ORDER
    && Within(b, pages)
    && (b.order == MAX_ORDER || !Within(Parent(b), pages))
  }

  lemma CoveredIsFree(blocks: set<Block>, n: nat, b: Block)
    requires Coalesced(blocks, n) && b in blocks
    ensures Within(b, FreePages(blocks, n))
  {
    forall x: nat | Has(b, x) ensures x in FreePages(blocks, n) {
      assert InRegion(b, n);
    }
  }

  /** An aligned block whose pages are all free lies inside one listed block. */
  lemma {:induction false} Absorbed(blocks: set<Block>, n: nat, b: Block) returns (c: Block)
    requires Coalesced(blocks, n) && b.order <= MAX_ORDER && Within(b, FreePages(blocks, n))
    ensures c in blocks && b.order <= c.order && Enclosing(b, c.order) == c
    decreases b.order
  {
    if b.order == 0 {
      assert Has(b, b.index);
      c :| c in blocks && Has(c, b.index);
    } else {
      var l, r := LeftHalf(b), RightHalf(b);
      forall x: nat | Has(l, x) || Has(r, x) ensures x in FreePages(blocks, n) {
        HasHalves(b, x);
      }
      var cl := Absorbed(blocks, n, l);
      var cr := Absorbed(blocks, n, r);
      assert Parent(l) == b && Parent(r) == b && Buddy(l) == r;
      if cl.order > l.order {
        c := cl;
        EnclosingParent(l, c.order);
      } else if cr.order > r.order {
        c := cr;
        EnclosingParent(r, c.order);
      } else {
        assert false;
      }
    }
  }

  lemma ListedIsMaximal(blocks: set<Block>, n: nat, b: Block)
    requires Coalesced(blocks, n) && b in blocks
    ensures Maximal(b, FreePages(blocks, n))
  {
    CoveredIsFree(blocks, n, b);
    assert InRegion(b, n);
    if b.order < MAX_ORDER && Within(Parent(b), FreePages(blocks, n)) {
      var c := Absorbed(blocks, n, Parent(b));
      var x := FirstPage(b);
      HasFirst(b);
      HasParent(b, x);
      HasEnclosing(Parent(b), c.order, x);
      assert false;
    }
  }

  lemma MaximalIsListed(blocks: set<Block>, n: nat, b: Block)
    requires Coalesced(blocks, n) && Maximal(b, FreePages(blocks, n))
    ensures b in blocks
  {
    var c := Absorbed(blocks, n, b);
    if c.order > b.order {
      EnclosingParent(b, c.order);
      CoveredIsFree(blocks, n, c);
      assert InRegion(c, n);
      forall x: nat | Has(Parent(b), x) ensures x in FreePages(blocks, n) {
        HasEnclosing(Parent(b), c.order, x);
      }
      assert false;
    }
  }

  /** The free lists, as a set, are exactly the maximal aligned blocks of the free pages. */
  lemma Canonical(blocks: set<Block>, n: nat)
    requires Coalesced(blocks, n)
    ensures forall b :: b in blocks <==> Maximal(b, FreePages(blocks, n))
  {
    forall b ensures b in blocks <==> Maximal(b, FreePages(blocks, n)) {
      if b in blocks {
        ListedIsMaximal(blocks, n, b);
      }
      if Maximal(b, FreePages(blocks, n)) {
        MaximalIsListed(blocks, n, b);
      }
    }
  }

  /** Two coalesced free lists with the same free pages hold the same blocks. */
  lemma Determined(a: set<Block>, b: set<Block>, n: nat)
    requires Coalesced(a, n) && Coalesced(b, n) && FreePages(a, n) == FreePages(b, n)
    ensures a == b
  {
    Canonical(a, n);
    Canonical(b, n);
  }

  // ------------------------------------------------------------------ a block in hand

  /** The coalesced lists together with one block taken out of them, or not yet put back. */
  ghost predicate Holding(blocks: set<Block>, b: Block, n: nat, pages: set<nat>) {
    && Coalesced(blocks, n)
    && InRegion(b, n)
    && (forall c, x: nat :: c in blocks && Has(b, x) ==> !Has(c, x))
    && (forall x: nat :: x in pages <==> Covered(blocks, x) || Has(b, x))
  }

  /** Taking a listed block in hand. */
  lemma Take(blocks: set<Block>, b: Block, n: nat)
    requires Coalesced(blocks, n) && b in blocks
    ensures Holding(blocks - {b}, b, n, FreePages(blocks, n))
  {
    forall x: nat ensures x in FreePages(blocks, n) <==> Covered(blocks - {b}, x) || Has(b, x) {
      if x in FreePages(blocks, n) && !Has(b, x) {
        var c :| c in blocks && Has(c, x);
        assert c in blocks - {b};
      }
      assert InRegion(b, n);
    }
  }

  /** Splitting: the right half goes to the list below, the left half stays in hand. */
  lemma SplitHeld(blocks: set<Block>, b: Block, n: nat, pages: set<nat>)
    requires Holding(blocks, b, n, pages) && b.order > 0
    ensures Holding(blocks + {RightHalf(b)}, LeftHalf(b), n, pages)
  {
    var l, r := LeftHalf(b), RightHalf(b);
    var blocks' := blocks + {r};
    forall x: nat ensures Has(b, x) <==> Has(l, x) || Has(r, x) {
      HasHalves(b, x);
    }
    HasFirst(l);
    HasFirst(r);
    assert l !in blocks && Buddy(r) == l;
    forall c | c in blocks' && c.order < MAX_ORDER ensures Buddy(c) !in blocks' {
      assert Buddy(c) == r ==> c == l;
    }
    forall x: nat ensures x in pages <==> Covered(blocks', x) || Has(l, x) {
      if Covered(blocks, x) {
        var c :| c in blocks && Has(c, x);
        assert c in blocks';
      }
      assert r in blocks';
    }
  }

  /** Merging: the free buddy leaves its list and joins the block in hand. */
  lemma MergeHeld(blocks: set<Block>, b: Block, n: nat, pages: set<nat>)
    requires Holding(blocks, b, n, pages) && b.order < MAX_ORDER && Buddy(b) in blocks
    ensures Holding(blocks - {Buddy(b)}, Parent(b), n, pages)
  {
    var r := Buddy(b);
    var blocks' := blocks - {r};
    forall x: nat ensures Has(Parent(b), x) <==> Has(b, x) || Has(r, x) {
      HasParent(b, x);
    }
    assert InRegion(r, n);
    forall x: nat ensures x in pages <==> Covered(blocks', x) || Has(Parent(b), x) {
      if Covered(blocks, x) && !Has(r, x) {
        var c :| c in blocks && Has(c, x);
        assert c in blocks';
      }
      assert r in blocks;
    }
  }

  /** Putting the block in hand back, when its buddy is not free. */
  lemma Put(blocks: set<Block>, b: Block, n: nat, pages: set<nat>)
    requires Holding(blocks, b, n, pages)
    requires b.order < MAX_ORDER ==> Buddy(b) !in blocks
    ensures Coalesced(blocks + {b}, n)
    ensures FreePages(blocks + {b}, n) == pages
  {
    var blocks' := blocks + {b};
    forall c | c in blocks' && c.order < MAX_ORDER ensures Buddy(c) !in blocks' {
      assert Buddy(c) == b ==> Buddy(b) == c;
    }
    forall x: nat ensures x in pages <==> x in FreePages(blocks', n) {
      if Covered(blocks, x) {
        var c :| c in blocks && Has(c, x);
        assert c in blocks' && InRegion(c, n);
      }
      assert b in blocks';
    }
  }

  /** The pages that remain free after a block is handed out. */
  lemma Kept(blocks: set<Block>, b: Block, n: nat, pages: set<nat>)
    requires Holding(blocks, b, n, pages)
    ensures FreePages(blocks, n) == pages - Pages(b)
    ensures Pages(b) <= pages
  {
    forall x: nat ensures Has(b, x) <==> x in Pages(b) {
      HasPages(b, x);
    }
    forall x: nat | Covered(blocks, x) ensures x < n {
      var c :| c in blocks && Has(c, x);
      assert InRegion(c, n);
    }
  }

  /** A block that is not free can be taken in hand to be freed. */
  lemma Release(blocks: set<Block>, b: Block, n: nat)
    requires Coalesced(blocks, n) && InRegion(b, n) && Pages(b) !! FreePages(blocks, n)
    ensures Holding(blocks, b, n, FreePages(blocks, n) + Pages(b))
  {
    forall x: nat ensures Has(b, x) <==> x in Pages(b) {
      HasPages(b, x);
    }
    forall x: nat | Covered(blocks, x) ensures x in FreePages(blocks, n) {
      var c :| c in blocks && Has(c, x);
      assert InRegion(c, n);
    }
  }

  /** Some aligned run of `2^order` free pages exists iff a block of at least that order is listed. */
  lemma RunExists(blocks: set<Block>, n: nat, order: nat)
    requires Coalesced(blocks, n) && order <= MAX_ORDER
    ensures (exists b: Block :: b.order == order && Within(b, FreePages(blocks, n)))
       <==> (exists c: Block :: c in blocks && c.order >= order)
  {
    if b: Block :| b.order == order && Within(b, FreePages(blocks, n)) {
      var c := Absorbed(blocks, n, b);
    }
    if c: Block :| c in blocks && c.order >= order {
      var b := Block(order, Shr(FirstPage(c), order));
      CoveredIsFree(blocks, n, c);
      FirstAligned(c, order);
      forall x: nat | Has(b, x) ensures x in FreePages(blocks, n) {
        HasEnclosing(b, c.order, x);
      }
    }
  }

  lemma FirstAligned(c: Block, k: nat)
    requires k <= c.order
    ensures Enclosing(Block(k, Shr(FirstPage(c), k)), c.order) == c
  {
    HasFirst(c);
    HasEnclosing(Block(k, Shr(FirstPage(c), k)), c.order, FirstPage(c));
  }

  // ------------------------------------------------------------------ seeding

  /** The lists while the region is carved up: the first `c` of `n` pages are listed, each block being
      too large to double at its place. */
  ghost predicate Seeded(blocks: set<Block>, c: nat, n: nat) {
    && c <= n
    && Coalesced(blocks, n)
    && (forall x: nat :: Covered(blocks, x) <==> x < c)
    && (forall b :: b in blocks ==> CannotDouble(b, n))
  }

  predicate CannotDouble(b: Block, n: nat) {
    b.order == MAX_ORDER || b.index % 2 == 1 || FirstPage(b) + 2 * Pow2(b.order) > n
  }

  lemma BuddyFirstPage(b: Block)
    ensures b.index % 2 == 0 ==> FirstPage(Buddy(b)) == FirstPage(b) + Pow2(b.order)
    ensures b.index % 2 == 1 ==> FirstPage(b) == FirstPage(Buddy(b)) + Pow2(b.order)
  {
    if b.index % 2 == 0 {
      ScaleAdd(b.index, 1, b.order);
    } else {
      ScaleAdd(b.index - 1, 1, b.order);
    }
    ScaleMono(0, 1, b.order);
  }

  lemma SeedNext(blocks: set<Block>, b: Block, n: nat)
    requires Seeded(blocks, FirstPage(b), n)
    requires b.order <= MAX_ORDER && FirstPage(b) + Pow2(b.order) <= n && CannotDouble(b, n)
    ensures b !in blocks
    ensures Seeded(blocks + {b}, FirstPage(b) + Pow2(b.order), n)
  {
    var c := FirstPage(b);
    var blocks' := blocks + {b};
    forall x: nat ensures Has(b, x) <==> c <= x < c + Pow2(b.order) {
      HasRange(b, x);
    }
    assert Has(b, c);
    assert InRegion(b, n);
    assert forall d, x: nat :: d in blocks && Has(d, x) ==> Covered(blocks, x);
    assert b !in blocks;
    if b.order < MAX_ORDER {
      SeedBuddy(blocks, b, n);
    }
    forall d | d in blocks' && d.order < MAX_ORDER ensures Buddy(d) !in blocks' {
      assert Buddy(d) == b ==> d == Buddy(b);
    }
    forall x: nat ensures Covered(blocks', x) <==> x < c + Pow2(b.order) {
      if x < c {
        assert Covered(blocks, x);
        var d :| d in blocks && Has(d, x);
        assert d in blocks';
      }
      assert b in blocks';
    }
  }

  lemma SeedBuddy(blocks: set<Block>, b: Block, n: nat)
    requires Seeded(blocks, FirstPage(b), n) && b.order < MAX_ORDER
    requires FirstPage(b) + Pow2(b.order) <= n
    ensures Buddy(b) !in blocks
  {
    var d := Buddy(b);
    BuddyFirstPage(b);
    HasFirst(d);
    assert d in blocks ==> Covered(blocks, FirstPage(d)) && CannotDouble(d, n);
  }
}
