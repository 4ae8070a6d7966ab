// buddy_area_init (kernel/kernel/buddy.c:150-175) over the boot-time allocator.

module Init {
  import opened Words
  import opened Nodes
  import opened Blocks
  import opened Links
  import opened Frames
  import opened Image
  import opened Areas
  import opened Reserved
  import opened Buddy

  const AREA_STRUCT: nat := 64

  // The bytes the three allocations take: the struct, the tree, the list heads.
  function TreeBytes(g: Geometry): nat
    requires g.Valid()
  {
    Pow2(g.Order() + 1)
  }

  function ListBytes(g: Geometry): nat
    requires g.Valid()
  {
    LIST_SIZE * (g.Order() + 1)
  }

  function InitBytes(g: Geometry): nat
    requires g.Valid()
  {
    AREA_STRUCT + RoundUp8(TreeBytes(g)) + ListBytes(g)
  }

  function RoundUp8(n: nat): nat {
    if n % 8 == 0 then n else n + (8 - n % 8)
  }

  lemma SmallSizes(g: Geometry)
    requires g.Valid()
    ensures TreeBytes(g) <= 0x8_0000
    ensures AlignTo(TreeBytes(g), 8) == RoundUp8(TreeBytes(g))
    ensures AlignTo(ListBytes(g), 8) == ListBytes(g) && AlignTo(AREA_STRUCT, 8) == AREA_STRUCT
  {
    Pow2Monotone(g.Order() + 1, 19);
    assert Pow2(4) == 16;
    assert Pow2(8) == 16 * Pow2(4);
    assert Pow2(12) == 16 * Pow2(8);
    assert Pow2(16) == 16 * Pow2(12);
    assert Pow2(19) == 8 * Pow2(16);
    assert ListBytes(g) % 8 == 0;
  }

  // Every tree byte and every list head the area uses lies in what was allocated.
  lemma IndicesFit(g: Geometry, n: nat, k: nat)
    requires g.Valid() && n < NodeCount(g.Order()) && k <= g.Order()
    ensures n / 8 < TreeBytes(g)
    ensures LIST_SIZE * k + LIST_SIZE <= ListBytes(g)
  {
    assert TreeBytes(g) == 2 * Pow2(g.Order());
  }

  // The pool can hold links, away from the area.
  ghost predicate PoolUsable(pool: ReservedPool, g: Geometry, mem: Memory)
    requires g.Valid()
    reads pool, mem
  {
    && pool.Valid()
    && (pool.start + pool.size <= g.base || g.base + Pow2(g.logMax) <= pool.start)
    && forall a :: pool.start <= a < pool.start + pool.size && (a - pool.start) % 8 == 0 ==> a in mem.link
  }

  // A fresh area with its whole memory in one free block, or NULL exactly when
  // the pool has too little left for the three allocations. It is valid exactly
  // when the memory area owns the memory it is put in.
  method BuddyAreaInit(g: Geometry, pool: ReservedPool, areas: seq<MemArea>, area: nat, mem: Memory, phys: PhysMem)
    returns (b: BuddyArea?)
    requires g.Valid() && PoolUsable(pool, g, mem)
    requires forall n :: 0 <= n < NodeCount(g.Order()) ==> Layout(g, 0, areas, area).Addr(n) in mem.link
    requires Owns(areas, area, g.base, Pow2(g.logMax)) ==>
               forall i :: 0 <= i < areas[area].mapSize ==> Frame(area, i) in phys.pages
    modifies pool, pool.page, mem
    ensures pool.Valid()
    ensures b == null <==> InitBytes(g) > old(pool.available)
    ensures b == null ==> mem.link == old(mem.link)
    ensures b != null ==>
              && fresh(b) && fresh(b.tree) && b.mem == mem && b.phys == phys
              && b.l == Layout(g, b.l.freelist, areas, area)
              && b.Abstract() == Fresh(g.logMax) && (b.Valid() <==> Owns(areas, area, g.base, Pow2(g.logMax)))
              && pool.available == old(pool.available) - InitBytes(g)
              && b.l.freelist == old(pool.base) + AREA_STRUCT + RoundUp8(TreeBytes(g))
              && b.l.freelist + ListBytes(g) == pool.base
              && mem.link.Keys == old(mem.link).Keys
              && forall a :: a in mem.link && a != g.base && !b.l.IsHead(a) ==> mem.link[a] == old(mem.link)[a]
  {
    b := null;
    var freelist := AllocParts(g, pool);
    if freelist.None? {
      return;
    }
    var lay := Layout(g, freelist.value, areas, area);
    forall n | 0 <= n < lay.Nodes()
      ensures lay.Addr(n) in mem.link
    {
      assert lay.Addr(n) == Layout(g, 0, areas, area).Addr(n);
    }
    HeadsAligned(lay, pool.start);
    b := new BuddyArea(lay, mem, phys);
  }

  lemma HeadsAligned(l: Layout, start: nat)
    requires l.g.Valid() && start <= l.freelist && (l.freelist - start) % 8 == 0
    ensures forall k :: 0 <= k <= l.Order() ==> (l.Head(k) - start) % 8 == 0
  {
  }

  // The three allocations: where the list heads are, or None.
  method AllocParts(g: Geometry, pool: ReservedPool) returns (freelist: Option<nat>)
    requires g.Valid() && pool.Valid()
    modifies pool, pool.page
    ensures pool.Valid()
    ensures freelist.None? <==> InitBytes(g) > old(pool.available)
    ensures freelist.Some? ==>
              && pool.available == old(pool.available) - InitBytes(g)
              && freelist.value == old(pool.base) + AREA_STRUCT + RoundUp8(TreeBytes(g))
              && freelist.value + ListBytes(g) == pool.base
              && (freelist.value - pool.start) % 8 == 0
  {
    SmallSizes(g);
    freelist := AllocSizes(pool, TreeBytes(g), ListBytes(g), RoundUp8(TreeBytes(g)));
  }

  // In that order; the sizes come with what they are rounded up to.
  method AllocSizes(pool: ReservedPool, treeSz: nat, listSz: nat, ghost treeUp: nat) returns (freelist: Option<nat>)
    requires pool.Valid() && treeSz < WORD && listSz < WORD
    requires AlignTo(treeSz, 8) == treeUp && AlignTo(listSz, 8) == listSz
    modifies pool, pool.page
    ensures pool.Valid()
    ensures freelist.None? <==> AREA_STRUCT + treeUp + listSz > old(pool.available)
    ensures freelist.Some? ==>
              && pool.available == old(pool.available) - (AREA_STRUCT + treeUp + listSz)
              && freelist.value == old(pool.base) + AREA_STRUCT + treeUp && freelist.value + listSz == pool.base
              && (freelist.value - pool.start) % 8 == 0
  {
    StructSize();
    var self := pool.Alloc(AREA_STRUCT);
    if self.None? {
      return None;
    }
    var tree := pool.Alloc(treeSz);
    if tree.None? {
      return None;
    }
    freelist := pool.Alloc(listSz);
    if freelist.Some? {
      SameResidue(freelist.value, pool.start);
    }
  }

  lemma StructSize()
    ensures AlignTo(AREA_STRUCT, 8) == AREA_STRUCT
  {
  }

  lemma SameResidue(a: nat, b: nat)
    requires a % 8 == b % 8
    ensures (a - b) % 8 == 0
  {
  }
}
