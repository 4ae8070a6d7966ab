// bootstrap_page_allocator (kernel/kernel/page.c:90-103): one buddy of 512 KiB in
// every memory area that is long enough, and a page allocator over all of them.

module Bootstrap {
  import opened Words
  import opened Nodes
  import opened Blocks
  import opened Ledger
  import opened Links
  import opened Frames
  import opened Image
  import opened Steps
  import opened Areas
  import opened Untouched
  import opened Reserved
  import opened Init
  import opened Buddy
  import opened Pages

  const BUDDY_LOG: nat := 19

  // What one buddy takes from the boot-time pool.
  const BUDDY_BYTES: nat := 448

  function PoolBytes(buddies: nat): nat {
    448 * buddies
  }

  function Place(areas: seq<MemArea>, i: nat): Geometry
    requires i < |areas|
  {
    Geometry(areas[i].base, BUDDY_LOG)
  }

  lemma PlaceBytes(g: Geometry)
    requires g.Valid() && g.logMax == BUDDY_LOG
    ensures InitBytes(g) == BUDDY_BYTES
  {
    assert Pow2(4) == 16;
    assert Pow2(8) == 16 * Pow2(4);
  }

  // The areas long enough for a buddy, among the first n.
  function Large(areas: seq<MemArea>, n: nat): seq<nat>
    requires n <= |areas|
  {
    if n == 0 then []
    else if areas[n - 1].len < BUDDY_MAX_SIZE then Large(areas, n - 1)
    else Large(areas, n - 1) + [n - 1]
  }

  function LargeAreas(areas: seq<MemArea>): seq<nat> {
    Large(areas, |areas|)
  }

  ghost predicate Listed(areas: seq<MemArea>, n: nat, at: seq<nat>) {
    n <= |areas| && at == Large(areas, n)
  }

  // They are those areas, each once, in order.
  lemma {:induction false} ListedIs(areas: seq<MemArea>, n: nat, at: seq<nat>)
    requires Listed(areas, n, at)
    ensures |at| <= n && forall k :: 0 <= k < |at| ==> at[k] < n && areas[at[k]].len >= BUDDY_MAX_SIZE
    ensures forall j, k :: 0 <= j < k < |at| ==> at[j] < at[k]
    ensures forall i :: 0 <= i < n && areas[i].len >= BUDDY_MAX_SIZE ==> i in at
    decreases n
  {
    if n > 0 {
      ListedIs(areas, n - 1, Large(areas, n - 1));
    }
  }

  lemma ListedNone(areas: seq<MemArea>)
    ensures Listed(areas, 0, [])
  {
  }

  lemma ListedSame(areas: seq<MemArea>, n: nat, at: seq<nat>, at': seq<nat>)
    requires Listed(areas, n, at) && Listed(areas, n, at')
    ensures at == at'
  {
  }

  lemma ListedNext(areas: seq<MemArea>, n: nat, at: seq<nat>)
    requires n < |areas| && Listed(areas, n, at)
    ensures areas[n].len < BUDDY_MAX_SIZE ==> Listed(areas, n + 1, at)
    ensures areas[n].len >= BUDDY_MAX_SIZE ==> Listed(areas, n + 1, at + [n])
    ensures forall k :: 0 <= k < |at| ==> at[k] < n && areas[at[k]].len >= BUDDY_MAX_SIZE
  {
    ListedIs(areas, n, at);
  }

  lemma {:induction false} ListedGrows(areas: seq<MemArea>, n: nat, at: seq<nat>, n': nat, at': seq<nat>)
    requires n <= n' && Listed(areas, n, at) && Listed(areas, n', at')
    ensures |at| <= |at'|
    decreases n'
  {
    if n < n' {
      ListedGrows(areas, n, at, n' - 1, Large(areas, n' - 1));
    }
  }

  // The memory of the buddy of area i is the area's own.
  ghost predicate OwnsBuddy(areas: seq<MemArea>, i: nat)
    requires i < |areas|
  {
    Owns(areas, i, areas[i].base, Pow2(BUDDY_LOG))
  }

  ghost predicate AllOwn(areas: seq<MemArea>) {
    forall i :: 0 <= i < |areas| && areas[i].len >= BUDDY_MAX_SIZE ==> OwnsBuddy(areas, i)
  }

  // A buddy can be put at the base of area i: away from the pool, with links at the
  // starts of its blocks, and with a descriptor for each page the area has.
  ghost predicate Hosts(areas: seq<MemArea>, i: nat, pool: ReservedPool, links: set<nat>, frames: set<Frame>)
    requires i < |areas|
  {
    var g := Place(areas, i);
    && g.Valid()
    && (pool.start + pool.size <= g.base || g.base + Pow2(BUDDY_LOG) <= pool.start)
    && (forall n :: 0 <= n < NodeCount(g.Order()) ==> Layout(g, 0, areas, i).Addr(n) in links)
    && (OwnsBuddy(areas, i) ==> forall k :: 0 <= k < areas[i].mapSize ==> Frame(i, k) in frames)
  }

  ghost predicate Ready(areas: seq<MemArea>, pool: ReservedPool, links: set<nat>, frames: set<Frame>) {
    && (forall a :: pool.start <= a < pool.start + pool.size && (a - pool.start) % 8 == 0 ==> a in links)
    && (forall i :: 0 <= i < |areas| && areas[i].len >= BUDDY_MAX_SIZE ==> Hosts(areas, i, pool, links, frames))
  }

  // Buddy b is the one of area i, as buddy_area_init left it.
  ghost predicate Started(b: BuddyArea, areas: seq<MemArea>, i: nat, mem: Memory, phys: PhysMem)
    requires i < |areas|
    reads b, b.tree, mem, phys
  {
    StartedIn(mem.link, b, areas, i, mem, phys)
  }

  ghost predicate StartedIn(link: Store, b: BuddyArea, areas: seq<MemArea>, i: nat, mem: Memory, phys: PhysMem)
    requires i < |areas|
    reads b, b.tree, phys
  {
    && b.mem == mem && b.phys == phys && b.l == Layout(Place(areas, i), b.l.freelist, areas, i)
    && b.l.Valid() && Good(b.l, Image(b.tree[..], link, phys.pages), Fresh(BUDDY_LOG))
    && b.Abstract() == Fresh(BUDDY_LOG)
  }

  // Its list heads lie in the pool, below `top`.
  ghost predicate HeadsWithin(l: Layout, pool: ReservedPool, top: nat)
    requires l.g.Valid()
  {
    pool.start <= l.freelist && l.freelist + ListBytes(l.g) <= top <= pool.start + pool.size
  }

  // Two buddies with nothing in common.
  ghost predicate Distinct(b: BuddyArea, b': BuddyArea) {
    b != b' && b.tree != b'.tree && b.l.Valid() && b'.l.Valid() && Separate(b.l, b'.l) && Separate(b'.l, b.l)
  }

  // Buddies of two areas, with list heads in different parts of the pool, have
  // nothing in common.
  lemma LayoutsApart(areas: seq<MemArea>, pool: ReservedPool, links: set<nat>, frames: set<Frame>, l: Layout, l': Layout)
    requires l.area < l'.area < |areas| && l.areas == areas == l'.areas
    requires l.Valid() && l'.Valid() && l.g == Place(areas, l.area) && l'.g == Place(areas, l'.area)
    requires Hosts(areas, l.area, pool, links, frames) && Hosts(areas, l'.area, pool, links, frames)
    requires HeadsWithin(l, pool, l'.freelist) && HeadsWithin(l', pool, pool.start + pool.size)
    ensures Separate(l, l') && Separate(l', l)
  {
    forall a: nat
      ensures Foreign(l, a) || Foreign(l', a)
    {
      HeadBounds(l, a);
      HeadBounds(l', a);
      assert areas[l.area].addr + areas[l.area].len < l'.g.base;
    }
  }

  lemma HeadBounds(l: Layout, a: nat)
    requires l.g.Valid()
    ensures l.IsHead(a) ==> l.freelist <= a < l.freelist + ListBytes(l.g)
  {
  }

  lemma NoneLiveYet(order: nat)
    ensures LiveSet(Initial(order).t) == {}
  {
  }

  // Nothing is written but the list heads and the first block of this area.
  ghost predicate WritesOwn(l: Layout, link: Store, link': Store)
    requires l.g.Valid()
  {
    link'.Keys == link.Keys && forall a :: a in link && a != l.g.base && !l.IsHead(a) ==> link'[a] == link[a]
  }

  // What starting one buddy writes leaves the buddies of other areas as they were.
  lemma StaysStarted(l: Layout, link: Store, mem: Memory, phys: PhysMem, other: BuddyArea, areas: seq<MemArea>)
    requires l.Valid() && other.l.area < |areas| && StartedIn(link, other, areas, other.l.area, mem, phys)
    requires Separate(l, other.l) && WritesOwn(l, link, mem.link)
    ensures Started(other, areas, other.l.area, mem, phys)
  {
    var m, m' := Image(other.tree[..], link, phys.pages), Image(other.tree[..], mem.link, phys.pages);
    GoodElsewhere(l, m, m', {}, other.l, other.tree[..], Fresh(BUDDY_LOG));
  }

  // One buddy per listed area, each as buddy_area_init left it, no two with
  // anything in common.
  ghost predicate Made(areas: seq<MemArea>, at: seq<nat>, buddies: seq<BuddyArea>, link: Store,
                       pool: ReservedPool, top: nat, mem: Memory, phys: PhysMem)
    reads buddies, set b | b in buddies :: b.tree, phys
  {
    && |buddies| == |at|
    && (forall k :: 0 <= k < |at| ==> MadeAt(areas, at[k], buddies[k], link, pool, top, mem, phys))
    && (forall j, k :: 0 <= j < k < |buddies| ==> Distinct(buddies[j], buddies[k]))
  }

  ghost predicate MadeAt(areas: seq<MemArea>, i: nat, b: BuddyArea, link: Store,
                         pool: ReservedPool, top: nat, mem: Memory, phys: PhysMem)
    reads b, b.tree, phys
  {
    i < |areas| && StartedIn(link, b, areas, i, mem, phys) && HeadsWithin(b.l, pool, top) && b.tree != pool.page
  }

  // Starting buddy b leaves another one as it was.
  lemma OtherMade(areas: seq<MemArea>, i: nat, b: BuddyArea, j: nat, other: BuddyArea, link: Store,
                  pool: ReservedPool, mem: Memory, phys: PhysMem)
    requires MadeAt(areas, i, b, mem.link, pool, pool.base, mem, phys) && b != other && b.tree != other.tree
    requires j < i && MadeAt(areas, j, other, link, pool, b.l.freelist, mem, phys) && pool.Valid()
    requires Hosts(areas, i, pool, link.Keys, phys.pages.Keys) && Hosts(areas, j, pool, link.Keys, phys.pages.Keys)
    requires b.l.g.Valid() && WritesOwn(b.l, link, mem.link)
    ensures MadeAt(areas, j, other, mem.link, pool, pool.base, mem, phys) && Distinct(other, b)
  {
    LayoutsApart(areas, pool, link.Keys, phys.pages.Keys, other.l, b.l);
    StaysStarted(b.l, link, mem, phys, other, areas);
  }

  lemma AllMade(areas: seq<MemArea>, at: seq<nat>, buddies: seq<BuddyArea>, i: nat, b: BuddyArea, link: Store,
                pool: ReservedPool, mem: Memory, phys: PhysMem)
    requires MadeAt(areas, i, b, mem.link, pool, pool.base, mem, phys) && pool.Valid()
    requires Made(areas, at, buddies, link, pool, b.l.freelist, mem, phys)
    requires forall k :: 0 <= k < |at| ==>
               at[k] < i && areas[at[k]].len >= BUDDY_MAX_SIZE && buddies[k] != b && buddies[k].tree != b.tree
    requires areas[i].len >= BUDDY_MAX_SIZE && Ready(areas, pool, link.Keys, phys.pages.Keys)
    requires b.l.g.Valid() && WritesOwn(b.l, link, mem.link)
    ensures Made(areas, at + [i], buddies + [b], mem.link, pool, pool.base, mem, phys)
  {
    forall k | 0 <= k < |at|
      ensures MadeAt(areas, at[k], buddies[k], mem.link, pool, pool.base, mem, phys) && Distinct(buddies[k], b)
    {
      OtherMade(areas, i, b, at[k], buddies[k], link, pool, mem, phys);
    }
    Appended(areas, at, buddies, i, b, mem.link, pool, pool.base, mem, phys);
  }

  // What Made says of a list with one more buddy.
  lemma Appended(areas: seq<MemArea>, at: seq<nat>, buddies: seq<BuddyArea>, i: nat, b: BuddyArea, link: Store,
                 pool: ReservedPool, top: nat, mem: Memory, phys: PhysMem)
    requires |buddies| == |at| && MadeAt(areas, i, b, link, pool, top, mem, phys)
    requires forall k :: 0 <= k < |at| ==> MadeAt(areas, at[k], buddies[k], link, pool, top, mem, phys)
    requires forall k :: 0 <= k < |at| ==> Distinct(buddies[k], b)
    requires forall j, k :: 0 <= j < k < |at| ==> Distinct(buddies[j], buddies[k])
    ensures Made(areas, at + [i], buddies + [b], link, pool, top, mem, phys)
  {
    var at', buddies' := at + [i], buddies + [b];
    forall k | 0 <= k < |at'|
      ensures MadeAt(areas, at'[k], buddies'[k], link, pool, top, mem, phys)
    {
      if k < |at| {
        assert at'[k] == at[k] && buddies'[k] == buddies[k];
      }
    }
    forall j, k | 0 <= j < k < |buddies'|
      ensures Distinct(buddies'[j], buddies'[k])
    {
      if k < |buddies| {
        assert buddies'[j] == buddies[j] && buddies'[k] == buddies[k];
      } else {
        assert buddies'[j] == buddies[j] && buddies'[k] == b;
      }
    }
  }

  lemma HeadsBelow(areas: seq<MemArea>, at: seq<nat>, buddies: seq<BuddyArea>, link: Store,
                   pool: ReservedPool, top: nat, top': nat, mem: Memory, phys: PhysMem)
    requires Made(areas, at, buddies, link, pool, top, mem, phys) && top <= top' <= pool.start + pool.size
    ensures Made(areas, at, buddies, link, pool, top', mem, phys)
  {
    forall k | 0 <= k < |at|
      ensures MadeAt(areas, at[k], buddies[k], link, pool, top', mem, phys)
    {
      assert MadeAt(areas, at[k], buddies[k], link, pool, top, mem, phys);
    }
  }

  // A buddy for an area that is long enough, besides those there are.
  method StartNext(areas: seq<MemArea>, i: nat, pool: ReservedPool, mem: Memory, phys: PhysMem,
              ghost at: seq<nat>, ghost buddies: seq<BuddyArea>)
    returns (r: Option<BuddyArea>)
    requires i < |areas| && areas[i].len >= BUDDY_MAX_SIZE && pool.Valid()
    requires Ready(areas, pool, mem.link.Keys, phys.pages.Keys)
    requires forall k :: 0 <= k < |at| ==> at[k] < i && areas[at[k]].len >= BUDDY_MAX_SIZE
    requires AllOwn(areas) ==> Made(areas, at, buddies, mem.link, pool, pool.base, mem, phys)
    modifies pool, pool.page, mem
    ensures pool.Valid() && mem.link.Keys == old(mem.link).Keys
    ensures r.None? <==> BUDDY_BYTES > old(pool.available)
    ensures r.Some? ==> pool.available == old(pool.available) - BUDDY_BYTES && Placed(areas, i, r.value)
    ensures r.Some? && AllOwn(areas) ==>
              Made(areas, at + [i], buddies + [r.value], mem.link, pool, pool.base, mem, phys)
  {
    ghost var link, top := mem.link, pool.base;
    r := StartOne(areas, i, pool, mem, phys);
    if r.Some? && AllOwn(areas) {
      HeadsBelow(areas, at, buddies, link, pool, top, r.value.l.freelist, mem, phys);
      AllMade(areas, at, buddies, i, r.value, link, pool, mem, phys);
    }
  }

  // kernel/kernel/page.c:95-96
  method StartOne(areas: seq<MemArea>, i: nat, pool: ReservedPool, mem: Memory, phys: PhysMem) returns (r: Option<BuddyArea>)
    requires i < |areas| && areas[i].len >= BUDDY_MAX_SIZE && pool.Valid()
    requires Ready(areas, pool, mem.link.Keys, phys.pages.Keys)
    modifies pool, pool.page, mem
    ensures pool.Valid() && mem.link.Keys == old(mem.link).Keys
    ensures r.None? <==> BUDDY_BYTES > old(pool.available)
    ensures r.Some? ==>
              && fresh(r.value) && fresh(r.value.tree) && pool.available == old(pool.available) - BUDDY_BYTES
              && Placed(areas, i, r.value)
              && (OwnsBuddy(areas, i) ==> MadeAt(areas, i, r.value, mem.link, pool, pool.base, mem, phys))
              && r.value.l.g.Valid() && old(pool.base) <= r.value.l.freelist
              && WritesOwn(r.value.l, old(mem.link), mem.link)
  {
    var g := Place(areas, i);
    PlaceBytes(g);
    assert Hosts(areas, i, pool, mem.link.Keys, phys.pages.Keys);
    var b := BuddyAreaInit(g, pool, areas, i, mem, phys);
    if b == null {
      return None;
    }
    r := Some(b);
  }

  // One buddy per listed area, with all of its memory free.
  ghost predicate OnePerArea(areas: seq<MemArea>, at: seq<nat>, buddies: seq<BuddyArea>)
    reads buddies
  {
    |buddies| == |at| && forall k :: 0 <= k < |at| ==> Placed(areas, at[k], buddies[k])
  }

  ghost predicate Placed(areas: seq<MemArea>, i: nat, b: BuddyArea)
    reads b
  {
    && i < |areas| && b.l.area == i && b.l.areas == areas && b.Abstract() == Fresh(BUDDY_LOG)
    && b.l.g.base == areas[i].base && b.l.g.logMax == BUDDY_LOG
  }

  // A valid page allocator has each of its buddies in memory of its own.
  lemma ValidOwns(areas: seq<MemArea>, at: seq<nat>, r: PageAllocator)
    requires r.areas == areas && r.Valid() && Listed(areas, |areas|, at) && OnePerArea(areas, at, r.buddies)
    ensures AllOwn(areas)
  {
    ListedIs(areas, |areas|, at);
    forall i | 0 <= i < |areas| && areas[i].len >= BUDDY_MAX_SIZE
      ensures OwnsBuddy(areas, i)
    {
      var k := IndexOf(at, i);
      assert Placed(areas, at[k], r.buddies[k]) && r.buddies[k].l.areas == areas && r.buddies[k].l.Valid();
    }
  }

  lemma MadeValid(areas: seq<MemArea>, at: seq<nat>, r: PageAllocator, pool: ReservedPool)
    requires r.areas == areas && Made(areas, at, r.buddies, r.mem.link, pool, pool.base, r.mem, r.phys)
    ensures r.Valid()
  {
    NoneLiveYet(BUDDY_LOG - PGSHIFT);
    forall i | 0 <= i < |r.buddies|
      ensures r.buddies[i].mem == r.mem && r.buddies[i].phys == r.phys && r.buddies[i].l.areas == areas && r.buddies[i].l.Valid()
      ensures r.buddies[i].Valid() && Owned(r.buddies[i].l, r.phys.pages, LiveSet(r.buddies[i].s.t), i + 1)
    {
      assert MadeAt(areas, at[i], r.buddies[i], r.mem.link, pool, pool.base, r.mem, r.phys);
    }
    forall i, j | 0 <= i < |r.buddies| && 0 <= j < |r.buddies| && i != j
      ensures r.buddies[i] != r.buddies[j] && r.buddies[i].tree != r.buddies[j].tree
      ensures Separate(r.buddies[i].l, r.buddies[j].l)
    {
      assert if i < j then Distinct(r.buddies[i], r.buddies[j]) else Distinct(r.buddies[j], r.buddies[i]);
    }
  }

  // The loop has started a buddy in every long enough area before i, out of a pool
  // that had `total` bytes.
  ghost predicate UpTo(areas: seq<MemArea>, i: nat, at: seq<nat>, buddies: seq<BuddyArea>, total: nat,
                       pool: ReservedPool, mem: Memory, phys: PhysMem)
    reads buddies, set b | b in buddies :: b.tree, pool, mem, phys
  {
    && Listed(areas, i, at) && pool.available + PoolBytes(|at|) == total
    && pool.Valid() && Ready(areas, pool, mem.link.Keys, phys.pages.Keys) && OnePerArea(areas, at, buddies)
    && (AllOwn(areas) ==> Made(areas, at, buddies, mem.link, pool, pool.base, mem, phys))
  }

  // One turn of the loop; None is the panic.
  method Turn(areas: seq<MemArea>, i: nat, pool: ReservedPool, mem: Memory, phys: PhysMem,
              buddies: seq<BuddyArea>, ghost at: seq<nat>, ghost total: nat)
    returns (r: Option<seq<BuddyArea>>, ghost at': seq<nat>)
    requires i < |areas| && UpTo(areas, i, at, buddies, total, pool, mem, phys)
    modifies pool, pool.page, mem
    ensures pool.Valid()
    ensures r.None? ==> Listed(areas, i + 1, at') && PoolBytes(|at'|) > total
    ensures r.Some? ==> UpTo(areas, i + 1, at', r.value, total, pool, mem, phys)
  {
    ListedNext(areas, i, at);
    if areas[i].len < BUDDY_MAX_SIZE {
      return Some(buddies), at;
    }
    at' := at + [i];
    var b := StartNext(areas, i, pool, mem, phys, at, buddies);
    r := if b.None? then None else Some(buddies + [b.value]);
  }

  // The loop of bootstrap_page_allocator, up to area n: all of them, or the one
  // it panics at.
  method StartAll(areas: seq<MemArea>, pool: ReservedPool, mem: Memory, phys: PhysMem)
    returns (r: Option<seq<BuddyArea>>, ghost n: nat, ghost at: seq<nat>)
    requires UpTo(areas, 0, [], [], pool.available, pool, mem, phys)
    modifies pool, pool.page, mem
    ensures pool.Valid() && Listed(areas, n, at)
    ensures r.None? ==> PoolBytes(|at|) > old(pool.available)
    ensures r.Some? ==> n == |areas| && UpTo(areas, n, at, r.value, old(pool.available), pool, mem, phys)
  {
    var buddies: seq<BuddyArea> := [];
    ghost var total := pool.available;
    var i: nat := 0;
    at := [];
    while i < |areas|
      invariant UpTo(areas, i, at, buddies, total, pool, mem, phys)
    {
      r, at := Turn(areas, i, pool, mem, phys, buddies, at, total);
      i := i + 1;
      if r.None? {
        return None, i, at;
      }
      buddies := r.value;
    }
    return Some(buddies), i, at;
  }

  // bootstrap_page_allocator; null is the panic. Every area that is long enough
  // ends with a fresh buddy. Together they make a valid page allocator exactly when
  // every one of these areas owns the memory its buddy is put in.
  method BootstrapPageAllocator(areas: seq<MemArea>, pool: ReservedPool, mem: Memory, phys: PhysMem) returns (r: PageAllocator?)
    requires pool.Valid() && Ready(areas, pool, mem.link.Keys, phys.pages.Keys)
    modifies pool, pool.page, mem
    ensures pool.Valid()
    ensures r == null <==> PoolBytes(|LargeAreas(areas)|) > old(pool.available)
    ensures r != null ==>
              && fresh(r) && r.areas == areas && r.mem == mem && r.phys == phys
              && OnePerArea(areas, LargeAreas(areas), r.buddies)
              && (r.Valid() <==> AllOwn(areas))
  {
    ghost var all := LargeAreas(areas);
    ListedNone(areas);
    var buddies, n, at := StartAll(areas, pool, mem, phys);
    ListedGrows(areas, n, at, |areas|, all);
    if buddies.None? {
      return null;
    }
    ListedSame(areas, n, at, all);
    r := new PageAllocator(areas, buddies.value, mem, phys);
    if AllOwn(areas) {
      MadeValid(areas, all, r, pool);
    }
    if r.Valid() {
      ValidOwns(areas, all, r);
    }
  }
}
