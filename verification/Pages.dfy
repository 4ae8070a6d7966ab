// The page layer above the buddies (kernel/kernel/page.c): the descriptor maps,
// which areas can host a buddy, and page_alloc and page_free over all of them.

module Pages {
  import opened Words
  import opened Nodes
  import opened Blocks
  import opened Ledger
  import opened Links
  import opened Frames
  import opened Image
  import opened Steps
  import opened Areas
  import opened Untouched
  import opened Reserved
  import opened Buddy

  const BUDDY_MAX_SIZE: nat := 0x8_0000

  // page_alloc passes a number of pages where buddy_alloc takes bytes: the block
  // it gets covers the pages asked for exactly when at most one is.
  lemma PagesAsBytes(npages: nat)
    ensures BlockSize(npages) >= PGSIZE * npages <==> npages <= 1
  {
    PageSize();
    if npages <= 1 {
      Pow2Monotone(PGSHIFT, PGSHIFT + Doublings(npages));
    } else {
      Tight(npages);
    }
  }

  lemma Tight(requested: nat)
    ensures BlockSize(requested) > PGSIZE ==> BlockSize(requested) < 2 * requested
  {
    TightBucket(PGSHIFT, requested, 0);
  }

  // ---- descriptor maps ----

  // The area has a map of one 24-byte descriptor for each page not in use before:
  // it starts with the area, counts as used, and the area's base is the next
  // multiple of 8 behind it.
  predicate HasMap(a: MemArea, usedBefore: nat) {
    && usedBefore <= a.len && a.mapSize == (a.len - usedBefore) / 4096 && a.used == usedBefore + 24 * a.mapSize
    && a.base % 8 == 0 && a.addr + 24 * a.mapSize <= a.base < a.addr + 24 * a.mapSize + 8
  }

  lemma PreparedIs(a: MemArea)
    requires Sane(a) && a.used <= a.len
    ensures HasMap(Prepared(a), a.used) && Prepared(a).addr == a.addr && Prepared(a).len == a.len
  {
    var npages := (a.len - a.used) / 4096;
    MapSize(a.len, a.used, npages);
    SmallSum(a.addr + 24 * npages);
    SmallSum(a.used + 24 * npages);
    AlignTo8(a.addr + 24 * npages);
  }

  // init_mem_map for one area, in 64-bit arithmetic.
  function Prepared(a: MemArea): MemArea {
    var npages := Sub64(a.len, a.used) / 4096;
    var size := npages * 24 % 0x1_0000_0000_0000_0000;
    a.(mapSize := npages, base := AlignTo((a.addr + size) % 0x1_0000_0000_0000_0000, 8),
       used := (a.used + size) % 0x1_0000_0000_0000_0000)
  }

  // init_mem_map; false is the panic. It panics at the first area of which more is
  // in use than it has, for then the subtraction wraps; the areas before it are
  // prepared.
  method InitMemMap(areas: array<MemArea>) returns (ok: bool)
    requires forall i :: 0 <= i < areas.Length ==> Sane(areas[i])
    modifies areas
    ensures ok <==> forall i :: 0 <= i < areas.Length ==> old(areas[i]).used <= old(areas[i]).len
    ensures forall i :: 0 <= i < areas.Length ==>
              if forall j :: 0 <= j <= i ==> old(areas[j]).used <= old(areas[j]).len then
                && areas[i] == Prepared(old(areas[i])) && HasMap(areas[i], old(areas[i]).used)
                && areas[i].addr == old(areas[i]).addr && areas[i].len == old(areas[i]).len
              else
                areas[i] == old(areas[i])
  {
    var i: nat := 0;
    while i < areas.Length
      invariant i <= areas.Length
      invariant forall k :: 0 <= k < i ==>
                  && old(areas[k]).used <= old(areas[k]).len && areas[k] == Prepared(old(areas[k]))
                  && HasMap(areas[k], old(areas[k]).used)
                  && areas[k].addr == old(areas[k]).addr && areas[k].len == old(areas[k]).len
      invariant forall k :: i <= k < areas.Length ==> areas[k] == old(areas[k])
    {
      var a := areas[i];
      var npages := Sub64(a.len, a.used) / 4096;
      var allocSz := npages * 24 % 0x1_0000_0000_0000_0000;
      PanicExact(a.len, a.used);
      if a.len < allocSz {
        return false;
      }
      PreparedIs(a);
      areas[i] := areas[i].(mapSize := npages);
      areas[i] := areas[i].(base := (a.addr + allocSz) % 0x1_0000_0000_0000_0000,
                            used := (a.used + allocSz) % 0x1_0000_0000_0000_0000);
      areas[i] := areas[i].(base := AlignTo(areas[i].base, 8));
      i := i + 1;
    }
    ok := true;
  }

  // Sizes and addresses no machine exceeds.
  predicate Sane(a: MemArea) {
    a.len < 0x80_0000_0000_0000 && a.used <= 0x8000_0000_0000_0000 && a.addr + a.len < WORD - 8
  }

  // The panic at kernel/kernel/page.c:109 is reached exactly when the subtraction
  // above it wraps.
  lemma PanicExact(len: nat, used: nat)
    requires len < 0x80_0000_0000_0000 && used <= 0x8000_0000_0000_0000
    ensures len < Sub64(len, used) / 4096 * 24 % 0x1_0000_0000_0000_0000 <==> used > len
    ensures used <= len ==>
              Sub64(len, used) == len - used
              && Sub64(len, used) / 4096 * 24 % 0x1_0000_0000_0000_0000 == (len - used) / 4096 * 24
  {
    if used <= len {
      NoWrap(len - used);
    } else {
      NoWrap(0x1_0000_0000_0000_0000 + len - used);
      assert Sub64(len, used) == 0x1_0000_0000_0000_0000 + len - used;
    }
  }

  // The size of a map does not wrap, and is about a 170th of what it maps.
  lemma NoWrap(bytes: nat)
    requires bytes < 0x1_0000_0000_0000_0000
    ensures bytes / 4096 * 24 % 0x1_0000_0000_0000_0000 == bytes / 4096 * 24
    ensures bytes / 4096 * 24 * 4096 <= 24 * bytes < (bytes / 4096 + 1) * 24 * 4096
  {
    var q := bytes / 4096;
    assert 4096 * q <= bytes < 4096 * (q + 1);
  }

  // A region of one page under a kernel of two.
  lemma PanicAt()
    ensures Sub64(0x1000, 0x2000) / 4096 * 24 % 0x1_0000_0000_0000_0000 > 0x1000
  {
    PanicExact(0x1000, 0x2000);
  }

  // PGROUNDUP to pages, in 64-bit arithmetic.
  function PageUp(n: nat): nat {
    (n + 4095) % 0x1_0000_0000_0000_0000 / 4096 * 4096
  }

  // It rounds up to the next page, and to 0 from the last page of the words on.
  lemma PageUpIs(n: nat)
    requires n < WORD
    ensures PageUp(n) % 4096 == 0
    ensures if n <= WORD - 4096 then n <= PageUp(n) < n + 4096 else PageUp(n) == 0
    ensures PageUp(n) == 0 <==> n == 0 || n > WORD - 4096
  {
  }

  // A whole page fits below `len` from the next page boundary on exactly if it does
  // from the one below `len`.
  lemma RoundsWithin(n: nat, len: nat)
    requires n <= WORD - 4096
    ensures PageUp(n) <= len <==> n <= len - len % 4096
  {
    PageUpIs(n);
  }

  // What page_init does to an area at the beginning of memory: it starts behind
  // the kernel, which counts as used. Its length stays.
  function Shifted(a: MemArea, poff: nat): MemArea {
    if PageUp(a.addr) == 0 then a.(addr := PageUp(poff), used := PageUp(poff)) else a
  }

  // The area begins at 0, or so near the end of the words that its address rounds
  // up to 0.
  predicate AtStart(a: MemArea) {
    a.addr == 0 || a.addr > WORD - 4096
  }

  // It was moved up to the page behind poff if it began at the start of memory, and
  // has its map; where the rounding of poff wraps, that page is 0.
  predicate SetUp(a: MemArea, a': MemArea, poff: nat) {
    && a'.len == a.len
    && if AtStart(a) then
         && a'.addr % 4096 == 0 && HasMap(a', a'.addr)
         && if poff <= WORD - 4096 then poff <= a'.addr < poff + 4096 else a'.addr == 0
       else
         a'.addr == a.addr && HasMap(a', 0)
  }

  // What page_init needs of an area and the kernel's end.
  predicate Bootable(a: MemArea, poff: nat) {
    a.used == 0 && Sane(a) && (AtStart(a) ==> poff <= 0x8000_0000_0000_0000 || poff > WORD - 4096)
  }

  lemma ShiftedSane(a: MemArea, poff: nat)
    requires Bootable(a, poff) && poff < WORD
    ensures Sane(Shifted(a, poff))
    ensures Shifted(a, poff).used <= a.len <==>
            (AtStart(a) && poff <= WORD - 4096 ==> poff <= a.len - a.len % 4096)
  {
    PageUpIs(a.addr);
    PageUpIs(poff);
    if poff <= WORD - 4096 {
      RoundsWithin(poff, a.len);
      if AtStart(a) {
        HalfWords(PageUp(poff), poff);
      }
    }
  }

  lemma HalfWords(up: nat, poff: nat)
    requires up % 4096 == 0 && poff <= up < poff + 4096 && poff <= 0x8000_0000_0000_0000
    ensures up <= 0x8000_0000_0000_0000
  {
  }

  lemma SetUpIs(a: MemArea, a': MemArea, poff: nat)
    requires Bootable(a, poff) && poff < WORD && Sane(Shifted(a, poff))
    requires a' == Prepared(Shifted(a, poff)) && Shifted(a, poff).used <= a.len
    ensures SetUp(a, a', poff)
  {
    PageUpIs(a.addr);
    PageUpIs(poff);
    PreparedIs(Shifted(a, poff));
  }

  // page_init up to the maps, on areas of which nothing is in use yet. It panics
  // exactly when a region at the beginning of memory has no whole page left for
  // the kernel to end in.
  method PageInit(areas: array<MemArea>, poff: nat) returns (ok: bool)
    requires poff < WORD && forall i :: 0 <= i < areas.Length ==> Bootable(areas[i], poff)
    modifies areas
    ensures ok <==> forall i :: 0 <= i < areas.Length && AtStart(old(areas[i])) && poff <= WORD - 4096 ==>
                      poff <= old(areas[i]).len - old(areas[i]).len % 4096
    ensures ok ==> forall i :: 0 <= i < areas.Length ==> SetUp(old(areas[i]), areas[i], poff)
  {
    ghost var was := areas[..];
    var i: nat := 0;
    while i < areas.Length
      invariant i <= areas.Length
      invariant forall k :: 0 <= k < i ==> areas[k] == Shifted(was[k], poff)
      invariant forall k :: i <= k < areas.Length ==> areas[k] == was[k]
    {
      var minaddr := PageUp(areas[i].addr);
      if minaddr == 0 {
        areas[i] := areas[i].(addr := PageUp(poff));
        areas[i] := areas[i].(used := PageUp(poff));
      }
      i := i + 1;
    }
    ghost var moved := areas[..];
    forall k | 0 <= k < areas.Length
      ensures Sane(areas[k])
      ensures areas[k].used <= areas[k].len <==>
              (AtStart(was[k]) && poff <= WORD - 4096 ==> poff <= was[k].len - was[k].len % 4096)
    {
      ShiftedSane(was[k], poff);
    }
    ok := InitMemMap(areas);
    if ok {
      forall k | 0 <= k < areas.Length
        ensures SetUp(was[k], areas[k], poff)
      {
        assert areas[k] == Prepared(moved[k]) && moved[k].used <= moved[k].len;
        ShiftedSane(was[k], poff);
        SetUpIs(was[k], areas[k], poff);
      }
    }
  }

  // The area page_init moved ends that much behind the region it was made from, so
  // addresses of a later region get descriptors of the first area: exactly those
  // up to its new end.
  lemma ShiftedCaptures(areas: seq<MemArea>, a: MemArea, poff: nat, address: nat)
    requires areas != [] && PageUp(a.addr) == 0 && areas[0].addr == Shifted(a, poff).addr && areas[0].len == a.len
    requires address > 0
    ensures FrameOf(areas, address).Some? && FrameOf(areas, address).value.area == 0 <==> address <= PageUp(poff) + a.len
  {
  }

  // The map of an area fits what it has left.
  lemma MapFits(a: MemArea)
    requires a.used <= a.len
    ensures (a.len - a.used) / 4096 * 24 <= a.len - a.used
  {
  }

  // bootstrap_page_allocator puts a buddy of 512 KiB behind the map of every area
  // of at least 512 KiB. The area owns that buddy, and has a descriptor for each
  // of its pages, exactly when it has this many pages; 128 of them, the least the
  // source accepts, are too few.
  lemma BootstrapOwns(areas: seq<MemArea>, i: nat, a: MemArea, npages: nat, offset: nat)
    requires i < |areas| && a.used <= a.len && a.addr + a.len < WORD - 8
    requires areas[i] == Prepared(a) && a.addr % 8 == 0
    requires npages == (a.len - a.used) / 4096 && offset == a.addr % 4096
    requires forall j :: 0 <= j < i ==> areas[j].addr + areas[j].len <= a.addr
    ensures Owns(areas, i, areas[i].base, BUDDY_MAX_SIZE) <==> offset + BUDDY_MAX_SIZE <= 4072 * npages
  {
    MapFits(a);
    BaseOf(a, npages);
    LastPage(a.addr, npages, offset);
    Ends(npages, a.len - a.used);
  }

  lemma BaseOf(a: MemArea, npages: nat)
    requires a.used <= a.len && a.addr + a.len < WORD - 8 && a.addr % 8 == 0 && npages == (a.len - a.used) / 4096
    ensures Prepared(a).base == a.addr + 24 * npages && Prepared(a).mapSize == npages
  {
    MapSize(a.len, a.used, npages);
    SmallSum(a.addr + 24 * npages);
    MapAligned(a.addr, npages);
    AlreadyAligned(a.addr + 24 * npages);
  }

  lemma MapSize(len: nat, used: nat, npages: nat)
    requires used <= len < WORD && npages == (len - used) / 4096
    ensures Sub64(len, used) / 4096 == npages
    ensures npages * 24 % 0x1_0000_0000_0000_0000 == 24 * npages <= len - used
  {
    NoWrap(len - used);
  }

  lemma SmallSum(n: nat)
    requires n < WORD
    ensures n % 0x1_0000_0000_0000_0000 == n
  {
  }

  lemma MapAligned(addr: nat, npages: nat)
    requires addr % 8 == 0
    ensures (addr + 24 * npages) % 8 == 0
  {
    DivUnique(addr + 24 * npages, 8, addr / 8 + 3 * npages, 0);
  }

  lemma AlreadyAligned(n: nat)
    requires n < WORD && n % 8 == 0
    ensures AlignTo(n, 8) == n
  {
  }

  // The last page of the buddy has a descriptor, counted from the area's first.
  lemma LastPage(addr: nat, npages: nat, offset: nat)
    requires offset == addr % 4096
    ensures Pfn(addr + 24 * npages + 0x8_0000 - 1) - Pfn(addr) < npages <==> offset + 0x8_0000 <= 4072 * npages
  {
    var q := addr / 4096;
    assert addr == 4096 * q + offset;
  }

  lemma Ends(npages: nat, bytes: nat)
    requires npages == bytes / 4096
    ensures 4096 * npages <= bytes
  {
  }

  // In pages: a page-aligned area needs 129 of them, where the source accepts 128.
  lemma BootstrapPages(areas: seq<MemArea>, i: nat, a: MemArea, npages: nat)
    requires i < |areas| && a.used <= a.len && a.addr + a.len < WORD - 8
    requires areas[i] == Prepared(a) && a.addr % 4096 == 0 && npages == (a.len - a.used) / 4096
    requires forall j :: 0 <= j < i ==> areas[j].addr + areas[j].len <= a.addr
    ensures Owns(areas, i, areas[i].base, BUDDY_MAX_SIZE) <==> npages >= 129
  {
    PageAligned(a.addr);
    BootstrapOwns(areas, i, a, npages, 0);
    Threshold(npages);
  }

  lemma PageAligned(n: nat)
    requires n % 4096 == 0
    ensures n % 8 == 0
  {
    DivUnique(n, 8, 512 * (n / 4096), 0);
  }

  lemma Threshold(npages: nat)
    ensures BUDDY_MAX_SIZE <= 4072 * npages <==> npages >= 129
  {
  }

  // ---- several areas over one memory ----

  // The footprints of two buddy areas have nothing in common.
  ghost predicate Separate(l: Layout, l': Layout)
    requires l.Valid() && l'.Valid()
  {
    l.area != l'.area && forall a: nat :: Foreign(l, a) || Foreign(l', a)
  }

  // What one area does leaves another area as it was.
  lemma GoodElsewhere(l: Layout, m: Image, m': Image, keep: set<nat>, l2: Layout, tree: seq<bv8>, a: Area)
    requires l.Valid() && l2.Valid() && Separate(l, l2) && Keeps(l, m, m', keep)
    requires Good(l2, Image(tree, m.link, m.pages), a)
    ensures Good(l2, Image(tree, m'.link, m'.pages), a)
  {
    var old', new' := Image(tree, m.link, m.pages), Image(tree, m'.link, m'.pages);
    forall k | 0 <= k <= l2.Order()
      ensures l2.Head(k) in m.link && m'.link[l2.Head(k)] == m.link[l2.Head(k)]
    {
      assert l2.IsHead(l2.Head(k));
      assert !Foreign(l2, l2.Head(k));
    }
    forall n | 0 <= n < l2.Nodes()
      ensures l2.Addr(n) in m.link && m'.link[l2.Addr(n)] == m.link[l2.Addr(n)]
    {
      AddrInArea(l2, n);
      assert !Foreign(l2, l2.Addr(n));
    }
    forall k | 0 <= k < |a.s.rings|
      ensures Ring(m'.link, l2.Head(k), l2.Addrs(a.s.rings[k]))
    {
      RingFrame(m.link, m'.link, l2.Head(k), l2.Addrs(a.s.rings[k]));
    }
    forall n | n in LiveSet(a.s.t) && n < l2.Nodes()
      ensures SamePage(m.pages, m'.pages, FrameOf(l2.areas, l2.Addr(n)))
    {
      AddrInArea(l2, n);
    }
  }

  // The descriptors of an area's live blocks name it as their buddy.
  ghost predicate Owned(l: Layout, pages: map<Frame, Page>, live: set<nat>, id: nat)
    requires PGSHIFT <= l.g.logMax
  {
    forall n :: n in live && n < l.Nodes() ==>
      var f := FrameOf(l.areas, l.Addr(n));
      f.Some? && f.value in pages && pages[f.value].buddy == id
  }

  lemma OwnedElsewhere(l: Layout, m: Image, m': Image, keep: set<nat>, l2: Layout, live: set<nat>, id: nat)
    requires l.Valid() && l2.Valid() && l.area != l2.area && Keeps(l, m, m', keep)
    requires Owned(l2, m.pages, live, id)
    ensures Owned(l2, m'.pages, live, id)
  {
    forall n | n in live && n < l2.Nodes()
      ensures SamePage(m.pages, m'.pages, FrameOf(l2.areas, l2.Addr(n)))
    {
      AddrInArea(l2, n);
    }
  }

  lemma ElsewhereToo(l: Layout, m: Image, m': Image, keep: set<nat>, l2: Layout, tree: seq<bv8>, a: Area, id: nat)
    requires l.Valid() && l2.Valid() && Separate(l, l2) && Keeps(l, m, m', keep)
    requires Good(l2, Image(tree, m.link, m.pages), a) && Owned(l2, m.pages, LiveSet(a.s.t), id)
    ensures Good(l2, Image(tree, m'.link, m'.pages), a) && Owned(l2, m'.pages, LiveSet(a.s.t), id)
  {
    GoodElsewhere(l, m, m', keep, l2, tree, a);
    OwnedElsewhere(l, m, m', keep, l2, LiveSet(a.s.t), id);
  }

  // With these links and descriptors, buddy b is valid and owns its blocks.
  ghost predicate WellIn(link: Store, pages: map<Frame, Page>, b: BuddyArea, id: nat)
    reads b, b.tree
  {
    && b.l.Valid()
    && Good(b.l, Image(b.tree[..], link, pages), b.Abstract())
    && Owned(b.l, pages, LiveSet(b.s.t), id)
  }

  // What one buddy does to the shared memory leaves another one as it was.
  lemma OtherStays(l: Layout, m: Image, m': Image, keep: set<nat>, other: BuddyArea, id: nat)
    requires l.Valid() && other.l.Valid() && Separate(l, other.l) && Keeps(l, m, m', keep)
    requires WellIn(m.link, m.pages, other, id)
    ensures WellIn(m'.link, m'.pages, other, id)
  {
    ElsewhereToo(l, m, m', keep, other.l, other.tree[..], other.Abstract(), id);
  }

  lemma OwnedKept(l: Layout, m: Image, m': Image, keep: set<nat>, id: nat)
    requires l.Valid() && Keeps(l, m, m', keep) && Owned(l, m.pages, keep, id)
    ensures Owned(l, m'.pages, keep, id)
  {
  }

  // Writing the buddy field of a descriptor disturbs no area.
  function SetBuddy(pages: map<Frame, Page>, f: Frame, id: nat): map<Frame, Page>
    requires f in pages
  {
    pages[f := pages[f].(buddy := id)]
  }

  lemma SetBuddyGood(l: Layout, m: Image, a: Area, f: Frame, id: nat)
    requires Good(l, m, a) && f in m.pages
    ensures Good(l, m.(pages := SetBuddy(m.pages, f, id)), a)
  {
  }

  lemma SetBuddyOwned(l: Layout, pages: map<Frame, Page>, t: Tree, n: nat, f: Frame, id: nat)
    requires l.Valid() && TreeOk(t, l.Order()) && n < |t| && t[n] == Live
    requires FrameOf(l.areas, l.Addr(n)) == Some(f) && f in pages
    requires Owned(l, pages, LiveSet(t) - {n}, id)
    ensures Owned(l, SetBuddy(pages, f, id), LiveSet(t), id)
  {
  }

  // Area k is the first whose counter covers a request; k is their number when
  // none does.
  ghost predicate FirstAble(counters: seq<nat>, bytes: nat, k: nat) {
    && k <= |counters|
    && (forall j :: 0 <= j < k ==> counters[j] < bytes)
    && (k < |counters| ==> counters[k] >= bytes)
  }

  // A request for so many bytes takes buddy b to a' and yields block x, if any.
  ghost predicate Yields(b: BuddyArea, bytes: nat, a': Area, x: Option<nat>)
    reads b
  {
    bytes <= MAX_REQUEST && AreaOk(b.Abstract(), b.l.g.logMax) && Allocates(b.Abstract(), b.l.g.logMax, bytes, a', x)
  }

  // Releasing its live block n takes buddy b to a'.
  ghost predicate Returns(b: BuddyArea, n: nat, a': Area)
    reads b
  {
    && AreaOk(b.Abstract(), b.l.g.logMax) && n in LiveSet(b.s.t)
    && a' == FreeArea(b.Abstract(), b.l.g.logMax, n)
  }

  // The descriptor of this address got this bucket and this buddy, and nothing else
  // was written to any descriptor.
  ghost predicate Assigned(areas: seq<MemArea>, pages: map<Frame, Page>, pages': map<Frame, Page>, address: nat, order: int, id: nat) {
    var f := FrameOf(areas, address);
    && order >= 0 && f.Some? && f.value in pages
    && pages' == pages[f.value := pages[f.value].(order := order, buddy := id)]
  }

  // What a request for so many bytes from buddy k writes to descriptors: those two
  // fields of one of them; when it fails nothing, and nothing to memory.
  ghost predicate Writes(areas: seq<MemArea>, link: Store, link': Store, pages: map<Frame, Page>, pages': map<Frame, Page>,
                         r: Option<nat>, logMax: nat, bytes: nat, k: nat) {
    match r
    case None => link' == link && pages' == pages
    case Some(p) => PGSHIFT <= logMax && Assigned(areas, pages, pages', p, Bucket(logMax, bytes), k + 1)
  }

  lemma BothWritten(areas: seq<MemArea>, pages: map<Frame, Page>, pages1: map<Frame, Page>, pages2: map<Frame, Page>,
                    address: nat, order: int, id: nat)
    requires OrderWritten(areas, pages, pages1, address, order) && FrameOf(areas, address).value in pages1
    requires pages2 == SetBuddy(pages1, FrameOf(areas, address).value, id)
    ensures Assigned(areas, pages, pages2, address, order, id)
  {
  }

  // Pointer r is where block x starts, or NULL for no block.
  ghost predicate Starts(l: Layout, x: Option<nat>, r: Option<nat>)
    requires PGSHIFT <= l.g.logMax
  {
    (r.None? <==> x.None?) && (r.Some? ==> x.value < l.Nodes() && r.value == l.Addr(x.value))
  }

  class PageAllocator {
    const areas: seq<MemArea>
    const buddies: seq<BuddyArea>
    const mem: Memory
    const phys: PhysMem

    constructor (areas: seq<MemArea>, buddies: seq<BuddyArea>, mem: Memory, phys: PhysMem)
      ensures this.areas == areas && this.buddies == buddies && this.mem == mem && this.phys == phys
    {
      this.areas, this.buddies, this.mem, this.phys := areas, buddies, mem, phys;
    }

    ghost function Trees(): set<object>
    {
      set i | 0 <= i < |buddies| :: buddies[i].tree
    }

    // The buddies sit in different memory areas, over one memory.
    ghost predicate Shape() {
      && (forall i :: 0 <= i < |buddies| ==>
            buddies[i].mem == mem && buddies[i].phys == phys && buddies[i].l.areas == areas && buddies[i].l.Valid())
      && (forall i, j :: 0 <= i < |buddies| && 0 <= j < |buddies| && i != j ==>
            && buddies[i] != buddies[j] && buddies[i].tree != buddies[j].tree
            && Separate(buddies[i].l, buddies[j].l))
    }

    ghost predicate Valid()
      reads this, buddies, Trees(), mem, phys
    {
      && Shape()
      && forall i :: 0 <= i < |buddies| ==>
           WellIn(mem.link, phys.pages, buddies[i], i + 1)
    }

    ghost function Counters(): (c: seq<nat>)
      reads buddies
      ensures |c| == |buddies|
    {
      seq(|buddies|, i requires 0 <= i < |buddies| reads buddies => buddies[i].available)
    }

    ghost function Abstract(): (c: seq<Area>)
      reads buddies
      ensures |c| == |buddies|
    {
      seq(|buddies|, i requires 0 <= i < |buddies| reads buddies => buddies[i].Abstract())
    }

    // page_alloc's work on the area it settles on, with the size in bytes.
    method ServeOwn(b: BuddyArea, k: nat, bytes: nat, ghost a': Area, ghost x: Option<nat>) returns (r: Option<nat>)
      requires Shape() && k < |buddies| && OwnWell(k) && b == buddies[k]
      requires bytes <= b.available && Yields(b, bytes, a', x)
      modifies b, b.tree, mem, phys
      ensures OwnWell(k) && b.Abstract() == a'
      ensures Keeps(b.l, old(b.Now()), b.Now(), LiveSet(old(b.s).t))
      ensures Starts(b.l, x, r)
      ensures Writes(areas, old(mem.link), mem.link, old(phys.pages), phys.pages, r, b.l.g.logMax, bytes, k)
    {
      ghost var l, a, m := b.l, b.Abstract(), b.Now();
      r := b.Alloc(bytes);
      ghost var keep := LiveSet(a.s.t);
      if r.Some? {
        AllocGives(a, l.g.logMax, bytes, a', x.value);
        ghost var pages1 := phys.pages;
        TagOwner(k, r.value, x.value, m, keep);
        BothWritten(areas, m.pages, pages1, phys.pages, r.value, Bucket(l.g.logMax, bytes), k + 1);
      } else {
        AllocComplete(a, l.g.logMax, bytes, a', x);
        OwnedKept(l, m, b.Now(), keep, k + 1);
      }
    }

    // Nothing of the other areas is written but shared memory.
    method Serve(b: BuddyArea, k: nat, bytes: nat, ghost a': Area, ghost x: Option<nat>, ghost was: seq<Area>)
      returns (r: Option<nat>)
      requires Shape() && k < |buddies| && b == buddies[k] && OwnWell(k) && OthersAre(k, mem.link, phys.pages, was)
      requires bytes <= b.available && Yields(b, bytes, a', x)
      modifies b, b.tree, mem, phys
      ensures OwnWell(k) && b.Abstract() == a'
      ensures OthersAre(k, old(mem.link), old(phys.pages), was)
      ensures Keeps(b.l, old(b.Now()), b.Now(), LiveSet(old(b.s).t))
      ensures Starts(b.l, x, r)
      ensures Writes(areas, old(mem.link), mem.link, old(phys.pages), phys.pages, r, b.l.g.logMax, bytes, k)
    {
      r := ServeOwn(b, k, bytes, a', x);
    }

    // All areas after that.
    method ServeAll(b: BuddyArea, k: nat, bytes: nat, ghost a': Area, ghost x: Option<nat>, ghost was: seq<Area>)
      returns (r: Option<nat>)
      requires Valid() && k < |buddies| && b == buddies[k] && was == Abstract()
      requires bytes <= b.available && Yields(b, bytes, a', x)
      modifies b, b.tree, mem, phys
      ensures Valid() && Abstract() == was[k := a']
      ensures Starts(b.l, x, r)
      ensures Writes(areas, old(mem.link), mem.link, old(phys.pages), phys.pages, r, b.l.g.logMax, bytes, k)
    {
      ghost var m, keep := b.Now(), LiveSet(b.s.t);
      r := Serve(b, k, bytes, a', x, was);
      OthersStay(k, m, keep, was);
    }

    // What buddy k does to the shared memory leaves the other areas as they were.
    lemma OthersStay(k: nat, m: Image, keep: set<nat>, was: seq<Area>)
      requires Shape() && k < |buddies| && Keeps(buddies[k].l, m, buddies[k].Now(), keep)
      requires OthersAre(k, m.link, m.pages, was) && OwnWell(k)
      ensures Valid() && Abstract() == was[k := buddies[k].Abstract()]
    {
      forall j | 0 <= j < |buddies| && j != k
        ensures WellIn(mem.link, phys.pages, buddies[j], j + 1)
      {
        OtherStays(buddies[k].l, m, buddies[k].Now(), keep, buddies[j], j + 1);
      }
    }

    // Area k is well.
    ghost predicate OwnWell(k: nat)
      requires k < |buddies|
      reads buddies[k], buddies[k].tree, mem, phys
    {
      && PGSHIFT <= buddies[k].l.g.logMax
      && WellIn(mem.link, phys.pages, buddies[k], k + 1)
    }

    // With these links and descriptors, all areas but k are well, and are these.
    ghost predicate OthersAre(k: nat, link: Store, pages: map<Frame, Page>, was: seq<Area>)
      reads (set j | 0 <= j < |buddies| && j != k :: buddies[j]), (set j | 0 <= j < |buddies| && j != k :: buddies[j].tree)
    {
      && |was| == |buddies|
      && forall j :: 0 <= j < |buddies| && j != k ==>
           WellIn(link, pages, buddies[j], j + 1) && buddies[j].Abstract() == was[j]
    }

    // page->buddy = b
    method TagOwner(k: nat, ptr: nat, ghost n: nat, ghost m: Image, ghost keep: set<nat>)
      requires Shape() && k < |buddies| && buddies[k].Valid()
      requires n < buddies[k].l.Nodes() && ptr == buddies[k].l.Addr(n)
      requires LiveSet(buddies[k].s.t) == keep + {n} && n !in keep
      requires Keeps(buddies[k].l, m, buddies[k].Now(), keep) && Owned(buddies[k].l, m.pages, keep, k + 1)
      modifies phys
      ensures buddies[k].Valid()
      ensures Keeps(buddies[k].l, m, buddies[k].Now(), keep)
      ensures Owned(buddies[k].l, phys.pages, LiveSet(buddies[k].s.t), k + 1)
      ensures FrameOf(areas, ptr).Some? && FrameOf(areas, ptr).value in old(phys.pages)
      ensures phys.pages == SetBuddy(old(phys.pages), FrameOf(areas, ptr).value, k + 1)
    {
      var b := buddies[k];
      ghost var l, m1, t := b.l, b.Now(), b.s.t;
      assert n in LiveSet(t) && LiveSet(t) - {n} == keep;
      AddrInArea(l, n);
      var page := Phys2Page(areas, ptr);
      OwnedKept(l, m, m1, keep, k + 1);
      SetBuddyOwned(l, m1.pages, t, n, page.value, k + 1);
      SetBuddyGood(l, m1, b.Abstract(), page.value, k + 1);
      PageKeeps(l, m1, t, n, page.value, m1.pages[page.value].(buddy := k + 1), keep);
      phys.pages := phys.pages[page.value := phys.pages[page.value].(buddy := k + 1)];
      assert b.Now() == m1.(pages := SetBuddy(m1.pages, page.value, k + 1));
      KeepsTrans(l, m, m1, b.Now(), keep);
    }

    // page_alloc, with the size in bytes. It settles on the first area whose
    // counter suffices, number k; the outcome is that area's.
    method PageAlloc(npages: nat) returns (r: Option<nat>, ghost k: nat)
      requires Valid()
      modifies buddies, Trees(), mem, phys
      ensures Valid() && FirstAble(old(Counters()), PGSIZE * npages, k)
      ensures k == |buddies| ==> r.None? && Abstract() == old(Abstract()) && mem.link == old(mem.link) && phys.pages == old(phys.pages)
      ensures k < |buddies| ==>
                && PGSIZE * npages <= MAX_REQUEST && AreaOk(old(buddies[k].Abstract()), buddies[k].l.g.logMax)
                && var (a, x) := AllocArea(old(buddies[k].Abstract()), buddies[k].l.g.logMax, PGSIZE * npages);
                && Abstract() == old(Abstract())[k := a]
                && Starts(buddies[k].l, x, r)
      ensures k < |buddies| ==>
                Writes(areas, old(mem.link), mem.link, old(phys.pages), phys.pages, r, buddies[k].l.g.logMax, PGSIZE * npages, k)
    {
      var bytes := PGSIZE * npages;
      var i: nat := 0;
      ghost var was := Abstract();
      while i < |buddies|
        invariant i <= |buddies| && Valid() && Abstract() == was && Counters() == old(Counters())
        invariant forall j :: 0 <= j < i ==> buddies[j].available < bytes
      {
        if buddies[i].available < bytes {
          i := i + 1;
          continue;
        }
        AvailableBound(buddies[i].Abstract(), buddies[i].l.g.logMax);
        ghost var (a', x) := AllocArea(buddies[i].Abstract(), buddies[i].l.g.logMax, bytes);
        r := ServeAll(buddies[i], i, bytes, a', x, was);
        return r, i;
      }
      return None, i;
    }

    // page_free of a block that buddy k handed out: the descriptor leads back to
    // buddy k, and no other area changes. False is the panic, for an address that
    // has no descriptor.
    method PageFree(addr: nat, ghost k: nat, ghost n: nat) returns (ok: bool)
      requires Valid()
      requires addr == 0 || FrameOf(areas, addr).None?
               || (k < |buddies| && n in LiveSet(buddies[k].s.t) && n < buddies[k].l.Nodes() && addr == buddies[k].l.Addr(n))
      modifies buddies, Trees(), mem, phys
      ensures Valid()
      ensures ok <==> addr == 0 || FrameOf(areas, addr).Some?
      ensures addr == 0 || !ok ==>
                Abstract() == old(Abstract()) && mem.link == old(mem.link) && phys.pages == old(phys.pages)
      ensures addr != 0 && ok ==>
                && AreaOk(old(buddies[k].Abstract()), buddies[k].l.g.logMax) && n in LiveSet(old(buddies[k].s).t)
                && Abstract() == old(Abstract())[k := FreeArea(old(buddies[k].Abstract()), buddies[k].l.g.logMax, n)]
                && PageZeroed(areas, old(phys.pages), phys.pages, addr)
    {
      if addr == 0 {
        return true;
      }
      var page := Phys2Page(areas, addr);
      if page.None? {
        return false;
      }
      FreeTagged(addr, page.value, k, n);
      return true;
    }

    // kernel/kernel/page.c:85
    method FreeTagged(addr: nat, f: Frame, ghost k: nat, ghost n: nat)
      requires Valid() && addr != 0 && FrameOf(areas, addr) == Some(f)
      requires k < |buddies| && n in LiveSet(buddies[k].s.t) && n < buddies[k].l.Nodes() && addr == buddies[k].l.Addr(n)
      modifies buddies, Trees(), mem, phys
      ensures AreaOk(old(buddies[k].Abstract()), buddies[k].l.g.logMax) && n in LiveSet(old(buddies[k].s).t)
      ensures Valid()
      ensures PageZeroed(areas, old(phys.pages), phys.pages, addr)
      ensures Abstract() == old(Abstract())[k := FreeArea(old(buddies[k].Abstract()), buddies[k].l.g.logMax, n)]
    {
      AddrInArea(buddies[k].l, n);
      var b := buddies[phys.pages[f].buddy - 1];
      ghost var a', was := FreeArea(b.Abstract(), b.l.g.logMax, n), Abstract();
      ghost var m, keep := b.Now(), LiveSet(b.s.t) - {n};
      ReleaseTo(b, addr, k, n, a', was);
      OthersStay(k, m, keep, was);
    }

    // buddy_free on the buddy the descriptor names. Nothing of the other areas is
    // written but shared memory.
    method ReleaseTo(b: BuddyArea, addr: nat, ghost k: nat, ghost n: nat, ghost a': Area, ghost was: seq<Area>)
      requires Shape() && k < |buddies| && b == buddies[k] && OwnWell(k) && OthersAre(k, mem.link, phys.pages, was)
      requires addr != 0 && n < b.l.Nodes() && addr == b.l.Addr(n) && Returns(b, n, a')
      modifies b, b.tree, mem, phys
      ensures OwnWell(k) && b.Abstract() == a'
      ensures PageZeroed(areas, old(phys.pages), phys.pages, addr)
      ensures OthersAre(k, old(mem.link), old(phys.pages), was)
      ensures Keeps(b.l, old(b.Now()), b.Now(), LiveSet(old(b.s).t) - {n})
    {
      ReleaseOwn(b, addr, k, n, a');
    }

    method ReleaseOwn(b: BuddyArea, addr: nat, ghost k: nat, ghost n: nat, ghost a': Area)
      requires Shape() && k < |buddies| && OwnWell(k) && b == buddies[k] && addr != 0
      requires n < b.l.Nodes() && addr == b.l.Addr(n) && Returns(b, n, a')
      modifies b, b.tree, mem, phys
      ensures OwnWell(k) && b.Abstract() == a'
      ensures PageZeroed(areas, old(phys.pages), phys.pages, addr)
      ensures Keeps(b.l, old(b.Now()), b.Now(), LiveSet(old(b.s).t) - {n})
    {
      ghost var l, a, m, keep := b.l, b.Abstract(), b.Now(), LiveSet(b.s.t) - {n};
      AddrInArea(l, n);
      b.Free(addr, n);
      FreeExact(a, l.g.logMax, n);
      OwnedKept(l, m, b.Now(), keep, k + 1);
    }
  }

  // A free block of an area covers the request.
  ghost predicate CanServe(a: Area, logMax: nat, bytes: nat) {
    exists n :: n in FreeSet(a.s.t) && Depth(n) <= logMax && Size(logMax, Depth(n)) >= bytes
  }

  // page_alloc settles on the first area whose counter suffices. No area before
  // it could have served; it therefore fails although some area could serve the
  // request exactly when that area has no large enough block and a later one has.
  lemma GivesUpEarly(areas: seq<Area>, logs: seq<nat>, counters: seq<nat>, bytes: nat, k: nat)
    requires |areas| == |logs| == |counters| && FirstAble(counters, bytes, k)
    requires forall i :: 0 <= i < |areas| ==> AreaOk(areas[i], logs[i]) && counters[i] == areas[i].available
    ensures forall i :: 0 <= i < k ==> !CanServe(areas[i], logs[i], bytes)
    ensures k < |areas| ==>
              bytes <= MAX_REQUEST
              && (Allocates(areas[k], logs[k], bytes, areas[k], None) <==> !CanServe(areas[k], logs[k], bytes))
  {
    forall i | 0 <= i < k
      ensures !CanServe(areas[i], logs[i], bytes)
    {
      forall n | n in FreeSet(areas[i].s.t) && Depth(n) <= logs[i]
        ensures Size(logs[i], Depth(n)) < bytes
      {
        Serves(areas[i], logs[i], bytes, n);
      }
    }
    if k < |areas| {
      AvailableBound(areas[k], logs[k]);
      FailsExactly(areas[k], logs[k], bytes);
    }
  }

  lemma FailsExactly(a: Area, logMax: nat, bytes: nat)
    requires AreaOk(a, logMax) && bytes <= MAX_REQUEST
    ensures Allocates(a, logMax, bytes, a, None) <==> !CanServe(a, logMax, bytes)
  {
    var (a', r) := AllocArea(a, logMax, bytes);
    AllocComplete(a, logMax, bytes, a', r);
  }

  // An input on which it gives up: two areas of 512 KiB, one page taken from the
  // first. A request for 127 pages then fails, although the second could serve it.
  lemma GivesUpOn127Pages() returns (a: Area)
    ensures Reaches(19, [AllocOp(1)], a) && AreaOk(a, 19)
    ensures Pow2(19) == BUDDY_MAX_SIZE && PGSIZE * 127 <= MAX_REQUEST
    ensures FirstAble([a.available, Pow2(19)], PGSIZE * 127, 0)
    ensures Allocates(a, 19, PGSIZE * 127, a, None)
    ensures CanServe(Fresh(19), 19, PGSIZE * 127)
  {
    BuddySize();
    var f := Fresh(19);
    var a', n;
    a, a', n := FragmentedRefuses(f, 19, PGSIZE * 127);
    RootFree(f, 19);
  }

  lemma BuddySize()
    ensures Pow2(19) == BUDDY_MAX_SIZE && PGSIZE * 128 == BUDDY_MAX_SIZE
  {
    assert Pow2(4) == 16;
    assert Pow2(8) == 16 * Pow2(4);
    assert Pow2(12) == 16 * Pow2(8);
    assert Pow2(16) == 16 * Pow2(12);
    assert Pow2(19) == 8 * Pow2(16);
  }
}
