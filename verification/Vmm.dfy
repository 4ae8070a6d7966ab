// Virtual addresses and the reserved page table (kernel/kernel/vmm.c,
// kernel/kernel/mmap.c). Address arithmetic is written with + where the source
// combines disjoint bit fields with |.

module Vmm {
  import opened Words
  import opened Nodes
  import opened Blocks

  const BOOT_START: nat := 0xffff_8000_0000_0000
  const BOOT_END: nat := 0xffff_807f_ffff_ffff
  const DM_START: nat := 0xffff_8880_0000_0000
  const DM_END: nat := 0xffff_c87f_ffff_ffff
  const VM_AREA_MAX: nat := 512

  // ---- the direct map ----

  // vmm_phys2virt, in 64-bit arithmetic.
  function Phys2Virt(a: nat): nat
    requires a < WORD
  {
    (a + DM_START) % WORD
  }

  // vmm_virt2phys; None is the panic.
  function Virt2Phys(a: nat): Option<nat> {
    if BOOT_START <= a <= BOOT_END then Some(a - BOOT_START)
    else if DM_START <= a <= DM_END then Some(a - DM_START)
    else None
  }

  // The two are inverse exactly on the addresses the direct map covers, 64 TiB.
  lemma DirectMapRoundTrip(a: nat)
    requires a < WORD
    ensures Virt2Phys(Phys2Virt(a)) == Some(a) <==> a < 0x4000_0000_0000
    ensures a < 0x4000_0000_0000 ==> Phys2Virt(a) == 0xffff_8880_0000_0000 + a
  {
    if a + DM_START < WORD {
      assert Phys2Virt(a) == a + DM_START;
    } else {
      assert Phys2Virt(a) == a + DM_START - WORD;
    }
  }

  // alloc_cache looks up the physical address of what page_alloc returned, which
  // is a physical address already: whatever it is, that panics. Its direct-map
  // alias is what the slab needs, and is what looks up to the page again.
  lemma SlabLookupPanics(a: nat)
    requires a < 0x4000_0000_0000
    ensures Virt2Phys(a) == None && Virt2Phys(Phys2Virt(a)) == Some(a)
  {
    DirectMapRoundTrip(a);
  }

  // buddy_pop hands out the direct-map alias of a block. Mapped to a node it lies
  // outside every tree the source can build.
  lemma PoppedAliasOutsideTree(g: Geometry, addr: nat, bkt: nat)
    requires g.Valid() && bkt <= g.Order()
    requires g.base <= addr < g.base + Pow2(g.logMax) && addr < 0x4000_0000_0000
    ensures Phys2Virt(addr) >= g.base
    ensures Ptr2Node(g, Phys2Virt(addr), bkt) >= NodeCount(g.Order())
  {
    var d := Phys2Virt(addr) - g.base;
    ShlShr(d, g.logMax - bkt);
    FewNodes(g.Order());
    BigQuotient(d, g.logMax - bkt);
  }

  lemma FewNodes(order: nat)
    requires order <= 18
    ensures NodeCount(order) <= 0x8_0000
  {
    Pow2Monotone(order, 18);
    Small();
  }

  lemma BigQuotient(d: nat, s: nat)
    requires s <= 30 && d >= 0x2_0000_0000_0000
    ensures Shr(d, s) >= 0x8_0000
  {
    ShlShr(d, s);
    Small();
    ShlOfPow2(19, s);
    Pow2Monotone(19 + s, 49);
    if Shr(d, s) < 0x8_0000 {
      ShlMonotone(Shr(d, s), 0x8_0000, s);
    }
  }

  lemma Small()
    ensures Pow2(18) == 0x4_0000 && Pow2(19) == 0x8_0000 && Pow2(30) == 0x4000_0000
    ensures Pow2(49) == 0x2_0000_0000_0000
  {
    assert Pow2(8) == 256;
    assert Pow2(12) == 4096;
    assert Pow2(16) == 0x1_0000;
    assert Pow2(20) == 0x10_0000;
    assert Pow2(24) == 0x100_0000;
    assert Pow2(28) == 0x1000_0000;
    assert Pow2(32) == 0x1_0000_0000;
    assert Pow2(36) == 0x10_0000_0000;
    assert Pow2(40) == 0x100_0000_0000;
    assert Pow2(44) == 0x1000_0000_0000;
    assert Pow2(48) == 0x1_0000_0000_0000;
  }

  // ---- page-table entries and the walk ----

  datatype CacheType = UC | WC | WT | WB | WP

  // The fields of pte_t that the source sets; `base` is a 40-bit frame number.
  datatype Pte = Pte(present: bool, rw: bool, pwt: bool, pcd: bool, pat: bool, base: nat)

  // vmm_map_t, with the table indices vmm_fetch_map sets.
  datatype Map = Map(pml4e: nat, pdpte: nat, pde: nat, pte: nat)

  const FRAMES: nat := 0x100_0000_0000

  function EntryFor(addr: nat, kind: CacheType): Pte {
    Pte(true, true, kind.UC? || kind.WT?, kind.UC?, kind.UC?, addr / PGSIZE % FRAMES)
  }

  // A present, writable entry of this memory type. The source has no encoding for
  // write-combining and write-protected, and uses the default for both.
  predicate HasType(entry: Pte, kind: CacheType) {
    && entry.present && entry.rw
    && match kind
       case UC => entry.pwt && entry.pcd && entry.pat
       case WT => entry.pwt && !entry.pcd && !entry.pat
       case WB => !entry.pwt && !entry.pcd && !entry.pat
       case WC => !entry.pwt && !entry.pcd && !entry.pat
       case WP => !entry.pwt && !entry.pcd && !entry.pat
  }

  lemma EntryType(addr: nat, kind: CacheType)
    ensures HasType(EntryFor(addr, kind), kind)
  {
  }

  // The canonical address with these indices and this offset.
  function VirtualAddress(m: Map, offset: nat): nat {
    0xffff_0000_0000_0000
    + m.pml4e % 512 * 0x80_0000_0000
    + m.pdpte % 512 * 0x4000_0000
    + m.pde % 512 * 0x20_0000
    + m.pte % 512 * PGSIZE
    + offset % PGSIZE
  }

  // The index of the last table, from a virtual address.
  function SlotOf(vaddr: nat): (slot: nat)
    ensures slot < 512
  {
    vaddr / 4096 % 512
  }

  // The page walk of a virtual address below the reserved page table.
  function Translate(pt: seq<Pte>, vaddr: nat): Option<nat>
    requires |pt| == VM_AREA_MAX
  {
    var entry := pt[SlotOf(vaddr)];
    if entry.present then Some(entry.base * PGSIZE + vaddr % PGSIZE) else None
  }

  lemma Decompose(m: Map, offset: nat)
    ensures SlotOf(VirtualAddress(m, offset)) == m.pte % 512
    ensures VirtualAddress(m, offset) % PGSIZE == offset % PGSIZE
  {
    var (a, b, c, d, o) := (m.pml4e % 512, m.pdpte % 512, m.pde % 512, m.pte % 512, offset % PGSIZE);
    var high := 0x7ff_f800_0000 + a * 0x4_0000 + b * 512 + c;
    assert VirtualAddress(m, offset) == PGSIZE * (512 * high + d) + o;
    Fields(512 * high + d, o);
    assert (512 * high + d) % 512 == d;
  }

  // The indices of the tables above can be read back as well, and the address is
  // canonical.
  lemma DecomposeHigh(m: Map, offset: nat)
    ensures VirtualAddress(m, offset) / 0x1_0000_0000_0000 == 0xffff
    ensures VirtualAddress(m, offset) / 0x80_0000_0000 % 512 == m.pml4e % 512
    ensures VirtualAddress(m, offset) / 0x4000_0000 % 512 == m.pdpte % 512
    ensures VirtualAddress(m, offset) / 0x20_0000 % 512 == m.pde % 512
  {
    var (a, b, c, d, o) := (m.pml4e % 512, m.pdpte % 512, m.pde % 512, m.pte % 512, offset % PGSIZE);
    HighFields(VirtualAddress(m, offset), a, b, c, d, o);
  }

  lemma HighFields(v: nat, a: nat, b: nat, c: nat, d: nat, o: nat)
    requires a < 512 && b < 512 && c < 512 && d < 512 && o < 4096
    requires v == 0xffff_0000_0000_0000 + a * 0x80_0000_0000 + b * 0x4000_0000 + c * 0x20_0000 + d * 4096 + o
    ensures v / 0x1_0000_0000_0000 == 0xffff && v / 0x80_0000_0000 % 512 == a
    ensures v / 0x4000_0000 % 512 == b && v / 0x20_0000 % 512 == c
  {
    var q3 := 0x1ff_fe00 + a;
    var q2 := 512 * q3 + b;
    var q1 := 512 * q2 + c;
    DivUnique(v, 0x20_0000, q1, d * 4096 + o);
    DivUnique(v, 0x4000_0000, q2, c * 0x20_0000 + d * 4096 + o);
    DivUnique(v, 0x80_0000_0000, q3, b * 0x4000_0000 + c * 0x20_0000 + d * 4096 + o);
    DivUnique(v, 0x1_0000_0000_0000, 0xffff, a * 0x80_0000_0000 + b * 0x4000_0000 + c * 0x20_0000 + d * 4096 + o);
  }

  lemma Fields(q: nat, o: nat)
    requires o < PGSIZE
    ensures (PGSIZE * q + o) / PGSIZE == q && (PGSIZE * q + o) % PGSIZE == o
  {
  }

  // The physical addresses an entry can hold.
  lemma FrameBack(addr: nat)
    ensures addr < FRAMES * PGSIZE <==> addr / PGSIZE % FRAMES * PGSIZE + addr % PGSIZE == addr
  {
    assert addr == addr / PGSIZE * PGSIZE + addr % PGSIZE;
  }

  // A page that has its entry translates back to its physical address.
  lemma MappedTranslates(pt: seq<Pte>, m: Map, addr: nat, kind: CacheType)
    requires |pt| == VM_AREA_MAX && m.pte < VM_AREA_MAX && pt[m.pte] == EntryFor(addr, kind)
    requires addr < FRAMES * PGSIZE
    ensures Translate(pt, VirtualAddress(m, addr % PGSIZE)) == Some(addr)
  {
    Decompose(m, addr % PGSIZE);
    FrameBack(addr);
  }

  // ---- mapping ----

  // The slot-th page of the reserved page table.
  function SlotMap(slot: nat): Map {
    Map(257, 0, 0, slot)
  }

  // One page as it was mapped.
  datatype PageMap = PageMap(vaddr: nat, paddr: nat, kind: CacheType)

  // The pages of an area.
  function Pages(slot: nat, start: nat, n: nat, kind: CacheType): (r: seq<PageMap>)
    ensures |r| == n
    ensures forall k :: 0 <= k < n ==>
              r[k] == PageMap(VirtualAddress(SlotMap(slot + k), start % PGSIZE), start + PGSIZE * k, kind)
  {
    seq(n, k requires 0 <= k => PageAt(slot, start, k, kind))
  }

  function PageAt(slot: nat, start: nat, k: nat, kind: CacheType): PageMap {
    PageMap(VirtualAddress(SlotMap(slot + k), start % PGSIZE), start + PGSIZE * k, kind)
  }

  // The virtual pages of an area follow one another, from the reserved table's
  // first page on.
  lemma PagesContiguous(slot: nat, start: nat, n: nat, kind: CacheType, k: nat)
    requires k < n && slot + n <= VM_AREA_MAX
    ensures Pages(slot, start, n, kind)[k].vaddr == 0xffff_8080_0000_0000 + 4096 * (slot + k) + start % 4096
  {
    assert (slot + k) % 512 == slot + k;
  }

  // Every page recorded translates to what it was mapped to, with the memory type
  // asked for, from a slot below `size`.
  ghost predicate Translates(pt: seq<Pte>, size: nat, given: seq<PageMap>) {
    |pt| == VM_AREA_MAX && forall i :: 0 <= i < |given| ==> IsMapped(pt, size, given[i])
  }

  ghost predicate IsMapped(pt: seq<Pte>, size: nat, page: PageMap)
    requires |pt| == VM_AREA_MAX
  {
    && SlotOf(page.vaddr) < size && Translate(pt, page.vaddr) == Some(page.paddr)
    && HasType(pt[SlotOf(page.vaddr)], page.kind)
  }

  lemma AreaTranslates(pt: seq<Pte>, pt': seq<Pte>, size: nat, given: seq<PageMap>, start: nat, n: nat, kind: CacheType)
    requires Translates(pt, size, given) && size + n <= VM_AREA_MAX && |pt'| == VM_AREA_MAX
    requires start + PGSIZE * n <= FRAMES * PGSIZE
    requires forall i :: 0 <= i < size ==> pt'[i] == pt[i]
    requires forall k :: 0 <= k < n ==> pt'[size + k] == EntryFor(start + PGSIZE * k, kind)
    ensures Translates(pt', size + n, given + Pages(size, start, n, kind))
  {
    var pages := Pages(size, start, n, kind);
    forall i | 0 <= i < |given|
      ensures IsMapped(pt', size + n, given[i])
    {
      OldTranslates(pt, pt', size, given[i].vaddr);
    }
    forall k | 0 <= k < n
      ensures IsMapped(pt', size + n, pages[k])
    {
      PageTranslates(pt', size + k, start, k, kind);
    }
    BothMapped(pt', size + n, given, pages);
  }

  lemma BothMapped(pt: seq<Pte>, size: nat, s: seq<PageMap>, t: seq<PageMap>)
    requires Translates(pt, size, s) && Translates(pt, size, t)
    ensures Translates(pt, size, s + t)
  {
  }

  // What used the slots below `size` does not notice changes above them.
  lemma OldTranslates(pt: seq<Pte>, pt': seq<Pte>, size: nat, vaddr: nat)
    requires |pt| == VM_AREA_MAX == |pt'| && size <= VM_AREA_MAX && SlotOf(vaddr) < size
    requires forall i :: 0 <= i < size ==> pt'[i] == pt[i]
    ensures Translate(pt', vaddr) == Translate(pt, vaddr) && pt'[SlotOf(vaddr)] == pt[SlotOf(vaddr)]
  {
  }

  lemma PageTranslates(pt: seq<Pte>, slot: nat, start: nat, k: nat, kind: CacheType)
    requires |pt| == VM_AREA_MAX && slot < VM_AREA_MAX && pt[slot] == EntryFor(start + PGSIZE * k, kind)
    requires start + PGSIZE * k < FRAMES * PGSIZE
    ensures SlotOf(VirtualAddress(SlotMap(slot), start % PGSIZE)) == slot
    ensures Translate(pt, VirtualAddress(SlotMap(slot), start % PGSIZE)) == Some(start + PGSIZE * k)
    ensures HasType(pt[slot], kind)
  {
    SameOffset(start, k);
    MappedTranslates(pt, SlotMap(slot), start + PGSIZE * k, kind);
    Decompose(SlotMap(slot), start % PGSIZE);
    EntryType(start + PGSIZE * k, kind);
  }

  lemma SameOffset(start: nat, k: nat)
    ensures (start + PGSIZE * k) % PGSIZE == start % PGSIZE
  {
    DivUnique(start + 4096 * k, 4096, start / 4096 + k, start % 4096);
  }

  datatype MapResult = Refused | Panic | OutOfTable | Mapped(vaddr: nat)

  class VmArea {
    var size: nat
    const pt: array<Pte>
    // The pages mapped so far.
    ghost var given: seq<PageMap>

    ghost predicate Valid()
      reads this, pt
    {
      pt.Length == VM_AREA_MAX && size <= VM_AREA_MAX && Translates(pt[..], size, given)
    }

    // vmm_init
    constructor (pt: array<Pte>)
      requires pt.Length == VM_AREA_MAX
      ensures Valid() && this.pt == pt && size == 0 && given == []
    {
      this.pt := pt;
      size, given := 0, [];
    }

    // vmm_assign_map
    method AssignMap(m: Map, addr: nat, kind: CacheType) returns (vaddr: nat)
      requires m.pte < pt.Length
      modifies pt
      ensures pt[..] == old(pt[..])[m.pte := EntryFor(addr, kind)]
      ensures vaddr == VirtualAddress(m, addr % PGSIZE)
    {
      var entry := Pte(true, true, false, false, false, addr / PGSIZE % FRAMES);
      match kind {
        case UC => entry := entry.(pwt := true, pcd := true, pat := true);
        case WT => entry := entry.(pwt := true, pcd := false, pat := false);
        case _ =>
      }
      pt[m.pte] := entry;
      vaddr := VirtualAddress(m, addr % PGSIZE);
    }

    // The loop of mmap_physical_area, with the first page before it.
    method AssignArea(m: Map, start: nat, n: nat, kind: CacheType) returns (vaddr: nat)
      requires n >= 1 && m.pte + n <= pt.Length
      modifies pt
      ensures vaddr == VirtualAddress(m, start % PGSIZE)
      ensures forall i :: 0 <= i < pt.Length && !(m.pte <= i < m.pte + n) ==> pt[i] == old(pt[i])
      ensures forall k :: 0 <= k < n ==> pt[m.pte + k] == EntryFor(start + PGSIZE * k, kind)
    {
      vaddr := AssignMap(m, start, kind);
      var map' := m;
      for k := 1 to n
        invariant map' == m.(pte := m.pte + k - 1)
        invariant forall i :: 0 <= i < pt.Length && !(m.pte <= i < m.pte + k) ==> pt[i] == old(pt[i])
        invariant forall j :: 0 <= j < k ==> pt[m.pte + j] == EntryFor(start + PGSIZE * j, kind)
      {
        map' := map'.(pte := map'.pte + 1);
        var _ := AssignMap(map', start + PGSIZE * k, kind);
      }
    }

    // mmap_physical_area over a fetch that reserves every slot it hands out.
    method MapArea(start: nat, npages: nat, kind: CacheType, irqEnabled: bool) returns (r: MapResult)
      requires Valid()
      requires size + Slots(npages) <= VM_AREA_MAX ==> start + PGSIZE * Slots(npages) <= FRAMES * PGSIZE
      modifies this`size, this`given, pt
      ensures Valid()
      ensures r.Refused? <==> irqEnabled
      ensures r.Panic? <==> !irqEnabled && old(size) + Slots(npages) > VM_AREA_MAX
      ensures r.Refused? || r.Panic? ==> size == old(size) && given == old(given) && pt[..] == old(pt[..])
      ensures !r.OutOfTable?
      ensures r.Mapped? ==>
                && r.vaddr == 0xffff_8080_0000_0000 + 4096 * old(size) + start % 4096
                && given == old(given) + Pages(old(size), start, Slots(npages), kind)
                && size == old(size) + Slots(npages)
                && Maps(pt[..], old(size), start, Slots(npages), kind)
    {
      if irqEnabled {
        return Refused;
      }
      var n := Slots(npages);
      if size + n > VM_AREA_MAX {
        return Panic;
      }
      ghost var was := pt[..];
      var vaddr := AssignArea(SlotMap(size), start, n, kind);
      AreaMapped(was, pt[..], size, given, start, n, kind, vaddr);
      given := given + Pages(size, start, n, kind);
      size := size + n;
      return Mapped(vaddr);
    }

    // mmap_physical_area as written: vmm_fetch_map reserves one slot however many
    // pages it is asked for. What is mapped is right at first, but it stays safe
    // from later mappings exactly when at most one page was asked for.
    method MapAreaAsWritten(start: nat, npages: nat, kind: CacheType, irqEnabled: bool) returns (r: MapResult)
      requires Valid()
      requires size + Slots(npages) <= VM_AREA_MAX ==> start + PGSIZE * Slots(npages) <= FRAMES * PGSIZE
      modifies this`size, this`given, pt
      ensures r.Refused? <==> irqEnabled
      ensures r.Panic? <==> !irqEnabled && old(size) + npages > VM_AREA_MAX
      ensures r.OutOfTable? <==> !irqEnabled && npages == 0 && old(size) == VM_AREA_MAX
      ensures !r.Mapped? ==> size == old(size) && given == old(given) && pt[..] == old(pt[..])
      ensures r.Mapped? ==>
                && r.vaddr == 0xffff_8080_0000_0000 + 4096 * old(size) + start % 4096
                && given == old(given) + Pages(old(size), start, Slots(npages), kind)
                && size == old(size) + 1
                && Translates(pt[..], old(size) + Slots(npages), given)
                && Maps(pt[..], old(size), start, Slots(npages), kind)
      ensures r.Mapped? ==> (Valid() <==> npages <= 1)
    {
      if irqEnabled {
        return Refused;
      }
      if size + npages > VM_AREA_MAX {
        return Panic;
      }
      if size + Slots(npages) > VM_AREA_MAX {
        return OutOfTable;
      }
      ghost var was, size0, given0 := pt[..], size, given;
      var n := Slots(npages);
      var vaddr := AssignArea(SlotMap(size), start, n, kind);
      AreaMapped(was, pt[..], size, given, start, n, kind, vaddr);
      given := given + Pages(size, start, n, kind);
      size := size + 1;
      OneSlot(pt[..], given0, size0, start, n, kind);
      return Mapped(vaddr);
    }
  }

  // Slots from `slot` on hold entries for the n pages from `start` on, of this
  // memory type.
  ghost predicate Maps(pt: seq<Pte>, slot: nat, start: nat, n: nat, kind: CacheType) {
    slot + n <= |pt| && forall i :: slot <= i < slot + n ==> Holds(pt[i], start, i - slot, kind)
  }

  // The entry holds the frame of the k-th page.
  predicate Holds(entry: Pte, start: nat, k: nat, kind: CacheType) {
    HasType(entry, kind) && entry.base * PGSIZE + start % PGSIZE == start + PGSIZE * k
  }

  lemma AreaMapped(pt: seq<Pte>, pt': seq<Pte>, size: nat, given: seq<PageMap>, start: nat, n: nat, kind: CacheType, vaddr: nat)
    requires Translates(pt, size, given) && 1 <= n && size + n <= VM_AREA_MAX && |pt'| == VM_AREA_MAX
    requires start + PGSIZE * n <= FRAMES * PGSIZE
    requires forall i :: 0 <= i < size ==> pt'[i] == pt[i]
    requires forall k :: 0 <= k < n ==> pt'[size + k] == EntryFor(start + PGSIZE * k, kind)
    requires vaddr == VirtualAddress(SlotMap(size), start % PGSIZE)
    ensures Translates(pt', size + n, given + Pages(size, start, n, kind))
    ensures Maps(pt', size, start, n, kind) && vaddr == 0xffff_8080_0000_0000 + 4096 * size + start % 4096
  {
    AreaTranslates(pt, pt', size, given, start, n, kind);
    PagesContiguous(size, start, n, kind, 0);
    AreaMaps(pt', size, start, n, kind);
  }

  lemma AreaMaps(pt: seq<Pte>, slot: nat, start: nat, n: nat, kind: CacheType)
    requires slot + n <= |pt| && start + PGSIZE * n <= FRAMES * PGSIZE
    requires forall k :: 0 <= k < n ==> pt[slot + k] == EntryFor(start + PGSIZE * k, kind)
    ensures Maps(pt, slot, start, n, kind)
  {
    forall i | slot <= i < slot + n
      ensures Holds(pt[i], start, i - slot, kind)
    {
      assert pt[slot + (i - slot)] == EntryFor(start + PGSIZE * (i - slot), kind);
      EntryHolds(start, n, i - slot, kind);
    }
  }

  lemma EntryHolds(start: nat, n: nat, k: nat, kind: CacheType)
    requires k < n && start + PGSIZE * n <= FRAMES * PGSIZE
    ensures Holds(EntryFor(start + PGSIZE * k, kind), start, k, kind)
  {
    EntryType(start + PGSIZE * k, kind);
    SameOffset(start, k);
    FrameBack(start + PGSIZE * k);
  }

  // Counting one slot for the n pages just mapped is enough only for one page.
  lemma OneSlot(pt: seq<Pte>, given: seq<PageMap>, size: nat, start: nat, n: nat, kind: CacheType)
    requires n >= 1 && size + n <= VM_AREA_MAX && Translates(pt, size + n, given + Pages(size, start, n, kind))
    ensures Translates(pt, size + 1, given + Pages(size, start, n, kind)) ==> n == 1
  {
    if n > 1 {
      var all := given + Pages(size, start, n, kind);
      assert all[|given| + n - 1] == Pages(size, start, n, kind)[n - 1];
      Decompose(SlotMap(size + n - 1), start % PGSIZE);
    }
  }

  // How many pages a call maps: asking for none maps one.
  function Slots(npages: nat): (n: nat)
    ensures 1 <= n <= npages + 1
    ensures npages >= 1 ==> n == npages
  {
    if npages == 0 then 1 else npages
  }

  // What goes wrong as written: the page after the first of an area shares its
  // slot with the next page mapped, so it then translates to that page's frame and
  // has its memory type.
  lemma SecondPageLost(pt: seq<Pte>, slot: nat, start: nat, kind: CacheType, later: nat, kind': CacheType)
    requires |pt| == VM_AREA_MAX && slot + 1 < VM_AREA_MAX
    requires later < FRAMES * PGSIZE
    ensures
      var second := Pages(slot, start, 2, kind)[1].vaddr;
      var pt' := pt[slot + 1 := EntryFor(later, kind')];
      && Translate(pt', second) == Some(later - later % PGSIZE + start % PGSIZE)
      && SlotOf(second) == slot + 1 && HasType(pt'[slot + 1], kind')
  {
    Decompose(SlotMap(slot + 1), start % PGSIZE);
    FrameBack(later);
    EntryType(later, kind');
  }
}
