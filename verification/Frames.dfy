// Page frames: the memory areas the boot loader reported, their maps of page
// descriptors, and phys2page (kernel/kernel/page.c, kernel/include/lunaros/page.h).

module Frames {
  import opened Nodes
  import opened Blocks

  datatype MemArea = MemArea(addr: nat, len: nat, base: nat, mapSize: nat, used: nat)

  // struct page. Pointers are addresses, 0 is NULL.
  datatype Page = Page(slab: nat, buddy: nat, order: nat, status: nat)

  const ZERO_PAGE := Page(0, 0, 0, 0)

  // Which descriptor: an area, and an index into its map.
  datatype Frame = Frame(area: nat, index: int)

  function Pfn(address: nat): nat {
    address / PGSIZE
  }

  // The area phys2page settles on: the first one that does not end before the address.
  function AreaOf(areas: seq<MemArea>, address: nat, i: nat): (r: Option<nat>)
    requires i <= |areas|
    ensures r.Some? <==> exists j :: i <= j < |areas| && areas[j].addr + areas[j].len >= address
    ensures r.Some? ==> i <= r.value < |areas| && areas[r.value].addr + areas[r.value].len >= address
    ensures r.Some? ==> forall j :: i <= j < r.value ==> areas[j].addr + areas[j].len < address
    decreases |areas| - i
  {
    if i == |areas| then None
    else if areas[i].addr + areas[i].len < address then AreaOf(areas, address, i + 1)
    else Some(i)
  }

  function FrameOf(areas: seq<MemArea>, address: nat): Option<Frame> {
    if address == 0 then None
    else
      match AreaOf(areas, address, 0)
      case None => None
      case Some(j) => Some(Frame(j, Pfn(address) - Pfn(areas[j].addr)))
  }

  method Phys2Page(areas: seq<MemArea>, address: nat) returns (r: Option<Frame>)
    ensures r == FrameOf(areas, address)
  {
    if address == 0 {
      return None;
    }
    var i := 0;
    while i < |areas|
      invariant i <= |areas|
      invariant AreaOf(areas, address, 0) == AreaOf(areas, address, i)
    {
      if areas[i].addr + areas[i].len < address {
        i := i + 1;
        continue;
      }
      return Some(Frame(i, Pfn(address) - Pfn(areas[i].addr)));
    }
    return None;
  }

  // Bucket `order` was written to the descriptor of this address, and nothing else
  // to any descriptor.
  ghost predicate OrderWritten(areas: seq<MemArea>, pages: map<Frame, Page>, pages': map<Frame, Page>, address: nat, order: int) {
    var f := FrameOf(areas, address);
    order >= 0 && f.Some? && f.value in pages && pages' == pages[f.value := pages[f.value].(order := order)]
  }

  // The descriptor of this address was zeroed, and no other one has changed.
  ghost predicate PageZeroed(areas: seq<MemArea>, pages: map<Frame, Page>, pages': map<Frame, Page>, address: nat) {
    var f := FrameOf(areas, address);
    f.Some? && f.value in pages && pages' == pages[f.value := Page(0, 0, 0, 0)]
  }

  // The addresses from `base` on, `size` of them, belong to memory area `j`, and
  // every area before it ends before them; its map has a descriptor for each.
  ghost predicate Owns(areas: seq<MemArea>, j: nat, base: nat, size: nat) {
    && j < |areas| && size > 0
    && (forall i :: 0 <= i < j ==> areas[i].addr + areas[i].len < base)
    && areas[j].addr <= base && base + size <= areas[j].addr + areas[j].len
    && Pfn(base + size - 1) - Pfn(areas[j].addr) < areas[j].mapSize
  }

  lemma OwnedFrame(areas: seq<MemArea>, j: nat, base: nat, size: nat, address: nat)
    requires Owns(areas, j, base, size) && 0 < base <= address < base + size
    ensures FrameOf(areas, address) == Some(Frame(j, Pfn(address) - Pfn(areas[j].addr)))
    ensures 0 <= Pfn(address) - Pfn(areas[j].addr) < areas[j].mapSize
  {
    assert areas[j].addr + areas[j].len >= address;
  }

  // Addresses at least a page apart have different descriptors, aligned or not.
  lemma FarApart(a: nat, b: nat)
    requires a + PGSIZE <= b
    ensures Pfn(a) < Pfn(b)
  {
  }

  // Sorted, disjoint, non-touching areas whose maps cover them are owned.
  lemma SortedAreasOwn(areas: seq<MemArea>, j: nat, base: nat, size: nat)
    requires j < |areas| && size > 0
    requires forall i, k :: 0 <= i < k < |areas| ==> areas[i].addr + areas[i].len < areas[k].addr
    requires areas[j].addr <= base && base + size <= areas[j].addr + areas[j].len
    requires Pfn(base + size - 1) - Pfn(areas[j].addr) < areas[j].mapSize
    ensures Owns(areas, j, base, size)
  {
  }

  // The page descriptors of all memory areas.
  class PhysMem {
    var pages: map<Frame, Page>

    constructor (m: map<Frame, Page>)
      ensures pages == m
    {
      pages := m;
    }
  }
}
