// The two passes over the Multiboot2 memory map (kernel/kernel/multiboot.c:11-62;
// Multiboot2 Specification, sections 3.6.2 and 3.6.8).

module Multiboot {
  import opened Words
  import opened Blocks
  import opened Frames
  import opened Reserved

  newtype byte = x: int | 0 <= x < 256

  const TAG_END: nat := 0
  const TAG_MMAP: nat := 6
  const AVAILABLE: nat := 1

  type word = x: int | 0 <= x < WORD

  // Little-endian numbers of 4 and 8 bytes.
  function U32(mem: seq<byte>, off: nat): (r: nat)
    requires off + 4 <= |mem|
    ensures r < 0x1_0000_0000
  {
    mem[off] as nat + 0x100 * mem[off + 1] as nat + 0x1_0000 * mem[off + 2] as nat + 0x100_0000 * mem[off + 3] as nat
  }

  function U64(mem: seq<byte>, off: nat): word
    requires off + 8 <= |mem|
  {
    U32(mem, off) + 0x1_0000_0000 * U32(mem, off + 4)
  }

  datatype Entry = Entry(addr: word, len: word, kind: nat)

  function TagType(mem: seq<byte>, tag: nat): nat
    requires tag + 8 <= |mem|
  {
    U32(mem, tag)
  }

  function TagSize(mem: seq<byte>, tag: nat): nat
    requires tag + 8 <= |mem|
  {
    U32(mem, tag + 4)
  }

  // next_tag: sizes are rounded up to 8 in 32-bit arithmetic.
  function NextTag(mem: seq<byte>, tag: nat): nat
    requires tag + 8 <= |mem|
  {
    tag + (TagSize(mem, tag) + 7) % 0x1_0000_0000 / 8 * 8
  }

  function EntrySize(mem: seq<byte>, tag: nat): nat
    requires tag + 16 <= |mem|
  {
    U32(mem, tag + 8)
  }

  function ReadEntry(mem: seq<byte>, e: nat): Entry
    requires e + 24 <= |mem|
  {
    Entry(U64(mem, e), U64(mem, e + 8), U32(mem, e + 16))
  }

  // Every entry the inner loop reads is in memory, and the loop advances.
  ghost predicate EntriesFit(mem: seq<byte>, e: nat, limit: nat, size: nat)
    decreases limit - e
  {
    e < limit ==> e + 24 <= |mem| && size > 0 && EntriesFit(mem, e + size, limit, size)
  }

  // A tag sequence that ends with an end tag inside the information block.
  ghost predicate WellFormed(mem: seq<byte>, tag: nat)
    decreases |mem| - tag
  {
    && tag + 8 <= |mem|
    && (TagType(mem, tag) != TAG_END ==>
          && tag < NextTag(mem, tag)
          && (TagType(mem, tag) == TAG_MMAP ==>
                && tag + 16 <= |mem|
                && EntriesFit(mem, tag + 16, tag + TagSize(mem, tag), EntrySize(mem, tag)))
          && WellFormed(mem, NextTag(mem, tag)))
  }

  // The entries of one memory-map tag, and of all of them.
  function Entries(mem: seq<byte>, e: nat, limit: nat, size: nat): seq<Entry>
    requires EntriesFit(mem, e, limit, size)
    decreases limit - e
  {
    if e >= limit then [] else [ReadEntry(mem, e)] + Entries(mem, e + size, limit, size)
  }

  function TagEntries(mem: seq<byte>, tag: nat): seq<Entry>
    requires WellFormed(mem, tag) && TagType(mem, tag) != TAG_END
  {
    if TagType(mem, tag) == TAG_MMAP then Entries(mem, tag + 16, tag + TagSize(mem, tag), EntrySize(mem, tag)) else []
  }

  function AllEntries(mem: seq<byte>, tag: nat): seq<Entry>
    requires WellFormed(mem, tag)
    decreases |mem| - tag
  {
    if TagType(mem, tag) == TAG_END then [] else TagEntries(mem, tag) + AllEntries(mem, NextTag(mem, tag))
  }

  // The available entries, in order.
  function Usable(s: seq<Entry>): seq<Entry> {
    if s == [] then []
    else (if s[0].kind == AVAILABLE then [s[0]] else []) + Usable(s[1..])
  }

  lemma {:induction false} UsableConcat(s: seq<Entry>, t: seq<Entry>)
    ensures Usable(s + t) == Usable(s) + Usable(t)
    decreases s
  {
    if s == [] {
      assert s + t == t;
    } else {
      assert s == [s[0]] + s[1..] && s + t == [s[0]] + (s[1..] + t);
      UsableHead(s[0], s[1..]);
      UsableHead(s[0], s[1..] + t);
      UsableConcat(s[1..], t);
      Grouped(s[0], Usable(s[1..]), Usable(t));
    }
  }

  lemma Grouped(e: Entry, s: seq<Entry>, t: seq<Entry>)
    ensures [e] + (s + t) == [e] + s + t
  {
  }

  // The k-th usable entry is the available entry with exactly k available before it.
  lemma {:induction false} UsableIsFilter(s: seq<Entry>, i: nat)
    requires i < |s|
    ensures s[i].kind == AVAILABLE ==>
              |Usable(s[..i])| < |Usable(s)| && Usable(s)[|Usable(s[..i])|] == s[i]
    ensures |Usable(s)| <= |s| && forall k :: 0 <= k < |Usable(s)| ==> Usable(s)[k].kind == AVAILABLE && Usable(s)[k] in s
    decreases s
  {
    UsableFrom(s);
    assert s == s[..i] + s[i..];
    UsableConcat(s[..i], s[i..]);
    assert Usable(s[i..]) == (if s[i].kind == AVAILABLE then [s[i]] else []) + Usable(s[i..][1..]);
  }

  lemma {:induction false} UsableFrom(s: seq<Entry>)
    ensures |Usable(s)| <= |s|
    ensures forall k :: 0 <= k < |Usable(s)| ==> Usable(s)[k].kind == AVAILABLE && Usable(s)[k] in s
    decreases s
  {
    if s != [] {
      UsableFrom(s[1..]);
      assert forall x :: x in s[1..] ==> x in s;
    }
  }

  // The regions the map reports as available, in order.
  function Regions(mem: seq<byte>, addr: nat): seq<Entry>
    requires WellFormed(mem, addr + 8)
  {
    Usable(AllEntries(mem, addr + 8))
  }

  // ---- what is still to come, at a tag and at an entry ----

  // The usable entries from a tag on.
  ghost predicate Rest(mem: seq<byte>, tag: nat, rest: seq<Entry>) {
    WellFormed(mem, tag) && rest == Usable(AllEntries(mem, tag))
  }

  // The usable entries of one tag.
  ghost predicate Mine(mem: seq<byte>, tag: nat, mine: seq<Entry>) {
    WellFormed(mem, tag) && TagType(mem, tag) != TAG_END && mine == Usable(TagEntries(mem, tag))
  }

  // The usable entries the inner loop has still to see.
  ghost predicate Pending(mem: seq<byte>, e: nat, limit: nat, size: nat, rest: seq<Entry>) {
    EntriesFit(mem, e, limit, size) && rest == Usable(Entries(mem, e, limit, size))
  }

  lemma RestEnds(mem: seq<byte>, tag: nat, rest: seq<Entry>)
    requires Rest(mem, tag, rest) && TagType(mem, tag) == TAG_END
    ensures rest == []
  {
  }

  // The usable entries from a tag on are its own and then the later ones.
  lemma RestSplits(mem: seq<byte>, tag: nat, rest: seq<Entry>) returns (mine: seq<Entry>, later: seq<Entry>)
    requires Rest(mem, tag, rest) && TagType(mem, tag) != TAG_END
    ensures rest == mine + later && Mine(mem, tag, mine) && Rest(mem, NextTag(mem, tag), later)
    ensures tag < NextTag(mem, tag)
    ensures TagType(mem, tag) != TAG_MMAP ==> mine == []
  {
    mine, later := Usable(TagEntries(mem, tag)), Usable(AllEntries(mem, NextTag(mem, tag)));
    UsableConcat(TagEntries(mem, tag), AllEntries(mem, NextTag(mem, tag)));
  }

  lemma MineStarts(mem: seq<byte>, tag: nat, mine: seq<Entry>)
    requires Mine(mem, tag, mine) && TagType(mem, tag) == TAG_MMAP
    ensures tag + 16 <= |mem|
    ensures Pending(mem, tag + 16, tag + TagSize(mem, tag), EntrySize(mem, tag), mine)
  {
  }

  lemma PendingEnds(mem: seq<byte>, e: nat, limit: nat, size: nat, rest: seq<Entry>)
    requires Pending(mem, e, limit, size, rest) && e >= limit
    ensures rest == []
  {
  }

  lemma PendingNext(mem: seq<byte>, e: nat, limit: nat, size: nat, rest: seq<Entry>)
    requires Pending(mem, e, limit, size, rest) && e < limit
    ensures e + 24 <= |mem| && size > 0
    ensures ReadEntry(mem, e).kind == AVAILABLE ==>
              rest != [] && rest[0] == ReadEntry(mem, e) && Pending(mem, e + size, limit, size, rest[1..])
    ensures ReadEntry(mem, e).kind != AVAILABLE ==> Pending(mem, e + size, limit, size, rest)
  {
    var entry, later := ReadEntry(mem, e), Entries(mem, e + size, limit, size);
    UsableHead(entry, later);
  }

  lemma UsableHead(e: Entry, s: seq<Entry>)
    ensures Usable([e] + s) == if e.kind == AVAILABLE then [e] + Usable(s) else Usable(s)
  {
    assert ([e] + s)[1..] == s;
  }

  // ---- the first pass ----

  // count_mem_available
  method CountMemAvailable(mem: seq<byte>, addr: nat) returns (n: nat)
    requires WellFormed(mem, addr + 8)
    ensures n == |Regions(mem, addr)|
  {
    n := 0;
    var tag := addr + 8;
    ghost var rest, mine := Regions(mem, addr), [];
    ghost var total := |rest|;
    while TagType(mem, tag) != TAG_END
      invariant Rest(mem, tag, rest) && n + |rest| == total
      decreases |mem| - tag
    {
      mine, rest := RestSplits(mem, tag, rest);
      if TagType(mem, tag) == TAG_MMAP {
        n := CountTag(mem, tag, n, mine);
      }
      tag := NextTag(mem, tag);
    }
    RestEnds(mem, tag, rest);
  }

  // The inner loop of count_mem_available.
  method CountTag(mem: seq<byte>, tag: nat, n0: nat, ghost mine: seq<Entry>) returns (n: nat)
    requires Mine(mem, tag, mine) && TagType(mem, tag) == TAG_MMAP
    ensures n == n0 + |mine|
  {
    n := n0;
    MineStarts(mem, tag, mine);
    ghost var rest := mine;
    var mmap, limit, size := tag + 16, tag + TagSize(mem, tag), EntrySize(mem, tag);
    while mmap < limit
      invariant Pending(mem, mmap, limit, size, rest) && n + |rest| == n0 + |mine|
      decreases limit - mmap
    {
      PendingNext(mem, mmap, limit, size, rest);
      if ReadEntry(mem, mmap).kind == AVAILABLE {
        n := n + 1;
        rest := rest[1..];
      }
      mmap := mmap + size;
    }
    PendingEnds(mem, mmap, limit, size, rest);
  }

  // ---- the second pass ----

  // What fill_area_info writes for one entry.
  function Filled(a: MemArea, e: Entry): MemArea {
    a.(addr := AlignTo(e.addr, 8), len := e.len)
  }

  // From a to a' the entries were written, in order, from slot i on, and no other
  // slot changed.
  predicate Fills(a: seq<MemArea>, a': seq<MemArea>, i: nat, es: seq<Entry>) {
    && |a'| == |a| && i + |es| <= |a|
    && (forall k :: 0 <= k < |es| ==> a'[i + k] == Filled(a[i + k], es[k]))
    && (forall k :: 0 <= k < |a| && !(i <= k < i + |es|) ==> a'[k] == a[k])
  }

  lemma FillsOn(a: seq<MemArea>, a1: seq<MemArea>, a2: seq<MemArea>, i: nat, s: seq<Entry>, t: seq<Entry>)
    requires Fills(a, a1, i, s) && Fills(a1, a2, i + |s|, t)
    ensures Fills(a, a2, i, s + t)
  {
    var es := s + t;
    forall k | 0 <= k < |es|
      ensures a2[i + k] == Filled(a[i + k], es[k])
    {
      if k >= |s| {
        assert a2[i + |s| + (k - |s|)] == Filled(a1[i + |s| + (k - |s|)], t[k - |s|]);
      }
    }
  }

  lemma Regroup(r: seq<Entry>, s: seq<Entry>, t: seq<Entry>)
    ensures r + (s + t) == r + s + t
    ensures s == [] ==> r + s == r && s + t == t
  {
  }

  lemma FirstOff(r: seq<Entry>, s: seq<Entry>)
    requires s != []
    ensures r + s == r + [s[0]] + s[1..]
  {
  }

  // fill_area_info: writes exactly the usable entries, in order, and nothing else.
  method FillAreaInfo(mem: seq<byte>, addr: nat, areas: array<MemArea>)
    requires WellFormed(mem, addr + 8) && |Regions(mem, addr)| <= areas.Length
    modifies areas
    ensures Fills(old(areas[..]), areas[..], 0, Regions(mem, addr))
  {
    var i: nat := 0;
    var tag := addr + 8;
    ghost var was, now := areas[..], areas[..];
    ghost var all, done, rest, mine := Regions(mem, addr), [], Regions(mem, addr), [];
    while TagType(mem, tag) != TAG_END
      invariant Rest(mem, tag, rest) && all == done + rest && i == |done|
      invariant now == areas[..] && Fills(was, now, 0, done)
      decreases |mem| - tag
    {
      mine, rest := RestSplits(mem, tag, rest);
      Regroup(done, mine, rest);
      if TagType(mem, tag) == TAG_MMAP {
        i := FillTag(mem, tag, areas, i, mine);
        FillsOn(was, now, areas[..], 0, done, mine);
        now := areas[..];
      }
      done := done + mine;
      tag := NextTag(mem, tag);
    }
    RestEnds(mem, tag, rest);
    Regroup(done, [], []);
  }

  // The inner loop of fill_area_info.
  method FillTag(mem: seq<byte>, tag: nat, areas: array<MemArea>, i0: nat, ghost mine: seq<Entry>) returns (i: nat)
    requires Mine(mem, tag, mine) && TagType(mem, tag) == TAG_MMAP && i0 + |mine| <= areas.Length
    modifies areas
    ensures i == i0 + |mine| && Fills(old(areas[..]), areas[..], i0, mine)
  {
    i := i0;
    MineStarts(mem, tag, mine);
    ghost var was, now, done, rest := areas[..], areas[..], [], mine;
    var mmap, limit, size := tag + 16, tag + TagSize(mem, tag), EntrySize(mem, tag);
    while mmap < limit
      invariant Pending(mem, mmap, limit, size, rest) && mine == done + rest && i == i0 + |done|
      invariant now == areas[..] && Fills(was, now, i0, done)
      decreases limit - mmap
    {
      PendingNext(mem, mmap, limit, size, rest);
      var e := ReadEntry(mem, mmap);
      if e.kind == AVAILABLE {
        FirstOff(done, rest);
        WriteArea(areas, i, e);
        FillsOn(was, now, areas[..], i0, done, [e]);
        done, rest, now := done + [e], rest[1..], areas[..];
        i := i + 1;
      }
      mmap := mmap + size;
    }
    PendingEnds(mem, mmap, limit, size, rest);
    Regroup(done, [], []);
  }

  // kernel/kernel/multiboot.c:43-45
  method WriteArea(areas: array<MemArea>, i: nat, e: Entry)
    requires i < areas.Length
    modifies areas
    ensures Fills(old(areas[..]), areas[..], i, [e])
  {
    areas[i] := areas[i].(addr := e.addr);
    areas[i] := areas[i].(addr := AlignTo(areas[i].addr, 8));
    areas[i] := areas[i].(len := e.len);
  }

  // The address written is the next multiple of 8; the area stays inside the
  // region the boot loader reported exactly when it needed no rounding.
  lemma FilledWithin(a: MemArea, e: Entry)
    requires e.addr <= WORD - 8
    ensures Filled(a, e).addr % 8 == 0 && e.addr <= Filled(a, e).addr < e.addr + 8
    ensures Filled(a, e).addr + Filled(a, e).len <= e.addr + e.len <==> e.addr % 8 == 0
  {
    AlignTo8(e.addr);
  }

  // multiboot_parse_mmap: count, allocate, fill. The two passes agree on every
  // well-formed tag sequence, so the array is filled to its end and not beyond.
  method ParseMmap(mem: seq<byte>, addr: nat, pool: ReservedPool) returns (r: Option<array<MemArea>>)
    requires WellFormed(mem, addr + 8) && pool.Valid()
    requires |Regions(mem, addr)| * 64 < WORD
    modifies pool, pool.page
    ensures pool.Valid()
    ensures r.None? <==> |Regions(mem, addr)| * 64 > old(pool.available)
    ensures r.Some? ==> fresh(r.value) && r.value.Length == |Regions(mem, addr)|
    ensures r.Some? ==> forall k :: 0 <= k < r.value.Length ==>
              r.value[k] == Filled(MemArea(0, 0, 0, 0, 0), Regions(mem, addr)[k])
  {
    var n := CountMemAvailable(mem, addr);
    Whole(n);
    var p := pool.Alloc(n * 64);
    if p.None? {
      return None;
    }
    var areas := new MemArea[n](i => MemArea(0, 0, 0, 0, 0));
    ghost var blank := areas[..];
    FillAreaInfo(mem, addr, areas);
    ghost var all := Regions(mem, addr);
    assert forall k :: 0 <= k < n ==> areas[..][0 + k] == Filled(blank[0 + k], all[k]);
    return Some(areas);
  }

  // The size of the array needs no rounding.
  lemma Whole(n: nat)
    requires n * 64 < WORD
    ensures AlignTo(n * 64, 8) == n * 64
  {
  }
}
