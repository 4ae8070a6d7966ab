// The Multiboot2 information block as a boot loader writes it (Multiboot2
// Specification, sections 3.6.1, 3.6.2 and 3.6.8), and the proof that the parser
// of Multiboot reads back the regions that were written.

module Encoding {
  import opened Words
  import opened Frames
  import opened Reserved
  import opened Multiboot

  // A memory region and its type; 1 is memory available to the kernel.
  datatype Region = Region(base: nat, length: nat, kind: nat)

  // A memory map whose entries are followed by `extra` reserved bytes each, or a
  // tag of another type.
  datatype Tag =
    | MemoryMap(version: nat, extra: nat, regions: seq<Region>)
    | OtherTag(kind: nat, payload: seq<byte>)

  // ---- writing ----

  // A number in n bytes, lowest digit first.
  function Bytes(v: nat, n: nat): (s: seq<byte>)
    ensures |s| == n
  {
    if n == 0 then [] else [(v % 256) as byte] + Bytes(v / 256, n - 1)
  }

  function Word32(v: nat): (s: seq<byte>)
    ensures |s| == 4
  {
    Bytes(v, 4)
  }

  function Word64(v: nat): (s: seq<byte>)
    ensures |s| == 8
  {
    Bytes(v, 8)
  }

  function RegionBytes(e: Region, extra: nat): (s: seq<byte>)
    ensures |s| == 24 + extra
  {
    Word64(e.base) + (Word64(e.length) + (Word32(e.kind) + Bytes(0, 4 + extra)))
  }

  function MapBytes(es: seq<Region>, extra: nat): seq<byte> {
    if es == [] then [] else RegionBytes(es[0], extra) + MapBytes(es[1..], extra)
  }

  function Body(tag: Tag): seq<byte> {
    match tag
    case MemoryMap(version, extra, regions) => Word32(24 + extra) + (Word32(version) + MapBytes(regions, extra))
    case OtherTag(_, payload) => payload
  }

  function TypeOf(tag: Tag): nat {
    match tag
    case MemoryMap(_, _, _) => 6
    case OtherTag(kind, _) => kind
  }

  // The bytes after a tag of this size, up to the next multiple of 8.
  function Padding(size: nat): nat {
    (8 - size % 8) % 8
  }

  function TagBytes(tag: Tag): seq<byte> {
    Word32(TypeOf(tag)) + (Word32(8 + |Body(tag)|) + (Body(tag) + Bytes(0, Padding(8 + |Body(tag)|))))
  }

  // The tags, and the tag that ends them.
  function Encode(tags: seq<Tag>): seq<byte> {
    if tags == [] then Word32(0) + Word32(8) else TagBytes(tags[0]) + Encode(tags[1..])
  }

  // Every number fits its field, and the other tags are neither memory maps nor ends.
  predicate Writable(tag: Tag) {
    && 8 + |Body(tag)| < 0x1_0000_0000 - 7
    && match tag
       case MemoryMap(version, extra, regions) =>
         24 + extra < 0x1_0000_0000 && version < 0x1_0000_0000
         && forall i :: 0 <= i < |regions| ==> RegionFits(regions[i])
       case OtherTag(kind, _) => kind < 0x1_0000_0000 && kind != 0 && kind != 6
  }

  predicate RegionFits(e: Region) {
    e.base < WORD && e.length < WORD && e.kind < 0x1_0000_0000
  }

  // What was written about available memory, in order.
  function Available(es: seq<Region>): seq<Region> {
    if es == [] then []
    else if es[0].kind == 1 then [es[0]] + Available(es[1..])
    else Available(es[1..])
  }

  function RegionsOf(tag: Tag): seq<Region> {
    match tag
    case MemoryMap(_, _, regions) => regions
    case OtherTag(_, _) => []
  }

  function AllRegions(tags: seq<Tag>): seq<Region> {
    if tags == [] then [] else RegionsOf(tags[0]) + AllRegions(tags[1..])
  }

  // ---- reading back ----

  // These bytes are in memory from `off` on.
  ghost predicate Sits(mem: seq<byte>, off: nat, s: seq<byte>) {
    off + |s| <= |mem| && forall i :: 0 <= i < |s| ==> mem[off + i] == s[i]
  }

  lemma SitsBoth(mem: seq<byte>, off: nat, s: seq<byte>, t: seq<byte>)
    requires Sits(mem, off, s + t)
    ensures Sits(mem, off, s) && Sits(mem, off + |s|, t)
  {
    forall i | 0 <= i < |s|
      ensures mem[off + i] == s[i]
    {
      assert (s + t)[i] == s[i];
    }
    forall i | 0 <= i < |t|
      ensures mem[off + |s| + i] == t[i]
    {
      assert (s + t)[|s| + i] == t[i];
      assert mem[off + (|s| + i)] == (s + t)[|s| + i];
    }
  }

  // A number at the start of what is in memory is read, and the rest follows it.
  lemma Field32(mem: seq<byte>, off: nat, v: nat, rest: seq<byte>)
    requires Sits(mem, off, Word32(v) + rest) && v < 0x1_0000_0000
    ensures off + 4 <= |mem| && U32(mem, off) == v && Sits(mem, off + 4, rest)
  {
    SitsBoth(mem, off, Word32(v), rest);
    Read32(mem, off, v);
  }

  lemma Field64(mem: seq<byte>, off: nat, v: nat, rest: seq<byte>)
    requires Sits(mem, off, Word64(v) + rest) && v < WORD
    ensures off + 8 <= |mem| && U64(mem, off) == v && Sits(mem, off + 8, rest)
  {
    SitsBoth(mem, off, Word64(v), rest);
    Read64(mem, off, v);
  }

  lemma Read32(mem: seq<byte>, off: nat, v: nat)
    requires Sits(mem, off, Bytes(v, 4))
    ensures U32(mem, off) == v % 0x1_0000_0000
  {
    var v1 := v / 256;
    var v2 := v1 / 256;
    var v3 := v2 / 256;
    var s := Bytes(v, 4);
    FourDigits(v, v1, v2, v3, v3 / 256, 0);
    assert mem[off + 0] == s[0] && mem[off + 1] == s[1] && mem[off + 2] == s[2] && mem[off + 3] == s[3];
    FourBytes(v, v1, v2, v3);
  }

  lemma OneDigit(v: nat, v1: nat, n: nat)
    requires v1 == v / 256
    ensures Bytes(v, n + 1) == [(v % 256) as byte] + Bytes(v1, n)
  {
  }

  lemma FourDigits(v: nat, v1: nat, v2: nat, v3: nat, v4: nat, n: nat)
    requires v1 == v / 256 && v2 == v1 / 256 && v3 == v2 / 256 && v4 == v3 / 256
    ensures Bytes(v, n + 4) == [(v % 256) as byte, (v1 % 256) as byte, (v2 % 256) as byte, (v3 % 256) as byte] + Bytes(v4, n)
  {
    OneDigit(v, v1, n + 3);
    OneDigit(v1, v2, n + 2);
    OneDigit(v2, v3, n + 1);
    OneDigit(v3, v4, n);
  }

  lemma FourBytes(v: nat, v1: nat, v2: nat, v3: nat)
    requires v1 == v / 256 && v2 == v1 / 256 && v3 == v2 / 256
    ensures v % 256 + 0x100 * (v1 % 256) + 0x1_0000 * (v2 % 256) + 0x100_0000 * (v3 % 256) == v % 0x1_0000_0000
  {
    var q := v3 / 256;
    assert v == 0x1_0000_0000 * q + (v % 256 + 0x100 * (v1 % 256) + 0x1_0000 * (v2 % 256) + 0x100_0000 * (v3 % 256));
    DivUnique(v, 0x1_0000_0000, q, v % 256 + 0x100 * (v1 % 256) + 0x1_0000 * (v2 % 256) + 0x100_0000 * (v3 % 256));
  }

  lemma Read64(mem: seq<byte>, off: nat, v: nat)
    requires Sits(mem, off, Bytes(v, 8)) && v < WORD
    ensures U64(mem, off) == v
  {
    var v1 := v / 256;
    var v2 := v1 / 256;
    var v3 := v2 / 256;
    var high := v3 / 256;
    EightDigits(v, v1, v2, v3, high);
    SitsBoth(mem, off, Bytes(v, 4), Bytes(high, 4));
    Read32(mem, off, v);
    Read32(mem, off + 4, high);
    Halves(v, v1, v2, v3, high);
  }

  lemma EightDigits(v: nat, v1: nat, v2: nat, v3: nat, high: nat)
    requires v1 == v / 256 && v2 == v1 / 256 && v3 == v2 / 256 && high == v3 / 256
    ensures Bytes(v, 8) == Bytes(v, 4) + Bytes(high, 4)
  {
    FourDigits(v, v1, v2, v3, high, 0);
    FourDigits(v, v1, v2, v3, high, 4);
  }

  lemma Halves(v: nat, v1: nat, v2: nat, v3: nat, high: nat)
    requires v1 == v / 256 && v2 == v1 / 256 && v3 == v2 / 256 && high == v3 / 256 && v < WORD
    ensures v % 0x1_0000_0000 + 0x1_0000_0000 * high == v && high < 0x1_0000_0000
    ensures high % 0x1_0000_0000 == high
  {
    FourBytes(v, v1, v2, v3);
    assert v == 0x1_0000_0000 * high + v % 0x1_0000_0000;
  }

  // An entry is read as the region written.
  lemma RegionReads(mem: seq<byte>, e: nat, r: Region, extra: nat)
    requires Sits(mem, e, RegionBytes(r, extra)) && RegionFits(r)
    ensures e + 24 <= |mem| && ReadEntry(mem, e) == Entry(r.base, r.length, r.kind)
  {
    Field64(mem, e, r.base, Word64(r.length) + (Word32(r.kind) + Bytes(0, 4 + extra)));
    Field64(mem, e + 8, r.length, Word32(r.kind) + Bytes(0, 4 + extra));
    Field32(mem, e + 16, r.kind, Bytes(0, 4 + extra));
  }

  // The entries read are the regions written.
  ghost predicate Same(xs: seq<Entry>, rs: seq<Region>) {
    |xs| == |rs| && forall k :: 0 <= k < |xs| ==> xs[k].addr == rs[k].base && xs[k].len == rs[k].length && xs[k].kind == rs[k].kind
  }

  lemma SameBoth(xs: seq<Entry>, ys: seq<Entry>, rs: seq<Region>, ss: seq<Region>)
    requires Same(xs, rs) && Same(ys, ss)
    ensures Same(xs + ys, rs + ss)
  {
  }

  lemma {:induction false} SameUsable(xs: seq<Entry>, rs: seq<Region>)
    requires Same(xs, rs)
    ensures Same(Usable(xs), Available(rs))
    decreases |xs|
  {
    if xs != [] {
      assert Same([xs[0]], [rs[0]]);
      SameUsable(xs[1..], rs[1..]);
      if rs[0].kind == 1 {
        SameBoth([xs[0]], Usable(xs[1..]), [rs[0]], Available(rs[1..]));
      }
    }
  }

  // The entries of a memory map, up to `limit`.
  ghost predicate MapSits(mem: seq<byte>, e: nat, rs: seq<Region>, extra: nat, limit: nat) {
    && Sits(mem, e, MapBytes(rs, extra)) && limit == e + |MapBytes(rs, extra)|
    && forall i :: 0 <= i < |rs| ==> RegionFits(rs[i])
  }

  lemma MapNext(mem: seq<byte>, e: nat, rs: seq<Region>, extra: nat, limit: nat)
    requires MapSits(mem, e, rs, extra, limit)
    ensures rs == [] <==> e == limit
    ensures rs != [] ==> e < limit && Sits(mem, e, RegionBytes(rs[0], extra)) && MapSits(mem, e + 24 + extra, rs[1..], extra, limit)
  {
    if rs != [] {
      SitsBoth(mem, e, RegionBytes(rs[0], extra), MapBytes(rs[1..], extra));
    }
  }

  lemma {:induction false} MapReads(mem: seq<byte>, e: nat, rs: seq<Region>, extra: nat, limit: nat, size: nat)
    requires MapSits(mem, e, rs, extra, limit) && size == 24 + extra
    ensures EntriesFit(mem, e, limit, size) && Same(Entries(mem, e, limit, size), rs)
    decreases |rs|
  {
    MapNext(mem, e, rs, extra, limit);
    if rs != [] {
      RegionReads(mem, e, rs[0], extra);
      MapReads(mem, e + size, rs[1..], extra, limit, size);
      SameBoth([ReadEntry(mem, e)], Entries(mem, e + size, limit, size), [rs[0]], rs[1..]);
      assert rs == [rs[0]] + rs[1..];
    }
  }

  // A tag is read with the type, the size and the end written.
  lemma TagReads(mem: seq<byte>, off: nat, tag: Tag)
    requires Sits(mem, off, TagBytes(tag)) && Writable(tag)
    ensures off + 8 <= |mem| && TagType(mem, off) == TypeOf(tag) && TagSize(mem, off) == 8 + |Body(tag)|
    ensures NextTag(mem, off) == off + |TagBytes(tag)| > off
    ensures Sits(mem, off + 8, Body(tag))
  {
    var size := 8 + |Body(tag)|;
    var pad := Bytes(0, Padding(size));
    Field32(mem, off, TypeOf(tag), Word32(size) + (Body(tag) + pad));
    Field32(mem, off + 4, size, Body(tag) + pad);
    SitsBoth(mem, off + 8, Body(tag), pad);
    Padded(size);
  }

  lemma Padded(size: nat)
    requires size < 0x1_0000_0000 - 7
    ensures (size + 7) % 0x1_0000_0000 / 8 * 8 == size + Padding(size)
  {
  }

  lemma MapTagReads(mem: seq<byte>, off: nat, tag: Tag, limit: nat)
    requires tag.MemoryMap? && Writable(tag) && Sits(mem, off + 8, Body(tag)) && limit == off + 8 + |Body(tag)|
    ensures off + 16 <= |mem| && EntrySize(mem, off) == 24 + tag.extra
    ensures MapSits(mem, off + 16, tag.regions, tag.extra, limit)
  {
    var entries := MapBytes(tag.regions, tag.extra);
    Field32(mem, off + 8, 24 + tag.extra, Word32(tag.version) + entries);
    SitsBoth(mem, off + 12, Word32(tag.version), entries);
  }

  // Whatever tags were written, the sequence is well formed, and its entries are
  // the regions of its memory maps, in order.
  lemma {:induction false} TagsRead(mem: seq<byte>, off: nat, tags: seq<Tag>)
    requires Sits(mem, off, Encode(tags)) && forall i :: 0 <= i < |tags| ==> Writable(tags[i])
    ensures WellFormed(mem, off) && Same(AllEntries(mem, off), AllRegions(tags))
    decreases |tags|
  {
    if tags == [] {
      Field32(mem, off, 0, Word32(8));
    } else {
      SitsBoth(mem, off, TagBytes(tags[0]), Encode(tags[1..]));
      TagsRead(mem, off + |TagBytes(tags[0])|, tags[1..]);
      OneTagReads(mem, off, tags[0]);
      SameBoth(TagEntries(mem, off), AllEntries(mem, NextTag(mem, off)), RegionsOf(tags[0]), AllRegions(tags[1..]));
    }
  }

  lemma OneTagReads(mem: seq<byte>, off: nat, tag: Tag)
    requires Sits(mem, off, TagBytes(tag)) && Writable(tag) && WellFormed(mem, off + |TagBytes(tag)|)
    ensures WellFormed(mem, off) && TagType(mem, off) != TAG_END && NextTag(mem, off) == off + |TagBytes(tag)|
    ensures Same(TagEntries(mem, off), RegionsOf(tag))
  {
    TagReads(mem, off, tag);
    if tag.MemoryMap? {
      var limit, size := off + TagSize(mem, off), 24 + tag.extra;
      MapTagReads(mem, off, tag, limit);
      MapReads(mem, off + 16, tag.regions, tag.extra, limit, size);
      TagEntriesAre(mem, off, limit, size);
    }
  }

  lemma TagEntriesAre(mem: seq<byte>, off: nat, limit: nat, size: nat)
    requires off + 16 <= |mem| && TagType(mem, off) == 6 && EntriesFit(mem, off + 16, limit, size)
    requires limit == off + TagSize(mem, off) && size == EntrySize(mem, off)
    requires off < NextTag(mem, off) && WellFormed(mem, NextTag(mem, off))
    ensures WellFormed(mem, off) && TagEntries(mem, off) == Entries(mem, off + 16, limit, size)
  {
  }

  // The regions the parser finds in the information block at `addr` are the
  // available ones written there, in order, with their addresses and lengths.
  lemma RegionsRead(mem: seq<byte>, addr: nat, tags: seq<Tag>)
    requires Sits(mem, addr + 8, Encode(tags)) && forall i :: 0 <= i < |tags| ==> Writable(tags[i])
    ensures WellFormed(mem, addr + 8) && Same(Regions(mem, addr), Available(AllRegions(tags)))
  {
    TagsRead(mem, addr + 8, tags);
    SameUsable(AllEntries(mem, addr + 8), AllRegions(tags));
  }

  // So area k of the array the parser fills starts at the k-th available region
  // written, rounded up to 8, and has its length.
  lemma AreaRead(mem: seq<byte>, addr: nat, tags: seq<Tag>, a: MemArea, k: nat)
    requires Sits(mem, addr + 8, Encode(tags)) && forall i :: 0 <= i < |tags| ==> Writable(tags[i])
    requires k < |Available(AllRegions(tags))| && Available(AllRegions(tags))[k].base <= WORD - 8
    ensures WellFormed(mem, addr + 8) && k < |Regions(mem, addr)|
    ensures
      var (area, region) := (Filled(a, Regions(mem, addr)[k]), Available(AllRegions(tags))[k]);
      area.addr % 8 == 0 && region.base <= area.addr < region.base + 8 && area.len == region.length
  {
    RegionsRead(mem, addr, tags);
    AlignTo8(Regions(mem, addr)[k].addr);
  }
}
