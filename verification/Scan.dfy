// The search of page_alloc as written (kernel/kernel/page.c:60-74): it walks the
// lists of buddies of all memory areas in order, also of those that
// bootstrap_page_allocator passed over.

module Scan {
  import opened Blocks
  import opened Links
  import opened Frames
  import opened Pages
  import opened Bootstrap

  // How the search ends: at a NULL entry, with the entry it asks, or with none.
  datatype Scanned = NullEntry(area: nat) | Asked(entry: nat) | Nobody

  // What the search walks. The list head of an area long enough for a buddy heads
  // its list; that of any other area still holds the zeros it was allocated with.
  // No link is at NULL.
  ghost predicate Laid(link: Store, areas: seq<MemArea>, heads: seq<nat>, lists: seq<seq<nat>>, counters: map<nat, nat>) {
    && |heads| == |areas| == |lists| && 0 !in link
    && forall i :: 0 <= i < |areas| ==> HeadLaid(link, areas[i], heads[i], lists[i], counters)
  }

  ghost predicate HeadLaid(link: Store, a: MemArea, head: nat, xs: seq<nat>, counters: map<nat, nat>) {
    && head in link
    && (a.len < BUDDY_MAX_SIZE ==> link[head] == Link(0, 0))
    && (a.len >= BUDDY_MAX_SIZE ==> Ring(link, head, xs) && forall j :: 0 <= j < |xs| ==> xs[j] in counters)
  }

  // The area has a list, and no buddy on it has this many bytes available.
  ghost predicate Exhausted(a: MemArea, xs: seq<nat>, counters: map<nat, nat>, bytes: nat) {
    a.len >= BUDDY_MAX_SIZE && forall j :: 0 <= j < |xs| ==> xs[j] in counters && counters[xs[j]] < bytes
  }

  ghost predicate ExhaustedBefore(areas: seq<MemArea>, lists: seq<seq<nat>>, counters: map<nat, nat>, bytes: nat, n: nat) {
    n <= |areas| == |lists| && forall i :: 0 <= i < n ==> Exhausted(areas[i], lists[i], counters, bytes)
  }

  // Area k has no list, and the areas before it are exhausted.
  ghost predicate MeetsSkipped(areas: seq<MemArea>, lists: seq<seq<nat>>, counters: map<nat, nat>, bytes: nat, k: nat) {
    ExhaustedBefore(areas, lists, counters, bytes, k) && k < |areas| && areas[k].len < BUDDY_MAX_SIZE
  }

  // Entry j of area k is the first buddy with so many bytes available, and every
  // area up to k has a list.
  ghost predicate FirstWith(areas: seq<MemArea>, lists: seq<seq<nat>>, counters: map<nat, nat>, bytes: nat, k: nat, j: nat) {
    && ExhaustedBefore(areas, lists, counters, bytes, k) && k < |areas| && areas[k].len >= BUDDY_MAX_SIZE
    && j < |lists[k]| && lists[k][j] in counters && counters[lists[k][j]] >= bytes
    && forall i :: 0 <= i < j ==> lists[k][i] in counters && counters[lists[k][i]] < bytes
  }

  // page_alloc up to buddy_alloc. It takes NULL for a buddy exactly when it comes
  // to an area without a list: when some area is too short for a buddy and every
  // area before it is exhausted.
  method FindBuddy(link: Store, areas: seq<MemArea>, heads: seq<nat>, counters: map<nat, nat>, bytes: nat,
                   ghost lists: seq<seq<nat>>) returns (r: Scanned)
    requires Laid(link, areas, heads, lists, counters)
    ensures r.NullEntry? ==> MeetsSkipped(areas, lists, counters, bytes, r.area)
    ensures r.NullEntry? <==> exists k: nat :: MeetsSkipped(areas, lists, counters, bytes, k)
    ensures r.Asked? ==> exists k: nat, j: nat :: FirstWith(areas, lists, counters, bytes, k, j) && r.entry == lists[k][j]
    ensures r.Nobody? <==> ExhaustedBefore(areas, lists, counters, bytes, |areas|)
  {
    var i: nat := 0;
    while i < |areas|
      invariant i <= |areas| && ExhaustedBefore(areas, lists, counters, bytes, i)
    {
      r := WalkList(link, heads[i], counters, bytes, i, areas[i], lists[i]);
      if r.NullEntry? {
        assert MeetsSkipped(areas, lists, counters, bytes, i);
        return;
      }
      if r.Asked? {
        ghost var j :| 0 <= j < |lists[i]| && IsFirst(lists[i], counters, bytes, j, r.entry);
        assert FirstWith(areas, lists, counters, bytes, i, j);
        return;
      }
      i := i + 1;
    }
    r := Nobody;
  }

  ghost predicate IsFirst(xs: seq<nat>, counters: map<nat, nat>, bytes: nat, j: nat, entry: nat) {
    && j < |xs| && xs[j] == entry && entry in counters && counters[entry] >= bytes
    && forall i :: 0 <= i < j ==> xs[i] in counters && counters[xs[i]] < bytes
  }

  // list_for_each over the list of one area.
  method WalkList(link: Store, head: nat, counters: map<nat, nat>, bytes: nat, area: nat, ghost a: MemArea, ghost xs: seq<nat>)
    returns (r: Scanned)
    requires 0 !in link && HeadLaid(link, a, head, xs, counters)
    ensures r.NullEntry? <==> a.len < BUDDY_MAX_SIZE
    ensures r.NullEntry? ==> r.area == area
    ensures r.Asked? ==> a.len >= BUDDY_MAX_SIZE && exists j :: 0 <= j < |xs| && IsFirst(xs, counters, bytes, j, r.entry)
    ensures r.Nobody? <==> Exhausted(a, xs, counters, bytes)
  {
    var cursor := link[head].next;
    ghost var j: nat := 0;
    if a.len >= BUDDY_MAX_SIZE {
      RingNext(link, head, xs, 0);
    }
    while cursor != head
      invariant a.len < BUDDY_MAX_SIZE ==> cursor == 0
      invariant a.len >= BUDDY_MAX_SIZE ==>
                  && j <= |xs| && cursor == At(head, xs, j + 1)
                  && forall i :: 0 <= i < j ==> counters[xs[i]] < bytes
      decreases |xs| - j
    {
      if cursor == 0 {
        if a.len >= BUDDY_MAX_SIZE {
          RingNext(link, head, xs, j);
        }
        return NullEntry(area);
      }
      RingNext(link, head, xs, j);
      if counters[cursor] < bytes {
        RingNext(link, head, xs, j + 1);
        cursor := link[cursor].next;
        j := j + 1;
        continue;
      }
      assert IsFirst(xs, counters, bytes, j, cursor);
      return Asked(cursor);
    }
    r := Nobody;
  }

  lemma RingNext(m: Store, head: nat, xs: seq<nat>, j: nat)
    requires Ring(m, head, xs) && j <= |xs|
    ensures At(head, xs, j) in m && m[At(head, xs, j)].next == At(head, xs, j + 1) && At(head, xs, j + 1) in m
    ensures At(head, xs, j + 1) == head <==> j == |xs|
    ensures j < |xs| ==> At(head, xs, j + 1) == xs[j]
  {
    if j < |xs| {
      assert xs[j] in xs;
    }
  }

  // Where it meets no area without a list, the search asks the buddy that
  // PageAlloc asks, with one buddy per area in the order of the areas.
  lemma SearchIsPageAlloc(areas: seq<MemArea>, lists: seq<seq<nat>>, counters: map<nat, nat>, bytes: nat, at: seq<nat>, c: seq<nat>,
                          k: nat, j: nat) returns (p: nat)
    requires |lists| == |areas| && Listed(areas, |areas|, at) && |c| == |at|
    requires forall i :: 0 <= i < |at| ==> at[i] < |areas| && |lists[at[i]]| == 1 && lists[at[i]][0] in counters
                                           && c[i] == counters[lists[at[i]][0]]
    requires FirstWith(areas, lists, counters, bytes, k, j)
    ensures p < |at| && at[p] == k && j == 0 && FirstAble(c, bytes, p)
  {
    ListedIs(areas, |areas|, at);
    assert k in at;
    p := IndexOf(at, k);
    forall i | 0 <= i < p
      ensures c[i] < bytes
    {
      assert at[i] < at[p];
      assert Exhausted(areas[at[i]], lists[at[i]], counters, bytes);
    }
  }

  // Two areas, the first of 256 KiB: whatever is asked for, the search takes NULL
  // for a buddy, although the second area has 512 KiB to give.
  lemma ShortFirstArea() returns (link: Store, areas: seq<MemArea>, heads: seq<nat>, lists: seq<seq<nat>>, counters: map<nat, nat>)
    ensures Laid(link, areas, heads, lists, counters)
    ensures |areas| == 2 && areas[1].len >= BUDDY_MAX_SIZE && |lists[1]| == 1 && counters[lists[1][0]] == BUDDY_MAX_SIZE
    ensures forall bytes :: MeetsSkipped(areas, lists, counters, bytes, 0)
  {
    areas := [MemArea(0x1000, 0x4_0000, 0, 0, 0), MemArea(0x10_0000, 0x80_0000, 0, 0, 0)];
    heads, lists := [8, 24], [[], [40]];
    link, counters := map[8 := Link(0, 0), 24 := Link(40, 40), 40 := Link(24, 24)], map[40 := BUDDY_MAX_SIZE];
    assert Ring(link, 24, [40]);
  }
}
