// The memory image of a buddy area: tree bytes, list links and page descriptors,
// and what it means for an image to represent an abstract state.

module Image {
  import opened Words
  import opened Nodes
  import opened Blocks
  import opened Canonical
  import opened Links
  import opened BitTree
  import opened Frames

  const LIST_SIZE: nat := 16

  // Where an area and its list heads are, and the memory map around it.
  datatype Layout = Layout(g: Geometry, freelist: nat, areas: seq<MemArea>, area: nat) {
    function Order(): nat
      requires PGSHIFT <= g.logMax
    {
      g.logMax - PGSHIFT
    }

    function Nodes(): nat
      requires PGSHIFT <= g.logMax
    {
      NodeCount(Order())
    }

    // &b->freelist[k]
    function Head(k: nat): nat {
      freelist + LIST_SIZE * k
    }

    ghost predicate IsHead(a: nat)
      requires PGSHIFT <= g.logMax
    {
      exists k: nat :: k <= Order() && a == Head(k)
    }

    ghost predicate Valid() {
      && g.Valid()
      && (freelist + LIST_SIZE * (Order() + 1) <= g.base || g.base + Pow2(g.logMax) <= freelist)
      && Owns(areas, area, g.base, Pow2(g.logMax))
    }

    // The start address of a node's block.
    function Addr(n: nat): nat
      requires PGSHIFT <= g.logMax && n < Nodes()
    {
      DepthInTree(Order(), n);
      Start(g, n)
    }

    function Addrs(ns: seq<nat>): (r: seq<nat>)
      requires PGSHIFT <= g.logMax && forall i :: 0 <= i < |ns| ==> ns[i] < Nodes()
      ensures |r| == |ns| && forall i :: 0 <= i < |ns| ==> r[i] == Addr(ns[i])
    {
      seq(|ns|, i requires 0 <= i < |ns| => Addr(ns[i]))
    }
  }

  datatype Image = Image(tree: seq<bv8>, link: Store, pages: map<Frame, Page>)

  // The part of an image every operation may rely on whatever the lists hold:
  // the arrays are as large as buddy_area_init made them, and the list heads and
  // the first bytes of every block can hold links.
  ghost predicate Mapped(l: Layout, m: Image) {
    && l.Valid()
    && |m.tree| == Pow2(l.Order() + 1)
    && (forall n :: 0 <= n < l.Nodes() ==> l.Addr(n) in m.link)
    && (forall k :: 0 <= k <= l.Order() ==> l.Head(k) in m.link && m.link[l.Head(k)].prev in m.link)
    && (forall i :: 0 <= i < l.areas[l.area].mapSize ==> Frame(l.area, i) in m.pages)
  }

  ghost predicate BitsRep(l: Layout, tree: seq<bv8>, t: Tree)
    requires PGSHIFT <= l.g.logMax
  {
    forall n :: 0 <= n < l.Nodes() ==> n / 8 < |tree| && Bit(tree, n) == BitOf(t, n)
  }

  ghost predicate Ranged(l: Layout, rings: seq<seq<nat>>)
    requires PGSHIFT <= l.g.logMax
  {
    forall k, i :: 0 <= k < |rings| && 0 <= i < |rings[k]| ==> rings[k][i] < l.Nodes()
  }

  ghost predicate RingsRep(l: Layout, link: Store, rings: seq<seq<nat>>)
    requires PGSHIFT <= l.g.logMax
  {
    Ranged(l, rings) && forall k :: 0 <= k < |rings| ==> Ring(link, l.Head(k), l.Addrs(rings[k]))
  }

  // The image represents the abstract state.
  ghost predicate Rep(l: Layout, m: Image, s: State) {
    && Mapped(l, m)
    && Ok(s, l.Order())
    && BitsRep(l, m.tree, s.t)
    && RingsRep(l, m.link, s.rings)
  }

  // The descriptor of each of these blocks holds the block's bucket.
  ghost predicate Tagged(l: Layout, pages: map<Frame, Page>, live: set<nat>)
    requires PGSHIFT <= l.g.logMax
  {
    forall n :: n in live && n < l.Nodes() ==>
      var f := FrameOf(l.areas, l.Addr(n));
      f.Some? && f.value in pages && pages[f.value].order == Depth(n)
  }

  // ---- addresses ----

  lemma AddrInArea(l: Layout, n: nat)
    requires l.Valid() && n < l.Nodes()
    ensures Depth(n) <= l.Order()
    ensures l.g.base <= l.Addr(n) < End(l.g, n) <= l.g.base + Pow2(l.g.logMax)
    ensures Pow2(Depth(n)) <= n + 1 && l.Addr(n) == Node2Ptr(l.g, n, Depth(n))
    ensures FrameOf(l.areas, l.Addr(n)).Some?
    ensures FrameOf(l.areas, l.Addr(n)).value ==
            Frame(l.area, Pfn(l.Addr(n)) - Pfn(l.areas[l.area].addr))
    ensures 0 <= Pfn(l.Addr(n)) - Pfn(l.areas[l.area].addr) < l.areas[l.area].mapSize
  {
    DepthInTree(l.Order(), n);
    DepthBounds(n);
    WithinArea(l.g, n);
    OwnedFrame(l.areas, l.area, l.g.base, Pow2(l.g.logMax), l.Addr(n));
  }

  lemma HeadNotAddr(l: Layout, k: nat, n: nat)
    requires l.Valid() && k <= l.Order() && n < l.Nodes()
    ensures l.Head(k) != l.Addr(n)
  {
    AddrInArea(l, n);
  }

  // Different blocks start at different addresses, although every node shares its
  // start with its leftmost descendants; and their descriptors differ too.
  lemma BlocksApart(l: Layout, t: Tree, m: nat, n: nat)
    requires l.Valid() && TreeOk(t, l.Order()) && IsBlock(t, m) && IsBlock(t, n) && m != n
    ensures l.Addr(m) != l.Addr(n)
    ensures FrameOf(l.areas, l.Addr(m)) != FrameOf(l.areas, l.Addr(n))
  {
    AddrInArea(l, m);
    AddrInArea(l, n);
    BlocksDisjoint(l.g, t, l.Order(), m, n);
    if l.Addr(m) < l.Addr(n) {
      BlockSpansPage(l, m);
      FarApart(l.Addr(m), l.Addr(n));
    } else {
      BlockSpansPage(l, n);
      FarApart(l.Addr(n), l.Addr(m));
    }
  }

  lemma BlockSpansPage(l: Layout, n: nat)
    requires l.Valid() && n < l.Nodes()
    ensures Depth(n) <= l.g.logMax && l.Addr(n) + PGSIZE <= End(l.g, n)
  {
    DepthInTree(l.Order(), n);
    assert Pow2(8) == 256 && Pow2(12) == 16 * Pow2(8);
    Pow2Monotone(PGSHIFT, l.g.logMax - Depth(n));
  }

  // Two nodes of one bucket that start together are the same node.
  lemma SameStart(l: Layout, m: nat, n: nat)
    requires l.Valid() && m < l.Nodes() && n < l.Nodes() && Depth(m) == Depth(n) && l.Addr(m) == l.Addr(n)
    ensures m == n
  {
    AddrInArea(l, m);
    AddrInArea(l, n);
    if m < n {
      SameBucketDisjoint(l.g, m, n);
    } else if n < m {
      SameBucketDisjoint(l.g, n, m);
    }
  }

  // ---- lists ----

  // What it takes for the rings to stay apart from each other and from `extra`.
  ghost predicate Apart(l: Layout, rings: seq<seq<nat>>)
    requires PGSHIFT <= l.g.logMax && Ranged(l, rings)
  {
    forall j, k, a, b ::
      0 <= j < |rings| && 0 <= k < |rings| && 0 <= a < |rings[j]| && 0 <= b < |rings[k]|
      && (j != k || a != b) ==>
        l.Addr(rings[j][a]) != l.Addr(rings[k][b])
  }

  lemma OkApart(l: Layout, s: State)
    requires l.Valid() && Ok(s, l.Order())
    ensures Ranged(l, s.rings) && Apart(l, s.rings)
  {
    var rings := s.rings;
    assert forall k :: 0 <= k < |rings| ==> RingOk(s.t, rings[k], k);
    forall j, k, a, b |
      0 <= j < |rings| && 0 <= k < |rings| && 0 <= a < |rings[j]| && 0 <= b < |rings[k]|
      && (j != k || a != b)
      ensures l.Addr(rings[j][a]) != l.Addr(rings[k][b])
    {
      BlocksApart(l, s.t, rings[j][a], rings[k][b]);
    }
  }

  // The node that a list entry of the same bucket starts with is that entry.
  lemma StillFree(l: Layout, s: State, k: nat, i: nat, x: nat)
    requires l.Valid() && Ok(s, l.Order()) && Ranged(l, s.rings)
    requires k <= l.Order() && i < |s.rings[k]| && x < l.Nodes() && Depth(x) == k
    requires l.Addr(s.rings[k][i]) == l.Addr(x)
    ensures s.t[x] == Free
  {
    assert RingOk(s.t, s.rings[k], k);
    SameStart(l, s.rings[k][i], x);
  }

  lemma AddrsOf(l: Layout, ns: seq<nat>, x: nat)
    requires l.Valid() && x < l.Nodes()
    requires forall i :: 0 <= i < |ns| ==> ns[i] < l.Nodes()
    ensures l.Addrs(ns + [x]) == l.Addrs(ns) + [l.Addr(x)]
  {
  }

  lemma HeadApart(l: Layout, ns: seq<nat>, k: nat)
    requires l.Valid() && k <= l.Order()
    requires forall i :: 0 <= i < |ns| ==> ns[i] < l.Nodes()
    ensures l.Head(k) !in l.Addrs(ns)
  {
    forall i | 0 <= i < |ns|
      ensures l.Addrs(ns)[i] != l.Head(k)
    {
      HeadNotAddr(l, k, ns[i]);
    }
  }

  // Pushing a block whose address is on no list appends it to list k and leaves
  // the other lists as they were.
  lemma PushRep(l: Layout, link: Store, rings: seq<seq<nat>>, k: nat, x: nat)
    requires l.Valid() && |rings| == l.Order() + 1 && k < |rings| && x < l.Nodes()
    requires RingsRep(l, link, rings) && l.Addr(x) in link
    requires var rings' := rings[k := rings[k] + [x]]; Ranged(l, rings') && Apart(l, rings')
    ensures link[l.Head(k)].prev in link
    ensures RingsRep(l, PushedBack(link, l.Head(k), l.Addr(x)), rings[k := rings[k] + [x]])
    ensures PushedBack(link, l.Head(k), l.Addr(x)).Keys == link.Keys
    ensures forall a :: a in link && a != l.Head(k) && a !in l.Addrs(rings[k]) && a != l.Addr(x) ==>
              PushedBack(link, l.Head(k), l.Addr(x))[a] == link[a]
  {
    var rings' := rings[k := rings[k] + [x]];
    var a := l.Addr(x);
    var xs := l.Addrs(rings[k]);
    assert rings'[k][|rings[k]|] == x;
    assert forall i :: 0 <= i < |rings[k]| ==> rings'[k][i] == rings[k][i];
    HeadNotAddr(l, k, x);
    assert a !in xs;
    PushBackRing(link, l.Head(k), xs, a);
    var link' := PushedBack(link, l.Head(k), a);
    forall j | 0 <= j < |rings'|
      ensures Ring(link', l.Head(j), l.Addrs(rings'[j]))
    {
      if j == k {
        AddrsOf(l, rings[k], x);
      } else {
        HeadApart(l, rings'[k], j);
        assert a in l.Addrs(rings'[k]) by { assert l.Addrs(rings'[k])[|rings[k]|] == a; }
        assert forall i :: 0 <= i < |xs| ==> l.Addrs(rings'[k])[i] == xs[i];
        assert l.Head(j) !in xs && l.Head(j) != a;
        OtherRing(l, rings', j, k);
        HeadApart(l, rings[j], k);
        RingFrame(link, link', l.Head(j), l.Addrs(rings[j]));
      }
    }
  }

  // Entries of different rings have different addresses.
  lemma OtherRing(l: Layout, rings: seq<seq<nat>>, j: nat, k: nat)
    requires l.Valid() && Ranged(l, rings) && Apart(l, rings) && j < |rings| && k < |rings| && j != k
    ensures forall i, e :: 0 <= i < |rings[j]| && 0 <= e < |rings[k]| ==>
              l.Addrs(rings[j])[i] != l.Addrs(rings[k])[e]
    ensures forall i :: 0 <= i < |rings[j]| ==> l.Addrs(rings[j])[i] !in l.Addrs(rings[k])
  {
    forall i, e | 0 <= i < |rings[j]| && 0 <= e < |rings[k]|
      ensures l.Addrs(rings[j])[i] != l.Addrs(rings[k])[e]
    {
      assert l.Addr(rings[j][i]) != l.Addr(rings[k][e]);
    }
  }

  // Taking a block out of list k, wherever it is in it, closes the gap and leaves
  // the other lists as they were.
  lemma RemoveRep(l: Layout, link: Store, rings: seq<seq<nat>>, k: nat, x: nat)
    requires l.Valid() && |rings| == l.Order() + 1 && k < |rings|
    requires RingsRep(l, link, rings) && Apart(l, rings) && x in rings[k] && NoDuplicates(rings[k])
    ensures x < l.Nodes()
    ensures l.Addr(x) in link && link[l.Addr(x)].prev in link && link[l.Addr(x)].next in link
    ensures RingsRep(l, Cleared(link, l.Addr(x)), rings[k := Without(rings[k], x)])
    ensures Cleared(link, l.Addr(x)).Keys == link.Keys
    ensures forall a :: a in link && a != l.Head(k) && a !in l.Addrs(rings[k]) ==> Cleared(link, l.Addr(x))[a] == link[a]
  {
    var xs, a := l.Addrs(rings[k]), l.Addr(x);
    RemoveOwn(l, link, l.Head(k), rings[k], x);
    var rings' := rings[k := Without(rings[k], x)];
    var link' := Cleared(link, a);
    forall j | 0 <= j < |rings'| && j != k
      ensures Ring(link', l.Head(j), l.Addrs(rings'[j]))
    {
      HeadApart(l, rings[k], j);
      OtherRing(l, rings, j, k);
      HeadApart(l, rings[j], k);
      RingFrame(link, link', l.Head(j), l.Addrs(rings[j]));
    }
  }

  // The ring an entry leaves.
  lemma RemoveOwn(l: Layout, link: Store, head: nat, ring: seq<nat>, x: nat)
    requires l.Valid() && x in ring && NoDuplicates(ring)
    requires forall i :: 0 <= i < |ring| ==> ring[i] < l.Nodes()
    requires Ring(link, head, l.Addrs(ring))
    ensures x < l.Nodes() && l.Addr(x) in l.Addrs(ring) && l.Addr(x) in link
    ensures link[l.Addr(x)].prev in link && link[l.Addr(x)].next in link
    ensures forall i :: 0 <= i < |Without(ring, x)| ==> Without(ring, x)[i] < l.Nodes()
    ensures Ring(Cleared(link, l.Addr(x)), head, l.Addrs(Without(ring, x)))
    ensures Cleared(link, l.Addr(x)).Keys == link.Keys
    ensures forall a :: a in link && a != head && a !in l.Addrs(ring) ==> Cleared(link, l.Addr(x))[a] == link[a]
  {
    AddrsWithout(l, ring, x);
    RemoveClearRing(link, head, l.Addrs(ring), l.Addr(x));
  }

  lemma AddrsWithout(l: Layout, ring: seq<nat>, x: nat)
    requires l.Valid() && x in ring && NoDuplicates(ring)
    requires forall i :: 0 <= i < |ring| ==> ring[i] < l.Nodes()
    requires NoDuplicates(l.Addrs(ring))
    ensures x < l.Nodes() && l.Addr(x) in l.Addrs(ring)
    ensures forall i :: 0 <= i < |Without(ring, x)| ==> Without(ring, x)[i] < l.Nodes()
    ensures l.Addrs(Without(ring, x)) == Without(l.Addrs(ring), l.Addr(x))
  {
    var i, xs := IndexOf(ring, x), l.Addrs(ring);
    assert xs[i] == l.Addr(x);
    IndexUnique(xs, i);
    WithoutAt(ring, x);
    WithoutAt(xs, xs[i]);
    var ys := Without(ring, x);
    forall j | 0 <= j < |ys|
      ensures ys[j] < l.Nodes() && l.Addr(ys[j]) == Without(xs, xs[i])[j]
    {
    }
  }
}
