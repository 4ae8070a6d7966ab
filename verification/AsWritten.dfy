// buddy_tree_walk as written starts at the root whatever the root is, and takes
// nothing off a free list. It only ever adds to the lists, so no valid area has
// the image it leaves together with the counter that was debited before it.

module AsWritten {
  import opened Words
  import opened Nodes
  import opened Blocks
  import opened Ledger
  import opened Links
  import opened BitTree
  import opened Image
  import opened Steps
  import opened Areas
  import opened Readback

  // ---- what a walk does to the lists ----

  lemma {:induction false} PrevKept(l: Layout, m: Image, node: nat, bkt: nat, k: nat, m': Image, r: Option<nat>)
    requires Mapped(l, m) && bkt <= l.Order() && node < l.Nodes() && Walks(l, m, node, bkt, m', r)
    requires k <= Depth(node) && k <= l.Order()
    ensures l.Head(k) in m.link && l.Head(k) in m'.link
    ensures m'.link[l.Head(k)].prev == m.link[l.Head(k)].prev
    decreases bkt - Depth(node)
  {
    if Depth(node) < bkt {
      TurnFacts(l, m, node, Depth(node) + 1);
      if Bit(m.tree, node) {
        WalkLeft(l, m, node, bkt, m', r);
        PrevKept(l, m, Left(node), bkt, k, m', r);
      } else {
        WalkSplits(l, m, node, bkt, m', r);
        SplitPrev(l, m, node, k);
        if Depth(node) + 1 < bkt {
          PrevKept(l, SplitImage(l, m, node), Right(node), bkt, k, m', r);
        }
      }
    } else {
      WalkEnds(l, m, node, bkt, m', r);
    }
  }

  // A split appends to the list below the node, and to no list above.
  lemma SplitPrev(l: Layout, m: Image, node: nat, k: nat)
    requires Mapped(l, m) && Right(node) < l.Nodes() && Depth(node) < l.Order() && k <= l.Order()
    ensures Left(node) < l.Nodes() && l.Head(k) in m.link && l.Head(k) in SplitImage(l, m, node).link
    ensures SplitImage(l, m, node).link[l.Head(k)].prev ==
            if k == Depth(node) + 1 then l.Addr(Left(node)) else m.link[l.Head(k)].prev
  {
    SplitMapped(l, m, node);
    HeadNotAddr(l, k, Left(node));
  }

  // `a` ends none of the lists below list d, down to list bkt.
  ghost predicate NotTail(l: Layout, link: Store, d: nat, bkt: nat, a: nat) {
    forall k :: d < k <= bkt ==> l.Head(k) in link && a != link[l.Head(k)].prev
  }

  lemma SplitNext(l: Layout, m: Image, node: nat, bkt: nat, a: nat)
    requires Mapped(l, m) && Right(node) < l.Nodes() && Depth(node) < bkt <= l.Order()
    requires a in m.link && NotTail(l, m.link, Depth(node), bkt, a) && a != l.Addr(Left(node))
    ensures a in SplitImage(l, m, node).link
    ensures SplitImage(l, m, node).link[a].next == m.link[a].next
    ensures NotTail(l, SplitImage(l, m, node).link, Depth(node) + 1, bkt, a)
  {
    SplitMapped(l, m, node);
    forall k | Depth(node) + 1 < k <= bkt
      ensures l.Head(k) in SplitImage(l, m, node).link && a != SplitImage(l, m, node).link[l.Head(k)].prev
    {
      assert l.Head(k) in m.link && a != m.link[l.Head(k)].prev;
      SplitPrev(l, m, node, k);
    }
    var w := Depth(node) + 1;
    assert l.Head(w) in m.link && a != m.link[l.Head(w)].prev;
  }

  // The left child of a node split is the last entry of its list.
  lemma SplitListed(l: Layout, m: Image, x: nat, k: nat, bkt: nat, m': Image, r: Option<nat>)
    requires Mapped(l, m) && x < l.Nodes() && k == Depth(x) + 1 && k <= bkt <= l.Order()
    requires x / 8 < |m.tree| && !Bit(m.tree, x) && Walks(l, m, x, bkt, m', r)
    ensures Left(x) < l.Nodes() && Depth(Left(x)) == k
    ensures l.Head(k) in m'.link && m'.link[l.Head(k)].prev == l.Addr(Left(x))
  {
    TurnFacts(l, m, x, k);
    WalkSplits(l, m, x, bkt, m', r);
    SplitPrev(l, m, x, k);
    if k < bkt {
      PrevKept(l, SplitImage(l, m, x), Right(x), bkt, k, m', r);
    }
  }

  // The walk pushed the left child of p: the bit of p was clear, and the child
  // ends its list.
  ghost predicate Pushed(l: Layout, m: Image, m': Image, p: nat)
    requires PGSHIFT <= l.g.logMax
  {
    && Right(p) < l.Nodes() && p / 8 < |m.tree| && !Bit(m.tree, p) && Depth(Left(p)) <= l.Order()
    && EndsList(l, m'.link, Left(p), Depth(Left(p)))
  }

  ghost predicate EndsList(l: Layout, link: Store, n: nat, k: nat)
    requires PGSHIFT <= l.g.logMax && n < l.Nodes()
  {
    l.Head(k) in link && link[l.Head(k)].prev == l.Addr(n)
  }

  // A link that ends none of the lists a walk appends to keeps its next pointer,
  // unless a block that starts there was pushed over it.
  lemma {:induction false} NextOrPushed(l: Layout, m: Image, node: nat, bkt: nat, a: nat, m': Image, r: Option<nat>)
      returns (p: Option<nat>)
    requires Mapped(l, m) && bkt <= l.Order() && node < l.Nodes() && Walks(l, m, node, bkt, m', r)
    requires a in m.link && NotTail(l, m.link, Depth(node), bkt, a)
    ensures p.None? ==> a in m'.link && m'.link[a].next == m.link[a].next
    ensures p.Some? ==> Pushed(l, m, m', p.value) && a == l.Addr(Left(p.value))
    decreases bkt - Depth(node)
  {
    p := None;
    if Depth(node) < bkt {
      TurnFacts(l, m, node, Depth(node) + 1);
      if Bit(m.tree, node) {
        WalkLeft(l, m, node, bkt, m', r);
        p := NextOrPushed(l, m, Left(node), bkt, a, m', r);
      } else if a == l.Addr(Left(node)) {
        SplitListed(l, m, node, Depth(Left(node)), bkt, m', r);
        p := Some(node);
      } else {
        WalkSplits(l, m, node, bkt, m', r);
        SplitNext(l, m, node, bkt, a);
        if Depth(node) + 1 < bkt {
          p := NextOrPushed(l, SplitImage(l, m, node), Right(node), bkt, a, m', r);
          if p.Some? {
            PushedEarlier(l, m, node, m', p.value);
          }
        }
      }
    } else {
      WalkEnds(l, m, node, bkt, m', r);
    }
  }

  // A split clears no bit.
  lemma PushedEarlier(l: Layout, m: Image, node: nat, m': Image, p: nat)
    requires Mapped(l, m) && Right(node) < l.Nodes() && Depth(node) < l.Order()
    requires Pushed(l, SplitImage(l, m, node), m', p)
    ensures Pushed(l, m, m', p)
  {
    BitIndex(l, m, node);
    SetOne(m.tree, node, p);
  }

  // If the image represents some state, the block whose address ends list k is
  // free in that state.
  lemma TailFree(l: Layout, m: Image, s: State, k: nat, n: nat)
    requires Rep(l, m, s) && k <= l.Order() && n < l.Nodes() && Depth(n) == k
    requires l.Head(k) in m.link && m.link[l.Head(k)].prev == l.Addr(n)
    ensures s.t[n] == Free
  {
    var ring := s.rings[k];
    assert Ring(m.link, l.Head(k), l.Addrs(ring));
    EmptyRing(m.link, l.Head(k), l.Addrs(ring));
    HeadNotAddr(l, k, n);
    StillFree(l, s, k, |ring| - 1, n);
  }

  // What the walk pushed was not free before.
  lemma PushedNotFree(l: Layout, m: Image, s: State, m': Image, p: nat)
    requires Rep(l, m, s) && Pushed(l, m, m', p)
    ensures s.t[Left(p)] != Free
  {
    assert NodeOk(s.t, p) && Bit(m.tree, p) == BitOf(s.t, p);
  }

  // ---- every block that was free stays listed ----

  // A link before the last of its list ends no list.
  lemma InnerNotTail(l: Layout, m: Image, s: State, d: nat, h: nat, x: nat, bkt: nat)
    requires Rep(l, m, s) && d <= l.Order() && h < |s.rings[d]| && bkt <= l.Order()
    ensures
      var a := At(l.Head(d), l.Addrs(s.rings[d]), h);
      a in m.link && NotTail(l, m.link, x, bkt, a)
  {
    var xs := l.Addrs(s.rings[d]);
    var a := At(l.Head(d), xs, h);
    assert Ring(m.link, l.Head(d), xs);
    OkApart(l, s);
    forall k | x < k <= bkt
      ensures l.Head(k) in m.link && a != m.link[l.Head(k)].prev
    {
      var ring := s.rings[k];
      assert Ring(m.link, l.Head(k), l.Addrs(ring));
      EmptyRing(m.link, l.Head(k), l.Addrs(ring));
      if ring != [] {
        HeadNotAddr(l, d, Last(ring));
      }
      if h > 0 {
        HeadNotAddr(l, k, s.rings[d][h - 1]);
      }
    }
  }

  // In any state the image represents, a pushed block starts at no link that is
  // reached through links that kept their next pointers.
  lemma NotPushedOver(l: Layout, m: Image, s: State, m': Image, s': State, d: nat, h: nat, p: nat)
    requires Rep(l, m, s) && Rep(l, m', s') && Pushed(l, m, m', p) && d <= l.Order() && h < |s.rings[d]|
    requires KeptUpTo(m.link, m'.link, l.Head(d), l.Addrs(s.rings[d]), h)
    ensures At(l.Head(d), l.Addrs(s.rings[d]), h) != l.Addr(Left(p))
  {
    HeadNotAddr(l, d, Left(p));
    if h > 0 {
      var z := s.rings[d][h - 1];
      assert RingOk(s.t, s.rings[d], d);
      StillListed(l, m.link, m', s', d, l.Addrs(s.rings[d]), h - 1, z);
      TailFree(l, m', s', Depth(Left(p)), Left(p));
      PushedNotFree(l, m, s, m', p);
      BlocksApart(l, s'.t, z, Left(p));
    }
  }

  lemma {:induction false} PrefixKept(l: Layout, m: Image, s: State, x: nat, bkt: nat, m': Image, r: Option<nat>,
                                      s': State, d: nat, head: nat, xs: seq<nat>, n: nat)
    requires Rep(l, m, s) && Rep(l, m', s') && x < l.Nodes() && bkt <= l.Order() && Walks(l, m, x, bkt, m', r)
    requires d <= l.Order() && head == l.Head(d) && xs == l.Addrs(s.rings[d]) && n <= |xs|
    ensures KeptUpTo(m.link, m'.link, head, xs, n)
  {
    if n > 0 {
      PrefixKept(l, m, s, x, bkt, m', r, s', d, head, xs, n - 1);
      NextOneKept(l, m, s, x, bkt, m', r, s', d, head, xs, n - 1);
      KeptOneMore(m.link, m'.link, head, xs, n - 1);
    }
  }

  lemma NextOneKept(l: Layout, m: Image, s: State, x: nat, bkt: nat, m': Image, r: Option<nat>,
                    s': State, d: nat, head: nat, xs: seq<nat>, h: nat)
    requires Rep(l, m, s) && Rep(l, m', s') && x < l.Nodes() && bkt <= l.Order() && Walks(l, m, x, bkt, m', r)
    requires d <= l.Order() && head == l.Head(d) && xs == l.Addrs(s.rings[d]) && h < |xs|
    requires KeptUpTo(m.link, m'.link, head, xs, h)
    ensures KeptAt(m.link, m'.link, head, xs, h)
  {
    InnerNotTail(l, m, s, d, h, Depth(x), bkt);
    var p := NextOrPushed(l, m, x, bkt, At(head, xs, h), m', r);
    if p.Some? {
      NotPushedOver(l, m, s, m', s', d, h, p.value);
    }
  }

  // If the links up to entry i of a list are as they were, that entry is still
  // free in any state the image represents.
  lemma StillListed(l: Layout, link: Store, m': Image, s': State, d: nat, xs: seq<nat>, i: nat, x: nat)
    requires Rep(l, m', s') && x < l.Nodes() && d == Depth(x) <= l.Order()
    requires Ring(link, l.Head(d), xs) && i < |xs| && xs[i] == l.Addr(x)
    requires KeptUpTo(link, m'.link, l.Head(d), xs, i + 1)
    ensures s'.t[x] == Free
  {
    var head, ys := l.Head(d), l.Addrs(s'.rings[d]);
    assert Ring(m'.link, head, ys);
    SamePrefix(link, m'.link, head, xs, ys, i + 1);
    StillFree(l, s', d, i, x);
  }

  // A walk only adds to the lists: whatever valid state has the image it leaves,
  // every block that was free is free in it.
  lemma FreeStays(l: Layout, m: Image, s: State, x: nat, bkt: nat, m': Image, r: Option<nat>, s': State, n: nat)
    requires Rep(l, m, s) && Rep(l, m', s') && x < l.Nodes() && bkt <= l.Order() && Walks(l, m, x, bkt, m', r)
    requires n < |s.t| && s.t[n] == Free
    ensures s'.t[n] == Free
  {
    Listed(s, l.Order(), n);
    var d := Depth(n);
    var i, xs := IndexOf(s.rings[d], n), l.Addrs(s.rings[d]);
    assert Ring(m.link, l.Head(d), xs);
    PrefixKept(l, m, s, x, bkt, m', r, s', d, l.Head(d), xs, i + 1);
    StillListed(l, m.link, m', s', d, xs, i, n);
  }

  // So it has at least as many bytes available, and the counter debited before
  // the walk fits no valid area, whatever blocks are live in it.
  lemma WalkNeverFits(l: Layout, m: Image, a: Area, x: nat, bkt: nat, m': Image, r: Option<nat>, available: int)
    requires Good(l, m, a) && x < l.Nodes() && bkt <= l.Order() && Walks(l, m, x, bkt, m', r)
    requires available < a.available
    ensures !Fits(l, m', available)
  {
    forall b: Area | Good(l, m', b)
      ensures b.available >= a.available
    {
      forall n | 0 <= n < |a.s.t| && a.s.t[n] == Free
        ensures b.s.t[n] == Free
      {
        FreeStays(l, m, a.s, x, bkt, m', r, b.s, n);
      }
      FreeBytesGrow(l.g.logMax, a.s.t, b.s.t);
    }
  }

  // Once the walk has split a free block, no valid state at all has the image it
  // leaves: the block is still on its list, and so is its left half.
  lemma SplitFreeBreaks(l: Layout, m: Image, s: State, x: nat, bkt: nat, m': Image, r: Option<nat>)
    requires Rep(l, m, s) && x < |s.t| && s.t[x] == Free && Depth(x) < bkt <= l.Order()
    requires Walks(l, m, x, bkt, m', r)
    ensures forall s' :: !Rep(l, m', s')
  {
    SpineNode(l, m, s, x);
    NotBothFree(s.t, l.Order(), x);
    forall s'
      ensures !Rep(l, m', s')
    {
      if Rep(l, m', s') {
        NotBothFree(s'.t, l.Order(), x);
        FreeStays(l, m, s, x, bkt, m', r, s', x);
        LeftFreed(l, m, x, bkt, m', r, s');
      }
    }
  }

  lemma SpineNode(l: Layout, m: Image, s: State, n: nat)
    requires Rep(l, m, s) && n < |s.t| && s.t[n] != Below && Depth(n) < l.Order()
    ensures Right(n) < |s.t| && |s.t| == l.Nodes() && n / 8 < |m.tree| && Bit(m.tree, n) == BitOf(s.t, n)
    ensures Bit(m.tree, n) ==> s.t[Left(n)] != Below
  {
    DepthChildren(n);
    DepthInTree(l.Order(), Right(n));
    BitIndex(l, m, n);
    assert Bit(m.tree, n) == BitOf(s.t, n);
    assert NodeOk(s.t, n);
  }

  // The left child of the node split first is free in any state represented.
  lemma LeftFreed(l: Layout, m: Image, x: nat, bkt: nat, m': Image, r: Option<nat>, s': State)
    requires Mapped(l, m) && x < l.Nodes() && Depth(x) < bkt <= l.Order() && Rep(l, m', s')
    requires x / 8 < |m.tree| && !Bit(m.tree, x) && Walks(l, m, x, bkt, m', r)
    ensures Left(x) < |s'.t| && s'.t[Left(x)] == Free
  {
    var k := Depth(x) + 1;
    SplitListed(l, m, x, k, bkt, m', r);
    TailFree(l, m', s', k, Left(x));
  }

  lemma NotBothFree(t: Tree, order: nat, x: nat)
    requires TreeOk(t, order) && Right(x) < |t|
    ensures t[x] == Free ==> t[Left(x)] != Free && !BitOf(t, x)
  {
    assert NodeOk(t, x);
  }

  // The first request smaller than a fresh area already breaks it: the root and
  // its left child, which start at the same address, then end two different
  // lists, so one block is on offer twice.
  lemma FirstRequestBreaks(l: Layout, m: Image, bkt: nat, m': Image, r: Option<nat>)
    requires PGSHIFT <= l.g.logMax && Good(l, m, Fresh(l.g.logMax)) && 0 < l.Nodes()
    requires 1 <= bkt <= l.Order() && Walks(l, m, 0, bkt, m', r)
    ensures l.Head(0) in m'.link && m'.link[l.Head(0)].prev == l.g.base
    ensures l.Head(1) in m'.link && m'.link[l.Head(1)].prev == l.g.base
    ensures forall s' :: !Rep(l, m', s')
  {
    assert Depth(0) == 0;
    var s := Initial(l.Order());
    RootStart(l);
    RootIsTail(l, m, s);
    PrevKept(l, m, 0, bkt, 0, m', r);
    LeftListed(l, m, bkt, m', r);
    SplitFreeBreaks(l, m, s, 0, bkt, m', r);
  }

  lemma LeftListed(l: Layout, m: Image, bkt: nat, m': Image, r: Option<nat>)
    requires Mapped(l, m) && 0 < l.Nodes() && 1 <= bkt <= l.Order() && Walks(l, m, 0, bkt, m', r)
    requires 0 < |m.tree| && !Bit(m.tree, 0)
    ensures l.Head(1) in m'.link && m'.link[l.Head(1)].prev == l.g.base
  {
    assert Depth(0) == 0 && Left(0) == 1;
    SplitListed(l, m, 0, 1, bkt, m', r);
    RootStart(l);
  }

  lemma RootIsTail(l: Layout, m: Image, s: State)
    requires PGSHIFT <= l.g.logMax && Rep(l, m, s) && s == Initial(l.Order())
    ensures 0 < l.Nodes() && l.Head(0) in m.link && m.link[l.Head(0)].prev == l.Addr(0)
    ensures 0 / 8 < |m.tree| && !Bit(m.tree, 0)
  {
    assert s.rings[0] == [0];
    TakeRep(l, m, s, 0);
    BitIndex(l, m, 0);
    assert Bit(m.tree, 0) == BitOf(s.t, 0);
  }

  lemma RootStart(l: Layout)
    requires l.Valid()
    ensures 0 < l.Nodes() && 1 < l.Nodes() ==> l.Addr(0) == l.g.base == l.Addr(1)
    ensures 0 < l.Nodes() && l.Addr(0) == l.g.base
  {
    assert Depth(0) == 0 && Depth(1) == 1;
    ShlAdd(0, 0, l.g.logMax);
    ShlAdd(0, 0, l.g.logMax - 1);
  }
}
