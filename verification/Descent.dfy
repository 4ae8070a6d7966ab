// What the walk of buddy_tree_walk does, from the bits it starts on: where it
// ends, what it returns and what it writes, on any tree and any lists.

module Descent {
  import opened Words
  import opened Nodes
  import opened Blocks
  import opened Canonical
  import opened Links
  import opened BitTree
  import opened Frames
  import opened Image
  import opened Steps
  import opened Areas
  import opened AsWritten

  // Node n is on the way from `from` down to e, and is not e.
  predicate OnPath(from: nat, n: nat, e: nat) {
    n != e && IsAncestor(from, n) && IsAncestor(n, e)
  }

  ghost predicate IsSet(tree: seq<bv8>, n: nat) {
    n / 8 < |tree| && Bit(tree, n)
  }

  // The way from `from` to e goes left below every set bit and right below every
  // clear one.
  ghost predicate Follows(tree: seq<bv8>, from: nat, e: nat) {
    IsAncestor(from, e) && forall n :: OnPath(from, n, e) ==> Turns(tree, n, e)
  }

  ghost predicate Turns(tree: seq<bv8>, n: nat, e: nat) {
    n / 8 < |tree| && IsAncestor(if Bit(tree, n) then Left(n) else Right(n), e)
  }

  // All bits on the way are set afterwards, and no other bit has changed.
  ghost predicate PathSet(l: Layout, tree: seq<bv8>, tree': seq<bv8>, from: nat, e: nat)
    requires PGSHIFT <= l.g.logMax
  {
    forall n :: 0 <= n < l.Nodes() ==> BitAfter(tree, tree', from, n, e)
  }

  ghost predicate BitAfter(tree: seq<bv8>, tree': seq<bv8>, from: nat, n: nat, e: nat) {
    n / 8 < |tree| && n / 8 < |tree'| && (Bit(tree', n) <==> Bit(tree, n) || OnPath(from, n, e))
  }

  // Below every clear bit on the way, the left child went to the end of its list;
  // below a set one, the list ends as before.
  ghost predicate PathPushed(l: Layout, m: Image, m': Image, from: nat, e: nat)
    requires PGSHIFT <= l.g.logMax
  {
    forall n :: OnPath(from, n, e) ==> PushedAt(l, m, m', n)
  }

  ghost predicate PushedAt(l: Layout, m: Image, m': Image, n: nat)
    requires PGSHIFT <= l.g.logMax
  {
    PushedBelow(l, m, m', n, Depth(n) + 1)
  }

  ghost predicate PushedBelow(l: Layout, m: Image, m': Image, n: nat, k: nat)
    requires PGSHIFT <= l.g.logMax
  {
    && n / 8 < |m.tree| && Left(n) < l.Nodes()
    && l.Head(k) in m.link && l.Head(k) in m'.link && l.Addr(Left(n)) in m'.link
    && if Bit(m.tree, n) then
         m'.link[l.Head(k)].prev == m.link[l.Head(k)].prev
       else
         && m'.link[l.Head(k)].prev == l.Addr(Left(n))
         && m'.link[l.Addr(Left(n))].prev == m.link[l.Head(k)].prev
  }

  // The lists at and above bucket `top` and below bucket `bkt` end as before.
  ghost predicate OtherLists(l: Layout, link: Store, link': Store, top: nat, bkt: nat)
    requires PGSHIFT <= l.g.logMax
  {
    forall k :: 0 <= k <= l.Order() && (k <= top || k > bkt) ==> SameEnd(l, link, link', k)
  }

  ghost predicate SameEnd(l: Layout, link: Store, link': Store, k: nat) {
    l.Head(k) in link && l.Head(k) in link' && link'[l.Head(k)].prev == link[l.Head(k)].prev
  }

  // What a walk from `from` down to e makes of the bits and the ends of the lists.
  ghost predicate Passed(l: Layout, m: Image, m': Image, from: nat, bkt: nat, e: nat) {
    && Mapped(l, m) && m'.link.Keys == m.link.Keys
    && e < l.Nodes() && Depth(e) == bkt && Follows(m.tree, from, e)
    && PathSet(l, m.tree, m'.tree, from, e) && PathPushed(l, m, m', from, e)
    && OtherLists(l, m.link, m'.link, Depth(from), bkt)
  }

  // What it returns, and what it writes to descriptors: it returns a block exactly
  // when its last turn was to the right.
  ghost predicate Handed(l: Layout, m: Image, m': Image, from: nat, bkt: nat, e: nat, r: Option<nat>)
    requires PGSHIFT <= l.g.logMax && e < l.Nodes()
  {
    && (r.Some? <==> e != from && e > 0 && !IsSet(m.tree, Parent(e)))
    && (r.Some? ==> r.value == l.Addr(e) && OrderWritten(l.areas, m.pages, m'.pages, r.value, bkt))
    && (r.None? ==> m'.pages == m.pages)
  }

  // The walk from `from` to bucket bkt ended at node e and returned r.
  ghost predicate Descended(l: Layout, m: Image, m': Image, from: nat, bkt: nat, e: nat, r: Option<nat>) {
    Passed(l, m, m', from, bkt, e) && Handed(l, m, m', from, bkt, e, r)
  }

  // Every walk does that, from any node, whatever tree and lists it finds.
  lemma {:induction false} WalkDescends(l: Layout, m: Image, node: nat, bkt: nat, m': Image, r: Option<nat>) returns (e: nat)
    requires Mapped(l, m) && node < l.Nodes() && Depth(node) <= bkt <= l.Order() && Walks(l, m, node, bkt, m', r)
    ensures Descended(l, m, m', node, bkt, e, r) && PrevOutside(l, m.link, m'.link, node)
    decreases bkt - Depth(node)
  {
    if Depth(node) == bkt {
      WalkEnds(l, m, node, bkt, m', r);
      StayedPut(l, m, m', node);
      return node;
    }
    TurnFacts(l, m, node, Depth(node) + 1);
    if Bit(m.tree, node) {
      WalkLeft(l, m, node, bkt, m', r);
      e := WalkDescends(l, m, Left(node), bkt, m', r);
      WentLeft(l, m, m', node, bkt, e);
      HandedLeft(l, m, m', node, bkt, e, r);
    } else {
      var m1 := SplitImage(l, m, node);
      WalkSplits(l, m, node, bkt, m', r);
      if Depth(node) + 1 == bkt {
        e := Right(node);
        StayedPut(l, m1, m', e);
        assert Parent(e) == node;
      } else {
        e := WalkDescends(l, m1, Right(node), bkt, m', r);
        HandedRight(l, m, m', node, bkt, e, r);
      }
      WentRight(l, m, m', node, bkt, e);
    }
  }

  // The bits decide where a walk ends.
  lemma {:induction false} OneWay(tree: seq<bv8>, from: nat, e: nat, f: nat)
    requires Follows(tree, from, e) && Follows(tree, from, f) && Depth(e) == Depth(f)
    ensures e == f
    decreases Depth(e) - Depth(from)
  {
    AncestorDepth(from, e);
    AncestorDepth(from, f);
    if e != from {
      assert OnPath(from, from, e) && OnPath(from, from, f);
      assert Turns(tree, from, e) && Turns(tree, from, f);
      var c := if Bit(tree, from) then Left(from) else Right(from);
      DepthChildren(from);
      AncestorDepth(c, e);
      FollowsFrom(tree, from, c, e);
      FollowsFrom(tree, from, c, f);
      OneWay(tree, c, e, f);
    }
  }

  lemma FollowsFrom(tree: seq<bv8>, from: nat, c: nat, e: nat)
    requires Follows(tree, from, e) && c > 0 && Parent(c) == from && IsAncestor(c, e)
    ensures Follows(tree, c, e)
  {
    forall n | OnPath(c, n, e)
      ensures Turns(tree, n, e)
    {
      PathNext(from, c, n, e);
    }
  }

  // A way that only ever turns right ends in the last block of its bucket.
  lemma {:induction false} LastBlock(g: Geometry, e: nat)
    requires Depth(e) <= g.logMax
    requires forall n :: OnPath(0, n, e) ==> IsAncestor(Right(n), e)
    ensures End(g, e) == g.base + Pow2(g.logMax)
  {
    if e == 0 {
      ShlAdd(0, 0, g.logMax);
    } else {
      var p := Parent(e);
      RootAbove(p);
      assert OnPath(0, p, e);
      AncestorDepth(Right(p), e);
      DepthChildren(p);
      ChildIntervals(g, p);
      forall n | OnPath(0, n, p)
        ensures IsAncestor(Right(n), p)
      {
        AncestorDepth(n, p);
        assert OnPath(0, n, e) && Parent(Right(n)) == n;
      }
      LastBlock(g, p);
    }
  }

  lemma {:induction false} RootAbove(n: nat)
    ensures IsAncestor(0, n)
  {
    if n > 0 {
      RootAbove(Parent(n));
    }
  }

  // On a fresh area the walk from the root hands out the last block of its bucket,
  // and leaves the root and its left child, which start at the same address, at
  // the ends of two lists.
  lemma FreshDescent(l: Layout, m: Image, m': Image, bkt: nat, e: nat, r: Option<nat>)
    requires PGSHIFT <= l.g.logMax && Good(l, m, Fresh(l.g.logMax)) && 1 <= bkt <= l.Order()
    requires Descended(l, m, m', 0, bkt, e, r)
    ensures r == Some(l.g.base + Pow2(l.g.logMax) - Size(l.g.logMax, bkt))
    ensures l.Head(0) in m'.link && m'.link[l.Head(0)].prev == l.g.base
    ensures l.Head(1) in m'.link && m'.link[l.Head(1)].prev == l.g.base
  {
    RootBucket(e, bkt);
    FreshTurns(l, m, e);
    FreshBit(l, m, Parent(e));
    HandsLast(l, m, m', bkt, e, r);
    FreshEnds(l, m, m', e);
  }

  lemma HandsLast(l: Layout, m: Image, m': Image, bkt: nat, e: nat, r: Option<nat>)
    requires l.Valid() && 0 < e < l.Nodes() && Depth(e) == bkt <= l.Order()
    requires forall n :: OnPath(0, n, e) ==> IsAncestor(Right(n), e)
    requires Handed(l, m, m', 0, bkt, e, r) && !IsSet(m.tree, Parent(e))
    ensures r == Some(l.g.base + Pow2(l.g.logMax) - Size(l.g.logMax, bkt))
  {
    LastAddr(l, e, bkt);
    assert r == Some(l.Addr(e));
  }

  lemma RootBucket(e: nat, bkt: nat)
    requires Depth(e) == bkt >= 1
    ensures 0 < e && Parent(e) < e && Depth(0) == 0
  {
  }

  lemma LastAddr(l: Layout, e: nat, bkt: nat)
    requires l.Valid() && e < l.Nodes() && Depth(e) == bkt
    requires forall n :: OnPath(0, n, e) ==> IsAncestor(Right(n), e)
    ensures bkt <= l.g.logMax && l.Addr(e) == l.g.base + Pow2(l.g.logMax) - Size(l.g.logMax, bkt)
  {
    AddrInArea(l, e);
    LastBlock(l.g, e);
  }

  lemma FreshTurns(l: Layout, m: Image, e: nat)
    requires PGSHIFT <= l.g.logMax && Good(l, m, Fresh(l.g.logMax)) && e < l.Nodes() && Follows(m.tree, 0, e)
    ensures forall n :: OnPath(0, n, e) ==> IsAncestor(Right(n), e)
  {
    forall n | OnPath(0, n, e)
      ensures IsAncestor(Right(n), e)
    {
      AncestorDepth(n, e);
      FreshBit(l, m, n);
      assert Turns(m.tree, n, e);
    }
  }

  lemma FreshEnds(l: Layout, m: Image, m': Image, e: nat)
    requires PGSHIFT <= l.g.logMax && Good(l, m, Fresh(l.g.logMax)) && 0 < e && 1 <= l.Order()
    requires PathPushed(l, m, m', 0, e) && SameEnd(l, m.link, m'.link, 0)
    ensures l.Head(0) in m'.link && m'.link[l.Head(0)].prev == l.g.base
    ensures l.Head(1) in m'.link && m'.link[l.Head(1)].prev == l.g.base
  {
    assert Depth(0) == 0 && Left(0) == 1;
    RootAbove(e);
    assert OnPath(0, 0, e);
    FreshBit(l, m, 0);
    RootStart(l);
    RootIsTail(l, m, Initial(l.Order()));
    assert PushedAt(l, m, m', 0);
  }

  lemma FreshBit(l: Layout, m: Image, n: nat)
    requires PGSHIFT <= l.g.logMax && Good(l, m, Fresh(l.g.logMax)) && n < l.Nodes()
    ensures !IsSet(m.tree, n)
  {
    assert n / 8 < |m.tree| && Bit(m.tree, n) == BitOf(Initial(l.Order()).t, n);
  }

  // ---- one turn ----

  // Away from the list heads and from the block of this node.
  ghost predicate Outside(l: Layout, node: nat, x: nat)
    requires l.Valid() && node < l.Nodes()
  {
    AddrInArea(l, node);
    !l.IsHead(x) && !(Start(l.g, node) <= x < End(l.g, node))
  }

  // There no link points back differently.
  ghost predicate PrevOutside(l: Layout, link: Store, link': Store, node: nat)
    requires l.Valid() && node < l.Nodes()
  {
    forall x :: x in link && Outside(l, node, x) ==> x in link' && link'[x].prev == link[x].prev
  }

  // The way from a node leads through one of its children, or ends.
  lemma PathNext(node: nat, c: nat, n: nat, e: nat)
    requires c > 0 && Parent(c) == node && IsAncestor(c, e)
    ensures IsAncestor(node, e) && e != node
    ensures OnPath(node, n, e) <==> n == node || OnPath(c, n, e)
  {
    AncestorUp(node, c, e);
    if OnPath(c, n, e) {
      AncestorUp(node, c, n);
    }
    if OnPath(node, n, e) && n != node {
      AncestorChain(c, n, e);
      AncestorDepth(node, n);
      if IsAncestor(n, c) && n != c {
        AncestorDepth(n, node);
      }
    }
  }

  lemma StayedPut(l: Layout, m: Image, m': Image, node: nat)
    requires Mapped(l, m) && node < l.Nodes() && m'.tree == m.tree && m'.link == m.link
    ensures Passed(l, m, m', node, Depth(node), node) && PrevOutside(l, m.link, m'.link, node)
  {
    forall n | OnPath(node, n, node)
      ensures false
    {
      AncestorDepth(node, n);
      AncestorDepth(n, node);
    }
    forall n | 0 <= n < l.Nodes()
      ensures BitAfter(m.tree, m'.tree, node, n, node)
    {
      BitIndex(l, m, n);
    }
  }

  // One turn has set the bit of this node, or found it set.
  ghost predicate Marked(tree: seq<bv8>, tree1: seq<bv8>, node: nat) {
    |tree1| == |tree| && forall n: nat :: n / 8 < |tree| ==> MarkedAt(tree, tree1, node, n)
  }

  ghost predicate MarkedAt(tree: seq<bv8>, tree1: seq<bv8>, node: nat, n: nat) {
    n / 8 < |tree| && n / 8 < |tree1| && (Bit(tree1, n) <==> Bit(tree, n) || n == node)
  }

  lemma FollowsOn(tree: seq<bv8>, tree1: seq<bv8>, node: nat, c: nat, e: nat)
    requires c > 0 && Parent(c) == node && Follows(tree1, c, e) && Marked(tree, tree1, node)
    requires node / 8 < |tree| && c == if Bit(tree, node) then Left(node) else Right(node)
    ensures Follows(tree, node, e)
  {
    PathNext(node, c, node, e);
    forall n | OnPath(node, n, e)
      ensures Turns(tree, n, e)
    {
      PathNext(node, c, n, e);
      if n != node {
        assert Turns(tree1, n, e) && MarkedAt(tree, tree1, node, n);
      }
    }
  }

  lemma SetOn(l: Layout, tree: seq<bv8>, tree1: seq<bv8>, tree': seq<bv8>, node: nat, c: nat, e: nat)
    requires PGSHIFT <= l.g.logMax && c > 0 && Parent(c) == node && IsAncestor(c, e)
    requires Marked(tree, tree1, node) && PathSet(l, tree1, tree', c, e)
    ensures PathSet(l, tree, tree', node, e)
  {
    forall n | 0 <= n < l.Nodes()
      ensures BitAfter(tree, tree', node, n, e)
    {
      assert BitAfter(tree1, tree', c, n, e) && MarkedAt(tree, tree1, node, n);
      PathNext(node, c, n, e);
    }
  }

  lemma WentLeft(l: Layout, m: Image, m': Image, node: nat, bkt: nat, e: nat)
    requires Mapped(l, m) && Right(node) < l.Nodes() && Depth(node) < bkt <= l.Order()
    requires IsSet(m.tree, node)
    requires Passed(l, m, m', Left(node), bkt, e) && PrevOutside(l, m.link, m'.link, Left(node))
    ensures Passed(l, m, m', node, bkt, e) && PrevOutside(l, m.link, m'.link, node)
  {
    var c := Left(node);
    DepthChildren(node);
    assert Parent(c) == node;
    assert Marked(m.tree, m.tree, node);
    FollowsOn(m.tree, m.tree, node, c, e);
    SetOn(l, m.tree, m.tree, m'.tree, node, c, e);
    ListsLeft(l, m, m', node, Depth(c), bkt, e);
    ChildOutside(l, m.link, m'.link, node, c);
  }

  lemma HandedLeft(l: Layout, m: Image, m': Image, node: nat, bkt: nat, e: nat, r: Option<nat>)
    requires PGSHIFT <= l.g.logMax && e < l.Nodes() && IsAncestor(Left(node), e) && IsSet(m.tree, node)
    requires Handed(l, m, m', Left(node), bkt, e, r)
    ensures Handed(l, m, m', node, bkt, e, r)
  {
    assert Parent(Left(node)) == node;
    AncestorUp(node, Left(node), e);
  }

  lemma ListsLeft(l: Layout, m: Image, m': Image, node: nat, k: nat, bkt: nat, e: nat)
    requires Mapped(l, m) && Right(node) < l.Nodes() && k == Depth(node) + 1 <= l.Order()
    requires IsSet(m.tree, node) && IsAncestor(Left(node), e) && m'.link.Keys == m.link.Keys
    requires PathPushed(l, m, m', Left(node), e) && OtherLists(l, m.link, m'.link, k, bkt)
    ensures PathPushed(l, m, m', node, e) && OtherLists(l, m.link, m'.link, Depth(node), bkt)
  {
    forall n | OnPath(node, n, e)
      ensures PushedAt(l, m, m', n)
    {
      LeftNext(node, n, e);
      if n == node {
        PushedLeft(l, m, m', node, k, bkt);
      }
    }
  }

  lemma PushedLeft(l: Layout, m: Image, m': Image, node: nat, k: nat, bkt: nat)
    requires Mapped(l, m) && Right(node) < l.Nodes() && k == Depth(node) + 1 <= l.Order()
    requires IsSet(m.tree, node) && m'.link.Keys == m.link.Keys && OtherLists(l, m.link, m'.link, k, bkt)
    ensures PushedAt(l, m, m', node)
  {
    assert SameEnd(l, m.link, m'.link, k);
  }

  lemma ChildOutside(l: Layout, link: Store, link': Store, node: nat, c: nat)
    requires l.Valid() && node < l.Nodes() && c < l.Nodes() && Depth(node) < l.Order()
    requires c == Left(node) || c == Right(node)
    requires PrevOutside(l, link, link', c)
    ensures PrevOutside(l, link, link', node)
  {
    AddrInArea(l, node);
    AddrInArea(l, c);
    ChildIntervals(l.g, node);
    forall x | x in link && Outside(l, node, x)
      ensures x in link' && link'[x].prev == link[x].prev
    {
      assert Outside(l, c, x);
    }
  }

  lemma WentRight(l: Layout, m: Image, m': Image, node: nat, bkt: nat, e: nat)
    requires Mapped(l, m) && Right(node) < l.Nodes() && Depth(node) < bkt <= l.Order()
    requires node / 8 < |m.tree| && !Bit(m.tree, node)
    requires Passed(l, SplitImage(l, m, node), m', Right(node), bkt, e)
    requires PrevOutside(l, SplitImage(l, m, node).link, m'.link, Right(node))
    ensures Passed(l, m, m', node, bkt, e) && PrevOutside(l, m.link, m'.link, node)
  {
    var c, m1 := Right(node), SplitImage(l, m, node);
    DepthChildren(node);
    assert Parent(c) == node;
    SplitMapped(l, m, node);
    SplitMarks(l, m, node);
    FollowsOn(m.tree, m1.tree, node, c, e);
    SetOn(l, m.tree, m1.tree, m'.tree, node, c, e);
    ListsRight(l, m, m', node, Depth(c), bkt, e);
    SplitOutside(l, m, node);
    ChildOutside(l, m1.link, m'.link, node, c);
  }

  lemma ListsRight(l: Layout, m: Image, m': Image, node: nat, w: nat, bkt: nat, e: nat)
    requires Mapped(l, m) && Right(node) < l.Nodes() && w == Depth(node) + 1 <= l.Order()
    requires node / 8 < |m.tree| && !Bit(m.tree, node) && IsAncestor(Right(node), e) && Depth(e) <= l.Order()
    requires PathPushed(l, SplitImage(l, m, node), m', Right(node), e)
    requires OtherLists(l, SplitImage(l, m, node).link, m'.link, w, bkt) && w <= bkt
    requires PrevOutside(l, SplitImage(l, m, node).link, m'.link, Right(node))
    ensures PathPushed(l, m, m', node, e) && OtherLists(l, m.link, m'.link, Depth(node), bkt)
  {
    EndsRight(l, m, m', node, Depth(node), w, bkt);
    PushedHere(l, m, m', node, w);
    PushedRight(l, m, SplitImage(l, m, node), m', node, e);
  }

  lemma EndsRight(l: Layout, m: Image, m': Image, node: nat, d: nat, w: nat, bkt: nat)
    requires Mapped(l, m) && Right(node) < l.Nodes() && d == Depth(node) && w == d + 1 <= l.Order() && w <= bkt
    requires OtherLists(l, SplitImage(l, m, node).link, m'.link, w, bkt)
    ensures OtherLists(l, m.link, m'.link, d, bkt)
    ensures SameEnd(l, SplitImage(l, m, node).link, m'.link, w)
  {
    forall k | 0 <= k <= l.Order() && (k <= d || k > bkt)
      ensures SameEnd(l, m.link, m'.link, k)
    {
      assert SameEnd(l, SplitImage(l, m, node).link, m'.link, k);
      EndRight(l, m, m', node, k);
    }
  }

  lemma PushedRight(l: Layout, m: Image, m1: Image, m': Image, node: nat, e: nat)
    requires Mapped(l, m) && Right(node) < l.Nodes() && Depth(node) < l.Order()
    requires m1 == SplitImage(l, m, node) && IsAncestor(Right(node), e) && Depth(e) <= l.Order()
    requires PathPushed(l, m1, m', Right(node), e) && PushedAt(l, m, m', node)
    ensures PathPushed(l, m, m', node, e)
  {
    forall n | OnPath(node, n, e)
      ensures PushedAt(l, m, m', n)
    {
      RightNext(node, n, e);
      if n != node {
        PushedLater(l, m, m1, m', node, n);
      }
    }
  }

  lemma RightNext(node: nat, n: nat, e: nat)
    requires IsAncestor(Right(node), e) && OnPath(node, n, e)
    ensures n != node ==> OnPath(Right(node), n, e) && Depth(node) < Depth(n) < Depth(e) && node < n
  {
    assert Parent(Right(node)) == node;
    PathNext(node, Right(node), n, e);
    if n != node {
      AncestorDepth(n, e);
      AncestorDepth(Right(node), n);
      DepthChildren(node);
    }
  }

  lemma LeftNext(node: nat, n: nat, e: nat)
    requires IsAncestor(Left(node), e) && OnPath(node, n, e)
    ensures n == node || OnPath(Left(node), n, e)
  {
    assert Parent(Left(node)) == node;
    PathNext(node, Left(node), n, e);
  }

  lemma EndRight(l: Layout, m: Image, m': Image, node: nat, k: nat)
    requires Mapped(l, m) && Right(node) < l.Nodes() && Depth(node) < l.Order()
    requires k <= l.Order() && k != Depth(node) + 1
    requires SameEnd(l, SplitImage(l, m, node).link, m'.link, k)
    ensures SameEnd(l, m.link, m'.link, k)
  {
    SplitPrev(l, m, node, k);
  }

  lemma SplitMarks(l: Layout, m: Image, node: nat)
    requires Mapped(l, m) && Right(node) < l.Nodes() && Depth(node) < l.Order()
    ensures Marked(m.tree, SplitImage(l, m, node).tree, node)
  {
    BitIndex(l, m, node);
    assert SplitImage(l, m, node).tree == SetBit(m.tree, node);
    SetMarks(m.tree, node);
  }

  lemma SetMarks(tree: seq<bv8>, node: nat)
    requires node / 8 < |tree|
    ensures Marked(tree, SetBit(tree, node), node)
  {
    forall n: nat | n / 8 < |tree|
      ensures MarkedAt(tree, SetBit(tree, node), node, n)
    {
      SetOne(tree, node, n);
    }
  }

  // A split changes the previous pointers of the list head and of the block pushed.
  lemma SplitOutside(l: Layout, m: Image, node: nat)
    requires Mapped(l, m) && Right(node) < l.Nodes() && Depth(node) < l.Order()
    ensures PrevOutside(l, m.link, SplitImage(l, m, node).link, node)
  {
    var k, a := Depth(node) + 1, l.Addr(Left(node));
    AddrInArea(l, node);
    AddrInArea(l, Left(node));
    ChildIntervals(l.g, node);
    assert l.IsHead(l.Head(k));
    PushedOutside(l, m.link, l.Head(k), a, node);
  }

  lemma PushedOutside(l: Layout, link: Store, head: nat, a: nat, node: nat)
    requires l.Valid() && node < l.Nodes() && head in link && link[head].prev in link && a in link
    requires !Outside(l, node, head) && !Outside(l, node, a)
    ensures PrevOutside(l, link, PushedBack(link, head, a), node)
  {
  }

  // The left child just pushed keeps its place while the walk goes on to the right.
  lemma PushedHere(l: Layout, m: Image, m': Image, node: nat, k: nat)
    requires Mapped(l, m) && Right(node) < l.Nodes() && k == Depth(node) + 1 <= l.Order()
    requires node / 8 < |m.tree| && !Bit(m.tree, node)
    requires SameEnd(l, SplitImage(l, m, node).link, m'.link, k)
    requires PrevOutside(l, SplitImage(l, m, node).link, m'.link, Right(node))
    ensures PushedBelow(l, m, m', node, k)
  {
    var x, m1 := l.Addr(Left(node)), SplitImage(l, m, node);
    SplitPrev(l, m, node, k);
    AddrInArea(l, Left(node));
    AddrInArea(l, Right(node));
    ChildIntervals(l.g, node);
    forall j | 0 <= j <= l.Order()
      ensures l.Head(j) != x
    {
      HeadNotAddr(l, j, Left(node));
    }
    assert Outside(l, Right(node), x);
  }

  lemma PushedLater(l: Layout, m: Image, m1: Image, m': Image, node: nat, n: nat)
    requires Mapped(l, m) && Right(node) < l.Nodes() && Depth(node) < l.Order() && m1 == SplitImage(l, m, node)
    requires Depth(node) < Depth(n) < l.Order() && node < n
    requires PushedAt(l, m1, m', n)
    ensures PushedAt(l, m, m', n)
  {
    LaterKept(l, m, m1, m', node, n, Depth(n) + 1);
  }

  lemma LaterKept(l: Layout, m: Image, m1: Image, m': Image, node: nat, n: nat, k: nat)
    requires Mapped(l, m) && Right(node) < l.Nodes() && Depth(node) < l.Order() && m1 == SplitImage(l, m, node)
    requires Depth(node) + 1 < k <= l.Order() && n > node && PushedBelow(l, m1, m', n, k)
    ensures PushedBelow(l, m, m', n, k)
  {
    SplitPrev(l, m, node, k);
    SplitMarks(l, m, node);
    assert MarkedAt(m.tree, m1.tree, node, n);
  }

  lemma HandedRight(l: Layout, m: Image, m': Image, node: nat, bkt: nat, e: nat, r: Option<nat>)
    requires Mapped(l, m) && Right(node) < l.Nodes() && Depth(node) < l.Order() && e < l.Nodes()
    requires IsAncestor(Right(node), e) && e != Right(node)
    requires Handed(l, SplitImage(l, m, node), m', Right(node), bkt, e, r)
    ensures Handed(l, m, m', node, bkt, e, r)
  {
    assert Parent(Right(node)) == node;
    AncestorUp(node, Right(node), e);
    AncestorDepth(Right(node), Parent(e));
    SplitMarks(l, m, node);
    SplitMapped(l, m, node);
    if Parent(e) / 8 < |m.tree| {
      assert MarkedAt(m.tree, SplitImage(l, m, node).tree, node, Parent(e));
    }
  }
}
