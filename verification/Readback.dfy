// The image of a buddy area represents one area at most: the lists give the free
// blocks, and the tags tell a live block from one that was split.

module Readback {
  import opened Nodes
  import opened Blocks
  import opened Ledger
  import opened Canonical
  import opened Links
  import opened Frames
  import opened Image
  import opened Steps
  import opened Areas

  // One head in one memory has one ring.
  lemma RingUnique(m: Store, head: nat, xs: seq<nat>, ys: seq<nat>)
    requires Ring(m, head, xs) && Ring(m, head, ys)
    ensures xs == ys
  {
    AllKept(m, head, xs);
    AllKept(m, head, ys);
    SamePrefix(m, m, head, xs, ys, |xs|);
    SamePrefix(m, m, head, ys, xs, |ys|);
    forall i | 0 <= i < |xs|
      ensures xs[i] == ys[i]
    {
      SamePrefix(m, m, head, xs, ys, i + 1);
    }
  }

  lemma AllKept(m: Store, head: nat, xs: seq<nat>)
    requires Ring(m, head, xs)
    ensures forall n :: 0 <= n <= |xs| ==> KeptUpTo(m, m, head, xs, n)
  {
  }

  // Lists of one bucket that start at the same addresses are the same list.
  lemma EntriesUnique(l: Layout, t: Tree, t': Tree, r: seq<nat>, r': seq<nat>, k: nat)
    requires l.Valid() && |t| == |t'| == l.Nodes() && RingOk(t, r, k) && RingOk(t', r', k)
    requires l.Addrs(r) == l.Addrs(r')
    ensures r == r'
  {
    forall i | 0 <= i < |r|
      ensures r[i] == r'[i]
    {
      assert l.Addrs(r)[i] == l.Addrs(r')[i];
      SameStart(l, r[i], r'[i]);
    }
  }

  lemma RingsUnique(l: Layout, m: Image, s: State, s': State)
    requires Rep(l, m, s) && Rep(l, m, s')
    ensures s.rings == s'.rings
  {
    forall k | 0 <= k <= l.Order()
      ensures s.rings[k] == s'.rings[k]
    {
      RingUnique(m.link, l.Head(k), l.Addrs(s.rings[k]), l.Addrs(s'.rings[k]));
      EntriesUnique(l, s.t, s'.t, s.rings[k], s'.rings[k], k);
    }
  }

  lemma FreeUnique(s: State, s': State, order: nat, n: nat)
    requires Ok(s, order) && Ok(s', order) && s.rings == s'.rings && n < |s.t|
    ensures s.t[n] == Free <==> s'.t[n] == Free
  {
    DepthInTree(order, n);
    assert RingOk(s.t, s.rings[Depth(n)], Depth(n)) && RingOk(s'.t, s.rings[Depth(n)], Depth(n));
  }

  // The block at the left end of a split node.
  lemma {:induction false} LeftmostBlock(g: Geometry, t: Tree, order: nat, n: nat) returns (b: nat)
    requires order <= g.logMax && TreeOk(t, order) && n < |t| && t[n] != Below
    ensures IsBlock(t, b) && IsAncestor(n, b)
    ensures Depth(n) <= g.logMax && Depth(b) <= g.logMax && Start(g, b) == Start(g, n)
    decreases |t| - n
  {
    DepthInTree(order, n);
    b := n;
    if t[n] == Split {
      assert NodeOk(t, n);
      DepthChildren(n);
      DepthInTree(order, Left(n));
      ChildIntervals(g, n);
      b := LeftmostBlock(g, t, order, Left(n));
      AncestorUp(n, Left(n), b);
    }
  }

  // With the same free blocks and the same tags, no node is live in one tree and
  // split in the other.
  lemma LiveNotSplit(l: Layout, pages: map<Frame, Page>, t: Tree, t': Tree, n: nat)
    requires l.Valid() && TreeOk(t, l.Order()) && TreeOk(t', l.Order()) && n < |t|
    requires forall b :: 0 <= b < |t| ==> (t[b] == Free <==> t'[b] == Free)
    requires Tagged(l, pages, LiveSet(t)) && Tagged(l, pages, LiveSet(t'))
    ensures !(t[n] == Live && t'[n] == Split)
  {
    if t[n] == Live && t'[n] == Split {
      var b := LeftmostBlock(l.g, t', l.Order(), n);
      OnlyBelow(t, l.Order(), n, b);
      assert n in LiveSet(t) && b in LiveSet(t');
      assert l.Addr(n) == l.Addr(b);
      AncestorDepth(n, b);
    }
  }

  lemma {:induction false} TreeUnique(l: Layout, pages: map<Frame, Page>, t: Tree, t': Tree, n: nat)
    requires l.Valid() && TreeOk(t, l.Order()) && TreeOk(t', l.Order()) && n < |t|
    requires forall b :: 0 <= b < |t| ==> (t[b] == Free <==> t'[b] == Free)
    requires Tagged(l, pages, LiveSet(t)) && Tagged(l, pages, LiveSet(t'))
    ensures t[n] == t'[n]
    decreases n
  {
    if n > 0 {
      ParentIs(n);
      TreeUnique(l, pages, t, t', Parent(n));
      assert NodeOk(t, Parent(n)) && NodeOk(t', Parent(n));
    }
    LiveNotSplit(l, pages, t, t', n);
    LiveNotSplit(l, pages, t', t, n);
  }

  // An image, with its tags, represents at most one area: the lists in their
  // order, every node's status and the counter can all be read back from it.
  lemma GoodUnique(l: Layout, m: Image, a: Area, b: Area)
    requires Good(l, m, a) && Good(l, m, b)
    ensures a == b
  {
    RingsUnique(l, m, a.s, b.s);
    forall n | 0 <= n < |a.s.t|
      ensures a.s.t[n] == Free <==> b.s.t[n] == Free
    {
      FreeUnique(a.s, b.s, l.Order(), n);
    }
    forall n | 0 <= n < |a.s.t|
      ensures a.s.t[n] == b.s.t[n]
    {
      TreeUnique(l, m.pages, a.s.t, b.s.t, n);
    }
    assert a.s.t == b.s.t;
  }

  // Some valid area has this image and this counter.
  ghost predicate Fits(l: Layout, m: Image, available: int) {
    exists a: Area :: Good(l, m, a) && a.available == available
  }

  lemma FitsExact(l: Layout, m: Image, a: Area, available: int)
    requires Good(l, m, a)
    ensures Fits(l, m, available) <==> available == a.available
  {
    forall b: Area | Good(l, m, b)
      ensures b == a
    {
      GoodUnique(l, m, a, b);
    }
  }
}
