// The steps of kernel/kernel/buddy.c on a memory image, and the proof that each
// refines its step of the abstract machine.

module Steps {
  import opened Words
  import opened Nodes
  import opened Blocks
  import opened Ledger
  import opened Links
  import opened BitTree
  import opened Frames
  import opened Image
  import opened Areas

  // The image represents the area: lists, bits, tags and counter.
  ghost predicate Good(l: Layout, m: Image, a: Area) {
    && Rep(l, m, a.s)
    && AreaOk(a, l.g.logMax)
    && Tagged(l, m.pages, LiveSet(a.s.t))
  }

  lemma BitIndex(l: Layout, m: Image, n: nat)
    requires Mapped(l, m) && n < l.Nodes()
    ensures n / 8 < |m.tree|
  {
    assert |m.tree| == 2 * Pow2(l.Order());
  }

  // list_pushback on list k of a block's first bytes.
  function PushImage(l: Layout, m: Image, k: nat, n: nat): Image
    requires PGSHIFT <= l.g.logMax && n < l.Nodes()
    requires l.Head(k) in m.link && m.link[l.Head(k)].prev in m.link && l.Addr(n) in m.link
  {
    m.(link := PushedBack(m.link, l.Head(k), l.Addr(n)))
  }

  lemma PushMapped(l: Layout, m: Image, k: nat, n: nat)
    requires Mapped(l, m) && k <= l.Order() && n < l.Nodes()
    ensures Mapped(l, PushImage(l, m, k, n))
    ensures PushImage(l, m, k, n).link.Keys == m.link.Keys
  {
    var m' := PushImage(l, m, k, n);
    forall j | 0 <= j <= l.Order()
      ensures l.Head(j) in m'.link && m'.link[l.Head(j)].prev in m'.link
    {
      HeadNotAddr(l, j, n);
      assert l.Head(j) in m.link && m.link[l.Head(j)].prev in m.link;
    }
  }

  function SetOrder(pages: map<Frame, Page>, f: Frame, order: nat): map<Frame, Page>
    requires f in pages
  {
    pages[f := pages[f].(order := order)]
  }

  // ---- splitting ----

  lemma SplitBits(l: Layout, tree: seq<bv8>, t: Tree, n: nat)
    requires l.Valid() && TreeOk(t, l.Order()) && Right(n) < |t| && t[n] == Live
    requires BitsRep(l, tree, t)
    ensures n / 8 < |tree| && !Bit(tree, n)
    ensures BitsRep(l, SetBit(tree, n), t[n := Split][Left(n) := Free][Right(n) := Live])
  {
    var t' := t[n := Split][Left(n) := Free][Right(n) := Live];
    assert NodeOk(t, n) && NodeOk(t, Left(n)) && NodeOk(t, Right(n));
    forall i | 0 <= i < l.Nodes()
      ensures i / 8 < |tree| && Bit(SetBit(tree, n), i) == BitOf(t', i)
    {
      assert i / 8 < |tree| && Bit(tree, i) == BitOf(t, i);
      SetOne(tree, n, i);
      SplitBitOf(t, n, i);
    }
  }

  lemma SplitBitOf(t: Tree, n: nat, i: nat)
    requires Right(n) < |t| && t[n] == Live
    requires t[Left(n)] == Below == t[Right(n)] && i < |t|
    ensures BitOf(t[n := Split][Left(n) := Free][Right(n) := Live], i) == (BitOf(t, i) || i == n)
  {
  }

  // Appending a block to its list, with the bits already right.
  lemma AppendRep(l: Layout, m: Image, tree: seq<bv8>, s: State, s': State, k: nat, x: nat)
    requires Rep(l, m, s) && Ok(s', l.Order()) && k <= l.Order() && x < l.Nodes()
    requires s'.rings == s.rings[k := s.rings[k] + [x]]
    requires |tree| == |m.tree| && BitsRep(l, tree, s'.t)
    ensures Rep(l, PushImage(l, m.(tree := tree), k, x), s')
  {
    var m1 := m.(tree := tree);
    assert Mapped(l, m1);
    PushMapped(l, m1, k, x);
    OkApart(l, s');
    PushRep(l, m1.link, s.rings, k, x);
  }

  // node_set_split, then buddy_pushback of the left child.
  function SplitImage(l: Layout, m: Image, n: nat): Image
    requires Mapped(l, m) && Right(n) < l.Nodes() && Depth(n) < l.Order()
  {
    BitIndex(l, m, n);
    PushImage(l, m.(tree := SetBit(m.tree, n)), Depth(n) + 1, Left(n))
  }

  lemma SplitMapped(l: Layout, m: Image, n: nat)
    requires Mapped(l, m) && Right(n) < l.Nodes() && Depth(n) < l.Order()
    ensures Mapped(l, SplitImage(l, m, n))
    ensures SplitImage(l, m, n).link.Keys == m.link.Keys
    ensures SplitImage(l, m, n).pages == m.pages
  {
    BitIndex(l, m, n);
    var tree := SetBit(m.tree, n);
    assert |tree| == |m.tree|;
    var m1 := m.(tree := tree);
    assert Mapped(l, m1);
    PushMapped(l, m1, Depth(n) + 1, Left(n));
  }

  // One split on the image is one split of the abstract machine.
  lemma SplitRep(l: Layout, m: Image, s: State, n: nat)
    requires Rep(l, m, s) && n < |s.t| && s.t[n] == Live && Depth(n) < l.Order()
    ensures Right(n) < |s.t| && n / 8 < |m.tree| && !Bit(m.tree, n)
    ensures Rep(l, SplitImage(l, m, n), SplitNode(s, n))
  {
    SplitOk(s, l.Order(), n);
    SplitBits(l, m.tree, s.t, n);
    var k, x, s' := Depth(n) + 1, Left(n), SplitNode(s, n);
    var tree := SetBit(m.tree, n);
    assert |tree| == |m.tree|;
    assert s'.rings == s.rings[k := s.rings[k] + [x]];
    AppendRep(l, m, tree, s, s', k, x);
  }

  lemma TaggedAfter(l: Layout, pages: map<Frame, Page>, t: Tree, n: nat)
    requires l.Valid() && TreeOk(t, l.Order()) && n < |t| && t[n] == Live
    requires Tagged(l, pages, LiveSet(t) - {n})
    requires forall i :: 0 <= i < l.areas[l.area].mapSize ==> Frame(l.area, i) in pages
    ensures FrameOf(l.areas, l.Addr(n)).Some? && FrameOf(l.areas, l.Addr(n)).value in pages
    ensures Tagged(l, SetOrder(pages, FrameOf(l.areas, l.Addr(n)).value, Depth(n)), LiveSet(t))
  {
    AddrInArea(l, n);
    var f := FrameOf(l.areas, l.Addr(n)).value;
    assert f.area == l.area && f == Frame(l.area, f.index);
    forall x | x in LiveSet(t) && x < l.Nodes() && x != n
      ensures FrameOf(l.areas, l.Addr(x)) != Some(f)
    {
      BlocksApart(l, t, x, n);
    }
  }

  // The descriptor of a block, with its bucket written to it.
  function TagImage(l: Layout, m: Image, n: nat): Image
    requires Mapped(l, m) && n < l.Nodes()
  {
    AddrInArea(l, n);
    m.(pages := SetOrder(m.pages, FrameOf(l.areas, l.Addr(n)).value, Depth(n)))
  }

  // buddy_tree_walk from any node: `walker` is the bucket of the node's children.
  function Walk(l: Layout, m: Image, node: nat, walker: nat, bkt: nat): (r: (Image, Option<nat>))
    requires Mapped(l, m) && bkt <= l.Order() && node < l.Nodes() && walker == Depth(node) + 1
    ensures Mapped(l, r.0) && r.0.link.Keys == m.link.Keys
    decreases bkt + 1 - walker
  {
    if walker > bkt then (m, None)
    else
      DepthChildren(node);
      DepthInTree(l.Order(), Left(node));
      DepthInTree(l.Order(), Right(node));
      BitIndex(l, m, node);
      if Bit(m.tree, node) then Walk(l, m, Left(node), walker + 1, bkt)
      else
        SplitMapped(l, m, node);
        if walker == bkt then (TagImage(l, SplitImage(l, m, node), Right(node)), Some(l.Addr(Right(node))))
        else Walk(l, SplitImage(l, m, node), Right(node), walker + 1, bkt)
  }

  // What one turn of the walk computes on the way.
  lemma TurnFacts(l: Layout, m: Image, node: nat, walker: nat)
    requires Mapped(l, m) && node < l.Nodes() && walker == Depth(node) + 1 <= l.Order()
    ensures Right(node) < l.Nodes() && Depth(Left(node)) == walker == Depth(Right(node))
    ensures node / 8 < |m.tree| && Pow2(walker) <= Left(node) + 1
    ensures Node2Ptr(l.g, Left(node), walker) == l.Addr(Left(node))
    ensures Node2Ptr(l.g, Right(node), walker) == l.Addr(Right(node))
    ensures FrameOf(l.areas, l.Addr(Right(node))).Some?
    ensures FrameOf(l.areas, l.Addr(Right(node))).value in m.pages
    ensures Mapped(l, SplitImage(l, m, node))
    ensures SplitImage(l, m, node).pages == m.pages
    ensures Mapped(l, TagImage(l, SplitImage(l, m, node), Right(node)))
  {
    DepthChildren(node);
    DepthInTree(l.Order(), Right(node));
    BitIndex(l, m, node);
    AddrInArea(l, Left(node));
    AddrInArea(l, Right(node));
    SplitMapped(l, m, node);
  }

  // The walk below a node turns image m into m' and returns r.
  ghost predicate Walks(l: Layout, m: Image, node: nat, bkt: nat, m': Image, r: Option<nat>)
    requires Mapped(l, m) && node < l.Nodes() && bkt <= l.Order()
  {
    (m', r) == Walk(l, m, node, Depth(node) + 1, bkt)
  }

  // Its turns: at the bucket it ends, below a set bit it goes left, below a clear
  // bit it splits, and then either returns the right half or goes on there.
  lemma WalkEnds(l: Layout, m: Image, node: nat, bkt: nat, m': Image, r: Option<nat>)
    requires Mapped(l, m) && node < l.Nodes() && bkt <= l.Order() && bkt <= Depth(node)
    ensures Walks(l, m, node, bkt, m', r) <==> m' == m && r == None
  {
  }

  lemma WalkLeft(l: Layout, m: Image, node: nat, bkt: nat, m': Image, r: Option<nat>)
    requires Mapped(l, m) && Right(node) < l.Nodes() && Depth(node) < bkt <= l.Order()
    requires node / 8 < |m.tree| && Bit(m.tree, node)
    ensures Depth(Left(node)) == Depth(node) + 1
    ensures Walks(l, m, node, bkt, m', r) <==> Walks(l, m, Left(node), bkt, m', r)
  {
    DepthChildren(node);
  }

  lemma WalkSplits(l: Layout, m: Image, node: nat, bkt: nat, m': Image, r: Option<nat>)
    requires Mapped(l, m) && Right(node) < l.Nodes() && Depth(node) < bkt <= l.Order()
    requires node / 8 < |m.tree| && !Bit(m.tree, node)
    ensures Mapped(l, SplitImage(l, m, node)) && Depth(Right(node)) == Depth(node) + 1
    ensures Depth(node) + 1 == bkt ==>
              (Walks(l, m, node, bkt, m', r) <==>
               m' == TagImage(l, SplitImage(l, m, node), Right(node)) && r == Some(l.Addr(Right(node))))
    ensures Depth(node) + 1 < bkt ==>
              (Walks(l, m, node, bkt, m', r) <==> Walks(l, SplitImage(l, m, node), Right(node), bkt, m', r))
  {
    SplitMapped(l, m, node);
    DepthChildren(node);
  }

  // Splitting s down from block n leads to s' and block x.
  ghost predicate SplitsTo(s: State, order: nat, n: nat, bkt: nat, s': State, x: nat)
    requires Depth(n) <= bkt <= order && |s.rings| == order + 1 && |s.t| == NodeCount(order)
  {
    (s', x) == SplitDown(s, order, n, bkt)
  }

  lemma SplitsNext(s: State, order: nat, n: nat, bkt: nat, s': State, x: nat)
    requires Depth(n) < bkt <= order && |s.rings| == order + 1 && |s.t| == NodeCount(order)
    ensures Right(n) < |s.t| && Depth(Right(n)) == Depth(n) + 1
    ensures SplitsTo(s, order, n, bkt, s', x) <==> SplitsTo(SplitNode(s, n), order, Right(n), bkt, s', x)
  {
    DepthInTree(order, Right(n));
    DepthChildren(n);
  }

  lemma SplitsEnd(s: State, order: nat, n: nat, bkt: nat, s': State, x: nat)
    requires Depth(n) == bkt <= order && |s.rings| == order + 1 && |s.t| == NodeCount(order)
    ensures SplitsTo(s, order, n, bkt, s', x) <==> s' == s && x == n
  {
  }

  lemma LiveAfterSplit(s: State, order: nat, n: nat)
    requires Ok(s, order) && Right(n) < |s.t| && s.t[n] == Live && Depth(n) < order
    ensures LiveSet(SplitNode(s, n).t) - {Right(n)} == LiveSet(s.t) - {n}
  {
    assert NodeOk(s.t, n);
  }

  // The walk that starts at a claimed block refines the split-down of the
  // abstract machine: the pushed blocks, the bits and the returned block agree.
  lemma {:induction false} WalkRefines(l: Layout, m: Image, s: State, n: nat, bkt: nat,
                                       m': Image, ret: Option<nat>, s': State, x: nat)
    requires Rep(l, m, s) && n < |s.t| && s.t[n] == Live && Depth(n) < bkt <= l.Order()
    requires Tagged(l, m.pages, LiveSet(s.t) - {n})
    requires Walks(l, m, n, bkt, m', ret) && SplitsTo(s, l.Order(), n, bkt, s', x)
    ensures Rep(l, m', s')
    ensures x < l.Nodes() && ret == Some(l.Addr(x))
    ensures Tagged(l, m'.pages, LiveSet(s'.t))
    decreases bkt - Depth(n)
  {
    SplitOnce(l, m, s, n);
    WalkSplits(l, m, n, bkt, m', ret);
    SplitsNext(s, l.Order(), n, bkt, s', x);
    var m1, s1, r := SplitImage(l, m, n), SplitNode(s, n), Right(n);
    if Depth(r) == bkt {
      SplitsEnd(s1, l.Order(), r, bkt, s', x);
      TagRep(l, m1, s1, r);
    } else {
      WalkRefines(l, m1, s1, r, bkt, m', ret, s', x);
    }
  }

  // One turn of the walk keeps what the next turn needs.
  lemma SplitOnce(l: Layout, m: Image, s: State, n: nat)
    requires Rep(l, m, s) && n < |s.t| && s.t[n] == Live && Depth(n) < l.Order()
    requires Tagged(l, m.pages, LiveSet(s.t) - {n})
    ensures Right(n) < |s.t| && n / 8 < |m.tree| && !Bit(m.tree, n)
    ensures Rep(l, SplitImage(l, m, n), SplitNode(s, n))
    ensures SplitNode(s, n).t[Right(n)] == Live
    ensures Tagged(l, SplitImage(l, m, n).pages, LiveSet(SplitNode(s, n).t) - {Right(n)})
  {
    SplitRep(l, m, s, n);
    SplitMapped(l, m, n);
    LiveAfterSplit(s, l.Order(), n);
    RightLive(s, n);
  }

  lemma RightLive(s: State, n: nat)
    requires Right(n) < |s.t| && Depth(n) + 1 < |s.rings|
    ensures SplitNode(s, n).t[Right(n)] == Live && |SplitNode(s, n).t| == |s.t|
  {
  }

  lemma TagRep(l: Layout, m: Image, s: State, n: nat)
    requires Rep(l, m, s) && n < |s.t| && s.t[n] == Live
    requires Tagged(l, m.pages, LiveSet(s.t) - {n})
    ensures Rep(l, TagImage(l, m, n), s)
    ensures Tagged(l, TagImage(l, m, n).pages, LiveSet(s.t))
  {
    TaggedAfter(l, m.pages, s.t, n);
  }

  // ---- claiming a listed block ----

  function ClaimTree(tree: seq<bv8>, n: nat): seq<bv8>
    requires n > 0 ==> Parent(n) / 8 < |tree|
  {
    if n == 0 then tree else FlipBit(tree, Parent(n))
  }

  // Changing whether one node is free flips its parent's bit and no other.
  lemma FlipBits(l: Layout, tree: seq<bv8>, t: Tree, n: nat, v: Status)
    requires l.Valid() && |t| == l.Nodes() && n < |t| && (t[n] == Free) != (v == Free)
    requires BitsRep(l, tree, t)
    ensures n > 0 ==> Parent(n) / 8 < |tree|
    ensures BitsRep(l, ClaimTree(tree, n), t[n := v])
  {
    if n > 0 {
      ParentIs(n);
      ParentInside(l, n);
    }
    forall i | 0 <= i < l.Nodes()
      ensures i / 8 < |tree| && Bit(ClaimTree(tree, n), i) == BitOf(t[n := v], i)
    {
      assert i / 8 < |tree| && Bit(tree, i) == BitOf(t, i);
      if n > 0 {
        FlipOne(tree, Parent(n), i);
        FlipBitOf(t, n, v, i);
      }
    }
  }

  lemma ParentInside(l: Layout, n: nat)
    requires l.Valid() && 0 < n < l.Nodes()
    ensures Right(Parent(n)) < l.Nodes()
  {
    ParentIs(n);
    assert l.Nodes() == 2 * Pow2(l.Order()) - 1;
  }

  lemma FlipBitOf(t: Tree, n: nat, v: Status, i: nat)
    requires 0 < n < |t| && Right(Parent(n)) < |t| && i < |t| && (t[n] == Free) != (v == Free)
    ensures BitOf(t[n := v], i) == (BitOf(t, i) != (i == Parent(n)))
  {
    ParentIs(n);
  }

  // list_pop on a list that is not empty takes the last block listed.
  lemma TakeRep(l: Layout, m: Image, s: State, k: nat)
    requires Rep(l, m, s) && k <= l.Order() && s.rings[k] != []
    ensures Last(s.rings[k]) < l.Nodes()
    ensures
      var n := Last(s.rings[k]);
      var a := l.Addr(n);
      && Depth(n) == k && s.t[n] == Free
      && m.link[l.Head(k)].prev == a != l.Head(k)
      && a in m.link && m.link[a].prev in m.link && m.link[a].next in m.link
      && (n > 0 ==> Parent(n) / 8 < |m.tree|)
      && Rep(l, m.(link := Cleared(m.link, a), tree := ClaimTree(m.tree, n)), Take(s, k))
  {
    TakeOk(s, l.Order(), k);
    var n := Last(s.rings[k]);
    assert RingOk(s.t, s.rings[k], k);
    assert Ring(m.link, l.Head(k), l.Addrs(s.rings[k]));
    EmptyRing(m.link, l.Head(k), l.Addrs(s.rings[k]));
    HeadNotAddr(l, k, n);
    OkApart(l, s);
    RemoveRep(l, m.link, s.rings, k, n);
    WithoutLast(s.rings[k]);
    FlipBits(l, m.tree, s.t, n, Live);
    var m' := m.(link := Cleared(m.link, l.Addr(n)), tree := ClaimTree(m.tree, n));
    RepMapped(l, m, m', Take(s, k));
  }

  // An image that represents the lists is mapped.
  lemma RepMapped(l: Layout, m: Image, m': Image, s: State)
    requires Mapped(l, m) && |m'.tree| == |m.tree| && m'.link.Keys == m.link.Keys && m'.pages == m.pages
    requires |s.rings| == l.Order() + 1 && RingsRep(l, m'.link, s.rings)
    ensures Mapped(l, m')
  {
    forall k | 0 <= k <= l.Order()
      ensures l.Head(k) in m'.link && m'.link[l.Head(k)].prev in m'.link
    {
      EmptyRing(m'.link, l.Head(k), l.Addrs(s.rings[k]));
    }
  }

  // list_pop on an empty list finds nothing.
  lemma EmptyRep(l: Layout, m: Image, s: State, k: nat)
    requires Rep(l, m, s) && k <= l.Order()
    ensures l.Head(k) in m.link && (m.link[l.Head(k)].prev == l.Head(k) <==> s.rings[k] == [])
  {
    assert Ring(m.link, l.Head(k), l.Addrs(s.rings[k]));
    EmptyRing(m.link, l.Head(k), l.Addrs(s.rings[k]));
  }

  // ---- releasing ----

  // After the flip, the parent's bit is clear exactly when the sibling is listed.
  lemma FlippedBit(l: Layout, m: Image, s: State, n: nat)
    requires Rep(l, m, s) && 0 < n < |s.t| && s.t[n] == Live
    ensures Parent(n) / 8 < |m.tree|
    ensures Bit(FlipBit(m.tree, Parent(n)), Parent(n)) <==> !CanMerge(s, n)
    ensures CanMerge(s, n) ==> Depth(n) < |s.rings| && Sibling(n) in s.rings[Depth(n)]
  {
    ParentInside(l, n);
    SiblingInvolution(n);
    ParentIs(n);
    assert Bit(m.tree, Parent(n)) == BitOf(s.t, Parent(n));
    FlipOne(m.tree, Parent(n), Parent(n));
    if CanMerge(s, n) {
      MergeOk(s, l.Order(), n);
    }
  }

  lemma MergeBits(l: Layout, tree: seq<bv8>, t: Tree, p: nat, n: nat, b: nat)
    requires l.Valid() && TreeOk(t, l.Order()) && Family(p, n, b) && Right(p) < |t|
    requires t[n] == Live && t[b] == Free && BitsRep(l, tree, t)
    ensures p / 8 < |tree|
    ensures BitsRep(l, FlipBit(tree, p), t[p := Live][n := Below][b := Below])
  {
    MergeTree(t, l.Order(), p, n, b);
    var t' := t[p := Live][n := Below][b := Below];
    forall i | 0 <= i < l.Nodes()
      ensures i / 8 < |tree| && p / 8 < |tree| && Bit(FlipBit(tree, p), i) == BitOf(t', i)
    {
      assert i / 8 < |tree| && Bit(tree, i) == BitOf(t, i);
      assert p / 8 < |tree| && Bit(tree, p) == BitOf(t, p);
      FlipOne(tree, p, i);
      MergeBitOf(t, p, n, b, i);
    }
  }

  lemma MergeBitOf(t: Tree, p: nat, n: nat, b: nat, i: nat)
    requires Family(p, n, b) && Right(p) < |t| && i < |t|
    requires t[p] == Split && t[n] == Live && t[b] == Free
    ensures BitOf(t[p := Live][n := Below][b := Below], i) == (BitOf(t, i) != (i == p))
  {
  }

  // One turn of the merging loop is one merge of the abstract machine.
  lemma MergeRep(l: Layout, m: Image, s: State, n: nat)
    requires Rep(l, m, s) && 0 < n < |s.t| && s.t[n] == Live && CanMerge(s, n)
    ensures Parent(n) / 8 < |m.tree| && 0 < Depth(n) <= l.Order() && Sibling(n) in s.rings[Depth(n)]
    ensures
      var a := l.Addr(Sibling(n));
      && a in m.link && m.link[a].prev in m.link && m.link[a].next in m.link
      && Rep(l, m.(link := Cleared(m.link, a), tree := FlipBit(m.tree, Parent(n))), MergeNode(s, n))
  {
    var b, k := Sibling(n), Depth(n);
    FamilyOf(n);
    ParentInside(l, n);
    MergeOk(s, l.Order(), n);
    OkApart(l, s);
    assert RingOk(s.t, s.rings[k], k);
    RemoveRep(l, m.link, s.rings, k, b);
    MergeBits(l, m.tree, s.t, Parent(n), n, b);
    var m' := m.(link := Cleared(m.link, l.Addr(b)), tree := FlipBit(m.tree, Parent(n)));
    RepMapped(l, m, m', MergeNode(s, n));
  }

  // The final push is the settling step of the abstract machine.
  lemma SettleRep(l: Layout, m: Image, s: State, n: nat)
    requires Rep(l, m, s) && n < |s.t| && s.t[n] == Live && !CanMerge(s, n)
    ensures n > 0 ==> Parent(n) / 8 < |m.tree|
    ensures Depth(n) <= l.Order()
    ensures Rep(l, PushImage(l, m.(tree := ClaimTree(m.tree, n)), Depth(n), n), Settle(s, n))
  {
    SettleOk(s, l.Order(), n);
    FlipBits(l, m.tree, s.t, n, Free);
    AppendRep(l, m, ClaimTree(m.tree, n), s, Settle(s, n), Depth(n), n);
  }
}
