// The buddy area of kernel/kernel/buddy.c as an object over tree bytes, list
// links in memory, and page descriptors.

module Buddy {
  import opened Words
  import opened Nodes
  import opened Blocks
  import opened Ledger
  import opened Links
  import opened BitTree
  import opened Frames
  import opened Image
  import opened Steps
  import opened Areas
  import opened AsWritten
  import opened Descent
  import opened Untouched
  import opened Readback

  // The image after the block at the back of list j was claimed.
  ghost predicate Taken(l: Layout, m: Image, s: State, j: nat, node: nat) {
    && l.Valid() && Ok(s, l.Order()) && j <= l.Order() && s.rings[j] != []
    && node == Last(s.rings[j]) && node < l.Nodes() && Depth(node) == j && s.t[node] == Free
    && Rep(l, m, Take(s, j))
  }

  class BuddyArea {
    const l: Layout
    const tree: array<bv8>
    const mem: Memory
    const phys: PhysMem
    var available: nat
    ghost var s: State

    // buddy_area_init, once its three allocations have succeeded. The area is valid
    // exactly when the memory it is put in is its own.
    constructor (lay: Layout, mem: Memory, phys: PhysMem)
      requires lay.g.Valid()
      requires forall n :: 0 <= n < lay.Nodes() ==> lay.Addr(n) in mem.link
      requires forall k :: 0 <= k <= lay.Order() ==> lay.Head(k) in mem.link
      requires lay.Valid() ==> forall i :: 0 <= i < lay.areas[lay.area].mapSize ==> Frame(lay.area, i) in phys.pages
      modifies mem
      ensures l == lay && this.mem == mem && this.phys == phys && fresh(tree)
      ensures Abstract() == Fresh(lay.g.logMax)
      ensures Valid() <==> lay.Valid()
      ensures mem.link.Keys == old(mem.link).Keys
      ensures forall a :: a in mem.link && a != lay.g.base && !lay.IsHead(a) ==> mem.link[a] == old(mem.link)[a]
    {
      l := lay;
      this.mem := mem;
      this.phys := phys;
      available := Pow2(lay.g.logMax);
      tree := new bv8[Pow2(lay.Order() + 1)](i => 0);
      s := Initial(lay.Order());
      new;
      InitLists(lay, mem);
      PushArea();
      AreaIs(Fresh(lay.g.logMax), s, available);
    }

    // kernel/kernel/buddy.c:173
    method PushArea()
      requires l.g.Valid() && |tree[..]| == Pow2(l.Order() + 1) && forall i :: 0 <= i < tree.Length ==> tree[i] == 0
      requires forall k :: 0 <= k <= l.Order() ==> Ring(mem.link, l.Head(k), [])
      requires forall n :: 0 <= n < l.Nodes() ==> l.Addr(n) in mem.link
      requires l.Valid() ==> forall i :: 0 <= i < l.areas[l.area].mapSize ==> Frame(l.area, i) in phys.pages
      modifies mem
      ensures l.Valid() ==> Good(l, Now(), Fresh(l.g.logMax))
      ensures mem.link.Keys == old(mem.link).Keys
      ensures forall a :: a in mem.link && a != l.g.base && !l.IsHead(a) ==> mem.link[a] == old(mem.link)[a]
    {
      ghost var m := Now();
      if l.Valid() {
        InitialGood(l, m);
      }
      RootAddr(l);
      assert l.IsHead(l.Head(0));
      EmptyRing(m.link, l.Head(0), []);
      mem.PushBack(l.Head(0), l.g.base);
      assert Now() == PushImage(l, m, 0, 0);
    }

    // The loop at kernel/kernel/buddy.c:171-172.
    static method InitLists(lay: Layout, mem: Memory)
      requires lay.g.Valid()
      requires forall k :: 0 <= k <= lay.Order() ==> lay.Head(k) in mem.link
      modifies mem
      ensures mem.link.Keys == old(mem.link).Keys
      ensures forall k :: 0 <= k <= lay.Order() ==> Ring(mem.link, lay.Head(k), [])
      ensures forall a :: a in mem.link && !lay.IsHead(a) ==> mem.link[a] == old(mem.link)[a]
    {
      var i: nat := 0;
      while i < lay.Order() + 1
        invariant i <= lay.Order() + 1
        invariant mem.link.Keys == old(mem.link).Keys
        invariant forall k :: 0 <= k < i ==> Ring(mem.link, lay.Head(k), [])
        invariant forall a :: a in mem.link && !lay.IsHead(a) ==> mem.link[a] == old(mem.link)[a]
      {
        assert lay.IsHead(lay.Head(i));
        mem.Init(lay.Head(i));
        i := i + 1;
      }
    }

    ghost function Now(): Image
      reads tree, mem, phys
    {
      Image(tree[..], mem.link, phys.pages)
    }

    ghost function Abstract(): Area
      reads this
    {
      Area(s, available)
    }

    ghost predicate Valid()
      reads this, tree, mem, phys
    {
      Good(l, Now(), Abstract())
    }

    // buddy_max_bucket
    function MaxBucket(): nat
      requires l.g.Valid()
    {
      l.g.logMax - PGSHIFT + 1
    }

    // buddy_find_bkt. The subtraction wraps when a request exceeds the area.
    method FindBkt(requested: nat) returns (bkt: nat)
      requires l.g.Valid() && requested <= WORD / 2
      ensures bkt == Bucket(l.g.logMax, requested) % WORD
    {
      var b := MaxBucket();
      var sz := PGSIZE;
      ghost var d := 0;
      PageSize();
      while sz < requested
        invariant sz == Pow2(PGSHIFT + d)
        invariant DoublingsFrom(requested, d) == Doublings(requested)
        invariant b == (l.Order() + 1 - d) % WORD
        decreases requested - sz
      {
        Sub64Next(l.Order() + 1 - d);
        b := Sub64(b, 1);
        sz := Double64(sz);
        d := d + 1;
      }
      Sub64Next(l.Order() + 1 - d);
      return Sub64(b, 1);
    }

    // buddy_pop
    method Pop(k: nat) returns (r: Option<nat>)
      requires Rep(l, Now(), s) && k <= l.Order()
      modifies mem
      ensures r.None? <==> s.rings[k] == []
      ensures r.None? ==> mem.link == old(mem.link)
      ensures r.Some? ==>
                var n := Last(s.rings[k]);
                n < l.Nodes() && r.value == l.Addr(n) && r.value in old(mem.link)
                && old(mem.link)[r.value].prev in old(mem.link) && old(mem.link)[r.value].next in old(mem.link)
                && mem.link == Cleared(old(mem.link), r.value) && mem.link[r.value] == Link(0, 0)
    {
      EmptyRep(l, Now(), s, k);
      if s.rings[k] != [] {
        TakeRep(l, Now(), s, k);
      }
      r := mem.Pop(l.Head(k));
      if r.Some? {
        mem.link := mem.link[r.value := Link(0, 0)];
      }
    }

    // buddy_remove
    method Remove(addr: nat)
      requires addr in mem.link && mem.link[addr].prev in mem.link && mem.link[addr].next in mem.link
      modifies mem
      ensures mem.link == Cleared(old(mem.link), addr) && mem.link[addr] == Link(0, 0)
    {
      mem.Remove(addr);
      mem.link := mem.link[addr := Link(0, 0)];
    }

    // page->order = bkt, through phys2page
    method SetPageOrder(addr: nat, bkt: nat)
      requires FrameOf(l.areas, addr).Some? && FrameOf(l.areas, addr).value in phys.pages
      modifies phys
      ensures phys.pages == SetOrder(old(phys.pages), FrameOf(l.areas, addr).value, bkt)
    {
      var page := Phys2Page(l.areas, addr);
      phys.pages := phys.pages[page.value := phys.pages[page.value].(order := bkt)];
    }

    // node_set_split, then buddy_pushback of the left child.
    method SplitAt(node: nat, walker: nat)
      requires Mapped(l, Now()) && Right(node) < l.Nodes() && walker == Depth(node) + 1 <= l.Order()
      modifies tree, mem
      ensures Mapped(l, old(Now())) && Now() == SplitImage(l, old(Now()), node)
    {
      ghost var m := Now();
      TurnFacts(l, m, node, walker);
      NodeSetSplit(tree, node);
      var addr := Node2Ptr(l.g, Left(node), walker);
      mem.PushBack(l.Head(walker), addr);
      assert Now() == SplitImage(l, m, node);
    }

    // The loop of buddy_tree_walk, from any node.
    method TreeWalk(node0: nat, walker0: nat, bkt: nat) returns (r: Option<nat>)
      requires Mapped(l, Now()) && bkt <= l.Order() && node0 < l.Nodes() && walker0 == Depth(node0) + 1
      modifies tree, mem, phys
      ensures Mapped(l, Now())
      ensures Walks(l, old(Now()), node0, bkt, Now(), r)
    {
      var node: nat, walker: nat := node0, walker0;
      ghost var m := Now();
      ghost var (m', r') := Walk(l, m, node, walker, bkt);
      while walker <= bkt
        invariant walker == Depth(node) + 1 && node < l.Nodes()
        invariant m == Now() && Mapped(l, m)
        invariant Walks(l, m, node, bkt, m', r')
        decreases bkt + 1 - walker
      {
        TurnFacts(l, m, node, walker);
        var split := NodeIsSplit(tree, node);
        if split {
          WalkLeft(l, m, node, bkt, m', r');
          node := Left(node);
          walker := walker + 1;
          continue;
        }
        WalkSplits(l, m, node, bkt, m', r');
        SplitAt(node, walker);
        m := SplitImage(l, m, node);
        if walker == bkt {
          var ret := Node2Ptr(l.g, Right(node), bkt);
          SetPageOrder(ret, bkt);
          assert Now() == TagImage(l, m, Right(node));
          return Some(ret);
        }
        node := Right(node);
        walker := walker + 1;
      }
      WalkEnds(l, m, node, bkt, m', r');
      return None;
    }

    // Pop list k and flip the bit above the block popped.
    method Claim(k: nat) returns (r: Option<nat>)
      requires Rep(l, Now(), s) && k <= l.Order()
      modifies tree, mem
      ensures r.None? <==> s.rings[k] == []
      ensures r.None? ==> Now() == old(Now())
      ensures r.Some? ==> Taken(l, Now(), s, k, r.value)
      ensures r.Some? ==> Keeps(l, old(Now()), Now(), LiveSet(s.t))
    {
      ghost var m := Now();
      if s.rings[k] != [] {
        TakeRep(l, m, s, k);
        BlockBack(l, Last(s.rings[k]), k);
      }
      var ptr := Pop(k);
      if ptr.None? {
        return None;
      }
      var node := Ptr2Node(l.g, ptr.value, k);
      FlipAbove(node);
      assert Now() == m.(link := Cleared(m.link, ptr.value), tree := ClaimTree(m.tree, node));
      RemoveKeeps(l, m, s, k, node, LiveSet(s.t));
      return Some(node);
    }

    // kernel/kernel/buddy.c:116-117
    method FlipAbove(node: nat)
      requires node > 0 ==> Parent(node) / 8 < tree.Length
      modifies tree
      ensures tree[..] == ClaimTree(old(tree[..]), node)
    {
      if node != 0 {
        NodeParentFlip(tree, node);
      }
    }

    // Claim a block from the deepest non-empty list at or above list bkt.
    method ClaimDeepest(bkt: nat) returns (r: Option<nat>, j: nat)
      requires Valid() && bkt <= l.Order()
      modifies tree, mem
      ensures |s.rings| == l.Order() + 1 && phys.pages == old(phys.pages)
      ensures r.None? <==> Deepest(s.rings, bkt).None?
      ensures r.None? ==> Now() == old(Now())
      ensures r.Some? ==> j <= bkt && Deepest(s.rings, bkt) == Some(j) && Taken(l, Now(), s, j, r.value)
      ensures r.Some? ==> Keeps(l, old(Now()), Now(), LiveSet(s.t))
    {
      j := bkt + 1;
      ghost var m := Now();
      while j > 0
        invariant j <= bkt + 1 <= |s.rings| && forall i :: j <= i <= bkt ==> s.rings[i] == []
        invariant Now() == m
      {
        j := j - 1;
        r := Claim(j);
        if r.Some? {
          DeepestAt(s.rings, bkt, j);
          return;
        }
      }
      DeepestIs(s.rings, bkt);
      r := None;
    }

    // Split a claimed block down to its bucket and tag it.
    method Finish(node: nat, j: nat, bkt: nat, ghost s': State, ghost x: nat, ghost m0: Image) returns (r: Option<nat>)
      requires Taken(l, Now(), s, j, node) && j <= bkt <= l.Order() && Tagged(l, phys.pages, LiveSet(s.t))
      requires SplitsTo(Take(s, j), l.Order(), node, bkt, s', x) && Keeps(l, m0, Now(), LiveSet(s.t))
      modifies this`s, tree, mem, phys
      ensures s == s'
      ensures Rep(l, Now(), s) && Tagged(l, phys.pages, LiveSet(s.t))
      ensures x < l.Nodes() && r == Some(l.Addr(x))
      ensures OrderWritten(l.areas, old(phys.pages), phys.pages, l.Addr(x), bkt)
      ensures Keeps(l, m0, Now(), LiveSet(old(s).t))
    {
      ghost var s1, keep := Take(s, j), LiveSet(s.t);
      TakeTagged(l, phys.pages, s, j, node, s1);
      if j == bkt {
        r := TagClaimed(node, bkt, s1, m0, keep);
      } else {
        r := SplitClaimed(node, bkt, s1, s', x, m0, keep);
      }
      s := s';
    }

    method SplitClaimed(node: nat, bkt: nat, ghost s1: State, ghost s': State, ghost x: nat, ghost m0: Image, ghost keep: set<nat>)
      returns (r: Option<nat>)
      requires Rep(l, Now(), s1) && node < |s1.t| && s1.t[node] == Live && Depth(node) < bkt <= l.Order()
      requires Tagged(l, phys.pages, LiveSet(s1.t) - {node}) && keep <= LiveSet(s1.t) - {node}
      requires Keeps(l, m0, Now(), keep)
      requires SplitsTo(s1, l.Order(), node, bkt, s', x)
      modifies tree, mem, phys
      ensures Rep(l, Now(), s') && Tagged(l, phys.pages, LiveSet(s'.t))
      ensures x < l.Nodes() && r == Some(l.Addr(x))
      ensures OrderWritten(l.areas, old(phys.pages), phys.pages, l.Addr(x), bkt)
      ensures Keeps(l, m0, Now(), keep)
    {
      ghost var m := Now();
      r := TreeWalk(node, Depth(node) + 1, bkt);
      ghost var m' := Now();
      WalkRefines(l, m, s1, node, bkt, m', r, s', x);
      WalkKeeps(l, m0, m, s1, node, bkt, m', r, keep);
      ghost var _ := WalkDescends(l, m, node, bkt, m', r);
    }

    // kernel/kernel/buddy.c:118-120
    method TagClaimed(node: nat, bkt: nat, ghost s1: State, ghost m0: Image, ghost keep: set<nat>) returns (r: Option<nat>)
      requires Rep(l, Now(), s1) && node < |s1.t| && s1.t[node] == Live && Depth(node) == bkt
      requires Tagged(l, phys.pages, LiveSet(s1.t) - {node}) && keep <= LiveSet(s1.t) - {node}
      requires Keeps(l, m0, Now(), keep)
      modifies phys
      ensures Rep(l, Now(), s1) && Tagged(l, phys.pages, LiveSet(s1.t))
      ensures node < l.Nodes() && r == Some(l.Addr(node))
      ensures OrderWritten(l.areas, old(phys.pages), phys.pages, l.Addr(node), bkt)
      ensures Keeps(l, m0, Now(), keep)
    {
      ghost var m := Now();
      AddrInArea(l, node);
      TagRep(l, m, s1, node);
      var ptr := Node2Ptr(l.g, node, bkt);
      SetPageOrder(ptr, bkt);
      assert Now() == TagImage(l, m, node);
      TagKeeps(l, m, s1.t, node, keep);
      KeepsTrans(l, m0, m, Now(), keep);
      r := Some(ptr);
    }

    // The same, when the counter is already what it will be.
    method Deliver(node: nat, j: nat, bkt: nat, ghost a': Area, ghost x: nat, ghost m0: Image) returns (r: Option<nat>)
      requires Taken(l, Now(), s, j, node) && j <= bkt <= l.Order() && Tagged(l, phys.pages, LiveSet(s.t))
      requires SplitsTo(Take(s, j), l.Order(), node, bkt, a'.s, x)
      requires AreaOk(a', l.g.logMax) && available == a'.available && Keeps(l, m0, Now(), LiveSet(s.t))
      modifies this, tree, mem, phys
      ensures Abstract() == a'
      ensures Valid()
      ensures x < l.Nodes() && r == Some(l.Addr(x))
      ensures OrderWritten(l.areas, old(phys.pages), phys.pages, l.Addr(x), bkt)
      ensures Keeps(l, m0, Now(), LiveSet(old(s).t))
    {
      r := Finish(node, j, bkt, a'.s, x, m0);
      AreaIs(a', s, available);
    }

    // Claim, debit, split.
    method AllocBucket(bkt: nat, realsz: nat, ghost a': Area, ghost x: Option<nat>) returns (r: Option<nat>)
      requires Valid() && Grants(l, Abstract(), bkt, realsz, a', x)
      modifies this, tree, mem, phys
      ensures Abstract() == a'
      ensures Valid()
      ensures r.None? <==> x.None?
      ensures r.None? ==> Now() == old(Now())
      ensures r.Some? ==> x.value < l.Nodes() && r.value == l.Addr(x.value)
      ensures r.Some? ==> OrderWritten(l.areas, old(phys.pages), phys.pages, r.value, bkt)
      ensures Keeps(l, old(Now()), Now(), LiveSet(old(s).t))
    {
      ghost var m := Now();
      var node, j := ClaimDeepest(bkt);
      if node.None? {
        return None;
      }
      GrantedOne(l, Abstract(), bkt, realsz, a', x, j, node.value);
      ghost var n := x.value;
      available := available - realsz;
      r := Deliver(node.value, j, bkt, a', n, m);
    }

    // The bucket and the block size of a request, kernel/kernel/buddy.c:107-108.
    method Needs(requested: nat) returns (bkt: nat, realsz: nat)
      requires l.g.Valid() && requested <= MAX_REQUEST
      ensures realsz == BlockSize(requested)
      ensures Bucket(l.g.logMax, requested) >= 0 ==> bkt == Bucket(l.g.logMax, requested)
    {
      bkt := FindBkt(requested);
      realsz := Shl(1, Sub64(l.g.logMax, bkt));
      RealSize(l.g, requested, bkt);
    }

    // buddy_alloc with the intended walk: a block is claimed from the deepest
    // non-empty list at or above its bucket, then split down. The counter is
    // debited only when a block was found.
    method Alloc(requested: nat) returns (r: Option<nat>)
      requires Valid() && requested <= MAX_REQUEST
      modifies this, tree, mem, phys
      ensures Valid()
      ensures Abstract() == AllocArea(old(Abstract()), l.g.logMax, requested).0
      ensures r.None? <==> AllocArea(old(Abstract()), l.g.logMax, requested).1.None?
      ensures r.None? ==> Now() == old(Now())
      ensures r.Some? ==>
                var n := AllocArea(old(Abstract()), l.g.logMax, requested).1.value;
                n < l.Nodes() && r.value == l.Addr(n)
      ensures r.Some? ==> OrderWritten(l.areas, old(phys.pages), phys.pages, r.value, Bucket(l.g.logMax, requested))
      ensures Keeps(l, old(Now()), Now(), LiveSet(old(s).t))
    {
      Affordable(Abstract(), l.g.logMax, requested);
      var bkt, realsz := Needs(requested);
      if Sub64(available, realsz) > available {
        return None;
      }
      ghost var a', x := GrantFacts(l, Abstract(), requested, bkt, realsz);
      AllocFacts(l, Abstract(), requested, bkt, realsz, a', x);
      r := AllocBucket(bkt, realsz, a', x);
    }

    // buddy_tree_walk: what it does follows from the bits alone, and no valid area
    // has what it leaves. `e` is the node it ends at.
    method WalkFromRoot(requested: nat, bkt: nat, ghost a: Area) returns (r: Option<nat>, ghost e: nat)
      requires Good(l, Now(), a) && bkt == Bucket(l.g.logMax, requested) && available == a.available - BlockSize(requested)
      modifies tree, mem, phys
      ensures WalkedDown(l, old(Now()), Now(), bkt, e, r)
      ensures !Fits(l, Now(), available)
    {
      ghost var m := Now();
      assert Depth(0) == 0;
      r := TreeWalk(0, 1, bkt);
      e := WalkDescends(l, m, 0, bkt, Now(), r);
      WalkNeverFits(l, m, a, 0, bkt, Now(), r, available);
    }

    // buddy_alloc as written, past the wrap test: the counter is debited before
    // the search, and the walk starts at the root.
    method PayAsWritten(requested: nat, bkt: nat, realsz: nat, ghost a': Area, ghost x: Option<nat>)
      returns (r: Option<nat>, ghost e: nat)
      requires Valid() && Grants(l, Abstract(), bkt, realsz, a', x) && realsz == BlockSize(requested) <= available
      requires bkt == Bucket(l.g.logMax, requested)
      modifies this, tree, mem, phys
      ensures available == old(available) - realsz && |old(s).rings| == l.Order() + 1
      ensures Fits(l, Now(), available) <==> old(s).rings[bkt] != []
      ensures old(s).rings[bkt] == [] ==> WalkedDown(l, old(Now()), Now(), bkt, e, r)
      ensures old(s).rings[bkt] != [] ==>
                && Valid() && Abstract() == a' && x == Some(e)
                && Delivered(l, old(Now()), Now(), LiveSet(old(s).t), e, bkt, r)
    {
      ghost var a, m := Abstract(), Now();
      available := available - realsz;
      var node := Claim(bkt);
      if node.None? {
        r, e := WalkFromRoot(requested, bkt, a);
      } else {
        r, e := DeliverExact(node.value, bkt, realsz, a, a', x, m);
      }
    }

    // kernel/kernel/buddy.c:115-120
    method DeliverExact(node: nat, bkt: nat, realsz: nat, ghost a: Area, ghost a': Area, ghost x: Option<nat>, ghost m0: Image)
      returns (r: Option<nat>, ghost e: nat)
      requires Taken(l, Now(), s, bkt, node) && bkt <= l.Order() && Tagged(l, phys.pages, LiveSet(s.t))
      requires Grants(l, a, bkt, realsz, a', x) && a.s == s && a.available == available + realsz
      requires m0.pages == phys.pages && Keeps(l, m0, Now(), LiveSet(s.t))
      modifies this, tree, mem, phys
      ensures Valid() && Abstract() == a' && x == Some(e) && available == old(available)
      ensures Delivered(l, m0, Now(), LiveSet(old(s).t), e, bkt, r)
      ensures Fits(l, Now(), available)
    {
      GrantedExact(l, a, bkt, realsz, a', x);
      e := x.value;
      ServedOne(s, l.Order(), bkt, bkt, node, a'.s, e);
      r := Deliver(node, bkt, bkt, a', e, m0);
      FitsExact(l, Now(), a', available);
    }

    // buddy_alloc as written leaves the image and the counter of some valid area,
    // with whatever blocks live, exactly when it refuses the request or finds a
    // block of the very bucket it needs. Then it does what Alloc does; otherwise it
    // walks from the root to node e.
    method AllocAsWritten(requested: nat) returns (r: Option<nat>, ghost e: nat)
      requires Valid() && requested <= MAX_REQUEST
      modifies this, tree, mem, phys
      ensures BlockSize(requested) > old(available) ==>
                r.None? && Now() == old(Now()) && Abstract() == old(Abstract())
      ensures BlockSize(requested) <= old(available) ==>
                && Bucket(l.g.logMax, requested) >= 0
                && |old(s).rings| == l.Order() + 1
                && available == old(available) - BlockSize(requested)
      ensures Fits(l, Now(), available) <==>
              BlockSize(requested) > old(available) || old(s).rings[Bucket(l.g.logMax, requested)] != []
      ensures BlockSize(requested) <= old(available) && old(s).rings[Bucket(l.g.logMax, requested)] != [] ==>
                ServedAsMeant(l, old(Now()), old(Abstract()), requested, Now(), Abstract(), e, r)
      ensures BlockSize(requested) <= old(available) && old(s).rings[Bucket(l.g.logMax, requested)] == [] ==>
                WalkedDown(l, old(Now()), Now(), Bucket(l.g.logMax, requested), e, r)
      ensures old(Abstract()) == Fresh(l.g.logMax) && BlockSize(requested) < Pow2(l.g.logMax) ==>
                LastHanded(l, mem.link, BlockSize(requested), r)
    {
      ghost var a := Abstract();
      Affordable(a, l.g.logMax, requested);
      var bkt, realsz := Needs(requested);
      if Sub64(available, realsz) > available {
        FitsExact(l, Now(), a, available);
        return None, 0;
      }
      ghost var a', x := GrantFacts(l, a, requested, bkt, realsz);
      AllocFacts(l, a, requested, bkt, realsz, a', x);
      FreshWants(l.g.logMax, requested, bkt);
      ghost var m := Now();
      r, e := PayAsWritten(requested, bkt, realsz, a', x);
      if a == Fresh(l.g.logMax) && bkt > 0 {
        FreshHands(l, m, a, Now(), requested, bkt, e, r);
      }
    }

    // One turn of the merging loop: flip the parent's bit and look at it; if the
    // sibling is free, take it off its list.
    method TryMerge(node: nat, bkt: nat, ghost st: State) returns (merged: bool)
      requires Rep(l, Now(), st) && 0 < node < |st.t| && st.t[node] == Live && bkt == Depth(node)
      modifies tree, mem
      ensures phys.pages == old(phys.pages)
      ensures merged == CanMerge(st, node)
      ensures merged ==> Depth(node) < |st.rings| && Sibling(node) in st.rings[Depth(node)]
      ensures merged ==> Rep(l, Now(), MergeNode(st, node))
      ensures !merged ==> Now() == old(Now()).(tree := ClaimTree(old(tree[..]), node))
      ensures Keeps(l, old(Now()), Now(), LiveSet(st.t) - {node})
    {
      ghost var m := Now();
      FlippedBit(l, m, st, node);
      FamilyOf(node);
      NodeParentFlip(tree, node);
      var used := NodeIsSplit(tree, Parent(node));
      if used {
        return false;
      }
      MergeRep(l, m, st, node);
      AddrInArea(l, Sibling(node));
      Remove(Node2Ptr(l.g, Sibling(node), bkt));
      assert Now() == m.(link := Cleared(m.link, l.Addr(Sibling(node))), tree := FlipBit(m.tree, Parent(node)));
      RemoveKeeps(l, m, st, Depth(node), Sibling(node), LiveSet(st.t) - {node});
      return true;
    }

    // The loop of buddy_free: merge upwards while the sibling is free. `m` and
    // `st` are the image and the state before the last flip.
    method Climb(n: nat, order: nat) returns (node: nat, bkt: nat, ghost m: Image, ghost st: State)
      requires Rep(l, Now(), s) && n < |s.t| && s.t[n] == Live && order == Depth(n)
      modifies tree, mem
      ensures phys.pages == old(phys.pages)
      ensures Rep(l, m, st) && node < |st.t| && st.t[node] == Live && bkt == Depth(node)
      ensures !CanMerge(st, node) && node == Top(s, l.Order(), n)
      ensures Release(st, l.Order(), node) == Release(s, l.Order(), n)
      ensures node > 0 ==> Parent(node) / 8 < |m.tree|
      ensures Now() == m.(tree := ClaimTree(m.tree, node))
      ensures LiveSet(st.t) - {node} == LiveSet(s.t) - {n}
      ensures Keeps(l, old(Now()), m, LiveSet(s.t) - {n})
    {
      ghost var m0, keep := Now(), LiveSet(s.t) - {n};
      node, bkt := n, order;
      m, st := Now(), s;
      ghost var s', top := Release(s, l.Order(), n), Top(s, l.Order(), n);
      while node != 0
        invariant Rep(l, m, st) && node < |st.t| && st.t[node] == Live && bkt == Depth(node)
        invariant Release(st, l.Order(), node) == s'
        invariant Top(st, l.Order(), node) == top
        invariant m == Now() && phys.pages == old(phys.pages)
        invariant LiveSet(st.t) - {node} == keep && Keeps(l, m0, m, keep)
        decreases node
      {
        MergeStep(l, st, node);
        var merged := TryMerge(node, bkt, st);
        if !merged {
          FlippedBit(l, m, st, node);
          return;
        }
        bkt := bkt - 1;
        KeepsTrans(l, m0, m, Now(), keep);
        MergeLive(l, st, node);
        st := MergeNode(st, node);
        m := Now();
        node := Parent(node);
      }
    }

    // buddy_free up to the credit: returns the bucket the block had and the
    // bucket it ended in after merging.
    method Coalesce(ptr: nat, ghost n: nat, ghost a': Area, ghost credit: nat) returns (order: nat, top: nat)
      requires Valid() && Released(l, Abstract(), n, a', credit) && ptr == l.Addr(n)
      modifies this`s, tree, mem, phys
      ensures s == a'.s && order == Depth(n)
      ensures top <= l.g.logMax && Size(l.g.logMax, top) == credit
      ensures Good(l, Now(), a')
      ensures PageZeroed(l.areas, old(phys.pages), phys.pages, ptr)
      ensures Keeps(l, old(Now()), Now(), LiveSet(old(s).t) - {n})
    {
      ghost var m0, s0, keep := Now(), s, LiveSet(s.t) - {n};
      BlockBack(l, n, Depth(n));
      var page;
      page, order := Lookup(ptr, n);
      ghost var m, st;
      var node;
      node, top, m, st := Climb(Ptr2Node(l.g, ptr, order), order);
      MergedSizeIs(l, s, n, node, top, credit);
      SettleBlock(node, top, m, st, a'.s, m0, keep);
      ReleaseOk(s0, l.Order(), n);
      s := a'.s;
      ClearPage(page, m0, s0, n, keep);
    }

    // The descriptor of a live block, and its order.
    method Lookup(ptr: nat, ghost n: nat) returns (f: Frame, order: nat)
      requires Mapped(l, Now()) && Tagged(l, phys.pages, LiveSet(s.t))
      requires n in LiveSet(s.t) && n < l.Nodes() && ptr == l.Addr(n)
      ensures FrameOf(l.areas, ptr) == Some(f) && f in phys.pages
      ensures order == Depth(n) && l.g.base <= ptr
    {
      AddrInArea(l, n);
      var page := Phys2Page(l.areas, ptr);
      f := page.value;
      order := phys.pages[f].order;
    }

    // kernel/kernel/buddy.c:147
    method ClearPage(f: Frame, ghost m0: Image, ghost s0: State, ghost n: nat, ghost keep: set<nat>)
      requires Rep(l, Now(), s) && Ok(s0, l.Order()) && n < |s0.t| && s0.t[n] == Live
      requires Tagged(l, m0.pages, LiveSet(s0.t)) && phys.pages == m0.pages
      requires FrameOf(l.areas, l.Addr(n)) == Some(f) && f in phys.pages
      requires keep == LiveSet(s0.t) - {n} == LiveSet(s.t) && Keeps(l, m0, Now(), keep)
      modifies phys
      ensures Rep(l, Now(), s) && Tagged(l, phys.pages, LiveSet(s.t)) && Keeps(l, m0, Now(), keep)
      ensures phys.pages == old(phys.pages)[f := Page(0, 0, 0, 0)]
    {
      ghost var m := Now();
      Untag(l, m0, m, s0, n, f, keep);
      phys.pages := phys.pages[f := ZERO_PAGE];
      assert Now() == m.(pages := m.pages[f := ZERO_PAGE]);
    }

    // The push that ends buddy_free.
    method SettleBlock(node: nat, bkt: nat, ghost m: Image, ghost st: State, ghost s': State, ghost m0: Image, ghost keep: set<nat>)
      requires Rep(l, m, st) && node < |st.t| && st.t[node] == Live && bkt == Depth(node) && !CanMerge(st, node)
      requires node > 0 ==> Parent(node) / 8 < |m.tree|
      requires Now() == m.(tree := ClaimTree(m.tree, node))
      requires s' == Release(st, l.Order(), node) && keep == LiveSet(st.t) - {node} && Keeps(l, m0, m, keep)
      modifies mem
      ensures Rep(l, Now(), s') && Keeps(l, m0, Now(), keep)
    {
      SettleRep(l, m, st, node);
      AddrInArea(l, node);
      SettleKeeps(l, m, st, node, keep);
      mem.PushBack(l.Head(bkt), Node2Ptr(l.g, node, bkt));
      assert Now() == PushImage(l, m.(tree := ClaimTree(m.tree, node)), bkt, node);
      KeepsTrans(l, m0, m, Now(), keep);
    }

    // buddy_free, crediting the block's own size.
    method Free(ptr: nat, ghost n: nat)
      requires Valid()
      requires ptr == 0 || FrameOf(l.areas, ptr).None? || (n in LiveSet(s.t) && n < l.Nodes() && ptr == l.Addr(n))
      modifies this, tree, mem, phys
      ensures Valid()
      ensures ptr == 0 || FrameOf(l.areas, ptr).None? ==> Now() == old(Now()) && Abstract() == old(Abstract())
      ensures ptr != 0 && FrameOf(l.areas, ptr).Some? ==> Abstract() == FreeArea(old(Abstract()), l.g.logMax, n)
      ensures ptr != 0 && FrameOf(l.areas, ptr).Some? ==> PageZeroed(l.areas, old(phys.pages), phys.pages, ptr)
      ensures Keeps(l, old(Now()), Now(), LiveSet(old(s).t) - {n})
    {
      if ptr == 0 {
        return;
      }
      var page := Phys2Page(l.areas, ptr);
      if page.None? {
        return;
      }
      ghost var a', credit := FreeFacts(l, Abstract(), n);
      Credit(ptr, n, a', credit);
    }

    // kernel/kernel/buddy.c:144
    method Repay(bkt: nat)
      requires bkt <= l.g.logMax
      modifies this`available
      ensures available == old(available) + Size(l.g.logMax, bkt)
    {
      ShlOfPow2(0, l.g.logMax - bkt);
      available := available + Shl(1, l.g.logMax - bkt);
    }

    // Merge, and credit the block's own size.
    method Credit(ptr: nat, ghost n: nat, ghost a': Area, ghost credit: nat)
      requires Valid() && Released(l, Abstract(), n, a', credit) && ptr == l.Addr(n)
      modifies this, tree, mem, phys
      ensures Abstract() == a'
      ensures PageZeroed(l.areas, old(phys.pages), phys.pages, ptr)
      ensures Valid()
      ensures Keeps(l, old(Now()), Now(), LiveSet(old(s).t) - {n})
    {
      var order, _ := Coalesce(ptr, n, a', credit);
      ShlOfPow2(0, l.g.logMax - order);
      ghost var m := Now();
      Repay(order);
      AreaIs(a', s, available);
      assert Now() == m;
    }

    // Merge, and credit the size of the block the merging ended with.
    method CreditMerged(ptr: nat, ghost n: nat, ghost a': Area, ghost credit: nat)
      requires Valid() && Released(l, Abstract(), n, a', credit) && ptr == l.Addr(n)
      modifies this, tree, mem, phys
      ensures s == a'.s && available == old(available) + credit
      ensures Good(l, Now(), a')
      ensures PageZeroed(l.areas, old(phys.pages), phys.pages, ptr)
      ensures Valid() <==> !CanMerge(old(s), n)
      ensures Fits(l, Now(), available) <==> !CanMerge(old(s), n)
    {
      ghost var a := Abstract();
      var _, top := Coalesce(ptr, n, a', credit);
      ghost var m := Now();
      Repay(top);
      assert Now() == m;
      CreditVerdict(l, m, a, n, a', credit, available);
    }

    // buddy_free as written credits the bucket after merging: all else is right,
    // and some valid area, with whatever blocks live, has the image and the
    // counter left behind exactly when nothing was merged.
    method FreeAsWritten(ptr: nat, ghost n: nat)
      requires Valid()
      requires ptr == 0 || FrameOf(l.areas, ptr).None? || (n in LiveSet(s.t) && n < l.Nodes() && ptr == l.Addr(n))
      modifies this, tree, mem, phys
      ensures ptr == 0 || FrameOf(l.areas, ptr).None? ==> Now() == old(Now()) && Abstract() == old(Abstract())
      ensures ptr != 0 && FrameOf(l.areas, ptr).Some? ==>
                && s == FreeArea(old(Abstract()), l.g.logMax, n).s
                && Good(l, Now(), FreeArea(old(Abstract()), l.g.logMax, n))
                && available == old(available) + MergedSize(l, old(s), n)
                && (Valid() <==> !CanMerge(old(s), n))
      ensures ptr != 0 && FrameOf(l.areas, ptr).Some? ==> PageZeroed(l.areas, old(phys.pages), phys.pages, ptr)
      ensures Fits(l, Now(), available) <==>
              ptr == 0 || FrameOf(l.areas, ptr).None? || !CanMerge(old(s), n)
    {
      if ptr == 0 {
        return;
      }
      var page := Phys2Page(l.areas, ptr);
      if page.None? {
        return;
      }
      ghost var a', credit := FreeFacts(l, Abstract(), n);
      CreditMerged(ptr, n, a', credit);
    }
  }

  // Releasing block n of area a leads to a', and the source credits `credit`.
  ghost predicate Released(l: Layout, a: Area, n: nat, a': Area, credit: nat)
    requires l.Valid() && AreaOk(a, l.g.logMax)
  {
    && n < |a.s.t| && a.s.t[n] == Live && Depth(n) <= l.g.logMax
    && a'.s == Release(a.s, l.Order(), n) && AreaOk(a', l.g.logMax)
    && a'.available == a.available + Size(l.g.logMax, Depth(n))
    && credit == MergedSize(l, a.s, n)
  }

  lemma CreditVerdict(l: Layout, m: Image, a: Area, n: nat, a': Area, credit: nat, available: nat)
    requires l.Valid() && AreaOk(a, l.g.logMax) && Released(l, a, n, a', credit) && Good(l, m, a')
    requires available == a.available + credit
    ensures Good(l, m, Area(a'.s, available)) <==> !CanMerge(a.s, n)
    ensures Fits(l, m, available) <==> !CanMerge(a.s, n)
  {
    MergedCredit(l, a.s, n);
    CreditExact(l, m, a', available);
    FitsExact(l, m, a', available);
  }

  // The area served a request with block e, as Alloc does.
  ghost predicate ServedAsMeant(l: Layout, m: Image, a: Area, requested: nat, m': Image, a': Area, e: nat, r: Option<nat>) {
    && Good(l, m, a) && Good(l, m', a') && requested <= MAX_REQUEST && Allocates(a, l.g.logMax, requested, a', Some(e))
    && Delivered(l, m, m', LiveSet(a.s.t), e, Bucket(l.g.logMax, requested), r)
  }

  // Pointer r is to block e, its bucket was written to its descriptor, and nothing
  // in the blocks `keep` or outside the area has changed.
  ghost predicate Delivered(l: Layout, m: Image, m': Image, keep: set<nat>, e: nat, bkt: int, r: Option<nat>)
    requires PGSHIFT <= l.g.logMax
  {
    && e < l.Nodes() && r == Some(l.Addr(e)) && Keeps(l, m, m', keep)
    && OrderWritten(l.areas, m.pages, m'.pages, l.Addr(e), bkt)
  }

  // buddy_tree_walk went from the root down to node e of this bucket.
  ghost predicate WalkedDown(l: Layout, m: Image, m': Image, bkt: int, e: nat, r: Option<nat>) {
    Mapped(l, m) && 0 <= bkt <= l.Order() && Walks(l, m, 0, bkt, m', r) && Descended(l, m, m', 0, bkt, e, r)
  }

  // The last block of this size was handed out, and two lists end at the first.
  ghost predicate LastHanded(l: Layout, link: Store, size: nat, r: Option<nat>)
    requires PGSHIFT <= l.g.logMax
  {
    && r.Some? && r.value == l.g.base + Pow2(l.g.logMax) - size
    && l.Head(0) in link && link[l.Head(0)].prev == l.g.base
    && l.Head(1) in link && link[l.Head(1)].prev == l.g.base
  }

  lemma FreshWants(logMax: nat, requested: nat, bkt: nat)
    requires PGSHIFT <= logMax && bkt == Bucket(logMax, requested)
    ensures BlockSize(requested) < Pow2(logMax) ==> bkt > 0
  {
  }

  lemma FreshHands(l: Layout, m: Image, a: Area, m': Image, requested: nat, bkt: nat, e: nat, r: Option<nat>)
    requires PGSHIFT <= l.g.logMax && Good(l, m, a) && a == Fresh(l.g.logMax)
    requires 1 <= bkt == Bucket(l.g.logMax, requested) && |a.s.rings| == l.Order() + 1
    requires a.s.rings[bkt] == [] ==> WalkedDown(l, m, m', bkt, e, r)
    ensures LastHanded(l, m'.link, BlockSize(requested), r)
  {
    assert a.s == Initial(l.Order()) && a.s.rings[bkt] == [];
    FreshDescent(l, m, m', bkt, e, r);
    SizeOfBucket(l.g.logMax, requested, bkt);
  }

  lemma AreaIs(a: Area, s: State, available: nat)
    requires a.s == s && a.available == available
    ensures Area(s, available) == a
  {
  }

  lemma FreeFacts(l: Layout, a: Area, n: nat) returns (a': Area, credit: nat)
    requires l.Valid() && AreaOk(a, l.g.logMax) && n < |a.s.t| && a.s.t[n] == Live
    ensures n in LiveSet(a.s.t) && a' == FreeArea(a, l.g.logMax, n)
    ensures Released(l, a, n, a', credit)
  {
    assert n in LiveSet(a.s.t);
    a', credit := FreeArea(a, l.g.logMax, n), MergedSize(l, a.s, n);
    FreeExact(a, l.g.logMax, n);
  }

  // An image of the right state is valid exactly with the right counter.
  lemma CreditExact(l: Layout, m: Image, a: Area, available: nat)
    requires Good(l, m, a)
    ensures Good(l, m, Area(a.s, available)) <==> available == a.available
  {
  }

  // What the source credits for a release: the size of the block it ends as.
  ghost function MergedSize(l: Layout, s: State, n: nat): nat
    requires l.Valid() && Ok(s, l.Order()) && n < |s.t| && s.t[n] == Live
  {
    DepthInTree(l.Order(), n);
    TopDepth(s, l.Order(), n);
    Size(l.g.logMax, Depth(Top(s, l.Order(), n)))
  }

  // How far a release climbs decides what the source credits: the block's own
  // size exactly when it merges with nothing.
  lemma MergedSizeIs(l: Layout, s: State, n: nat, node: nat, top: nat, credit: nat)
    requires l.Valid() && Ok(s, l.Order()) && n < |s.t| && s.t[n] == Live
    requires node == Top(s, l.Order(), n) && top == Depth(node) && credit == MergedSize(l, s, n)
    ensures top <= l.g.logMax && Size(l.g.logMax, top) == credit
  {
    DepthInTree(l.Order(), n);
    TopDepth(s, l.Order(), n);
  }

  lemma MergedCredit(l: Layout, s: State, n: nat)
    requires l.Valid() && Ok(s, l.Order()) && n < |s.t| && s.t[n] == Live
    ensures Depth(n) <= l.Order() && Depth(Top(s, l.Order(), n)) <= l.g.logMax
    ensures MergedSize(l, s, n) == Size(l.g.logMax, Depth(n)) <==> !CanMerge(s, n)
    ensures CanMerge(s, n) ==> MergedSize(l, s, n) >= 2 * Size(l.g.logMax, Depth(n))
  {
    DepthInTree(l.Order(), n);
    TopDepth(s, l.Order(), n);
    SizesCompare(l.g.logMax, Depth(Top(s, l.Order(), n)), Depth(n));
  }

  lemma SizesCompare(logMax: nat, k: nat, j: nat)
    requires k <= j <= logMax
    ensures Size(logMax, k) == Size(logMax, j) <==> k == j
    ensures k < j ==> Size(logMax, k) >= 2 * Size(logMax, j)
  {
    Pow2Monotone(logMax - j, logMax - k);
  }

  lemma {:induction false} TopDepth(s: State, order: nat, n: nat)
    requires Ok(s, order) && n < |s.t| && s.t[n] == Live
    ensures Depth(Top(s, order, n)) <= Depth(n)
    ensures CanMerge(s, n) ==> Depth(Top(s, order, n)) < Depth(n)
    ensures !CanMerge(s, n) ==> Top(s, order, n) == n
    decreases n
  {
    if CanMerge(s, n) {
      MergeOk(s, order, n);
      FamilyOf(n);
      TopDepth(MergeNode(s, n), order, Parent(n));
    }
  }

  // Release and Top, one turn at a time.
  lemma MergeStep(l: Layout, s: State, n: nat)
    requires l.Valid() && Ok(s, l.Order()) && 0 < n < |s.t| && s.t[n] == Live
    ensures Depth(n) == Depth(Parent(n)) + 1 <= l.Order()
    ensures CanMerge(s, n) ==>
              && Depth(n) < |s.rings| && Sibling(n) in s.rings[Depth(n)]
              && Ok(MergeNode(s, n), l.Order()) && MergeNode(s, n).t[Parent(n)] == Live
              && Release(MergeNode(s, n), l.Order(), Parent(n)) == Release(s, l.Order(), n)
              && Top(MergeNode(s, n), l.Order(), Parent(n)) == Top(s, l.Order(), n)
  {
    FamilyOf(n);
    DepthInTree(l.Order(), n);
    if CanMerge(s, n) {
      MergeOk(s, l.Order(), n);
    }
  }

  lemma MergeLive(l: Layout, s: State, n: nat)
    requires l.Valid() && Ok(s, l.Order()) && 0 < n < |s.t| && s.t[n] == Live && CanMerge(s, n)
    ensures Depth(n) < |s.rings| && Sibling(n) in s.rings[Depth(n)]
    ensures LiveSet(MergeNode(s, n).t) - {Parent(n)} == LiveSet(s.t) - {n}
  {
    MergeOk(s, l.Order(), n);
    SiblingInvolution(n);
    assert NodeOk(s.t, Parent(n));
  }

  lemma SettleKeeps(l: Layout, m: Image, s: State, n: nat, keep: set<nat>)
    requires Rep(l, m, s) && n < |s.t| && s.t[n] == Live && !CanMerge(s, n)
    requires n > 0 ==> Parent(n) / 8 < |m.tree|
    requires keep == LiveSet(s.t) - {n}
    ensures Depth(n) <= l.Order() && m.link[l.Head(Depth(n))].prev in m.link
    ensures Keeps(l, m, PushImage(l, m.(tree := ClaimTree(m.tree, n)), Depth(n), n), keep)
  {
    SettleOk(s, l.Order(), n);
    PushKeeps(l, m, s, Settle(s, n), Depth(n), n, keep);
  }

  // Clearing the descriptor of a released block leaves everything else in place.
  lemma Untag(l: Layout, m0: Image, m: Image, s: State, n: nat, f: Frame, keep: set<nat>)
    requires Mapped(l, m) && Ok(s, l.Order()) && n < |s.t| && s.t[n] == Live
    requires Tagged(l, m0.pages, LiveSet(s.t)) && m.pages == m0.pages
    requires FrameOf(l.areas, l.Addr(n)) == Some(f) && keep == LiveSet(s.t) - {n}
    requires Keeps(l, m0, m, keep)
    ensures Mapped(l, m.(pages := m.pages[f := ZERO_PAGE]))
    ensures Tagged(l, m.pages[f := ZERO_PAGE], keep)
    ensures Keeps(l, m0, m.(pages := m.pages[f := ZERO_PAGE]), keep)
  {
    AddrInArea(l, n);
    PageKeeps(l, m, s.t, n, f, ZERO_PAGE, keep);
    KeepsTrans(l, m0, m, m.(pages := m.pages[f := ZERO_PAGE]), keep);
    forall x | x in keep && x < l.Nodes()
      ensures FrameOf(l.areas, l.Addr(x)) != Some(f)
    {
      BlocksApart(l, s.t, x, n);
    }
  }

  lemma TakeTagged(l: Layout, pages: map<Frame, Page>, s: State, j: nat, n: nat, s1: State)
    requires l.Valid() && j < |s.rings| && s.rings[j] != [] && n == Last(s.rings[j]) && n < |s.t|
    requires s.t[n] == Free && s1 == Take(s, j) && Tagged(l, pages, LiveSet(s.t))
    ensures |s1.t| == |s.t| && s1.t[n] == Live
    ensures LiveSet(s1.t) - {n} == LiveSet(s.t)
    ensures Tagged(l, pages, LiveSet(s1.t) - {n})
  {
  }

  // The state s' and block n that splitting the deepest listed block leads to.
  ghost predicate Served(s: State, order: nat, bkt: nat, s': State, n: nat)
    requires bkt <= order && |s.rings| == order + 1
  {
    && Deepest(s.rings, bkt).Some?
    && ServedFrom(s, order, bkt, Deepest(s.rings, bkt).value, s', n)
  }

  ghost predicate ServedFrom(s: State, order: nat, bkt: nat, j: nat, s': State, n: nat)
    requires bkt <= order && |s.rings| == order + 1
  {
    && j <= bkt && s.rings[j] != [] && Last(s.rings[j]) < |s.t| == NodeCount(order) && Depth(Last(s.rings[j])) == j
    && SplitsTo(Take(s, j), order, Last(s.rings[j]), bkt, s', n)
  }

  lemma ServedOne(s: State, order: nat, bkt: nat, j: nat, node: nat, s': State, n: nat)
    requires bkt <= order && |s.rings| == order + 1 && ServedFrom(s, order, bkt, j, s', n)
    requires node == Last(s.rings[j])
    ensures j <= bkt && s.rings[j] != [] && node < |s.t| == NodeCount(order) && Depth(node) == j
    ensures SplitsTo(Take(s, j), order, node, bkt, s', n)
  {
  }

  // The pointer of a block leads back to it.
  lemma BlockBack(l: Layout, n: nat, k: nat)
    requires l.Valid() && n < l.Nodes() && k == Depth(n)
    ensures k <= l.g.logMax && l.g.base <= l.Addr(n) && Ptr2Node(l.g, l.Addr(n), k) == n
  {
    AddrInArea(l, n);
    AddressRoundTrip(l.g, n);
  }

  // A request served from bucket bkt takes area a to a', and its block is x, if any.
  ghost predicate Grants(l: Layout, a: Area, bkt: nat, size: nat, a': Area, x: Option<nat>)
    requires PGSHIFT <= l.g.logMax
  {
    && bkt <= l.Order() && |a.s.rings| == l.Order() + 1
    && (x.None? ==> Deepest(a.s.rings, bkt).None? && a' == a)
    && (x.Some? ==>
          && Served(a.s, l.Order(), bkt, a'.s, x.value)
          && AreaOk(a', l.g.logMax) && a.available == a'.available + size
          && Depth(x.value) == bkt && LiveSet(a'.s.t) == LiveSet(a.s.t) + {x.value})
  }

  // AllocAt along the steps of the object.
  lemma GrantedBy(l: Layout, a: Area, bkt: nat, a': Area, x: Option<nat>)
    requires AreaOk(a, l.g.logMax) && bkt <= l.Order() && AllocatesAt(a, l.g.logMax, bkt, a', x)
    ensures Grants(l, a, bkt, Size(l.g.logMax, bkt), a', x)
  {
    DeepestIs(a.s.rings, bkt);
    AllocAtComplete(a, l.g.logMax, bkt, a', x);
    if x.Some? {
      TakeOk(a.s, l.Order(), Deepest(a.s.rings, bkt).value);
    }
  }

  // With list j the deepest that is not empty, its last block is the one split.
  lemma GrantedOne(l: Layout, a: Area, bkt: nat, size: nat, a': Area, x: Option<nat>, j: nat, node: nat)
    requires PGSHIFT <= l.g.logMax && Grants(l, a, bkt, size, a', x)
    requires Deepest(a.s.rings, bkt) == Some(j) && j < |a.s.rings| && a.s.rings[j] != [] && node == Last(a.s.rings[j])
    ensures x.Some? && j <= bkt && node < |a.s.t| == NodeCount(l.Order()) && Depth(node) == j
    ensures SplitsTo(Take(a.s, j), l.Order(), node, bkt, a'.s, x.value)
    ensures AreaOk(a', l.g.logMax) && a.available == a'.available + size
  {
    ServedOne(a.s, l.Order(), bkt, j, node, a'.s, x.value);
  }

  // With a block listed in the very bucket, that block is the one served.
  lemma GrantedExact(l: Layout, a: Area, bkt: nat, size: nat, a': Area, x: Option<nat>)
    requires PGSHIFT <= l.g.logMax && Grants(l, a, bkt, size, a', x) && a.s.rings[bkt] != []
    ensures x.Some? && ServedFrom(a.s, l.Order(), bkt, bkt, a'.s, x.value)
    ensures AreaOk(a', l.g.logMax) && a.available == a'.available + size
    ensures Depth(x.value) == bkt && LiveSet(a'.s.t) == LiveSet(a.s.t) + {x.value}
  {
    DeepestAt(a.s.rings, bkt, bkt);
  }

  lemma GrantFacts(l: Layout, a: Area, requested: nat, bkt: nat, realsz: nat) returns (a': Area, x: Option<nat>)
    requires AreaOk(a, l.g.logMax) && bkt == Bucket(l.g.logMax, requested) && realsz == BlockSize(requested)
    ensures AllocatesAt(a, l.g.logMax, bkt, a', x)
    ensures Grants(l, a, bkt, realsz, a', x)
  {
    a', x := AllocFrom(a, l.g.logMax, bkt);
    GrantedBy(l, a, bkt, a', x);
    SizeOfBucket(l.g.logMax, requested, bkt);
  }

  lemma AllocFacts(l: Layout, a: Area, requested: nat, bkt: nat, realsz: nat, a': Area, x: Option<nat>)
    requires AreaOk(a, l.g.logMax) && requested <= MAX_REQUEST
    requires bkt == Bucket(l.g.logMax, requested) && realsz == BlockSize(requested)
    requires Sub64(a.available, realsz) <= a.available && AllocatesAt(a, l.g.logMax, bkt, a', x)
    ensures Allocates(a, l.g.logMax, requested, a', x)
  {
  }

  lemma AllocFrom(a: Area, logMax: nat, bkt: nat) returns (a': Area, x: Option<nat>)
    requires AreaOk(a, logMax) && bkt <= logMax - PGSHIFT
    ensures AllocatesAt(a, logMax, bkt, a', x)
  {
    var r := AllocAt(a, logMax, bkt);
    a', x := r.0, r.1;
  }

  lemma SizeOfBucket(logMax: nat, requested: nat, bkt: nat)
    requires PGSHIFT <= logMax && bkt == Bucket(logMax, requested)
    ensures Size(logMax, bkt) == BlockSize(requested)
  {
  }

  // The size the source computes from the wrapped bucket index.
  lemma RealSize(g: Geometry, requested: nat, bkt: nat)
    requires g.Valid() && requested <= MAX_REQUEST
    requires bkt == Bucket(g.logMax, requested) % WORD
    ensures Sub64(g.logMax, bkt) == PGSHIFT + Doublings(requested)
    ensures Shl(1, Sub64(g.logMax, bkt)) == BlockSize(requested)
    ensures Bucket(g.logMax, requested) >= 0 ==> bkt == Bucket(g.logMax, requested)
  {
    BlockSizeBound(requested);
    WrapBack(g.Order(), Doublings(requested), bkt);
    ShlOne(PGSHIFT + Doublings(requested));
  }

  // The two wrap-arounds cancel.
  lemma WrapBack(order: nat, d: nat, bkt: nat)
    requires order <= 18 && d <= 18 && bkt == (order - d) % WORD
    ensures Sub64(order + PGSHIFT, bkt) == PGSHIFT + d
    ensures d <= order ==> bkt == order - d
  {
    if d > order {
      assert bkt == order - d + WORD;
      assert order + PGSHIFT - bkt == PGSHIFT + d - WORD;
    }
  }

  lemma ShlOne(k: nat)
    ensures Shl(1, k) == Pow2(k)
  {
    ShlOfPow2(0, k);
  }

  lemma RootAddr(l: Layout)
    requires l.g.Valid()
    ensures 0 < l.Nodes() && l.Addr(0) == l.g.base
  {
    assert Depth(0) == 0;
    ShlAdd(0, 0, l.g.logMax);
  }

  lemma InitialGood(l: Layout, m: Image)
    requires l.Valid() && |m.tree| == Pow2(l.Order() + 1) && forall i :: 0 <= i < |m.tree| ==> m.tree[i] == 0
    requires forall k :: 0 <= k <= l.Order() ==> Ring(m.link, l.Head(k), [])
    requires forall n :: 0 <= n < l.Nodes() ==> l.Addr(n) in m.link
    requires forall i :: 0 <= i < l.areas[l.area].mapSize ==> Frame(l.area, i) in m.pages
    ensures 0 < l.Nodes() && l.Head(0) in m.link && m.link[l.Head(0)].prev in m.link
    ensures Good(l, PushImage(l, m, 0, 0), Fresh(l.g.logMax))
  {
    InitialRep(l, m);
    FreshOk(l.g.logMax);
    assert LiveSet(Initial(l.Order()).t) == {};
  }

  // Empty lists, a zeroed tree, and one push of the root make the initial state.
  lemma InitialRep(l: Layout, m: Image)
    requires l.Valid() && |m.tree| == Pow2(l.Order() + 1) && forall i :: 0 <= i < |m.tree| ==> m.tree[i] == 0
    requires forall k :: 0 <= k <= l.Order() ==> Ring(m.link, l.Head(k), [])
    requires forall n :: 0 <= n < l.Nodes() ==> l.Addr(n) in m.link
    requires forall i :: 0 <= i < l.areas[l.area].mapSize ==> Frame(l.area, i) in m.pages
    ensures 0 < l.Nodes() && l.Head(0) in m.link && m.link[l.Head(0)].prev in m.link
    ensures Rep(l, PushImage(l, m, 0, 0), Initial(l.Order()))
  {
    InitialOk(l.Order());
    InitialRings(l, m.link);
    PushMappedRoot(l, m);
    forall n | 0 <= n < l.Nodes()
      ensures n / 8 < |m.tree| && Bit(m.tree, n) == BitOf(Initial(l.Order()).t, n)
    {
      assert |m.tree| == 2 * Pow2(l.Order());
    }
  }

  lemma PushMappedRoot(l: Layout, m: Image)
    requires l.Valid() && |m.tree| == Pow2(l.Order() + 1)
    requires forall k :: 0 <= k <= l.Order() ==> Ring(m.link, l.Head(k), [])
    requires forall n :: 0 <= n < l.Nodes() ==> l.Addr(n) in m.link
    requires forall i :: 0 <= i < l.areas[l.area].mapSize ==> Frame(l.area, i) in m.pages
    ensures 0 < l.Nodes() && l.Head(0) in m.link && m.link[l.Head(0)].prev in m.link
    ensures Mapped(l, PushImage(l, m, 0, 0))
  {
    forall k | 0 <= k <= l.Order()
      ensures l.Head(k) in m.link && m.link[l.Head(k)].prev in m.link
    {
      EmptyRing(m.link, l.Head(k), []);
    }
    PushMapped(l, m, 0, 0);
  }

  lemma InitialRings(l: Layout, link: Store)
    requires l.Valid() && 0 < l.Nodes() && l.Addr(0) in link
    requires forall k :: 0 <= k <= l.Order() ==> Ring(link, l.Head(k), [])
    ensures l.Head(0) in link && link[l.Head(0)].prev in link
    ensures RingsRep(l, PushedBack(link, l.Head(0), l.Addr(0)), Initial(l.Order()).rings)
  {
    var s := Initial(l.Order());
    var rings: seq<seq<nat>> := seq(l.Order() + 1, k => []);
    forall k | 0 <= k <= l.Order()
      ensures Ring(link, l.Head(k), l.Addrs(rings[k]))
    {
      assert l.Addrs(rings[k]) == [];
    }
    InitialOk(l.Order());
    OkApart(l, s);
    assert rings[0] + [0] == [0];
    assert rings[0 := [0]] == s.rings;
    PushRep(l, link, rings, 0, 0);
  }
}
