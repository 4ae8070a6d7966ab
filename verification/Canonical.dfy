// What a valid tree means for memory: the live blocks alone determine every
// free block and every tree bit, and the blocks partition the area.

module Canonical {
  import opened Words
  import opened Nodes
  import opened Blocks
  import opened Ledger

  // A split node has a live block below it.
  lemma {:induction false} LiveBelow(t: Tree, order: nat, n: nat) returns (m: nat)
    requires TreeOk(t, order) && n < |t| && (t[n] == Live || t[n] == Split)
    ensures m < |t| && t[m] == Live && IsAncestor(n, m)
    ensures t[n] == Split ==> m != n
    decreases |t| - n
  {
    if t[n] == Live {
      m := n;
    } else {
      assert NodeOk(t, n);
      var c := if t[Left(n)] == Free then Right(n) else Left(n);
      m := LiveBelow(t, order, c);
      AncestorUp(n, c, m);
    }
  }

  lemma {:induction false} AncestorUp(p: nat, n: nat, m: nat)
    requires n > 0 && Parent(n) == p && IsAncestor(n, m)
    ensures IsAncestor(p, m) && m != p
    decreases m
  {
    if m != n {
      AncestorUp(p, n, Parent(m));
      AncestorDepth(p, Parent(m));
    } else {
      assert IsAncestor(p, Parent(n));
    }
  }

  // Nothing but Below lies under a node that is not split.
  lemma {:induction false} OnlyBelow(t: Tree, order: nat, n: nat, m: nat)
    requires TreeOk(t, order) && m < |t| && IsAncestor(n, m) && m != n
    ensures n < |t|
    ensures t[n] != Split ==> t[m] == Below
    decreases m
  {
    var p := Parent(m);
    ParentIs(m);
    AncestorDepth(n, p);
    assert NodeOk(t, p);
    if p != n {
      OnlyBelow(t, order, n, p);
    }
  }

  // A node's interval meets the live blocks: by NestedOrDisjoint this is
  // interval overlap, stated on the tree.
  ghost predicate Meets(live: set<nat>, n: nat) {
    exists m :: m in live && (IsAncestor(m, n) || IsAncestor(n, m))
  }

  lemma MeetsIffSplitOrUnderLive(t: Tree, order: nat, n: nat)
    requires TreeOk(t, order) && n < |t| && t[n] != Below
    ensures Meets(LiveSet(t), n) <==> t[n] != Free
  {
    if t[n] != Free {
      var m := LiveBelow(t, order, n);
    } else {
      forall m | m in LiveSet(t)
        ensures !IsAncestor(m, n) && !IsAncestor(n, m)
      {
        if IsAncestor(m, n) {
          OnlyBelow(t, order, m, n);
        } else if IsAncestor(n, m) {
          OnlyBelow(t, order, n, m);
        }
      }
    }
  }

  // The node at or above `n` that holds it: the first one that is not Below.
  ghost function Holder(t: Tree, order: nat, n: nat): (h: nat)
    requires TreeOk(t, order) && n < |t|
    ensures h <= n && t[h] != Below && IsAncestor(h, n)
    ensures h != n ==> t[h] != Split && t[n] == Below
    decreases n
  {
    if t[n] != Below then n
    else
      ParentIs(n);
      assert NodeOk(t, Parent(n));
      Holder(t, order, Parent(n))
  }

  // Free memory is history independent: the free blocks are exactly the maximal
  // blocks of the tree that meet no live block.
  lemma FreeIsMaximal(t: Tree, order: nat, n: nat)
    requires TreeOk(t, order) && n < |t|
    ensures t[n] == Free <==>
            !Meets(LiveSet(t), n) && (n == 0 || Meets(LiveSet(t), Parent(n)))
  {
    var live := LiveSet(t);
    if n > 0 {
      ParentIs(n);
      assert NodeOk(t, Parent(n));
    }
    if t[n] != Below {
      MeetsIffSplitOrUnderLive(t, order, n);
      if n > 0 {
        assert t[Parent(n)] == Split;
        MeetsIffSplitOrUnderLive(t, order, Parent(n));
      }
    } else {
      var h := Holder(t, order, n);
      if t[h] == Live {
        assert Meets(live, n);
      } else {
        NothingLiveUnderFree(t, order, h, Parent(n));
      }
    }
  }

  lemma {:induction false} NothingLiveUnderFree(t: Tree, order: nat, h: nat, n: nat)
    requires TreeOk(t, order) && n < |t| && IsAncestor(h, n)
    requires h < |t| && t[h] == Free
    ensures !Meets(LiveSet(t), n)
  {
    forall m | m in LiveSet(t)
      ensures !IsAncestor(m, n) && !IsAncestor(n, m)
    {
      if IsAncestor(n, m) {
        AncestorTrans(h, n, m);
        OnlyBelow(t, order, h, m);
      } else if IsAncestor(m, n) {
        AncestorChain(h, m, n);
        if IsAncestor(h, m) {
          OnlyBelow(t, order, h, m);
        } else {
          OnlyBelow(t, order, m, h);
        }
      }
    }
  }

  lemma {:induction false} AncestorTrans(a: nat, b: nat, c: nat)
    requires IsAncestor(a, b) && IsAncestor(b, c)
    ensures IsAncestor(a, c)
    decreases c
  {
    if b != c {
      AncestorTrans(a, b, Parent(c));
    }
  }

  // Two nodes above a third are above one another.
  lemma {:induction false} AncestorChain(a: nat, b: nat, n: nat)
    requires IsAncestor(a, n) && IsAncestor(b, n)
    ensures IsAncestor(a, b) || IsAncestor(b, a)
    decreases n
  {
    if a != n && b != n {
      AncestorChain(a, b, Parent(n));
    }
  }

  lemma SplitIsAboveLive(t: Tree, order: nat, n: nat)
    requires TreeOk(t, order) && n < |t|
    ensures t[n] == Split <==>
            n !in LiveSet(t) && exists m :: m in LiveSet(t) && IsAncestor(n, m)
  {
    if t[n] == Split {
      var m := LiveBelow(t, order, n);
    } else {
      forall m | m in LiveSet(t) && m != n
        ensures !IsAncestor(n, m)
      {
        if IsAncestor(n, m) {
          OnlyBelow(t, order, n, m);
        }
      }
    }
  }

  // Two valid trees with the same live blocks are the same tree: same free
  // blocks, same tree bits, whatever led there.
  lemma HistoryIndependent(t: Tree, t': Tree, order: nat)
    requires TreeOk(t, order) && TreeOk(t', order)
    requires LiveSet(t) == LiveSet(t')
    ensures t == t'
    ensures forall n: nat :: BitOf(t, n) == BitOf(t', n)
  {
    forall n | 0 <= n < |t|
      ensures t[n] == t'[n]
    {
      FreeIsMaximal(t, order, n);
      FreeIsMaximal(t', order, n);
      SplitIsAboveLive(t, order, n);
      SplitIsAboveLive(t', order, n);
      assert t[n] == Live <==> n in LiveSet(t);
      assert t'[n] == Live <==> n in LiveSet(t');
    }
  }

  // Full release restores the initial state.
  lemma FullRelease(t: Tree, order: nat)
    requires TreeOk(t, order) && LiveSet(t) == {}
    ensures t == Initial(order).t
    ensures FreeSet(t) == {0}
    ensures forall n: nat :: !BitOf(t, n)
  {
    InitialOk(order);
    assert LiveSet(Initial(order).t) == {};
    HistoryIndependent(t, Initial(order).t, order);
    assert FreeSet(Initial(order).t) == {0};
  }

  // Merging undoes splitting, list order included.
  lemma MergeUndoesSplit(s: State, order: nat, n: nat)
    requires Ok(s, order) && n < |s.t| && s.t[n] == Live && Depth(n) < order
    ensures Right(n) < |s.t| && Ok(SplitNode(s, n), order)
    ensures SplitNode(s, n).t[Right(n)] == Live && CanMerge(SplitNode(s, n), Right(n))
    ensures Depth(Right(n)) == Depth(n) + 1 && Sibling(Right(n)) == Left(n) && Parent(Right(n)) == n
    ensures Left(n) in SplitNode(s, n).rings[Depth(n) + 1]
    ensures MergeNode(SplitNode(s, n), Right(n)) == s
  {
    SplitOk(s, order, n);
    SplitTree(s.t, order, n);
    DepthChildren(n);
    SiblingOfRight(n);
    SplitRing(s.t, s.rings[Depth(n) + 1], Depth(n) + 1, n, Left(n), Right(n));
    AppendWithout(s.rings[Depth(n) + 1], Left(n));
    PutBack(s.t, n, Left(n), Right(n));
    RestoreAt(s.rings, Depth(n) + 1, s.rings[Depth(n) + 1] + [Left(n)]);
  }

  lemma SiblingOfRight(n: nat)
    ensures Sibling(Right(n)) == Left(n) && Parent(Right(n)) == n
  {
    SiblingIs(Right(n));
    assert Right(n) % 2 == 0;
  }

  lemma RestoreAt(rings: seq<seq<nat>>, k: nat, ring: seq<nat>)
    requires k < |rings|
    ensures rings[k := ring][k := rings[k]] == rings
  {
  }

  lemma AppendWithout(ring: seq<nat>, x: nat)
    requires NoDuplicates(ring + [x])
    ensures x in ring + [x] && Without(ring + [x], x) == ring
  {
    WithoutLast(ring + [x]);
    assert Last(ring + [x]) == x;
  }

  lemma PutBack(t: Tree, n: nat, l: nat, r: nat)
    requires n < l < r < |t| && t[n] == Live && t[l] == Below == t[r]
    ensures t[n := Split][l := Free][r := Live][n := Live][r := Below][l := Below] == t
  {
  }

  // So releasing what splitting down returned is releasing the block it split.
  lemma {:induction false} ReleaseUndoesSplits(s: State, order: nat, n: nat, bkt: nat)
    requires Ok(s, order) && n < |s.t| && s.t[n] == Live && Depth(n) <= bkt <= order
    ensures
      var (s', r) := SplitDown(s, order, n, bkt);
      Ok(s', order) && r < |s'.t| && s'.t[r] == Live && Release(s', order, r) == Release(s, order, n)
    decreases bkt - Depth(n)
  {
    if Depth(n) < bkt {
      MergeUndoesSplit(s, order, n);
      ReleaseUndoesSplits(SplitNode(s, n), order, Right(n), bkt);
    }
  }

  // Settling undoes taking the last block of a list.
  lemma SettleUndoesTake(s: State, order: nat, k: nat)
    requires Ok(s, order) && k <= order && s.rings[k] != []
    ensures Last(s.rings[k]) < |s.t| && Ok(Take(s, k), order) && Take(s, k).t[Last(s.rings[k])] == Live
    ensures Release(Take(s, k), order, Last(s.rings[k])) == s
  {
    TakeOk(s, order, k);
    var n, s1 := Last(s.rings[k]), Take(s, k);
    if n > 0 {
      FamilyOf(n);
      assert NodeOk(s.t, Parent(n));
    }
    assert !CanMerge(s1, n);
    assert s1.rings[k] + [n] == s.rings[k];
    assert Settle(s1, n).t == s.t;
    assert Settle(s1, n).rings == s.rings;
  }

  // Allocating a block and releasing it is the identity: tree, lists and their
  // order.
  lemma AllocateThenRelease(s: State, order: nat, bkt: nat)
    requires Ok(s, order) && bkt <= order
    ensures
      var (s', r) := Allocate(s, order, bkt);
      r.Some? ==> Ok(s', order) && r.value < |s'.t| && s'.t[r.value] == Live
                  && Release(s', order, r.value) == s
  {
    DeepestIs(s.rings, bkt);
    if Deepest(s.rings, bkt).Some? {
      var j := Deepest(s.rings, bkt).value;
      SettleUndoesTake(s, order, j);
      TakeOk(s, order, j);
      ReleaseUndoesSplits(Take(s, j), order, Last(s.rings[j]), bkt);
    }
  }

  // ---- the partition of memory ----

  predicate IsBlock(t: Tree, n: nat) {
    n < |t| && (t[n] == Free || t[n] == Live)
  }

  predicate Holds(g: Geometry, n: nat, a: nat) {
    Depth(n) <= g.logMax && Start(g, n) <= a < End(g, n)
  }

  // No two blocks overlap, live or free, in one bucket or across buckets.
  lemma BlocksDisjoint(g: Geometry, t: Tree, order: nat, m: nat, n: nat)
    requires order <= g.logMax && TreeOk(t, order)
    requires IsBlock(t, m) && IsBlock(t, n) && m != n
    ensures Depth(m) <= g.logMax && Depth(n) <= g.logMax
    ensures End(g, m) <= Start(g, n) || End(g, n) <= Start(g, m)
    ensures Start(g, m) != Start(g, n)
  {
    DepthInTree(order, m);
    DepthInTree(order, n);
    if IsAncestor(m, n) {
      OnlyBelow(t, order, m, n);
    }
    if IsAncestor(n, m) {
      OnlyBelow(t, order, n, m);
    }
    if Depth(m) <= Depth(n) {
      NestedOrDisjoint(g, m, n);
    } else {
      NestedOrDisjoint(g, n, m);
    }
  }

  lemma {:induction false} BlockAt(g: Geometry, t: Tree, order: nat, n: nat, a: nat) returns (b: nat)
    requires order <= g.logMax && TreeOk(t, order) && n < |t| && t[n] != Below
    requires Holds(g, n, a)
    ensures IsBlock(t, b) && Holds(g, b, a)
    decreases |t| - n
  {
    if IsBlock(t, n) {
      b := n;
    } else {
      assert NodeOk(t, n);
      DepthChildren(n);
      DepthInTree(order, Right(n));
      ChildIntervals(g, n);
      b := BlockAt(g, t, order, if a < End(g, Left(n)) then Left(n) else Right(n), a);
    }
  }

  // Every byte of the area lies in exactly one block, live or free.
  lemma Partition(g: Geometry, t: Tree, order: nat, a: nat)
    requires order <= g.logMax && TreeOk(t, order)
    requires g.base <= a < g.base + Pow2(g.logMax)
    ensures exists b: nat :: IsBlock(t, b) && Holds(g, b, a)
    ensures forall m: nat, n: nat :: IsBlock(t, m) && Holds(g, m, a) && IsBlock(t, n) && Holds(g, n, a) ==> m == n
  {
    assert Depth(0) == 0;
    ShlAdd(0, 0, g.logMax);
    var b := BlockAt(g, t, order, 0, a);
    forall m: nat, n: nat | IsBlock(t, m) && Holds(g, m, a) && IsBlock(t, n) && Holds(g, n, a)
      ensures m == n
    {
      if m != n {
        BlocksDisjoint(g, t, order, m, n);
      }
    }
  }

  // Splitting down touches nothing outside the block it starts from.
  lemma {:induction false} SplitDownInside(s: State, order: nat, n: nat, bkt: nat, m: nat)
    requires Ok(s, order) && n < |s.t| && s.t[n] == Live && Depth(n) <= bkt <= order && m < |s.t|
    ensures
      var (s', r) := SplitDown(s, order, n, bkt);
      && |s'.t| == |s.t| && IsAncestor(n, r)
      && (!IsAncestor(n, m) ==> s'.t[m] == s.t[m])
    decreases bkt - Depth(n)
  {
    if Depth(n) < bkt {
      SplitOk(s, order, n);
      DepthChildren(n);
      var c := Right(n);
      assert Parent(c) == n && Parent(Left(n)) == n && IsAncestor(n, n);
      SplitDownInside(SplitNode(s, n), order, c, bkt, m);
      AncestorUp(n, c, SplitDown(SplitNode(s, n), order, c, bkt).1);
      if IsAncestor(c, m) {
        AncestorUp(n, c, m);
      }
    }
  }

  // The blocks pushed on the way down and the block returned tile the block the
  // splitting starts from: each of its bytes lies in exactly one of them.
  lemma SplitDownTiles(g: Geometry, s: State, order: nat, n: nat, bkt: nat, a: nat) returns (b: nat)
    requires order <= g.logMax && Ok(s, order) && n < |s.t| && s.t[n] == Live && Depth(n) <= bkt <= order
    requires Holds(g, n, a)
    ensures
      var (s', r) := SplitDown(s, order, n, bkt);
      && |s'.t| == |s.t| && b < |s.t| && IsAncestor(n, b) && Holds(g, b, a)
      && (b == r || (s'.t[b] == Free && s.t[b] == Below))
      && (forall m: nat :: IsBlock(s'.t, m) && Holds(g, m, a) ==> m == b)
  {
    SplitDownOk(s, order, n, bkt);
    var (s', r) := SplitDown(s, order, n, bkt);
    WithinArea(g, n);
    Partition(g, s'.t, order, a);
    b :| IsBlock(s'.t, b) && Holds(g, b, a);
    SplitDownInside(s, order, n, bkt, b);
    if !IsAncestor(n, b) {
      BlocksDisjoint(g, s.t, order, n, b);
    }
    if b != r {
      TiledBy(s.t, s'.t, order, n, r, b);
    }
  }

  lemma TiledBy(t: Tree, t': Tree, order: nat, n: nat, r: nat, b: nat)
    requires TreeOk(t, order) && TreeOk(t', order) && n < |t| && r < |t| && t[n] == Live
    requires LiveSet(t') == LiveSet(t) - {n} + {r} && IsAncestor(n, r)
    requires IsBlock(t', b) && IsAncestor(n, b) && b != r
    ensures t'[b] == Free && t[b] == Below
  {
    assert r in LiveSet(t');
    if b == n {
      OnlyBelow(t', order, n, r);
    } else {
      OnlyBelow(t, order, n, b);
      assert b !in LiveSet(t');
    }
  }
}
