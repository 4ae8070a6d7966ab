// What allocation and release do to the live blocks and to the byte count.

module Ledger {
  import opened Words
  import opened Nodes
  import opened Blocks

  function LiveSet(t: Tree): (r: set<nat>)
    ensures forall n: nat :: n in r <==> n < |t| && t[n] == Live
  {
    set n: nat | n < |t| && t[n] == Live
  }

  function FreeSet(t: Tree): (r: set<nat>)
    ensures forall n: nat :: n in r <==> n < |t| && t[n] == Free
  {
    set n: nat | n < |t| && t[n] == Free
  }

  // ---- live blocks ----

  lemma {:induction false} SplitDownOk(s: State, order: nat, n: nat, bkt: nat)
    requires Ok(s, order) && n < |s.t| && s.t[n] == Live && Depth(n) <= bkt <= order
    ensures
      var (s', r) := SplitDown(s, order, n, bkt);
      && Ok(s', order) && r < |s'.t| && Depth(r) == bkt
      && (r == n || s.t[r] == Below)
      && LiveSet(s'.t) == LiveSet(s.t) - {n} + {r}
    decreases bkt - Depth(n)
  {
    if Depth(n) < bkt {
      SplitOk(s, order, n);
      DepthChildren(n);
      var s1 := SplitNode(s, n);
      assert NodeOk(s.t, n);
      assert LiveSet(s1.t) == LiveSet(s.t) - {n} + {Right(n)};
      SplitDownOk(s1, order, Right(n), bkt);
    }
  }

  lemma Listed(s: State, order: nat, n: nat)
    requires Ok(s, order) && n < |s.t| && s.t[n] == Free
    ensures Depth(n) <= order && n in s.rings[Depth(n)]
  {
    DepthInTree(order, n);
    assert RingOk(s.t, s.rings[Depth(n)], Depth(n));
  }

  // Allocation is complete: it fails exactly when no block of the bucket or of
  // a shallower one is free, and then it changes nothing.
  lemma AllocateOk(s: State, order: nat, bkt: nat)
    requires Ok(s, order) && bkt <= order
    ensures
      var (s', r) := Allocate(s, order, bkt);
      && Ok(s', order)
      && (r.None? <==> forall n :: n in FreeSet(s.t) ==> Depth(n) > bkt)
      && (r.None? ==> s' == s)
      && (r.Some? ==>
            && r.value < |s'.t| && Depth(r.value) == bkt
            && r.value !in LiveSet(s.t)
            && LiveSet(s'.t) == LiveSet(s.t) + {r.value})
  {
    DeepestIs(s.rings, bkt);
    match Deepest(s.rings, bkt)
    case None =>
      forall n | n in FreeSet(s.t)
        ensures Depth(n) > bkt
      {
        Listed(s, order, n);
      }
    case Some(j) =>
      TakeOk(s, order, j);
      var x := Last(s.rings[j]);
      assert x in FreeSet(s.t) && Depth(x) <= bkt;
      var s1 := Take(s, j);
      assert LiveSet(s1.t) == LiveSet(s.t) + {x};
      SplitDownOk(s1, order, x, bkt);
      var r := SplitDown(s1, order, x, bkt).1;
      assert LiveSet(s.t) + {x} - {x} + {r} == LiveSet(s.t) + {r};
  }

  lemma {:induction false} ReleaseOk(s: State, order: nat, n: nat)
    requires Ok(s, order) && n < |s.t| && s.t[n] == Live
    ensures Ok(Release(s, order, n), order)
    ensures LiveSet(Release(s, order, n).t) == LiveSet(s.t) - {n}
    decreases n
  {
    if CanMerge(s, n) {
      MergeOk(s, order, n);
      MergeSplit(s.t, order, n);
      MergeLiveSet(s.t, Parent(n), n, Sibling(n));
      ReleaseOk(MergeNode(s, n), order, Parent(n));
    } else {
      SettleOk(s, order, n);
      assert LiveSet(Settle(s, n).t) == LiveSet(s.t) - {n};
    }
  }

  // The parent of a block that merges is split, and none of the three is another.
  lemma MergeSplit(t: Tree, order: nat, n: nat)
    requires TreeOk(t, order) && 0 < n < |t| && t[n] == Live && Sibling(n) < |t|
    ensures Parent(n) < n && Parent(n) != Sibling(n) && t[Parent(n)] == Split
  {
    FamilyOf(n);
    assert NodeOk(t, Parent(n));
  }

  lemma MergeLiveSet(t: Tree, p: nat, n: nat, b: nat)
    requires p < |t| && n < |t| && b < |t| && p != n && p != b
    requires t[p] == Split && t[n] == Live && t[b] == Free
    ensures LiveSet(t[p := Live][n := Below][b := Below]) == LiveSet(t) - {n} + {p}
    ensures LiveSet(t[p := Live][n := Below][b := Below]) - {p} == LiveSet(t) - {n}
  {
  }

  // ---- bytes ----

  // The bytes of the first `i` nodes that have status `st`.
  function Bytes(logMax: nat, t: Tree, st: Status, i: nat): nat
    requires i <= |t| <= NodeCount(logMax)
  {
    if i == 0 then 0
    else
      DepthInTree(logMax, i - 1);
      Bytes(logMax, t, st, i - 1) + if t[i - 1] == st then Size(logMax, Depth(i - 1)) else 0
  }

  function FreeBytes(logMax: nat, t: Tree): nat
    requires |t| <= NodeCount(logMax)
  {
    Bytes(logMax, t, Free, |t|)
  }

  function LiveBytes(logMax: nat, t: Tree): nat
    requires |t| <= NodeCount(logMax)
  {
    Bytes(logMax, t, Live, |t|)
  }

  function Weight(logMax: nat, n: nat, counted: bool): nat
    requires n < NodeCount(logMax)
  {
    DepthInTree(logMax, n);
    if counted then Size(logMax, Depth(n)) else 0
  }

  lemma BytesNext(logMax: nat, t: Tree, st: Status, i: nat)
    requires i < |t| <= NodeCount(logMax)
    ensures Bytes(logMax, t, st, i + 1) == Bytes(logMax, t, st, i) + Weight(logMax, i, t[i] == st)
  {
  }

  // More free blocks have more bytes.
  lemma FreeBytesGrow(logMax: nat, t: Tree, t': Tree)
    requires |t| == |t'| <= NodeCount(logMax) && forall n :: 0 <= n < |t| && t[n] == Free ==> t'[n] == Free
    ensures FreeBytes(logMax, t) <= FreeBytes(logMax, t')
  {
    BytesGrow(logMax, t, t', |t|);
  }

  lemma {:induction false} BytesGrow(logMax: nat, t: Tree, t': Tree, i: nat)
    requires i <= |t| == |t'| <= NodeCount(logMax) && forall n :: 0 <= n < |t| && t[n] == Free ==> t'[n] == Free
    ensures Bytes(logMax, t, Free, i) <= Bytes(logMax, t', Free, i)
    decreases i
  {
    if i > 0 {
      BytesGrow(logMax, t, t', i - 1);
      BytesNext(logMax, t, Free, i - 1);
      BytesNext(logMax, t', Free, i - 1);
    }
  }

  lemma {:induction false} BytesUpdate(logMax: nat, t: Tree, st: Status, i: nat, n: nat, v: Status)
    requires i <= |t| <= NodeCount(logMax) && n < |t|
    ensures Bytes(logMax, t[n := v], st, i) ==
            Bytes(logMax, t, st, i)
            + if n < i then Weight(logMax, n, v == st) - Weight(logMax, n, t[n] == st) else 0
    decreases i
  {
    if i > 0 {
      BytesUpdate(logMax, t, st, i - 1, n, v);
    }
  }

  lemma FreeUpdate(logMax: nat, t: Tree, n: nat, v: Status, k: nat)
    requires n < |t| <= NodeCount(logMax) && k == Depth(n)
    ensures k <= logMax
    ensures FreeBytes(logMax, t[n := v]) ==
            FreeBytes(logMax, t)
            + (if v == Free then Size(logMax, k) else 0)
            - (if t[n] == Free then Size(logMax, k) else 0)
  {
    DepthInTree(logMax, n);
    BytesUpdate(logMax, t, Free, |t|, n, v);
  }

  lemma SizeHalves(logMax: nat, k: nat, k': nat)
    requires k' == k + 1 <= logMax
    ensures Size(logMax, k) == 2 * Size(logMax, k')
  {
  }

  lemma NodeCountMonotone(a: nat, b: nat)
    requires a <= b
    ensures NodeCount(a) <= NodeCount(b)
  {
    Pow2Monotone(a, b);
  }

  lemma {:induction false} SplitDownBytes(s: State, order: nat, logMax: nat, n: nat, bkt: nat)
    requires order <= logMax
    requires Ok(s, order) && n < |s.t| && s.t[n] == Live && Depth(n) <= bkt <= order
    ensures |s.t| <= NodeCount(logMax) && |SplitDown(s, order, n, bkt).0.t| == |s.t|
    ensures FreeBytes(logMax, SplitDown(s, order, n, bkt).0.t) ==
            FreeBytes(logMax, s.t) + Size(logMax, Depth(n)) - Size(logMax, bkt)
    decreases bkt - Depth(n)
  {
    NodeCountMonotone(order, logMax);
    if Depth(n) < bkt {
      SplitOk(s, order, n);
      DepthChildren(n);
      SplitTree(s.t, order, n);
      SplitBytes(logMax, s.t, n, Left(n), Right(n), Depth(n), Depth(Right(n)));
      SplitDownBytes(SplitNode(s, n), order, logMax, Right(n), bkt);
    }
  }

  lemma SplitBytes(logMax: nat, t: Tree, n: nat, l: nat, r: nat, k: nat, k': nat)
    requires n < l < r < |t| <= NodeCount(logMax)
    requires t[n] == Live && t[l] == Below == t[r]
    requires k == Depth(n) && Depth(l) == Depth(r) == k' == k + 1 <= logMax
    ensures FreeBytes(logMax, t[n := Split][l := Free][r := Live]) ==
            FreeBytes(logMax, t) + Size(logMax, k) - Size(logMax, k')
  {
    var t1 := t[n := Split];
    var t2 := t1[l := Free];
    FreeUpdate(logMax, t, n, Split, k);
    FreeUpdate(logMax, t1, l, Free, k');
    FreeUpdate(logMax, t2, r, Live, k');
    SizeHalves(logMax, k, k');
  }

  // Conservation: a successful allocation takes exactly its block's bytes.
  lemma AllocateBytes(s: State, order: nat, logMax: nat, bkt: nat)
    requires order <= logMax && Ok(s, order) && bkt <= order
    ensures |s.t| <= NodeCount(logMax) && |Allocate(s, order, bkt).0.t| == |s.t|
    ensures Allocate(s, order, bkt).1.Some? ==>
              FreeBytes(logMax, Allocate(s, order, bkt).0.t) == FreeBytes(logMax, s.t) - Size(logMax, bkt)
  {
    NodeCountMonotone(order, logMax);
    DeepestIs(s.rings, bkt);
    if Deepest(s.rings, bkt).Some? {
      var j := Deepest(s.rings, bkt).value;
      var x := Last(s.rings[j]);
      TakeOk(s, order, j);
      FreeUpdate(logMax, s.t, x, Live, j);
      SplitDownBytes(Take(s, j), order, logMax, x, bkt);
    }
  }

  lemma MergeBytes(logMax: nat, t: Tree, p: nat, n: nat, b: nat, k: nat)
    requires n < |t| && b < |t| <= NodeCount(logMax) && p < n && p < b && n != b
    requires t[n] == Live && t[b] == Free && t[p] == Split
    requires k == Depth(n) == Depth(b) <= logMax
    ensures FreeBytes(logMax, t[p := Live][n := Below][b := Below]) == FreeBytes(logMax, t) - Size(logMax, k)
  {
    var t1 := t[p := Live];
    var t2 := t1[n := Below];
    FreeUpdate(logMax, t, p, Live, Depth(p));
    FreeUpdate(logMax, t1, n, Below, k);
    FreeUpdate(logMax, t2, b, Below, k);
  }

  // Conservation: a release gives back exactly the bytes of the block released,
  // however far it merges.
  lemma {:induction false} ReleaseBytes(s: State, order: nat, logMax: nat, n: nat)
    requires order <= logMax && Ok(s, order) && n < |s.t| && s.t[n] == Live
    ensures Depth(n) <= order && |s.t| <= NodeCount(logMax) && |Release(s, order, n).t| == |s.t|
    ensures FreeBytes(logMax, Release(s, order, n).t) == FreeBytes(logMax, s.t) + Size(logMax, Depth(n))
    decreases n
  {
    DepthInTree(order, n);
    NodeCountMonotone(order, logMax);
    if CanMerge(s, n) {
      MergeOk(s, order, n);
      FamilyOf(n);
      MergeTree(s.t, order, Parent(n), n, Sibling(n));
      MergeBytes(logMax, s.t, Parent(n), n, Sibling(n), Depth(n));
      SizeHalves(logMax, Depth(Parent(n)), Depth(n));
      ReleaseBytes(MergeNode(s, n), order, logMax, Parent(n));
    } else {
      SettleOk(s, order, n);
      FreeUpdate(logMax, s.t, n, Free, Depth(n));
    }
  }

  function Min(a: nat, b: nat): nat {
    if a <= b then a else b
  }

  // The bytes of the first `i` nodes that are not below a block.
  function Seen(logMax: nat, t: Tree, i: nat): nat
    requires i <= |t| <= NodeCount(logMax)
  {
    Bytes(logMax, t, Free, i) + Bytes(logMax, t, Live, i) + Bytes(logMax, t, Split, i)
  }

  lemma SeenNext(logMax: nat, t: Tree, i: nat)
    requires i < |t| <= NodeCount(logMax)
    ensures Seen(logMax, t, i + 1) == Seen(logMax, t, i) + Weight(logMax, i, t[i] != Below)
  {
  }

  // Reading the tree in index order: the blocks seen so far and the nodes
  // waiting below a split always add up to the whole area.
  lemma {:induction false} FrontierBytes(logMax: nat, order: nat, t: Tree, i: nat)
    requires order <= logMax && TreeOk(t, order) && i <= |t| <= NodeCount(logMax)
    ensures Seen(logMax, t, Min(2 * i + 1, |t|)) == Pow2(logMax) + Bytes(logMax, t, Split, i)
    decreases i
  {
    if i == 0 {
      assert Depth(0) == 0;
      SeenNext(logMax, t, 0);
    } else {
      FrontierBytes(logMax, order, t, i - 1);
      if Right(i - 1) < |t| {
        FrontierStep(logMax, order, t, i - 1, Left(i - 1), 2 * i + 1);
      } else {
        OddTree(order, i - 1);
        assert NodeOk(t, i - 1);
      }
    }
  }

  lemma FrontierStep(logMax: nat, order: nat, t: Tree, n: nat, l: nat, end: nat)
    requires order <= logMax && TreeOk(t, order) && Right(n) < |t| <= NodeCount(logMax)
    requires l == Left(n) && end == Right(n) + 1
    ensures Seen(logMax, t, end) == Seen(logMax, t, l) + Weight(logMax, n, t[n] == Split)
  {
    assert NodeOk(t, n);
    SeenTwo(logMax, t, l, Right(n), end);
    WeightHalves(logMax, n, l, Right(n), t[n] == Split);
  }

  lemma SeenTwo(logMax: nat, t: Tree, l: nat, r: nat, end: nat)
    requires r == l + 1 && end == r + 1 <= |t| <= NodeCount(logMax)
    ensures Seen(logMax, t, end) ==
            Seen(logMax, t, l) + Weight(logMax, l, t[l] != Below) + Weight(logMax, r, t[r] != Below)
  {
    SeenNext(logMax, t, l);
    SeenNext(logMax, t, r);
  }

  // Two children weigh as much as their parent.
  lemma WeightHalves(logMax: nat, n: nat, l: nat, r: nat, counted: bool)
    requires l == Left(n) && r == Right(n) < NodeCount(logMax)
    ensures Weight(logMax, n, counted) == Weight(logMax, l, counted) + Weight(logMax, r, counted)
  {
    DepthChildren(n);
    DepthInTree(logMax, r);
    SizeHalves(logMax, Depth(n), Depth(r));
  }

  lemma OddTree(order: nat, n: nat)
    requires Right(n) >= NodeCount(order)
    ensures Left(n) >= NodeCount(order)
  {
    assert n + 1 >= Pow2(order);
  }

  // Free bytes and live bytes add up to the area in every valid tree.
  lemma TotalBytes(logMax: nat, order: nat, t: Tree)
    requires order <= logMax && TreeOk(t, order)
    ensures |t| <= NodeCount(logMax)
    ensures FreeBytes(logMax, t) + LiveBytes(logMax, t) == Pow2(logMax)
  {
    NodeCountMonotone(order, logMax);
    FrontierBytes(logMax, order, t, |t|);
  }
}
