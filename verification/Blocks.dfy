// The abstract machine behind kernel/kernel/buddy.c: which node of the tree is
// a free block, a live block, a split block, or lies below a block, and the
// order of the free lists. One function per step of the source's loops.

module Blocks {
  import opened Nodes

  datatype Option<+T> = None | Some(value: T)

  datatype Status = Below | Free | Live | Split

  type Tree = seq<Status>

  // What a node's status says about its children.
  ghost predicate NodeOk(t: Tree, n: nat)
    requires n < |t|
  {
    if Right(n) < |t| then
      if t[n] == Split then
        && t[Left(n)] != Below && t[Right(n)] != Below
        && !(t[Left(n)] == Free && t[Right(n)] == Free)
      else
        t[Left(n)] == Below && t[Right(n)] == Below
    else
      t[n] != Split
  }

  ghost predicate TreeOk(t: Tree, order: nat) {
    && |t| == NodeCount(order)
    && t[0] != Below
    && forall n :: 0 <= n < |t| ==> NodeOk(t, n)
  }

  // The tree bit the source keeps for a node: exactly one child is free.
  predicate BitOf(t: Tree, n: nat) {
    Right(n) < |t| && (t[Left(n)] == Free) != (t[Right(n)] == Free)
  }

  datatype State = State(t: Tree, rings: seq<seq<nat>>)

  predicate NoDuplicates<T(==)>(s: seq<T>) {
    forall i, j :: 0 <= i < j < |s| ==> s[i] != s[j]
  }

  // Free list k holds the free nodes of bucket k, each once.
  ghost predicate RingOk(t: Tree, ring: seq<nat>, k: nat) {
    && NoDuplicates(ring)
    && (forall i :: 0 <= i < |ring| ==> ring[i] < |t| && Depth(ring[i]) == k && t[ring[i]] == Free)
    && (forall n :: 0 <= n < |t| && t[n] == Free && Depth(n) == k ==> n in ring)
  }

  ghost predicate Ok(s: State, order: nat) {
    && TreeOk(s.t, order)
    && |s.rings| == order + 1
    && forall k :: 0 <= k <= order ==> RingOk(s.t, s.rings[k], k)
  }

  // buddy_area_init: the root is the only block, and it is free.
  function Initial(order: nat): State {
    State(seq(NodeCount(order), n => if n == 0 then Free else Below),
          seq(order + 1, k => if k == 0 then [0] else []))
  }

  function Last<T>(s: seq<T>): T
    requires s != []
  {
    s[|s| - 1]
  }

  function DropLast<T>(s: seq<T>): seq<T>
    requires s != []
  {
    s[..|s| - 1]
  }

  // Take the block at the back of free list k.
  function Take(s: State, k: nat): State
    requires k < |s.rings| && s.rings[k] != [] && Last(s.rings[k]) < |s.t|
  {
    State(s.t[Last(s.rings[k]) := Live], s.rings[k := DropLast(s.rings[k])])
  }

  // Split a claimed block: its left child becomes free, its right child is claimed.
  function SplitNode(s: State, n: nat): State
    requires Right(n) < |s.t| && Depth(n) + 1 < |s.rings|
  {
    var k := Depth(n) + 1;
    State(s.t[n := Split][Left(n) := Free][Right(n) := Live], s.rings[k := s.rings[k] + [Left(n)]])
  }

  // Split rightwards until the claimed block is in bucket bkt.
  function SplitDown(s: State, order: nat, n: nat, bkt: nat): (State, nat)
    requires Depth(n) <= bkt <= order && |s.rings| == order + 1 && |s.t| == NodeCount(order)
    decreases bkt - Depth(n)
  {
    if Depth(n) == bkt then (s, n)
    else
      DepthInTree(order, Right(n));
      DepthChildren(n);
      SplitDown(SplitNode(s, n), order, Right(n), bkt)
  }

  // The deepest non-empty free list at or above bucket bkt.
  function Deepest(rings: seq<seq<nat>>, bkt: nat): Option<nat>
    requires bkt < |rings|
  {
    SearchUp(rings, bkt)
  }

  function SearchUp(rings: seq<seq<nat>>, bkt: nat): Option<nat>
    requires bkt < |rings|
  {
    if rings[bkt] != [] then Some(bkt)
    else if bkt == 0 then None
    else SearchUp(rings, bkt - 1)
  }

  lemma {:induction false} DeepestIs(rings: seq<seq<nat>>, bkt: nat)
    requires bkt < |rings|
    ensures Deepest(rings, bkt).None? <==> forall j :: 0 <= j <= bkt ==> rings[j] == []
    ensures Deepest(rings, bkt).Some? ==>
              var j := Deepest(rings, bkt).value;
              j <= bkt && rings[j] != [] && forall i :: j < i <= bkt ==> rings[i] == []
  {
    if rings[bkt] == [] && bkt > 0 {
      DeepestIs(rings, bkt - 1);
    }
  }

  lemma {:induction false} DeepestAt(rings: seq<seq<nat>>, bkt: nat, j: nat)
    requires j <= bkt < |rings| && rings[j] != [] && forall i :: j < i <= bkt ==> rings[i] == []
    ensures Deepest(rings, bkt) == Some(j)
  {
    if j < bkt {
      DeepestAt(rings, bkt - 1, j);
    }
  }

  ghost function Allocate(s: State, order: nat, bkt: nat): (State, Option<nat>)
    requires Ok(s, order) && bkt <= order
  {
    DeepestIs(s.rings, bkt);
    match Deepest(s.rings, bkt)
    case None => (s, None)
    case Some(j) =>
      var (s', n) := SplitDown(Take(s, j), order, Last(s.rings[j]), bkt);
      (s', Some(n))
  }

  function IndexOf<T(==)>(s: seq<T>, x: T): (i: nat)
    requires x in s
    ensures i < |s| && s[i] == x
  {
    if s[0] == x then 0 else 1 + IndexOf(s[1..], x)
  }

  function Without<T(==)>(s: seq<T>, x: T): seq<T>
    requires x in s
  {
    s[..IndexOf(s, x)] + s[IndexOf(s, x) + 1..]
  }

  // Join a released block with its free sibling into their parent.
  function MergeNode(s: State, n: nat): State
    requires 0 < n < |s.t| && Sibling(n) < |s.t|
    requires Depth(n) < |s.rings| && Sibling(n) in s.rings[Depth(n)]
  {
    var k := Depth(n);
    State(s.t[Parent(n) := Live][n := Below][Sibling(n) := Below],
          s.rings[k := Without(s.rings[k], Sibling(n))])
  }

  // A released block that cannot merge further goes to the back of its list.
  function Settle(s: State, n: nat): State
    requires n < |s.t| && Depth(n) < |s.rings|
  {
    State(s.t[n := Free], s.rings[Depth(n) := s.rings[Depth(n)] + [n]])
  }

  ghost predicate CanMerge(s: State, n: nat) {
    0 < n && Sibling(n) < |s.t| && s.t[Sibling(n)] == Free
  }

  // The node a release ends at.
  ghost function Top(s: State, order: nat, n: nat): nat
    requires Ok(s, order) && n < |s.t| && s.t[n] == Live
    decreases n
  {
    if !CanMerge(s, n) then n
    else
      MergeOk(s, order, n);
      Top(MergeNode(s, n), order, Parent(n))
  }

  ghost function Release(s: State, order: nat, n: nat): State
    requires Ok(s, order) && n < |s.t| && s.t[n] == Live
    decreases n
  {
    DepthInTree(order, n);
    if !CanMerge(s, n) then Settle(s, n)
    else
      MergeOk(s, order, n);
      Release(MergeNode(s, n), order, Parent(n))
  }

  // ---- every step keeps the invariant ----

  lemma WithoutAt<T>(s: seq<T>, x: T)
    requires x in s
    ensures |Without(s, x)| == |s| - 1
    ensures forall j :: 0 <= j < |s| - 1 ==>
              Without(s, x)[j] == if j < IndexOf(s, x) then s[j] else s[j + 1]
  {
  }

  lemma {:induction false} WithoutIs<T>(s: seq<T>, x: T)
    requires x in s && NoDuplicates(s)
    ensures NoDuplicates(Without(s, x))
    ensures forall y :: y in Without(s, x) <==> y in s && y != x
  {
    var i := IndexOf(s, x);
    var w := Without(s, x);
    assert forall j :: 0 <= j < |w| ==> w[j] == if j < i then s[j] else s[j + 1];
    forall y | y in s && y != x
      ensures y in w
    {
      var j := IndexOf(s, y);
      assert w[if j < i then j else j - 1] == y;
    }
  }

  lemma InitialOk(order: nat)
    ensures Ok(Initial(order), order)
  {
    var s := Initial(order);
    assert Depth(0) == 0;
    forall k | 0 <= k <= order
      ensures RingOk(s.t, s.rings[k], k)
    {
      if k == 0 {
        assert s.rings[k] == [0];
      }
    }
  }

  // Same blocks of bucket k free before and after: the list still fits.
  lemma RingSame(t: Tree, t': Tree, ring: seq<nat>, k: nat)
    requires |t| == |t'| && RingOk(t, ring, k)
    requires forall n :: 0 <= n < |t| && Depth(n) == k ==> (t'[n] == Free <==> t[n] == Free)
    ensures RingOk(t', ring, k)
  {
  }

  lemma RingAppend(t: Tree, t': Tree, ring: seq<nat>, k: nat, x: nat)
    requires |t| == |t'| && RingOk(t, ring, k)
    requires x < |t| && Depth(x) == k && t[x] != Free && t'[x] == Free
    requires forall n :: 0 <= n < |t| && Depth(n) == k && n != x ==> (t'[n] == Free <==> t[n] == Free)
    ensures RingOk(t', ring + [x], k)
  {
    var r := ring + [x];
    assert r[|ring|] == x;
    forall n | 0 <= n < |t'| && t'[n] == Free && Depth(n) == k
      ensures n in r
    {
      assert n != x ==> n in ring;
    }
  }

  lemma RingRemove(t: Tree, t': Tree, ring: seq<nat>, k: nat, x: nat)
    requires |t| == |t'| && RingOk(t, ring, k)
    requires x < |t| && Depth(x) == k && t[x] == Free && t'[x] != Free
    requires forall n :: 0 <= n < |t| && Depth(n) == k && n != x ==> (t'[n] == Free <==> t[n] == Free)
    ensures x in ring && RingOk(t', Without(ring, x), k)
  {
    WithoutIs(ring, x);
    var w := Without(ring, x);
    forall i | 0 <= i < |w|
      ensures w[i] < |t'| && Depth(w[i]) == k && t'[w[i]] == Free
    {
      assert w[i] in w;
    }
  }

  lemma {:induction false} WithoutLast<T>(s: seq<T>)
    requires s != [] && NoDuplicates(s)
    ensures Without(s, Last(s)) == DropLast(s)
  {
    assert IndexOf(s, Last(s)) == |s| - 1;
  }

  lemma TakeOk(s: State, order: nat, k: nat)
    requires Ok(s, order) && k <= order && s.rings[k] != []
    ensures Last(s.rings[k]) < |s.t| && s.t[Last(s.rings[k])] == Free
    ensures Depth(Last(s.rings[k])) == k
    ensures Ok(Take(s, k), order)
  {
    var n := Last(s.rings[k]);
    var s' := Take(s, k);
    assert RingOk(s.t, s.rings[k], k);
    forall m | 0 <= m < |s'.t|
      ensures NodeOk(s'.t, m)
    {
      assert NodeOk(s.t, m) && NodeOk(s.t, n);
    }
    forall j | 0 <= j <= order
      ensures RingOk(s'.t, s'.rings[j], j)
    {
      assert RingOk(s.t, s.rings[j], j);
      if j == k {
        WithoutLast(s.rings[k]);
        RingRemove(s.t, s'.t, s.rings[k], k, n);
      } else {
        RingSame(s.t, s'.t, s.rings[j], j);
      }
    }
  }

  lemma SplitTree(t: Tree, order: nat, n: nat)
    requires TreeOk(t, order) && n < |t| && t[n] == Live && Right(n) < |t|
    ensures t[Left(n)] == Below == t[Right(n)]
    ensures TreeOk(t[n := Split][Left(n) := Free][Right(n) := Live], order)
  {
    var l, r := Left(n), Right(n);
    var t' := t[n := Split][l := Free][r := Live];
    assert NodeOk(t, n);
    forall m | 0 <= m < |t'|
      ensures NodeOk(t', m)
    {
      assert NodeOk(t, m);
    }
  }

  lemma SplitRing(t: Tree, ring: seq<nat>, k: nat, n: nat, l: nat, r: nat)
    requires n < l < r < |t| && t[n] == Live
    requires t[l] == Below == t[r] && RingOk(t, ring, k)
    requires Depth(l) == Depth(r) == Depth(n) + 1
    ensures RingOk(t[n := Split][l := Free][r := Live], if k == Depth(l) then ring + [l] else ring, k)
  {
    var t' := t[n := Split][l := Free][r := Live];
    if k == Depth(l) {
      RingAppend(t, t', ring, k, l);
    } else {
      RingSame(t, t', ring, k);
    }
  }

  lemma SplitOk(s: State, order: nat, n: nat)
    requires Ok(s, order) && n < |s.t| && s.t[n] == Live && Depth(n) < order
    ensures Right(n) < |s.t|
    ensures Ok(SplitNode(s, n), order)
  {
    DepthChildren(n);
    DepthInTree(order, Right(n));
    SplitTree(s.t, order, n);
    var s' := SplitNode(s, n);
    forall j | 0 <= j <= order
      ensures RingOk(s'.t, s'.rings[j], j)
    {
      SplitRing(s.t, s.rings[j], j, n, Left(n), Right(n));
    }
  }

  lemma MergeTree(t: Tree, order: nat, p: nat, n: nat, b: nat)
    requires TreeOk(t, order) && Right(p) < |t|
    requires (n == Left(p) && b == Right(p)) || (n == Right(p) && b == Left(p))
    requires t[n] == Live && t[b] == Free
    ensures TreeOk(t[p := Live][n := Below][b := Below], order)
    ensures t[p] == Split
  {
    var t' := t[p := Live][n := Below][b := Below];
    assert NodeOk(t, p) && NodeOk(t, n) && NodeOk(t, b);
    forall m | 0 <= m < |t'|
      ensures NodeOk(t', m)
    {
      assert NodeOk(t, m);
    }
  }

  lemma MergeOk(s: State, order: nat, n: nat)
    requires Ok(s, order) && n < |s.t| && s.t[n] == Live && CanMerge(s, n)
    ensures 0 < Depth(n) <= order && Sibling(n) in s.rings[Depth(n)]
    ensures Ok(MergeNode(s, n), order)
    ensures Parent(n) < n && MergeNode(s, n).t[Parent(n)] == Live
  {
    FamilyOf(n);
    DepthInTree(order, n);
    MergeOkAt(s, order, Parent(n), n, Sibling(n));
  }

  lemma MergeOkAt(s: State, order: nat, p: nat, n: nat, b: nat)
    requires Ok(s, order) && n < |s.t| && b < |s.t|
    requires Family(p, n, b)
    requires Depth(n) == Depth(b) <= order
    requires s.t[n] == Live && s.t[b] == Free
    ensures p < n && p != b && b in s.rings[Depth(n)]
    ensures Ok(State(s.t[p := Live][n := Below][b := Below],
                     s.rings[Depth(n) := Without(s.rings[Depth(n)], b)]), order)
  {
    MergeTree(s.t, order, p, n, b);
    assert RingOk(s.t, s.rings[Depth(n)], Depth(n));
    forall j | 0 <= j <= order
      ensures RingOk(s.t[p := Live][n := Below][b := Below],
                     if j == Depth(b) then Without(s.rings[j], b) else s.rings[j], j)
      ensures j == Depth(b) ==> b in s.rings[j]
    {
      MergeRing(s.t, s.rings[j], j, p, n, b);
    }
  }

  lemma MergeRing(t: Tree, ring: seq<nat>, k: nat, p: nat, n: nat, b: nat)
    requires p < |t| && n < |t| && b < |t| && n != b && p != n && p != b
    requires Depth(n) == Depth(b)
    requires t[n] == Live && t[b] == Free && t[p] == Split && RingOk(t, ring, k)
    ensures k == Depth(b) ==> b in ring
    ensures RingOk(t[p := Live][n := Below][b := Below], if k == Depth(b) then Without(ring, b) else ring, k)
  {
    var t' := t[p := Live][n := Below][b := Below];
    if k == Depth(b) {
      RingRemove(t, t', ring, k, b);
    } else {
      RingSame(t, t', ring, k);
    }
  }

  lemma SettleTree(t: Tree, order: nat, n: nat, b: nat)
    requires TreeOk(t, order) && n < |t| && t[n] == Live
    requires n > 0 ==> b == if n % 2 == 1 then n + 1 else n - 1
    requires n > 0 && b < |t| ==> t[b] != Free
    ensures TreeOk(t[n := Free], order)
  {
    var t' := t[n := Free];
    assert NodeOk(t, n);
    forall m | 0 <= m < |t'|
      ensures NodeOk(t', m)
    {
      assert NodeOk(t, m);
    }
  }

  lemma SettleOk(s: State, order: nat, n: nat)
    requires Ok(s, order) && n < |s.t| && s.t[n] == Live && !CanMerge(s, n)
    ensures Depth(n) <= order
    ensures Ok(Settle(s, n), order)
  {
    DepthInTree(order, n);
    if n == 0 {
      SettleTree(s.t, order, n, 0);
    } else {
      SiblingIs(n);
      SettleTree(s.t, order, n, Sibling(n));
    }
    var s' := Settle(s, n);
    forall j | 0 <= j <= order
      ensures RingOk(s'.t, s'.rings[j], j)
    {
      assert RingOk(s.t, s.rings[j], j);
      if j == Depth(n) {
        RingAppend(s.t, s'.t, s.rings[j], j, n);
      } else {
        RingSame(s.t, s'.t, s.rings[j], j);
      }
    }
  }
}
