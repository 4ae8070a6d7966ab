// Node indices of the heap-ordered binary tree, and the address interval each
// node stands for (kernel/include/lunaros/buddy.h, kernel/kernel/buddy.c:34-46).

module Nodes {
  import opened Words

  const PGSHIFT: nat := 12
  const PGSIZE: nat := 4096

  function Parent(n: nat): nat
    requires n > 0
  {
    (n - 1) / 2
  }

  function Left(n: nat): nat {
    2 * n + 1
  }

  function Right(n: nat): nat {
    2 * n + 2
  }

  // Bitwise exclusive or.
  function Xor(a: nat, b: nat): nat
    decreases a + b
  {
    if a == 0 && b == 0 then 0
    else (if a % 2 != b % 2 then 1 else 0) + 2 * Xor(a / 2, b / 2)
  }

  function Sibling(n: nat): nat
    requires n > 0
  {
    Xor(n - 1, 1) + 1
  }

  lemma {:induction false} XorZero(a: nat)
    ensures Xor(a, 0) == a
  {
    if a > 0 {
      XorZero(a / 2);
    }
  }

  lemma XorOne(a: nat)
    ensures Xor(a, 1) == if a % 2 == 0 then a + 1 else a - 1
  {
    XorZero(a / 2);
    assert 1 % 2 == 1 && 1 / 2 == 0;
    assert a == 2 * (a / 2) + a % 2;
  }

  lemma SiblingIs(n: nat)
    requires n > 0
    ensures Sibling(n) == if n % 2 == 1 then n + 1 else n - 1
  {
    XorOne(n - 1);
  }

  // A node, its sibling and their parent.
  predicate Family(p: nat, n: nat, b: nat) {
    (n == Left(p) && b == Right(p)) || (n == Right(p) && b == Left(p))
  }

  lemma ParentIs(n: nat)
    requires n > 0
    ensures n == if n % 2 == 1 then Left(Parent(n)) else Right(Parent(n))
  {
  }

  // The sibling macro is an involution that stays with one parent.
  lemma SiblingInvolution(n: nat)
    requires n > 0
    ensures Sibling(n) > 0 && Sibling(Sibling(n)) == n
    ensures Family(Parent(n), n, Sibling(n))
  {
    SiblingIs(n);
    SiblingIs(Sibling(n));
    ParentIs(n);
  }

  // The bucket of a node: its depth, 0 for the root.
  function Depth(n: nat): nat {
    if n == 0 then 0 else 1 + Depth(Parent(n))
  }

  lemma {:induction false} DepthBounds(n: nat)
    ensures Pow2(Depth(n)) <= n + 1 < 2 * Pow2(Depth(n))
  {
    if n > 0 {
      DepthBounds(Parent(n));
    }
  }

  lemma {:induction false} DepthUnique(n: nat, k: nat)
    requires Pow2(k) <= n + 1 < 2 * Pow2(k)
    ensures Depth(n) == k
  {
    DepthBounds(n);
    var d := Depth(n);
    if d < k {
      Pow2Monotone(d, k);
    } else if k < d {
      Pow2Monotone(k, d);
    }
  }

  lemma DepthChildren(n: nat)
    ensures Depth(Left(n)) == Depth(n) + 1 == Depth(Right(n))
  {
    assert Parent(Left(n)) == n == Parent(Right(n));
  }

  lemma FamilyDepth(p: nat, n: nat, b: nat)
    requires Family(p, n, b)
    ensures Depth(n) == Depth(b) == Depth(p) + 1
    ensures n > 0 && b > 0 && Parent(n) == p == Parent(b)
  {
    DepthChildren(p);
  }

  lemma FamilyOf(n: nat)
    requires n > 0
    ensures Family(Parent(n), n, Sibling(n))
    ensures Depth(n) == Depth(Sibling(n)) == Depth(Parent(n)) + 1
  {
    SiblingInvolution(n);
    FamilyDepth(Parent(n), n, Sibling(n));
  }

  // The number of nodes of a tree whose deepest bucket is `order`.
  function NodeCount(order: nat): (c: nat)
    ensures c >= 1
  {
    2 * Pow2(order) - 1
  }

  lemma DepthInTree(order: nat, n: nat)
    ensures n < NodeCount(order) <==> Depth(n) <= order
  {
    DepthBounds(n);
    var d := Depth(n);
    if d <= order {
      Pow2Monotone(d, order);
    } else {
      Pow2Monotone(order, d);
    }
  }

  // The placement of an area: its start, and the logarithm of its maximum.
  // `1 << n` is an int shift in the source, so 30 is the largest shift it defines.
  datatype Geometry = Geometry(base: nat, logMax: nat) {
    ghost predicate Valid() {
      && PGSHIFT <= logMax <= 30
      && base > 0
      && base + Pow2(logMax) <= WORD
    }

    function Order(): nat
      requires PGSHIFT <= logMax
    {
      logMax - PGSHIFT
    }
  }

  // node2ptr of kernel/kernel/buddy.c:34-37.
  function Node2Ptr(g: Geometry, node: nat, bkt: nat): nat
    requires bkt <= g.logMax && Pow2(bkt) <= node + 1
  {
    g.base + Shl(node + 1 - Pow2(bkt), g.logMax - bkt)
  }

  // ptr2node of kernel/kernel/buddy.c:39-42.
  function Ptr2Node(g: Geometry, page: nat, bkt: nat): nat
    requires bkt <= g.logMax && g.base <= page
  {
    Shr(page - g.base, g.logMax - bkt) + Pow2(bkt) - 1
  }

  // The bytes a block of a bucket spans.
  function Size(logMax: nat, bkt: nat): (s: nat)
    requires bkt <= logMax
    ensures s >= 1
  {
    Pow2(logMax - bkt)
  }

  function Start(g: Geometry, n: nat): nat
    requires Depth(n) <= g.logMax
  {
    DepthBounds(n);
    Node2Ptr(g, n, Depth(n))
  }

  function End(g: Geometry, n: nat): nat
    requires Depth(n) <= g.logMax
  {
    Start(g, n) + Size(g.logMax, Depth(n))
  }

  // node2ptr and ptr2node are inverse at every bucket, in both directions.
  lemma AddressRoundTrip(g: Geometry, n: nat)
    requires Depth(n) <= g.logMax
    ensures Start(g, n) >= g.base && Ptr2Node(g, Start(g, n), Depth(n)) == n
  {
    DepthBounds(n);
    PointerBack(g, n, Depth(n));
  }

  lemma PointerBack(g: Geometry, n: nat, bkt: nat)
    requires bkt <= g.logMax && Pow2(bkt) <= n + 1
    ensures Node2Ptr(g, n, bkt) >= g.base && Ptr2Node(g, Node2Ptr(g, n, bkt), bkt) == n
  {
    ShrShl(n + 1 - Pow2(bkt), g.logMax - bkt);
  }

  lemma AddressRoundTripBack(g: Geometry, page: nat, bkt: nat)
    requires bkt <= g.logMax
    requires g.base <= page < g.base + Pow2(g.logMax)
    requires Shl(Shr(page - g.base, g.logMax - bkt), g.logMax - bkt) == page - g.base
    ensures Depth(Ptr2Node(g, page, bkt)) == bkt
    ensures Start(g, Ptr2Node(g, page, bkt)) == page
  {
    var q := Shr(page - g.base, g.logMax - bkt);
    ShlOfPow2(bkt, g.logMax - bkt);
    if q >= Pow2(bkt) {
      ShlMonotone(Pow2(bkt), q, g.logMax - bkt);
    }
    DepthUnique(Ptr2Node(g, page, bkt), bkt);
  }

  // Children halve their parent's interval: left half, then right half.
  lemma ChildIntervals(g: Geometry, n: nat)
    requires Depth(n) < g.logMax
    ensures Depth(Left(n)) <= g.logMax && Depth(Right(n)) <= g.logMax
    ensures Start(g, Left(n)) == Start(g, n)
    ensures End(g, Left(n)) == Start(g, Right(n))
    ensures End(g, Right(n)) == End(g, n)
  {
    DepthBounds(n);
    DepthChildren(n);
    ChildPointers(g, n, Depth(n));
  }

  lemma ChildPointers(g: Geometry, n: nat, bkt: nat)
    requires bkt < g.logMax && Pow2(bkt) <= n + 1
    ensures Pow2(bkt + 1) <= Left(n) + 1
    ensures Node2Ptr(g, Left(n), bkt + 1) == Node2Ptr(g, n, bkt)
    ensures Node2Ptr(g, Right(n), bkt + 1) == Node2Ptr(g, n, bkt) + Size(g.logMax, bkt + 1)
    ensures Size(g.logMax, bkt) == 2 * Size(g.logMax, bkt + 1)
  {
    var p, k := n + 1 - Pow2(bkt), g.logMax - bkt - 1;
    assert Left(n) + 1 - Pow2(bkt + 1) == 2 * p;
    assert Right(n) + 1 - Pow2(bkt + 1) == 2 * p + 1;
    ShlDouble(p, k);
    ShlSucc(2 * p, k);
  }

  lemma WithinParent(g: Geometry, n: nat)
    requires n > 0 && Depth(n) <= g.logMax
    ensures Depth(Parent(n)) == Depth(n) - 1
    ensures Start(g, Parent(n)) <= Start(g, n) && End(g, n) <= End(g, Parent(n))
  {
    var p := Parent(n);
    ChildIntervals(g, p);
    assert n == Left(p) || n == Right(p);
  }

  lemma {:induction false} WithinArea(g: Geometry, n: nat)
    requires Depth(n) <= g.logMax
    ensures g.base <= Start(g, n) && End(g, n) <= g.base + Pow2(g.logMax)
  {
    if n == 0 {
      ShlAdd(0, 0, g.logMax);
    } else {
      WithinParent(g, n);
      WithinArea(g, Parent(n));
    }
  }

  lemma PointersApart(g: Geometry, m: nat, n: nat, bkt: nat)
    requires bkt <= g.logMax && Pow2(bkt) <= m + 1 && m < n
    ensures Node2Ptr(g, m, bkt) + Size(g.logMax, bkt) <= Node2Ptr(g, n, bkt)
  {
    ShlMonotone(m + 1 - Pow2(bkt), n + 1 - Pow2(bkt), g.logMax - bkt);
  }

  // Two nodes of one bucket never overlap.
  lemma SameBucketDisjoint(g: Geometry, m: nat, n: nat)
    requires m < n && Depth(m) == Depth(n) <= g.logMax
    ensures End(g, m) <= Start(g, n)
  {
    DepthBounds(m);
    DepthBounds(n);
    PointersApart(g, m, n, Depth(n));
  }

  // `a` is `n` or lies above it.
  predicate IsAncestor(a: nat, n: nat)
    decreases n
  {
    a == n || (n > 0 && IsAncestor(a, Parent(n)))
  }

  lemma {:induction false} AncestorDepth(a: nat, n: nat)
    requires IsAncestor(a, n)
    ensures Depth(a) <= Depth(n) && a <= n
    ensures Depth(a) == Depth(n) ==> a == n
    decreases n
  {
    if a != n {
      AncestorDepth(a, Parent(n));
    }
  }

  lemma {:induction false} AncestorContains(g: Geometry, a: nat, n: nat)
    requires IsAncestor(a, n) && Depth(n) <= g.logMax
    ensures Depth(a) <= g.logMax
    ensures Start(g, a) <= Start(g, n) && End(g, n) <= End(g, a)
    decreases n
  {
    if a != n {
      WithinParent(g, n);
      AncestorContains(g, a, Parent(n));
    }
  }

  // The intervals of any two nodes are nested or disjoint; nested exactly when
  // one node is above the other.
  lemma {:induction false} NestedOrDisjoint(g: Geometry, a: nat, n: nat)
    requires Depth(a) <= Depth(n) <= g.logMax
    ensures IsAncestor(a, n) <==> Start(g, a) < End(g, n) && Start(g, n) < End(g, a)
    decreases n
  {
    if IsAncestor(a, n) {
      AncestorContains(g, a, n);
    } else if Depth(a) == Depth(n) {
      if a < n {
        SameBucketDisjoint(g, a, n);
      } else {
        SameBucketDisjoint(g, n, a);
      }
    } else {
      WithinParent(g, n);
      NestedOrDisjoint(g, a, Parent(n));
    }
  }
}
