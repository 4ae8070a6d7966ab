// Intrusive circular doubly linked lists (kernel/kernel/list.c). A link lives at
// an address; memory maps the addresses that can hold a link to their contents.

module Links {
  import opened Blocks

  datatype Link = Link(prev: nat, next: nat)

  type Store = map<nat, Link>

  // A walk around a ring: the head, then the entries, then the head again.
  function At(head: nat, xs: seq<nat>, i: nat): nat
    requires i <= |xs| + 1
  {
    if i == 0 || i == |xs| + 1 then head else xs[i - 1]
  }

  // The links at `head` and `xs` form one ring in this order.
  ghost predicate Ring(m: Store, head: nat, xs: seq<nat>) {
    && head in m && head !in xs && NoDuplicates(xs)
    && (forall i :: 0 <= i < |xs| ==> xs[i] in m)
    && (forall i :: 0 <= i <= |xs| ==> m[At(head, xs, i)].next == At(head, xs, i + 1))
    && (forall i :: 0 <= i <= |xs| ==> m[At(head, xs, i + 1)].prev == At(head, xs, i))
  }

  // Memory after the three operations of list.c, one field write at a time.
  function SetNext(m: Store, a: nat, v: nat): Store
    requires a in m
  {
    m[a := m[a].(next := v)]
  }

  function SetPrev(m: Store, a: nat, v: nat): Store
    requires a in m
  {
    m[a := m[a].(prev := v)]
  }

  function Inited(m: Store, lst: nat): Store {
    m[lst := Link(lst, lst)]
  }

  function PushedBack(m: Store, lst: nat, entry: nat): Store
    requires lst in m && m[lst].prev in m && entry in m
  {
    SetPrev(SetNext(m, m[lst].prev, entry), lst, entry)[entry := Link(m[lst].prev, lst)]
  }

  function Removed(m: Store, entry: nat): Store
    requires entry in m && m[entry].prev in m && m[entry].next in m
  {
    SetPrev(SetNext(m, m[entry].prev, m[entry].next), m[entry].next, m[entry].prev)[entry := Link(entry, entry)]
  }

  class Memory {
    var link: Store

    constructor (m: Store)
      ensures link == m
    {
      link := m;
    }

    method SetLinkNext(a: nat, v: nat)
      requires a in link
      modifies this
      ensures link == SetNext(old(link), a, v)
    {
      link := link[a := link[a].(next := v)];
    }

    method SetLinkPrev(a: nat, v: nat)
      requires a in link
      modifies this
      ensures link == SetPrev(old(link), a, v)
    {
      link := link[a := link[a].(prev := v)];
    }

    // list_init
    method Init(lst: nat)
      requires lst in link
      modifies this
      ensures link == Inited(old(link), lst)
      ensures Ring(link, lst, [])
    {
      SetLinkPrev(lst, lst);
      SetLinkNext(lst, lst);
    }

    // list_pushback
    method PushBack(lst: nat, entry: nat)
      requires lst in link && link[lst].prev in link && entry in link
      modifies this
      ensures link == PushedBack(old(link), lst, entry)
    {
      var prev := link[lst].prev;
      SetLinkNext(prev, entry);
      SetLinkPrev(lst, entry);
      SetLinkPrev(entry, prev);
      SetLinkNext(entry, lst);
    }

    // list_remove
    method Remove(entry: nat)
      requires entry in link && link[entry].prev in link && link[entry].next in link
      modifies this
      ensures link == Removed(old(link), entry)
    {
      var prev, next := link[entry].prev, link[entry].next;
      SetLinkNext(prev, next);
      SetLinkPrev(next, prev);
      SetLinkNext(entry, entry);
      SetLinkPrev(entry, entry);
    }

    // list_empty
    method Empty(lst: nat) returns (empty: bool)
      requires lst in link
      ensures empty <==> link[lst].prev == lst
      ensures forall xs :: Ring(link, lst, xs) ==> (empty <==> xs == [])
    {
      empty := link[lst].prev == lst;
      forall xs | Ring(link, lst, xs)
        ensures empty <==> xs == []
      {
        EmptyRing(link, lst, xs);
      }
    }

    // list_pop
    method Pop(lst: nat) returns (r: Option<nat>)
      requires lst in link
      requires link[lst].prev != lst ==>
                 link[lst].prev in link
                 && link[link[lst].prev].prev in link && link[link[lst].prev].next in link
      modifies this
      ensures r.None? <==> old(link)[lst].prev == lst
      ensures r.None? ==> link == old(link)
      ensures r.Some? ==> r.value == old(link)[lst].prev && link == Removed(old(link), r.value)
    {
      var empty := Empty(lst);
      if empty {
        return None;
      }
      var back := link[lst].prev;
      Remove(back);
      return Some(back);
    }
  }

  // ---- what the operations do to rings ----

  lemma EmptyRing(m: Store, head: nat, xs: seq<nat>)
    requires Ring(m, head, xs)
    ensures m[head].prev == At(head, xs, |xs|)
    ensures m[head].prev == head <==> xs == []
  {
    assert m[At(head, xs, |xs| + 1)].prev == At(head, xs, |xs|);
  }

  // A ring whose links are untouched is still that ring.
  lemma RingFrame(m: Store, m': Store, head: nat, xs: seq<nat>)
    requires Ring(m, head, xs) && m.Keys <= m'.Keys
    requires m'[head] == m[head]
    requires forall i :: 0 <= i < |xs| ==> m'[xs[i]] == m[xs[i]]
    ensures Ring(m', head, xs)
  {
    forall i | 0 <= i <= |xs| + 1
      ensures At(head, xs, i) in m && m'[At(head, xs, i)] == m[At(head, xs, i)]
    {
    }
  }

  // Link h of a list has kept its next pointer.
  ghost predicate KeptAt(link: Store, link': Store, head: nat, xs: seq<nat>, h: nat)
    requires h <= |xs|
  {
    var a := At(head, xs, h);
    a in link && a in link' && link'[a].next == link[a].next
  }

  ghost predicate KeptUpTo(link: Store, link': Store, head: nat, xs: seq<nat>, n: nat)
    requires n <= |xs| + 1
  {
    forall h :: 0 <= h < n ==> KeptAt(link, link', head, xs, h)
  }

  lemma KeptOneMore(link: Store, link': Store, head: nat, xs: seq<nat>, n: nat)
    requires n <= |xs| && KeptUpTo(link, link', head, xs, n) && KeptAt(link, link', head, xs, n)
    ensures KeptUpTo(link, link', head, xs, n + 1)
  {
  }

  // Following next pointers that are still what they were, a ring of the new
  // memory begins like the old ring at the same head.
  lemma {:induction false} SamePrefix(m: Store, m': Store, head: nat, xs: seq<nat>, ys: seq<nat>, j: nat)
    requires Ring(m, head, xs) && Ring(m', head, ys) && j <= |xs|
    requires KeptUpTo(m, m', head, xs, j)
    ensures j <= |ys| && At(head, ys, j) == At(head, xs, j)
  {
    if j > 0 {
      SamePrefix(m, m', head, xs, ys, j - 1);
      assert KeptAt(m, m', head, xs, j - 1);
      var a := At(head, xs, j - 1);
      assert m[a].next == At(head, xs, j) == xs[j - 1];
      assert m'[a].next == At(head, ys, j);
      assert xs[j - 1] in xs;
    }
  }

  // Pushing a fresh entry appends it, and touches only this ring and the entry.
  lemma PushBackRing(m: Store, head: nat, xs: seq<nat>, e: nat)
    requires Ring(m, head, xs) && e in m && e != head && e !in xs
    ensures m[head].prev in m
    ensures Ring(PushedBack(m, head, e), head, xs + [e])
    ensures PushedBack(m, head, e).Keys == m.Keys
    ensures forall a :: a in m && a != head && a != e && a !in xs ==> PushedBack(m, head, e)[a] == m[a]
  {
    EmptyRing(m, head, xs);
    var ys := xs + [e];
    var last := At(head, xs, |xs|);
    var m' := PushedBack(m, head, e);
    assert m[head].prev == last;
    assert last == head || last in xs;
    forall i | 0 <= i <= |ys|
      ensures m'[At(head, ys, i)].next == At(head, ys, i + 1)
      ensures m'[At(head, ys, i + 1)].prev == At(head, ys, i)
    {
      if i < |xs| {
        assert At(head, ys, i) == At(head, xs, i) != last;
        assert At(head, ys, i + 1) == At(head, xs, i + 1) != head;
      } else if i == |xs| {
        assert At(head, ys, i) == last && At(head, ys, i + 1) == e;
      } else {
        assert At(head, ys, i) == e && At(head, ys, i + 1) == head;
      }
    }
  }

  lemma {:induction false} IndexUnique<T>(s: seq<T>, i: nat)
    requires i < |s| && NoDuplicates(s)
    ensures s[i] in s && IndexOf(s, s[i]) == i
  {
  }

  // What surrounds entry k of a ring.
  lemma Neighbours(m: Store, head: nat, xs: seq<nat>, k: nat)
    requires Ring(m, head, xs) && k < |xs|
    ensures xs[k] in m && At(head, xs, k) in m && At(head, xs, k + 2) in m
    ensures m[xs[k]].prev == At(head, xs, k) && m[xs[k]].next == At(head, xs, k + 2)
    ensures At(head, xs, k) != xs[k] && At(head, xs, k + 2) != xs[k]
  {
    assert At(head, xs, k + 1) == xs[k];
    assert xs[k] in xs;
  }

  // ys is xs without its entry k.
  ghost predicate IsWithout(xs: seq<nat>, ys: seq<nat>, k: nat) {
    |xs| == |ys| + 1 && forall j :: 0 <= j < |ys| ==> ys[j] == xs[if j < k then j else j + 1]
  }

  lemma AtWithout(head: nat, xs: seq<nat>, ys: seq<nat>, k: nat, i: nat)
    requires k < |xs| && IsWithout(xs, ys, k) && i <= |ys| + 1
    ensures At(head, ys, i) == At(head, xs, if i <= k then i else i + 1)
  {
    if 0 < i <= |ys| {
      var j := i - 1;
      assert ys[j] == xs[if j < k then j else j + 1];
    }
  }

  // Link i of the ring ys that is left when entry k is taken out of xs.
  lemma GapClosed(m: Store, head: nat, xs: seq<nat>, ys: seq<nat>, k: nat, i: nat)
    requires Ring(m, head, xs) && k < |xs| && IsWithout(xs, ys, k) && i <= |ys|
    ensures xs[k] in m && m[xs[k]].prev in m && m[xs[k]].next in m
    ensures At(head, ys, i) in m && At(head, ys, i + 1) in m
    ensures Removed(m, xs[k])[At(head, ys, i)].next == At(head, ys, i + 1)
    ensures Removed(m, xs[k])[At(head, ys, i + 1)].prev == At(head, ys, i)
  {
    Neighbours(m, head, xs, k);
    AtWithout(head, xs, ys, k, i);
    AtWithout(head, xs, ys, k, i + 1);
    if i < k {
      LinkApart(m, head, xs, k, i, i + 1);
    } else if i > k {
      LinkApart(m, head, xs, k, i + 1, i + 2);
    }
  }

  // A link away from entry k keeps its neighbour.
  lemma LinkApart(m: Store, head: nat, xs: seq<nat>, k: nat, i: nat, i': nat)
    requires Ring(m, head, xs) && k < |xs| && i' == i + 1 <= |xs| + 1 && (i < k || k + 1 < i)
    ensures xs[k] in m && m[xs[k]].prev in m && m[xs[k]].next in m && At(head, xs, i) in m && At(head, xs, i') in m
    ensures Removed(m, xs[k])[At(head, xs, i)].next == At(head, xs, i')
    ensures Removed(m, xs[k])[At(head, xs, i')].prev == At(head, xs, i)
  {
    Neighbours(m, head, xs, k);
    if i < k {
      AtDistinct(head, xs, i, k);
      AtDistinct(head, xs, i, k + 1);
      AtDistinct(head, xs, i', k + 1);
      if k + 2 <= |xs| {
        AtDistinct(head, xs, i', k + 2);
      }
    } else {
      AtDistinct(head, xs, k, i);
      AtDistinct(head, xs, k + 1, i);
      if i' <= |xs| {
        AtDistinct(head, xs, k + 1, i');
        AtDistinct(head, xs, k + 2, i');
      }
    }
  }

  // Removing an entry from anywhere in its ring closes the gap, and touches only
  // this ring.
  lemma RemoveRing(m: Store, head: nat, xs: seq<nat>, e: nat)
    requires Ring(m, head, xs) && e in xs
    ensures e in m && m[e].prev in m && m[e].next in m
    ensures Ring(Removed(m, e), head, Without(xs, e))
    ensures Removed(m, e).Keys == m.Keys && Removed(m, e)[e] == Link(e, e)
    ensures forall a :: a in m && a != head && a !in xs ==> Removed(m, e)[a] == m[a]
  {
    var k, ys := IndexOf(xs, e), Without(xs, e);
    WithoutAt(xs, e);
    assert IsWithout(xs, ys, k);
    RemoveAt(m, head, xs, ys, k);
  }

  lemma RemoveAt(m: Store, head: nat, xs: seq<nat>, ys: seq<nat>, k: nat)
    requires Ring(m, head, xs) && k < |xs| && IsWithout(xs, ys, k)
    ensures xs[k] in m && m[xs[k]].prev in m && m[xs[k]].next in m
    ensures Ring(Removed(m, xs[k]), head, ys)
    ensures Removed(m, xs[k]).Keys == m.Keys
    ensures forall a :: a in m && a != head && a !in xs ==> Removed(m, xs[k])[a] == m[a]
  {
    Neighbours(m, head, xs, k);
    forall i | 0 <= i < |ys|
      ensures ys[i] in m && ys[i] != head
    {
      assert ys[i] in xs;
    }
    forall i | 0 <= i <= |ys|
      ensures Removed(m, xs[k])[At(head, ys, i)].next == At(head, ys, i + 1)
      ensures Removed(m, xs[k])[At(head, ys, i + 1)].prev == At(head, ys, i)
    {
      GapClosed(m, head, xs, ys, k, i);
    }
    RemovedElsewhere(m, head, xs, k);
  }

  lemma RemovedElsewhere(m: Store, head: nat, xs: seq<nat>, k: nat)
    requires Ring(m, head, xs) && k < |xs|
    ensures xs[k] in m && m[xs[k]].prev in m && m[xs[k]].next in m
    ensures forall a :: a in m && a != head && a !in xs ==> Removed(m, xs[k])[a] == m[a]
  {
    Neighbours(m, head, xs, k);
    assert At(head, xs, k) == head || At(head, xs, k) in xs;
    assert At(head, xs, k + 2) == head || At(head, xs, k + 2) in xs;
  }

  // The source also clears the link of an entry it takes out of a free list.
  function Cleared(m: Store, entry: nat): Store
    requires entry in m && m[entry].prev in m && m[entry].next in m
  {
    Removed(m, entry)[entry := Link(0, 0)]
  }

  lemma RemoveClearRing(m: Store, head: nat, xs: seq<nat>, e: nat)
    requires Ring(m, head, xs) && e in xs
    ensures e in m && m[e].prev in m && m[e].next in m
    ensures Ring(Cleared(m, e), head, Without(xs, e))
    ensures Cleared(m, e).Keys == m.Keys && Cleared(m, e)[e] == Link(0, 0)
    ensures forall a :: a in m && a != head && a !in xs ==> Cleared(m, e)[a] == m[a]
  {
    RemoveRing(m, head, xs, e);
    WithoutIs(xs, e);
    ClearOutside(Removed(m, e), head, Without(xs, e), e);
  }

  lemma ClearOutside(m: Store, head: nat, xs: seq<nat>, e: nat)
    requires Ring(m, head, xs) && e in m && e != head && e !in xs
    ensures Ring(m[e := Link(0, 0)], head, xs)
  {
    assert forall i :: 0 <= i < |xs| ==> xs[i] in xs;
    RingFrame(m, m[e := Link(0, 0)], head, xs);
  }

  lemma AtDistinct(head: nat, xs: seq<nat>, i: nat, j: nat)
    requires head !in xs && NoDuplicates(xs) && i < j <= |xs|
    ensures At(head, xs, i) != At(head, xs, j)
  {
    assert xs[j - 1] in xs;
  }
}
