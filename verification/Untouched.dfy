// What the operations leave alone: memory inside live blocks, memory outside the
// area, and the page descriptors of other memory areas.

module Untouched {
  import opened Words
  import opened Nodes
  import opened Blocks
  import opened Ledger
  import opened Canonical
  import opened Links
  import opened BitTree
  import opened Frames
  import opened Image
  import opened Steps
  import opened Areas

  // An address that belongs neither to the area nor to its list heads.
  ghost predicate Foreign(l: Layout, a: nat)
    requires PGSHIFT <= l.g.logMax
  {
    !(l.g.base <= a < l.g.base + Pow2(l.g.logMax)) && !l.IsHead(a)
  }

  ghost predicate KeepsLinks(l: Layout, link: Store, link': Store, keep: set<nat>)
    requires PGSHIFT <= l.g.logMax
  {
    && link'.Keys == link.Keys
    && (forall a :: a in link && Foreign(l, a) ==> link'[a] == link[a])
    && (forall n, a :: n in keep && a in link && Holds(l.g, n, a) ==> link'[a] == link[a])
  }

  ghost predicate KeepsPages(l: Layout, pages: map<Frame, Page>, pages': map<Frame, Page>, keep: set<nat>)
    requires PGSHIFT <= l.g.logMax
  {
    && pages'.Keys == pages.Keys
    && (forall f :: f in pages && f.area != l.area ==> pages'[f] == pages[f])
    && (forall n :: n in keep && n < l.Nodes() ==> SamePage(pages, pages', FrameOf(l.areas, l.Addr(n))))
  }

  ghost predicate SamePage(pages: map<Frame, Page>, pages': map<Frame, Page>, f: Option<Frame>) {
    f.Some? && f.value in pages ==> f.value in pages' && pages'[f.value] == pages[f.value]
  }

  // Nothing outside the area changed, and nothing inside the blocks `keep` or in
  // their descriptors.
  ghost predicate Keeps(l: Layout, m: Image, m': Image, keep: set<nat>)
    requires PGSHIFT <= l.g.logMax
  {
    KeepsLinks(l, m.link, m'.link, keep) && KeepsPages(l, m.pages, m'.pages, keep)
  }

  lemma KeepsTrans(l: Layout, m: Image, m1: Image, m2: Image, keep: set<nat>)
    requires PGSHIFT <= l.g.logMax
    requires Keeps(l, m, m1, keep) && Keeps(l, m1, m2, keep)
    ensures Keeps(l, m, m2, keep)
  {
  }

  // A free block starts outside every live block, and inside the area.
  lemma FreeApart(l: Layout, t: Tree, f: nat, keep: set<nat>)
    requires l.Valid() && TreeOk(t, l.Order()) && f < |t| && t[f] == Free && keep <= LiveSet(t)
    ensures !Foreign(l, l.Addr(f))
    ensures forall n :: n in keep ==> !Holds(l.g, n, l.Addr(f))
  {
    AddrInArea(l, f);
    forall n | n in keep
      ensures !Holds(l.g, n, l.Addr(f))
    {
      BlocksDisjoint(l.g, t, l.Order(), f, n);
    }
  }

  lemma HeadApartFromBlocks(l: Layout, t: Tree, k: nat, keep: set<nat>)
    requires l.Valid() && k <= l.Order() && TreeOk(t, l.Order()) && keep <= LiveSet(t)
    ensures !Foreign(l, l.Head(k))
    ensures forall n :: n in keep ==> !Holds(l.g, n, l.Head(k))
  {
    assert l.IsHead(l.Head(k));
    forall n | n in keep
      ensures !Holds(l.g, n, l.Head(k))
    {
      AddrInArea(l, n);
    }
  }

  // Writing only to a list head and to the starts of free blocks keeps the rest.
  lemma OnlyFreeTouched(l: Layout, t: Tree, link: Store, link': Store, k: nat, fs: seq<nat>, keep: set<nat>)
    requires l.Valid() && TreeOk(t, l.Order()) && k <= l.Order() && keep <= LiveSet(t)
    requires forall i :: 0 <= i < |fs| ==> fs[i] < |t| && t[fs[i]] == Free
    requires link'.Keys == link.Keys
    requires forall a :: a in link && a != l.Head(k) && a !in l.Addrs(fs) ==> link'[a] == link[a]
    ensures KeepsLinks(l, link, link', keep)
  {
    HeadApartFromBlocks(l, t, k, keep);
    forall a | a in l.Addrs(fs)
      ensures !Foreign(l, a)
      ensures forall n :: n in keep ==> !Holds(l.g, n, a)
    {
      var i :| 0 <= i < |fs| && l.Addrs(fs)[i] == a;
      FreeApart(l, t, fs[i], keep);
    }
  }

  lemma PushKeeps(l: Layout, m: Image, s: State, s': State, k: nat, x: nat, keep: set<nat>)
    requires Rep(l, m, s) && Ok(s', l.Order()) && k <= l.Order() && x < l.Nodes()
    requires s'.rings == s.rings[k := s.rings[k] + [x]] && keep <= LiveSet(s'.t)
    ensures m.link[l.Head(k)].prev in m.link
    ensures Keeps(l, m, PushImage(l, m, k, x), keep)
  {
    OkApart(l, s');
    PushRep(l, m.link, s.rings, k, x);
    AddrsOf(l, s.rings[k], x);
    var fs := s'.rings[k];
    assert RingOk(s'.t, fs, k);
    var link' := PushedBack(m.link, l.Head(k), l.Addr(x));
    forall a | a in m.link && a != l.Head(k) && a !in l.Addrs(fs)
      ensures link'[a] == m.link[a]
    {
      InConcat(l.Addrs(s.rings[k]), l.Addr(x), a);
    }
    OnlyFreeTouched(l, s'.t, m.link, link', k, fs, keep);
  }

  lemma InConcat(s: seq<nat>, x: nat, a: nat)
    ensures a in s + [x] <==> a in s || a == x
  {
  }

  lemma RemoveKeeps(l: Layout, m: Image, s: State, k: nat, x: nat, keep: set<nat>)
    requires Rep(l, m, s) && k <= l.Order() && x in s.rings[k] && keep <= LiveSet(s.t)
    ensures x < l.Nodes() && l.Addr(x) in m.link
    ensures m.link[l.Addr(x)].prev in m.link && m.link[l.Addr(x)].next in m.link
    ensures Keeps(l, m, m.(link := Cleared(m.link, l.Addr(x))), keep)
  {
    OkApart(l, s);
    assert RingOk(s.t, s.rings[k], k);
    RemoveRep(l, m.link, s.rings, k, x);
    OnlyFreeTouched(l, s.t, m.link, Cleared(m.link, l.Addr(x)), k, s.rings[k], keep);
  }

  // Writing one live block's descriptor keeps those of the others.
  lemma PageKeeps(l: Layout, m: Image, t: Tree, n: nat, f: Frame, v: Page, keep: set<nat>)
    requires l.Valid() && TreeOk(t, l.Order()) && n < |t| && t[n] == Live && keep <= LiveSet(t) - {n}
    requires FrameOf(l.areas, l.Addr(n)) == Some(f) && f in m.pages
    ensures Keeps(l, m, m.(pages := m.pages[f := v]), keep)
  {
    AddrInArea(l, n);
    forall x | x in keep && x < l.Nodes()
      ensures FrameOf(l.areas, l.Addr(x)) != Some(f)
    {
      BlocksApart(l, t, x, n);
    }
  }

  lemma TagKeeps(l: Layout, m: Image, t: Tree, n: nat, keep: set<nat>)
    requires Mapped(l, m) && TreeOk(t, l.Order()) && n < |t| && t[n] == Live && keep <= LiveSet(t) - {n}
    ensures Keeps(l, m, TagImage(l, m, n), keep)
  {
    AddrInArea(l, n);
    var f := FrameOf(l.areas, l.Addr(n)).value;
    PageKeeps(l, m, t, n, f, m.pages[f].(order := Depth(n)), keep);
  }

  // A walk from a claimed block writes to nothing but free blocks, list heads and
  // the descriptor of the block it returns. `m0` is an earlier image.
  lemma {:induction false} WalkKeeps(l: Layout, m0: Image, m: Image, s: State, n: nat, bkt: nat,
                                     m': Image, ret: Option<nat>, keep: set<nat>)
    requires Rep(l, m, s) && n < |s.t| && s.t[n] == Live && Depth(n) < bkt <= l.Order()
    requires Walks(l, m, n, bkt, m', ret)
    requires keep <= LiveSet(s.t) - {n} && Keeps(l, m0, m, keep)
    ensures Keeps(l, m0, m', keep)
    decreases bkt - Depth(n)
  {
    var m1, s1, r := StateTurn(l, m0, m, s, n, keep);
    WalkSplits(l, m, n, bkt, m', ret);
    if Depth(r) == bkt {
      TagKeeps(l, m1, s1.t, r, keep);
      KeepsTrans(l, m0, m1, m', keep);
    } else {
      WalkKeeps(l, m0, m1, s1, r, bkt, m', ret, keep);
    }
  }

  lemma StateTurn(l: Layout, m0: Image, m: Image, s: State, n: nat, keep: set<nat>)
      returns (m1: Image, s1: State, r: nat)
    requires Rep(l, m, s) && n < |s.t| && s.t[n] == Live && Depth(n) < l.Order()
    requires keep <= LiveSet(s.t) - {n} && Keeps(l, m0, m, keep)
    ensures r == Right(n) < l.Nodes() && n / 8 < |m.tree| && !Bit(m.tree, n)
    ensures m1 == SplitImage(l, m, n)
    ensures Rep(l, m1, s1) && r < |s1.t| && s1.t[r] == Live
    ensures keep <= LiveSet(s1.t) - {r}
    ensures Keeps(l, m0, m1, keep)
  {
    SplitRep(l, m, s, n);
    m1, s1, r := SplitImage(l, m, n), SplitNode(s, n), Right(n);
    LiveAfterSplit(s, l.Order(), n);
    RightLive(s, n);
    SplitKeeps(l, m, s, n, keep);
    KeepsTrans(l, m0, m, m1, keep);
  }

  lemma SplitKeeps(l: Layout, m: Image, s: State, n: nat, keep: set<nat>)
    requires Rep(l, m, s) && n < |s.t| && s.t[n] == Live && Depth(n) < l.Order()
    requires keep <= LiveSet(s.t) - {n}
    ensures Right(n) < l.Nodes() && Keeps(l, m, SplitImage(l, m, n), keep)
  {
    SplitPushKeeps(l, m, s, n, Depth(n) + 1, keep);
    SplitMapped(l, m, n);
    SameKeeps(l, m, PushImage(l, m, Depth(n) + 1, Left(n)), SplitImage(l, m, n), keep);
  }

  // Of a split, the push of the left child is all that writes to memory.
  lemma SplitPushKeeps(l: Layout, m: Image, s: State, n: nat, k: nat, keep: set<nat>)
    requires Rep(l, m, s) && n < |s.t| && s.t[n] == Live && Depth(n) < l.Order() && k == Depth(n) + 1
    requires keep <= LiveSet(s.t) - {n}
    ensures Right(n) < l.Nodes() && m.link[l.Head(k)].prev in m.link
    ensures Keeps(l, m, PushImage(l, m, k, Left(n)), keep)
  {
    SplitOk(s, l.Order(), n);
    LiveAfterSplit(s, l.Order(), n);
    PushKeeps(l, m, s, SplitNode(s, n), k, Left(n), keep);
  }

  lemma SameKeeps(l: Layout, m: Image, m1: Image, m2: Image, keep: set<nat>)
    requires PGSHIFT <= l.g.logMax && Keeps(l, m, m1, keep) && m2.link == m1.link && m2.pages == m1.pages
    ensures Keeps(l, m, m2, keep)
  {
  }

  // ---- what callers may write ----

  // The address lies in one of these blocks.
  ghost predicate Inside(l: Layout, blocks: set<nat>, a: nat) {
    exists n :: n in blocks && Holds(l.g, n, a)
  }

  // Whatever callers write into their live blocks, the area stays as it is: no
  // list head and no link of a free block is ever in one of them.
  lemma OwnersMayWrite(l: Layout, m: Image, a: Area, link': Store)
    requires Good(l, m, a) && link'.Keys == m.link.Keys
    requires forall x :: x in m.link && link'[x] != m.link[x] ==> Inside(l, LiveSet(a.s.t), x)
    ensures Good(l, m.(link := link'), a)
  {
    var m' := m.(link := link');
    forall k | 0 <= k < |a.s.rings|
      ensures Ring(link', l.Head(k), l.Addrs(a.s.rings[k]))
    {
      RingUntouched(l, m, a.s, link', k);
    }
    RepMapped(l, m, m', a.s);
  }

  lemma RingUntouched(l: Layout, m: Image, s: State, link': Store, k: nat)
    requires Rep(l, m, s) && link'.Keys == m.link.Keys && k <= l.Order()
    requires forall x :: x in m.link && link'[x] != m.link[x] ==> Inside(l, LiveSet(s.t), x)
    ensures Ring(link', l.Head(k), l.Addrs(s.rings[k]))
  {
    var ring := s.rings[k];
    assert RingOk(s.t, ring, k) && Ring(m.link, l.Head(k), l.Addrs(ring));
    HeadApartFromBlocks(l, s.t, k, LiveSet(s.t));
    forall i | 0 <= i < |ring|
      ensures link'[l.Addrs(ring)[i]] == m.link[l.Addrs(ring)[i]]
    {
      FreeApart(l, s.t, ring[i], LiveSet(s.t));
    }
    RingFrame(m.link, link', l.Head(k), l.Addrs(ring));
  }
}
