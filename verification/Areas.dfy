// A buddy area as its callers see it: requests in bytes, the bucket search, the
// byte counter with its wrap test, and whole runs of allocations and releases.

module Areas {
  import opened Words
  import opened Nodes
  import opened Blocks
  import opened Ledger
  import opened Canonical

  // The largest request the int shift at kernel/kernel/buddy.c:108 allows.
  const MAX_REQUEST: nat := 0x4000_0000

  // How often the page size must double to cover a request.
  function Doublings(requested: nat): (r: nat)
    ensures requested <= Pow2(PGSHIFT + r)
    ensures r > 0 ==> Pow2(PGSHIFT + r - 1) < requested
  {
    DoublingsFrom(requested, 0)
  }

  function DoublingsFrom(requested: nat, d: nat): (r: nat)
    ensures d <= r
    ensures requested <= Pow2(PGSHIFT + r)
    ensures r > d ==> Pow2(PGSHIFT + r - 1) < requested
    decreases requested - Pow2(PGSHIFT + d)
  {
    if Pow2(PGSHIFT + d) < requested then DoublingsFrom(requested, d + 1) else d
  }

  function BlockSize(requested: nat): nat {
    Pow2(PGSHIFT + Doublings(requested))
  }

  // The bucket whose blocks have that size; negative when the area is too small.
  function Bucket(logMax: nat, requested: nat): int
    requires PGSHIFT <= logMax
  {
    logMax - PGSHIFT - Doublings(requested)
  }

  // The size found is the tightest: it covers the request, and it is one page or
  // its half does not. So the blocks that cover a request are those of the
  // bucket found and of the buckets above it.
  lemma TightBucket(logMax: nat, requested: nat, k: nat)
    requires PGSHIFT <= logMax && k <= logMax - PGSHIFT
    ensures requested <= BlockSize(requested)
    ensures BlockSize(requested) > PGSIZE ==> BlockSize(requested) < 2 * requested
    ensures Size(logMax, k) >= requested <==> k <= Bucket(logMax, requested)
  {
    var d := Doublings(requested);
    PageSize();
    if k + d <= logMax - PGSHIFT {
      Pow2Monotone(PGSHIFT + d, logMax - k);
    } else {
      assert d > 0;
      Pow2Monotone(logMax - k, PGSHIFT + d - 1);
    }
  }

  lemma PageSize()
    ensures Pow2(PGSHIFT) == PGSIZE
  {
    assert Pow2(4) == 16;
    assert Pow2(8) == 256;
  }

  lemma MaxRequestIs()
    ensures Pow2(30) == MAX_REQUEST
  {
    PageSize();
    assert Pow2(16) == 0x1_0000;
    assert Pow2(20) == 0x10_0000;
    assert Pow2(24) == 0x100_0000;
    assert Pow2(28) == 0x1000_0000;
  }

  lemma BlockSizeBound(requested: nat)
    requires requested <= MAX_REQUEST
    ensures Doublings(requested) <= 18
    ensures BlockSize(requested) <= MAX_REQUEST < WORD
  {
    var d := Doublings(requested);
    MaxRequestIs();
    if d > 18 {
      Pow2Monotone(30, PGSHIFT + d - 1);
    }
    Pow2Monotone(PGSHIFT + d, 30);
  }

  // The size after k turns of the bucket search, in 64-bit arithmetic.
  function Doubled(k: nat): (r: nat)
    ensures r < WORD
  {
    if k == 0 then PGSIZE else Double64(Doubled(k - 1))
  }

  // The bucket search ends exactly for requests of at most 2^63 bytes: beyond
  // that the doubled size wraps to 0 and stays there.
  lemma SearchEnds(requested: nat)
    ensures (exists k: nat :: Doubled(k) >= requested) <==> requested <= WORD / 2
  {
    DoubledIs(51);
    HalfWord();
    if requested <= WORD / 2 {
      assert Doubled(51) >= requested;
    }
    forall k: nat
      ensures Doubled(k) <= WORD / 2
    {
      if k <= 51 {
        DoubledIs(k);
        Pow2Monotone(PGSHIFT + k, 63);
      } else {
        DoubledZero(k);
      }
    }
  }

  lemma HalfWord()
    ensures Pow2(63) == WORD / 2
  {
    MaxRequestIs();
    assert Pow2(33) == 8 * Pow2(30);
    assert Pow2(36) == 8 * Pow2(33);
    assert Pow2(39) == 8 * Pow2(36);
    assert Pow2(42) == 8 * Pow2(39);
    assert Pow2(45) == 8 * Pow2(42);
    assert Pow2(48) == 8 * Pow2(45);
    assert Pow2(51) == 8 * Pow2(48);
    assert Pow2(54) == 8 * Pow2(51);
    assert Pow2(57) == 8 * Pow2(54);
    assert Pow2(60) == 8 * Pow2(57);
    assert Pow2(63) == 8 * Pow2(60);
  }

  lemma {:induction false} DoubledIs(k: nat)
    requires k <= 51
    ensures Doubled(k) == Pow2(PGSHIFT + k)
  {
    if k == 0 {
      PageSize();
    } else {
      DoubledIs(k - 1);
      HalfWord();
      Pow2Monotone(PGSHIFT + k - 1, 63);
    }
  }

  lemma DoubleHalf()
    ensures Double64(WORD / 2) == 0 == Double64(0)
  {
  }

  lemma {:induction false} DoubledZero(k: nat)
    requires k > 51
    ensures Doubled(k) == 0
  {
    if k == 52 {
      DoubledIs(51);
      HalfWord();
      DoubleHalf();
    } else {
      DoubledZero(k - 1);
      DoubleHalf();
    }
  }

  datatype Area = Area(s: State, available: nat)

  ghost predicate AreaOk(a: Area, logMax: nat) {
    && PGSHIFT <= logMax <= 30
    && Ok(a.s, logMax - PGSHIFT)
    && |a.s.t| <= NodeCount(logMax)
    && a.available == FreeBytes(logMax, a.s.t)
  }

  function Fresh(logMax: nat): Area
    requires PGSHIFT <= logMax
  {
    Area(Initial(logMax - PGSHIFT), Pow2(logMax))
  }

  lemma FreshOk(logMax: nat)
    requires PGSHIFT <= logMax <= 30
    ensures AreaOk(Fresh(logMax), logMax)
  {
    var order := logMax - PGSHIFT;
    InitialOk(order);
    TotalBytes(logMax, order, Initial(order).t);
    NoLiveBytes(logMax, Initial(order).t, |Initial(order).t|);
  }

  lemma {:induction false} NoLiveBytes(logMax: nat, t: Tree, i: nat)
    requires i <= |t| <= NodeCount(logMax) && LiveSet(t) == {}
    ensures Bytes(logMax, t, Live, i) == 0
  {
    if i > 0 {
      NoLiveBytes(logMax, t, i - 1);
      assert (i - 1) !in LiveSet(t);
    }
  }

  // buddy_alloc, past the wrap test.
  ghost function AllocAt(a: Area, logMax: nat, bkt: nat): (r: (Area, Option<nat>))
    requires AreaOk(a, logMax) && bkt <= logMax - PGSHIFT
    ensures AreaOk(r.0, logMax)
  {
    var order := logMax - PGSHIFT;
    AllocateOk(a.s, order, bkt);
    AllocateBytes(a.s, order, logMax, bkt);
    match Allocate(a.s, order, bkt)
    case (s', None) => (a, None)
    case (s', Some(n)) => (Area(s', FreeBytes(logMax, s'.t)), Some(n))
  }

  // buddy_alloc.
  ghost function AllocArea(a: Area, logMax: nat, requested: nat): (r: (Area, Option<nat>))
    requires AreaOk(a, logMax) && requested <= MAX_REQUEST
    ensures AreaOk(r.0, logMax)
  {
    if Sub64(a.available, BlockSize(requested)) > a.available then (a, None)
    else
      Affordable(a, logMax, requested);
      AllocAt(a, logMax, Bucket(logMax, requested))
  }

  // A request leads from area a to a', and yields block r if any.
  ghost predicate Allocates(a: Area, logMax: nat, requested: nat, a': Area, r: Option<nat>)
    requires AreaOk(a, logMax) && requested <= MAX_REQUEST
  {
    (a', r) == AllocArea(a, logMax, requested)
  }

  ghost predicate AllocatesAt(a: Area, logMax: nat, bkt: nat, a': Area, r: Option<nat>)
    requires AreaOk(a, logMax) && bkt <= logMax - PGSHIFT
  {
    (a', r) == AllocAt(a, logMax, bkt)
  }

  // buddy_free.
  ghost function FreeArea(a: Area, logMax: nat, n: nat): (r: Area)
    requires AreaOk(a, logMax) && n in LiveSet(a.s.t)
    ensures AreaOk(r, logMax)
  {
    var order := logMax - PGSHIFT;
    ReleaseOk(a.s, order, n);
    ReleaseBytes(a.s, order, logMax, n);
    Area(Release(a.s, order, n), a.available + Size(logMax, Depth(n)))
  }

  lemma AvailableBound(a: Area, logMax: nat)
    requires AreaOk(a, logMax)
    ensures a.available == Pow2(logMax) - LiveBytes(logMax, a.s.t)
    ensures a.available <= Pow2(logMax) <= MAX_REQUEST < WORD
  {
    TotalBytes(logMax, logMax - PGSHIFT, a.s.t);
    Pow2Monotone(logMax, 30);
    MaxRequestIs();
  }

  // The wrap test passes exactly the sizes that fit what is available; they fit
  // the area, so the bucket index does not wrap.
  lemma Affordable(a: Area, logMax: nat, requested: nat)
    requires AreaOk(a, logMax) && requested <= MAX_REQUEST
    ensures Sub64(a.available, BlockSize(requested)) > a.available <==> BlockSize(requested) > a.available
    ensures BlockSize(requested) <= a.available ==> Bucket(logMax, requested) >= 0
  {
    AvailableBound(a, logMax);
    BlockSizeBound(requested);
    WrapTest(a.available, BlockSize(requested));
    if PGSHIFT + Doublings(requested) > logMax {
      Pow2Monotone(logMax, PGSHIFT + Doublings(requested));
    }
  }

  // A request is refused, or served from the bucket of its size.
  lemma AllocBranches(a: Area, logMax: nat, requested: nat, a': Area, r: Option<nat>)
    requires AreaOk(a, logMax) && requested <= MAX_REQUEST && Allocates(a, logMax, requested, a', r)
    ensures BlockSize(requested) > a.available ==> a' == a && r == None
    ensures BlockSize(requested) <= a.available ==>
              && Bucket(logMax, requested) >= 0
              && AllocatesAt(a, logMax, Bucket(logMax, requested), a', r)
  {
    Affordable(a, logMax, requested);
  }

  // One free block alone never exceeds the counter.
  lemma {:induction false} FreeBlockCounted(logMax: nat, t: Tree, n: nat, i: nat)
    requires n < i <= |t| <= NodeCount(logMax) && t[n] == Free
    ensures Depth(n) <= logMax
    ensures Size(logMax, Depth(n)) <= Bytes(logMax, t, Free, i)
    decreases i
  {
    DepthInTree(logMax, n);
    BytesNext(logMax, t, Free, i - 1);
    if n < i - 1 {
      FreeBlockCounted(logMax, t, n, i - 1);
    } else {
      assert Weight(logMax, n, true) == Size(logMax, Depth(n));
    }
  }

  lemma AllocAtComplete(a: Area, logMax: nat, bkt: nat, a': Area, r: Option<nat>)
    requires AreaOk(a, logMax) && bkt <= logMax - PGSHIFT
    requires AllocatesAt(a, logMax, bkt, a', r)
    ensures r.None? <==> forall n :: n in FreeSet(a.s.t) ==> Depth(n) > bkt
    ensures r.None? ==> a' == a
    ensures r.Some? ==> Depth(r.value) == bkt && r.value !in LiveSet(a.s.t)
    ensures r.Some? ==> LiveSet(a'.s.t) == LiveSet(a.s.t) + {r.value}
    ensures r.Some? ==> a'.available == a.available - Size(logMax, bkt)
  {
    AllocateOk(a.s, logMax - PGSHIFT, bkt);
    AllocateBytes(a.s, logMax - PGSHIFT, logMax, bkt);
  }

  // Which free blocks can serve a request, in bytes and in buckets.
  lemma Serves(a: Area, logMax: nat, requested: nat, n: nat)
    requires AreaOk(a, logMax) && n in FreeSet(a.s.t)
    ensures Depth(n) <= logMax - PGSHIFT
    ensures Size(logMax, Depth(n)) <= a.available
    ensures Size(logMax, Depth(n)) >= requested <==> Depth(n) <= Bucket(logMax, requested)
    ensures Size(logMax, Depth(n)) >= requested ==> BlockSize(requested) <= Size(logMax, Depth(n))
  {
    DepthInTree(logMax - PGSHIFT, n);
    FreeBlockCounted(logMax, a.s.t, n, |a.s.t|);
    Covers(logMax, requested, Depth(n));
  }

  lemma Covers(logMax: nat, requested: nat, k: nat)
    requires PGSHIFT <= logMax && k <= logMax - PGSHIFT
    ensures Size(logMax, k) >= requested <==> k <= Bucket(logMax, requested)
    ensures Size(logMax, k) >= requested ==> BlockSize(requested) <= Size(logMax, k)
  {
    TightBucket(logMax, requested, k);
    var d := Doublings(requested);
    if k + d <= logMax - PGSHIFT {
      Pow2Monotone(PGSHIFT + d, logMax - k);
    }
  }

  // Allocation is complete: a request fails exactly when every free block is too
  // small for it, and a failed request changes nothing.
  lemma AllocComplete(a: Area, logMax: nat, requested: nat, a': Area, r: Option<nat>)
    requires AreaOk(a, logMax) && requested <= MAX_REQUEST && Allocates(a, logMax, requested, a', r)
    ensures forall n :: n in FreeSet(a.s.t) ==> Depth(n) <= logMax
    ensures r.None? <==> forall n :: n in FreeSet(a.s.t) ==> Size(logMax, Depth(n)) < requested
    ensures r.None? ==> a' == a
  {
    var bkt := Bucket(logMax, requested);
    forall n | n in FreeSet(a.s.t)
      ensures Depth(n) <= logMax
      ensures BlockSize(requested) > a.available ==> Size(logMax, Depth(n)) < requested
      ensures Size(logMax, Depth(n)) < requested <==> Depth(n) > bkt
    {
      Serves(a, logMax, requested, n);
    }
    AllocBranches(a, logMax, requested, a', r);
    if BlockSize(requested) <= a.available {
      AllocAtComplete(a, logMax, bkt, a', r);
    }
  }

  // A request that succeeds gets a block of the tightest size that was not live,
  // and the counter drops by that size.
  lemma AllocGives(a: Area, logMax: nat, requested: nat, a': Area, n: nat)
    requires AreaOk(a, logMax) && requested <= MAX_REQUEST && Allocates(a, logMax, requested, a', Some(n))
    ensures Depth(n) <= logMax && Size(logMax, Depth(n)) == BlockSize(requested)
    ensures n !in LiveSet(a.s.t) && LiveSet(a'.s.t) == LiveSet(a.s.t) + {n}
    ensures a'.available == a.available - BlockSize(requested)
  {
    AllocBranches(a, logMax, requested, a', Some(n));
    AllocAtComplete(a, logMax, Bucket(logMax, requested), a', Some(n));
  }

  lemma FreeExact(a: Area, logMax: nat, n: nat)
    requires AreaOk(a, logMax) && n in LiveSet(a.s.t)
    ensures LiveSet(FreeArea(a, logMax, n).s.t) == LiveSet(a.s.t) - {n}
    ensures Depth(n) <= logMax
    ensures FreeArea(a, logMax, n).available == a.available + Size(logMax, Depth(n))
  {
    ReleaseOk(a.s, logMax - PGSHIFT, n);
    ReleaseBytes(a.s, logMax - PGSHIFT, logMax, n);
  }

  // Allocating and releasing the result is the identity.
  lemma AllocThenFree(a: Area, logMax: nat, requested: nat, a': Area, n: nat)
    requires AreaOk(a, logMax) && requested <= MAX_REQUEST
    requires Allocates(a, logMax, requested, a', Some(n))
    ensures n in LiveSet(a'.s.t) && FreeArea(a', logMax, n) == a
  {
    AllocBranches(a, logMax, requested, a', Some(n));
    AllocAtThenFree(a, logMax, Bucket(logMax, requested), a', n);
  }

  lemma AllocAtThenFree(a: Area, logMax: nat, bkt: nat, a': Area, n: nat)
    requires AreaOk(a, logMax) && bkt <= logMax - PGSHIFT
    requires AllocatesAt(a, logMax, bkt, a', Some(n))
    ensures n in LiveSet(a'.s.t) && FreeArea(a', logMax, n) == a
  {
    AllocAtComplete(a, logMax, bkt, a', Some(n));
    FreeExact(a', logMax, n);
    AllocateThenRelease(a.s, logMax - PGSHIFT, bkt);
  }

  // ---- whole runs ----

  datatype Op = AllocOp(requested: nat) | FreeOp(node: nat)

  // The area after a run from the initial state; None when a caller breaks the
  // rules: it frees a block that is not live, or asks for more than the shift at
  // kernel/kernel/buddy.c:108 can represent.
  ghost function Run(logMax: nat, ops: seq<Op>): (r: Option<Area>)
    requires PGSHIFT <= logMax <= 30
    ensures r.Some? ==> AreaOk(r.value, logMax)
  {
    if ops == [] then
      FreshOk(logMax);
      Some(Fresh(logMax))
    else
      match Run(logMax, DropLast(ops))
      case None => None
      case Some(a) =>
        match Last(ops)
        case AllocOp(requested) =>
          if requested <= MAX_REQUEST then Some(AllocArea(a, logMax, requested).0) else None
        case FreeOp(n) =>
          if n in LiveSet(a.s.t) then Some(FreeArea(a, logMax, n)) else None
  }

  // A run ends in this area.
  ghost predicate Reaches(logMax: nat, ops: seq<Op>, a: Area)
    requires PGSHIFT <= logMax <= 30
  {
    Run(logMax, ops) == Some(a)
  }

  // In every reachable state the counter is the free bytes, the live bytes are
  // the rest of the area, and no two neighbours that could merge are both free.
  lemma RunConserves(logMax: nat, ops: seq<Op>, a: Area)
    requires PGSHIFT <= logMax <= 30 && Reaches(logMax, ops, a)
    ensures |a.s.t| <= NodeCount(logMax)
    ensures a.available == FreeBytes(logMax, a.s.t) == Pow2(logMax) - LiveBytes(logMax, a.s.t)
    ensures forall n: nat :: 0 < n < |a.s.t| && n in FreeSet(a.s.t) ==> Sibling(n) !in FreeSet(a.s.t)
  {
    AvailableBound(a, logMax);
    forall n: nat | 0 < n < |a.s.t| && n in FreeSet(a.s.t)
      ensures Sibling(n) !in FreeSet(a.s.t)
    {
      FamilyOf(n);
      assert NodeOk(a.s.t, Parent(n));
    }
  }

  // Partition over whole runs: every byte of the area lies in exactly one block.
  lemma RunPartitions(g: Geometry, ops: seq<Op>, a: Area, address: nat)
    requires g.Valid() && g.base <= address < g.base + Pow2(g.logMax) && Reaches(g.logMax, ops, a)
    ensures exists b: nat :: IsBlock(a.s.t, b) && Holds(g, b, address)
    ensures forall m: nat, n: nat ::
              IsBlock(a.s.t, m) && Holds(g, m, address) && IsBlock(a.s.t, n) && Holds(g, n, address) ==> m == n
  {
    Partition(g, a.s.t, g.Order(), address);
  }

  // History independence: two runs that end with the same live blocks end with
  // the same free blocks, the same tree bits and the same counter.
  lemma RunsAgree(logMax: nat, ops: seq<Op>, a: Area, ops': seq<Op>, a': Area)
    requires PGSHIFT <= logMax <= 30 && Reaches(logMax, ops, a) && Reaches(logMax, ops', a')
    requires LiveSet(a.s.t) == LiveSet(a'.s.t)
    ensures a.s.t == a'.s.t && a.available == a'.available
    ensures FreeSet(a.s.t) == FreeSet(a'.s.t)
  {
    HistoryIndependent(a.s.t, a'.s.t, logMax - PGSHIFT);
  }

  // Full release: a run that leaves no block live ends with the root as the only
  // free block, every bit clear, its list the only non-empty one, and the whole
  // area available.
  lemma RunFullRelease(logMax: nat, ops: seq<Op>, a: Area)
    requires PGSHIFT <= logMax <= 30 && Reaches(logMax, ops, a)
    requires LiveSet(a.s.t) == {}
    ensures a == Fresh(logMax)
  {
    var order := logMax - PGSHIFT;
    FullRelease(a.s.t, order);
    AvailableBound(a, logMax);
    NoLiveBytes(logMax, a.s.t, |a.s.t|);
    InitialOk(order);
    var f := Initial(order);
    forall k | 0 <= k <= order
      ensures a.s.rings[k] == f.rings[k]
    {
      SameRing(a.s.t, a.s.rings[k], f.rings[k], k);
    }
    assert a.s.rings == f.rings;
  }

  // ---- two runs that show what goes wrong ----

  // A fresh area serves every request it is large enough for.
  lemma FreshServes(f: Area, logMax: nat, requested: nat) returns (a: Area, n: nat)
    requires PGSHIFT <= logMax <= 30 && f == Fresh(logMax) && requested <= Pow2(logMax)
    ensures requested <= MAX_REQUEST && AreaOk(f, logMax) && Allocates(f, logMax, requested, a, Some(n))
  {
    FreshOk(logMax);
    AvailableBound(f, logMax);
    var (a', r) := AllocArea(f, logMax, requested);
    AllocComplete(f, logMax, requested, a', r);
    RootFree(f, logMax);
    a, n := a', r.value;
  }

  lemma RootFree(f: Area, logMax: nat)
    requires PGSHIFT <= logMax && f == Fresh(logMax)
    ensures 0 in FreeSet(f.s.t) && Depth(0) == 0 && Size(logMax, Depth(0)) == Pow2(logMax)
    ensures forall n :: n in FreeSet(f.s.t) ==> Depth(n) == 0
  {
    assert Depth(0) == 0;
  }

  // The first block taken from a fresh area merges when it is released, unless it
  // is the whole area. So a release straight after an allocation is already one
  // that kernel/kernel/buddy.c:143 credits wrongly.
  lemma FirstReleaseMerges(f: Area, logMax: nat, requested: nat) returns (a: Area, n: nat)
    requires PGSHIFT <= logMax <= 30 && f == Fresh(logMax) && BlockSize(requested) < Pow2(logMax)
    ensures requested <= MAX_REQUEST && AreaOk(f, logMax) && Allocates(f, logMax, requested, a, Some(n))
    ensures n in LiveSet(a.s.t) && CanMerge(a.s, n)
  {
    a, n := FreshServes(f, logMax, requested);
    AllocGives(f, logMax, requested, a, n);
    AllocThenFree(f, logMax, requested, a, n);
    StaysIfAlone(a, logMax, n, f);
    RootFree(f, logMax);
  }

  lemma StaysIfAlone(a: Area, logMax: nat, n: nat, a': Area)
    requires AreaOk(a, logMax) && n in LiveSet(a.s.t) && a' == FreeArea(a, logMax, n)
    ensures !CanMerge(a.s, n) ==> n in FreeSet(a'.s.t)
  {
    DepthInTree(logMax - PGSHIFT, n);
  }

  // With one page taken, an area refuses a request for all that its counter says
  // is left, while a fresh area serves it.
  lemma FragmentedRefuses(f: Area, logMax: nat, rest: nat) returns (a: Area, a': Area, n: nat)
    requires PGSHIFT + 2 <= logMax <= 30 && f == Fresh(logMax) && rest + PGSIZE == Pow2(logMax)
    ensures rest <= MAX_REQUEST && AreaOk(f, logMax) && AreaOk(a, logMax)
    ensures Reaches(logMax, [AllocOp(1)], a) && a.available == rest
    ensures Allocates(a, logMax, rest, a, None)
    ensures Allocates(f, logMax, rest, a', Some(n))
  {
    FourPages(logMax);
    a, n := FreshServes(f, logMax, 1);
    OneStep(f, logMax, a, n);
    OnePage(f, logMax, a, n);
    Rounds(rest, logMax);
    Refused(a, logMax, rest);
    a', n := FreshServes(f, logMax, rest);
  }

  lemma Refused(a: Area, logMax: nat, requested: nat)
    requires AreaOk(a, logMax) && requested <= MAX_REQUEST && BlockSize(requested) > a.available
    ensures Allocates(a, logMax, requested, a, None)
  {
    var (a', r) := AllocArea(a, logMax, requested);
    AllocBranches(a, logMax, requested, a', r);
  }

  lemma OnePage(f: Area, logMax: nat, a: Area, n: nat)
    requires PGSHIFT <= logMax <= 30 && f == Fresh(logMax) && AreaOk(f, logMax) && Allocates(f, logMax, 1, a, Some(n))
    ensures AreaOk(a, logMax) && a.available + PGSIZE == Pow2(logMax)
  {
    AllocGives(f, logMax, 1, a, n);
    PageBlock();
  }

  lemma PageBlock()
    ensures BlockSize(1) == PGSIZE
  {
    PageSize();
  }

  lemma OneStep(f: Area, logMax: nat, a: Area, n: nat)
    requires PGSHIFT <= logMax <= 30 && f == Fresh(logMax) && AreaOk(f, logMax) && Allocates(f, logMax, 1, a, Some(n))
    ensures Reaches(logMax, [AllocOp(1)], a)
  {
    assert DropLast([AllocOp(1)]) == [] && Last([AllocOp(1)]) == AllocOp(1);
  }

  // A request of more than half of a power of two takes at least all of it.
  lemma Rounds(requested: nat, k: nat)
    requires 2 * requested > Pow2(k)
    ensures BlockSize(requested) >= Pow2(k)
  {
    Compare(PGSHIFT + Doublings(requested), k);
  }

  lemma FourPages(logMax: nat)
    requires PGSHIFT + 2 <= logMax <= 30
    ensures 4 * PGSIZE <= Pow2(logMax) <= MAX_REQUEST
  {
    PageSize();
    MaxRequestIs();
    Pow2Monotone(logMax, 30);
    Pow2Monotone(PGSHIFT, logMax - 2);
    Quadruple(logMax - 2);
  }

  lemma Quadruple(k: nat)
    ensures Pow2(k + 2) == 4 * Pow2(k)
  {
    assert Pow2(k + 2) == 2 * Pow2(k + 1);
  }

  lemma Compare(a: nat, b: nat)
    ensures Pow2(a) >= Pow2(b) || 2 * Pow2(a) <= Pow2(b)
  {
    if a < b {
      Pow2Monotone(a, b);
    } else {
      Pow2Monotone(b, a);
    }
  }

  // A list with at most one entry is determined by the tree.
  lemma SameRing(t: Tree, r: seq<nat>, r': seq<nat>, k: nat)
    requires RingOk(t, r, k) && RingOk(t, r', k) && |r'| <= 1
    ensures r == r'
  {
    forall x
      ensures x in r <==> x in r'
    {
    }
    if r' == [] {
      EmptyIs(r);
    } else {
      SingletonIs(r, r'[0]);
    }
  }

  lemma EntriesIn(r: seq<nat>)
    ensures r == [] || r[0] in r
    ensures |r| < 2 || r[1] in r
    ensures |r| < 2 || !NoDuplicates(r) || r[0] != r[1]
  {
  }

  lemma EmptyIs(r: seq<nat>)
    requires forall x :: x !in r
    ensures r == []
  {
    EntriesIn(r);
  }

  lemma SingletonIs(r: seq<nat>, x: nat)
    requires NoDuplicates(r) && forall y :: y in r <==> y == x
    ensures r == [x]
  {
    EntriesIn(r);
    assert x in r;
  }
}
