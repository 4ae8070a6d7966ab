// The slab allocator's object stack (kernel/kernel/slab.c).

module Slab {
  import opened Words
  import opened Nodes
  import opened Blocks

  // ---- sizes ----

  // The object sizes of the slab table; 0 ends it.
  const OBJ_SIZES: seq<nat> := [8, 16, 32, 64, 128, 256, 512, 1024, 0]

  // kmalloc_index
  function KmallocIndex(size: nat): nat {
    if size <= 8 then 0
    else if size <= 16 then 1
    else if size <= 32 then 2
    else if size <= 64 then 3
    else if size <= 128 then 4
    else if size <= 256 then 5
    else if size <= 512 then 6
    else if size <= 1024 then 7
    else 8
  }

  // The index is the first slab whose objects hold the request, or the end of the
  // table exactly when none does.
  lemma KmallocIndexTight(size: nat)
    ensures KmallocIndex(size) < |OBJ_SIZES|
    ensures KmallocIndex(size) < 8 ==> size <= OBJ_SIZES[KmallocIndex(size)]
    ensures forall i :: 0 <= i < KmallocIndex(size) ==> OBJ_SIZES[i] < size
    ensures KmallocIndex(size) == 8 <==> forall i :: 0 <= i < 8 ==> OBJ_SIZES[i] < size
  {
    assert OBJ_SIZES[7] == 1024;
  }

  // ---- the abstract stack ----

  // The free objects, top first, and the objects handed out.
  datatype Stack = Stack(free: seq<nat>, live: set<nat>)

  // Every object is free once or handed out, and never both.
  ghost predicate StackOk(s: Stack, all: set<nat>) {
    multiset(s.free) + multiset(s.live) == multiset(all)
  }

  datatype Op = Get | Put(obj: nat)

  // One call. A put of an object that is not handed out breaks the rules.
  function Step(s: Stack, op: Op): Option<Stack> {
    match op
    case Get => if s.free == [] then Some(s) else Some(Stack(s.free[1..], s.live + {s.free[0]}))
    case Put(obj) => if obj in s.live then Some(Stack([obj] + s.free, s.live - {obj})) else None
  }

  function Run(s: Stack, ops: seq<Op>): Option<Stack>
    decreases ops
  {
    if ops == [] then Some(s)
    else
      match Step(s, ops[0])
      case None => None
      case Some(s') => Run(s', ops[1..])
  }

  // Objects are conserved over every run: what is free and what is handed out are
  // disjoint and together exactly the filled set, so no object is out twice.
  lemma {:induction false} RunConserves(s: Stack, ops: seq<Op>, all: set<nat>)
    requires StackOk(s, all)
    ensures Run(s, ops).Some? ==>
              var s' := Run(s, ops).value;
              && NoDuplicates(s'.free) && (forall x :: x in s'.free ==> x !in s'.live)
              && (forall x :: x in all <==> x in s'.free || x in s'.live)
              && |s'.free| + |s'.live| == |all|
    decreases ops
  {
    if ops == [] {
      StackMeans(s, all);
    } else if Step(s, ops[0]).Some? {
      StepConserves(s, ops[0], all);
      RunConserves(Step(s, ops[0]).value, ops[1..], all);
    }
  }

  // As many gets as there are free objects hand out every one of them. The next
  // get is then the one that kernel/kernel/slab.c:7 lets past the end.
  lemma {:induction false} GetsEmpty(s: Stack)
    ensures Run(s, Gets(|s.free|)) == Some(Stack([], s.live + set x | x in s.free))
    decreases s.free
  {
    if s.free == [] {
      assert s.live + (set x | x in s.free) == s.live;
    } else {
      var s1 := Step(s, Get).value;
      GetsEmpty(s1);
      assert Gets(|s.free|)[0] == Get && Gets(|s.free|)[1..] == Gets(|s1.free|);
      assert s.free == [s.free[0]] + s1.free;
      assert s.live + (set x | x in s.free) == s1.live + (set x | x in s1.free);
    }
  }

  function Gets(n: nat): (r: seq<Op>)
    ensures |r| == n
  {
    if n == 0 then [] else [Get] + Gets(n - 1)
  }

  lemma StepConserves(s: Stack, op: Op, all: set<nat>)
    requires StackOk(s, all) && Step(s, op).Some?
    ensures StackOk(Step(s, op).value, all)
    ensures op.Get? && s.free != [] ==> s.free[0] !in s.live
  {
    match op
    case Get =>
      if s.free != [] {
        assert s.free == [s.free[0]] + s.free[1..];
        assert s.free[0] in multiset(s.free);
        assert multiset(all)[s.free[0]] <= 1;
      }
    case Put(obj) =>
  }

  lemma StackMeans(s: Stack, all: set<nat>)
    requires StackOk(s, all)
    ensures NoDuplicates(s.free)
    ensures forall x :: x in s.free ==> x !in s.live
    ensures forall x :: x in all <==> x in s.free || x in s.live
    ensures |s.free| + |s.live| == |all|
  {
    assert |multiset(s.free) + multiset(s.live)| == |s.free| + |s.live|;
    forall x
      ensures x in all <==> x in s.free || x in s.live
      ensures x in s.free ==> x !in s.live
    {
      assert x in all <==> x in multiset(all);
      assert x in s.free <==> x in multiset(s.free);
      assert multiset(all)[x] <= 1;
    }
    forall i, j | 0 <= i < j < |s.free|
      ensures s.free[i] != s.free[j]
    {
      OnceEach(s.free, i, j);
      assert multiset(all)[s.free[i]] <= 1;
    }
  }

  lemma OnceEach(s: seq<nat>, i: nat, j: nat)
    requires i < j < |s|
    ensures s[i] == s[j] ==> multiset(s)[s[i]] >= 2
  {
    assert s == s[..j] + [s[j]] + s[j + 1..];
    assert multiset(s) == multiset(s[..j]) + multiset{s[j]} + multiset(s[j + 1..]);
    assert s[..j][i] == s[i];
    assert s[i] in multiset(s[..j]);
  }

  lemma {:induction false} Distinct(s: seq<nat>, all: set<nat>)
    requires NoDuplicates(s) && all == set x | x in s
    ensures multiset(s) == multiset(all)
    decreases s
  {
    if s == [] {
      assert all == {};
    } else {
      var rest := set x | x in s[1..];
      Distinct(s[1..], rest);
      assert s == [s[0]] + s[1..];
      assert s[0] !in rest && all == {s[0]} + rest;
    }
  }

  // ---- the cache object ----

  // What cache_get reads: nothing, an object, or the slot behind the last one.
  datatype Fetched = Null | Object(p: nat) | PastEnd

  class Cache {
    var index: nat
    var entriesSz: nat
    const entries: array<nat>
    ghost var live: set<nat>
    ghost const all: set<nat>

    ghost function Contents(): Stack
      reads this, entries
      requires index <= entriesSz == entries.Length
    {
      Stack(entries[index..], live)
    }

    ghost predicate Valid()
      reads this, entries
    {
      && index <= entriesSz == entries.Length
      && StackOk(Contents(), all)
      && |all| == entriesSz
    }

    // A cache of one page of objects, filled; `index` and `entriesSz` set.
    constructor (objSize: nat, anchor: nat)
      requires 0 < objSize && PGSIZE % objSize == 0
      ensures Valid() && fresh(entries)
      ensures Contents() == Stack(Objects(objSize, anchor), {})
      ensures all == set x | x in Objects(objSize, anchor)
    {
      index, live := 0, {};
      entriesSz := PGSIZE / objSize;
      entries := new nat[PGSIZE / objSize];
      all := set x | x in Objects(objSize, anchor);
      new;
      FillCache(entries, objSize, anchor);
      assert entries[0..] == Objects(objSize, anchor);
      ObjectsDistinct(objSize, anchor);
      Distinct(Objects(objSize, anchor), all);
      StackMeans(Contents(), all);
    }

    // The last line of cache_get.
    method Advance() returns (p: nat)
      requires Valid() && index < entriesSz
      modifies this`index, this`live
      ensures Valid()
      ensures Step(old(Contents()), Op.Get) == Some(Contents())
      ensures p == old(Contents()).free[0] && p !in old(live)
    {
      ghost var was := Contents();
      StepConserves(was, Op.Get, all);
      p := entries[index];
      index := index + 1;
      live := live + {p};
      TailOf(entries[..], index - 1);
      assert Contents() == Step(was, Op.Get).value;
    }

    // cache_get with the bound that is meant.
    method Get() returns (r: Option<nat>)
      requires Valid()
      modifies this`index, this`live
      ensures Valid()
      ensures Step(old(Contents()), Op.Get) == Some(Contents())
      ensures r.None? <==> old(Contents()).free == []
      ensures r.Some? ==> r.value == old(Contents()).free[0] && r.value !in old(live)
    {
      if index >= entriesSz {
        return None;
      }
      var p := Advance();
      return Some(p);
    }

    // cache_get as written reads past the last entry exactly when every object is
    // handed out; otherwise it does what is meant.
    method GetAsWritten() returns (r: Fetched)
      requires Valid()
      modifies this`index, this`live
      ensures r.PastEnd? <==> old(Contents()).free == []
      ensures Valid() <==> old(Contents()).free != []
      ensures old(Contents()).free != [] ==>
                r == Object(old(Contents()).free[0]) && Step(old(Contents()), Op.Get) == Some(Contents())
    {
      if index > entriesSz {
        return Null;
      }
      if index == entriesSz {
        index := index + 1;
        return PastEnd;
      }
      var p := Advance();
      return Object(p);
    }

    // cache_put; None stands for the panic on a spurious put. Nothing is checked
    // about the object: it is stored, and the cache stays valid exactly when it was
    // handed out.
    method Put(obj: nat) returns (r: Option<()>)
      requires Valid()
      modifies this`index, this`live, entries
      ensures r.None? <==> old(live) == {}
      ensures r.None? ==> Valid() && Contents() == old(Contents())
      ensures r.Some? ==>
                && index <= entriesSz == entries.Length
                && Contents() == Stack([obj] + old(Contents()).free, old(live) - {obj})
                && (Valid() <==> obj in old(live))
      ensures r.Some? && obj in old(live) ==> Step(old(Contents()), Op.Put(obj)) == Some(Contents())
    {
      ghost var was, slots := Contents(), entries[..];
      StackMeans(was, all);
      if index == 0 {
        return None;
      }
      PushFront(slots, index, obj);
      PutVerdict(was, obj, all);
      index := index - 1;
      entries[index] := obj;
      live := live - {obj};
      assert entries[..] == slots[index := obj] && entries[index..] == entries[..][index..];
      return Some(());
    }
  }

  // Putting an object back keeps every object free or handed out, and never both,
  // exactly when it was handed out.
  lemma PutVerdict(s: Stack, obj: nat, all: set<nat>)
    requires StackOk(s, all)
    ensures StackOk(Stack([obj] + s.free, s.live - {obj}), all) <==> obj in s.live
  {
    if obj in s.live {
      StepConserves(s, Op.Put(obj), all);
    } else {
      assert s.live - {obj} == s.live;
      StackMeans(s, all);
      if StackOk(Stack([obj] + s.free, s.live), all) {
        StackMeans(Stack([obj] + s.free, s.live), all);
      }
    }
  }

  lemma PushFront(s: seq<nat>, i: nat, x: nat)
    requires 0 < i <= |s|
    ensures s[i - 1 := x][i - 1..] == [x] + s[i..]
  {
  }

  lemma TailOf(s: seq<nat>, i: nat)
    requires i < |s|
    ensures s[i..] == [s[i]] + s[i + 1..] && s[i..][1..] == s[i + 1..]
  {
  }

  // ---- filling ----

  // The objects of one page.
  function Objects(objSize: nat, anchor: nat): (s: seq<nat>)
    requires objSize > 0
    ensures |s| == PGSIZE / objSize
  {
    seq(PGSIZE / objSize, k => anchor + k * objSize)
  }

  // fill_cache
  method FillCache(entries: array<nat>, objSize: nat, anchor: nat)
    requires 0 < objSize && PGSIZE % objSize == 0 && entries.Length == PGSIZE / objSize
    modifies entries
    ensures entries[..] == Objects(objSize, anchor)
  {
    var i: nat := 0;
    ghost var k: nat := 0;
    Whole(objSize);
    while i < PGSIZE
      invariant k <= entries.Length && i == k * objSize
      invariant entries[..k] == Objects(objSize, anchor)[..k]
      decreases PGSIZE - i
    {
      SlotOf(k, objSize, PGSIZE, PGSIZE / objSize);
      entries[i / objSize] := anchor + i;
      k := k + 1;
      i := i + objSize;
    }
    SlotEnd(k, objSize, PGSIZE, PGSIZE / objSize);
    assert entries[..k] == entries[..];
  }

  lemma Whole(objSize: nat)
    requires 0 < objSize && PGSIZE % objSize == 0
    ensures PGSIZE / objSize * objSize == PGSIZE
  {
  }

  lemma SlotOf(k: nat, size: nat, total: nat, n: nat)
    requires size > 0 && n * size == total && k * size < total
    ensures k * size / size == k && k < n && (k + 1) * size == k * size + size
  {
    Ordered(n, k, size);
    DivUnique(k * size, size, k, 0);
  }

  lemma SlotEnd(k: nat, size: nat, total: nat, n: nat)
    requires size > 0 && n * size == total && k * size >= total && k <= n
    ensures k == n
  {
    Ordered(k, n, size);
  }

  // The objects of a page do not overlap and do not leave the page.
  lemma ObjectsTile(objSize: nat, anchor: nat, j: nat, k: nat)
    requires 0 < objSize && PGSIZE % objSize == 0 && j < k < PGSIZE / objSize
    ensures Objects(objSize, anchor)[j] + objSize <= Objects(objSize, anchor)[k]
    ensures anchor <= Objects(objSize, anchor)[j]
    ensures Objects(objSize, anchor)[k] + objSize <= anchor + PGSIZE
  {
    Whole(objSize);
    Ordered(j, k, objSize);
    Ordered(k, PGSIZE / objSize, objSize);
  }

  lemma ObjectsDistinct(objSize: nat, anchor: nat)
    requires 0 < objSize && PGSIZE % objSize == 0
    ensures NoDuplicates(Objects(objSize, anchor))
  {
    forall j, k | 0 <= j < k < PGSIZE / objSize
      ensures Objects(objSize, anchor)[j] != Objects(objSize, anchor)[k]
    {
      ObjectsTile(objSize, anchor, j, k);
    }
  }
}
