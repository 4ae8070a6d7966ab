// The boot-time bump allocator (kernel/kernel/mm.c:13-26).

module Reserved {
  import opened Words
  import opened Blocks

  // ALIGN_TO of kernel/include/lunaros/kernel.h, in 64-bit arithmetic.
  function AlignTo(n: nat, b: nat): (r: nat)
    requires n < WORD && 0 < b < WORD
    ensures r < WORD
  {
    if n % b != 0 then (n + (b - n % b)) % WORD else n
  }

  // Aligning to 8 bytes rounds up to a multiple of 8, unless that is 2^64: then
  // the result wraps to 0.
  lemma AlignTo8(n: nat)
    requires n < WORD
    ensures AlignTo(n, 8) % 8 == 0
    ensures n <= WORD - 8 ==> n <= AlignTo(n, 8) < n + 8
    ensures n > WORD - 8 ==> AlignTo(n, 8) == 0
  {
    if n % 8 != 0 {
      var m := n + (8 - n % 8);
      assert m % 8 == 0;
      assert WORD % 8 == 0;
      if m == WORD {
        assert m % WORD == 0;
      } else {
        assert m < WORD;
      }
    }
  }

  class ReservedPool {
    var base: nat
    var available: nat
    const start: nat
    const size: nat
    const page: array<bv8>
    // The regions handed out, in order.
    ghost var given: seq<(nat, nat)>

    ghost predicate Valid()
      reads this
    {
      && page.Length == size
      && start <= base && base + available == start + size < WORD
      && base % 8 == start % 8
      && (forall i :: 0 <= i < |given| ==> start <= given[i].0 && given[i].0 + given[i].1 <= base)
      && (forall i, j :: 0 <= i < j < |given| ==> given[i].0 + given[i].1 <= given[j].0)
    }

    // Two pages in the kernel image.
    constructor (start: nat)
      requires start + 2 * 4096 < WORD
      ensures Valid() && given == [] && available == 2 * 4096 && base == start && fresh(page)
    {
      this.start, size := start, 2 * 4096;
      page := new bv8[2 * 4096](i => 0);
      base, available, given := start, 2 * 4096, [];
    }

    // mm_reserved_alloc. Whatever was handed out before stays apart from what is
    // handed out now, and as it was; the new region is all zeros, and covers the
    // request exactly when rounding the request up does not wrap.
    method Alloc(sz: nat) returns (r: Option<nat>)
      requires Valid() && sz < WORD
      modifies this, page
      ensures Valid()
      ensures r.None? <==> AlignTo(sz, 8) > old(available)
      ensures r.None? ==>
                base == old(base) && available == old(available) && given == old(given) && page[..] == old(page[..])
      ensures r.Some? ==>
                && given == old(given) + [(r.value, AlignTo(sz, 8))]
                && r.value == old(base) && r.value % 8 == start % 8
                && start <= r.value && r.value + AlignTo(sz, 8) <= start + size
                && available == old(available) - AlignTo(sz, 8)
      ensures r.Some? ==> forall k :: 0 <= k < size ==>
                page[k] == if r.value <= start + k < r.value + AlignTo(sz, 8) then 0 else old(page[k])
      ensures r.Some? ==> (AlignTo(sz, 8) >= sz <==> sz <= WORD - 8)
    {
      AlignTo8(sz);
      var rounded := AlignTo(sz, 8);
      if rounded > available {
        return None;
      }
      r := Some(base);
      Clear(base - start, rounded);
      given := given + [(base, rounded)];
      base := base + rounded;
      available := available - rounded;
    }

    // memset to 0.
    method Clear(from: nat, n: nat)
      requires from + n <= page.Length
      modifies page
      ensures forall k :: 0 <= k < page.Length ==> page[k] == if from <= k < from + n then 0 else old(page[k])
    {
      for i := 0 to n
        invariant forall k :: 0 <= k < page.Length ==> page[k] == if from <= k < from + i then 0 else old(page[k])
      {
        page[from + i] := 0;
      }
    }
  }
}
