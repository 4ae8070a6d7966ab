// Machine words: shifts, 64-bit subtraction, and the trailing-zero logarithm
// of kernel/include/lunaros/kernel.h.

module Words {

  const WORD: nat := 0x1_0000_0000_0000_0000

  function Pow2(k: nat): (r: nat)
    ensures r >= 1
  {
    if k == 0 then 1 else 2 * Pow2(k - 1)
  }

  lemma {:induction false} Pow2Monotone(a: nat, b: nat)
    requires a <= b
    ensures Pow2(a) <= Pow2(b)
    ensures a < b ==> 2 * Pow2(a) <= Pow2(b)
    decreases b
  {
    if a < b {
      Pow2Monotone(a, b - 1);
    }
  }

  // Shifts, one bit at a time.
  function Shl(x: nat, s: nat): nat
    decreases s
  {
    if s == 0 then x else Shl(2 * x, s - 1)
  }

  function Shr(x: nat, s: nat): nat
    decreases s
  {
    if s == 0 then x else Shr(x / 2, s - 1)
  }

  lemma ShlDouble(x: nat, s: nat)
    ensures Shl(x, s + 1) == Shl(2 * x, s)
    ensures Pow2(s + 1) == 2 * Pow2(s)
  {
  }

  lemma {:induction false} ShlAdd(x: nat, y: nat, s: nat)
    ensures Shl(x + y, s) == Shl(x, s) + Shl(y, s)
    decreases s
  {
    if s > 0 {
      ShlAdd(2 * x, 2 * y, s - 1);
      assert 2 * (x + y) == 2 * x + 2 * y;
    }
  }

  lemma {:induction false} ShlOfPow2(k: nat, s: nat)
    ensures Shl(Pow2(k), s) == Pow2(k + s)
    decreases s
  {
    if s > 0 {
      ShlOfPow2(k + 1, s - 1);
      assert Pow2(k + 1) == 2 * Pow2(k);
      assert k + 1 + (s - 1) == k + s;
    }
  }

  lemma ShlSucc(x: nat, s: nat)
    ensures Shl(x + 1, s) == Shl(x, s) + Pow2(s)
  {
    ShlAdd(x, 1, s);
    ShlOfPow2(0, s);
  }

  lemma {:induction false} ShlGrows(x: nat, s: nat)
    ensures Shl(x, s) >= x
    decreases s
  {
    if s > 0 {
      ShlGrows(2 * x, s - 1);
    }
  }

  lemma ShlMonotone(x: nat, y: nat, s: nat)
    requires x <= y
    ensures Shl(x, s) <= Shl(y, s)
    ensures x < y ==> Shl(x, s) + Pow2(s) <= Shl(y, s)
  {
    if x < y {
      ShlSucc(x, s);
      ShlAdd(x + 1, y - x - 1, s);
      assert x + 1 + (y - x - 1) == y;
    }
  }

  lemma {:induction false} ShrShl(x: nat, s: nat)
    ensures Shr(Shl(x, s), s) == x
    decreases s
  {
    if s > 0 {
      ShlAdd(x, x, s - 1);
      assert x + x == 2 * x;
      assert Shl(x, s) / 2 == Shl(x, s - 1);
      ShrShl(x, s - 1);
    }
  }

  // Shifting right and back drops the low bits and nothing else.
  lemma {:induction false} ShlShr(x: nat, s: nat)
    ensures Shl(Shr(x, s), s) <= x < Shl(Shr(x, s), s) + Pow2(s)
    decreases s
  {
    if s > 0 {
      var q := Shr(x / 2, s - 1);
      ShlShr(x / 2, s - 1);
      ShlAdd(q, q, s - 1);
      assert q + q == 2 * q;
    }
  }

  // Multiplication keeps the order, and spreads it.
  lemma Ordered(a: nat, b: nat, c: nat)
    ensures a <= b ==> a * c <= b * c
    ensures a < b ==> a * c + c <= b * c
  {
    if a < b {
      Spread(b - a, c);
      assert b * c == a * c + (b - a) * c;
    }
  }

  lemma Spread(d: nat, c: nat)
    requires d >= 1
    ensures d * c >= c
  {
  }

  // Division with remainder has one answer.
  lemma DivUnique(a: nat, p: nat, q: nat, r: nat)
    requires p > 0 && r < p && a == q * p + r
    ensures a / p == q && a % p == r
  {
    var q', r' := a / p, a % p;
    assert a == q' * p + r';
    Ordered(q, q', p);
    Ordered(q', q, p);
  }

  // Unsigned 64-bit subtraction, as C defines it.
  function Sub64(a: int, b: int): (r: nat)
    ensures 0 <= r < WORD
  {
    (a - b) % WORD
  }

  lemma Sub64Next(k: int)
    ensures Sub64(k % WORD, 1) == (k - 1) % WORD
  {
    assert k == WORD * (k / WORD) + k % WORD;
  }

  // Unsigned 64-bit doubling.
  function Double64(x: nat): (r: nat)
    ensures r < WORD
    ensures x < WORD / 2 ==> r == 2 * x
  {
    (2 * x) % WORD
  }

  // The test at kernel/kernel/buddy.c:109 detects exactly the requests that
  // exceed what is available.
  lemma WrapTest(available: nat, size: nat)
    requires available < WORD && size < WORD
    ensures Sub64(available, size) > available <==> size > available
  {
    if size > available {
      assert available - size == -1 * WORD + (available - size + WORD);
      assert (available - size) % WORD == available - size + WORD;
    }
  }

  // log2 of kernel/include/lunaros/kernel.h: the number of trailing zeros.
  function Log2(n: nat): nat {
    if n == 0 || n % 2 == 1 then 0 else 1 + Log2(n / 2)
  }

  lemma {:induction false} Log2OfPow2(k: nat)
    ensures Log2(Pow2(k)) == k
  {
    if k > 0 {
      Log2OfPow2(k - 1);
      assert Pow2(k) / 2 == Pow2(k - 1);
    }
  }

  // The trailing-zero count is a logarithm on powers of two and on nothing else.
  lemma {:induction false} Log2Exact(n: nat)
    requires n > 0
    ensures Pow2(Log2(n)) <= n
    ensures Pow2(Log2(n)) == n <==> exists k: nat :: n == Pow2(k)
  {
    Log2Divides(n);
    if k: nat :| n == Pow2(k) {
      Log2OfPow2(k);
    }
  }

  lemma {:induction false} Log2Divides(n: nat)
    requires n > 0
    ensures Pow2(Log2(n)) <= n
  {
    if n % 2 == 0 {
      Log2Divides(n / 2);
    }
  }
}
