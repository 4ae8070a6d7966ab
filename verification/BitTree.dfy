// One bit per tree node, packed eight to a byte (kernel/kernel/buddy.c:21-32).

module BitTree {
  import opened Nodes

  predicate TestBit(b: bv8, i: nat)
    requires i < 8
  {
    (b >> i) & 1 == 1
  }

  predicate Bit(tree: seq<bv8>, node: nat)
    requires node / 8 < |tree|
  {
    TestBit(tree[node / 8], node % 8)
  }

  lemma OrBit(b: bv8, i: nat, j: nat)
    requires i < 8 && j < 8
    ensures TestBit(b | (1 << i), j) == (TestBit(b, j) || i == j)
  {
    assert i in {0, 1, 2, 3, 4, 5, 6, 7};
    assert j in {0, 1, 2, 3, 4, 5, 6, 7};
  }

  lemma XorBit(b: bv8, i: nat, j: nat)
    requires i < 8 && j < 8
    ensures TestBit(b ^ (1 << i), j) == (TestBit(b, j) != (i == j))
  {
    assert i in {0, 1, 2, 3, 4, 5, 6, 7};
    assert j in {0, 1, 2, 3, 4, 5, 6, 7};
  }

  // node_is_split
  method NodeIsSplit(tree: array<bv8>, node: nat) returns (r: bool)
    requires node / 8 < tree.Length
    ensures r == Bit(tree[..], node)
  {
    r := (tree[node / 8] >> (node % 8)) & 1 == 1;
  }

  function SetBit(tree: seq<bv8>, node: nat): seq<bv8>
    requires node / 8 < |tree|
  {
    tree[node / 8 := tree[node / 8] | (1 << (node % 8))]
  }

  function FlipBit(tree: seq<bv8>, node: nat): seq<bv8>
    requires node / 8 < |tree|
  {
    tree[node / 8 := tree[node / 8] ^ (1 << (node % 8))]
  }

  // Setting a node's bit changes that bit, and only that one.
  lemma SetOne(tree: seq<bv8>, node: nat, n: nat)
    requires node / 8 < |tree| && n / 8 < |tree|
    ensures Bit(SetBit(tree, node), n) == (Bit(tree, n) || n == node)
  {
    SameBit(n, node);
    SetAt(tree, node / 8, node % 8, n / 8, n % 8);
  }

  lemma SetAt(tree: seq<bv8>, i: nat, j: nat, k: nat, h: nat)
    requires i < |tree| && k < |tree| && j < 8 && h < 8
    ensures TestBit(tree[i := tree[i] | (1 << j)][k], h) == (TestBit(tree[k], h) || (i == k && j == h))
  {
    if i == k {
      OrBit(tree[i], j, h);
    }
  }

  // Flipping a node's bit changes that bit, and only that one.
  lemma FlipOne(tree: seq<bv8>, node: nat, n: nat)
    requires node / 8 < |tree| && n / 8 < |tree|
    ensures Bit(FlipBit(tree, node), n) == (Bit(tree, n) != (n == node))
  {
    SameBit(n, node);
    FlipAt(tree, node / 8, node % 8, n / 8, n % 8);
  }

  lemma FlipAt(tree: seq<bv8>, i: nat, j: nat, k: nat, h: nat)
    requires i < |tree| && k < |tree| && j < 8 && h < 8
    ensures TestBit(tree[i := tree[i] ^ (1 << j)][k], h) == (TestBit(tree[k], h) != (i == k && j == h))
  {
    if i == k {
      XorBit(tree[i], j, h);
    }
  }

  // node_set_split
  method NodeSetSplit(tree: array<bv8>, node: nat)
    requires node / 8 < tree.Length
    modifies tree
    ensures tree[..] == SetBit(old(tree[..]), node)
  {
    tree[node / 8] := tree[node / 8] | (1 << (node % 8));
  }

  // node_parent_flip
  method NodeParentFlip(tree: array<bv8>, node: nat)
    requires node > 0 && Parent(node) / 8 < tree.Length
    modifies tree
    ensures tree[..] == FlipBit(old(tree[..]), Parent(node))
  {
    var parent := Parent(node);
    tree[parent / 8] := tree[parent / 8] ^ (1 << (parent % 8));
  }

  lemma SameBit(n: nat, m: nat)
    ensures n == m <==> n / 8 == m / 8 && n % 8 == m % 8
  {
    assert n == 8 * (n / 8) + n % 8 && m == 8 * (m / 8) + m % 8;
  }
}
