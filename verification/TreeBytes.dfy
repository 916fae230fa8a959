// What the allowlist tree publishes, byte by byte: the order of leaves and of the
// two halves of every hashed pair.
module TreeBytes {
  import opened Bytes
  import opened Merkle
  import opened Seqs
  import opened SetGateTree

  // ---- Leaves and nodes ----

  // Leaves stand in ascending order of their hashes, byte by byte.
  lemma LeavesAscend(keccak: Keccak, addresses: seq<Address>, i: nat, j: nat)
    ensures var ls := TreeLeaves(keccak, addresses);
      i < j < |ls| ==> ls[i].hash == ls[j].hash || IsBelow(ls[i].hash, ls[j].hash)
  {
    var ls := TreeLeaves(keccak, addresses);
    if i < j < |ls| {
      CompareOrders(ls[i].hash, ls[j].hash);
      CompareIsBelow(ls[i].hash, ls[j].hash);
    }
  }

  // A node is the hash of its children's 64 bytes, the smaller first.
  lemma NodeHashInBytes(keccak: Keccak, a: Hash, b: Hash)
    ensures a == b || IsBelow(a, b) ==>
      NodeHash(keccak, a, b) == keccak(a + b) && NodeHash(keccak, b, a) == keccak(a + b)
  {
    CompareIsBelow(a, b);
    CompareOrders(a, b);
    SortedPairCommutes(a, b);
  }

  // The word of an address: twelve zero bytes, then its twenty.
  predicate IsWordOf(word: Bytes, a: Address) {
    |word| == 32 && (forall i :: 0 <= i < 12 ==> word[i] == 0) && word[12..] == a
  }

  // A leaf is the hash of the hash of the address's word.
  lemma LeafHashInBytes(keccak: Keccak, a: Address, word: Bytes)
    ensures IsWordOf(word, a) ==> LeafHash(keccak, a) == keccak(keccak(word))
  {
    if IsWordOf(word, a) {
      assert word == word[..12] + word[12..];
      assert word[..12] == Zeros(12);
    }
  }

  // ---- The published tree ----

  ghost predicate IsHeapOf(keccak: Keccak, tree: seq<Hash>, hs: seq<Hash>) {
    && |tree| == 2 * |hs| - 1
    && (forall p :: 0 <= p < |hs| ==> tree[2 * |hs| - 2 - p] == hs[p])
    && (forall i :: 0 <= i < |hs| - 1 ==> IsParentOf(keccak, tree[i], tree[2 * i + 1], tree[2 * i + 2]))
  }

  lemma HeapInBytes(keccak: Keccak, hs: seq<Hash>)
    requires hs != []
    ensures IsHeapOf(keccak, Heap(keccak, hs), hs)
  {
    var tree := Heap(keccak, hs);
    forall i | 0 <= i < |hs| - 1 ensures IsParentOf(keccak, tree[i], tree[2 * i + 1], tree[2 * i + 2]) {
      ParentInBytes(keccak, tree[2 * i + 1], tree[2 * i + 2]);
    }
  }

  // The published heap: the sorted leaf hashes in reverse at its end, every other
  // entry the hash of its two children's bytes, the smaller first; the root on top.
  lemma TreeInBytes(keccak: Keccak, addresses: seq<Address>)
    requires addresses != []
    ensures var t := TreeOf(keccak, addresses);
      && |t.leaves| == |addresses| && IsHeapOf(keccak, t.tree, Hashes(t.leaves)) && t.root == t.tree[0]
  {
    TreeLeavesOf(keccak, addresses);
    HeapInBytes(keccak, Hashes(TreeLeaves(keccak, addresses)));
  }

  // The hash of two children's bytes, the smaller child first.
  ghost predicate IsParentOf(keccak: Keccak, node: Hash, left: Hash, right: Hash) {
    && (IsBelow(left, right) ==> node == keccak(left + right))
    && (!IsBelow(left, right) ==> node == keccak(right + left))
  }

  lemma ParentInBytes(keccak: Keccak, left: Hash, right: Hash)
    ensures IsParentOf(keccak, NodeHash(keccak, left, right), left, right)
  {
    CompareIsBelow(left, right);
    CompareIsBelow(right, left);
    CompareOrders(left, right);
    if IsBelow(left, right) || left == right {
      NodeHashInBytes(keccak, left, right);
    } else {
      NodeHashInBytes(keccak, right, left);
    }
  }

  lemma SingleLeaf(keccak: Keccak, a: Address, word: Bytes)
    requires IsWordOf(word, a)
    ensures TreeOf(keccak, [a]).root == keccak(keccak(word))
  {
    TreeInBytes(keccak, [a]);
    TreeLeavesOf(keccak, [a]);
    LeafHashInBytes(keccak, a, word);
  }

  // Two leaves: whichever way they are listed, the smaller hash comes first in the
  // leaves and in the bytes of the root, and last in the heap.
  lemma TwoLeaves(keccak: Keccak, a: Address, b: Address)
    requires IsBelow(LeafHash(keccak, a), LeafHash(keccak, b))
    ensures var x, y := LeafHash(keccak, a), LeafHash(keccak, b);
      && TreeOf(keccak, [a, b]).leaves == TreeOf(keccak, [b, a]).leaves == [Leaf(a, x), Leaf(b, y)]
      && TreeOf(keccak, [a, b]).tree == TreeOf(keccak, [b, a]).tree == [keccak(x + y), y, x]
      && TreeOf(keccak, [a, b]).root == TreeOf(keccak, [b, a]).root == keccak(x + y)
  {
    TwoSorted(keccak, a, b);
    TwoHeap(keccak, [a, b], Leaf(a, LeafHash(keccak, a)), Leaf(b, LeafHash(keccak, b)));
    TwoHeap(keccak, [b, a], Leaf(a, LeafHash(keccak, a)), Leaf(b, LeafHash(keccak, b)));
  }

  lemma TwoSorted(keccak: Keccak, a: Address, b: Address)
    requires IsBelow(LeafHash(keccak, a), LeafHash(keccak, b))
    ensures var x, y := LeafHash(keccak, a), LeafHash(keccak, b);
      TreeLeaves(keccak, [a, b]) == TreeLeaves(keccak, [b, a]) == [Leaf(a, x), Leaf(b, y)]
  {
    var x, y := LeafHash(keccak, a), LeafHash(keccak, b);
    CompareIsBelow(x, y);
    CompareOrders(x, y);
    assert MakeLeaves(keccak, [a, b]) == [Leaf(a, x), Leaf(b, y)];
    assert MakeLeaves(keccak, [b, a]) == [Leaf(b, y), Leaf(a, x)];
    SortsTwo(Leaf(a, x), Leaf(b, y));
  }

  lemma SortsTwo(l: Leaf, m: Leaf)
    requires Compare(l.hash, m.hash) < 0 && Compare(m.hash, l.hash) > 0
    ensures SortLeaves([l, m]) == SortLeaves([m, l]) == [l, m]
  {
    assert [l, m][1..] == [m] && [m, l][1..] == [l];
    assert [l][1..] == [] && [m][1..] == [];
    assert SortLeaves([m]) == [m] && SortLeaves([l]) == [l];
    assert InsertLeaf(m, []) == [m];
  }

  lemma ThreeNodes(keccak: Keccak, tree: seq<Hash>, x: Hash, y: Hash)
    requires IsHeapOf(keccak, tree, [x, y]) && IsBelow(x, y)
    ensures tree == [keccak(x + y), y, x]
  {
    assert tree[2 * 2 - 2 - 0] == [x, y][0] && tree[2 * 2 - 2 - 1] == [x, y][1];
    assert IsParentOf(keccak, tree[0], tree[2 * 0 + 1], tree[2 * 0 + 2]);
    CompareIsBelow(x, y);
    CompareIsBelow(y, x);
    CompareOrders(x, y);
  }

  lemma TwoHeap(keccak: Keccak, addresses: seq<Address>, l: Leaf, m: Leaf)
    requires |addresses| == 2 && IsBelow(l.hash, m.hash) && TreeLeaves(keccak, addresses) == [l, m]
    ensures var t := TreeOf(keccak, addresses);
      t.tree == [keccak(l.hash + m.hash), m.hash, l.hash] && t.root == keccak(l.hash + m.hash)
  {
    var t := TreeOf(keccak, addresses);
    assert IsHeapOf(keccak, t.tree, Hashes([l, m])) && t.root == t.tree[0] by { TreeInBytes(keccak, addresses); }
    assert Hashes([l, m]) == [l.hash, m.hash];
    ThreeNodes(keccak, t.tree, l.hash, m.hash);
  }
}
