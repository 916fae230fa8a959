// What the allowlist tree means: leaf and node hashes, the node values of a
// heap-shaped tree over a sorted list of leaf hashes, the sibling path of an
// index, and the standard sorted-pair verifier. Keccak-256 is a parameter.
module Merkle {
  import opened Bytes
  import opened Seqs

  type Keccak = Bytes -> Hash

  datatype Leaf = Leaf(addr: Address, hash: Hash)

  // abi.encode(address): left-padded to one word.
  function AbiEncode(a: Address): Hash {
    Zeros(12) + a
  }

  function LeafHash(keccak: Keccak, a: Address): Hash {
    keccak(keccak(AbiEncode(a)))
  }

  function SortedPair(a: Hash, b: Hash): (r: Bytes)
    ensures |r| == 64
  {
    if Compare(a, b) <= 0 then a + b else b + a
  }

  function NodeHash(keccak: Keccak, a: Hash, b: Hash): Hash {
    keccak(SortedPair(a, b))
  }

  lemma SortedPairCommutes(a: Hash, b: Hash)
    ensures SortedPair(a, b) == SortedPair(b, a)
  {
    CompareOrders(a, b);
  }

  // A sorted pair determines its two hashes up to order.
  lemma SortedPairInjective(a: Hash, b: Hash, c: Hash, d: Hash)
    requires SortedPair(a, b) == SortedPair(c, d)
    ensures (a == c && b == d) || (a == d && b == c)
  {
    assert SortedPair(a, b)[..32] == if Compare(a, b) <= 0 then a else b;
    assert SortedPair(a, b)[32..] == if Compare(a, b) <= 0 then b else a;
    assert SortedPair(c, d)[..32] == if Compare(c, d) <= 0 then c else d;
    assert SortedPair(c, d)[32..] == if Compare(c, d) <= 0 then d else c;
  }

  lemma AbiEncodeInjective(a: Address, b: Address)
    requires AbiEncode(a) == AbiEncode(b)
    ensures a == b
  {
    assert a == AbiEncode(a)[12..] == AbiEncode(b)[12..] == b;
  }

  // ---- Leaves in tree order ----

  ghost predicate SortedByHash(leaves: seq<Leaf>) {
    forall i, j :: 0 <= i < j < |leaves| ==> Compare(leaves[i].hash, leaves[j].hash) <= 0
  }

  function InsertLeaf(leaf: Leaf, leaves: seq<Leaf>): (r: seq<Leaf>)
    ensures multiset(r) == multiset(leaves) + multiset{leaf}
  {
    if leaves == [] || Compare(leaf.hash, leaves[0].hash) <= 0 then [leaf] + leaves
    else
      assert leaves == [leaves[0]] + leaves[1..];
      [leaves[0]] + InsertLeaf(leaf, leaves[1..])
  }

  lemma {:induction false} InsertLeafSorted(leaf: Leaf, leaves: seq<Leaf>)
    requires SortedByHash(leaves)
    ensures SortedByHash(InsertLeaf(leaf, leaves))
  {
    if leaves == [] {
    } else if Compare(leaf.hash, leaves[0].hash) <= 0 {
      forall j | 0 < j < |leaves| ensures Compare(leaf.hash, leaves[j].hash) <= 0 {
        CompareTransitive(leaf.hash, leaves[0].hash, leaves[j].hash);
      }
    } else {
      InsertLeafSorted(leaf, leaves[1..]);
      CompareOrders(leaf.hash, leaves[0].hash);
      var rest := InsertLeaf(leaf, leaves[1..]);
      forall j | 0 <= j < |rest| ensures Compare(leaves[0].hash, rest[j].hash) <= 0 {
        assert rest[j] in multiset(rest);
        assert rest[j] == leaf || rest[j] in leaves[1..];
      }
    }
  }

  // The leaves in ascending order of hash; equal hashes keep their order.
  function SortLeaves(leaves: seq<Leaf>): (r: seq<Leaf>)
    ensures multiset(r) == multiset(leaves)
    ensures SortedByHash(r)
  {
    if leaves == [] then []
    else
      assert leaves == [leaves[0]] + leaves[1..];
      InsertLeafSorted(leaves[0], SortLeaves(leaves[1..]));
      InsertLeaf(leaves[0], SortLeaves(leaves[1..]))
  }

  function MakeLeaves(keccak: Keccak, addresses: seq<Address>): seq<Leaf> {
    Map(a => Leaf(a, LeafHash(keccak, a)), addresses)
  }

  function TreeLeaves(keccak: Keccak, addresses: seq<Address>): seq<Leaf> {
    SortLeaves(MakeLeaves(keccak, addresses))
  }

  function Hashes(leaves: seq<Leaf>): seq<Hash> {
    Map((l: Leaf) => l.hash, leaves)
  }

  // ---- The heap ----

  // 2n-1 nodes; node i has children 2i+1 and 2i+2; the n leaf hashes fill the
  // end of the heap in reverse.
  function Node(keccak: Keccak, hs: seq<Hash>, i: nat): Hash
    requires i < 2 * |hs| - 1
    decreases 2 * |hs| - i
  {
    if i >= |hs| - 1 then hs[2 * |hs| - 2 - i]
    else NodeHash(keccak, Node(keccak, hs, 2 * i + 1), Node(keccak, hs, 2 * i + 2))
  }

  function Heap(keccak: Keccak, hs: seq<Hash>): seq<Hash>
    requires hs != []
  {
    seq(2 * |hs| - 1, i requires 0 <= i < 2 * |hs| - 1 => Node(keccak, hs, i))
  }

  function MinusOneTo(e: nat): int {
    if e % 2 == 0 then 1 else -1
  }

  function Sibling(i: nat): int {
    i - MinusOneTo(i % 2)
  }

  function Parent(i: nat): nat
    requires i > 0
  {
    (i - 1) / 2
  }

  // Every sibling index read on the way to the root is inside the heap.
  lemma SiblingInRange(n: nat, i: nat)
    requires 0 < i < 2 * n - 1
    ensures 0 < Sibling(i) < 2 * n - 1
    ensures Parent(i) < n - 1
    ensures {i, Sibling(i)} == {2 * Parent(i) + 1, 2 * Parent(i) + 2}
  {
    if i % 2 == 1 {
      assert i == 2 * Parent(i) + 1;
    } else {
      assert i == 2 * Parent(i) + 2;
    }
  }

  // The sibling path from node i to the root.
  function Path(keccak: Keccak, hs: seq<Hash>, i: nat): seq<Hash>
    requires i < 2 * |hs| - 1
  {
    if i == 0 then []
    else
      SiblingInRange(|hs|, i);
      [Node(keccak, hs, Sibling(i))] + Path(keccak, hs, Parent(i))
  }

  function Ancestor(i: nat, k: nat): nat {
    if k == 0 || i == 0 then i else Ancestor(Parent(i), k - 1)
  }

  lemma {:induction false} AncestorUp(i: nat, k: nat)
    requires Ancestor(i, k) > 0
    ensures Ancestor(i, k + 1) == Parent(Ancestor(i, k))
    ensures Ancestor(i, k) <= i
  {
    if k > 0 && i > 0 { AncestorUp(Parent(i), k - 1); }
  }

  // Element k of a path is the sibling of the k-th ancestor.
  lemma {:induction false} PathAt(keccak: Keccak, hs: seq<Hash>, i: nat, k: nat)
    requires i < 2 * |hs| - 1 && k <= |Path(keccak, hs, i)|
    ensures k < |Path(keccak, hs, i)| <==> Ancestor(i, k) > 0
    ensures Ancestor(i, k) <= i
    ensures k < |Path(keccak, hs, i)| ==>
      0 < Sibling(Ancestor(i, k)) < 2 * |hs| - 1 &&
      Path(keccak, hs, i)[k] == Node(keccak, hs, Sibling(Ancestor(i, k)))
  {
    if i == 0 {
    } else {
      SiblingInRange(|hs|, i);
      if k > 0 { PathAt(keccak, hs, Parent(i), k - 1); }
    }
  }

  // ---- The verifier ----

  // The running hash of processProof after the first k proof elements.
  function Fold(keccak: Keccak, leaf: Hash, proof: seq<Hash>, k: nat): Hash
    requires k <= |proof|
  {
    if k == 0 then leaf
    else NodeHash(keccak, Fold(keccak, leaf, proof, k - 1), proof[k - 1])
  }

  predicate Verifies(keccak: Keccak, root: Hash, a: Address, proof: seq<Hash>) {
    Fold(keccak, LeafHash(keccak, a), proof, |proof|) == root
  }

  lemma ParentHash(keccak: Keccak, hs: seq<Hash>, i: nat)
    requires 0 < i < 2 * |hs| - 1
    requires 0 < Sibling(i) < 2 * |hs| - 1
    ensures Parent(i) < |hs| - 1
    ensures SortedPair(Node(keccak, hs, i), Node(keccak, hs, Sibling(i))) ==
            SortedPair(Node(keccak, hs, 2 * Parent(i) + 1), Node(keccak, hs, 2 * Parent(i) + 2))
    ensures NodeHash(keccak, Node(keccak, hs, i), Node(keccak, hs, Sibling(i))) == Node(keccak, hs, Parent(i))
  {
    SiblingInRange(|hs|, i);
    SortedPairCommutes(Node(keccak, hs, i), Node(keccak, hs, Sibling(i)));
  }

  // Folding a node over its own path climbs its ancestors, up to the root.
  lemma {:induction false} PathClimbs(keccak: Keccak, hs: seq<Hash>, i: nat, k: nat)
    requires i < 2 * |hs| - 1 && k <= |Path(keccak, hs, i)|
    ensures Ancestor(i, k) <= i
    ensures Fold(keccak, Node(keccak, hs, i), Path(keccak, hs, i), k) == Node(keccak, hs, Ancestor(i, k))
    ensures k == |Path(keccak, hs, i)| ==> Ancestor(i, k) == 0
  {
    PathAt(keccak, hs, i, k);
    if k == 0 {
    } else {
      PathClimbs(keccak, hs, i, k - 1);
      PathAt(keccak, hs, i, k - 1);
      AncestorUp(i, k - 1);
      ParentHash(keccak, hs, Ancestor(i, k - 1));
    }
  }

  function Pow2(e: nat): nat {
    if e == 0 then 1 else 2 * Pow2(e - 1)
  }

  lemma {:induction false} PathLength(keccak: Keccak, hs: seq<Hash>, i: nat)
    requires i < 2 * |hs| - 1
    ensures Pow2(|Path(keccak, hs, i)|) <= i + 1 < Pow2(|Path(keccak, hs, i)| + 1)
  {
    if i == 0 {
    } else {
      PathLength(keccak, hs, Parent(i));
      SiblingInRange(|hs|, i);
    }
  }

  lemma {:induction false} Pow2Monotone(a: nat, b: nat)
    requires a <= b
    ensures Pow2(a) <= Pow2(b)
  {
    if a < b { Pow2Monotone(a, b - 1); }
  }

  // Every leaf proof has length L with 2^L <= 2n-1 and n < 2^(L+1), so two
  // proofs of one tree differ in length by at most one.
  lemma LeafPathLengths(keccak: Keccak, hs: seq<Hash>, i: nat, j: nat)
    requires |hs| - 1 <= i < 2 * |hs| - 1 && |hs| - 1 <= j < 2 * |hs| - 1
    ensures var l := |Path(keccak, hs, i)|; Pow2(l) <= 2 * |hs| - 1 && |hs| < Pow2(l + 1)
    ensures -1 <= |Path(keccak, hs, i)| - |Path(keccak, hs, j)| <= 1
  {
    var a, b := |Path(keccak, hs, i)|, |Path(keccak, hs, j)|;
    PathLength(keccak, hs, i);
    PathLength(keccak, hs, j);
    if a > b + 1 { Pow2Monotone(b + 2, a); }
    if b > a + 1 { Pow2Monotone(a + 2, b); }
  }

  // ---- The leaves of a list of addresses ----

  ghost predicate LeavesOf(keccak: Keccak, addresses: seq<Address>, leaves: seq<Leaf>) {
    && |leaves| == |addresses|
    && (forall p :: 0 <= p < |leaves| ==>
          leaves[p].addr in addresses && leaves[p].hash == LeafHash(keccak, leaves[p].addr))
    && (forall a :: a in addresses ==> Leaf(a, LeafHash(keccak, a)) in leaves)
  }

  lemma TreeLeavesOf(keccak: Keccak, addresses: seq<Address>)
    ensures LeavesOf(keccak, addresses, TreeLeaves(keccak, addresses))
  {
    var made, sorted := MakeLeaves(keccak, addresses), TreeLeaves(keccak, addresses);
    assert |sorted| == |multiset(sorted)| == |multiset(made)| == |made|;
    assert forall l :: l in sorted <==> l in multiset(sorted);
    assert forall l :: l in made <==> l in multiset(made);
    forall p | 0 <= p < |sorted|
      ensures sorted[p].addr in addresses && sorted[p].hash == LeafHash(keccak, sorted[p].addr)
    {
      assert sorted[p] in made;
    }
    forall a | a in addresses ensures Leaf(a, LeafHash(keccak, a)) in made {
      var i :| 0 <= i < |addresses| && addresses[i] == a;
      assert made[i] == Leaf(a, LeafHash(keccak, a));
    }
  }

  function Root(keccak: Keccak, addresses: seq<Address>): Hash
    requires addresses != []
  {
    TreeLeavesOf(keccak, addresses);
    Node(keccak, Hashes(TreeLeaves(keccak, addresses)), 0)
  }
}
