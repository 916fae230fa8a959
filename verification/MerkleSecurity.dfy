// What a published root promises: absent a Keccak collision between the inputs
// hashed by the verifier and those hashed by the builder, only listed addresses
// verify, and the root stands for exactly one set of addresses.
module MerkleSecurity {
  import opened Bytes
  import opened Merkle
  import opened Seqs

  ghost function LeafInputs(keccak: Keccak, a: Address): set<Bytes> {
    {AbiEncode(a), keccak(AbiEncode(a))}
  }

  ghost function ChildPair(keccak: Keccak, hs: seq<Hash>, i: nat): Bytes
    requires i < |hs| - 1
  {
    SortedPair(Node(keccak, hs, 2 * i + 1), Node(keccak, hs, 2 * i + 2))
  }

  ghost function NodeInputs(keccak: Keccak, hs: seq<Hash>): set<Bytes> {
    set i | 0 <= i < |hs| - 1 :: ChildPair(keccak, hs, i)
  }

  ghost function AllLeafInputs(keccak: Keccak, addresses: seq<Address>): set<Bytes> {
    if addresses == [] then {} else LeafInputs(keccak, addresses[0]) + AllLeafInputs(keccak, addresses[1..])
  }

  // Everything the tree builder passes to Keccak.
  ghost function BuilderInputs(keccak: Keccak, addresses: seq<Address>): set<Bytes> {
    AllLeafInputs(keccak, addresses) + NodeInputs(keccak, Hashes(TreeLeaves(keccak, addresses)))
  }

  lemma {:induction false} LeafInputsCovered(keccak: Keccak, addresses: seq<Address>, a: Address)
    requires a in addresses
    ensures LeafInputs(keccak, a) <= AllLeafInputs(keccak, addresses)
  {
    if a != addresses[0] { LeafInputsCovered(keccak, addresses[1..], a); }
  }

  ghost function FoldPair(keccak: Keccak, leaf: Hash, proof: seq<Hash>, k: nat): Bytes
    requires k < |proof|
  {
    SortedPair(Fold(keccak, leaf, proof, k), proof[k])
  }

  ghost function FoldInputs(keccak: Keccak, leaf: Hash, proof: seq<Hash>): set<Bytes> {
    set k | 0 <= k < |proof| :: FoldPair(keccak, leaf, proof, k)
  }

  // Everything the verifier passes to Keccak for one address and one proof.
  ghost function VerifierInputs(keccak: Keccak, a: Address, proof: seq<Hash>): set<Bytes> {
    LeafInputs(keccak, a) + FoldInputs(keccak, LeafHash(keccak, a), proof)
  }

  ghost predicate Clash(keccak: Keccak, x: Bytes, y: Bytes) {
    keccak(x) == keccak(y) && x != y
  }

  ghost predicate NoCollision(keccak: Keccak, xs: set<Bytes>, ys: set<Bytes>) {
    forall x, y {:trigger Clash(keccak, x, y)} :: x in xs && y in ys ==> !Clash(keccak, x, y)
  }

  // ---- Membership ----

  // Where a proof ends: a leaf's hash can only be met by that leaf's address
  // before any folding, because every pair is 64 bytes and every leaf input 32.
  lemma MeetsLeaf(keccak: Keccak, a: Address, proof: seq<Hash>, k: nat, b: Address, builder: set<Bytes>)
    requires k <= |proof|
    requires NoCollision(keccak, VerifierInputs(keccak, a, proof), builder)
    requires AbiEncode(b) in builder && keccak(AbiEncode(b)) in builder
    requires Fold(keccak, LeafHash(keccak, a), proof, k) == LeafHash(keccak, b)
    ensures a == b && k == 0
  {
    if k == 0 {
      assert !Clash(keccak, keccak(AbiEncode(a)), keccak(AbiEncode(b)));
      assert !Clash(keccak, AbiEncode(a), AbiEncode(b));
      AbiEncodeInjective(a, b);
    } else if !Clash(keccak, FoldPair(keccak, LeafHash(keccak, a), proof, k - 1), keccak(AbiEncode(b))) {
      assert false;
    }
  }

  // Where a proof goes on: an internal node's hash can only be met through one
  // of that node's two children, the proof supplying the other.
  lemma MeetsNode(keccak: Keccak, hs: seq<Hash>, builder: set<Bytes>, a: Address, proof: seq<Hash>, k: nat, i: nat)
    returns (child: nat)
    requires NodeInputs(keccak, hs) <= builder
    requires k <= |proof| && i < |hs| - 1
    requires NoCollision(keccak, VerifierInputs(keccak, a, proof), builder)
    requires Fold(keccak, LeafHash(keccak, a), proof, k) == Node(keccak, hs, i)
    ensures k > 0 && 0 < child < 2 * |hs| - 1 && 0 < Sibling(child) < 2 * |hs| - 1 && Parent(child) == i
    ensures Fold(keccak, LeafHash(keccak, a), proof, k - 1) == Node(keccak, hs, child)
    ensures proof[k - 1] == Node(keccak, hs, Sibling(child))
  {
    var leaf, pair := LeafHash(keccak, a), ChildPair(keccak, hs, i);
    assert pair in NodeInputs(keccak, hs);
    if k == 0 && !Clash(keccak, keccak(AbiEncode(a)), pair) {
      assert false;
    }
    var l, r := Node(keccak, hs, 2 * i + 1), Node(keccak, hs, 2 * i + 2);
    var h := Fold(keccak, leaf, proof, k - 1);
    assert !Clash(keccak, FoldPair(keccak, leaf, proof, k - 1), pair);
    SortedPairInjective(h, proof[k - 1], l, r);
    child := if h == l && proof[k - 1] == r then 2 * i + 1 else 2 * i + 2;
    SiblingInRange(|hs|, child);
  }

  // The first k elements of a proof, then a path, are also its first j, then another.
  ghost predicate SameWay(proof: seq<Hash>, k: nat, path: seq<Hash>, j: nat, path': seq<Hash>)
    requires k <= |proof| && j <= |proof|
  {
    proof[..k] + path == proof[..j] + path'
  }

  lemma PathStep(keccak: Keccak, hs: seq<Hash>, i: nat)
    requires 0 < i < 2 * |hs| - 1
    ensures 0 < Sibling(i) < 2 * |hs| - 1 && Parent(i) < |hs| - 1
    ensures Path(keccak, hs, i) == [Node(keccak, hs, Sibling(i))] + Path(keccak, hs, Parent(i))
  {
    SiblingInRange(|hs|, i);
  }

  lemma Onwards(proof: seq<Hash>, k: nat, path: seq<Hash>, path': seq<Hash>, j: nat, path'': seq<Hash>)
    requires 0 < k <= |proof| && j <= |proof| && path' == [proof[k - 1]] + path
    requires SameWay(proof, k - 1, path', j, path'')
    ensures SameWay(proof, k, path, j, path'')
  {
    assert proof[..k] == proof[..k - 1] + [proof[k - 1]];
    Associative(proof[..k - 1], [proof[k - 1]], path);
  }

  lemma WholeWay(proof: seq<Hash>, path: seq<Hash>)
    requires SameWay(proof, |proof|, [], 0, path)
    ensures proof == path
  {
    assert proof[..|proof|] + [] == proof;
    assert proof[..0] + path == path;
  }

  // Down one level, the child's path being the supplied hash and the node's own path.
  lemma MeetsChild(keccak: Keccak, hs: seq<Hash>, builder: set<Bytes>, a: Address, proof: seq<Hash>, k: nat, i: nat)
    returns (child: nat)
    requires NodeInputs(keccak, hs) <= builder
    requires k <= |proof| && i < |hs| - 1
    requires NoCollision(keccak, VerifierInputs(keccak, a, proof), builder)
    requires Fold(keccak, LeafHash(keccak, a), proof, k) == Node(keccak, hs, i)
    ensures k > 0 && child < 2 * |hs| - 1
    ensures Fold(keccak, LeafHash(keccak, a), proof, k - 1) == Node(keccak, hs, child)
    ensures Path(keccak, hs, child) == [proof[k - 1]] + Path(keccak, hs, i)
  {
    child := MeetsNode(keccak, hs, builder, a, proof, k, i);
    PathStep(keccak, hs, child);
  }

  // Whatever folds to the value of node i folds through the tree to a leaf, along
  // the path of that leaf.
  lemma {:induction false} Descend(keccak: Keccak, hs: seq<Hash>, builder: set<Bytes>, a: Address, proof: seq<Hash>,
                                   k: nat, i: nat) returns (q: nat, j: nat)
    requires NodeInputs(keccak, hs) <= builder
    requires k <= |proof| && i < 2 * |hs| - 1
    requires NoCollision(keccak, VerifierInputs(keccak, a, proof), builder)
    requires Fold(keccak, LeafHash(keccak, a), proof, k) == Node(keccak, hs, i)
    ensures |hs| - 1 <= q < 2 * |hs| - 1 && j <= |proof|
    ensures Fold(keccak, LeafHash(keccak, a), proof, j) == Node(keccak, hs, q)
    ensures SameWay(proof, k, Path(keccak, hs, i), j, Path(keccak, hs, q))
    decreases k
  {
    if i >= |hs| - 1 {
      q, j := i, k;
    } else {
      var child := MeetsChild(keccak, hs, builder, a, proof, k, i);
      q, j := Descend(keccak, hs, builder, a, proof, k - 1, child);
      Onwards(proof, k, Path(keccak, hs, i), Path(keccak, hs, child), j, Path(keccak, hs, q));
    }
  }

  lemma LeafCovered(keccak: Keccak, addresses: seq<Address>, leaves: seq<Leaf>, builder: set<Bytes>, p: nat)
    requires LeavesOf(keccak, addresses, leaves) && AllLeafInputs(keccak, addresses) <= builder && p < |leaves|
    ensures AbiEncode(leaves[p].addr) in builder && keccak(AbiEncode(leaves[p].addr)) in builder
    ensures Hashes(leaves)[p] == LeafHash(keccak, leaves[p].addr)
  {
    LeafInputsCovered(keccak, addresses, leaves[p].addr);
    assert AbiEncode(leaves[p].addr) in LeafInputs(keccak, leaves[p].addr);
    assert keccak(AbiEncode(leaves[p].addr)) in LeafInputs(keccak, leaves[p].addr);
  }

  // The path of the leaf at a position.
  function LeafPath(keccak: Keccak, leaves: seq<Leaf>, p: nat): seq<Hash>
    requires p < |leaves|
  {
    Path(keccak, Hashes(leaves), 2 * |leaves| - 2 - p)
  }

  // A proof that verifies is the path of a leaf that holds the address.
  lemma VerifiedIsPath(keccak: Keccak, addresses: seq<Address>, leaves: seq<Leaf>, builder: set<Bytes>,
                       a: Address, proof: seq<Hash>) returns (p: nat)
    requires leaves != [] && LeavesOf(keccak, addresses, leaves)
    requires AllLeafInputs(keccak, addresses) <= builder && NodeInputs(keccak, Hashes(leaves)) <= builder
    requires NoCollision(keccak, VerifierInputs(keccak, a, proof), builder)
    requires Verifies(keccak, Node(keccak, Hashes(leaves), 0), a, proof)
    ensures p < |leaves| && leaves[p].addr == a
    ensures proof == LeafPath(keccak, leaves, p)
  {
    var q, j := Descend(keccak, Hashes(leaves), builder, a, proof, |proof|, 0);
    p := 2 * |leaves| - 2 - q;
    LeafCovered(keccak, addresses, leaves, builder, p);
    MeetsLeaf(keccak, a, proof, j, leaves[p].addr, builder);
    WholeWay(proof, Path(keccak, Hashes(leaves), 2 * |leaves| - 2 - p));
  }

  lemma BuilderCovers(keccak: Keccak, addresses: seq<Address>)
    ensures AllLeafInputs(keccak, addresses) <= BuilderInputs(keccak, addresses)
    ensures NodeInputs(keccak, Hashes(TreeLeaves(keccak, addresses))) <= BuilderInputs(keccak, addresses)
  {
  }

  // The same, for the tree of a list.
  lemma VerifiedInTree(keccak: Keccak, addresses: seq<Address>, a: Address, proof: seq<Hash>) returns (p: nat)
    requires addresses != []
    requires NoCollision(keccak, VerifierInputs(keccak, a, proof), BuilderInputs(keccak, addresses))
    requires Verifies(keccak, Root(keccak, addresses), a, proof)
    ensures p < |TreeLeaves(keccak, addresses)| && TreeLeaves(keccak, addresses)[p].addr == a
    ensures proof == LeafPath(keccak, TreeLeaves(keccak, addresses), p)
  {
    var leaves := TreeLeaves(keccak, addresses);
    TreeLeavesOf(keccak, addresses);
    BuilderCovers(keccak, addresses);
    p := VerifiedIsPath(keccak, addresses, leaves, BuilderInputs(keccak, addresses), a, proof);
  }

  // Only listed addresses verify against the root, whatever the proof.
  lemma Membership(keccak: Keccak, addresses: seq<Address>, a: Address, proof: seq<Hash>)
    requires addresses != []
    requires NoCollision(keccak, VerifierInputs(keccak, a, proof), BuilderInputs(keccak, addresses))
    requires Verifies(keccak, Root(keccak, addresses), a, proof)
    ensures a in addresses
  {
    TreeLeavesOf(keccak, addresses);
    var p := VerifiedInTree(keccak, addresses, a, proof);
    assert TreeLeaves(keccak, addresses)[p].addr in addresses;
  }

  // ---- Canonical form ----

  ghost predicate Ascending(s: seq<Hash>) {
    forall i, j :: 0 <= i < j < |s| ==> Compare(s[i], s[j]) <= 0
  }

  // Equal multisets have one sorted arrangement.
  lemma {:induction false} AscendingUnique(xs: seq<Hash>, ys: seq<Hash>)
    requires multiset(xs) == multiset(ys)
    requires Ascending(xs) && Ascending(ys)
    ensures xs == ys
  {
    assert |multiset(ys)| == |multiset(xs)|;
    if xs == [] {
    } else {
      assert xs[0] in multiset(ys) && ys[0] in multiset(xs);
      CompareOrders(xs[0], ys[0]);
      assert xs[0] == ys[0];
      assert xs == [xs[0]] + xs[1..] && ys == [ys[0]] + ys[1..];
      assert multiset(xs[1..]) == multiset(xs) - multiset{xs[0]};
      assert multiset(ys[1..]) == multiset(ys) - multiset{ys[0]};
      AscendingUnique(xs[1..], ys[1..]);
    }
  }

  // The heap depends only on which addresses are listed, not on their order.
  lemma CanonicalHeap(keccak: Keccak, xs: seq<Address>, ys: seq<Address>)
    requires Distinct(xs) && Distinct(ys)
    requires forall a :: a in xs <==> a in ys
    ensures Hashes(TreeLeaves(keccak, xs)) == Hashes(TreeLeaves(keccak, ys))
  {
    DistinctIsPermutation(xs, ys);
    MapOfPermutation(a => Leaf(a, LeafHash(keccak, a)), xs, ys);
    MapOfPermutation((l: Leaf) => l.hash, TreeLeaves(keccak, xs), TreeLeaves(keccak, ys));
    AscendingUnique(Hashes(TreeLeaves(keccak, xs)), Hashes(TreeLeaves(keccak, ys)));
  }

  // ---- The root commits to the list ----

  lemma ParentPair(keccak: Keccak, hs: seq<Hash>, i: nat)
    requires 0 < i < 2 * |hs| - 1 && 0 < Sibling(i) < 2 * |hs| - 1
    ensures SortedPair(Node(keccak, hs, i), Node(keccak, hs, Sibling(i))) in NodeInputs(keccak, hs)
  {
    ParentHash(keccak, hs, i);
    assert ChildPair(keccak, hs, Parent(i)) in NodeInputs(keccak, hs);
  }

  // Folding a node over its own path hashes nothing the builder did not hash.
  lemma PathPair(keccak: Keccak, hs: seq<Hash>, i: nat, k: nat)
    requires i < 2 * |hs| - 1 && k < |Path(keccak, hs, i)|
    ensures FoldPair(keccak, Node(keccak, hs, i), Path(keccak, hs, i), k) in NodeInputs(keccak, hs)
  {
    PathClimbs(keccak, hs, i, k);
    PathAt(keccak, hs, i, k);
    ParentPair(keccak, hs, Ancestor(i, k));
  }

  lemma PathInputs(keccak: Keccak, hs: seq<Hash>, i: nat)
    requires i < 2 * |hs| - 1
    ensures FoldInputs(keccak, Node(keccak, hs, i), Path(keccak, hs, i)) <= NodeInputs(keccak, hs)
  {
    forall k: nat | k < |Path(keccak, hs, i)|
      ensures FoldPair(keccak, Node(keccak, hs, i), Path(keccak, hs, i), k) in NodeInputs(keccak, hs)
    {
      PathPair(keccak, hs, i, k);
    }
  }

  lemma NoCollisionShrinks(keccak: Keccak, xs: set<Bytes>, xs': set<Bytes>, ys: set<Bytes>)
    requires NoCollision(keccak, xs, ys) && xs' <= xs
    ensures NoCollision(keccak, xs', ys)
  {
  }

  lemma PathProof(keccak: Keccak, hs: seq<Hash>, i: nat) returns (proof: seq<Hash>)
    requires i < 2 * |hs| - 1
    ensures Fold(keccak, Node(keccak, hs, i), proof, |proof|) == Node(keccak, hs, 0)
    ensures FoldInputs(keccak, Node(keccak, hs, i), proof) <= NodeInputs(keccak, hs)
  {
    proof := Path(keccak, hs, i);
    PathClimbs(keccak, hs, i, |proof|);
    PathInputs(keccak, hs, i);
  }

  // A listed address carries its own proof, made of builder inputs only.
  lemma OwnProof(keccak: Keccak, xs: seq<Address>, leaves: seq<Leaf>, a: Address) returns (proof: seq<Hash>)
    requires LeavesOf(keccak, xs, leaves) && a in xs
    ensures leaves != []
    ensures Verifies(keccak, Node(keccak, Hashes(leaves), 0), a, proof)
    ensures VerifierInputs(keccak, a, proof) <= AllLeafInputs(keccak, xs) + NodeInputs(keccak, Hashes(leaves))
  {
    var p :| 0 <= p < |leaves| && leaves[p] == Leaf(a, LeafHash(keccak, a));
    var hs := Hashes(leaves);
    assert Node(keccak, hs, 2 * |hs| - 2 - p) == LeafHash(keccak, a);
    proof := PathProof(keccak, hs, 2 * |hs| - 2 - p);
    LeafInputsCovered(keccak, xs, a);
  }

  lemma EqualRootsContain(keccak: Keccak, xs: seq<Address>, ys: seq<Address>, a: Address)
    requires xs != [] && ys != []
    requires NoCollision(keccak, BuilderInputs(keccak, xs), BuilderInputs(keccak, ys))
    requires Root(keccak, xs) == Root(keccak, ys)
    requires a in xs
    ensures a in ys
  {
    TreeLeavesOf(keccak, xs);
    var proof := OwnProof(keccak, xs, TreeLeaves(keccak, xs), a);
    NoCollisionShrinks(keccak, BuilderInputs(keccak, xs), VerifierInputs(keccak, a, proof), BuilderInputs(keccak, ys));
    Membership(keccak, ys, a, proof);
  }

  lemma NoCollisionSymmetric(keccak: Keccak, xs: set<Bytes>, ys: set<Bytes>)
    requires NoCollision(keccak, xs, ys)
    ensures NoCollision(keccak, ys, xs)
  {
    forall x, y | x in ys && y in xs ensures !Clash(keccak, x, y) {
      assert !Clash(keccak, y, x);
    }
  }

  // Absent a collision, two lists without repeats have the same root exactly when
  // they list the same addresses.
  lemma RootCommitsToSet(keccak: Keccak, xs: seq<Address>, ys: seq<Address>)
    requires xs != [] && ys != [] && Distinct(xs) && Distinct(ys)
    ensures NoCollision(keccak, BuilderInputs(keccak, xs), BuilderInputs(keccak, ys)) ==>
      (Root(keccak, xs) == Root(keccak, ys) <==> (forall a :: a in xs <==> a in ys))
  {
    if Root(keccak, xs) == Root(keccak, ys) && NoCollision(keccak, BuilderInputs(keccak, xs), BuilderInputs(keccak, ys))
    {
      NoCollisionSymmetric(keccak, BuilderInputs(keccak, xs), BuilderInputs(keccak, ys));
      forall a ensures a in xs <==> a in ys {
        if a in xs { EqualRootsContain(keccak, xs, ys, a); }
        if a in ys { EqualRootsContain(keccak, ys, xs, a); }
      }
    }
    if forall a :: a in xs <==> a in ys {
      CanonicalHeap(keccak, xs, ys);
    }
  }
}
