// The allowlist command: de-duplicates the input addresses, builds the tree in
// a flat array, and emits one proof per address.
module SetGateTree {
  import opened Bytes
  import opened Merkle
  import opened MerkleSecurity
  import opened Seqs
  import opened Wrappers

  datatype Tree = Tree(root: Hash, proofs: map<Address, seq<Hash>>, tree: seq<Hash>, leaves: seq<Leaf>)

  datatype TreeError = NoAddresses | InvalidAddress

  // The proof table after the first k leaves: later leaves overwrite.
  function ProofTable(leaves: seq<Leaf>, proofs: seq<seq<Hash>>, k: nat): map<Address, seq<Hash>>
    requires k <= |leaves| == |proofs|
  {
    if k == 0 then map[] else ProofTable(leaves, proofs, k - 1)[leaves[k - 1].addr := proofs[k - 1]]
  }

  // Leaf p sits at index 2n-2-p of the heap.
  function LeafPaths(keccak: Keccak, hs: seq<Hash>): (r: seq<seq<Hash>>)
    ensures |r| == |hs|
    ensures forall p :: 0 <= p < |r| ==> r[p] == Path(keccak, hs, 2 * |hs| - 2 - p)
  {
    seq(|hs|, p requires 0 <= p < |hs| => Path(keccak, hs, 2 * |hs| - 2 - p))
  }

  // The published result: sorted leaves, the heap over their hashes, its root,
  // and the proof table.
  function TreeOf(keccak: Keccak, addresses: seq<Address>): Tree
    requires addresses != []
  {
    TreeLeavesOf(keccak, addresses);
    var leaves := TreeLeaves(keccak, addresses);
    Tree(Root(keccak, addresses), ProofTable(leaves, LeafPaths(keccak, Hashes(leaves)), |leaves|),
         Heap(keccak, Hashes(leaves)), leaves)
  }

  // Entries are None until written, so reading one proves it was.
  ghost predicate Filled(keccak: Keccak, hs: seq<Hash>, nodes: seq<Option<Hash>>, from: nat) {
    && |nodes| == 2 * |hs| - 1
    && forall j :: from <= j < |nodes| ==> nodes[j] == Some(Node(keccak, hs, j))
  }

  lemma FilledAt(keccak: Keccak, hs: seq<Hash>, nodes: seq<Option<Hash>>, i: nat)
    requires Filled(keccak, hs, nodes, i + 1) && i < |hs| - 1
    ensures nodes[2 * i + 1].Some? && nodes[2 * i + 2].Some?
    ensures NodeHash(keccak, nodes[2 * i + 1].value, nodes[2 * i + 2].value) == Node(keccak, hs, i)
  {
  }

  // Writes the leaves in reverse at the end of the heap, then the internal
  // nodes bottom-up.
  method FillHeap(keccak: Keccak, leafHashes: seq<Hash>) returns (tree: array<Option<Hash>>)
    requires leafHashes != []
    ensures Filled(keccak, leafHashes, tree[..], 0)
  {
    var n := |leafHashes|;
    var treeSize := 2 * n - 1;
    tree := new Option<Hash>[treeSize](_ => None);
    for i := 0 to n
      invariant Filled(keccak, leafHashes, tree[..], treeSize - i)
    {
      ghost var before := tree[..];
      assert Node(keccak, leafHashes, treeSize - 1 - i) == leafHashes[i];
      tree[treeSize - 1 - i] := Some(leafHashes[i]);
      assert tree[..] == before[treeSize - 1 - i := Some(leafHashes[i])];
    }
    for i := treeSize - n downto 0
      invariant Filled(keccak, leafHashes, tree[..], i)
    {
      ghost var before := tree[..];
      FilledAt(keccak, leafHashes, before, i);
      assert tree[2 * i + 1] == before[2 * i + 1] && tree[2 * i + 2] == before[2 * i + 2];
      var left := tree[2 * i + 1].value;
      var right := tree[2 * i + 2].value;
      tree[i] := Some(NodeHash(keccak, left, right));
      assert tree[..] == before[i := Some(NodeHash(keccak, left, right))];
    }
  }

  // Walks from one index to the root, collecting siblings.
  method CollectProof(keccak: Keccak, tree: seq<Option<Hash>>, start: nat,
                      ghost hs: seq<Hash>) returns (proof: seq<Hash>)
    requires Filled(keccak, hs, tree, 0) && start < |tree|
    ensures proof == Path(keccak, hs, start)
  {
    var idx: nat := start;
    proof := [];
    while idx > 0
      invariant idx < |tree|
      invariant proof + Path(keccak, hs, idx) == Path(keccak, hs, start)
    {
      SiblingInRange(|hs|, idx);
      var sibling := idx - MinusOneTo(idx % 2);
      assert tree[sibling] == Some(Node(keccak, hs, Sibling(idx)));
      assert Path(keccak, hs, idx) == [tree[sibling].value] + Path(keccak, hs, Parent(idx));
      proof := proof + [tree[sibling].value];
      idx := (idx - 1) / 2;
    }
  }

  method LeafProof(keccak: Keccak, tree: seq<Option<Hash>>, i: nat, ghost hs: seq<Hash>) returns (proof: seq<Hash>)
    requires Filled(keccak, hs, tree, 0) && i < |hs|
    ensures proof == LeafPaths(keccak, hs)[i]
  {
    proof := CollectProof(keccak, tree, |tree| - 1 - i, hs);
  }

  method CollectProofs(keccak: Keccak, tree: seq<Option<Hash>>, leaves: seq<Leaf>, ghost hs: seq<Hash>)
    returns (proofs: map<Address, seq<Hash>>)
    requires Filled(keccak, hs, tree, 0) && |leaves| == |hs|
    ensures proofs == ProofTable(leaves, LeafPaths(keccak, hs), |leaves|)
  {
    proofs := map[];
    for i := 0 to |leaves|
      invariant proofs == ProofTable(leaves, LeafPaths(keccak, hs), i)
    {
      var proof := LeafProof(keccak, tree, i, hs);
      proofs := proofs[leaves[i].addr := proof];
    }
  }

  method BuildTree(keccak: Keccak, addresses: seq<Address>) returns (r: Result<Tree, TreeError>)
    ensures addresses == [] ==> r == Err(NoAddresses)
    ensures addresses != [] ==> r == Ok(TreeOf(keccak, addresses))
  {
    var leaves := SortLeaves(MakeLeaves(keccak, addresses));
    TreeLeavesOf(keccak, addresses);
    var leafHashes := Hashes(leaves);
    if |leafHashes| == 0 {
      return Err(NoAddresses);
    }
    var heap := FillHeap(keccak, leafHashes);
    var tree := heap[..];
    var proofs := CollectProofs(keccak, tree, leaves, leafHashes);
    var written := Written(keccak, leafHashes, tree);
    r := Ok(Tree(written[0], proofs, written, leaves));
  }

  function Written(keccak: Keccak, ghost hs: seq<Hash>, tree: seq<Option<Hash>>): (r: seq<Hash>)
    requires hs != [] && Filled(keccak, hs, tree, 0)
    ensures r == Heap(keccak, hs)
  {
    seq(|tree|, i requires 0 <= i < |tree| => tree[i].value)
  }

  // ---- What the proof table holds ----

  // A table has exactly its leaves' addresses, each with the proof of a leaf
  // that holds it.
  lemma {:induction false} ProofTableAt(leaves: seq<Leaf>, proofs: seq<seq<Hash>>, k: nat, a: Address)
    requires k <= |leaves| == |proofs|
    ensures a in ProofTable(leaves, proofs, k) <==> exists p :: 0 <= p < k && leaves[p].addr == a
    ensures a in ProofTable(leaves, proofs, k) ==>
      exists p :: 0 <= p < k && leaves[p].addr == a && ProofTable(leaves, proofs, k)[a] == proofs[p]
  {
    if k > 0 && leaves[k - 1].addr != a {
      ProofTableAt(leaves, proofs, k - 1, a);
    }
  }

  lemma LeafPathVerifies(keccak: Keccak, leaves: seq<Leaf>, p: nat)
    requires p < |leaves| && leaves[p].hash == LeafHash(keccak, leaves[p].addr)
    ensures Verifies(keccak, Node(keccak, Hashes(leaves), 0), leaves[p].addr, LeafPaths(keccak, Hashes(leaves))[p])
  {
    var i := 2 * |leaves| - 2 - p;
    PathClimbs(keccak, Hashes(leaves), i, |Path(keccak, Hashes(leaves), i)|);
  }

  // Completeness: every listed address, and no other, gets a proof, and that
  // proof verifies against the root.
  lemma EveryAddressIsProved(keccak: Keccak, addresses: seq<Address>, a: Address)
    requires addresses != []
    ensures var t := TreeOf(keccak, addresses);
      (a in t.proofs <==> a in addresses) && (a in addresses ==> Verifies(keccak, t.root, a, t.proofs[a]))
  {
    TreeLeavesOf(keccak, addresses);
    var leaves := TreeLeaves(keccak, addresses);
    var paths := LeafPaths(keccak, Hashes(leaves));
    ProofTableAt(leaves, paths, |leaves|, a);
    if a in addresses {
      var q :| 0 <= q < |leaves| && leaves[q] == Leaf(a, LeafHash(keccak, a));
      assert leaves[q].addr == a;
      var p :| 0 <= p < |leaves| && leaves[p].addr == a && ProofTable(leaves, paths, |leaves|)[a] == paths[p];
      LeafPathVerifies(keccak, leaves, p);
    }
  }

  // ---- Only the emitted proofs verify ----

  lemma LeavesDistinct(keccak: Keccak, addresses: seq<Address>)
    requires Distinct(addresses)
    ensures Distinct(Map((l: Leaf) => l.addr, TreeLeaves(keccak, addresses)))
  {
    var leaves := TreeLeaves(keccak, addresses);
    MapOfPermutation((l: Leaf) => l.addr, leaves, MakeLeaves(keccak, addresses));
    assert Map((l: Leaf) => l.addr, MakeLeaves(keccak, addresses)) == addresses;
    PermutationIsDistinct(Map((l: Leaf) => l.addr, leaves), addresses);
  }

  lemma SamePosition(leaves: seq<Leaf>, p: nat, q: nat)
    requires Distinct(Map((l: Leaf) => l.addr, leaves)) && p < |leaves| && q < |leaves|
    requires leaves[p].addr == leaves[q].addr
    ensures p == q
  {
    var addrs := Map((l: Leaf) => l.addr, leaves);
    assert addrs[p] == addrs[q];
  }

  lemma TableHoldsProof(leaves: seq<Leaf>, proofs: seq<seq<Hash>>, p: nat)
    requires p < |leaves| == |proofs| && Distinct(Map((l: Leaf) => l.addr, leaves))
    ensures var table := ProofTable(leaves, proofs, |leaves|);
      leaves[p].addr in table && table[leaves[p].addr] == proofs[p]
  {
    ProofTableAt(leaves, proofs, |leaves|, leaves[p].addr);
    var q :| 0 <= q < |leaves| && leaves[q].addr == leaves[p].addr &&
             ProofTable(leaves, proofs, |leaves|)[leaves[p].addr] == proofs[q];
    SamePosition(leaves, p, q);
  }

  lemma LeafPathsAt(keccak: Keccak, leaves: seq<Leaf>, p: nat)
    requires p < |leaves|
    ensures LeafPaths(keccak, Hashes(leaves))[p] == LeafPath(keccak, leaves, p)
  {
  }

  lemma TableHoldsPath(keccak: Keccak, addresses: seq<Address>, leaves: seq<Leaf>, p: nat)
    requires addresses != [] && Distinct(addresses) && leaves == TreeLeaves(keccak, addresses) && p < |leaves|
    ensures var t := TreeOf(keccak, addresses);
      leaves[p].addr in t.proofs && t.proofs[leaves[p].addr] == LeafPath(keccak, leaves, p)
  {
    LeavesDistinct(keccak, addresses);
    LeafPathsAt(keccak, leaves, p);
    TableHoldsProof(leaves, LeafPaths(keccak, Hashes(leaves)), p);
  }

  // Absent a collision, a proof verifies for an address if and only if the table
  // has the address and it is the proof the table holds.
  lemma OnlyEmittedProofsVerify(keccak: Keccak, addresses: seq<Address>, a: Address, proof: seq<Hash>)
    requires addresses != [] && Distinct(addresses)
    requires NoCollision(keccak, VerifierInputs(keccak, a, proof), BuilderInputs(keccak, addresses))
    ensures var t := TreeOf(keccak, addresses);
      Verifies(keccak, t.root, a, proof) <==> a in t.proofs && t.proofs[a] == proof
  {
    EveryAddressIsProved(keccak, addresses, a);
    if Verifies(keccak, Root(keccak, addresses), a, proof) {
      var p := VerifiedInTree(keccak, addresses, a, proof);
      TableHoldsPath(keccak, addresses, TreeLeaves(keccak, addresses), p);
    }
  }

  // ---- Canonical table ----

  ghost predicate LeafHashesDistinct(keccak: Keccak, addresses: seq<Address>) {
    forall a, b :: a in addresses && b in addresses && LeafHash(keccak, a) == LeafHash(keccak, b) ==> a == b
  }

  // With distinct leaf hashes, equal hash sequences come from equal leaves.
  lemma SameLeaves(keccak: Keccak, xs: seq<Address>, ys: seq<Address>)
    requires Distinct(xs) && Distinct(ys)
    requires forall a :: a in xs <==> a in ys
    requires LeafHashesDistinct(keccak, xs)
    ensures TreeLeaves(keccak, xs) == TreeLeaves(keccak, ys)
  {
    CanonicalHeap(keccak, xs, ys);
    TreeLeavesOf(keccak, xs);
    TreeLeavesOf(keccak, ys);
    var ls, ms := TreeLeaves(keccak, xs), TreeLeaves(keccak, ys);
    assert |ls| == |Hashes(ls)| == |Hashes(ms)| == |ms|;
    forall p | 0 <= p < |ls| ensures ls[p] == ms[p] {
      assert ls[p].hash == Hashes(ls)[p] == Hashes(ms)[p] == ms[p].hash;
    }
  }

  // ---- The command ----

  function Dedup(addresses: seq<Address>): (r: seq<Address>)
    ensures Distinct(r)
    ensures forall a :: a in r <==> a in addresses
    ensures r == [] <==> addresses == []
  {
    if addresses == [] then []
    else
      var last := addresses[|addresses| - 1];
      var front := Dedup(addresses[..|addresses| - 1]);
      assert addresses == addresses[..|addresses| - 1] + [last];
      if last in front then front else front + [last]
  }

  // The position where a list first has an address.
  ghost predicate IsFirstAt(addresses: seq<Address>, a: Address, i: nat) {
    i < |addresses| && addresses[i] == a && forall j :: 0 <= j < i ==> addresses[j] != a
  }

  lemma {:induction false} FirstAt(addresses: seq<Address>, a: Address) returns (i: nat)
    requires a in addresses
    ensures IsFirstAt(addresses, a, i)
  {
    if addresses[0] == a {
      i := 0;
    } else {
      i := FirstAt(addresses[1..], a);
      i := i + 1;
    }
  }

  lemma FirstAtFront(addresses: seq<Address>, a: Address, i: nat)
    requires addresses != [] && IsFirstAt(addresses, a, i) && a in addresses[..|addresses| - 1]
    ensures IsFirstAt(addresses[..|addresses| - 1], a, i)
  {
    var front := addresses[..|addresses| - 1];
    var k :| 0 <= k < |front| && front[k] == a;
    assert addresses[k] == a;
  }

  // The de-duplicated addresses stand in the order of their first appearance.
  lemma {:induction false} DedupInOrder(addresses: seq<Address>, p: nat, q: nat, i: nat, j: nat)
    requires p < q < |Dedup(addresses)|
    requires IsFirstAt(addresses, Dedup(addresses)[p], i) && IsFirstAt(addresses, Dedup(addresses)[q], j)
    ensures i < j
    decreases |addresses|
  {
    var front, n := addresses[..|addresses| - 1], |addresses| - 1;
    var a, b := Dedup(addresses)[p], Dedup(addresses)[q];
    assert a in Dedup(front);
    FirstAtFront(addresses, a, i);
    if q < |Dedup(front)| {
      assert b in Dedup(front);
      FirstAtFront(addresses, b, j);
      DedupInOrder(front, p, q, i, j);
    } else if j < n {
      assert front[j] == b;
      assert b in front;
    }
  }

  predicate AllValid(parse: string -> Option<Address>, raw: seq<string>) {
    forall i :: 0 <= i < |raw| ==> parse(raw[i]).Some?
  }

  function Parsed(parse: string -> Option<Address>, raw: seq<string>): (r: seq<Address>)
    requires AllValid(parse, raw)
    ensures |r| == |raw|
  {
    seq(|raw|, i requires 0 <= i < |raw| => parse(raw[i]).value)
  }

  lemma ParsedNext(parse: string -> Option<Address>, raw: seq<string>, i: nat)
    requires i < |raw| && AllValid(parse, raw[..i]) && parse(raw[i]).Some?
    ensures AllValid(parse, raw[..i + 1])
    ensures Parsed(parse, raw[..i + 1]) == Parsed(parse, raw[..i]) + [parse(raw[i]).value]
  {
    assert raw[..i + 1] == raw[..i] + [raw[i]];
  }

  lemma DedupNext(addresses: seq<Address>, a: Address)
    ensures Dedup(addresses + [a]) == if a in Dedup(addresses) then Dedup(addresses) else Dedup(addresses) + [a]
  {
    assert (addresses + [a])[..|addresses|] == addresses;
  }

  // The Map keeps the first position of each normalised address. getAddress is
  // the parse parameter: None where it throws.
  method Unique(parse: string -> Option<Address>, raw: seq<string>) returns (r: Option<seq<Address>>)
    ensures r == if AllValid(parse, raw) then Some(Dedup(Parsed(parse, raw))) else None
  {
    var unique: seq<Address> := [];
    for i := 0 to |raw|
      invariant AllValid(parse, raw[..i])
      invariant unique == Dedup(Parsed(parse, raw[..i]))
    {
      var normalized := parse(raw[i]);
      if normalized.None? { return None; }
      ParsedNext(parse, raw, i);
      DedupNext(Parsed(parse, raw[..i]), normalized.value);
      if normalized.value !in unique {
        unique := unique + [normalized.value];
      }
    }
    assert raw[..|raw|] == raw;
    r := Some(unique);
  }

  method SetGateTree(keccak: Keccak, parse: string -> Option<Address>, raw: seq<string>) returns (r: Result<Tree,
                     TreeError>)
    ensures !AllValid(parse, raw) ==> r == Err(InvalidAddress)
    ensures raw == [] ==> r == Err(NoAddresses)
    ensures AllValid(parse, raw) && raw != [] ==> r == Ok(TreeOf(keccak, Dedup(Parsed(parse, raw))))
  {
    var unique := Unique(parse, raw);
    if unique.None? { return Err(InvalidAddress); }
    r := BuildTree(keccak, unique.value);
  }

  ghost predicate SameAddresses(parse: string -> Option<Address>, raw: seq<string>, raw': seq<string>)
    requires AllValid(parse, raw) && AllValid(parse, raw')
  {
    forall a :: a in Parsed(parse, raw) <==> a in Parsed(parse, raw')
  }

  // Two input files that name the same set of addresses, whatever their order,
  // spelling and repeats, publish the same root and heap, and the same everything
  // if no two listed addresses share a leaf hash.
  lemma SameSetSameTree(keccak: Keccak, parse: string -> Option<Address>, raw: seq<string>, raw': seq<string>)
    requires AllValid(parse, raw) && AllValid(parse, raw') && raw != [] && raw' != []
    requires SameAddresses(parse, raw, raw')
    ensures var t, t' := TreeOf(keccak, Dedup(Parsed(parse, raw))), TreeOf(keccak, Dedup(Parsed(parse, raw')));
      && t.root == t'.root && t.tree == t'.tree
      && (LeafHashesDistinct(keccak, Parsed(parse, raw)) ==> t == t')
  {
    var xs, ys := Dedup(Parsed(parse, raw)), Dedup(Parsed(parse, raw'));
    assert forall a :: a in xs <==> a in ys;
    CanonicalHeap(keccak, xs, ys);
    if LeafHashesDistinct(keccak, Parsed(parse, raw)) { SameLeaves(keccak, xs, ys); }
  }

  // No collision between what building the two trees hashes.
  ghost predicate NoClashBetween(keccak: Keccak, xs: seq<Address>, ys: seq<Address>) {
    NoCollision(keccak, BuilderInputs(keccak, xs), BuilderInputs(keccak, ys))
  }

  lemma NoClashSeparatesLeaves(keccak: Keccak, xs: seq<Address>, ys: seq<Address>)
    requires forall a :: a in xs <==> a in ys
    ensures NoClashBetween(keccak, xs, ys) ==> LeafHashesDistinct(keccak, xs)
  {
    forall a, b | NoClashBetween(keccak, xs, ys) && a in xs && b in xs && LeafHash(keccak, a) == LeafHash(keccak, b)
      ensures a == b
    {
      LeafInputsCovered(keccak, xs, a);
      LeafInputsCovered(keccak, ys, b);
      assert !Clash(keccak, keccak(AbiEncode(a)), keccak(AbiEncode(b)));
      assert !Clash(keccak, AbiEncode(a), AbiEncode(b));
      AbiEncodeInjective(a, b);
    }
  }

  // Absent a collision, a published root stands for one set of addresses: equal
  // roots mean the same set, and then the same everything.
  lemma PublishedRootCommits(keccak: Keccak, parse: string -> Option<Address>, raw: seq<string>, raw': seq<string>)
    requires AllValid(parse, raw) && AllValid(parse, raw') && raw != [] && raw' != []
    ensures NoClashBetween(keccak, Dedup(Parsed(parse, raw)), Dedup(Parsed(parse, raw'))) ==>
      var t, t' := TreeOf(keccak, Dedup(Parsed(parse, raw))), TreeOf(keccak, Dedup(Parsed(parse, raw')));
      && (t.root == t'.root <==> SameAddresses(parse, raw, raw'))
      && (t.root == t'.root <==> t == t')
  {
    var xs, ys := Dedup(Parsed(parse, raw)), Dedup(Parsed(parse, raw'));
    if NoClashBetween(keccak, xs, ys) {
      RootCommitsToSet(keccak, xs, ys);
      assert SameAddresses(parse, raw, raw') <==> forall a :: a in xs <==> a in ys;
      if SameAddresses(parse, raw, raw') {
        NoClashSeparatesLeaves(keccak, xs, ys);
        SameSetSameTree(keccak, parse, raw, raw');
      }
    }
  }
}
