/** The sparse Merkle tree: nodes kept in a map, absent nodes standing for the hash of an
    empty subtree. */
module SparseTree {
  import opened Sequences
  import opened Bits
  import opened MerklePath

  datatype Index = Index(index: nat, depth: nat)

  /** What is inserted: a leaf, which gets hashed, or an already hashed node. */
  datatype NodeValue = LeafValue(bytes: seq<Byte>) | NodeHash(hash: Digest)

  function Fill(b: Byte, n: nat): (r: seq<Byte>)
    ensures |r| == n && forall i | 0 <= i < n :: r[i] == b
  {
    if n == 0 then [] else [b] + Fill(b, n - 1)
  }

  type Bytes32 = s: seq<Byte> | |s| == 32 witness Fill(0, 32)

  /** The 32-byte hash of a byte string; no defining value, nothing assumed. */
  const Hash: seq<Byte> -> Bytes32

  const INNER_HASH_SIZE: nat := 27

  /** The first 27 bytes of the hash. */
  function HashLeaf(leaf: seq<Byte>): Digest {
    Truncate(Hash(leaf))
  }

  function Truncate(h: Bytes32): Digest {
    TruncationFits(h);
    LeValue(h[..INNER_HASH_SIZE])
  }

  lemma TruncationFits(h: Bytes32)
    ensures LeValue(h[..INNER_HASH_SIZE]) < DIGEST_BOUND
  {
    LeValueBound(h[..INNER_HASH_SIZE]);
    Pow2Of216(8 * INNER_HASH_SIZE);
  }

  /** A leaf's digest is the first 27 bytes of the hash of the whole leaf. */
  lemma HashLeafBytes(leaf: seq<Byte>)
    ensures LeBits(HashLeaf(leaf), 216) == ByteBits(Hash(leaf)[..27])
  {
    LeValueBits(Hash(leaf)[..27]);
  }

  /** So two leaves have one digest exactly when their hashes agree on 27 bytes. */
  lemma HashLeafBinds(a: seq<Byte>, b: seq<Byte>)
    ensures HashLeaf(a) == HashLeaf(b) <==> Hash(a)[..27] == Hash(b)[..27]
    ensures LeafCollision(a, b) <==> a != b && HashLeaf(a) == HashLeaf(b)
  {
    if HashLeaf(a) == HashLeaf(b) {
      LeValueInjective(Hash(a)[..27], Hash(b)[..27]);
    }
  }

  /** Two different leaves whose hashes agree on the 27 bytes that are kept. */
  predicate LeafCollision(a: seq<Byte>, b: seq<Byte>) {
    a != b && Hash(a)[..27] == Hash(b)[..27]
  }

  lemma Pow2Of216(n: nat)
    requires n == 216
    ensures Pow2(n) == DIGEST_BOUND
  {
    var k: nat := n / 8;
    assert Pow2(3) == 8;
    Pow2Add(3, 6);
    Doubled(3, 8);
    Pow2Add(9, 18);
    Doubled(9, 512);
    assert k == 27 && Pow2(k) == 0x8000000;
    Doubled(k, 0x8000000);
    Doubled(2 * k, 0x40000000000000);
    Doubled(4 * k, 0x1000_000000000000_000000000000);
  }

  lemma Doubled(n: nat, value: nat)
    requires Pow2(n) == value
    ensures Pow2(2 * n) == value * value
  {
    Pow2Add(n, n);
  }

  const InitialLeafValue: Bytes32 := Fill(0, 32)

  function DefaultLeafHash(): Digest { HashLeaf(InitialLeafValue) }

  function NodeHashOf(v: NodeValue): Digest {
    match v
    case LeafValue(bytes) => HashLeaf(bytes)
    case NodeHash(hash) => hash
  }

  /** The hash of an empty subtree of the given height. */
  function EmptyHash(height: nat): Digest {
    if height == 0 then DefaultLeafHash() else HashInner(EmptyHash(height - 1), EmptyHash(height - 1))
  }

  // ---------------------------------------------------------------- the full tree

  /** The plain recursive Merkle hash of the node `index` at `height`, over leaf hashes
      `leaves` with every other leaf at its default. */
  function FullNode(leaves: map<nat, Digest>, height: nat, index: nat): Digest {
    if height == 0 then (if index in leaves then leaves[index] else DefaultLeafHash())
    else HashInner(FullNode(leaves, height - 1, 2 * index), FullNode(leaves, height - 1, 2 * index + 1))
  }

  /** The ancestor of leaf `index` that many levels up. */
  function Ancestor(index: nat, up: nat): nat {
    if up == 0 then index else Ancestor(index, up - 1) / 2
  }

  lemma AncestorStart(index: nat)
    ensures Ancestor(index, 0) == index
  {}

  lemma AncestorUp(index: nat, up: nat)
    ensures Ancestor(index, up + 1) == Ancestor(index, up) / 2
  {}

  lemma {:induction false} EmptyTree(height: nat, index: nat)
    ensures FullNode(map[], height, index) == EmptyHash(height)
  {
    if height > 0 {
      EmptyTree(height - 1, 2 * index);
      EmptyTree(height - 1, 2 * index + 1);
    }
  }

  /** Changing a leaf only changes its ancestors. */
  lemma {:induction false} OffPath(leaves: map<nat, Digest>, leaf: nat, h: Digest, height: nat, index: nat)
    requires index != Ancestor(leaf, height)
    ensures FullNode(leaves[leaf := h], height, index) == FullNode(leaves, height, index)
  {
    if height > 0 {
      OffPath(leaves, leaf, h, height - 1, 2 * index);
      OffPath(leaves, leaf, h, height - 1, 2 * index + 1);
    }
  }

  lemma {:induction false} AncestorBelow(index: nat, up: nat, depth: nat)
    requires index < Pow2(depth) && up <= depth
    ensures Ancestor(index, up) < Pow2(depth - up)
  {
    if up > 0 {
      AncestorBelow(index, up - 1, depth);
      assert Pow2(depth - (up - 1)) == 2 * Pow2(depth - up);
    }
  }

  // ---------------------------------------------------------------- the stored nodes

  type Nodes = map<Index, Digest>

  /** A stored node, or the hash of an empty subtree at that depth. */
  function Lookup(nodes: Nodes, treeDepth: nat, index: nat, depth: nat): Digest
    requires depth <= treeDepth
  {
    if Index(index, depth) in nodes then nodes[Index(index, depth)] else EmptyHash(treeDepth - depth)
  }

  /** Recomputes the ancestors of `(index, depth)`, bottom up. */
  function Rehash(nodes: Nodes, treeDepth: nat, index: nat, depth: nat): Nodes
    requires depth <= treeDepth
    decreases depth
  {
    if depth == 0 then nodes
    else
      var parent := index / 2;
      var h := HashInner(Lookup(nodes, treeDepth, 2 * parent, depth), Lookup(nodes, treeDepth, 2 * parent + 1, depth));
      Rehash(nodes[Index(parent, depth - 1) := h], treeDepth, parent, depth - 1)
  }

  /** The stored nodes represent the full tree over `leaves`. */
  ghost predicate Represents(nodes: Nodes, treeDepth: nat, leaves: map<nat, Digest>) {
    forall index: nat, depth: nat | depth <= treeDepth ::
      Lookup(nodes, treeDepth, index, depth) == FullNode(leaves, treeDepth - depth, index)
  }

  /** Halfway up: everything at `depth` and below is already right for the new leaf, and
      above it everything off the leaf's path still is. */
  ghost predicate PartlyRehashed(nodes: Nodes, treeDepth: nat, leaves: map<nat, Digest>, leaf: nat, depth: nat)
    requires depth <= treeDepth
  {
    forall i: nat, d: nat | d <= treeDepth && (d >= depth || i != Ancestor(leaf, treeDepth - d)) ::
      Lookup(nodes, treeDepth, i, d) == FullNode(leaves, treeDepth - d, i)
  }

  lemma {:induction false} RehashRepresents(nodes: Nodes, treeDepth: nat, leaves: map<nat, Digest>, leaf: nat,
                                            depth: nat)
    requires depth <= treeDepth && PartlyRehashed(nodes, treeDepth, leaves, leaf, depth)
    ensures Represents(Rehash(nodes, treeDepth, Ancestor(leaf, treeDepth - depth), depth), treeDepth, leaves)
    decreases depth
  {
    hide FullNode, Lookup, Ancestor;
    if depth > 0 {
      var index := Ancestor(leaf, treeDepth - depth);
      var parent := index / 2;
      AncestorUp(leaf, treeDepth - depth);
      var h := HashInner(Lookup(nodes, treeDepth, 2 * parent, depth), Lookup(nodes, treeDepth, 2 * parent + 1, depth));
      OneLevelUp(nodes, treeDepth, leaves, leaf, depth, parent, h);
      RehashRepresents(nodes[Index(parent, depth - 1) := h], treeDepth, leaves, leaf, depth - 1);
    }
  }

  lemma OneLevelUp(nodes: Nodes, treeDepth: nat, leaves: map<nat, Digest>, leaf: nat, depth: nat, parent: nat,
                   h: Digest)
    requires 0 < depth <= treeDepth && PartlyRehashed(nodes, treeDepth, leaves, leaf, depth)
    requires parent == Ancestor(leaf, treeDepth - (depth - 1))
    requires h ==
             HashInner(Lookup(nodes, treeDepth, 2 * parent, depth), Lookup(nodes, treeDepth, 2 * parent + 1, depth))
    ensures PartlyRehashed(nodes[Index(parent, depth - 1) := h], treeDepth, leaves, leaf, depth - 1)
  {
    var nodes' := nodes[Index(parent, depth - 1) := h];
    assert h == FullNode(leaves, treeDepth - (depth - 1), parent);
    forall i: nat, d: nat | d <= treeDepth && (d >= depth - 1 || i != Ancestor(leaf, treeDepth - d))
      ensures Lookup(nodes', treeDepth, i, d) == FullNode(leaves, treeDepth - d, i)
    {
      if i != parent || d != depth - 1 {
        assert Lookup(nodes', treeDepth, i, d) == Lookup(nodes, treeDepth, i, d);
      }
    }
  }

  /** Storing a leaf hash and rehashing upwards represents the updated full tree, wherever
      the leaf is. */
  lemma InsertRepresents(nodes: Nodes, treeDepth: nat, leaves: map<nat, Digest>, leaf: nat, h: Digest)
    requires Represents(nodes, treeDepth, leaves)
    ensures Represents(Rehash(nodes[Index(leaf, treeDepth) := h], treeDepth, leaf, treeDepth), treeDepth,
                       leaves[leaf := h])
  {
    var nodes' := nodes[Index(leaf, treeDepth) := h];
    forall i: nat, d: nat | d <= treeDepth && (d >= treeDepth || i != Ancestor(leaf, treeDepth - d))
      ensures Lookup(nodes', treeDepth, i, d) == FullNode(leaves[leaf := h], treeDepth - d, i)
    {
      if i != leaf || d != treeDepth {
        assert Lookup(nodes', treeDepth, i, d) == Lookup(nodes, treeDepth, i, d);
        OffPath(leaves, leaf, h, treeDepth - d, i);
      }
    }
    RehashRepresents(nodes', treeDepth, leaves[leaf := h], leaf, treeDepth);
  }

  lemma {:induction false} RehashStoresRoot(nodes: Nodes, treeDepth: nat, index: nat, depth: nat)
    requires depth <= treeDepth && index < Pow2(depth) && (depth == 0 ==> Index(0, 0) in nodes)
    ensures Index(0, 0) in Rehash(nodes, treeDepth, index, depth)
    decreases depth
  {
    if depth > 0 {
      var parent := index / 2;
      var h := HashInner(Lookup(nodes, treeDepth, 2 * parent, depth), Lookup(nodes, treeDepth, 2 * parent + 1, depth));
      RehashStoresRoot(nodes[Index(parent, depth - 1) := h], treeDepth, parent, depth - 1);
    }
  }

  lemma {:induction false} RehashKeepsNodes(nodes: Nodes, treeDepth: nat, index: nat, depth: nat, k: Index)
    requires depth <= treeDepth && k in nodes
    ensures k in Rehash(nodes, treeDepth, index, depth)
    decreases depth
  {
    if depth > 0 {
      var parent := index / 2;
      var h := HashInner(Lookup(nodes, treeDepth, 2 * parent, depth), Lookup(nodes, treeDepth, 2 * parent + 1, depth));
      RehashKeepsNodes(nodes[Index(parent, depth - 1) := h], treeDepth, parent, depth - 1, k);
    }
  }

  // ------------------------------------------------------------------------- paths

  /** The position of a leaf as the path functions want it: `true` for an even position. */
  function BitVector(index: nat, depth: nat): (r: seq<bool>)
    ensures |r| == depth
  {
    if depth == 0 then [] else [index % 2 == 0] + BitVector(index / 2, depth - 1)
  }

  method ToBitVector(index: Index) returns (r: seq<bool>)
    ensures r == BitVector(index.index, index.depth)
  {
    r := [];
    var i := index.index;
    var d := index.depth;
    while d > 0
      invariant 0 <= d <= index.depth
      invariant r + BitVector(i, d) == BitVector(index.index, index.depth)
    {
      assert r + BitVector(i, d) == r + [i % 2 == 0] + BitVector(i / 2, d - 1);
      r := r + [i % 2 == 0];
      i := i / 2;
      d := d - 1;
    }
  }

  /** Index bits are the flipped little-endian bits. */
  lemma {:induction false} BitVectorFlips(index: nat, depth: nat)
    ensures BitVector(index, depth) == Flip(LeBits(index, depth))
  {
    if depth > 0 {
      BitVectorFlips(index / 2, depth - 1);
    }
  }

  function Sibling(i: nat): nat { if i % 2 == 0 then i + 1 else i - 1 }

  /** The siblings met on the way up, in the full tree. */
  function FullPath(leaves: map<nat, Digest>, index: nat, from: nat, treeDepth: nat): (r: seq<Digest>)
    requires from <= treeDepth
    ensures |r| == treeDepth - from
    decreases treeDepth - from
  {
    if from == treeDepth then []
    else [FullNode(leaves, from, Sibling(index))] + FullPath(leaves, index / 2, from + 1, treeDepth)
  }

  /** The path of a position leads from its node to the root: for the stored leaf, and, with
      another leaf hash put in its place, to the root of the updated tree. */
  lemma {:induction false} PathLeadsToRoot(leaves: map<nat, Digest>, leaf: nat, from: nat, treeDepth: nat, h: Digest)
    requires from <= treeDepth
    ensures var index := Ancestor(leaf, from);
            ComputeRoot(FullNode(leaves[leaf := h], from, index), BitVector(index, treeDepth - from),
                        FullPath(leaves, index, from, treeDepth))
            == FullNode(leaves[leaf := h], treeDepth, Ancestor(leaf, treeDepth))
    decreases treeDepth - from
  {
    if from < treeDepth {
      var index := Ancestor(leaf, from);
      var parent := index / 2;
      assert Ancestor(leaf, from + 1) == parent;
      OffPath(leaves, leaf, h, from, Sibling(index));
      StepUp(leaves[leaf := h], from, index);
      PathLeadsToRoot(leaves, leaf, from + 1, treeDepth, h);
      ComputeRootStep(FullNode(leaves[leaf := h], from, index), BitVector(index, treeDepth - from),
                      FullPath(leaves, index, from, treeDepth));
      assert BitVector(index, treeDepth - from)[1..] == BitVector(parent, treeDepth - (from + 1));
      assert FullPath(leaves, index, from, treeDepth)[1..] == FullPath(leaves, parent, from + 1, treeDepth);
    }
  }

  lemma ComputeRootStep(h: Digest, bits: seq<bool>, path: seq<Digest>)
    requires 0 < |path| <= |bits|
    ensures ComputeRoot(h, bits, path) == ComputeRoot(Step(h, bits[0], path[0]), bits[1..], path[1..])
  {}

  lemma StepUp(leaves: map<nat, Digest>, from: nat, index: nat)
    ensures Step(FullNode(leaves, from, index), index % 2 == 0, FullNode(leaves, from, Sibling(index)))
         == FullNode(leaves, from + 1, index / 2)
  {
    assert index == 2 * (index / 2) || index == 2 * (index / 2) + 1;
  }

  /** The `k`-th sibling of a path. */
  lemma {:induction false} FullPathAt(leaves: map<nat, Digest>, leaf: nat, from: nat, treeDepth: nat, k: nat)
    requires from <= k < treeDepth
    ensures FullPath(leaves, Ancestor(leaf, from), from, treeDepth)[k - from]
         == FullNode(leaves, k, Sibling(Ancestor(leaf, k)))
    decreases k - from
  {
    if from < k {
      assert Ancestor(leaf, from + 1) == Ancestor(leaf, from) / 2;
      FullPathAt(leaves, leaf, from + 1, treeDepth, k);
    }
  }

  lemma EmptyNodesRepresent(treeDepth: nat)
    ensures Represents(map[], treeDepth, map[])
  {
    forall index: nat, d: nat | d <= treeDepth
      ensures Lookup(map[], treeDepth, index, d) == FullNode(map[], treeDepth - d, index)
    {
      EmptyTree(treeDepth - d, index);
    }
  }

  /** The hashes of empty subtrees, root first. */
  method InitialHashes(depth: nat) returns (r: seq<Digest>)
    ensures |r| == depth + 1 && forall d | 0 <= d <= depth :: r[d] == EmptyHash(depth - d)
  {
    hide HashLeaf, Reverse;
    var hashes := [DefaultLeafHash()];
    var i := 1;
    while i <= depth
      invariant 1 <= i <= depth + 1 && |hashes| == i
      invariant forall k | 0 <= k < i :: hashes[k] == EmptyHash(k)
    {
      hashes := hashes + [HashInner(hashes[i - 1], hashes[i - 1])];
      i := i + 1;
    }
    r := Reverse(hashes);
  }

  // -------------------------------------------------------------------- the class

  class SparseMerkleTree {
    const treeDepth: nat
    var tree: Nodes
    var leaves: map<Index, seq<Byte>>
    var root: Digest
    var sparseInitialHashes: seq<Digest>

    predicate HashesReady()
      reads this
    {
      && |sparseInitialHashes| == treeDepth + 1
      && (forall d | 0 <= d <= treeDepth :: sparseInitialHashes[d] == EmptyHash(treeDepth - d))
    }

    /** The tree holds the full tree over the leaf hashes `hashes`. */
    ghost predicate Holds(hashes: map<nat, Digest>)
      reads this
    {
      && HashesReady()
      && Represents(tree, treeDepth, hashes)
      && root == FullNode(hashes, treeDepth, 0)
    }

    constructor (depth: nat)
      ensures treeDepth == depth && Holds(map[])
      ensures tree == map[] && leaves == map[]
    {
      treeDepth := depth;
      tree, leaves := map[], map[];
      var hashes := InitialHashes(depth);
      sparseInitialHashes := hashes;
      root := hashes[0];
      new;
      EmptyTree(depth, 0);
      EmptyNodesRepresent(depth);
    }

    method LookupInternalNode(index: nat, depth: nat) returns (hash: Digest, stored: bool)
      requires HashesReady() && depth <= treeDepth
      ensures hash == Lookup(tree, treeDepth, index, depth)
      ensures stored <==> Index(index, depth) in tree
    {
      if Index(index, depth) in tree {
        hash, stored := tree[Index(index, depth)], true;
      } else {
        hash, stored := sparseInitialHashes[depth], false;
      }
    }

    /** Inserts at a leaf position. `ok` is false when no root is stored afterwards, which is
        where the source panics; it happens only for a position outside the tree. */
    method Insert(index: nat, value: NodeValue, ghost hashes: map<nat, Digest>) returns (ok: bool)
      requires Holds(hashes)
      modifies this
      ensures sparseInitialHashes == old(sparseInitialHashes)
      ensures tree == Rehash(old(tree)[Index(index, treeDepth) := NodeHashOf(value)], treeDepth, index, treeDepth)
      ensures leaves == if value.LeafValue? then old(leaves)[Index(index, treeDepth) := value.bytes] else old(leaves)
      ensures ok ==> Holds(hashes[index := NodeHashOf(value)])
      ensures index < Pow2(treeDepth) || Index(0, 0) in old(tree) ==> ok
    {
      var nodeHash := NodeHashOf(value);
      if value.LeafValue? {
        leaves := leaves[Index(index, treeDepth) := value.bytes];
      }
      tree := tree[Index(index, treeDepth) := nodeHash];
      ghost var start := tree;
      RehashUp(index);
      InsertRepresents(old(tree), treeDepth, hashes, index, nodeHash);
      if index < Pow2(treeDepth) {
        RehashStoresRoot(start, treeDepth, index, treeDepth);
      }
      if Index(0, 0) in old(tree) {
        RehashKeepsNodes(start, treeDepth, index, treeDepth, Index(0, 0));
      }
      ok := Index(0, 0) in tree;
      if ok {
        root := tree[Index(0, 0)];
        assert Lookup(tree, treeDepth, 0, 0) == FullNode(hashes[index := nodeHash], treeDepth, 0);
      }
    }

    /** Recomputes the ancestors of the leaf position `index`. */
    method RehashUp(index: nat)
      requires HashesReady()
      modifies this`tree
      ensures tree == Rehash(old(tree), treeDepth, index, treeDepth)
    {
      var i := index;
      var d := treeDepth;
      while d > 0
        invariant 0 <= d <= treeDepth
        invariant Rehash(tree, treeDepth, i, d) == Rehash(old(tree), treeDepth, index, treeDepth)
      {
        i := i / 2;
        var lc, _ := LookupInternalNode(2 * i, d);
        var rc, _ := LookupInternalNode(2 * i + 1, d);
        tree := tree[Index(i, d - 1) := HashInner(lc, rc)];
        d := d - 1;
      }
    }

    /** The siblings from the leaf at `index` up to the root. */
    method LookupPath(index: nat, ghost hashes: map<nat, Digest>) returns (path: seq<Digest>)
      requires Holds(hashes)
      ensures path == FullPath(hashes, index, 0, treeDepth)
    {
      hide FullPath, FullNode, Ancestor;
      path := [];
      var i := index;
      var d := treeDepth;
      AncestorStart(index);
      while d >= 1
        invariant 0 <= d <= treeDepth
        invariant i == Ancestor(index, treeDepth - d)
        invariant path == FullPath(hashes, index, 0, treeDepth)[..treeDepth - d]
      {
        var h, _ := LookupInternalNode(Sibling(i), d);
        FullPathAt(hashes, index, 0, treeDepth, treeDepth - d);
        AncestorUp(index, treeDepth - d);
        path := path + [h];
        i := i / 2;
        d := d - 1;
      }
    }
  }

  // ------------------------------------------------------------- whole-run properties

  /** The leaf hashes after a sequence of inserts. */
  function FinalLeaves(inserts: seq<(nat, Digest)>): map<nat, Digest> {
    if inserts == [] then map[]
    else
      var n := |inserts| - 1;
      FinalLeaves(inserts[..n])[inserts[n].0 := inserts[n].1]
  }

  /** The nodes stored by a sequence of inserts. */
  function RunInserts(inserts: seq<(nat, Digest)>, treeDepth: nat): Nodes {
    if inserts == [] then map[]
    else
      var n := |inserts| - 1;
      Rehash(RunInserts(inserts[..n], treeDepth)[Index(inserts[n].0, treeDepth) := inserts[n].1],
             treeDepth, inserts[n].0, treeDepth)
  }

  /** After any sequence of inserts, every stored-or-default node is the full tree's node. */
  lemma {:induction false} RunRepresentsFullTree(inserts: seq<(nat, Digest)>, treeDepth: nat)
    ensures Represents(RunInserts(inserts, treeDepth), treeDepth, FinalLeaves(inserts))
  {
    if inserts == [] {
      EmptyNodesRepresent(treeDepth);
    } else {
      var n := |inserts| - 1;
      RunRepresentsFullTree(inserts[..n], treeDepth);
      InsertRepresents(RunInserts(inserts[..n], treeDepth), treeDepth, FinalLeaves(inserts[..n]), inserts[n].0,
                       inserts[n].1);
    }
  }

  /** The root depends on the final leaves alone, not on the order or history of inserts. */
  lemma RootIgnoresHistory(a: seq<(nat, Digest)>, b: seq<(nat, Digest)>, treeDepth: nat)
    requires FinalLeaves(a) == FinalLeaves(b)
    ensures forall index: nat, depth: nat | depth <= treeDepth ::
              Lookup(RunInserts(a, treeDepth), treeDepth, index, depth)
                   == Lookup(RunInserts(b, treeDepth), treeDepth, index, depth)
  {
    RunRepresentsFullTree(a, treeDepth);
    RunRepresentsFullTree(b, treeDepth);
  }

  lemma TopAncestor(index: nat, depth: nat)
    requires index < Pow2(depth)
    ensures Ancestor(index, depth) == 0
  {
    AncestorBelow(index, depth, depth);
    hide Ancestor;
  }

  lemma NewLeafNode(leaves: map<nat, Digest>, index: nat, h: Digest)
    ensures FullNode(leaves[index := h], 0, index) == h
  {}

  /** In a represented tree the looked-up path verifies the leaf hash at an occupied position
      and the default leaf hash at an unoccupied one. */
  lemma PathVerifies(leaves: map<nat, Digest>, index: nat, treeDepth: nat)
    requires index < Pow2(treeDepth)
    ensures ComputeRoot(if index in leaves then leaves[index] else DefaultLeafHash(), BitVector(index, treeDepth),
                        FullPath(leaves, index, 0, treeDepth))
         == FullNode(leaves, treeDepth, 0)
  {
    hide ComputeRoot, BitVector, FullPath, FullNode, DefaultLeafHash, Pow2, Ancestor;
    var h := if index in leaves then leaves[index] else DefaultLeafHash();
    AncestorStart(index);
    TopAncestor(index, treeDepth);
    NewLeafNode(leaves, index, h);
    PathLeadsToRoot(leaves, index, 0, treeDepth, h);
    SameLeaf(leaves, index, treeDepth, 0);
  }

  /** The old path with a new leaf hash computes the root of the updated tree. */
  lemma PathUpdates(leaves: map<nat, Digest>, index: nat, treeDepth: nat, h: Digest)
    requires index < Pow2(treeDepth)
    ensures ComputeRoot(h, BitVector(index, treeDepth), FullPath(leaves, index, 0, treeDepth))
         == FullNode(leaves[index := h], treeDepth, 0)
  {
    hide ComputeRoot, BitVector, FullPath, FullNode, Pow2, Ancestor;
    AncestorStart(index);
    TopAncestor(index, treeDepth);
    NewLeafNode(leaves, index, h);
    PathLeadsToRoot(leaves, index, 0, treeDepth, h);
  }

  lemma {:induction false} SameLeaf(leaves: map<nat, Digest>, leaf: nat, height: nat, index: nat)
    ensures FullNode(leaves[leaf := if leaf in leaves then leaves[leaf] else DefaultLeafHash()], height, index)
         == FullNode(leaves, height, index)
  {
    if height > 0 {
      SameLeaf(leaves, leaf, height - 1, 2 * index);
      SameLeaf(leaves, leaf, height - 1, 2 * index + 1);
    }
  }

  function Children(leaves: map<nat, Digest>, height: nat, index: nat): Pair
    requires height > 0
  {
    (FullNode(leaves, height - 1, 2 * index), FullNode(leaves, height - 1, 2 * index + 1))
  }

  /** The place, on the way down to `leaf`, where two leaf maps under one root collide. */
  function TreeCollision(a: map<nat, Digest>, b: map<nat, Digest>, height: nat, leaf: nat): (Pair, Pair)
    requires height > 0
  {
    var (x, y) := (Children(a, height, Ancestor(leaf, height)), Children(b, height, Ancestor(leaf, height)));
    if height == 1 || x != y then (x, y) else TreeCollision(a, b, height - 1, leaf)
  }

  /** Equal roots mean equal leaves at every position, unless the two trees exhibit an
      explicit hash collision. */
  lemma {:induction false} RootBinds(a: map<nat, Digest>, b: map<nat, Digest>, height: nat, leaf: nat)
    requires FullNode(a, height, Ancestor(leaf, height)) == FullNode(b, height, Ancestor(leaf, height))
    ensures FullNode(a, 0, leaf) == FullNode(b, 0, leaf)
         || (height > 0 && IsCollision(TreeCollision(a, b, height, leaf).0, TreeCollision(a, b, height, leaf).1))
    ensures FullNode(a, 0, leaf) != FullNode(b, 0, leaf) ==>
              && height > 0
              && var (x, y) := TreeCollision(a, b, height, leaf);
                 x != y && HashInner(x.0, x.1) == HashInner(y.0, y.1)
    decreases height
  {
    if height > 0 {
      var index, child := Ancestor(leaf, height), Ancestor(leaf, height - 1);
      assert child == 2 * index || child == 2 * index + 1;
      if Children(a, height, index) == Children(b, height, index) {
        RootBinds(a, b, height - 1, leaf);
      }
    }
  }
}
