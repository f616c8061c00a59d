/** The level-by-level Merkle tree circuit: one subcircuit per node, children's hashes read
    through portal wires, and the plain computation of the root it is checked against. */
module TreeHashCircuit {
  import opened Field
  import opened Sequences
  import opened Bits
  import opened BitArithmetic
  import opened Transcript
  import opened PortalProgram
  import opened RomPortal
  import opened RomCompleteness
  import opened PortalMemory
  import opened RomAcceptance
  import opened MerklePath
  import opened SparseTree
  import opened VkdNames
  import opened TreeMath

  type TestLeaf = s: seq<Byte> | |s| == 64 witness Fill(0, 64)

  /** The iterated hash of a leaf; no defining value, nothing assumed. */
  const HashTestLeaf: TestLeaf -> Digest

  // ------------------------------------------------------------------ the plain root

  /** One level up: neighbours hashed together. */
  function Pairs(level: seq<Digest>): (r: seq<Digest>)
    requires |level| % 2 == 0
    ensures |r| == |level| / 2 && forall i | 0 <= i < |r| :: r[i] == HashInner(level[2 * i], level[2 * i + 1])
  {
    seq(|level| / 2, i requires 0 <= i < |level| / 2 => HashInner(level[2 * i], level[2 * i + 1]))
  }

  /** Level by level until one digest is left; `None` for no leaf, or when some level has an
      odd number of nodes, where the source panics. */
  function RootOf(level: seq<Digest>): Option<Digest>
    decreases |level|
  {
    if |level| == 1 then Some(level[0])
    else if |level| == 0 || |level| % 2 == 1 then None
    else RootOf(Pairs(level))
  }

  method CalculateRoot(leaves: seq<TestLeaf>) returns (root: Option<Digest>)
    ensures root == RootOf(Map(HashTestLeaf, leaves))
    ensures root.Some? <==> IsPowerOfTwo(|leaves|)
  {
    RootExists(Map(HashTestLeaf, leaves));
    var curLevel := Map(HashTestLeaf, leaves);
    while |curLevel| > 1
      invariant RootOf(curLevel) == RootOf(Map(HashTestLeaf, leaves))
      decreases |curLevel|
    {
      if |curLevel| % 2 == 1 {
        return None;
      }
      curLevel := NextLevel(curLevel);
    }
    root := if curLevel == [] then None else Some(curLevel[0]);
  }

  method NextLevel(curLevel: seq<Digest>) returns (nextLevel: seq<Digest>)
    requires |curLevel| % 2 == 0
    ensures nextLevel == Pairs(curLevel)
  {
    nextLevel := [];
    for i := 0 to |curLevel| / 2
      invariant nextLevel == Pairs(curLevel)[..i]
    {
      nextLevel := nextLevel + [HashInner(curLevel[2 * i], curLevel[2 * i + 1])];
    }
  }

  /** The hash of a node of the tree over the leaf hashes. */
  function TreeNode(leaves: seq<Digest>, level: nat, upper: nat): Digest {
    if level == 0 then (if upper < |leaves| then leaves[upper] else 0)
    else HashInner(TreeNode(leaves, level - 1, 2 * upper), TreeNode(leaves, level - 1, 2 * upper + 1))
  }

  lemma {:induction false} TreeNodeOfPairs(leaves: seq<Digest>, level: nat, upper: nat, m: nat)
    requires |leaves| == 2 * Pow2(m) && level <= m && upper < Pow2(m - level)
    ensures TreeNode(Pairs(leaves), level, upper) == TreeNode(leaves, level + 1, upper)
    decreases level
  {
    hide *;
    if level == 0 {
      PairIsParent(leaves, upper);
    } else {
      PowerPositive(m - level + 1);
      TreeNodeOfPairs(leaves, level - 1, 2 * upper, m);
      TreeNodeOfPairs(leaves, level - 1, 2 * upper + 1, m);
      ParentOf(Pairs(leaves), level, upper);
      ParentOf(leaves, level + 1, upper);
    }
  }

  lemma PairIsParent(leaves: seq<Digest>, upper: nat)
    requires |leaves| % 2 == 0 && upper < |leaves| / 2
    ensures TreeNode(Pairs(leaves), 0, upper) == TreeNode(leaves, 1, upper)
  {}

  lemma ParentOf(leaves: seq<Digest>, level: nat, upper: nat)
    requires level > 0
    ensures TreeNode(leaves, level, upper)
         == HashInner(TreeNode(leaves, level - 1, 2 * upper), TreeNode(leaves, level - 1, 2 * upper + 1))
  {}

  /** For a power of two many leaves the plain computation is the recursive root. */
  lemma {:induction false} RootIsTreeNode(leaves: seq<Digest>, m: nat)
    requires |leaves| == Pow2(m)
    ensures RootOf(leaves) == Some(TreeNode(leaves, m, 0))
    decreases m
  {
    hide *;
    if m == 0 {
      OneLeaf(leaves);
    } else {
      PowerPositive(m);
      RootStep(leaves);
      RootIsTreeNode(Pairs(leaves), m - 1);
      TreeNodeOfPairs(leaves, m - 1, 0, m - 1);
    }
  }

  lemma OneLeaf(leaves: seq<Digest>)
    requires |leaves| == Pow2(0)
    ensures RootOf(leaves) == Some(TreeNode(leaves, 0, 0))
  {}

  lemma RootStep(leaves: seq<Digest>)
    requires |leaves| > 1 && |leaves| % 2 == 0
    ensures RootOf(leaves) == RootOf(Pairs(leaves))
  {
    hide Pairs;
  }

  predicate IsPowerOfTwo(n: nat) {
    n == 1 || (n > 1 && n % 2 == 0 && IsPowerOfTwo(n / 2))
  }

  /** A root exists exactly for a power of two many leaves. */
  lemma {:induction false} RootExists(leaves: seq<Digest>)
    ensures RootOf(leaves).Some? <==> IsPowerOfTwo(|leaves|)
    decreases |leaves|
  {
    if |leaves| > 1 && |leaves| % 2 == 0 {
      RootExists(Pairs(leaves));
    }
  }

  // -------------------------------------------------------------------- the circuit

  datatype TreeWire = HashWire(node: nat) | Placeholder

  function TreeWireName(w: TreeWire): string {
    match w
    case HashWire(node) => "node " + (Decimal(node) + " " + "hash")
    case Placeholder => "placeholder"
  }

  lemma TreeNamesInjective()
    ensures Injective(TreeWireName)
  {
    forall v, w | TreeWireName(v) == TreeWireName(w) ensures v == w {
      hide Decimal;
      assert TreeWireName(v)[0] == TreeWireName(w)[0];
      if v.HashWire? && w.HashWire? {
        SamePrefix("node ", Decimal(v.node) + " " + "hash", Decimal(w.node) + " " + "hash");
        CutAtSpace(Decimal(v.node), Decimal(w.node), "hash", "hash");
        DecimalInjective(v.node, w.node);
      }
    }
  }

  /** `expected` is the public root; `numPortals` counts the placeholder accesses. */
  datatype TreeParams = TreeParams(m: nat, leaves: seq<Digest>, expected: Digest, numPortals: nat)

  predicate ValidParams(p: TreeParams) {
    p.m >= 1 && |p.leaves| == Pow2(p.m) && p.numPortals >= 1
  }

  function ParentVar(seen: seq<F>): F {
    if |seen| < 2 then 0 else HashInnerVar(seen[|seen| - 2], seen[|seen| - 1])
  }

  function DummyOps(n: nat): seq<Op<TreeWire>> {
    if n == 0 then [] else [Get(Placeholder)] + DummyOps(n - 1)
  }

  function LeafOps(p: TreeParams, node: nat): seq<Op<TreeWire>> {
    [Set(HashWire(node), _ => ToField(if node / 2 < |p.leaves| then p.leaves[node / 2] else 0))]
  }

  /** A parent reads its children and sets its own hash; the root compares with the public
      value. */
  function ParentOps(p: TreeParams, node: nat): seq<Op<TreeWire>>
    requires Level(node) > 0
  {
    var check := if node == NodeIdx(p.m, 0)
                 then [Enforce((seen: seq<F>) => ParentVar(seen) == ToField(p.expected))] else [];
    [Get(HashWire(LeftChild(node)))] + ([Get(HashWire(RightChild(node)))]
      + ([Set(HashWire(node), (seen: seq<F>) => ParentVar(seen))] + check))
  }

  function NodeOps(p: TreeParams, node: nat): seq<Op<TreeWire>> {
    if Level(node) == 0 then LeafOps(p, node) else ParentOps(p, node)
  }

  /** The placeholder accesses that end subcircuit `i`; the first one sets it. */
  function TailOps(p: TreeParams, i: nat): seq<Op<TreeWire>>
    requires ValidParams(p)
  {
    (if i == 0 then [Set(Placeholder, _ => 0)] else []) + DummyOps(p.numPortals - 1)
  }

  /** Subcircuit `i`; the last one is padding, outside the tree. */
  function SubcircuitOps(p: TreeParams, i: nat): seq<Op<TreeWire>>
    requires ValidParams(p)
  {
    (if i + 1 < 2 * Pow2(p.m) then NodeOps(p, NodeOf(p.m, i)) else []) + TailOps(p, i)
  }

  function CircuitOps(p: TreeParams, n: nat): (r: seq<seq<Op<TreeWire>>>)
    requires ValidParams(p)
    ensures |r| == n
  {
    if n == 0 then [] else CircuitOps(p, n - 1) + [SubcircuitOps(p, n - 1)]
  }

  // ------------------------------------------------------------------------ its run

  /** What wire `w` holds once subcircuits `0 .. t` have run. */
  function Filled(p: TreeParams, t: nat, w: TreeWire): Option<F> {
    match w
    case HashWire(node) =>
      if InTree(p.m, node) && SubcircuitOf(p.m, node) < t
      then Some(ToField(TreeNode(p.leaves, Level(node), Upper(node)))) else None
    case Placeholder => if t > 0 then Some(0) else None
  }

  ghost predicate Holds(p: TreeParams, t: nat, mem: map<TreeWire, F>) {
    forall w :: HoldsAt(p, t, mem, w)
  }

  predicate HoldsAt(p: TreeParams, t: nat, mem: map<TreeWire, F>, w: TreeWire) {
    if w in mem then Filled(p, t, w) == Some(mem[w]) else Filled(p, t, w) == None
  }

  lemma {:induction false} DummiesRun(n: nat, mem: map<TreeWire, F>, seen: seq<F>)
    requires Placeholder in mem
    ensures RunMem(DummyOps(n), mem, seen) == Some(MemRun(mem, true))
  {
    if n > 0 {
      RunGet(Placeholder, DummyOps(n - 1), mem, seen);
      DummiesRun(n - 1, mem, seen + [mem[Placeholder]]);
    }
  }

  /** Setting the hash of subcircuit `i`'s node advances the memory, placeholder aside. */
  lemma NodeFills(p: TreeParams, i: nat, mem: map<TreeWire, F>)
    requires ValidParams(p) && i + 1 < 2 * Pow2(p.m) && Holds(p, i, mem)
    ensures var node := NodeOf(p.m, i);
            var mem' := mem[HashWire(node) := ToField(TreeNode(p.leaves, Level(node), Upper(node)))];
            && InTree(p.m, node) && SubcircuitOf(p.m, node) == i
            && HashWire(node) !in mem
            && Holds(p, i + 1, mem'[Placeholder := 0])
            && (i > 0 ==> mem'[Placeholder := 0] == mem')
  {
    hide Pow2, TreeNode, ToField, NodeOf, InTree, Level, Upper, SubcircuitOf;
    NodeOfSubcircuit(p.m, i);
    var node := NodeOf(p.m, i);
    var mem' := mem[HashWire(node) := ToField(TreeNode(p.leaves, Level(node), Upper(node)))];
    var after, t := mem'[Placeholder := 0], i + 1;
    assert HoldsAt(p, i, mem, HashWire(node)) && HoldsAt(p, i, mem, Placeholder);
    forall w ensures HoldsAt(p, t, after, w) {
      assert HoldsAt(p, i, mem, w);
      if w.HashWire? && InTree(p.m, w.node) && SubcircuitOf(p.m, w.node) == i {
        SubcircuitOfNode(p.m, w.node);
      }
    }
  }

  /** A leaf subcircuit sets its leaf's hash. */
  lemma LeafRuns(p: TreeParams, node: nat, rest: seq<Op<TreeWire>>, mem: map<TreeWire, F>)
    requires Level(node) == 0 && HashWire(node) !in mem
    ensures RunMem(NodeOps(p, node) + rest, mem, [])
         == RunMem(rest, mem[HashWire(node) := ToField(TreeNode(p.leaves, 0, Upper(node)))], [])
  {
    hide RunMem, ToField;
    var ops := LeafOps(p, node);
    RunSet(HashWire(node), ops[0].value, rest, mem, []);
  }

  /** A parent subcircuit reads both children, which are there, and sets its own hash; only
      the root checks anything. */
  lemma ParentRuns(p: TreeParams, i: nat, rest: seq<Op<TreeWire>>, mem: map<TreeWire, F>) returns (seen: seq<F>)
    requires ValidParams(p) && DigestsFit() && i + 1 < 2 * Pow2(p.m) && Holds(p, i, mem)
    requires var node := NodeOf(p.m, i);
             InTree(p.m, node) && SubcircuitOf(p.m, node) == i && Level(node) > 0 && HashWire(node) !in mem
    ensures var node := NodeOf(p.m, i);
            var d := TreeNode(p.leaves, Level(node), Upper(node));
            RunMem(NodeOps(p, node) + rest, mem, [])
            == AndChecks(node == NodeIdx(p.m, 0) ==> d == p.expected,
                         RunMem(rest, mem[HashWire(node) := ToField(d)], seen))
  {
    hide Pow2, ToField, NodeOf, Upper, RunMem, NodeIdx, LeftChild, RightChild, TreeNode, Level, InTree, SubcircuitOf;
    var node := NodeOf(p.m, i);
    var d := TreeNode(p.leaves, Level(node), Upper(node));
    var l, r := HashWire(LeftChild(node)), HashWire(RightChild(node));
    ChildrenEarlier(p.m, node);
    assert HoldsAt(p, i, mem, l) && HoldsAt(p, i, mem, r);
    seen := [mem[l]] + [mem[r]];
    assert [] + [mem[l]] + [mem[r]] == seen;
    ParentValue(p, node, seen);
    DigestRoundTrip(d);
    DigestRoundTrip(p.expected);
    var ops := ParentOps(p, node);
    var put := ops[2];
    var check := ops[3..];
    assert ops + rest == [Get(l)] + ([Get(r)] + ([put] + (check + rest)));
    RunGet(l, [Get(r)] + ([put] + (check + rest)), mem, []);
    RunGet(r, [put] + (check + rest), mem, [] + [mem[l]]);
    RunSet(HashWire(node), put.value, check + rest, mem, seen);
    var mem' := mem[HashWire(node) := ToField(d)];
    if node == NodeIdx(p.m, 0) {
      assert check + rest == [check[0]] + rest;
      RunEnforce(check[0].check, rest, mem', seen);
    } else {
      assert check + rest == rest;
      NoCheck(RunMem(rest, mem', seen));
    }
  }

  lemma NoCheck<N>(r: Option<MemRun<N>>)
    ensures AndChecks(true, r) == r
  {}

  /** The children's field elements hash to the parent's. */
  lemma ParentValue(p: TreeParams, node: nat, seen: seq<F>)
    requires DigestsFit() && Level(node) > 0
    requires var (l, r) := (LeftChild(node), RightChild(node));
             seen == [ToField(TreeNode(p.leaves, Level(l), Upper(l))), ToField(TreeNode(p.leaves, Level(r), Upper(r)))]
    ensures ParentVar(seen) == ToField(TreeNode(p.leaves, Level(node), Upper(node)))
  {
    hide Level, Upper, ToField, FromField, LeftChild, RightChild, NodeIdx;
    var level, upper := Level(node), Upper(node);
    NodeIdxCovers(node);
    TreeMath.Children(level, upper);
    NodeIdxRoundTrip(level - 1, 2 * upper);
    NodeIdxRoundTrip(level - 1, 2 * upper + 1);
    ParentOf(p.leaves, level, upper);
    DigestRoundTrip(TreeNode(p.leaves, level - 1, 2 * upper));
    DigestRoundTrip(TreeNode(p.leaves, level - 1, 2 * upper + 1));
  }

  /** What subcircuit `i` does to a memory filled so far. */
  lemma SubcircuitRuns(p: TreeParams, i: nat, mem: map<TreeWire, F>)
    requires ValidParams(p) && DigestsFit() && i < 2 * Pow2(p.m) && Holds(p, i, mem)
    ensures var r := RunMem(SubcircuitOps(p, i), mem, []);
            && r.Some? && Holds(p, i + 1, r.value.mem)
            && r.value.checks == (i + 2 == 2 * Pow2(p.m) ==> TreeNode(p.leaves, p.m, 0) == p.expected)
  {
    hide ToField, TreeNode, RunMem, NodeOps, Pow2, Holds, NodeOf, InTree, SubcircuitOf, TailOps;
    var tail := TailOps(p, i);
    RootSubcircuit(p.m);
    PlaceholderThere(p, i, mem);
    if i + 1 < 2 * Pow2(p.m) {
      var node := NodeOf(p.m, i);
      NodeFills(p, i, mem);
      var d := TreeNode(p.leaves, Level(node), Upper(node));
      var mem' := mem[HashWire(node) := ToField(d)];
      var seen: seq<F> := [];
      if Level(node) == 0 {
        LeafRuns(p, node, tail, mem);
        LeafIsNotRoot(p, node);
      } else {
        seen := ParentRuns(p, i, tail, mem);
      }
      TailRuns(p, i, mem', seen);
      RootOnly(p, i);
    } else {
      assert [] + tail == tail;
      TailRuns(p, i, mem, []);
      PaddingChangesNothing(p, i, mem);
    }
  }

  lemma LeafIsNotRoot(p: TreeParams, node: nat)
    requires ValidParams(p) && Level(node) == 0
    ensures node != NodeIdx(p.m, 0)
  {
    NodeIdxRoundTrip(p.m, 0);
  }

  /** The root is the last node, computed by the last but one subcircuit. */
  lemma RootSubcircuit(m: nat)
    requires m >= 1
    ensures Pow2(m) >= 2 && InTree(m, NodeIdx(m, 0)) && SubcircuitOf(m, NodeIdx(m, 0)) + 2 == 2 * Pow2(m)
  {
    PowerPositive(m);
    NodeIdxRoundTrip(m, 0);
    StartsAt(m);
    NextStart(m, m);
    hide NodeIdx, Start, Level, Upper;
    assert Pow2(m - m) == 1;
  }

  lemma RootOnly(p: TreeParams, i: nat)
    requires ValidParams(p) && i + 1 < 2 * Pow2(p.m)
    ensures NodeOf(p.m, i) == NodeIdx(p.m, 0) <==> i + 2 == 2 * Pow2(p.m)
    ensures Level(NodeIdx(p.m, 0)) == p.m && Upper(NodeIdx(p.m, 0)) == 0
  {
    hide NodeOf, Pow2, NodeIdx, Level, Upper, InTree, SubcircuitOf;
    NodeIdxRoundTrip(p.m, 0);
    RootSubcircuit(p.m);
    NodeOfSubcircuit(p.m, i);
    SubcircuitOfNode(p.m, NodeIdx(p.m, 0));
  }

  /** The placeholder's own accesses. */
  lemma TailRuns(p: TreeParams, i: nat, mem: map<TreeWire, F>, seen: seq<F>)
    requires ValidParams(p)
    requires if i == 0 then Placeholder !in mem else Placeholder in mem
    ensures RunMem(TailOps(p, i), mem, seen) == Some(MemRun(if i == 0 then mem[Placeholder := 0] else mem, true))
  {
    hide RunMem, DummyOps;
    var dummies := DummyOps(p.numPortals - 1);
    if i == 0 {
      RunSet(Placeholder, TailOps(p, i)[0].value, dummies, mem, seen);
      DummiesRun(p.numPortals - 1, mem[Placeholder := 0], seen);
    } else {
      assert [] + dummies == dummies;
      DummiesRun(p.numPortals - 1, mem, seen);
    }
  }

  lemma PlaceholderThere(p: TreeParams, t: nat, mem: map<TreeWire, F>)
    requires Holds(p, t, mem)
    ensures Placeholder in mem <==> t > 0
  {
    assert HoldsAt(p, t, mem, Placeholder);
  }

  lemma PaddingChangesNothing(p: TreeParams, t: nat, mem: map<TreeWire, F>)
    requires ValidParams(p) && Holds(p, t, mem) && t + 1 == 2 * Pow2(p.m) && t > 0
    ensures Holds(p, t + 1, mem)
  {
    hide TreeNode, ToField, Pow2, InTree, SubcircuitOf, NodeOf;
    var u := t + 1;
    forall w ensures HoldsAt(p, u, mem, w) {
      assert HoldsAt(p, t, mem, w);
      if w.HashWire? && InTree(p.m, w.node) {
        SubcircuitOfNode(p.m, w.node);
      }
    }
  }

  /** After `t` subcircuits the memory holds exactly their nodes' hashes. */
  lemma {:induction false} CircuitRuns(p: TreeParams, t: nat)
    requires ValidParams(p) && DigestsFit() && t <= 2 * Pow2(p.m)
    ensures var r := RunMemAll(CircuitOps(p, t), map[]);
            && r.Some? && Holds(p, t, r.value.mem)
            && r.value.checks == (t + 1 >= 2 * Pow2(p.m) ==> TreeNode(p.leaves, p.m, 0) == p.expected)
    decreases t
  {
    hide *;
    if t == 0 {
      NothingFilled(p);
    } else {
      CircuitRuns(p, t - 1);
      OneMoreSubcircuit(p, t - 1);
      SubcircuitRuns(p, t - 1, RunMemAll(CircuitOps(p, t - 1), map[]).value.mem);
    }
  }

  lemma OneMoreSubcircuit(p: TreeParams, t: nat)
    requires ValidParams(p) && RunMemAll(CircuitOps(p, t), map[]).Some?
    ensures RunMemAll(CircuitOps(p, t + 1), map[])
         == match RunMem(SubcircuitOps(p, t), RunMemAll(CircuitOps(p, t), map[]).value.mem, [])
            case None => None
            case Some(r) => Some(MemRun(r.mem, RunMemAll(CircuitOps(p, t), map[]).value.checks && r.checks))
  {
    hide SubcircuitOps, RunMem;
    assert CircuitOps(p, t + 1)[..t] == CircuitOps(p, t);
  }

  lemma NothingFilled(p: TreeParams)
    requires ValidParams(p)
    ensures Holds(p, 0, map[]) && Pow2(p.m) >= 2
    ensures RunMemAll(CircuitOps(p, 0), map[]) == Some(MemRun(map[], true))
  {
    PowerPositive(p.m);
  }

  function TreePrograms(p: TreeParams): seq<seq<PortalOp>>
    requires ValidParams(p)
  {
    RenameAll(TreeWireName, CircuitOps(p, 2 * Pow2(p.m)))
  }

  /** The circuit's trace can always be collected, and the distributed proof is accepted, for
      all challenges, exactly when the public root is the plain computation's root. */
  lemma TreeAcceptedIffRoot(p: TreeParams)
    requires ValidParams(p) && DigestsFit() && 1 + TotalOps(TreePrograms(p)) < U64_LIMIT
    ensures SetupAll(TreePrograms(p)).Some?
    ensures forall addrs, entryChal, trChal | SortedAs(addrs, SetupAll(TreePrograms(p)).value.subtraces) ::
              AllAccepted(TreePrograms(p), addrs, entryChal, trChal) <==> RootOf(p.leaves) == Some(p.expected)
  {
    hide RunMemAll, SetupAll, SortedAs, AllAccepted, RootOf, TreeNode, Tracks, Holds, SameWires, CircuitOps;
    var progs := TreePrograms(p);
    CircuitRuns(p, 2 * Pow2(p.m));
    RootIsTreeNode(p.leaves, p.m);
    TreeNamesInjective();
    RunMemAllRenamed(TreeWireName, CircuitOps(p, 2 * Pow2(p.m)));
    SetupAllIsMemory(progs);
    forall addrs, entryChal, trChal | SortedAs(addrs, SetupAll(progs).value.subtraces)
      ensures AllAccepted(progs, addrs, entryChal, trChal) <==> RootOf(p.leaves) == Some(p.expected)
    {
      ChainDecidesChecks(progs, addrs, entryChal, trChal);
    }
  }
}
