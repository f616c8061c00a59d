/** The compiler from an update log to primitive subcircuits, and the meaning of its output
    over a store of tree nodes: running it is verifying the log. */
module VkdCompiler {
  import opened Sequences
  import opened Bits
  import opened MerklePath
  import opened SparseTree
  import opened KeyDirectory
  import opened VkdNames

  datatype Primitive =
    | Equality(addr1: NodeAddress, addr2: NodeAddress)
    | GetIndex(leaf: UserLeaf)
    | ComputePath(initial: NodeAddress, final: NodeAddress, index: IndexAddress, path: Piece)
    | HashLeafOf(leaf: UserLeaf)
    | Padding
    | WritePublicParameters

  /** The wire name uses only the user name at the front of the leaf. */
  datatype IndexAddress = IndexAddress(indicator: Part, leaf: UserLeaf)

  type Part = i: nat | i < SPLIT_FACTOR

  /** One segment of an authentication path. */
  type Piece = s: seq<Digest> | |s| == PathLength() witness NoSiblings(PathLength())

  type SubCircuit = seq<Primitive>

  const SPLIT_FACTOR: nat := 4

  function PathLength(): (r: nat)
    ensures r * SPLIT_FACTOR == DEPTH && r % 8 == 0
  {
    DEPTH / SPLIT_FACTOR
  }

  // -------------------------------------------------------------------- the layout

  function PreviousRoot(k: nat): NodeAddress {
    if k == 0 then InitialRoot else PathRoot(1, k - 1)
  }

  /** Where segment `i` of a path reads its node and where it puts the result. */
  function SegmentInput(k: nat, pathId: nat, initial: NodeAddress, i: nat): NodeAddress {
    if i == 0 then initial else IntermediateRoot(i - 1, pathId, k)
  }

  function SegmentOutput(k: nat, pathId: nat, i: nat): NodeAddress {
    if i == SPLIT_FACTOR - 1 then PathRoot(pathId, k) else IntermediateRoot(i, pathId, k)
  }

  function PathSegment<T>(path: seq<T>, i: Part): (r: seq<T>)
    requires |path| == DEPTH
    ensures |r| == PathLength()
  {
    SegmentEnds(i);
    path[PathLength() * i..PathLength() * i + PathLength()]
  }

  lemma SegmentEnds(i: Part)
    ensures 0 <= PathLength() * i <= PathLength() * i + PathLength() <= DEPTH
  {}

  function Segment(k: nat, u: Update, pathId: nat, initial: NodeAddress, leaf: UserLeaf, i: Part): Primitive {
    ComputePath(SegmentInput(k, pathId, initial, i), SegmentOutput(k, pathId, i), IndexAddress(i, leaf),
                PathSegment(u.path, i))
  }

  /** The leaf an update starts from, and the one whose user name its index wires carry. */
  function IndexedLeaf(u: Update): UserLeaf {
    match u
    case Rekey(username, counter, key1, _, _) => Concat(username, key1, counter)
    case Append(username, key, _) => Concat(username, key, 0)
  }

  /** The eight subcircuits of update `k`. */
  function CompileUpdate(k: nat, u: Update): (r: seq<SubCircuit>)
    ensures |r| == 8
  {
    var leaf1, leaf2 := IndexedLeaf(u), NewLeaf(u);
    var same := Equality(PathRoot(0, k), PreviousRoot(k));
    match u
    case Rekey(_, _, _, _, _) =>
      [[Segment(k, u, 0, LeafHash(leaf1), leaf1, 0)],
       [Segment(k, u, 0, LeafHash(leaf1), leaf1, 1)],
       [Segment(k, u, 0, LeafHash(leaf1), leaf1, 2)],
       [Segment(k, u, 0, LeafHash(leaf1), leaf1, 3)],
       [same, HashLeafOf(leaf2), Segment(k, u, 1, LeafHash(leaf2), leaf1, 0)],
       [Segment(k, u, 1, LeafHash(leaf2), leaf1, 1)],
       [Segment(k, u, 1, LeafHash(leaf2), leaf1, 2)],
       [Segment(k, u, 1, LeafHash(leaf2), leaf1, 3)]]
    case Append(_, _, _) =>
      [[HashLeafOf(leaf2), GetIndex(leaf2), Segment(k, u, 0, NullLeaf, leaf2, 0)],
       [Segment(k, u, 0, NullLeaf, leaf2, 1)],
       [Segment(k, u, 0, NullLeaf, leaf2, 2)],
       [Segment(k, u, 0, NullLeaf, leaf2, 3), same],
       [Segment(k, u, 1, LeafHash(leaf2), leaf2, 0)],
       [Segment(k, u, 1, LeafHash(leaf2), leaf2, 1)],
       [Segment(k, u, 1, LeafHash(leaf2), leaf2, 2)],
       [Segment(k, u, 1, LeafHash(leaf2), leaf2, 3)]]
  }

  function CompileUpdates(updates: seq<Update>): (r: seq<SubCircuit>)
    ensures |r| == 8 * |updates|
  {
    if updates == [] then []
    else
      var n := |updates| - 1;
      CompileUpdates(updates[..n]) + CompileUpdate(n, updates[n])
  }

  const Prologue: seq<SubCircuit> :=
    [[Padding], [Padding], [Padding], [Padding], [Padding], [Padding], [WritePublicParameters]]

  function Epilogue(n: nat): seq<SubCircuit> {
    [[Equality(FinalRoot, PreviousRoot(n))]]
  }

  /** The whole circuit: two times four subcircuits besides eight per update. */
  function Compile(updates: seq<Update>): (r: seq<SubCircuit>)
    ensures |r| == 8 + 8 * |updates|
  {
    Prologue + CompileUpdates(updates) + Epilogue(|updates|)
  }

  // ------------------------------------------------------------ the compiler's loops

  /** The address pairs of the segments of one path. */
  method GetNodeAddresses(k: nat, pathId: nat, initial: NodeAddress) returns (res: seq<(NodeAddress, NodeAddress)>)
    ensures |res| == SPLIT_FACTOR
    ensures forall i | 0 <= i < SPLIT_FACTOR ::
              res[i] == (SegmentInput(k, pathId, initial, i), SegmentOutput(k, pathId, i))
  {
    res := [];
    for i := 0 to SPLIT_FACTOR
      invariant |res| == i
      invariant forall j | 0 <= j < i :: res[j] == (SegmentInput(k, pathId, initial, j), SegmentOutput(k, pathId, j))
    {
      if i == 0 {
        res := res + [(initial, IntermediateRoot(i, pathId, k))];
      } else if i == SPLIT_FACTOR - 1 {
        res := res + [(IntermediateRoot(i - 1, pathId, k), PathRoot(pathId, k))];
      } else {
        res := res + [(IntermediateRoot(i - 1, pathId, k), IntermediateRoot(i, pathId, k))];
      }
    }
  }

  method SplitPath(path: Path) returns (pieces: seq<seq<Digest>>)
    ensures |pieces| == SPLIT_FACTOR
    ensures forall i | 0 <= i < SPLIT_FACTOR :: pieces[i] == PathSegment(path, i)
  {
    var r := Split(path, SPLIT_FACTOR);
    pieces := r.value;
    forall i | 0 <= i < SPLIT_FACTOR ensures pieces[i] == PathSegment(path, i) {
      EqualPieces(pieces, PathLength(), i);
    }
  }

  /** One `ComputePath` primitive, as the loop bodies build it. */
  method BuildSegment(k: nat, u: Update, pathId: nat, initial: NodeAddress, leaf: UserLeaf, i: Part)
    returns (op: Primitive)
    ensures op == Segment(k, u, pathId, initial, leaf, i)
  {
    var nodes := GetNodeAddresses(k, pathId, initial);
    var pieces := SplitPath(u.path);
    op := ComputePath(nodes[i].0, nodes[i].1, IndexAddress(i, leaf), pieces[i]);
  }

  method BuildUpdate(k: nat, u: Update) returns (subcircuits: seq<SubCircuit>)
    ensures subcircuits == CompileUpdate(k, u)
  {
    hide Segment, Concat, SegmentInput, SegmentOutput;
    subcircuits := [];
    ghost var want := CompileUpdate(k, u);
    match u {
      case Rekey(username, counter, key1, _, key2) =>
        var leaf1 := Concat(username, key1, counter);
        for i := 0 to SPLIT_FACTOR
          invariant subcircuits == want[..i]
        {
          var op := BuildSegment(k, u, 0, LeafHash(leaf1), leaf1, i);
          subcircuits := subcircuits + [[op]];
        }
        var leaf2 := Concat(username, key2, counter + 1);
        var c := [Equality(PathRoot(0, k), PreviousRoot(k)), HashLeafOf(leaf2)];
        for i := 0 to SPLIT_FACTOR
          invariant subcircuits == want[..4 + i]
        {
          var op := BuildSegment(k, u, 1, LeafHash(leaf2), leaf1, i);
          if i == 0 {
            assert c + [op] == want[4];
            subcircuits := subcircuits + [c + [op]];
          } else {
            subcircuits := subcircuits + [[op]];
          }
        }
      case Append(username, key, _) =>
        var leaf := Concat(username, key, 0);
        var c := [HashLeafOf(leaf), GetIndex(leaf)];
        var last: SubCircuit := [];
        for i := 0 to SPLIT_FACTOR
          invariant subcircuits == want[..if i < 4 then i else 3]
          invariant i == 4 ==> last == [Segment(k, u, 0, NullLeaf, leaf, 3)]
        {
          var op := BuildSegment(k, u, 0, NullLeaf, leaf, i);
          if i == 0 {
            assert c + [op] == want[0];
            subcircuits := subcircuits + [c + [op]];
          } else if i == SPLIT_FACTOR - 1 {
            last := [op];
          } else {
            subcircuits := subcircuits + [[op]];
          }
        }
        last := last + [Equality(PathRoot(0, k), PreviousRoot(k))];
        assert last == want[3];
        subcircuits := subcircuits + [last];
        for i := 0 to SPLIT_FACTOR
          invariant subcircuits == want[..4 + i]
        {
          var op := BuildSegment(k, u, 1, LeafHash(leaf), leaf, i);
          subcircuits := subcircuits + [[op]];
        }
    }
  }

  /** `None` on an empty log, where `updates.len() - 1` underflows. */
  method CompileLog(updates: seq<Update>) returns (r: Option<seq<SubCircuit>>)
    ensures r == if updates == [] then None else Some(Compile(updates))
  {
    var subcircuits: seq<SubCircuit> := [];
    for i := 0 to 6
      invariant subcircuits == Prologue[..i]
    {
      subcircuits := subcircuits + [[Padding]];
    }
    subcircuits := subcircuits + [[WritePublicParameters]];
    for k := 0 to |updates|
      invariant subcircuits == Prologue + CompileUpdates(updates[..k])
    {
      var eight := BuildUpdate(k, updates[k]);
      assert updates[..k + 1][..k] == updates[..k];
      subcircuits := subcircuits + eight;
    }
    assert updates[..|updates|] == updates;
    if updates == [] {
      return None;
    }
    r := Some(subcircuits + [[Equality(FinalRoot, PreviousRoot(|updates|))]]);
  }
}
