/** The coordinator's quick way of collecting the key directory's portal trace: it computes
    on plain values and never builds the circuit, yet records the circuit's own trace. */
module VkdTrace {
  import opened Field
  import opened Sequences
  import opened Bits
  import opened Transcript
  import opened PortalProgram
  import opened RomPortal
  import opened PortalMemory
  import opened MerklePath
  import opened SparseTree
  import opened KeyDirectory
  import opened VkdNames
  import opened VkdCompiler
  import opened VkdExecution
  import opened VkdCircuit
  import opened VkdAcceptance

  /** The named portal operations of one primitive, and of a subcircuit. */
  function NamedOps(pp: PublicParams, p: Primitive): seq<PortalOp> {
    RenameOps(WireName, PrimitiveOps(pp, p))
  }

  function NamedSubcircuit(pp: PublicParams, ps: SubCircuit): seq<PortalOp> {
    RenameOps(WireName, SubcircuitOps(pp, ps))
  }

  /** The operations of a primitive, one by one. */
  lemma NamedAt(pp: PublicParams, p: Primitive)
    ensures |NamedOps(pp, p)| == |PrimitiveOps(pp, p)|
    ensures forall i | 0 <= i < |PrimitiveOps(pp, p)| ::
              NamedOps(pp, p)[i] == RenameOp(WireName, PrimitiveOps(pp, p)[i])
  {
    forall i | 0 <= i < |PrimitiveOps(pp, p)| ensures NamedOps(pp, p)[i] == RenameOp(WireName, PrimitiveOps(pp, p)[i]) {
      RenameAt(WireName, PrimitiveOps(pp, p), i);
    }
  }

  lemma NamedCons(pp: PublicParams, ps: SubCircuit)
    requires ps != []
    ensures NamedSubcircuit(pp, ps) == NamedOps(pp, ps[0]) + NamedSubcircuit(pp, ps[1..])
  {
    RenameAppend(WireName, PrimitiveOps(pp, ps[0]), SubcircuitOps(pp, ps[1..]));
    hide RenameOps, PrimitiveOps;
  }

  // --------------------------------------------------------- the coordinator's memories

  /** Plain node values and position bits, by wire name. */
  datatype Memories = Memories(nodes: map<string, Digest>, index: map<string, seq<bool>>)

  /** What a wire's portal entry must be, given the plain memories. */
  predicate MirroredAt(m: Memories, varMap: map<string, RomEntry>, w: Wire) {
    var name := WireName(w);
    match w
    case Node(_) =>
      (name in m.nodes <==> name in varMap) && (name in m.nodes ==> varMap[name].val == ToField(m.nodes[name]))
    case IndexPart(i, u) =>
      && (name in m.index <==> name in varMap)
      && (name in m.index ==>
            i < SPLIT_FACTOR && varMap[name].val == Limb(u, i) && m.index[name] == PathSegment(IndexBits(u), i))
  }

  ghost predicate Mirrors(m: Memories, varMap: map<string, RomEntry>) {
    forall w: Wire :: MirroredAt(m, varMap, w)
  }

  /** A wire other than the one just set is unaffected. */
  lemma OtherWire(m: Memories, m': Memories, varMap: map<string, RomEntry>, w: Wire, e: RomEntry, v: Wire)
    requires MirroredAt(m, varMap, v) && v != w
    requires forall n | n != WireName(w) :: n in m.nodes <==> n in m'.nodes
    requires forall n | n != WireName(w) && n in m.nodes :: m'.nodes[n] == m.nodes[n]
    requires forall n | n != WireName(w) :: n in m.index <==> n in m'.index
    requires forall n | n != WireName(w) && n in m.index :: m'.index[n] == m.index[n]
    ensures MirroredAt(m', varMap[WireName(w) := e], v)
  {
    if WireName(v) == WireName(w) {
      WireNamesDistinct(v, w);
    }
    hide WireName, Limb, IndexBits, PathSegment, ToField;
  }

  function PutNode(m: Memories, a: NodeAddress, d: Digest): Memories {
    m.(nodes := m.nodes[NodeName(a) := d])
  }

  lemma NodeMirrored(m: Memories, varMap: map<string, RomEntry>, a: NodeAddress, d: Digest, e: RomEntry)
    requires Mirrors(m, varMap) && e.val == ToField(d)
    ensures Mirrors(PutNode(m, a, d), varMap[NodeName(a) := e])
  {
    var m', varMap' := PutNode(m, a, d), varMap[NodeName(a) := e];
    assert WireName(Node(a)) == NodeName(a);
    hide NodeName, ToField;
    forall v: Wire ensures MirroredAt(m', varMap', v) {
      if v != Node(a) {
        OtherWire(m, m', varMap, Node(a), e, v);
      }
    }
  }

  lemma IndexMirrored(m: Memories, varMap: map<string, RomEntry>, i: Part, u: Username, bits: seq<bool>, e: RomEntry)
    requires Mirrors(m, varMap) && e.val == Limb(u, i) && bits == PathSegment(IndexBits(u), i)
    ensures Mirrors(m.(index := m.index[WireName(IndexPart(i, u)) := bits]), varMap[WireName(IndexPart(i, u)) := e])
  {
    hide WireName, Limb, PathSegment, IndexBits;
    var w := IndexPart(i, u);
    var m', varMap' := m.(index := m.index[WireName(w) := bits]), varMap[WireName(w) := e];
    forall v: Wire ensures MirroredAt(m', varMap', v) {
      if v != w {
        OtherWire(m, m', varMap, w, e, v);
      }
    }
  }

  // ------------------------------------------------------------- one wire at a time

  /** Records a node value and sets its wire. */
  method SetNode(pm: SetupRomPortalManager, m: Memories, a: NodeAddress, d: Digest) returns (ok: bool, m': Memories)
    requires Mirrors(m, pm.varMap)
    modifies pm
    ensures m' == PutNode(m, a, d)
    ensures match SetupSet(old(pm.State()), NodeName(a), ToField(d))
            case None => !ok
            case Some(s) => ok && pm.State() == s && Mirrors(m', pm.varMap)
  {
    hide NodeName, ToField;
    m' := PutNode(m, a, d);
    ghost var e := RomEntry(pm.nextVarAddr, ToField(d));
    NodeMirrored(m, pm.varMap, a, d, e);
    ok := pm.Set(NodeName(a), ToField(d));
  }

  /** Both readings of a user's position, in parts. */
  method SplitIndex(username: Username) returns (limbs: seq<F>, index: seq<seq<bool>>)
    ensures |limbs| == |index| == SPLIT_FACTOR
    ensures forall i: Part :: limbs[i] == NativeLimb(username, i)
    ensures forall i: Part :: index[i] == PathSegment(IndexBits(username), i)
  {
    hide LeValue, BitVector, NativeLimb, PathSegment;
    var bits := ToBitVector(Index(IndexOf(username), DEPTH));
    index := SplitVector(bits);
    var bytes := SplitBytes(username);
    limbs := [];
    for i := 0 to SPLIT_FACTOR
      invariant |limbs| == i
      invariant forall j: Part | j < i :: limbs[j] == NativeLimb(username, j)
    {
      limbs := limbs + [Red(LeValue(bytes[i]))];
    }
  }

  /** The first `DEPTH / 8` bytes of the hash in four pieces. */
  method SplitBytes(username: Username) returns (pieces: seq<seq<Byte>>)
    ensures |pieces| == SPLIT_FACTOR
    ensures forall i: Part :: Red(LeValue(pieces[i])) == NativeLimb(username, i)
  {
    hide LeValue;
    var h := Hash(username);
    BytesOfPart(0);
    var r := Split(h[..DEPTH / 8], SPLIT_FACTOR);
    pieces := r.value;
    forall i: Part ensures Red(LeValue(pieces[i])) == NativeLimb(username, i) {
      var n := PathLength() / 8;
      BytesOfPart(i);
      EqualPieces(pieces, n, i);
      SliceOfPrefix(h, DEPTH / 8, n * i, n * i + n);
    }
  }

  lemma SliceOfPrefix<T>(s: seq<T>, n: nat, i: nat, j: nat)
    requires i <= j <= n <= |s|
    ensures s[..n][i..j] == s[i..j]
  {}

  method SplitVector(bits: seq<bool>) returns (pieces: seq<seq<bool>>)
    requires |bits| == DEPTH
    ensures |pieces| == SPLIT_FACTOR
    ensures forall i: Part :: pieces[i] == PathSegment(bits, i)
  {
    var r := Split(bits, SPLIT_FACTOR);
    pieces := r.value;
    forall i: Part ensures pieces[i] == PathSegment(bits, i) {
      EqualPieces(pieces, PathLength(), i);
    }
  }

  // --------------------------------------------------------------- one primitive

  /** The run of `p`'s operations, then `rest`, from `s` has come to `s'`. */
  ghost predicate Traced(pp: PublicParams, p: Primitive, rest: seq<PortalOp>, s: SetupState, seen: seq<F>,
                         ok: bool, s': SetupState, seen': seq<F>)
  {
    RunSetup(NamedOps(pp, p) + rest, s, seen) == if ok then RunSetup(rest, s', seen') else None
  }

  method TracePublicParameters(pm: SetupRomPortalManager, pp: PublicParams, m: Memories, ghost rest: seq<PortalOp>,
                               ghost seen: seq<F>)
    returns (ok: bool, m': Memories)
    requires Mirrors(m, pm.varMap)
    modifies pm
    ensures Traced(pp, WritePublicParameters, rest, old(pm.State()), seen, ok, pm.State(), seen)
    ensures ok ==> Mirrors(m', pm.varMap)
  {
    ghost var ops := NamedOps(pp, WritePublicParameters);
    hide NamedOps, RunSetup, NodeName, ToField;
    NamedAt(pp, WritePublicParameters);
    assert ops[0..] == ops;
    OneStep(ops, 0, rest, pm.State(), seen);
    ok, m' := SetNode(pm, m, InitialRoot, pp.initialRoot);
    if ok {
      OneStep(ops, 1, rest, pm.State(), seen);
      ok, m' := SetNode(pm, m', FinalRoot, pp.finalRoot);
    }
    if ok {
      OneStep(ops, 2, rest, pm.State(), seen);
      ok, m' := SetNode(pm, m', NullLeaf, pp.nullLeaf);
    }
    NoStep(ops, 3, rest);
  }

  method TraceEquality(pm: SetupRomPortalManager, pp: PublicParams, m: Memories, p: Primitive,
                       ghost rest: seq<PortalOp>, ghost seen: seq<F>)
    returns (ok: bool, ghost seen': seq<F>)
    requires Mirrors(m, pm.varMap) && p.Equality?
    modifies pm
    ensures Traced(pp, p, rest, old(pm.State()), seen, ok, pm.State(), seen')
    ensures ok ==> Mirrors(m, pm.varMap)
  {
    ghost var ops := NamedOps(pp, p);
    hide NamedOps, RunSetup, NodeName;
    NamedAt(pp, p);
    assert ops[0..] == ops;
    seen' := seen;
    OneStep(ops, 0, rest, pm.State(), seen');
    var v := pm.Get(NodeName(p.addr1));
    if v.None? {
      return false, seen';
    }
    seen' := seen' + [v.value];
    OneStep(ops, 1, rest, pm.State(), seen');
    v := pm.Get(NodeName(p.addr2));
    if v.None? {
      return false, seen';
    }
    seen' := seen' + [v.value];
    OneStep(ops, 2, rest, pm.State(), seen');
    NoStep(ops, 3, rest);
    ok := true;
  }

  method TraceHashLeaf(pm: SetupRomPortalManager, pp: PublicParams, m: Memories, p: Primitive,
                       ghost rest: seq<PortalOp>, ghost seen: seq<F>)
    returns (ok: bool, m': Memories)
    requires Mirrors(m, pm.varMap) && p.HashLeafOf?
    modifies pm
    ensures Traced(pp, p, rest, old(pm.State()), seen, ok, pm.State(), seen)
    ensures ok ==> Mirrors(m', pm.varMap)
  {
    ghost var ops := NamedOps(pp, p);
    hide NamedOps, RunSetup, NodeName, ToField, HashLeaf;
    NamedAt(pp, p);
    assert ops[0..] == ops;
    OneStep(ops, 0, rest, pm.State(), seen);
    ok, m' := SetNode(pm, m, LeafHash(p.leaf), HashLeaf(p.leaf));
    NoStep(ops, 1, rest);
  }

  method TraceGetIndex(pm: SetupRomPortalManager, pp: PublicParams, m: Memories, p: Primitive,
                       ghost rest: seq<PortalOp>, ghost seen: seq<F>)
    returns (ok: bool, m': Memories)
    requires Mirrors(m, pm.varMap) && p.GetIndex?
    modifies pm
    ensures Traced(pp, p, rest, old(pm.State()), seen, ok, pm.State(), seen)
    ensures ok ==> Mirrors(m', pm.varMap)
  {
    ghost var ops := NamedOps(pp, p);
    var u := UserOf(p.leaf);
    var limbs, index := SplitIndex(u);
    NamedAt(pp, p);
    assert ops[0..] == ops;
    hide NamedOps, RunSetup, WireName, Limb, NativeLimb, IndexBits, PathSegment;
    m' := m;
    var i := 0;
    while i < SPLIT_FACTOR
      invariant 0 <= i <= SPLIT_FACTOR
      invariant Mirrors(m', pm.varMap)
      invariant RunSetup(ops + rest, old(pm.State()), seen) == RunSetup(ops[i..] + rest, pm.State(), seen)
    {
      OneStep(ops, i, rest, pm.State(), seen);
      LimbsAgree(u, i);
      PartOps(pp, p, i, seen);
      IndexMirrored(m', pm.varMap, i, u, index[i], RomEntry(pm.nextVarAddr, limbs[i]));
      m' := m'.(index := m'.index[WireName(IndexPart(i, u)) := index[i]]);
      ok := pm.Set(WireName(IndexPart(i, u)), limbs[i]);
      if !ok {
        return;
      }
      i := i + 1;
    }
    NoStep(ops, 4, rest);
    ok := true;
  }

  lemma PartOps(pp: PublicParams, p: Primitive, i: Part, seen: seq<F>)
    requires p.GetIndex?
    ensures var op := PrimitiveOps(pp, p)[i];
            op.Set? && op.name == IndexPart(i, UserOf(p.leaf)) && op.value(seen) == Limb(UserOf(p.leaf), i)
  {
    hide Limb;
    assert i == 0 || i == 1 || i == 2 || i == 3;
  }

  lemma PathOps(pp: PublicParams, p: Primitive, rest: seq<PortalOp>)
    requires p.ComputePath?
    ensures var ops := NamedOps(pp, p);
            && |ops| == 3 && ops[0..] == ops && ops[3..] + rest == rest
            && ops[0] == Get(NodeName(p.initial))
                 && ops[1] == Get(WireName(IndexPart(p.index.indicator, UserOf(p.index.leaf))))
            && ops[2].Set? && ops[2].name == NodeName(p.final)
                 && (forall seen :: ops[2].value(seen) == CircuitRoot(seen, p.path))
  {
    NamedAt(pp, p);
    assert WireName(Node(p.initial)) == NodeName(p.initial) && WireName(Node(p.final)) == NodeName(p.final);
    hide NodeName, CircuitRoot, NamedOps;
  }

  lemma PathWires(m: Memories, varMap: map<string, RomEntry>, p: Primitive)
    requires Mirrors(m, varMap) && p.ComputePath?
    ensures var name := NodeName(p.initial);
            (name in m.nodes <==> name in varMap) && (name in m.nodes ==> varMap[name].val == ToField(m.nodes[name]))
    ensures var (i, u) := (p.index.indicator, UserOf(p.index.leaf));
            var name := WireName(IndexPart(i, u));
            && (name in m.index <==> name in varMap)
            && (name in m.index ==> varMap[name].val == Limb(u, i) && m.index[name] == PathSegment(IndexBits(u), i))
  {
    assert MirroredAt(m, varMap, IndexPart(p.index.indicator, UserOf(p.index.leaf)));
    assert MirroredAt(m, varMap, Node(p.initial));
    assert WireName(Node(p.initial)) == NodeName(p.initial);
    hide NodeName, Limb, IndexBits, ToField;
  }

  method TraceComputePath(pm: SetupRomPortalManager, pp: PublicParams, m: Memories, p: Primitive,
                          ghost rest: seq<PortalOp>, ghost seen: seq<F>)
    returns (ok: bool, m': Memories, ghost seen': seq<F>)
    requires Mirrors(m, pm.varMap) && p.ComputePath? && DigestsFit()
    modifies pm
    ensures Traced(pp, p, rest, old(pm.State()), seen, ok, pm.State(), seen')
    ensures ok ==> Mirrors(m', pm.varMap)
  {
    hide NamedOps, RunSetup, WireName, NodeName, Limb, IndexBits, PathSegment, ComputeRoot, CircuitRoot, ToField,
         PrimitiveOps, Mirrors, MirroredAt;
    ghost var ops := NamedOps(pp, p);
    ghost var username, i := UserOf(p.index.leaf), p.index.indicator;
    var indexName := WireName(IndexPart(p.index.indicator, UserOf(p.index.leaf)));
    m', seen', ok := m, seen, false;
    PathOps(pp, p, rest);
    PathWires(m, pm.varMap, p);
    OneStep(ops, 0, rest, pm.State(), seen);
    if NodeName(p.initial) in m.nodes {
      var first := SetupGet(pm.State(), NodeName(p.initial));
      if first.Some? {
        OneStep(ops, 1, rest, first.value.1, seen + [first.value.0]);
      }
    }
    if indexName !in m.index || NodeName(p.initial) !in m.nodes {
      return;
    }
    var index := m.index[indexName];
    var initial := m.nodes[NodeName(p.initial)];
    var got := pm.Get(NodeName(p.initial));
    if got.None? {
      return;
    }
    seen' := seen' + [got.value];
    got := pm.Get(indexName);
    if got.None? {
      return;
    }
    seen' := seen' + [got.value];
    OneStep(ops, 2, rest, pm.State(), seen');
    SegmentRefines(username, i, initial, p.path, seen);
    var root := ComputeRootLoop(initial, index, p.path);
    ok, m' := SetNode(pm, m, p.final, root);
  }

  method TracePrimitive(pm: SetupRomPortalManager, pp: PublicParams, m: Memories, p: Primitive,
                        ghost rest: seq<PortalOp>, ghost seen: seq<F>)
    returns (ok: bool, m': Memories, ghost seen': seq<F>)
    requires Mirrors(m, pm.varMap) && DigestsFit()
    modifies pm
    ensures Traced(pp, p, rest, old(pm.State()), seen, ok, pm.State(), seen')
    ensures ok ==> Mirrors(m', pm.varMap)
  {
    m', seen' := m, seen;
    match p {
      case Padding =>
        NoStep([], 0, rest);
        ok := true;
      case WritePublicParameters => ok, m' := TracePublicParameters(pm, pp, m, rest, seen);
      case Equality(_, _) => ok, seen' := TraceEquality(pm, pp, m, p, rest, seen);
      case GetIndex(_) => ok, m' := TraceGetIndex(pm, pp, m, p, rest, seen);
      case HashLeafOf(_) => ok, m' := TraceHashLeaf(pm, pp, m, p, rest, seen);
      case ComputePath(_, _, _, _) => ok, m', seen' := TraceComputePath(pm, pp, m, p, rest, seen);
    }
  }

  /** One subcircuit's subtrace. */
  method TraceSubcircuit(pm: SetupRomPortalManager, pp: PublicParams, m: Memories, ps: SubCircuit)
    returns (ok: bool, m': Memories)
    requires Mirrors(m, pm.varMap) && DigestsFit()
    modifies pm
    ensures match RunSetup(NamedSubcircuit(pp, ps), old(pm.State()), [])
            case None => !ok
            case Some(res) => ok && pm.State() == res.0 && Mirrors(m', pm.varMap)
  {
    m' := m;
    ghost var seen: seq<F> := [];
    var j := 0;
    assert ps[0..] == ps;
    while j < |ps|
      invariant 0 <= j <= |ps|
      invariant Mirrors(m', pm.varMap)
      invariant RunSetup(NamedSubcircuit(pp, ps), old(pm.State()), [])
             == RunSetup(NamedSubcircuit(pp, ps[j..]), pm.State(), seen)
    {
      hide Mirrors, NamedSubcircuit, NamedOps, RunSetup;
      assert ps[j..][0] == ps[j] && ps[j..][1..] == ps[j + 1..];
      NamedCons(pp, ps[j..]);
      ok, m', seen := TracePrimitive(pm, pp, m', ps[j], NamedSubcircuit(pp, ps[j + 1..]), seen);
      if !ok {
        return;
      }
      j := j + 1;
    }
    assert ps[j..] == [];
    ok := true;
  }

  /** The whole trace, computed on plain values: the one the circuit itself would leave, and
      a panic exactly where the circuit would panic. */
  method GetPortalSubtraces(pp: PublicParams, updates: seq<Update>) returns (r: Option<seq<seq<RomEntry>>>)
    requires DigestsFit()
    ensures updates == [] ==> r == None
    ensures updates != [] ==>
              match SetupAll(CircuitPrograms(pp, updates))
              case None => r == None
              case Some(s) => r == Some(s.subtraces)
  {
    hide CircuitPrograms, NamedSubcircuit, RunSetup, Compile, SetupAll, Mirrors;
    var compiled := CompileLog(updates);
    if compiled.None? {
      return None;
    }
    var cs := compiled.value;
    ghost var progs := CircuitPrograms(pp, updates);
    SetupOfNothing(progs);
    NothingMirrored();
    var pm := new SetupRomPortalManager();
    var m := Memories(map[], map[]);
    var i := 0;
    while i < |cs|
      invariant 0 <= i <= |cs| == |progs|
      invariant Mirrors(m, pm.varMap)
      invariant SetupAll(progs[..i]) == Some(pm.State())
    {
      ProgramAt(pp, updates, i);
      SetupNext(progs, i);
      pm.StartSubtrace();
      var ok, m' := TraceSubcircuit(pm, pp, m, cs[i]);
      if !ok {
        SetupAllPrefix(progs, i + 1);
        return None;
      }
      m := m';
      i := i + 1;
    }
    assert progs[..i] == progs;
    r := Some(pm.subtraces);
  }

  lemma NothingMirrored()
    ensures Mirrors(Memories(map[], map[]), map[])
  {
    hide WireName;
  }

  lemma {:induction false} CircuitOpsAt(pp: PublicParams, cs: seq<SubCircuit>, i: nat)
    requires i < |cs|
    ensures CircuitOps(pp, cs)[i] == SubcircuitOps(pp, cs[i])
  {
    if i < |cs| - 1 {
      CircuitOpsAt(pp, cs[..|cs| - 1], i);
    }
  }

  lemma ProgramAt(pp: PublicParams, updates: seq<Update>, i: nat)
    requires i < |Compile(updates)|
    ensures CircuitPrograms(pp, updates)[i] == NamedSubcircuit(pp, Compile(updates)[i])
  {
    hide Compile, SubcircuitOps, RenameOps, CircuitOps;
    CircuitOpsAt(pp, Compile(updates), i);
  }
}
