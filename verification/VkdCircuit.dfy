/** The key directory's circuit: what each primitive does with its portal manager, and the
    proof that the distributed circuit accepts exactly the logs the direct verifier does. */
module VkdCircuit {
  import opened Field
  import opened Sequences
  import opened Bits
  import opened MerklePath
  import opened SparseTree
  import opened KeyDirectory
  import opened PortalProgram
  import opened PortalMemory
  import opened VkdNames
  import opened VkdCompiler
  import opened VkdExecution

  // ------------------------------------------------------------------- position parts

  /** A part of a user's position as the circuit builds it: from the bits of the hash. */
  function Limb(username: Username, i: Part): F {
    Red(FromBits(PathSegment(ByteBits(Hash(username))[..DEPTH], i)))
  }

  /** The same part as the coordinator builds it: from the bytes of the hash. */
  function NativeLimb(username: Username, i: Part): F {
    BytesOfPart(i);
    var n := PathLength() / 8;
    Red(LeValue(Hash(username)[n * i..n * i + n]))
  }

  lemma BytesOfPart(i: Part)
    ensures var n := PathLength() / 8;
            8 * n == PathLength() && 0 <= n * i <= n * i + n <= 32 && 8 * (n * i) == PathLength() * i
  {
    var n := PathLength() / 8;
    assert 8 * n == PathLength() && n <= 8;
    assert i == 0 || i == 1 || i == 2 || i == 3;
  }

  lemma ValueOfBytes(bytes: seq<Byte>)
    ensures FromBits(ByteBits(bytes)) == LeValue(bytes)
  {
    LeValueBits(bytes);
    LeValueBound(bytes);
    NumberRoundTrip(LeValue(bytes), 8 * |bytes|);
  }

  /** Bits and bytes give the same part. */
  lemma LimbsAgree(username: Username, i: Part)
    ensures Limb(username, i) == NativeLimb(username, i)
  {
    hide ByteBits, FromBits, LeValue;
    BytesOfPart(i);
    SegmentEnds(i);
    var n, h := PathLength() / 8, Hash(username);
    ByteBitsSlice(h, n * i, n * i + n);
    ValueOfBytes(h[n * i..n * i + n]);
    var from := PathLength() * i;
    assert ByteBits(h)[..DEPTH][from..from + PathLength()] == ByteBits(h)[from..from + PathLength()];
  }

  lemma {:induction false} Pow2Monotone(m: nat, n: nat)
    requires m <= n
    ensures Pow2(m) <= Pow2(n)
  {
    if m < n {
      Pow2Monotone(m, n - 1);
    }
  }

  lemma PartFits(bits: seq<bool>)
    requires DigestsFit() && |bits| == PathLength()
    ensures Red(FromBits(bits)) == FromBits(bits)
  {
    hide FromBits;
    Pow2Monotone(|bits|, 216);
    Pow2Of216(216);
    DivisionUnique(FromBits(bits), 0, FromBits(bits));
  }

  lemma FlipSegment(bits: seq<bool>, i: Part)
    requires |bits| == DEPTH
    ensures PathSegment(Flip(bits), i) == Flip(PathSegment(bits, i))
  {
    SegmentEnds(i);
  }

  lemma IndexBitsOfHash(username: Username)
    ensures IndexBits(username) == Flip(ByteBits(Hash(username))[..DEPTH])
  {
    hide ByteBits, LeValue, BitVector, LeBits, Flip;
    var h := Hash(username);
    BitVectorFlips(LeValue(h[..DEPTH / 8]), DEPTH);
    LeValueBits(h[..DEPTH / 8]);
    ByteBitsSlice(h, 0, DEPTH / 8);
    assert h[0..DEPTH / 8] == h[..DEPTH / 8];
  }

  /** The bits the circuit takes from a part are the index bits, read the other way. */
  lemma LimbBits(username: Username, i: Part)
    requires DigestsFit()
    ensures LeBits(Limb(username, i), PathLength()) == Flip(PathSegment(IndexBits(username), i))
  {
    hide ByteBits, FromBits, LeBits, Flip, PathSegment, IndexBits;
    var bits := ByteBits(Hash(username))[..DEPTH];
    var part := PathSegment(bits, i);
    PartFits(part);
    BitsRoundTrip(part);
    IndexBitsOfHash(username);
    FlipSegment(bits, i);
  }

  // ------------------------------------------------------------------- the primitives

  predicate LastTwoEqual(seen: seq<F>) {
    |seen| >= 2 && seen[|seen| - 2] == seen[|seen| - 1]
  }

  /** The segment's root from the two values read last: a node and a position part. */
  function CircuitRoot(seen: seq<F>, path: Piece): F {
    if |seen| < 2 then 0
    else ComputeRootVar(seen[|seen| - 2], LeBits(seen[|seen| - 1], PathLength()), ToFields(path))
  }

  function PrimitiveOps(pp: PublicParams, p: Primitive): seq<Op<Wire>> {
    match p
    case Padding => []
    case WritePublicParameters =>
      [Set(Node(InitialRoot), _ => ToField(pp.initialRoot)),
       Set(Node(FinalRoot), _ => ToField(pp.finalRoot)),
       Set(Node(NullLeaf), _ => ToField(pp.nullLeaf))]
    case Equality(a, b) =>
      [Get(Node(a)), Get(Node(b)), Enforce((seen: seq<F>) => LastTwoEqual(seen))]
    case GetIndex(leaf) =>
      var u := UserOf(leaf);
      [Set(IndexPart(0, u), _ => Limb(u, 0)), Set(IndexPart(1, u), _ => Limb(u, 1)),
       Set(IndexPart(2, u), _ => Limb(u, 2)), Set(IndexPart(3, u), _ => Limb(u, 3))]
    case HashLeafOf(leaf) =>
      [Set(Node(LeafHash(leaf)), _ => ToField(HashLeaf(leaf)))]
    case ComputePath(initial, final, index, path) =>
      [Get(Node(initial)), Get(IndexPart(index.indicator, UserOf(index.leaf))),
       Set(Node(final), (seen: seq<F>) => CircuitRoot(seen, path))]
  }

  function SubcircuitOps(pp: PublicParams, ps: SubCircuit): seq<Op<Wire>> {
    if ps == [] then [] else PrimitiveOps(pp, ps[0]) + SubcircuitOps(pp, ps[1..])
  }

  function CircuitOps(pp: PublicParams, cs: seq<SubCircuit>): (r: seq<seq<Op<Wire>>>)
    ensures |r| == |cs|
  {
    if cs == [] then [] else CircuitOps(pp, cs[..|cs| - 1]) + [SubcircuitOps(pp, cs[|cs| - 1])]
  }

  // ------------------------------------------------------------------- refinement

  /** What wire `w` should hold when the store is `st`. */
  function WireValue(st: Store, w: Wire): Option<F> {
    match w
    case Node(a) => if a in st.nodes then Some(ToField(st.nodes[a])) else None
    case IndexPart(i, u) => if i < SPLIT_FACTOR && u in st.indexed then Some(Limb(u, i)) else None
  }

  /** The portal memory holds exactly the store. */
  ghost predicate Holds(st: Store, mem: map<Wire, F>) {
    forall w :: if w in mem then WireValue(st, w) == Some(mem[w]) else WireValue(st, w) == None
  }

  /** `q` is where the memory run stands once the primitive has stepped to `r`. */
  ghost predicate Follows(r: Option<Run>, before: Option<MemRun<Wire>>, rest: seq<Op<Wire>>, mem: map<Wire, F>,
                          seen: seq<F>) {
    match r
    case None => before == None
    case Some(run) => Holds(run.store, mem) && before == AndChecks(run.checks, RunMem(rest, mem, seen))
  }

  lemma SetsWire(st: Store, st': Store, mem: map<Wire, F>, w: Wire, v: F)
    requires Holds(st, mem) && WireValue(st', w) == Some(v)
    requires forall x | x != w :: WireValue(st', x) == WireValue(st, x)
    ensures Holds(st', mem[w := v])
  {
    hide WireValue;
  }

  lemma PutsNode(st: Store, mem: map<Wire, F>, a: NodeAddress, d: Digest)
    requires Holds(st, mem)
    ensures Holds(Put(st, a, d), mem[Node(a) := ToField(d)])
  {
    hide ToField;
    SetsWire(st, Put(st, a, d), mem, Node(a), ToField(d));
  }

  lemma PublicParametersRefine(pp: PublicParams, rest: seq<Op<Wire>>, st: Store, mem: map<Wire, F>, seen: seq<F>)
    returns (mem': map<Wire, F>)
    requires Holds(st, mem)
    ensures Follows(StepPrimitive(pp, WritePublicParameters, st),
                    RunMem(PrimitiveOps(pp, WritePublicParameters) + rest, mem, seen), rest, mem', seen)
  {
    hide ToField, RunMem;
    var ops := PrimitiveOps(pp, WritePublicParameters);
    assert ops + rest == [ops[0]] + ([ops[1]] + ([ops[2]] + rest));
    var mem1 := mem[Node(InitialRoot) := ToField(pp.initialRoot)];
    var mem2 := mem1[Node(FinalRoot) := ToField(pp.finalRoot)];
    mem' := mem2[Node(NullLeaf) := ToField(pp.nullLeaf)];
    RunSet(Node(InitialRoot), ops[0].value, [ops[1]] + ([ops[2]] + rest), mem, seen);
    RunSet(Node(FinalRoot), ops[1].value, [ops[2]] + rest, mem1, seen);
    RunSet(Node(NullLeaf), ops[2].value, rest, mem2, seen);
    PutsNode(st, mem, InitialRoot, pp.initialRoot);
    PutsNode(Put(st, InitialRoot, pp.initialRoot), mem1, FinalRoot, pp.finalRoot);
    PutsNode(Put(Put(st, InitialRoot, pp.initialRoot), FinalRoot, pp.finalRoot), mem2, NullLeaf, pp.nullLeaf);
  }

  lemma EqualityRefines(pp: PublicParams, p: Primitive, rest: seq<Op<Wire>>, st: Store, mem: map<Wire, F>, seen: seq<F>)
    returns (seen': seq<F>)
    requires Holds(st, mem) && p.Equality? && DigestsFit()
    ensures Follows(StepPrimitive(pp, p, st), RunMem(PrimitiveOps(pp, p) + rest, mem, seen), rest, mem, seen')
  {
    hide ToField, RunMem;
    var ops := PrimitiveOps(pp, p);
    var a, b := Node(p.addr1), Node(p.addr2);
    assert ops + rest == [ops[0]] + ([ops[1]] + ([ops[2]] + rest));
    RunGet(a, [ops[1]] + ([ops[2]] + rest), mem, seen);
    seen' := seen;
    if a in mem {
      RunGet(b, [ops[2]] + rest, mem, seen + [mem[a]]);
      if b in mem {
        seen' := seen + [mem[a]] + [mem[b]];
        RunEnforce(ops[2].check, rest, mem, seen');
        DigestRoundTrip(st.nodes[p.addr1]);
        DigestRoundTrip(st.nodes[p.addr2]);
      }
    }
  }

  lemma HashLeafRefines(pp: PublicParams, p: Primitive, rest: seq<Op<Wire>>, st: Store, mem: map<Wire, F>, seen: seq<F>)
    returns (mem': map<Wire, F>)
    requires Holds(st, mem) && p.HashLeafOf?
    ensures Follows(StepPrimitive(pp, p, st), RunMem(PrimitiveOps(pp, p) + rest, mem, seen), rest, mem', seen)
  {
    hide ToField, RunMem, HashLeaf;
    var ops := PrimitiveOps(pp, p);
    mem' := mem[Node(LeafHash(p.leaf)) := ToField(HashLeaf(p.leaf))];
    RunSet(Node(LeafHash(p.leaf)), ops[0].value, rest, mem, seen);
    PutsNode(st, mem, LeafHash(p.leaf), HashLeaf(p.leaf));
  }

  lemma SegmentRefines(username: Username, i: Part, node: Digest, path: Piece, seen: seq<F>)
    requires DigestsFit()
    ensures CircuitRoot(seen + [ToField(node)] + [Limb(username, i)], path)
         == ToField(SegmentRoot(node, username, i, path))
  {
    hide Limb, ComputeRootVar, ComputeRoot, IndexBits, PathSegment, ToField, Flip, ToFields;
    LimbBits(username, i);
    CircuitRootIsNativeRoot(node, PathSegment(IndexBits(username), i), path);
  }

  lemma ComputePathRefines(pp: PublicParams, p: Primitive, rest: seq<Op<Wire>>, st: Store, mem: map<Wire, F>,
                           seen: seq<F>)
    returns (mem': map<Wire, F>, seen': seq<F>)
    requires Holds(st, mem) && p.ComputePath? && DigestsFit()
    ensures Follows(StepPrimitive(pp, p, st), RunMem(PrimitiveOps(pp, p) + rest, mem, seen), rest, mem', seen')
  {
    hide ToField, RunMem, Limb, CircuitRoot, SegmentRoot;
    var ops := PrimitiveOps(pp, p);
    var username, i := UserOf(p.index.leaf), p.index.indicator;
    var a, b, c := Node(p.initial), IndexPart(i, username), Node(p.final);
    assert ops + rest == [ops[0]] + ([ops[1]] + ([ops[2]] + rest));
    RunGet(a, [ops[1]] + ([ops[2]] + rest), mem, seen);
    mem', seen' := mem, seen;
    if a in mem {
      RunGet(b, [ops[2]] + rest, mem, seen + [mem[a]]);
      if b in mem {
        var node := st.nodes[p.initial];
        var root := SegmentRoot(node, username, i, p.path);
        seen' := seen + [mem[a]] + [mem[b]];
        SegmentRefines(username, i, node, p.path, seen);
        RunSet(c, ops[2].value, rest, mem, seen');
        mem' := mem[c := ToField(root)];
        PutsNode(st, mem, p.final, root);
      }
    }
  }

  lemma GetIndexRefines(pp: PublicParams, p: Primitive, rest: seq<Op<Wire>>, st: Store, mem: map<Wire, F>, seen: seq<F>)
    returns (mem': map<Wire, F>)
    requires Holds(st, mem) && p.GetIndex?
    ensures Follows(StepPrimitive(pp, p, st), RunMem(PrimitiveOps(pp, p) + rest, mem, seen), rest, mem', seen)
  {
    hide RunMem, Limb;
    var ops := PrimitiveOps(pp, p);
    var u := UserOf(p.leaf);
    assert ops + rest == [ops[0]] + ([ops[1]] + ([ops[2]] + ([ops[3]] + rest)));
    var mem1 := mem[IndexPart(0, u) := Limb(u, 0)];
    var mem2 := mem1[IndexPart(1, u) := Limb(u, 1)];
    var mem3 := mem2[IndexPart(2, u) := Limb(u, 2)];
    mem' := mem3[IndexPart(3, u) := Limb(u, 3)];
    RunSet(IndexPart(0, u), ops[0].value, [ops[1]] + ([ops[2]] + ([ops[3]] + rest)), mem, seen);
    RunSet(IndexPart(1, u), ops[1].value, [ops[2]] + ([ops[3]] + rest), mem1, seen);
    RunSet(IndexPart(2, u), ops[2].value, [ops[3]] + rest, mem2, seen);
    RunSet(IndexPart(3, u), ops[3].value, rest, mem3, seen);
    assert IndexPart(0, u) in mem <==> u in st.indexed;
    if u !in st.indexed {
      IndexedWires(st, mem, u);
    }
  }

  lemma IndexedWires(st: Store, mem: map<Wire, F>, u: Username)
    requires Holds(st, mem) && u !in st.indexed
    ensures forall i :: IndexPart(i, u) !in mem
    ensures Holds(st.(indexed := st.indexed + {u}),
                  mem[IndexPart(0, u) := Limb(u, 0)][IndexPart(1, u) := Limb(u, 1)]
                     [IndexPart(2, u) := Limb(u, 2)][IndexPart(3, u) := Limb(u, 3)])
  {
    hide Limb;
  }

  /** One primitive of the circuit does to the portal memory what it does to the store. */
  lemma PrimitiveRefines(pp: PublicParams, p: Primitive, rest: seq<Op<Wire>>, st: Store, mem: map<Wire, F>,
                         seen: seq<F>)
    returns (mem': map<Wire, F>, seen': seq<F>)
    requires Holds(st, mem) && DigestsFit()
    ensures Follows(StepPrimitive(pp, p, st), RunMem(PrimitiveOps(pp, p) + rest, mem, seen), rest, mem', seen')
  {
    mem', seen' := mem, seen;
    match p {
      case Padding => assert [] + rest == rest;
      case WritePublicParameters => mem' := PublicParametersRefine(pp, rest, st, mem, seen);
      case Equality(_, _) => seen' := EqualityRefines(pp, p, rest, st, mem, seen);
      case GetIndex(_) => mem' := GetIndexRefines(pp, p, rest, st, mem, seen);
      case HashLeafOf(_) => mem' := HashLeafRefines(pp, p, rest, st, mem, seen);
      case ComputePath(_, _, _, _) => mem', seen' := ComputePathRefines(pp, p, rest, st, mem, seen);
    }
  }

  /** The memory run and the store run end alike. */
  ghost predicate SameOutcome(r: Option<Run>, q: Option<MemRun<Wire>>) {
    && (r.Some? <==> q.Some?)
    && (r.Some? ==> Holds(r.value.store, q.value.mem) && r.value.checks == q.value.checks)
  }

  lemma {:induction false} SubcircuitRefines(pp: PublicParams, ps: SubCircuit, st: Store, mem: map<Wire, F>,
                                             seen: seq<F>)
    requires Holds(st, mem) && DigestsFit()
    ensures SameOutcome(RunPrimitives(pp, ps, st), RunMem(SubcircuitOps(pp, ps), mem, seen))
    decreases |ps|
  {
    hide Holds, StepPrimitive, PrimitiveOps;
    if ps != [] {
      var first := StepPrimitive(pp, ps[0], st);
      var mem', seen' := PrimitiveRefines(pp, ps[0], SubcircuitOps(pp, ps[1..]), st, mem, seen);
      if first.Some? {
        SubcircuitRefines(pp, ps[1..], first.value.store, mem', seen');
      }
    }
  }

  /** Subcircuit by subcircuit, over one shared memory. */
  lemma {:induction false} CircuitRefines(pp: PublicParams, cs: seq<SubCircuit>)
    requires DigestsFit()
    ensures SameOutcome(RunPrimitives(pp, Flatten(cs), EmptyStore), RunMemAll(CircuitOps(pp, cs), map[]))
  {
    hide Holds, SubcircuitOps, RunMem;
    if cs == [] {
      EmptyHolds();
    } else {
      var n := |cs| - 1;
      CircuitRefines(pp, cs[..n]);
      RunAppend(pp, Flatten(cs[..n]), cs[n], EmptyStore);
      var r, q := RunPrimitives(pp, Flatten(cs[..n]), EmptyStore), RunMemAll(CircuitOps(pp, cs[..n]), map[]);
      hide RunPrimitives;
      if r.Some? {
        SubcircuitRefines(pp, cs[n], r.value.store, q.value.mem, []);
      }
    }
  }

  lemma EmptyHolds()
    ensures Holds(EmptyStore, map[])
  {}
}
