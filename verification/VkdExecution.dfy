/** What a compiled log does when its primitives run over a store of tree nodes, and the
    compiler's correctness: the run exists exactly when the log is well wired, and its
    equality checks all hold exactly when the direct verifier accepts the log. */
module VkdExecution {
  import opened Sequences
  import opened Bits
  import opened MerklePath
  import opened SparseTree
  import opened KeyDirectory
  import opened VkdNames
  import opened VkdCompiler

  datatype PublicParams = PublicParams(initialRoot: Digest, finalRoot: Digest, nullLeaf: Digest)

  /** Known node values, and the users whose position parts are known. */
  datatype Store = Store(nodes: map<NodeAddress, Digest>, indexed: set<Username>)

  datatype Run = Run(store: Store, checks: bool)

  const EmptyStore := Store(map[], {})

  function UserOf(leaf: UserLeaf): Username { leaf[..32] }

  function Put(st: Store, a: NodeAddress, d: Digest): Store {
    st.(nodes := st.nodes[a := d])
  }

  /** One primitive; `None` when it reads an unknown wire or sets a known one. */
  function StepPrimitive(pp: PublicParams, p: Primitive, st: Store): Option<Run> {
    match p
    case Padding => Some(Run(st, true))
    case WritePublicParameters =>
      if InitialRoot in st.nodes || FinalRoot in st.nodes || NullLeaf in st.nodes then None
      else Some(Run(Put(Put(Put(st, InitialRoot, pp.initialRoot), FinalRoot, pp.finalRoot), NullLeaf, pp.nullLeaf),
                    true))
    case Equality(a, b) =>
      if a in st.nodes && b in st.nodes then Some(Run(st, st.nodes[a] == st.nodes[b])) else None
    case GetIndex(leaf) =>
      if UserOf(leaf) in st.indexed then None
      else Some(Run(st.(indexed := st.indexed + {UserOf(leaf)}), true))
    case HashLeafOf(leaf) =>
      if LeafHash(leaf) in st.nodes then None
      else Some(Run(Put(st, LeafHash(leaf), HashLeaf(leaf)), true))
    case ComputePath(initial, final, index, path) =>
      if initial in st.nodes && UserOf(index.leaf) in st.indexed && final !in st.nodes then
        Some(Run(Put(st, final, SegmentRoot(st.nodes[initial], UserOf(index.leaf), index.indicator, path)), true))
      else None
  }

  function SegmentRoot(node: Digest, username: Username, i: Part, path: Piece): Digest {
    ComputeRoot(node, PathSegment(IndexBits(username), i), path)
  }

  function RunPrimitives(pp: PublicParams, ps: seq<Primitive>, st: Store): Option<Run>
    decreases |ps|, 0
  {
    if ps == [] then Some(Run(st, true))
    else Then(pp, StepPrimitive(pp, ps[0], st), ps[1..])
  }

  /** Carrying on after a partial run. */
  function Then(pp: PublicParams, r: Option<Run>, ps: seq<Primitive>): Option<Run>
    decreases |ps|, 1
  {
    match r
    case None => None
    case Some(first) =>
      match RunPrimitives(pp, ps, first.store)
      case None => None
      case Some(rest) => Some(Run(rest.store, first.checks && rest.checks))
  }

  lemma {:induction false} RunAppend(pp: PublicParams, p: seq<Primitive>, q: seq<Primitive>, st: Store)
    ensures RunPrimitives(pp, p + q, st) == Then(pp, RunPrimitives(pp, p, st), q)
    decreases |p|
  {
    if p == [] {
      assert p + q == q;
    } else {
      assert (p + q)[1..] == p[1..] + q;
      var first := StepPrimitive(pp, p[0], st);
      if first.Some? {
        RunAppend(pp, p[1..], q, first.value.store);
      }
    }
  }

  lemma RunOne(pp: PublicParams, p: Primitive, q: seq<Primitive>, st: Store)
    ensures RunPrimitives(pp, [p] + q, st) == Then(pp, StepPrimitive(pp, p, st), q)
  {
    assert ([p] + q)[1..] == q;
  }

  // ---------------------------------------------------------------- one path, four segments

  function PathPrimitives(k: nat, u: Update, pathId: nat, initial: NodeAddress, leaf: UserLeaf): seq<Primitive> {
    [Segment(k, u, pathId, initial, leaf, 0)] + ([Segment(k, u, pathId, initial, leaf, 1)]
      + ([Segment(k, u, pathId, initial, leaf, 2)] + ([Segment(k, u, pathId, initial, leaf, 3)] + [])))
  }

  /** The node reached after the first `i + 1` segments. */
  function Partial(node: Digest, u: Update, i: Part): Digest {
    SegmentEnds(i);
    ComputeRoot(node, IndexBits(u.username)[..PathLength() * i + PathLength()],
                u.path[..PathLength() * i + PathLength()])
  }

  function AfterPath(st: Store, k: nat, u: Update, pathId: nat, node: Digest): Store {
    Put(Put(Put(Put(st, IntermediateRoot(0, pathId, k), Partial(node, u, 0)),
                IntermediateRoot(1, pathId, k), Partial(node, u, 1)),
            IntermediateRoot(2, pathId, k), Partial(node, u, 2)),
        PathRoot(pathId, k), ComputeRoot(node, IndexBits(u.username), u.path))
  }

  lemma PartialNext(node: Digest, u: Update, i: Part)
    ensures i > 0 ==> Partial(node, u, i) == SegmentRoot(Partial(node, u, i - 1), u.username, i, PathSegment(u.path, i))
    ensures i == 0 ==> Partial(node, u, i) == SegmentRoot(node, u.username, i, PathSegment(u.path, i))
    ensures i == SPLIT_FACTOR - 1 ==> Partial(node, u, i) == ComputeRoot(node, IndexBits(u.username), u.path)
  {
    hide ComputeRoot, IndexBits;
    SegmentEnds(i);
    var from, to := PathLength() * i, PathLength() * i + PathLength();
    var bits := IndexBits(u.username);
    if i > 0 {
      SegmentEnds(i - 1);
      assert from == PathLength() * (i - 1) + PathLength();
      RootOfSegments(node, bits[..from], bits[from..to], u.path[..from], u.path[from..to]);
      assert bits[..from] + bits[from..to] == bits[..to] && u.path[..from] + u.path[from..to] == u.path[..to];
    }
    if i == SPLIT_FACTOR - 1 {
      assert to == DEPTH && bits[..to] == bits && u.path[..to] == u.path;
    }
  }

  predicate PathUnset(st: Store, k: nat, pathId: nat) {
    && IntermediateRoot(0, pathId, k) !in st.nodes && IntermediateRoot(1, pathId, k) !in st.nodes
    && IntermediateRoot(2, pathId, k) !in st.nodes && PathRoot(pathId, k) !in st.nodes
  }

  /** The four segments of a path amount to the whole path. */
  lemma PathRuns(pp: PublicParams, st: Store, k: nat, u: Update, pathId: nat, initial: NodeAddress, leaf: UserLeaf)
    requires PathUnset(st, k, pathId) && UserOf(leaf) == u.username
    ensures RunPrimitives(pp, PathPrimitives(k, u, pathId, initial, leaf), st)
         == if initial in st.nodes && u.username in st.indexed
            then Some(Run(AfterPath(st, k, u, pathId, st.nodes[initial]), true)) else None
  {
    hide Partial, SegmentRoot, ComputeRoot, IndexBits;
    var s0, s1, s2, s3 := Segment(k, u, pathId, initial, leaf, 0), Segment(k, u, pathId, initial, leaf, 1),
                          Segment(k, u, pathId, initial, leaf, 2), Segment(k, u, pathId, initial, leaf, 3);
    RunOne(pp, s0, [s1] + ([s2] + ([s3] + [])), st);
    if initial in st.nodes && u.username in st.indexed {
      var node := st.nodes[initial];
      PartialNext(node, u, 0);
      PartialNext(node, u, 1);
      PartialNext(node, u, 2);
      PartialNext(node, u, 3);
      var st1 := Put(st, IntermediateRoot(0, pathId, k), Partial(node, u, 0));
      var st2 := Put(st1, IntermediateRoot(1, pathId, k), Partial(node, u, 1));
      var st3 := Put(st2, IntermediateRoot(2, pathId, k), Partial(node, u, 2));
      RunOne(pp, s1, [s2] + ([s3] + []), st1);
      RunOne(pp, s2, [s3] + [], st2);
      RunOne(pp, s3, [], st3);
    }
  }

  // -------------------------------------------------------------------- well-wired logs

  /** The leaves hashed by a log, and the users it appends. */
  function Hashed(updates: seq<Update>): set<UserLeaf> {
    if updates == [] then {} else Hashed(updates[..|updates| - 1]) + {NewLeaf(updates[|updates| - 1])}
  }

  function Appended(updates: seq<Update>): set<Username> {
    if updates == [] then {}
    else
      var n := |updates| - 1;
      Appended(updates[..n]) + (if updates[n].Append? then {updates[n].username} else {})
  }

  /** What an update needs of the log before it. */
  predicate Wired(before: seq<Update>, u: Update) {
    && NewLeaf(u) !in Hashed(before)
    && (u.Append? ==> u.username !in Appended(before))
    && (u.Rekey? ==> u.username in Appended(before) && IndexedLeaf(u) in Hashed(before))
  }

  /** Users are appended once, before being updated; every old leaf was hashed earlier and no
      leaf is hashed twice. */
  predicate WellWired(updates: seq<Update>) {
    updates == [] || (WellWired(updates[..|updates| - 1]) && Wired(updates[..|updates| - 1], updates[|updates| - 1]))
  }

  // ------------------------------------------------------------------------- one update

  lemma UserOfConcat(username: Username, key: Key, counter: Counter)
    ensures UserOf(Concat(username, key, counter)) == username
  {}

  function FlatUpdate(k: nat, u: Update): seq<Primitive> {
    var leaf1, leaf2 := IndexedLeaf(u), NewLeaf(u);
    var same := Equality(PathRoot(0, k), PreviousRoot(k));
    if u.Rekey? then
      PathPrimitives(k, u, 0, LeafHash(leaf1), leaf1)
        + ([same] + ([HashLeafOf(leaf2)] + PathPrimitives(k, u, 1, LeafHash(leaf2), leaf1)))
    else
      [HashLeafOf(leaf2)] + ([GetIndex(leaf2)] + (PathPrimitives(k, u, 0, NullLeaf, leaf2)
        + ([same] + PathPrimitives(k, u, 1, LeafHash(leaf2), leaf2))))
  }

  /** The store after a well-wired log: what is known, with the right values, and what is
      still unset for the updates to come. */
  ghost predicate Tracked(pp: PublicParams, updates: seq<Update>, st: Store) {
    var k := |updates|;
    && NullLeaf in st.nodes && st.nodes[NullLeaf] == pp.nullLeaf
    && FinalRoot in st.nodes && st.nodes[FinalRoot] == pp.finalRoot
    && PreviousRoot(k) in st.nodes && st.nodes[PreviousRoot(k)] == RunLog(pp.initialRoot, updates, pp.nullLeaf).1
    && st.indexed == Appended(updates)
    && (forall l: UserLeaf :: LeafHash(l) in st.nodes <==> l in Hashed(updates))
    && (forall l: UserLeaf | LeafHash(l) in st.nodes :: st.nodes[LeafHash(l)] == HashLeaf(l))
    && (forall p, j | j >= k :: PathRoot(p, j) !in st.nodes)
    && (forall i, p, j | j >= k :: IntermediateRoot(i, p, j) !in st.nodes)
  }

  /** The store once both paths of update `u` are computed. */
  function AfterUpdate(st: Store, k: nat, u: Update, oldNode: Digest): Store {
    var hashed := Put(st, LeafHash(NewLeaf(u)), HashLeaf(NewLeaf(u)));
    var st1 := if u.Rekey? then st else hashed.(indexed := st.indexed + {u.username});
    var st2 := AfterPath(st1, k, u, 0, oldNode);
    var st3 := if u.Rekey? then Put(st2, LeafHash(NewLeaf(u)), HashLeaf(NewLeaf(u))) else st2;
    AfterPath(st3, k, u, 1, HashLeaf(NewLeaf(u)))
  }

  lemma RekeyRuns(pp: PublicParams, before: seq<Update>, u: Update, st: Store)
    requires Tracked(pp, before, st) && u.Rekey?
    ensures RunPrimitives(pp, FlatUpdate(|before|, u), st)
         == if Wired(before, u)
            then Some(Run(AfterUpdate(st, |before|, u, OldNode(u, pp.nullLeaf)),
                          OldRoot(u, pp.nullLeaf) == RunLog(pp.initialRoot, before, pp.nullLeaf).1))
            else None
  {
    hide Concat, Partial, ComputeRoot, IndexBits, HashLeaf, RunLog, Hashed, Appended, RunPrimitives, PathPrimitives,
         ToField, NewRoot, UserOf;
    var k := |before|;
    var leaf1, leaf2 := IndexedLeaf(u), NewLeaf(u);
    var same := Equality(PathRoot(0, k), PreviousRoot(k));
    UserOfConcat(u.username, u.key1, u.counter);
    var path1 := PathPrimitives(k, u, 1, LeafHash(leaf2), leaf1);
    RunAppend(pp, PathPrimitives(k, u, 0, LeafHash(leaf1), leaf1), [same] + ([HashLeafOf(leaf2)] + path1), st);
    PathRuns(pp, st, k, u, 0, LeafHash(leaf1), leaf1);
    if LeafHash(leaf1) in st.nodes && u.username in st.indexed {
      var st1 := AfterPath(st, k, u, 0, HashLeaf(leaf1));
      RunOne(pp, same, [HashLeafOf(leaf2)] + path1, st1);
      RunOne(pp, HashLeafOf(leaf2), path1, st1);
      PathRuns(pp, Put(st1, LeafHash(leaf2), HashLeaf(leaf2)), k, u, 1, LeafHash(leaf2), leaf1);
    }
  }

  lemma AppendRuns(pp: PublicParams, before: seq<Update>, u: Update, st: Store)
    requires Tracked(pp, before, st) && u.Append?
    ensures RunPrimitives(pp, FlatUpdate(|before|, u), st)
         == if Wired(before, u)
            then Some(Run(AfterUpdate(st, |before|, u, OldNode(u, pp.nullLeaf)),
                          OldRoot(u, pp.nullLeaf) == RunLog(pp.initialRoot, before, pp.nullLeaf).1))
            else None
  {
    hide Concat, Partial, ComputeRoot, IndexBits, HashLeaf, RunLog, Hashed, Appended, RunPrimitives, PathPrimitives,
         ToField, NewRoot, UserOf;
    var k := |before|;
    var leaf := NewLeaf(u);
    var same := Equality(PathRoot(0, k), PreviousRoot(k));
    UserOfConcat(u.username, u.key, 0);
    var path0, path1 := PathPrimitives(k, u, 0, NullLeaf, leaf), PathPrimitives(k, u, 1, LeafHash(leaf), leaf);
    RunOne(pp, HashLeafOf(leaf), [GetIndex(leaf)] + (path0 + ([same] + path1)), st);
    if LeafHash(leaf) !in st.nodes {
      var st1 := Put(st, LeafHash(leaf), HashLeaf(leaf));
      RunOne(pp, GetIndex(leaf), path0 + ([same] + path1), st1);
      var st2 := st1.(indexed := st.indexed + {u.username});
      RunAppend(pp, path0, [same] + path1, st2);
      PathRuns(pp, st2, k, u, 0, NullLeaf, leaf);
      var st3 := AfterPath(st2, k, u, 0, pp.nullLeaf);
      RunOne(pp, same, path1, st3);
      PathRuns(pp, st3, k, u, 1, LeafHash(leaf), leaf);
    }
  }

  /** Addresses that update `k` may set on its way. */
  predicate OfUpdate(a: NodeAddress, k: nat) {
    || (a.PathRoot? && a.updateIdx == k)
    || (a.IntermediateRoot? && a.updateIdx == k)
  }

  /** `t` differs from `s` at most at addresses of update `k`. */
  ghost predicate KeepsOthers(s: Store, t: Store, k: nat) {
    && s.indexed == t.indexed
    && forall a | !OfUpdate(a, k) :: (a in s.nodes <==> a in t.nodes) && (a in s.nodes ==> s.nodes[a] == t.nodes[a])
  }

  lemma AfterPathKeeps(st: Store, k: nat, u: Update, pathId: nat, node: Digest)
    ensures KeepsOthers(st, AfterPath(st, k, u, pathId, node), k)
    ensures PathRoot(pathId, k) in AfterPath(st, k, u, pathId, node).nodes
    ensures AfterPath(st, k, u, pathId, node).nodes[PathRoot(pathId, k)]
         == ComputeRoot(node, IndexBits(u.username), u.path)
  {
    hide Partial, ComputeRoot, IndexBits;
  }

  /** `t` is `s` after update `k`: one more leaf hash, a new previous root, and nothing
      else outside that update's own addresses. */
  ghost predicate Advances(s: Store, t: Store, k: nat, u: Update) {
    var leaf := NewLeaf(u);
    && t.indexed == s.indexed + (if u.Append? then {u.username} else {})
    && LeafHash(leaf) in t.nodes && t.nodes[LeafHash(leaf)] == HashLeaf(leaf)
    && PathRoot(1, k) in t.nodes && t.nodes[PathRoot(1, k)] == NewRoot(u)
    && forall a | !OfUpdate(a, k) && a != LeafHash(leaf) ::
         (a in s.nodes <==> a in t.nodes) && (a in s.nodes ==> s.nodes[a] == t.nodes[a])
  }

  lemma AfterUpdateAdvances(st: Store, k: nat, u: Update, oldNode: Digest)
    ensures Advances(st, AfterUpdate(st, k, u, oldNode), k, u)
  {
    hide Concat, Partial, ComputeRoot, IndexBits, HashLeaf, NewLeaf;
    var leaf := NewLeaf(u);
    var st1 := if u.Rekey? then st else Put(st, LeafHash(leaf), HashLeaf(leaf)).(indexed := st.indexed + {u.username});
    var st2 := AfterPath(st1, k, u, 0, oldNode);
    var st3 := if u.Rekey? then Put(st2, LeafHash(leaf), HashLeaf(leaf)) else st2;
    AfterPathKeeps(st1, k, u, 0, oldNode);
    AfterPathKeeps(st3, k, u, 1, HashLeaf(leaf));
    hide AfterPath;
    assert !OfUpdate(LeafHash(leaf), k);
  }

  lemma HashedSnoc(before: seq<Update>, u: Update)
    ensures Hashed(before + [u]) == Hashed(before) + {NewLeaf(u)}
    ensures Appended(before + [u]) == Appended(before) + (if u.Append? then {u.username} else {})
  {
    hide NewLeaf;
    assert (before + [u])[..|before|] == before;
  }

  lemma AdvancesTracked(pp: PublicParams, before: seq<Update>, u: Update, s: Store, t: Store)
    requires Tracked(pp, before, s) && Advances(s, t, |before|, u)
    ensures Tracked(pp, before + [u], t)
  {
    hide Concat, NewRoot, HashLeaf, NewLeaf, RunLog, Hashed, Appended, OldRoot;
    HashedSnoc(before, u);
    RunLogSnoc(pp.initialRoot, before, u, pp.nullLeaf);
    forall l: UserLeaf ensures LeafHash(l) in t.nodes <==> l in Hashed(before + [u]) {
      assert !OfUpdate(LeafHash(l), |before|);
    }
    forall l: UserLeaf | LeafHash(l) in t.nodes ensures t.nodes[LeafHash(l)] == HashLeaf(l) {
      assert !OfUpdate(LeafHash(l), |before|);
    }
  }

  lemma FlattenUpdate(k: nat, u: Update)
    ensures Flatten(CompileUpdate(k, u)) == FlatUpdate(k, u)
  {
    hide Concat, Segment;
    FlattenEight(CompileUpdate(k, u));
    hide Flatten;
    var leaf1, leaf2 := IndexedLeaf(u), NewLeaf(u);
    var same := Equality(PathRoot(0, k), PreviousRoot(k));
    var from := if u.Rekey? then LeafHash(leaf1) else NullLeaf;
    var p0, p1, p2, p3 := Segment(k, u, 0, from, leaf1, 0), Segment(k, u, 0, from, leaf1, 1),
                          Segment(k, u, 0, from, leaf1, 2), Segment(k, u, 0, from, leaf1, 3);
    var q0, q1, q2, q3 := Segment(k, u, 1, LeafHash(leaf2), leaf1, 0), Segment(k, u, 1, LeafHash(leaf2), leaf1, 1),
                          Segment(k, u, 1, LeafHash(leaf2), leaf1, 2), Segment(k, u, 1, LeafHash(leaf2), leaf1, 3);
    RekeyShape(p0, p1, p2, p3, same, HashLeafOf(leaf2), q0, q1, q2, q3);
    AppendShape(HashLeafOf(leaf2), GetIndex(leaf2), p0, p1, p2, p3, same, q0, q1, q2, q3);
  }

  lemma RekeyShape<T>(a: T, b: T, c: T, d: T, e: T, f: T, w: T, x: T, y: T, z: T)
    ensures [a] + [b] + [c] + [d] + [e, f, w] + [x] + [y] + [z]
         == ([a] + ([b] + ([c] + ([d] + [])))) + ([e] + ([f] + ([w] + ([x] + ([y] + ([z] + []))))))
  {}

  lemma AppendShape<T>(e: T, f: T, a: T, b: T, c: T, d: T, g: T, w: T, x: T, y: T, z: T)
    ensures [e, f, a] + [b] + [c] + [d, g] + [w] + [x] + [y] + [z]
         == [e] + ([f] + (([a] + ([b] + ([c] + ([d] + [])))) + ([g] + ([w] + ([x] + ([y] + ([z] + [])))))))
  {}

  lemma FlattenEight<T>(ss: seq<seq<T>>)
    requires |ss| == 8
    ensures Flatten(ss) == ss[0] + ss[1] + ss[2] + ss[3] + ss[4] + ss[5] + ss[6] + ss[7]
  {
    hide Flatten;
    FlattenFirst(ss);
    FlattenStep(ss, 1);
    FlattenStep(ss, 2);
    FlattenStep(ss, 3);
    FlattenStep(ss, 4);
    FlattenStep(ss, 5);
    FlattenStep(ss, 6);
    FlattenStep(ss, 7);
    assert ss[..8] == ss;
  }

  lemma FlattenFirst<T>(ss: seq<seq<T>>)
    requires ss != []
    ensures Flatten(ss[..1]) == ss[0]
  {
    FlattenPrefix(ss, 0);
    assert Flatten(ss[..0]) == [];
  }

  lemma FlattenStep<T>(ss: seq<seq<T>>, i: nat)
    requires i < |ss|
    ensures Flatten(ss[..i + 1]) == Flatten(ss[..i]) + ss[i]
  {
    FlattenPrefix(ss, i);
  }

  // ---------------------------------------------------------------------- whole logs

  /** The prologue sets the three public values. */
  lemma PrologueRuns(pp: PublicParams)
    ensures RunPrimitives(pp, Flatten(Prologue), EmptyStore).Some?
    ensures var r := RunPrimitives(pp, Flatten(Prologue), EmptyStore).value; r.checks && Tracked(pp, [], r.store)
  {
    var ps := [Padding]
         + ([Padding] + ([Padding] + ([Padding] + ([Padding] + ([Padding] + ([WritePublicParameters] + []))))));
    FlattenPrologue();
    hide Flatten;
    var tail := [WritePublicParameters] + [];
    RunOne(pp, Padding, [Padding] + ([Padding] + ([Padding] + ([Padding] + ([Padding] + tail)))), EmptyStore);
    RunOne(pp, Padding, [Padding] + ([Padding] + ([Padding] + ([Padding] + tail))), EmptyStore);
    RunOne(pp, Padding, [Padding] + ([Padding] + ([Padding] + tail)), EmptyStore);
    RunOne(pp, Padding, [Padding] + ([Padding] + tail), EmptyStore);
    RunOne(pp, Padding, [Padding] + tail, EmptyStore);
    RunOne(pp, Padding, tail, EmptyStore);
    RunOne(pp, WritePublicParameters, [], EmptyStore);
  }

  lemma FlattenPrologue()
    ensures Flatten(Prologue)
         == [Padding]
              + ([Padding] + ([Padding] + ([Padding] + ([Padding] + ([Padding] + ([WritePublicParameters] + []))))))
  {
    hide Flatten;
    var ss := Prologue;
    FlattenFirst(ss);
    FlattenStep(ss, 1);
    FlattenStep(ss, 2);
    FlattenStep(ss, 3);
    FlattenStep(ss, 4);
    FlattenStep(ss, 5);
    FlattenStep(ss, 6);
    assert ss[..7] == ss;
  }

  /** How far a run of the prologue and some updates has got. */
  ghost predicate RunMeans(pp: PublicParams, updates: seq<Update>, r: Option<Run>) {
    && (r.Some? <==> WellWired(updates))
    && (r.Some? ==> Tracked(pp, updates, r.value.store))
    && (r.Some? ==> r.value.checks == RunLog(pp.initialRoot, updates, pp.nullLeaf).0)
  }

  /** Prologue and updates: the run exists exactly when the log is well wired, and its checks
      are those the verifier makes on the way. */
  lemma {:induction false} UpdatesRun(pp: PublicParams, prologue: seq<Primitive>, updates: seq<Update>)
    requires RunMeans(pp, [], RunPrimitives(pp, prologue, EmptyStore))
    ensures RunMeans(pp, updates, RunPrimitives(pp, prologue + Flatten(CompileUpdates(updates)), EmptyStore))
    decreases |updates|
  {
    hide *;
    if updates == [] {
      CompileNothing();
      assert prologue + [] == prologue;
    } else {
      var n := |updates| - 1;
      UpdatesRun(pp, prologue, updates[..n]);
      FlattenOneMore(prologue, updates, n);
      OneMoreUpdate(pp, updates[..n], updates[n], prologue + Flatten(CompileUpdates(updates[..n])));
      assert updates[..n] + [updates[n]] == updates;
    }
  }

  lemma CompileNothing()
    ensures Flatten(CompileUpdates([])) == []
  {}

  lemma CompileOneMore(updates: seq<Update>, n: nat)
    requires n == |updates| - 1
    ensures CompileUpdates(updates) == CompileUpdates(updates[..n]) + CompileUpdate(n, updates[n])
  {
    hide CompileUpdate;
  }

  lemma FlattenOneMore(prologue: seq<Primitive>, updates: seq<Update>, n: nat)
    requires n == |updates| - 1
    ensures prologue + Flatten(CompileUpdates(updates))
         == prologue + Flatten(CompileUpdates(updates[..n])) + FlatUpdate(n, updates[n])
  {
    hide *;
    CompileOneMore(updates, n);
    FlattenAppend(CompileUpdates(updates[..n]), CompileUpdate(n, updates[n]));
    FlattenUpdate(n, updates[n]);
  }

  lemma OneMoreUpdate(pp: PublicParams, before: seq<Update>, u: Update, sofar: seq<Primitive>)
    requires RunMeans(pp, before, RunPrimitives(pp, sofar, EmptyStore))
    ensures RunMeans(pp, before + [u], RunPrimitives(pp, sofar + FlatUpdate(|before|, u), EmptyStore))
  {
    hide FlatUpdate, Tracked, RunPrimitives, OldRoot, NewRoot, Wired;
    RunAppend(pp, sofar, FlatUpdate(|before|, u), EmptyStore);
    assert (before + [u])[..|before|] == before;
    RunLogSnoc(pp.initialRoot, before, u, pp.nullLeaf);
    hide RunLog;
    var r := RunPrimitives(pp, sofar, EmptyStore);
    if r.Some? {
      NextUpdateRuns(pp, before, u, r.value.store);
    }
  }

  lemma NextUpdateRuns(pp: PublicParams, before: seq<Update>, u: Update, st: Store)
    requires Tracked(pp, before, st)
    ensures var r := RunPrimitives(pp, FlatUpdate(|before|, u), st);
            && (r.Some? <==> Wired(before, u))
            && (r.Some? ==> Tracked(pp, before + [u], r.value.store))
            && (r.Some? ==>
                  r.value.checks == (OldRoot(u, pp.nullLeaf) == RunLog(pp.initialRoot, before, pp.nullLeaf).1))
  {
    if u.Rekey? {
      RekeyRuns(pp, before, u, st);
    } else {
      AppendRuns(pp, before, u, st);
    }
    var oldNode := OldNode(u, pp.nullLeaf);
    hide FlatUpdate, Tracked, Wired, AfterUpdate, RunPrimitives, RunLog, OldNode, OldRoot;
    AfterUpdateAdvances(st, |before|, u, oldNode);
    AdvancesTracked(pp, before, u, st, AfterUpdate(st, |before|, u, oldNode));
  }

  /** The compiler is correct: a compiled log runs exactly when it is well wired, and then
      all its equality checks hold exactly when the verifier accepts the log. */
  lemma CompiledLogRuns(pp: PublicParams, updates: seq<Update>)
    ensures var r := RunPrimitives(pp, Flatten(Compile(updates)), EmptyStore);
            && (r.Some? <==> WellWired(updates))
            && (r.Some? ==> r.value.checks == Verify(pp.initialRoot, updates, pp.finalRoot, pp.nullLeaf))
  {
    hide Flatten, CompileUpdates, RunPrimitives, RunLog, WellWired, OldRoot, NewRoot;
    var last := Equality(FinalRoot, PreviousRoot(|updates|));
    FlattenCompiled(updates);
    var sofar := Flatten(Prologue) + Flatten(CompileUpdates(updates));
    RunAppend(pp, sofar, [last], EmptyStore);
    PrologueMeansNothing(pp);
    UpdatesRun(pp, Flatten(Prologue), updates);
    var r := RunPrimitives(pp, sofar, EmptyStore);
    if r.Some? {
      RunOne(pp, last, [], r.value.store);
      assert [last] + [] == [last];
      RunNothing(pp, StepPrimitive(pp, last, r.value.store));
    }
  }

  lemma PrologueMeansNothing(pp: PublicParams)
    ensures RunMeans(pp, [], RunPrimitives(pp, Flatten(Prologue), EmptyStore))
  {
    hide Flatten, RunPrimitives, Tracked;
    PrologueRuns(pp);
  }

  lemma RunNothing(pp: PublicParams, r: Option<Run>)
    ensures Then(pp, r, []) == r
  {}

  lemma FlattenCompiled(updates: seq<Update>)
    ensures Flatten(Compile(updates))
         == Flatten(Prologue) + Flatten(CompileUpdates(updates)) + [Equality(FinalRoot, PreviousRoot(|updates|))]
  {
    hide Flatten, CompileUpdates;
    FlattenAppend(Prologue + CompileUpdates(updates), Epilogue(|updates|));
    FlattenAppend(Prologue, CompileUpdates(updates));
    FlattenOne([Equality(FinalRoot, PreviousRoot(|updates|))]);
  }
}
