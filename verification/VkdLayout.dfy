/** Which primitives share a subcircuit of a compiled log, and the table of representatives
    whose proving keys stand in for all other subcircuits. */
module VkdLayout {
  import opened Sequences
  import opened KeyDirectory
  import opened PortalProgram
  import opened VkdNames
  import opened VkdCompiler
  import opened VkdExecution
  import opened VkdCircuit
  import opened PortalMemory
  import opened VkdAcceptance
  import opened VkdTrace

  function TypeName(p: Primitive): string {
    match p
    case Equality(_, _) => "equality"
    case GetIndex(_) => "get index"
    case ComputePath(_, _, _, _) => "compute path"
    case HashLeafOf(_) => "hash leaf"
    case Padding => "padding"
    case WritePublicParameters => "write pp"
  }

  /** The kind of a subcircuit: the names of its primitives, in order. */
  function Kind(s: SubCircuit): (r: seq<string>)
    ensures |r| == |s| && forall i | 0 <= i < |s| :: r[i] == TypeName(s[i])
  {
    seq(|s|, (i: nat) requires i < |s| => TypeName(s[i]))
  }

  const PaddingKind := ["padding"]
  const ParametersKind := ["write pp"]
  const AppendKind := ["hash leaf", "get index", "compute path"]
  const PathKind := ["compute path"]
  const ClosingKind := ["compute path", "equality"]
  const RekeyKind := ["equality", "hash leaf", "compute path"]
  const EqualityKind := ["equality"]

  /** The subcircuit whose proving key is used for a kind; `None` panics. */
  function Representative(kind: seq<string>, numSubcircuits: nat): Option<int> {
    if kind == PaddingKind then Some(0)
    else if kind == ParametersKind then Some(6)
    else if kind == AppendKind then Some(7)
    else if kind == PathKind then Some(8)
    else if kind == ClosingKind then Some(10)
    else if kind == RekeyKind then Some(19)
    else if kind == EqualityKind then Some(numSubcircuits - 1)
    else None
  }

  function UniqueSubcircuits(numSubcircuits: nat): seq<int> {
    [0, 6, 7, 8, 10, 19, numSubcircuits - 1]
  }

  lemma KindsDiffer()
    ensures PaddingKind != ParametersKind && PaddingKind != PathKind && PaddingKind != EqualityKind
    ensures ParametersKind != PathKind && ParametersKind != EqualityKind && PathKind != EqualityKind
    ensures AppendKind != RekeyKind
  {
    assert PaddingKind[0] == "padding" && ParametersKind[0] == "write pp";
    assert PathKind[0] == "compute path" && EqualityKind[0] == "equality";
    assert AppendKind[0] == "hash leaf" && RekeyKind[0] == "equality";
    assert "padding"[0] == 'p' && "write pp"[0] == 'w' && "compute path"[0] == 'c' && "equality"[0] == 'e'
        && "hash leaf"[0] == 'h';
  }

  lemma TableOf(n: nat)
    ensures Representative(PaddingKind, n) == Some(0) && Representative(ParametersKind, n) == Some(6)
    ensures Representative(AppendKind, n) == Some(7) && Representative(PathKind, n) == Some(8)
    ensures Representative(ClosingKind, n) == Some(10) && Representative(RekeyKind, n) == Some(19)
    ensures Representative(EqualityKind, n) == Some(n - 1)
  {
    KindsDiffer();
    assert |AppendKind| == |RekeyKind| == 3 && |ClosingKind| == 2;
    assert |PaddingKind| == |ParametersKind| == |PathKind| == |EqualityKind| == 1;
  }

  // ---------------------------------------------------------------------- the layout

  /** The kind of subcircuit `j` of an update: an append hashes its new leaf first and closes
      its old path with the equality; a key change does both between its two paths. */
  function UpdateKind(append: bool, j: nat): seq<string> {
    if append && j == 0 then AppendKind
    else if append && j == 3 then ClosingKind
    else if !append && j == 4 then RekeyKind
    else PathKind
  }

  lemma KindsOfUpdate(k: nat, u: Update)
    ensures forall j | 0 <= j < 8 :: Kind(CompileUpdate(k, u)[j]) == UpdateKind(u.Append?, j)
  {
    hide Segment, Concat, NewLeaf, IndexedLeaf, PreviousRoot;
    forall j | 0 <= j < 8 ensures Kind(CompileUpdate(k, u)[j]) == UpdateKind(u.Append?, j) {
      SegmentKind(k, u);
    }
  }

  lemma SegmentKind(k: nat, u: Update)
    ensures forall pathId, initial, leaf, i :: Segment(k, u, pathId, initial, leaf, i).ComputePath?
  {}

  /** The kind of every subcircuit of a compiled log, by position. */
  function KindAt(updates: seq<Update>, i: nat): seq<string>
    requires i < 8 + 8 * |updates|
  {
    if i < 6 then PaddingKind
    else if i == 6 then ParametersKind
    else if i == 7 + 8 * |updates| then EqualityKind
    else UpdateKind(updates[(i - 7) / 8].Append?, (i - 7) % 8)
  }

  lemma {:induction false} UpdatesAt(updates: seq<Update>, i: nat)
    requires i < 8 * |updates|
    ensures CompileUpdates(updates)[i] == CompileUpdate(i / 8, updates[i / 8])[i % 8]
  {
    hide CompileUpdate;
    var n := |updates| - 1;
    if i < 8 * n {
      UpdatesAt(updates[..n], i);
    } else {
      assert i / 8 == n && i % 8 == i - 8 * n;
    }
  }

  lemma CompiledKinds(updates: seq<Update>, i: nat)
    requires i < 8 + 8 * |updates|
    ensures Kind(Compile(updates)[i]) == KindAt(updates, i)
  {
    hide CompileUpdate, CompileUpdates;
    var n := |updates|;
    if i < 7 {
      assert Compile(updates)[i] == Prologue[i];
    } else if i == 7 + 8 * n {
      assert Compile(updates)[i] == Epilogue(n)[0];
    } else {
      assert Compile(updates)[i] == CompileUpdates(updates)[i - 7];
      UpdatesAt(updates, i - 7);
      KindsOfUpdate((i - 7) / 8, updates[(i - 7) / 8]);
    }
  }

  lemma NamesDiffer()
    ensures "compute path" != "equality" && "compute path" != "hash leaf" && "compute path" != "get index"
    ensures "compute path" != "padding" && "compute path" != "write pp"
  {
    assert "compute path"[0] == 'c' && "equality"[0] == 'e' && "hash leaf"[0] == 'h' && "get index"[0] == 'g'
        && "padding"[0] == 'p' && "write pp"[0] == 'w';
  }

  /** Every subcircuit of a compiled log has one of the seven kinds, computes at most one path
      segment and has a representative among the seven unique ones. */
  lemma SevenKinds(updates: seq<Update>, i: nat)
    requires i < |Compile(updates)|
    ensures var kind := Kind(Compile(updates)[i]);
            && kind in {PaddingKind, ParametersKind, AppendKind, PathKind, ClosingKind, RekeyKind, EqualityKind}
            && multiset(kind)["compute path"] <= 1
            && Representative(kind, |Compile(updates)|).Some?
            && Representative(kind, |Compile(updates)|).value in UniqueSubcircuits(|Compile(updates)|)
  {
    hide Compile, Kind, Representative;
    CompiledKinds(updates, i);
    NamesDiffer();
    TableOf(|Compile(updates)|);
  }

  // -------------------------------------------------------- when the table is right

  /** The representative of subcircuit `i` exists and has its kind. */
  predicate RepresentedAt(updates: seq<Update>, i: nat)
    requires i < |Compile(updates)|
  {
    var circuit := Compile(updates);
    var r := Representative(Kind(circuit[i]), |circuit|);
    r.Some? && 0 <= r.value < |circuit| && Kind(circuit[r.value]) == Kind(circuit[i])
  }

  /** The table was read off a log that appends first and changes a key second. */
  predicate StartsAsTable(updates: seq<Update>) {
    && ((exists u | u in updates :: u.Append?) ==> updates[0].Append?)
    && ((exists u | u in updates :: u.Rekey?) ==> |updates| > 1 && updates[1].Rekey?)
  }

  lemma RepresentedByKind(updates: seq<Update>, i: nat)
    requires i < |Compile(updates)|
    ensures RepresentedAt(updates, i) <==>
              var r := Representative(KindAt(updates, i), |Compile(updates)|);
              r.Some? && 0 <= r.value < |Compile(updates)| && KindAt(updates, r.value) == KindAt(updates, i)
  {
    hide Compile, Kind, Representative, KindAt;
    forall j | 0 <= j < |Compile(updates)| ensures Kind(Compile(updates)[j]) == KindAt(updates, j) {
      CompiledKinds(updates, j);
    }
  }

  lemma KindInUpdate(updates: seq<Update>, k: nat, j: nat)
    requires k < |updates| && j < 8
    ensures 7 + 8 * k + j < 8 + 8 * |updates|
    ensures KindAt(updates, 7 + 8 * k + j) == UpdateKind(updates[k].Append?, j)
  {
    assert (8 * k + j) / 8 == k && (8 * k + j) % 8 == j;
  }

  lemma RepresentedInUpdate(updates: seq<Update>, k: nat, j: nat)
    requires k < |updates| && j < 8
    ensures 7 + 8 * k + j < |Compile(updates)|
    ensures j == 0 && updates[k].Append? ==> (RepresentedAt(updates, 7 + 8 * k + j) <==> updates[0].Append?)
    ensures j == 3 && updates[k].Append? ==> (RepresentedAt(updates, 7 + 8 * k + j) <==> updates[0].Append?)
    ensures j == 4 && updates[k].Rekey? ==>
              (RepresentedAt(updates, 7 + 8 * k + j) <==> |updates| > 1 && updates[1].Rekey?)
    ensures UpdateKind(updates[k].Append?, j) == PathKind ==> RepresentedAt(updates, 7 + 8 * k + j)
  {
    hide Representative, KindAt, RepresentedAt, Kind;
    RepresentedByKind(updates, 7 + 8 * k + j);
    TableOf(|Compile(updates)|);
    KindInUpdate(updates, k, j);
    KindInUpdate(updates, 0, 0);
    KindInUpdate(updates, 0, 1);
    KindInUpdate(updates, 0, 3);
    if |updates| > 1 {
      KindInUpdate(updates, 1, 4);
    }
    assert |AppendKind| == |RekeyKind| == 3 && |ClosingKind| == 2 && |PathKind| == 1;
  }

  lemma RepresentedElsewhere(updates: seq<Update>, i: nat)
    requires updates != [] && (i < 7 || i == 7 + 8 * |updates|)
    ensures i < |Compile(updates)| && RepresentedAt(updates, i)
  {
    hide Representative, RepresentedAt, Kind;
    RepresentedByKind(updates, i);
    TableOf(|Compile(updates)|);
  }

  /** Every subcircuit of a compiled log is of its representative's kind exactly when the log
      starts as the table expects: any append implies that the first update is one, any key
      change that the second update is one. */
  lemma RepresentativesIff(updates: seq<Update>)
    requires updates != []
    ensures (forall i | 0 <= i < |Compile(updates)| :: RepresentedAt(updates, i)) <==> StartsAsTable(updates)
  {
    hide Compile, RepresentedAt, UpdateKind;
    if forall i | 0 <= i < |Compile(updates)| :: RepresentedAt(updates, i) {
      if u :| u in updates && u.Append? {
        var k :| 0 <= k < |updates| && updates[k] == u;
        RepresentedInUpdate(updates, k, 0);
      }
      if u :| u in updates && u.Rekey? {
        var k :| 0 <= k < |updates| && updates[k] == u;
        RepresentedInUpdate(updates, k, 4);
      }
    }
    if StartsAsTable(updates) {
      forall i | 0 <= i < |Compile(updates)| ensures RepresentedAt(updates, i) {
        if i < 7 || i == 7 + 8 * |updates| {
          RepresentedElsewhere(updates, i);
        } else {
          var k, j := (i - 7) / 8, (i - 7) % 8;
          assert updates[k] in updates;
          RepresentedInUpdate(updates, k, j);
          PathsElsewhere(updates[k].Append?, j);
        }
      }
    }
  }

  lemma PathsElsewhere(append: bool, j: nat)
    ensures (append && j == 0) || (append && j == 3) || (!append && j == 4) || UpdateKind(append, j) == PathKind
  {}

  // ------------------------------------------------------- what one key can stand in for

  datatype Access = Reads | Writes | Checks

  function AccessOf<N>(op: Op<N>): Access {
    match op
    case Get(_) => Reads
    case Set(_, _) => Writes
    case Enforce(_) => Checks
  }

  /** The accesses and checks of a program without names and values. */
  function Shape<N>(ops: seq<Op<N>>): (r: seq<Access>)
    ensures |r| == |ops| && forall i | 0 <= i < |ops| :: r[i] == AccessOf(ops[i])
  {
    seq(|ops|, (i: nat) requires i < |ops| => AccessOf(ops[i]))
  }

  lemma {:induction false} ShapeOps<M, N>(a: seq<Op<M>>, b: seq<Op<N>>)
    requires Shape(a) == Shape(b)
    ensures PortalOps(a) == PortalOps(b)
  {
    if a != [] {
      assert Shape(a)[0] == Shape(b)[0];
      forall i | 0 <= i < |a[1..]| ensures Shape(a[1..])[i] == Shape(b[1..])[i] {
        assert Shape(a)[i + 1] == Shape(b)[i + 1];
      }
      ShapeOps(a[1..], b[1..]);
    }
  }

  lemma ShapeRenamed<M, N>(f: M -> N, ops: seq<Op<M>>)
    ensures Shape(RenameOps(f, ops)) == Shape(ops)
  {
    forall i | 0 <= i < |ops| ensures Shape(RenameOps(f, ops))[i] == Shape(ops)[i] {
      RenameAt(f, ops, i);
    }
  }

  lemma TypeNamesDiffer(p: Primitive, q: Primitive)
    requires TypeName(p) == TypeName(q)
    ensures p.Equality? == q.Equality? && p.GetIndex? == q.GetIndex? && p.ComputePath? == q.ComputePath?
    ensures p.HashLeafOf? == q.HashLeafOf? && p.Padding? == q.Padding?
  {
    assert TypeName(p)[0] == TypeName(q)[0];
  }

  lemma PrimitiveShape(pp: PublicParams, p: Primitive, q: Primitive)
    requires TypeName(p) == TypeName(q)
    ensures Shape(PrimitiveOps(pp, p)) == Shape(PrimitiveOps(pp, q))
  {
    TypeNamesDiffer(p, q);
  }

  /** Subcircuits of one kind make the same accesses and checks in the same order, which is
      what lets them share a proving key. */
  lemma {:induction false} SameKindSameShape(pp: PublicParams, a: SubCircuit, b: SubCircuit)
    requires Kind(a) == Kind(b)
    ensures Shape(SubcircuitOps(pp, a)) == Shape(SubcircuitOps(pp, b))
    decreases |a|
  {
    hide PrimitiveOps, TypeName;
    if a != [] {
      assert Kind(a)[0] == Kind(b)[0];
      PrimitiveShape(pp, a[0], b[0]);
      forall i | 0 <= i < |a[1..]| ensures Kind(a[1..])[i] == Kind(b[1..])[i] {
        assert Kind(a)[i + 1] == Kind(b)[i + 1];
      }
      SameKindSameShape(pp, a[1..], b[1..]);
      ShapeConcat(PrimitiveOps(pp, a[0]), SubcircuitOps(pp, a[1..]));
      ShapeConcat(PrimitiveOps(pp, b[0]), SubcircuitOps(pp, b[1..]));
    }
  }

  lemma ShapeConcat<N>(a: seq<Op<N>>, b: seq<Op<N>>)
    ensures Shape(a + b) == Shape(a) + Shape(b)
  {}

  /** Over a log that starts as the table expects, subcircuit `i` of the final circuit and its
      representative make the same accesses in the same order, so their subtraces have one
      length. */
  lemma RepresentativeFits(pp: PublicParams, updates: seq<Update>, i: nat)
    requires updates != [] && StartsAsTable(updates) && i < |Compile(updates)|
    ensures var r := Representative(Kind(Compile(updates)[i]), |Compile(updates)|);
            && r.Some? && 0 <= r.value < |Compile(updates)|
            && Shape(CircuitPrograms(pp, updates)[r.value]) == Shape(CircuitPrograms(pp, updates)[i])
            && PortalOps(CircuitPrograms(pp, updates)[r.value]) == PortalOps(CircuitPrograms(pp, updates)[i])
  {
    hide Compile, Kind, Representative, SubcircuitOps, Shape, PortalOps, CircuitOps, RenameOps;
    RepresentativesIff(updates);
    var circuit := Compile(updates);
    assert RepresentedAt(updates, i);
    var r := Representative(Kind(circuit[i]), |circuit|).value;
    SameKindSameShape(pp, circuit[r], circuit[i]);
    CircuitOpsAt(pp, circuit, r);
    CircuitOpsAt(pp, circuit, i);
    ShapeRenamed(WireName, SubcircuitOps(pp, circuit[r]));
    ShapeRenamed(WireName, SubcircuitOps(pp, circuit[i]));
    ShapeOps(CircuitPrograms(pp, updates)[r], CircuitPrograms(pp, updates)[i]);
  }

  /** The log has one update per request: an append for each registration. */
  lemma {:induction false} ServedKinds(d: Directory, reqs: seq<Request>)
    requires Serve(d, reqs).Some?
    ensures var log := Serve(d, reqs).value.log;
            |log| == |reqs| && forall k | 0 <= k < |reqs| :: log[k].Append? <==> reqs[k].Register?
  {
    hide CanApply, Apply, Record;
    if reqs != [] {
      var n := |reqs| - 1;
      ServedKinds(d, reqs[..n]);
      RecordKind(Serve(d, reqs[..n]).value.directory, reqs[n]);
    }
  }

  lemma RecordKind(d: Directory, req: Request)
    requires CanApply(d, req)
    ensures Record(d, req).Append? <==> req.Register?
  {}

  lemma {:induction false} RandomRequestKinds(n: nat)
    ensures forall k | 0 <= k <= n :: RandomRequests(n)[k].Register? <==> k == 0
  {
    if n > 0 {
      RandomRequestKinds(n - 1);
    }
  }

  /** A random instance starts as the table expects: one append, then key changes. */
  lemma RandomInstanceStartsAsTable(n: nat)
    requires Serve(GenesisDirectory(), RandomRequests(n)).Some?
    ensures var log := Serve(GenesisDirectory(), RandomRequests(n)).value.log;
            log != [] && StartsAsTable(log)
  {
    hide Serve;
    ServedKinds(GenesisDirectory(), RandomRequests(n));
    RandomRequestKinds(n);
  }
}
